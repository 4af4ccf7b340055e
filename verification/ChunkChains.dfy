/** The chain of partly used chunks of one group, on values. */
module ChunkChains {
  import opened Sequences
  import opened SizeClasses
  import opened ChunkLists

  lemma {:induction false} LinkedFrame(chunks: Chunks, chunks': Chunks, first: nat, chain: seq<nat>)
    requires Linked(chunks, first, chain)
    requires forall b | b in chain :: b in chunks' && (b in chunks ==> chunks'[b].next == chunks[b].next)
    ensures Linked(chunks', first, chain)
    decreases chain
  {
    if chain != [] {
      assert forall b | b in chain[1..] :: b in chain;
      LinkedFrame(chunks, chunks', chunks[first].next, chain[1..]);
    }
  }

  /** Writing to the group's own chunks is invisible to the chains of other groups. */
  lemma ChainFrame(chunks: Chunks, fls: FreeLists, chunks': Chunks, fls': FreeLists, j: Kind, k: Kind,
                   first: nat, chain: seq<nat>)
    requires chunks.Keys == fls.Keys && chunks'.Keys == fls'.Keys && j != k
    requires OthersKept(j, chunks, fls, chunks', fls') && ChainOk(chunks, fls, k, first, chain)
    ensures ChainOk(chunks', fls', k, first, chain)
  {
    LinkedFrame(chunks, chunks', first, chain);
  }

  /** Making the predecessor of the i-th chunk skip it unlinks it. */
  lemma {:induction false} LinkedSkip(chunks: Chunks, chunks': Chunks, first: nat, chain: seq<nat>, i: nat)
    requires Linked(chunks, first, chain) && Distinct(chain) && 0 < i < |chain|
    requires chunks'.Keys == chunks.Keys - {chain[i]}
    requires chain[i] in chunks
    requires forall a | a in chunks' :: chunks'[a].next == if a == chain[i - 1] then chunks[chain[i]].next
             else chunks[a].next
    ensures Linked(chunks', first, Unlinked(chain, i))
    decreases i
  {
    hide Distinct, Unlinked;
    var tl := chain[1..];
    TailUnlinked(chain, i);
    LinkedDomain(chunks, first, chain);
    assert chain[0] in chain && tl[i - 1] == chain[i] != chain[0];
    assert forall b | b in chain[2..] :: b in tl;
    if i == 1 {
      LinkedFrame(chunks, chunks', chunks[tl[0]].next, chain[2..]);
    } else {
      LinkedSkip(chunks, chunks', chunks[first].next, tl, i - 1);
    }
  }

  lemma TailUnlinked(s: seq<nat>, i: nat)
    requires Distinct(s) && 0 < i < |s|
    ensures Distinct(s[1..]) && s[0] != s[i] && Unlinked(s[1..], 0) == s[2..]
    ensures s[0] !in s[1..] && s[1] !in s[2..] && (i > 1 ==> s[0] != s[i - 1])
    ensures |Unlinked(s, i)| > 0 && Unlinked(s, i)[0] == s[0] && Unlinked(s, i)[1..] == Unlinked(s[1..], i - 1)
  {}

  lemma {:induction false} LinkedDomain(chunks: Chunks, first: nat, chain: seq<nat>)
    requires Linked(chunks, first, chain)
    ensures forall b | b in chain :: b in chunks && b != 0
    decreases chain
  {
    if chain != [] {
      LinkedDomain(chunks, chunks[first].next, chain[1..]);
      assert forall b | b in chain :: b == chain[0] || b in chain[1..];
    }
  }

  lemma BlockChunk(chunks: Chunks, p: nat)
    requires IsLive(chunks, p)
    ensures IsBlock(chunks, p) && Mask(p) in chunks && KindOf(chunks, p) == chunks[Mask(p)].kind
  {}

  lemma BlockInChunk(chunks: Chunks, p: nat)
    requires IsBlock(chunks, p)
    ensures Mask(p) in chunks
  {}

  lemma NothingChanged(k: Kind, chunks: Chunks, fls: FreeLists)
    requires chunks.Keys == fls.Keys
    ensures OthersKept(k, chunks, fls, chunks, fls) && KindsKept(chunks, chunks)
  {}

  lemma ChainHead(chunks: Chunks, fls: FreeLists, k: Kind, first: nat, chain: seq<nat>)
    requires chunks.Keys == fls.Keys && ChainOk(chunks, fls, k, first, chain)
    ensures chain == [] <==> first == 0
    ensures first != 0 ==> chain[0] == first && first in chunks && chunks[first].kind == k && fls[first] != []
  {
    if chain != [] { assert chain[0] in chain; }
  }

  /** The first chunk has just given out an object: it leaves the chain exactly when that made it full. */
  lemma ChainAfterPop(chunks: Chunks, fls: FreeLists, chunks': Chunks, fls': FreeLists, k: Kind, chain: seq<nat>)
    requires chunks.Keys == fls.Keys && chunks'.Keys == fls'.Keys && chain != []
    requires ChainOk(chunks, fls, k, chain[0], chain) && OnlyAt(chain[0], chunks, fls, chunks', fls')
    requires chunks'[chain[0]].next == chunks[chain[0]].next
    requires NoneEmpty(chunks, fls) && |fls'[chain[0]]| <= |fls[chain[0]]|
    ensures fls'[chain[0]] != [] ==> ChainOk(chunks', fls', k, chain[0], chain)
    ensures fls'[chain[0]] == [] ==> ChainOk(chunks', fls', k, chunks[chain[0]].next, chain[1..])
    ensures OthersKept(k, chunks, fls, chunks', fls') && KindsKept(chunks, chunks')
    ensures NoneEmpty(chunks', fls')
  {
    hide Count;
    assert chain[0] in chain;
    LinkedDomain(chunks, chain[0], chain);
    LinkedFrame(chunks, chunks', chain[0], chain);
    UnlinkedFacts(chain, 0);
    assert Unlinked(chain, 0) == chain[1..];
  }

  /** A chunk of the group that is not chained, and now has a free object, goes to the front. */
  lemma ChainAfterPush(chunks: Chunks, fls: FreeLists, chunks': Chunks, fls': FreeLists, k: Kind,
                       first: nat, chain: seq<nat>, b: nat)
    requires chunks.Keys == fls.Keys && chunks'.Keys == fls'.Keys == chunks.Keys + {b}
    requires ChainOk(chunks, fls, k, first, chain) && b !in chain
    requires forall a | a in chunks && a != b :: chunks'[a] == chunks[a] && fls'[a] == fls[a]
    requires chunks'[b].kind == k && (b in chunks ==> chunks[b].kind == k)
    requires b != 0
    requires NoneEmpty(chunks, fls) && |fls'[b]| < Count(k)
    ensures fls'[b] != [] && chunks'[b].next == first ==> ChainOk(chunks', fls', k, b, [b] + chain)
    ensures fls'[b] == [] ==> ChainOk(chunks', fls', k, first, chain)
    ensures OthersKept(k, chunks, fls, chunks', fls') && KindsKept(chunks, chunks')
    ensures NoneEmpty(chunks', fls')
  {
    hide Count;
    LinkedFrame(chunks, chunks', first, chain);
    assert ([b] + chain)[1..] == chain;
  }

  /** A chunk stays chained, with some other number of free objects. */
  lemma ChainAfterTouch(chunks: Chunks, fls: FreeLists, chunks': Chunks, fls': FreeLists, k: Kind,
                        first: nat, chain: seq<nat>, b: nat)
    requires chunks.Keys == fls.Keys && chunks'.Keys == fls'.Keys
    requires ChainOk(chunks, fls, k, first, chain) && OnlyAt(b, chunks, fls, chunks', fls')
    requires chunks[b].kind == k && chunks'[b].next == chunks[b].next && fls[b] != [] && fls'[b] != []
    requires NoneEmpty(chunks, fls) && |fls'[b]| < Count(k)
    ensures ChainOk(chunks', fls', k, first, chain)
    ensures OthersKept(k, chunks, fls, chunks', fls') && KindsKept(chunks, chunks')
    ensures NoneEmpty(chunks', fls')
  {
    hide Count;
    LinkedFrame(chunks, chunks', first, chain);
  }

  /** A full chunk with a single object is given back without ever having been chained. */
  lemma ChainAfterGone(chunks: Chunks, fls: FreeLists, chunks': Chunks, fls': FreeLists, k: Kind,
                       first: nat, chain: seq<nat>, b: nat)
    requires chunks.Keys == fls.Keys && b in chunks && chunks[b].kind == k && fls[b] == []
    requires ChainOk(chunks, fls, k, first, chain) && chunks' == chunks - {b} && fls' == fls - {b}
    requires NoneEmpty(chunks, fls)
    ensures ChainOk(chunks', fls', k, first, chain)
    ensures OthersKept(k, chunks, fls, chunks', fls') && KindsKept(chunks, chunks')
    ensures NoneEmpty(chunks', fls')
  {
    hide Count;
    LinkedFrame(chunks, chunks', first, chain);
  }

  lemma ChainMember(chunks: Chunks, fls: FreeLists, k: Kind, first: nat, chain: seq<nat>, b: nat)
    requires chunks.Keys == fls.Keys && ChainOk(chunks, fls, k, first, chain) && b in chunks && chunks[b].kind == k
    ensures b in chain <==> fls[b] != []
    ensures Linked(chunks, first, chain) && Distinct(chain) && forall a | a in chain :: a in chunks
  {}

  /** The i-th chunk of the chain is unlinked from its predecessor, if any, and given back. */
  lemma ChainAfterDrop(chunks: Chunks, fls: FreeLists, chunks': Chunks, fls': FreeLists, k: Kind,
                       first: nat, chain: seq<nat>, i: nat)
    requires chunks.Keys == fls.Keys && chunks'.Keys == fls'.Keys && i < |chain|
    requires ChainOk(chunks, fls, k, first, chain) && chunks'.Keys == chunks.Keys - {chain[i]}
    requires forall a | a in chunks' :: fls'[a] == fls[a] && chunks'[a].kind == chunks[a].kind
    requires chain[i] in chunks
    requires forall a | a in chunks' :: chunks'[a] ==
               if i > 0 && a == chain[i - 1] then chunks[a].(next := chunks[chain[i]].next) else chunks[a]
    requires NoneEmpty(chunks, fls)
    ensures ChainOk(chunks', fls', k, if i > 0 then first else chunks[chain[0]].next, Unlinked(chain, i))
    ensures OthersKept(k, chunks, fls, chunks', fls') && KindsKept(chunks, chunks')
    ensures NoneEmpty(chunks', fls')
  {
    hide Count;
    UnlinkedFacts(chain, i);
    assert chain[i] in chain;
    if i > 0 {
      assert chain[i - 1] in chain;
      LinkedSkip(chunks, chunks', first, chain, i);
    } else {
      assert Unlinked(chain, 0) == chain[1..];
      LinkedFrame(chunks, chunks', chunks[chain[0]].next, chain[1..]);
    }
  }
}
