/** The file allocation table in memory: the packing of 12-bit entries into bytes, both ways. */
module Fat12Fat {
  type Byte = bv8
  type ClusterId = bv16

  /** Every 12-bit entry fits. */
  predicate Short(e: ClusterId) { e < 0x1000 }

  function First(f0: Byte, f1: Byte): ClusterId {
    (f0 as bv16) | (((f1 as bv16) << 8) & 0xF00)
  }

  function Second(f1: Byte, f2: Byte): ClusterId {
    ((f2 as bv16) << 4) | (((f1 as bv16) >> 4) & 0x00F)
  }

  function Byte0(u: ClusterId): Byte { (u & 0xFF) as bv8 }

  function Byte1(u: ClusterId, v: ClusterId): Byte {
    ((((u & 0x0F00) >> 8) | ((v & 0x00F) << 4)) & 0xFF) as bv8
  }

  function Byte2(v: ClusterId): Byte { (((v & 0xFF0) >> 4) & 0xFF) as bv8 }

  lemma PairOfTriple(f0: Byte, f1: Byte, f2: Byte)
    ensures Byte0(First(f0, f1)) == f0
    ensures Byte1(First(f0, f1), Second(f1, f2)) == f1
    ensures Byte2(Second(f1, f2)) == f2
    ensures Short(First(f0, f1)) && Short(Second(f1, f2))
  {}

  lemma TripleOfPair(u: ClusterId, v: ClusterId)
    ensures First(Byte0(u), Byte1(u, v)) == u & 0xFFF && Second(Byte1(u, v), Byte2(v)) == v & 0xFFF
    ensures u & 0xFFF == u <==> Short(u)
    ensures v & 0xFFF == v <==> Short(v)
  {}

  /** The entries of a table of whole triples of bytes, first triple first. */
  function Unpack(src: seq<Byte>): (r: seq<ClusterId>)
    requires |src| % 3 == 0
    ensures |r| == |src| / 3 * 2
  {
    if src == [] then []
    else Unpack(src[..|src| - 3]) + [First(src[|src| - 3], src[|src| - 2]), Second(src[|src| - 2], src[|src| - 1])]
  }

  /** The bytes of a table of whole pairs of entries. */
  function Pack(fat: seq<ClusterId>): (r: seq<Byte>)
    requires |fat| % 2 == 0
    ensures |r| == |fat| / 2 * 3
  {
    if fat == [] then []
    else
      var u, v := fat[|fat| - 2], fat[|fat| - 1];
      Pack(fat[..|fat| - 2]) + [Byte0(u), Byte1(u, v), Byte2(v)]
  }

  lemma UnpackStep(src: seq<Byte>, f0: Byte, f1: Byte, f2: Byte)
    requires |src| % 3 == 0
    ensures Unpack(src + [f0, f1, f2]) == Unpack(src) + [First(f0, f1), Second(f1, f2)]
  {
    hide First, Second;
    var s := src + [f0, f1, f2];
    assert s[..|s| - 3] == src;
  }

  lemma PackStep(fat: seq<ClusterId>, u: ClusterId, v: ClusterId)
    requires |fat| % 2 == 0
    ensures Pack(fat + [u, v]) == Pack(fat) + [Byte0(u), Byte1(u, v), Byte2(v)]
  {
    hide Byte0, Byte1, Byte2;
    var f := fat + [u, v];
    assert f[..|f| - 2] == fat;
  }

  /** The bytes of the first entries come first. */
  lemma {:induction false} PackPrefix(fat: seq<ClusterId>, f: nat)
    requires |fat| % 2 == 0 && f % 2 == 0 && f <= |fat|
    ensures f / 2 * 3 <= |Pack(fat)| && Pack(fat)[..f / 2 * 3] == Pack(fat[..f])
    decreases |fat|
  {
    hide Byte0, Byte1, Byte2;
    if f < |fat| {
      PackPrefix(fat[..|fat| - 2], f);
      assert fat[..|fat| - 2][..f] == fat[..f];
    } else {
      assert fat[..f] == fat;
    }
  }

  /** Writing back what was read restores every byte. */
  lemma {:induction false} PackOfUnpack(src: seq<Byte>)
    requires |src| % 3 == 0
    ensures Pack(Unpack(src)) == src && forall k | 0 <= k < |Unpack(src)| :: Short(Unpack(src)[k])
  {
    hide First, Second, Byte0, Byte1, Byte2, Short, Pack, Unpack;
    if src == [] {
      NothingPacked();
    } else {
      var n := |src| - 3;
      var f0, f1, f2 := src[n], src[n + 1], src[n + 2];
      PackOfUnpack(src[..n]);
      PairOfTriple(f0, f1, f2);
      PackStep(Unpack(src[..n]), First(f0, f1), Second(f1, f2));
      assert src == src[..n] + [f0, f1, f2];
      UnpackStep(src[..n], f0, f1, f2);
    }
  }

  /** Reading back what was written restores a table of even length exactly when all its entries have 12 bits. */
  lemma {:induction false} UnpackOfPackIff(fat: seq<ClusterId>)
    requires |fat| % 2 == 0
    ensures Unpack(Pack(fat)) == fat <==> forall k | 0 <= k < |fat| :: Short(fat[k])
  {
    hide First, Second, Byte0, Byte1, Byte2, Short, Pack, Unpack;
    if fat == [] {
      NothingPacked();
    } else {
      var n := |fat| - 2;
      var u, v := fat[n], fat[n + 1];
      UnpackOfPackIff(fat[..n]);
      TripleOfPair(u, v);
      assert fat == fat[..n] + [u, v];
      PackStep(fat[..n], u, v);
      UnpackStep(Pack(fat[..n]), Byte0(u), Byte1(u, v), Byte2(v));
      SamePairs(Unpack(Pack(fat[..n])), fat[..n], u & 0xFFF, v & 0xFFF, u, v);
      assert forall k | 0 <= k < n :: fat[k] == fat[..n][k];
    }
  }

  // ---- The packing in plain arithmetic ----

  /**
    Entry `e` of a packed table as the FAT specification tells it: the little-endian word at byte
    e + e / 2, of which an even entry has the low 12 bits and an odd one the high 12 bits.
  */
  function PackedEntry(bytes: seq<Byte>, e: nat): nat
    requires e + e / 2 + 1 < |bytes|
  {
    var w := Word(bytes[e + e / 2], bytes[e + e / 2 + 1]);
    if e % 2 == 0 then w % 0x1000 else w / 16
  }

  /** The low 12 bits. */
  function Low(e: ClusterId): nat { (e & 0xFFF) as nat }

  function Word(low: Byte, high: Byte): nat { low as nat + 256 * high as nat }

  lemma FirstIs(f0: Byte, f1: Byte)
    ensures First(f0, f1) as nat == Word(f0, f1) % 0x1000
  {
    hide First;
    Nibbles(f1);
    FirstSum(f0, f1);
    SumOfByte(f0, f1 & 0xF);
    LowTwelve(f0 as nat, f1 as nat, (f1 >> 4) as nat, (f1 & 0xF) as nat);
  }

  lemma SecondIs(f1: Byte, f2: Byte)
    ensures Second(f1, f2) as nat == Word(f1, f2) / 16
  {
    hide Second;
    Nibbles(f1);
    SecondSum(f1, f2);
    SumOfNibble(f1 >> 4, f2);
    HighTwelve(f1 as nat, f2 as nat, (f1 >> 4) as nat, (f1 & 0xF) as nat);
  }

  lemma Nibbles(f: Byte)
    ensures f as nat == 16 * (f >> 4) as nat + (f & 0xF) as nat && (f & 0xF) as nat < 16 && (f >> 4) as nat < 16
  {
    assert f == 16 * (f >> 4) + (f & 0xF);
  }

  lemma FirstSum(f0: Byte, f1: Byte)
    ensures First(f0, f1) as nat == ((f0 as bv16) + 256 * ((f1 & 0xF) as bv16)) as nat
  {}

  lemma SumOfByte(f0: Byte, r: Byte)
    requires r < 16
    ensures ((f0 as bv16) + 256 * (r as bv16)) as nat == f0 as nat + 256 * r as nat
  {}

  lemma SecondSum(f1: Byte, f2: Byte)
    ensures Second(f1, f2) as nat == (((f1 >> 4) as bv16) + 16 * (f2 as bv16)) as nat
  {}

  lemma SumOfNibble(q: Byte, f2: Byte)
    requires q < 16
    ensures ((q as bv16) + 16 * (f2 as bv16)) as nat == q as nat + 16 * f2 as nat
  {}

  lemma LowTwelve(x: nat, y: nat, q: nat, r: nat)
    requires x < 256 && y == 16 * q + r && r < 16
    ensures (x + 256 * y) % 0x1000 == x + 256 * r
  {}

  lemma HighTwelve(x: nat, y: nat, q: nat, r: nat)
    requires x == 16 * q + r && r < 16
    ensures (x + 256 * y) / 16 == q + 16 * y
  {}

  /** Entries 2q and 2q + 1 share the three bytes from 3q on. */
  lemma PairOfBytes(src: seq<Byte>, q: nat)
    requires 3 * q + 2 < |src|
    ensures PackedEntry(src, 2 * q) == First(src[3 * q], src[3 * q + 1]) as nat
    ensures PackedEntry(src, 2 * q + 1) == Second(src[3 * q + 1], src[3 * q + 2]) as nat
  {
    hide First, Second, Word;
    FirstIs(src[3 * q], src[3 * q + 1]);
    SecondIs(src[3 * q + 1], src[3 * q + 2]);
  }

  /** What is unpacked are the entries of the specification. */
  lemma {:induction false} UnpackedEntry(src: seq<Byte>, e: nat)
    requires |src| % 3 == 0 && e < |src| / 3 * 2
    ensures Unpack(src)[e] as nat == PackedEntry(src, e)
    decreases |src|
  {
    hide First, Second, PackedEntry;
    var n := |src| - 3;
    if e < n / 3 * 2 {
      UnpackedEntry(src[..n], e);
      assert src == src[..n] + src[n..];
      EntryInFront(src[..n], src[n..], e);
    } else {
      PairOfBytes(src, n / 3);
    }
  }

  lemma LastPacked(bytes: seq<Byte>, q: nat, u: ClusterId, v: ClusterId)
    requires |bytes| == 3 * q
    ensures var r := bytes + [Byte0(u), Byte1(u, v), Byte2(v)];
      PackedEntry(r, 2 * q) == Low(u) && PackedEntry(r, 2 * q + 1) == Low(v)
  {
    hide First, Second, Byte0, Byte1, Byte2, PackedEntry;
    PairOfBytes(bytes + [Byte0(u), Byte1(u, v), Byte2(v)], q);
    TripleOfPair(u, v);
  }

  /** What is packed are the low 12 bits of the entries, at the places of the specification. */
  lemma {:induction false} EntryPacked(fat: seq<ClusterId>, e: nat)
    requires |fat| % 2 == 0 && e < |fat|
    ensures PackedEntry(Pack(fat), e) == Low(fat[e])
    decreases |fat|
  {
    hide Byte0, Byte1, Byte2, Pack, PackedEntry, Low;
    var n := |fat| - 2;
    var u, v := fat[n], fat[n + 1];
    assert fat == fat[..n] + [u, v];
    PackStep(fat[..n], u, v);
    if e < n {
      EntryPacked(fat[..n], e);
      EntryInFront(Pack(fat[..n]), [Byte0(u), Byte1(u, v), Byte2(v)], e);
    } else {
      LastPacked(Pack(fat[..n]), n / 2, u, v);
    }
  }

  lemma UnpackedEntries(src: seq<Byte>)
    requires |src| % 3 == 0
    ensures forall e | 0 <= e < |Unpack(src)| :: Unpack(src)[e] as nat == PackedEntry(src, e)
  {
    hide Unpack, PackedEntry;
    forall e: nat | e < |Unpack(src)| ensures Unpack(src)[e] as nat == PackedEntry(src, e) { UnpackedEntry(src, e); }
  }

  lemma EntriesPacked(fat: seq<ClusterId>, bytes: seq<Byte>)
    requires |fat| % 2 == 0 && Pack(fat) <= bytes
    ensures forall e | 0 <= e < |fat| :: PackedEntry(bytes, e) == Low(fat[e])
  {
    hide Pack, PackedEntry;
    forall e: nat | e < |fat| ensures PackedEntry(bytes, e) == Low(fat[e]) {
      EntryPacked(fat, e);
      assert bytes == Pack(fat) + bytes[|Pack(fat)|..];
      EntryInFront(Pack(fat), bytes[|Pack(fat)|..], e);
    }
  }

  lemma EntryInFront(bytes: seq<Byte>, rest: seq<Byte>, e: nat)
    requires e + e / 2 + 1 < |bytes|
    ensures PackedEntry(bytes + rest, e) == PackedEntry(bytes, e)
  {}

  lemma CutTriple(all: seq<Byte>, head: seq<Byte>, triple: seq<Byte>, cut: seq<Byte>)
    requires |triple| == 3 && |head| <= |cut| < |head| + 3 <= |all| && all[..|head| + 3] == head + triple
    requires cut[..|head|] == head && forall k | |head| <= k < |cut| :: cut[k] == triple[k - |head|]
    ensures cut == all[..|cut|]
  {
    assert cut == (head + triple)[..|cut|];
  }

  lemma NothingPacked()
    ensures Pack([]) == [] && Unpack([]) == []
  {}

  lemma SamePairs(a: seq<ClusterId>, b: seq<ClusterId>, u: ClusterId, v: ClusterId, u': ClusterId, v': ClusterId)
    requires |a| == |b|
    ensures a + [u, v] == b + [u', v'] <==> a == b && u == u' && v == v'
  {
    if a + [u, v] == b + [u', v'] {
      assert a == (a + [u, v])[..|a|] && b == (b + [u', v'])[..|a|];
      assert (a + [u, v])[|a|] == u && (a + [u, v])[|a| + 1] == v;
    }
  }

  /** The test of `write` before it writes. */
  predicate GuardPasses(size: nat, space: nat) { !(space < size * 2 / 3) }

  predicate WriteFits(size: nat, space: nat) { size / 2 * 3 <= space }

  /** The test protects the buffer of no table but the empty one; two entries into one byte pass it. */
  lemma GuardProtectsIff(size: nat)
    requires size % 2 == 0
    ensures (forall space | GuardPasses(size, space) :: WriteFits(size, space)) <==> size == 0
    ensures GuardPasses(2, 1) && !WriteFits(2, 1)
  {
    if size > 0 {
      assert GuardPasses(size, size * 2 / 3) && !WriteFits(size, size * 2 / 3);
    }
  }

  /** `Outside` is a read behind the end of the table. */
  datatype Lookup = Next(cluster: ClusterId) | Panic | Outside

  /** `Overrun` is a write behind the end of the caller's buffer. */
  datatype Writing = Written | Refused | Overrun

  /** A table can lead there: read from six bytes, it links cluster 2 to the cluster right behind its end. */
  lemma LinkOutside()
    ensures var fat := Unpack([0xF0, 0xFF, 0xFF, 0x04, 0xF0, 0xFF]);
      |fat| == 4 && fat[2] as nat == |fat|
  {
    var head, tail := [0xF0, 0xFF, 0xFF], [0x04, 0xF0, 0xFF];
    assert [0xF0, 0xFF, 0xFF, 0x04, 0xF0, 0xFF] == head + tail;
    UnpackStep(head, 0x04, 0xF0, 0xFF);
    assert First(0x04, 0xF0) == 4;
  }

  class Table {
    var fat: seq<ClusterId>

    constructor ()
      ensures fat == []
    {
      fat := [];
    }

    method Read(src: seq<Byte>) returns (panic: bool)
      modifies this
      ensures panic <==> |src| % 3 != 0
      ensures fat == if panic then old(fat) else Unpack(src)
      ensures !panic ==> forall e | 0 <= e < |fat| :: fat[e] as nat == PackedEntry(src, e)
    {
      hide First, Second, Unpack, PackedEntry;
      if |src| % 3 != 0 { return true; }
      NothingPacked();
      fat := seq(|src| * 2 / 3, _ => 0);
      for i := 0 to |src| / 3
        invariant |fat| == |src| * 2 / 3 && fat[..i * 2] == Unpack(src[..i * 3])
      {
        var u := First(src[i * 3], src[i * 3 + 1]);
        var v := Second(src[i * 3 + 1], src[i * 3 + 2]);
        ghost var was := fat;
        fat := fat[i * 2 := u][i * 2 + 1 := v];
        UnpackStep(src[..i * 3], src[i * 3], src[i * 3 + 1], src[i * 3 + 2]);
        assert src[..(i + 1) * 3] == src[..i * 3] + [src[i * 3], src[i * 3 + 1], src[i * 3 + 2]];
        assert fat[..(i + 1) * 2] == was[..i * 2] + [u, v];
      }
      assert fat[..|fat|] == fat && src[..|src|] == src;
      UnpackedEntries(src);
      return false;
    }

    /** `out` stands for the caller's buffer of `out.Length` bytes; see `GuardProtectsIff` for what the test misses. */
    method Write(out: array<Byte>) returns (r: Writing)
      requires |fat| % 2 == 0
      modifies out
      ensures r == if !GuardPasses(|fat|, out.Length) then Refused
              else if WriteFits(|fat|, out.Length) then Written else Overrun
      ensures r == Refused ==> out[..] == old(out[..])
      ensures r == Written ==> out[..] == Pack(fat) + old(out[..])[|fat| / 2 * 3..]
      ensures r == Overrun ==> out[..] == Pack(fat)[..out.Length]
      ensures r == Written ==> forall e | 0 <= e < |fat| :: PackedEntry(out[..], e) == Low(fat[e])
    {
      hide Byte0, Byte1, Byte2, Pack, PackedEntry;
      if out.Length < |fat| * 2 / 3 { return Refused; }
      NothingPacked();
      var f, p := 0, 0;
      while f != |fat|
        invariant 0 <= f <= |fat| && f % 2 == 0 && p == f / 2 * 3 <= out.Length
        invariant out[..p] == Pack(fat[..f]) && out[p..] == old(out[..])[p..]
        decreases |fat| - f
      {
        var u, v := fat[f], fat[f + 1];
        ghost var was := out[..];
        if p + 3 > out.Length {
          WriteRest(out, f, p);
          return Overrun;
        }
        PackStep(fat[..f], u, v);
        assert fat[..f + 2] == fat[..f] + [u, v];
        out[p], out[p + 1], out[p + 2] := Byte0(u), Byte1(u, v), Byte2(v);
        assert out[..p + 3] == was[..p] + [Byte0(u), Byte1(u, v), Byte2(v)];
        assert out[p + 3..] == was[p..][3..];
        f, p := f + 2, p + 3;
      }
      assert fat[..f] == fat && out[..] == out[..p] + out[p..];
      EntriesPacked(fat, out[..]);
      return Written;
    }

    /** The bytes of the pair at `f` for which there is room. */
    method WriteRest(out: array<Byte>, f: nat, p: nat)
      requires |fat| % 2 == 0 && f % 2 == 0 && f + 2 <= |fat| && p == f / 2 * 3 <= out.Length < p + 3
      requires out[..p] == Pack(fat[..f])
      modifies out
      ensures out[..] == Pack(fat)[..out.Length]
    {
      hide Byte0, Byte1, Byte2, Pack;
      var u, v := fat[f], fat[f + 1];
      PackStep(fat[..f], u, v);
      assert fat[..f + 2] == fat[..f] + [u, v];
      PackPrefix(fat, f + 2);
      if p < out.Length { out[p] := Byte0(u); }
      if p + 1 < out.Length { out[p + 1] := Byte1(u, v); }
      CutTriple(Pack(fat), Pack(fat[..f]), [Byte0(u), Byte1(u, v), Byte2(v)], out[..]);
    }

    /** The test lets the first cluster behind the table through. */
    method NextCluster(cluster: ClusterId) returns (r: Lookup)
      ensures r.Next? <==> cluster as nat < |fat|
      ensures r.Next? ==> r.cluster == fat[cluster as nat]
      ensures r.Outside? <==> cluster as nat == |fat|
    {
      if cluster as nat > |fat| { return Panic; }
      if cluster as nat == |fat| { return Outside; }
      return Next(fat[cluster as nat]);
    }
  }
}
