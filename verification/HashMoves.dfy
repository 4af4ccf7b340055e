/** What removals, and the steps of a rehash that extend a bucket or move a run of nodes back, do to the buckets. */
module HashMoves {
  import opened HashConstrain
  import opened Sequences
  import opened HashBuckets

  lemma HashNamesBucket<K>(h: K -> nat, n: Node<K>, hash: nat, bc: nat)
    requires bc > 0 && hash == h(n.key)
    ensures Constrain(hash, bc) == C(h, n, bc) < bc
  {
    ConstrainIsMod(hash, bc);
  }

  lemma NoBuckets<K>(h: K -> nat, list: seq<Node<K>>, slots: seq<Node?<K>>, bc: nat)
    requires bc > 0 && list != [] && |slots| == bc && forall b | 0 <= b < bc :: slots[b] == null
    ensures Buckets(h, list, 0, bc, seq(bc, _ => 0), seq(bc, _ => 0))
    ensures Slots(list, slots, seq(bc, _ => 0), seq(bc, _ => 0))
  {}

  /** The bounds when the node behind the processed prefix joins it: it opens bucket `c` or extends it. */
  ghost predicate Extends(lo: seq<nat>, hi: seq<nat>, lo': seq<nat>, hi': seq<nat>, c: nat, p: nat) {
    && c < |lo| == |hi| && hi' == hi[c := p + 1]
    && lo' == if lo[c] == hi[c] then lo[c := p] else lo
  }

  lemma ExtendBuckets<K>(h: K -> nat, list: seq<Node<K>>, p: nat, bc: nat, lo: seq<nat>, hi: seq<nat>, lo': seq<nat>,
                         hi': seq<nat>)
    requires Buckets(h, list, p, bc, lo, hi) && p + 1 < |list|
    requires Extends(lo, hi, lo', hi', C(h, list[p + 1], bc), p)
    requires var c := C(h, list[p + 1], bc); lo[c] == hi[c] || (p > 0 && C(h, list[p], bc) == c)
    ensures Buckets(h, list, p + 1, bc, lo', hi')
  {
    hide C;
    var c := C(h, list[p + 1], bc);
    if p > 0 { InBucket(h, list, p, bc, lo, hi, p, c); }
    assert lo[c] == hi[c] || hi[c] == p;
    forall i | 1 <= i <= p + 1
      ensures var b := C(h, list[i], bc); lo'[b] < i <= hi'[b]
    {
      if i <= p { InBucket(h, list, p, bc, lo, hi, i, C(h, list[i], bc)); }
    }
    forall b, i | 0 <= b < bc && lo'[b] < i <= hi'[b]
      ensures C(h, list[i], bc) == b
    {
      if i <= p { InBucket(h, list, p, bc, lo, hi, i, b); }
    }
  }

  lemma ExtendSlots<K>(h: K -> nat, list: seq<Node<K>>, slots: seq<Node?<K>>, p: nat, bc: nat, lo: seq<nat>,
                       hi: seq<nat>,
                       lo': seq<nat>, hi': seq<nat>)
    requires Buckets(h, list, p, bc, lo, hi) && Slots(list, slots, lo, hi) && p + 1 < |list|
    requires Extends(lo, hi, lo', hi', C(h, list[p + 1], bc), p)
    ensures var c := C(h, list[p + 1], bc);
            Slots(list, if lo[c] == hi[c] then slots[c := list[p]] else slots, lo', hi')
  {
    hide C, Buckets;
    BucketBounds(h, list, p, bc, lo, hi, C(h, list[p + 1], bc));
  }

  lemma RunMovable<K>(h: K -> nat, list: seq<Node<K>>, p: nat, q: nat, bc: nat, lo: seq<nat>, hi: seq<nat>, c: nat)
    requires Buckets(h, list, p, bc, lo, hi) && 1 <= p < q < |list| && c < bc && lo[c] < hi[c]
    requires forall i | p < i <= q :: list[i].key == list[p + 1].key
    requires C(h, list[p], bc) != c == C(h, list[p + 1], bc)
    ensures Movable(h, list, p, q, bc, lo, hi, c)
  {
    hide Constrain;
    InBucket(h, list, p, bc, lo, hi, p, c);
    BucketBounds(h, list, p, bc, lo, hi, c);
  }

  lemma MoveKeepsNodes<K>(list: seq<Node<K>>, s: nat, p: nat, q: nat)
    requires s < p < q < |list|
    ensures Nodes(MoveRun(list, s, p, q)) == Nodes(list) && MoveRun(list, s, p, q)[0] == list[0]
    ensures Distinct(list) ==> Distinct(MoveRun(list, s, p, q))
    ensures MoveRun(list, s, p, q)[q] == list[p] && forall i | 0 <= i < |list| :: MoveRun(list, s, p, q)[i] in list
  {
    var list' := MoveRun(list, s, p, q);
    forall i | 1 <= i < |list| ensures list[i] in Nodes(list') {
      var j := if i <= s || i > q then i else if i <= p then i + (q - p) else i - (p - s);
      assert Source(s, p, q, j) == i && list'[j] == list[i];
    }
  }

  lemma FrontSplitsNothing<K>(h: K -> nat, list: seq<Node<K>>, bc: nat, lo: seq<nat>, hi: seq<nat>, nd: Node<K>)
    requires |list| > 0 && bc > 0 && Buckets(h, list, |list| - 1, bc, lo, hi) && EqualAdjacent(list)
    requires forall n | n in Nodes(list) :: n.key != nd.key
    ensures var p := lo[C(h, nd, bc)] + 1;
            && p <= |list| && InsertionPoint(lo, hi, C(h, nd, bc), p) && EqualAdjacent(InsertAt(list, p, nd))
            && (p < |list| ==> (C(h, list[p], bc) == C(h, nd, bc) <==> p <= hi[C(h, nd, bc)]))
  {
    hide Constrain, EqualAdjacent, Buckets;
    var b := C(h, nd, bc);
    BucketBounds(h, list, |list| - 1, bc, lo, hi, b);
    var p := lo[b] + 1;
    if p < |list| {
      InBucket(h, list, |list| - 1, bc, lo, hi, p, b);
      if p > 1 { InBucket(h, list, |list| - 1, bc, lo, hi, p - 1, b); }
    }
    assert forall i | 1 <= i < |list| :: list[i] in Nodes(list);
    EqualInsert(list, p, nd);
  }

  /** The position `__node_insert_multi` stops at: behind an equal node, or at the end of a bucket without one. */
  lemma EndSplitsNothing<K>(h: K -> nat, list: seq<Node<K>>, bc: nat, lo: seq<nat>, hi: seq<nat>, nd: Node<K>,
                            q: nat, found: bool)
    requires |list| > 0 && bc > 0 && Buckets(h, list, |list| - 1, bc, lo, hi) && EqualAdjacent(list)
    requires var b := C(h, nd, bc);
             && lo[b] <= q <= hi[b] && q < |list|
             && (found ==> q > lo[b] && list[q].key == nd.key && (q < hi[b] ==> list[q + 1].key != nd.key))
             && (!found ==> q == hi[b] && forall j | lo[b] < j <= q :: list[j].key != nd.key)
    ensures var b := C(h, nd, bc);
            && InsertionPoint(lo, hi, b, q + 1) && EqualAdjacent(InsertAt(list, q + 1, nd))
            && (q + 1 < |list| ==> (C(h, list[q + 1], bc) == b <==> q < hi[b]))
  {
    hide Constrain, EqualAdjacent, Buckets;
    var b := C(h, nd, bc);
    BucketBounds(h, list, |list| - 1, bc, lo, hi, b);
    if q + 1 < |list| {
      InBucket(h, list, |list| - 1, bc, lo, hi, q + 1, b);
      if q > 0 { InBucket(h, list, |list| - 1, bc, lo, hi, q, b); }
    }
    if !found {
      KeyInBucket(h, list, bc, lo, hi, nd.key);
      assert forall i | 1 <= i < |list| :: list[i] in Nodes(list);
    }
    EqualInsert(list, q + 1, nd);
  }

  // ----- removal

  lemma PositionOf<K>(list: seq<Node<K>>, n: Node<K>) returns (p: nat)
    requires n in Nodes(list)
    ensures 1 <= p < |list| && list[p] == n
  {
    p :| 1 <= p < |list| && list[p] == n;
  }

  ghost function RemoveAt<K>(list: seq<Node<K>>, p: nat): seq<Node<K>>
    requires p < |list|
  {
    list[..p] + list[p + 1..]
  }

  /** A bound after the node at position `p`, of bucket `b`, is gone; a bucket left empty has both bounds 0. */
  ghost function Lowered(lo: seq<nat>, hi: seq<nat>, bounds: seq<nat>, b: nat, own: nat, p: nat): (r: seq<nat>)
    requires b < |lo| == |hi| == |bounds| && (forall x | 0 <= x < |lo| && lo[x] < hi[x] :: lo[x] <= bounds[x])
    ensures |r| == |lo|
  {
    seq(|lo|, x requires 0 <= x < |lo| =>
      if x == b then (if hi[b] == lo[b] + 1 then 0 else own)
      else if lo[x] < hi[x] && lo[x] >= p > 0 then bounds[x] - 1 else bounds[x])
  }

  /** The node at `p` is of bucket `b`, in a table whose buckets are all in place. */
  ghost predicate Removable<K>(h: K -> nat, list: seq<Node<K>>, bc: nat, lo: seq<nat>, hi: seq<nat>, p: nat, b: nat) {
    |list| > 0 && Buckets(h, list, |list| - 1, bc, lo, hi) && 1 <= p < |list| && b == C(h, list[p], bc)
  }

  lemma RemovalBounds<K>(h: K -> nat, list: seq<Node<K>>, bc: nat, lo: seq<nat>, hi: seq<nat>, p: nat, b: nat, x: nat)
    requires Removable(h, list, bc, lo, hi, p, b) && x < bc
    ensures |lo| == |hi| == bc && lo[b] < p <= hi[b] && hi[x] < |list| && (lo[x] < hi[x] || (lo[x] == 0 && hi[x] == 0))
    ensures x != b && lo[x] < hi[x] ==> hi[x] < p || lo[x] >= p
    ensures x != b && lo[x] < hi[x] ==> (lo[x] == p <==> p + 1 < |list| && C(h, list[p + 1], bc) == x)
    ensures p + 1 < |list| ==> (C(h, list[p + 1], bc) == b <==> p < hi[b])
  {
    hide Constrain;
    InBucket(h, list, |list| - 1, bc, lo, hi, p, b);
    InBucket(h, list, |list| - 1, bc, lo, hi, p, x);
    if p + 1 < |list| {
      InBucket(h, list, |list| - 1, bc, lo, hi, p + 1, x);
      InBucket(h, list, |list| - 1, bc, lo, hi, p + 1, b);
    }
  }

  ghost function RemovedLo(lo: seq<nat>, hi: seq<nat>, b: nat, p: nat): (r: seq<nat>)
    requires b < |lo| == |hi|
    ensures |r| == |lo|
  {
    Lowered(lo, hi, lo, b, lo[b], p)
  }

  ghost function RemovedHi(lo: seq<nat>, hi: seq<nat>, b: nat, p: nat): (r: seq<nat>)
    requires b < |lo| == |hi| && hi[b] > 0
    ensures |r| == |lo|
  {
    Lowered(lo, hi, hi, b, hi[b] - 1, p)
  }

  lemma RemoveBuckets<K>(h: K -> nat, list: seq<Node<K>>, bc: nat, lo: seq<nat>, hi: seq<nat>, p: nat, b: nat)
    requires Removable(h, list, bc, lo, hi, p, b)
    ensures b < |lo| == |hi| && hi[b] > 0
    ensures Buckets(h, RemoveAt(list, p), |list| - 2, bc, RemovedLo(lo, hi, b, p), RemovedHi(lo, hi, b, p))
  {
    hide C;
    RemovalBounds(h, list, bc, lo, hi, p, b, b);
    var list', lo', hi' := RemoveAt(list, p), RemovedLo(lo, hi, b, p), RemovedHi(lo, hi, b, p);
    forall i | 1 <= i <= |list| - 2
      ensures var x := C(h, list'[i], bc); lo'[x] < i <= hi'[x]
    {
      var j := if i < p then i else i + 1;
      var x := C(h, list[j], bc);
      RemovalBounds(h, list, bc, lo, hi, p, b, x);
      InBucket(h, list, |list| - 1, bc, lo, hi, j, x);
    }
    forall x | 0 <= x < bc
      ensures hi'[x] <= |list| - 2 && (lo'[x] < hi'[x] || (lo'[x] == 0 && hi'[x] == 0))
    {
      RemovalBounds(h, list, bc, lo, hi, p, b, x);
    }
    forall x, i | 0 <= x < bc && lo'[x] < i <= hi'[x]
      ensures C(h, list'[i], bc) == x
    {
      RemovedRange(h, list, bc, lo, hi, p, b, x, i);
    }
  }

  lemma RemovedRange<K>(h: K -> nat, list: seq<Node<K>>, bc: nat, lo: seq<nat>, hi: seq<nat>, p: nat, b: nat, x: nat,
                        i: nat)
    requires Removable(h, list, bc, lo, hi, p, b) && x < bc && b < |lo| == |hi| && hi[b] > 0
    requires x < |lo| && RemovedLo(lo, hi, b, p)[x] < i <= RemovedHi(lo, hi, b, p)[x]
    ensures 1 <= i <= |list| - 2 && C(h, RemoveAt(list, p)[i], bc) == x
  {
    hide C;
    RemovalBounds(h, list, bc, lo, hi, p, b, x);
    var j := if i < p then i else i + 1;
    InBucket(h, list, |list| - 1, bc, lo, hi, j, x);
  }

  /** The slots as `remove` repairs them: its own if it empties the bucket, and that of a bucket starting behind. */
  lemma RemoveSlots<K>(h: K -> nat, list: seq<Node<K>>, slots: seq<Node?<K>>, slots': seq<Node?<K>>, bc: nat,
                       lo: seq<nat>, hi: seq<nat>, p: nat, b: nat)
    requires Removable(h, list, bc, lo, hi, p, b) && Slots(list, slots, lo, hi) && |slots'| == bc
    requires forall x | 0 <= x < bc :: slots'[x] ==
               if p + 1 < |list| && x == C(h, list[p + 1], bc) && x != b then list[p - 1]
               else if x == b && lo[b] + 1 == hi[b] then null else slots[x]
    ensures b < |lo| == |hi| && hi[b] > 0
    ensures Slots(RemoveAt(list, p), slots', RemovedLo(lo, hi, b, p), RemovedHi(lo, hi, b, p))
  {
    hide C, Buckets;
    RemovalBounds(h, list, bc, lo, hi, p, b, b);
    var list', lo', hi' := RemoveAt(list, p), RemovedLo(lo, hi, b, p), RemovedHi(lo, hi, b, p);
    forall x | 0 <= x < bc
      ensures if lo'[x] < hi'[x] then lo'[x] < |list'| && slots'[x] == list'[lo'[x]] else slots'[x] == null
    {
      RemovalBounds(h, list, bc, lo, hi, p, b, x);
      if p + 1 < |list| { Occupied(h, list, bc, lo, hi, p + 1); }
    }
  }

  lemma EqualRemove<K>(list: seq<Node<K>>, p: nat)
    requires EqualAdjacent(list) && 1 <= p < |list|
    ensures EqualAdjacent(RemoveAt(list, p)) && Nodes(RemoveAt(list, p)) <= Nodes(list)
    ensures Distinct(list) ==> Distinct(RemoveAt(list, p)) && Nodes(RemoveAt(list, p)) == Nodes(list) - {list[p]}
  {
    var list' := RemoveAt(list, p);
    forall i, k | 1 <= i < k < |list'| && list'[i].key == list'[k].key
      ensures list'[i + 1].key == list'[i].key
    {
      var i', k' := if i < p then i else i + 1, if k < p then k else k + 1;
      EqualBetween(list, i', if i + 1 < p then i + 1 else i + 2, k');
    }
    forall j | 1 <= j < |list| && j != p ensures list[j] in Nodes(list') {
      assert list'[if j < p then j else j - 1] == list[j];
    }
  }

  // ----- rehashing

  /** Where the node at position `i` comes from when positions p+1..q are moved in front of position s+1. */
  ghost function Source(s: nat, p: nat, q: nat, i: nat): (j: nat)
    requires s < p < q
    ensures (i == 0 <==> j == 0) && (i <= q <==> j <= q) && (i > q ==> j == i)
  {
    if i <= s || i > q then i else if i <= s + (q - p) then p + (i - s) else i - (q - p)
  }

  /** Away from the seams, neighbours stay neighbours. */
  lemma SourceNext(s: nat, p: nat, q: nat, i: nat)
    requires s < p < q
    ensures var j := Source(s, p, q, i);
            && (j == s <==> i == s) && (j == q <==> i == s + (q - p)) && (j == p <==> i == q)
            && Source(s, p, q, i + 1) == if j == s then p + 1 else if j == q then s + 1
                    else if j == p then q + 1 else j + 1
  {}

  ghost function MoveRun<K>(list: seq<Node<K>>, s: nat, p: nat, q: nat): seq<Node<K>>
    requires s < p < q < |list|
  {
    seq(|list|, i requires 0 <= i < |list| => list[Source(s, p, q, i)])
  }

  lemma BucketsDisjoint<K>(h: K -> nat, list: seq<Node<K>>, n: nat, bc: nat, lo: seq<nat>, hi: seq<nat>, b: nat, x: nat)
    requires Buckets(h, list, n, bc, lo, hi) && b < bc && x < bc && x != b && lo[x] < hi[x] && lo[b] < hi[b]
    ensures hi[x] <= lo[b] || lo[x] >= hi[b]
  {
    var i := if lo[x] < lo[b] then lo[b] + 1 else lo[x] + 1;
    assert i <= n;
    InBucket(h, list, n, bc, lo, hi, i, x);
    InBucket(h, list, n, bc, lo, hi, i, b);
  }

  /** The bounds after the run p+1..q of bucket `c` has joined the front of that bucket. */
  ghost function MovedLo(lo: seq<nat>, hi: seq<nat>, c: nat, p: nat, q: nat): seq<nat>
    requires c < |lo| == |hi| && p <= q
  {
    Shifted(lo, hi, lo, c, lo[c], hi[c] + 1, q - p)
  }

  ghost function MovedHi(lo: seq<nat>, hi: seq<nat>, c: nat, p: nat, q: nat): seq<nat>
    requires c < |lo| == |hi| && p <= q
  {
    Shifted(lo, hi, hi, c, hi[c] + (q - p), hi[c] + 1, q - p)
  }

  /** The run p+1..q of bucket `c` can join that bucket, which lies wholly in front of it. */
  ghost predicate Movable<K>(h: K -> nat, list: seq<Node<K>>, p: nat, q: nat, bc: nat, lo: seq<nat>, hi: seq<nat>,
                             c: nat) {
    && Buckets(h, list, p, bc, lo, hi) && c < bc && lo[c] < hi[c] < p < q < |list|
    && forall i | p < i <= q :: C(h, list[i], bc) == c
  }

  lemma MovedPosition<K>(h: K -> nat, list: seq<Node<K>>, p: nat, q: nat, bc: nat, lo: seq<nat>, hi: seq<nat>,
                         c: nat, i: nat)
    requires Movable(h, list, p, q, bc, lo, hi, c) && 1 <= i <= q
    ensures var x := C(h, list[Source(lo[c], p, q, i)], bc);
            MovedLo(lo, hi, c, p, q)[x] < i <= MovedHi(lo, hi, c, p, q)[x]
  {
    hide Constrain;
    var j := Source(lo[c], p, q, i);
    var x := C(h, list[j], bc);
    if j <= p {
      InBucket(h, list, p, bc, lo, hi, j, x);
      if x != c { BucketsDisjoint(h, list, p, bc, lo, hi, c, x); }
    }
  }

  lemma MovedRange<K>(h: K -> nat, list: seq<Node<K>>, p: nat, q: nat, bc: nat, lo: seq<nat>, hi: seq<nat>, c: nat,
                      x: nat, i: nat)
    requires Movable(h, list, p, q, bc, lo, hi, c) && x < bc
    requires MovedLo(lo, hi, c, p, q)[x] < i <= MovedHi(lo, hi, c, p, q)[x]
    ensures 1 <= i <= q && C(h, list[Source(lo[c], p, q, i)], bc) == x
  {
    hide Constrain;
    if x != c && lo[x] < hi[x] { BucketsDisjoint(h, list, p, bc, lo, hi, c, x); }
    var j := Source(lo[c], p, q, i);
    if j <= p { InBucket(h, list, p, bc, lo, hi, j, x); }
  }

  lemma MovedSlot<K>(h: K -> nat, list: seq<Node<K>>, slots: seq<Node?<K>>, p: nat, q: nat, bc: nat, lo: seq<nat>,
                     hi: seq<nat>, c: nat, x: nat)
    requires Movable(h, list, p, q, bc, lo, hi, c) && Slots(list, slots, lo, hi) && x < bc
    ensures var l, u := MovedLo(lo, hi, c, p, q)[x], MovedHi(lo, hi, c, p, q)[x];
            if l < u then l <= q && slots[x] == list[Source(lo[c], p, q, l)] else slots[x] == null
  {
    hide C, Buckets;
    BucketBounds(h, list, p, bc, lo, hi, x);
    BucketBounds(h, list, p, bc, lo, hi, c);
    if x != c && lo[x] < hi[x] { BucketsDisjoint(h, list, p, bc, lo, hi, c, x); }
  }

  lemma MovedBounds<K>(h: K -> nat, list: seq<Node<K>>, p: nat, q: nat, bc: nat, lo: seq<nat>, hi: seq<nat>, c: nat,
                       x: nat)
    requires Movable(h, list, p, q, bc, lo, hi, c) && x < bc
    ensures var l, u := MovedLo(lo, hi, c, p, q)[x], MovedHi(lo, hi, c, p, q)[x];
            u <= q && (l < u || (l == 0 && u == 0))
  {
    hide C;
    BucketBounds(h, list, p, bc, lo, hi, x);
  }

  lemma MoveBuckets<K>(h: K -> nat, list: seq<Node<K>>, p: nat, q: nat, bc: nat, lo: seq<nat>, hi: seq<nat>, c: nat)
    requires Movable(h, list, p, q, bc, lo, hi, c)
    ensures Buckets(h, MoveRun(list, lo[c], p, q), q, bc, MovedLo(lo, hi, c, p, q), MovedHi(lo, hi, c, p, q))
  {
    hide C, Source, Shifted;
    var list', lo', hi' := MoveRun(list, lo[c], p, q), MovedLo(lo, hi, c, p, q), MovedHi(lo, hi, c, p, q);
    forall i | 1 <= i <= q
      ensures var x := C(h, list'[i], bc); lo'[x] < i <= hi'[x]
    {
      MovedPosition(h, list, p, q, bc, lo, hi, c, i);
    }
    forall x, i | 0 <= x < bc && lo'[x] < i <= hi'[x]
      ensures 1 <= i <= q && C(h, list'[i], bc) == x
    {
      MovedRange(h, list, p, q, bc, lo, hi, c, x, i);
    }
    forall x | 0 <= x < bc
      ensures hi'[x] <= q && (lo'[x] < hi'[x] || (lo'[x] == 0 && hi'[x] == 0))
    {
      MovedBounds(h, list, p, q, bc, lo, hi, c, x);
    }
  }

  lemma MoveSlots<K>(h: K -> nat, list: seq<Node<K>>, slots: seq<Node?<K>>, p: nat, q: nat, bc: nat, lo: seq<nat>,
                     hi: seq<nat>, c: nat)
    requires Movable(h, list, p, q, bc, lo, hi, c) && Slots(list, slots, lo, hi)
    ensures Slots(MoveRun(list, lo[c], p, q), slots, MovedLo(lo, hi, c, p, q), MovedHi(lo, hi, c, p, q))
  {
    hide C, Source, Shifted, Buckets;
    BucketBounds(h, list, p, bc, lo, hi, c);
    var list', lo', hi' := MoveRun(list, lo[c], p, q), MovedLo(lo, hi, c, p, q), MovedHi(lo, hi, c, p, q);
    forall x | 0 <= x < |lo'|
      ensures if lo'[x] < hi'[x] then lo'[x] < |list'| && slots[x] == list'[lo'[x]] else slots[x] == null
    {
      MovedSlot(h, list, slots, p, q, bc, lo, hi, c, x);
    }
  }

  /** All nodes with the run's key are in the run, and the run lands between nodes with other keys. */
  lemma EqualMove<K>(h: K -> nat, list: seq<Node<K>>, p: nat, q: nat, bc: nat, lo: seq<nat>, hi: seq<nat>, c: nat)
    requires Movable(h, list, p, q, bc, lo, hi, c) && EqualAdjacent(list)
    requires forall i | p < i <= q :: list[i].key == list[p + 1].key
    requires q + 1 < |list| ==> list[q + 1].key != list[p + 1].key
    requires C(h, list[p], bc) != c
    ensures EqualAdjacent(MoveRun(list, lo[c], p, q))
  {
    hide Constrain, Buckets;
    BucketBounds(h, list, p, bc, lo, hi, c);
    var s := lo[c];
    var list' := MoveRun(list, s, p, q);
    InBucket(h, list, p, bc, lo, hi, s + 1, c);
    if s > 0 { InBucket(h, list, p, bc, lo, hi, s, c); }
    forall i, k | 1 <= i < k < |list'| && list'[i].key == list'[k].key
      ensures list'[i + 1].key == list'[i].key
    {
      EqualMoveAt(list, s, p, q, i, k);
    }
  }

  lemma EqualMoveAt<K>(list: seq<Node<K>>, s: nat, p: nat, q: nat, i: nat, k: nat)
    requires s < p < q < |list| && EqualAdjacent(list) && 1 <= i < k < |list|
    requires list[Source(s, p, q, i)].key == list[Source(s, p, q, k)].key
    requires forall j | p < j <= q :: list[j].key == list[p + 1].key
    requires q + 1 < |list| ==> list[q + 1].key != list[p + 1].key
    requires list[p].key != list[p + 1].key && (s > 0 ==> list[s].key != list[s + 1].key)
    ensures list[Source(s, p, q, i + 1)].key == list[Source(s, p, q, i)].key
  {
    hide EqualAdjacent;
    var i', k' := Source(s, p, q, i), Source(s, p, q, k);
    if p < i' <= q {
      if k' > q { EqualBetween(list, i', q + 1, k'); } else if k' <= p { EqualBetween(list, k', p, i'); }
    } else if p < k' <= q {
      EqualBetween(list, i', p, k');
    } else {
      if i' <= s < k' { EqualBetween(list, i', s, k'); EqualBetween(list, i', s + 1, k'); }
      if i' <= p < k' { EqualBetween(list, i', p, k'); EqualBetween(list, i', p + 1, k'); }
      EqualBetween(list, i', i' + 1, k');
    }
  }

  /** If no node of the key's bucket has the key, no node has. */
  lemma KeyInBucket<K>(h: K -> nat, list: seq<Node<K>>, bc: nat, lo: seq<nat>, hi: seq<nat>, k: K)
    requires |list| > 0 && Buckets(h, list, |list| - 1, bc, lo, hi)
    requires var b := Constrain(h(k), bc);
             b < bc && forall j | lo[b] < j <= hi[b] :: j < |list| && list[j].key != k
    ensures forall n | n in Nodes(list) :: n.key != k
  {
    hide Constrain;
    forall n | n in Nodes(list) ensures n.key != k {
      var j :| 1 <= j < |list| && list[j] == n;
      Occupied(h, list, bc, lo, hi, j);
    }
  }
}
