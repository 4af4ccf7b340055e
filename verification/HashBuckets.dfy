/** The invariant of the hash table's list and slots on values, and what one insertion does to it. */
module HashBuckets {
  import opened HashConstrain

  /** `__hash_node`; the anchor `__p1_.first()` is a node whose key is never looked at. */
  class Node<K> {
    const key: K
    var next: Node?<K>
    var hash: nat

    constructor (key: K)
      ensures this.key == key && next == null
    {
      this.key, this.next, this.hash := key, null, 0;
    }
  }

  /** The bucket of a node. */
  ghost function C<K>(h: K -> nat, n: Node<K>, bc: nat): (b: nat)
    requires bc > 0
    ensures b < bc
  {
    ConstrainIsMod(h(n.key), bc);
    Constrain(h(n.key), bc)
  }

  ghost predicate Hashed<K>(h: K -> nat, list: seq<Node<K>>)
    reads list
  {
    forall i {:trigger list[i].hash} | 1 <= i < |list| :: list[i].hash == h(list[i].key)
  }

  ghost predicate Linked<K>(list: seq<Node<K>>)
    reads list
  {
    && (forall i {:trigger list[i].next} | 0 <= i < |list| - 1 :: list[i].next == list[i + 1])
    && (list != [] ==> list[|list| - 1].next == null)
  }

  /**
    The first `n` nodes behind the anchor fall into contiguous buckets: bucket `b` is exactly the
    nodes at positions `lo[b] + 1 .. hi[b]`; empty buckets have both bounds 0.
  */
  ghost predicate Buckets<K>(h: K -> nat, list: seq<Node<K>>, n: nat, bc: nat, lo: seq<nat>, hi: seq<nat>) {
    && bc > 0 && |lo| == bc && |hi| == bc && n < |list|
    && (forall i | 1 <= i <= n :: var b := C(h, list[i], bc); lo[b] < i <= hi[b])
    && (forall b | 0 <= b < bc :: hi[b] <= n && (lo[b] < hi[b] || (lo[b] == 0 && hi[b] == 0)))
    && (forall b, i | 0 <= b < bc && lo[b] < i <= hi[b] :: C(h, list[i], bc) == b)
  }

  /** Each slot holds the predecessor of its bucket's first node, or null for an empty bucket. */
  ghost predicate Slots<K>(list: seq<Node<K>>, slots: seq<Node?<K>>, lo: seq<nat>, hi: seq<nat>)
    requires |lo| == |hi|
  {
    && |slots| == |lo|
    && forall b | 0 <= b < |lo| ::
         if lo[b] < hi[b] then lo[b] < |list| && slots[b] == list[lo[b]] else slots[b] == null
  }

  /** Nodes with equal keys are adjacent: a node whose key occurs again later is followed by an equal one. */
  ghost predicate EqualAdjacent<K>(list: seq<Node<K>>) {
    forall i, k | 1 <= i < k < |list| && list[i].key == list[k].key :: list[i + 1].key == list[i].key
  }

  ghost function Nodes<K>(list: seq<Node<K>>): set<Node<K>>
  {
    set i | 1 <= i < |list| :: list[i]
  }

  ghost predicate UniqueKeys<K>(nodes: set<Node<K>>) {
    forall m, n | m in nodes && n in nodes && m != n :: m.key != n.key
  }

  ghost function InsertAt<K>(list: seq<Node<K>>, p: nat, nd: Node<K>): seq<Node<K>>
    requires p <= |list|
  {
    list[..p] + [nd] + list[p..]
  }

  /**
    The bounds after `d` nodes of bucket `b` have been put in at position `p`: buckets starting there or
    behind move.
  */
  ghost function Shifted(lo: seq<nat>, hi: seq<nat>, bounds: seq<nat>, b: nat, own: nat, p: nat, d: nat): (r: seq<nat>)
    requires |lo| == |hi| == |bounds| && b < |lo|
    ensures |r| == |lo|
  {
    seq(|lo|, x requires 0 <= x < |lo| =>
      if x == b then own else if lo[x] < hi[x] && lo[x] + 1 >= p then bounds[x] + d else bounds[x])
  }

  ghost function NewLo(lo: seq<nat>, hi: seq<nat>, b: nat, p: nat): seq<nat>
    requires b < |lo| == |hi|
  {
    Shifted(lo, hi, lo, b, lo[b], p, 1)
  }

  ghost function NewHi(lo: seq<nat>, hi: seq<nat>, b: nat, p: nat): seq<nat>
    requires b < |lo| == |hi|
  {
    Shifted(lo, hi, hi, b, hi[b] + 1, p, 1)
  }

  /**
    A position where a node of bucket `b` may be inserted: inside or at either end of the bucket, or in
    front of everything.
  */
  ghost predicate InsertionPoint(lo: seq<nat>, hi: seq<nat>, b: nat, p: nat)
    requires b < |lo| == |hi|
  {
    if lo[b] < hi[b] then lo[b] + 1 <= p <= hi[b] + 1 else p == 1
  }

  /** No other bucket straddles an insertion point of `b`. */
  lemma NoStraddle<K>(h: K -> nat, list: seq<Node<K>>, bc: nat, lo: seq<nat>, hi: seq<nat>, p: nat, b: nat, x: nat)
    requires |list| > 0 && Buckets(h, list, |list| - 1, bc, lo, hi)
    requires b < bc && InsertionPoint(lo, hi, b, p) && x < bc && x != b && lo[x] < hi[x]
    ensures hi[x] < p || lo[x] + 1 >= p
  {
    hide Constrain;
    assert lo[x] < p <= hi[x] ==> C(h, list[p], bc) == x;
    assert lo[x] < p - 1 <= hi[x] ==> C(h, list[p - 1], bc) == x;
  }

  /** The bucket of the node at an insertion point of another bucket starts there. */
  lemma StartsHere<K>(h: K -> nat, list: seq<Node<K>>, bc: nat, lo: seq<nat>, hi: seq<nat>, p: nat, b: nat, x: nat)
    requires |list| > 0 && Buckets(h, list, |list| - 1, bc, lo, hi)
    requires b < bc && InsertionPoint(lo, hi, b, p) && x < bc && x != b && lo[x] < hi[x]
    ensures lo[x] + 1 == p <==> p < |list| && C(h, list[p], bc) == x
  {
    hide Constrain;
    NoStraddle(h, list, bc, lo, hi, p, b, x);
    assert lo[x] + 1 == p ==> C(h, list[p], bc) == x;
  }

  lemma PositionAfterInsert<K>(h: K -> nat, list: seq<Node<K>>, bc: nat, lo: seq<nat>, hi: seq<nat>, p: nat, b: nat,
                               j: nat)
    requires |list| > 0 && Buckets(h, list, |list| - 1, bc, lo, hi)
    requires b < bc && InsertionPoint(lo, hi, b, p) && 1 <= j < |list|
    ensures var x := C(h, list[j], bc);
            var i := if j < p then j else j + 1;
            NewLo(lo, hi, b, p)[x] < i <= NewHi(lo, hi, b, p)[x]
  {
    hide Constrain;
    var x := C(h, list[j], bc);
    if x != b { NoStraddle(h, list, bc, lo, hi, p, b, x); }
  }

  lemma RangeAfterInsert<K>(h: K -> nat, list: seq<Node<K>>, bc: nat, lo: seq<nat>, hi: seq<nat>, p: nat, b: nat,
                            x: nat, i: nat)
    requires |list| > 0 && Buckets(h, list, |list| - 1, bc, lo, hi)
    requires b < bc && InsertionPoint(lo, hi, b, p) && x < bc
    requires NewLo(lo, hi, b, p)[x] < i <= NewHi(lo, hi, b, p)[x]
    ensures if i == p then x == b else var j := if i < p then i else i - 1; 1 <= j < |list| && C(h, list[j], bc) == x
  {
    hide Constrain;
    if x != b && lo[x] < hi[x] { NoStraddle(h, list, bc, lo, hi, p, b, x); }
  }

  lemma NodesInsert<K>(list: seq<Node<K>>, p: nat, nd: Node<K>)
    requires 1 <= p <= |list|
    ensures Nodes(InsertAt(list, p, nd)) == Nodes(list) + {nd}
  {
    var list' := InsertAt(list, p, nd);
    forall i | 1 <= i < |list| ensures list[i] in Nodes(list') {
      assert list'[if i < p then i else i + 1] == list[i];
    }
    assert list'[p] == nd;
  }

  lemma BucketsInsert<K>(h: K -> nat, list: seq<Node<K>>, bc: nat, lo: seq<nat>, hi: seq<nat>, p: nat, nd: Node<K>)
    requires |list| > 0 && Buckets(h, list, |list| - 1, bc, lo, hi)
    requires InsertionPoint(lo, hi, C(h, nd, bc), p) && p <= |list|
    ensures var b := C(h, nd, bc);
            Buckets(h, InsertAt(list, p, nd), |list|, bc, NewLo(lo, hi, b, p), NewHi(lo, hi, b, p))
  {
    hide Constrain;
    var b := C(h, nd, bc);
    var list' := InsertAt(list, p, nd);
    var lo', hi' := NewLo(lo, hi, b, p), NewHi(lo, hi, b, p);
    forall i | 1 <= i <= |list|
      ensures var x := C(h, list'[i], bc); lo'[x] < i <= hi'[x]
    {
      if i != p { PositionAfterInsert(h, list, bc, lo, hi, p, b, if i < p then i else i - 1); }
    }
    forall x, i | 0 <= x < bc && lo'[x] < i <= hi'[x]
      ensures 1 <= i <= |list| && C(h, list'[i], bc) == x
    {
      RangeAfterInsert(h, list, bc, lo, hi, p, b, x, i);
    }
  }

  /** Slot `x` after inserting a node of bucket `b`, as `__node_insert_*` repairs it. */
  ghost function SlotAfterInsert<K>(h: K -> nat, list: seq<Node<K>>, slots: seq<Node?<K>>, bc: nat,
                                    lo: seq<nat>, hi: seq<nat>, p: nat, nd: Node<K>, x: nat): Node?<K>
    requires 0 < bc == |slots| == |lo| == |hi| && 0 < p <= |list| && x < bc
  {
    var b := C(h, nd, bc);
    if p < |list| && C(h, list[p], bc) != b && x == C(h, list[p], bc) then nd
    else if x == b && lo[b] == hi[b] then list[0]
    else slots[x]
  }

  lemma SlotInsert<K>(h: K -> nat, list: seq<Node<K>>, slots: seq<Node?<K>>, bc: nat,
                      lo: seq<nat>, hi: seq<nat>, p: nat, nd: Node<K>, x: nat)
    requires |list| > 0 && Buckets(h, list, |list| - 1, bc, lo, hi) && Slots(list, slots, lo, hi)
    requires InsertionPoint(lo, hi, C(h, nd, bc), p) && p <= |list| && x < bc
    ensures var b := C(h, nd, bc);
            var list' := InsertAt(list, p, nd);
            var l, u := NewLo(lo, hi, b, p)[x], NewHi(lo, hi, b, p)[x];
            var slot := SlotAfterInsert(h, list, slots, bc, lo, hi, p, nd, x);
            if l < u then l < |list'| && slot == list'[l] else slot == null
  {
    hide Constrain, Buckets;
    var b := C(h, nd, bc);
    BucketBounds(h, list, |list| - 1, bc, lo, hi, b);
    BucketBounds(h, list, |list| - 1, bc, lo, hi, x);
    if p < |list| { Occupied(h, list, bc, lo, hi, p); }
    if x != b && lo[x] < hi[x] {
      NoStraddle(h, list, bc, lo, hi, p, b, x);
      StartsHere(h, list, bc, lo, hi, p, b, x);
    }
  }

  lemma BucketBounds<K>(h: K -> nat, list: seq<Node<K>>, n: nat, bc: nat, lo: seq<nat>, hi: seq<nat>, x: nat)
    requires Buckets(h, list, n, bc, lo, hi) && x < bc
    ensures |lo| == |hi| == bc && hi[x] <= n && (lo[x] < hi[x] || (lo[x] == 0 && hi[x] == 0))
  {}

  /** An insertion with its slot repairs keeps the bucket structure. */
  lemma InsertOk<K>(h: K -> nat, list: seq<Node<K>>, slots: seq<Node?<K>>, slots': seq<Node?<K>>, bc: nat,
                    lo: seq<nat>, hi: seq<nat>, p: nat, nd: Node<K>)
    requires |list| > 0 && Buckets(h, list, |list| - 1, bc, lo, hi) && Slots(list, slots, lo, hi)
    requires InsertionPoint(lo, hi, C(h, nd, bc), p) && p <= |list| && |slots'| == bc
    requires forall x | 0 <= x < bc :: slots'[x] == SlotAfterInsert(h, list, slots, bc, lo, hi, p, nd, x)
    ensures var b := C(h, nd, bc);
            Buckets(h, InsertAt(list, p, nd), |list|, bc, NewLo(lo, hi, b, p), NewHi(lo, hi, b, p))
            && Slots(InsertAt(list, p, nd), slots', NewLo(lo, hi, b, p), NewHi(lo, hi, b, p))
  {
    hide Constrain, SlotAfterInsert, Buckets;
    var b := C(h, nd, bc);
    BucketBounds(h, list, |list| - 1, bc, lo, hi, b);
    BucketsInsert(h, list, bc, lo, hi, p, nd);
    forall x | 0 <= x < bc
      ensures var l, u := NewLo(lo, hi, b, p)[x], NewHi(lo, hi, b, p)[x];
              if l < u then l < |list| + 1 && slots'[x] == InsertAt(list, p, nd)[l] else slots'[x] == null
    {
      SlotInsert(h, list, slots, bc, lo, hi, p, nd, x);
    }
  }

  lemma Occupied<K>(h: K -> nat, list: seq<Node<K>>, bc: nat, lo: seq<nat>, hi: seq<nat>, i: nat)
    requires |list| > 0 && Buckets(h, list, |list| - 1, bc, lo, hi) && 1 <= i < |list|
    ensures var b := C(h, list[i], bc); lo[b] < i <= hi[b]
  {}

  lemma InBucket<K>(h: K -> nat, list: seq<Node<K>>, n: nat, bc: nat, lo: seq<nat>, hi: seq<nat>, i: nat, b: nat)
    requires Buckets(h, list, n, bc, lo, hi) && 1 <= i <= n && b < bc
    ensures C(h, list[i], bc) == b <==> lo[b] < i <= hi[b]
  {
    hide Constrain;
  }

  lemma SlotAt<K>(h: K -> nat, list: seq<Node<K>>, n: nat, slots: seq<Node?<K>>, bc: nat, lo: seq<nat>, hi: seq<nat>,
                  b: nat)
    requires Buckets(h, list, n, bc, lo, hi) && Slots(list, slots, lo, hi) && b < bc
    ensures hi[b] <= n < |list| && |slots| == |lo| == |hi| == bc
    ensures slots[b] == null <==> lo[b] == hi[b] == 0
    ensures slots[b] != null ==> lo[b] < hi[b] && slots[b] == list[lo[b]]
  {}

  lemma {:induction false} EqualBetween<K>(list: seq<Node<K>>, i: nat, j: nat, k: nat)
    requires EqualAdjacent(list) && 1 <= i <= j <= k < |list| && list[i].key == list[k].key
    ensures list[j].key == list[i].key
    decreases j - i
  {
    if i < j { EqualBetween(list, i + 1, j, k); }
  }

  /** Inserting a node behind an equal one, or where it splits no group, keeps equal keys adjacent. */
  lemma EqualInsert<K>(list: seq<Node<K>>, p: nat, nd: Node<K>)
    requires EqualAdjacent(list) && 1 <= p <= |list|
    requires
      || ((p > 1 && p < |list| ==> list[p - 1].key != list[p].key)
          && forall i | 1 <= i < |list| :: list[i].key != nd.key)
      || (p > 1 && list[p - 1].key == nd.key && (p < |list| ==> list[p].key != nd.key))
    ensures EqualAdjacent(InsertAt(list, p, nd))
  {
    var list' := InsertAt(list, p, nd);
    forall i, k | 1 <= i < k < |list'| && list'[i].key == list'[k].key
      ensures list'[i + 1].key == list'[i].key
    {
      var i', k' := if i < p then i else i - 1, if k < p then k else k - 1;
      assert i != p ==> list'[i] == list[i'];
      assert k != p ==> list'[k] == list[k'];
      if i < p < k {
        EqualBetween(list, i, p - 1, k');
        EqualBetween(list, i, p, k');
      } else if k == p && i < p - 1 {
        EqualBetween(list, i, i + 1, p - 1);
      }
    }
  }
}
