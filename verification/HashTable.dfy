/**
  The libc++ hash table: all nodes on one linked list behind an anchor, and one slot per bucket
  holding the predecessor of the bucket's first node.
*/
module HashTable {
  import opened HashConstrain
  import opened Sequences
  import opened HashBuckets
  import opened HashMoves

  class HashTable<K(==)> {
    const hasher: K -> nat
    const anchor: Node<K>
    var buckets: array<Node?<K>>
    var count: nat
    /** The anchor followed by all nodes in list order; `lo` and `hi` bound the buckets. */
    ghost var list: seq<Node<K>>
    ghost var lo: seq<nat>
    ghost var hi: seq<nat>

    ghost predicate Valid()
      reads this, list, buckets
    {
      && ValidList()
      && Hashed(hasher, list)
      && (if buckets.Length == 0 then |list| == 1
          else Buckets(hasher, list, |list| - 1, buckets.Length, lo, hi) && Slots(list, buckets[..], lo, hi))
    }

    ghost predicate ValidList()
      reads this, list
    {
      && list != [] && list[0] == anchor && Distinct(list) && Linked(list) && EqualAdjacent(list)
      && count == |list| - 1
    }

    constructor (hasher: K -> nat, dummy: K)
      ensures Valid() && this.hasher == hasher && Nodes(list) == {} && fresh(anchor) && fresh(buckets)
    {
      this.hasher := hasher;
      var a := new Node(dummy);
      anchor := a;
      buckets := new Node?<K>[0];
      count, list, lo, hi := 0, [a], [], [];
    }

    /**
      What `Valid` means for the bucket array: the nodes of a bucket are contiguous, the slot of a
      bucket holds the predecessor of its first node, and is null exactly when no node is in it.
    */
    lemma BucketShape()
      requires Valid() && buckets.Length > 0
      ensures forall i, j, k | 1 <= i <= j <= k < |list|
                && C(hasher, list[i], buckets.Length) == C(hasher, list[k], buckets.Length) ::
                C(hasher, list[j], buckets.Length) == C(hasher, list[i], buckets.Length)
      ensures forall i | 1 <= i < |list|
                && (i > 1 ==> C(hasher, list[i - 1], buckets.Length) != C(hasher, list[i], buckets.Length)) ::
                buckets[C(hasher, list[i], buckets.Length)] == list[i - 1]
      ensures forall b | 0 <= b < buckets.Length ::
                buckets[b] == null <==> forall i | 1 <= i < |list| :: C(hasher, list[i], buckets.Length) != b
    {
      hide C, Buckets, Slots, Distinct, EqualAdjacent;
      var bc, n := buckets.Length, |list| - 1;
      forall i, j, k | 1 <= i <= j <= k < |list| && C(hasher, list[i], bc) == C(hasher, list[k], bc)
        ensures C(hasher, list[j], bc) == C(hasher, list[i], bc)
      {
        var b := C(hasher, list[i], bc);
        InBucket(hasher, list, n, bc, lo, hi, i, b);
        InBucket(hasher, list, n, bc, lo, hi, j, b);
        InBucket(hasher, list, n, bc, lo, hi, k, b);
      }
      forall i | 1 <= i < |list| && (i > 1 ==> C(hasher, list[i - 1], bc) != C(hasher, list[i], bc))
        ensures buckets[C(hasher, list[i], bc)] == list[i - 1]
      {
        var b := C(hasher, list[i], bc);
        InBucket(hasher, list, n, bc, lo, hi, i, b);
        if i > 1 { InBucket(hasher, list, n, bc, lo, hi, i - 1, b); }
        SlotAt(hasher, list, n, buckets[..], bc, lo, hi, b);
      }
      forall b | 0 <= b < bc
        ensures buckets[b] == null <==> forall i | 1 <= i < |list| :: C(hasher, list[i], bc) != b
      {
        SlotAt(hasher, list, n, buckets[..], bc, lo, hi, b);
        if buckets[b] != null { InBucket(hasher, list, n, bc, lo, hi, hi[b], b); }
        forall i | 1 <= i < |list| ensures C(hasher, list[i], bc) == b <==> lo[b] < i <= hi[b] {
          InBucket(hasher, list, n, bc, lo, hi, i, b);
        }
      }
    }

    /** Links `nd` behind the node at position `p - 1`. */
    method LinkAfter(pn: Node<K>, nd: Node<K>, ghost p: nat)
      requires ValidList() && 1 <= p <= |list| && pn == list[p - 1] && nd !in list
      requires EqualAdjacent(InsertAt(list, p, nd))
      modifies pn`next, nd`next, this`list, this`count
      ensures ValidList() && list == InsertAt(old(list), p, nd) && Nodes(list) == Nodes(old(list)) + {nd}
      ensures nd.next == if p < |old(list)| then old(list)[p] else null
    {
      hide EqualAdjacent;
      nd.next := pn.next;
      pn.next := nd;
      list := InsertAt(list, p, nd);
      count := count + 1;
      NodesInsert(old(list), p, nd);
    }

    /** `find`: the first node with the key, or null when there is none. */
    method Find(k: K) returns (r: Node?<K>)
      requires Valid()
      ensures r == null <==> forall n | n in Nodes(list) :: n.key != k
      ensures r != null ==> r in Nodes(list) && r.key == k
    {
      hide Constrain, Buckets, Slots, Distinct, EqualAdjacent;
      r := null;
      var hash := hasher(k);
      var bc := buckets.Length;
      if bc != 0 {
        var chash := Constrain(hash, bc);
        ConstrainIsMod(hash, bc);
        SlotAt(hasher, list, |list| - 1, buckets[..], bc, lo, hi, chash);
        var nd := buckets[chash];
        if nd != null {
          ghost var i := lo[chash] + 1;
          nd := nd.next;
          while nd != null && (nd.hash == hash || Constrain(nd.hash, bc) == chash)
            invariant lo[chash] < i <= hi[chash] + 1 && nd == (if i < |list| then list[i] else null)
            invariant forall j | lo[chash] < j < i :: list[j].key != k
            decreases |list| - i
          {
            InBucket(hasher, list, |list| - 1, bc, lo, hi, i, chash);
            if nd.hash == hash && nd.key == k {
              return nd;
            }
            nd := nd.next;
            i := i + 1;
          }
          if i < |list| { InBucket(hasher, list, |list| - 1, bc, lo, hi, i, chash); }
          assert i == hi[chash] + 1;
        }
        KeyInBucket(hasher, list, bc, lo, hi, k);
      }
    }

    /**
      `__node_insert_unique`: `overloaded` stands for the load-factor test and `newBc` for the
      bucket count the growth policy picks.
    */
    method InsertUnique(nd: Node<K>, overloaded: bool, newBc: nat) returns (r: Node<K>, inserted: bool)
      requires Valid() && nd !in list && newBc > 0
      modifies this, list, buckets, nd
      ensures Valid()
      ensures inserted <==> forall n | n in Nodes(old(list)) :: n.key != nd.key
      ensures inserted ==> r == nd && Nodes(list) == Nodes(old(list)) + {nd}
      ensures !inserted ==> list == old(list) && r in Nodes(list) && r.key == nd.key
      ensures UniqueKeys(Nodes(old(list))) ==> UniqueKeys(Nodes(list))
    {
      hide Constrain, Buckets, Slots, Distinct, EqualAdjacent;
      nd.hash := hasher(nd.key);
      var bc := buckets.Length;
      if bc != 0 {
        var chash := Constrain(nd.hash, bc);
        ConstrainIsMod(nd.hash, bc);
        SlotAt(hasher, list, |list| - 1, buckets[..], bc, lo, hi, chash);
        var ndptr := buckets[chash];
        if ndptr != null {
          ghost var i := lo[chash] + 1;
          ndptr := ndptr.next;
          while ndptr != null && Constrain(ndptr.hash, bc) == chash
            invariant lo[chash] < i <= hi[chash] + 1 && ndptr == (if i < |list| then list[i] else null)
            invariant forall j | lo[chash] < j < i :: list[j].key != nd.key
            modifies {}
            decreases |list| - i
          {
            InBucket(hasher, list, |list| - 1, bc, lo, hi, i, chash);
            if ndptr.key == nd.key {
              return ndptr, false;
            }
            ndptr := ndptr.next;
            i := i + 1;
          }
          if i < |list| { InBucket(hasher, list, |list| - 1, bc, lo, hi, i, chash); }
        }
        KeyInBucket(hasher, list, bc, lo, hi, nd.key);
      }
      if overloaded || bc == 0 {
        Rehash(newBc);
      }
      InsertFront(nd);
      r, inserted := nd, true;
    }

    /** The empty-bucket branch of both insertions: the node becomes the first of the whole list. */
    method InsertIntoEmpty(nd: Node<K>, chash: nat)
      requires Valid() && nd !in list && nd.hash == hasher(nd.key) && buckets.Length > 0
      requires chash == Constrain(nd.hash, buckets.Length) < buckets.Length && buckets[chash] == null
      requires EqualAdjacent(InsertAt(list, 1, nd))
      modifies this`list, this`count, this`lo, this`hi, list`next, buckets, nd`next
      ensures Valid() && Nodes(list) == Nodes(old(list)) + {nd}
    {
      hide Constrain, Buckets, Slots, Distinct, EqualAdjacent, Nodes, NewLo, NewHi;
      var bc := buckets.Length;
      ghost var slots := buckets[..];
      SlotAt(hasher, list, |list| - 1, slots, bc, lo, hi, chash);
      if |list| > 1 {
        InBucket(hasher, list, |list| - 1, bc, lo, hi, 1, chash);
        ConstrainIsMod(list[1].hash, bc);
      }
      LinkAfter(anchor, nd, 1);
      buckets[chash] := anchor;
      if nd.next != null {
        buckets[Constrain(nd.next.hash, bc)] := nd;
      }
      forall x | 0 <= x < bc
        ensures buckets[x] == SlotAfterInsert(hasher, old(list), slots, bc, lo, hi, 1, nd, x)
      {}
      InsertOk(hasher, old(list), slots, buckets[..], bc, lo, hi, 1, nd);
      lo, hi := NewLo(lo, hi, chash, 1), NewHi(lo, hi, chash, 1);
    }

    /** The tail of `__node_insert_unique`: a node with a new key goes to the front of its bucket. */
    method InsertFront(nd: Node<K>)
      requires Valid() && nd !in list && nd.hash == hasher(nd.key) && buckets.Length > 0
      requires forall n | n in Nodes(list) :: n.key != nd.key
      modifies this`list, this`count, this`lo, this`hi, list, buckets, nd`next
      ensures Valid() && Nodes(list) == Nodes(old(list)) + {nd}
    {
      hide Constrain, Buckets, Slots, Distinct, EqualAdjacent, Nodes, InsertionPoint, NewLo, NewHi;
      var bc := buckets.Length;
      var chash := Constrain(nd.hash, bc);
      ConstrainIsMod(nd.hash, bc);
      SlotAt(hasher, list, |list| - 1, buckets[..], bc, lo, hi, chash);
      ghost var slots := buckets[..];
      var pn := buckets[chash];
      ghost var p := lo[chash] + 1;
      FrontSplitsNothing(hasher, list, bc, lo, hi, nd);
      if pn == null {
        InsertIntoEmpty(nd, chash);
      } else {
        LinkAfter(pn, nd, p);
        forall x | 0 <= x < bc
          ensures buckets[x] == SlotAfterInsert(hasher, old(list), slots, bc, lo, hi, p, nd, x)
        {}
        InsertOk(hasher, old(list), slots, buckets[..], bc, lo, hi, p, nd);
        lo, hi := NewLo(lo, hi, chash, p), NewHi(lo, hi, chash, p);
      }
    }

    /** `__node_insert_multi`: a node goes behind the last node with its key, or else to the end of its bucket. */
    method InsertMulti(nd: Node<K>, overloaded: bool, newBc: nat)
      requires Valid() && nd !in list && newBc > 0
      modifies this, list, buckets, nd
      ensures Valid() && Nodes(list) == Nodes(old(list)) + {nd}
    {
      hide Constrain, Buckets, Slots, Distinct, EqualAdjacent, Nodes;
      nd.hash := hasher(nd.key);
      if overloaded || buckets.Length == 0 {
        Rehash(newBc);
      }
      InsertInBucket(nd);
    }

    /** The search of `__node_insert_multi` through a non-empty bucket, for the node to link behind. */
    method FindLast(nd: Node<K>, chash: nat) returns (pn: Node<K>, ghost q: nat)
      requires Valid() && nd.hash == hasher(nd.key) && buckets.Length > 0
      requires chash == Constrain(nd.hash, buckets.Length) < buckets.Length && buckets[chash] != null
      ensures |lo| == |hi| == buckets.Length
      ensures q < |list| && pn == list[q] && InsertionPoint(lo, hi, chash, q + 1)
      ensures EqualAdjacent(InsertAt(list, q + 1, nd))
      ensures q + 1 < |list| ==> (C(hasher, list[q + 1], buckets.Length) == chash <==> q < hi[chash])
    {
      hide Constrain, Buckets, Slots, Distinct, EqualAdjacent, Nodes;
      var bc := buckets.Length;
      SlotAt(hasher, list, |list| - 1, buckets[..], bc, lo, hi, chash);
      pn, q := buckets[chash], lo[chash];
      var found := false;
      while pn.next != null && Constrain(pn.next.hash, bc) == chash
        invariant lo[chash] <= q <= hi[chash] && pn == list[q]
        invariant found ==> q > lo[chash] && list[q].key == nd.key
        invariant !found ==> forall j | lo[chash] < j <= q :: list[j].key != nd.key
        decreases |list| - q
      {
        InBucket(hasher, list, |list| - 1, bc, lo, hi, q + 1, chash);
        if found != (pn.next.hash == nd.hash && pn.next.key == nd.key) {
          if !found {
            found := true;
          } else {
            break;
          }
        }
        pn := pn.next;
        q := q + 1;
      }
      if q + 1 < |list| { InBucket(hasher, list, |list| - 1, bc, lo, hi, q + 1, chash); }
      EndSplitsNothing(hasher, list, bc, lo, hi, nd, q, found);
    }

    method InsertInBucket(nd: Node<K>)
      requires Valid() && nd !in list && nd.hash == hasher(nd.key) && buckets.Length > 0
      modifies this`list, this`count, this`lo, this`hi, list`next, buckets, nd`next
      ensures Valid() && Nodes(list) == Nodes(old(list)) + {nd}
    {
      hide Constrain, Buckets, Slots, Distinct, EqualAdjacent, Nodes, InsertionPoint, NewLo, NewHi;
      var bc := buckets.Length;
      var chash := Constrain(nd.hash, bc);
      ConstrainIsMod(nd.hash, bc);
      SlotAt(hasher, list, |list| - 1, buckets[..], bc, lo, hi, chash);
      if buckets[chash] == null {
        EndSplitsNothing(hasher, list, bc, lo, hi, nd, 0, false);
        InsertIntoEmpty(nd, chash);
      } else {
        var pn, q := FindLast(nd, chash);
        InsertBehind(pn, nd, chash, q);
      }
    }

    /** Links `nd` inside or at the end of its non-empty bucket and repairs the slot of a bucket starting behind it. */
    method InsertBehind(pn: Node<K>, nd: Node<K>, chash: nat, ghost q: nat)
      requires Valid() && nd !in list && nd.hash == hasher(nd.key) && buckets.Length > 0
      requires chash == Constrain(nd.hash, buckets.Length) < buckets.Length && buckets[chash] != null
      requires q < |list| && pn == list[q] && |lo| == |hi| == buckets.Length && InsertionPoint(lo, hi, chash, q + 1)
      requires EqualAdjacent(InsertAt(list, q + 1, nd))
      modifies this`list, this`count, this`lo, this`hi, list`next, buckets, nd`next
      ensures Valid() && Nodes(list) == Nodes(old(list)) + {nd}
    {
      hide Constrain, Buckets, Slots, Distinct, EqualAdjacent, Nodes, InsertionPoint, NewLo, NewHi;
      var bc := buckets.Length;
      ghost var slots := buckets[..];
      SlotAt(hasher, list, |list| - 1, slots, bc, lo, hi, chash);
      LinkAfter(pn, nd, q + 1);
      if nd.next != null {
        var nhash := Constrain(nd.next.hash, bc);
        ConstrainIsMod(nd.next.hash, bc);
        if nhash != chash {
          buckets[nhash] := nd;
        }
      }
      forall x | 0 <= x < bc
        ensures buckets[x] == SlotAfterInsert(hasher, old(list), slots, bc, lo, hi, q + 1, nd, x)
      {}
      InsertOk(hasher, old(list), slots, buckets[..], bc, lo, hi, q + 1, nd);
      lo, hi := NewLo(lo, hi, chash, q + 1), NewHi(lo, hi, chash, q + 1);
    }

    /** `remove`: unlinks a node of the table. */
    method Remove(cn: Node<K>)
      requires Valid() && cn in Nodes(list)
      modifies this`list, this`count, this`lo, this`hi, list`next, buckets
      ensures Valid() && Nodes(list) == Nodes(old(list)) - {cn}
      ensures exists p :: 1 <= p < |old(list)| && old(list)[p] == cn && list == RemoveAt(old(list), p)
    {
      hide C, Constrain, Buckets, Slots, EqualAdjacent, Distinct, RemovedLo, RemovedHi, RemoveAt, Nodes;
      var bc := buckets.Length;
      ghost var p := PositionOf(list, cn);
      HashNamesBucket(hasher, cn, cn.hash, bc);
      var chash := Constrain(cn.hash, bc);
      RemovalBounds(hasher, list, bc, lo, hi, p, chash, chash);
      SlotAt(hasher, list, |list| - 1, buckets[..], bc, lo, hi, chash);
      var pn := Predecessor(cn, chash, p);
      ghost var slots := buckets[..];
      FixSlots(pn, cn, chash, p);
      RemoveBuckets(hasher, list, bc, lo, hi, p, chash);
      RemoveSlots(hasher, list, slots, buckets[..], bc, lo, hi, p, chash);
      Unlink(pn, cn, p);
      lo, hi := RemovedLo(lo, hi, chash, p), RemovedHi(lo, hi, chash, p);
    }

    /** The slot repairs of `remove`. */
    method FixSlots(pn: Node<K>, cn: Node<K>, chash: nat, ghost p: nat)
      requires Valid() && buckets.Length > 0 && Removable(hasher, list, buckets.Length, lo, hi, p, chash)
      requires cn == list[p] && pn == list[p - 1]
      modifies buckets
      ensures chash < |lo| == |hi|
      ensures forall x | 0 <= x < buckets.Length :: buckets[x] ==
                if p + 1 < |list| && x == C(hasher, list[p + 1], buckets.Length) && x != chash then list[p - 1]
                else if x == chash && lo[chash] + 1 == hi[chash] then null else old(buckets[x])
    {
      hide C, Constrain, Buckets, Slots, EqualAdjacent;
      var bc := buckets.Length;
      RemovalBounds(hasher, list, bc, lo, hi, p, chash, chash);
      if p > 1 {
        HashNamesBucket(hasher, pn, pn.hash, bc);
        InBucket(hasher, list, |list| - 1, bc, lo, hi, p - 1, chash);
      }
      if cn.next != null { HashNamesBucket(hasher, cn.next, cn.next.hash, bc); }
      if pn == anchor || Constrain(pn.hash, bc) != chash {
        if cn.next == null || Constrain(cn.next.hash, bc) != chash {
          buckets[chash] := null;
        }
      }
      if cn.next != null {
        var nhash := Constrain(cn.next.hash, bc);
        if nhash != chash {
          buckets[nhash] := pn;
        }
      }
    }

    method Predecessor(cn: Node<K>, chash: nat, ghost p: nat) returns (pn: Node<K>)
      requires ValidList() && |lo| == |hi| == buckets.Length && chash < buckets.Length
      requires lo[chash] < p < |list| && list[p] == cn && buckets[chash] == list[lo[chash]]
      ensures pn == list[p - 1]
    {
      pn := buckets[chash];
      ghost var q := lo[chash];
      while pn.next != cn
        invariant lo[chash] <= q < p && pn == list[q]
        decreases p - q
      {
        pn := pn.next;
        q := q + 1;
      }
    }

    method Unlink(pn: Node<K>, cn: Node<K>, ghost p: nat)
      requires ValidList() && Hashed(hasher, list) && 1 <= p < |list| && list[p] == cn && list[p - 1] == pn
      modifies this`list, this`count, list`next
      ensures ValidList() && Hashed(hasher, list) && |list| == |old(list)| - 1
      ensures list == RemoveAt(old(list), p) && Nodes(list) == Nodes(old(list)) - {cn}
    {
      hide EqualAdjacent;
      EqualRemove(list, p);
      pn.next := cn.next;
      cn.next := null;
      list := RemoveAt(list, p);
      count := count - 1;
    }

    /**
      `__rehash`: walks the list once; a node whose bucket was already left behind is moved, together
      with the equal nodes that follow it, to the front of that bucket.
    */
    method Rehash(nbc: nat)
      requires Valid() && (nbc > 0 || |list| == 1)
      modifies this, list
      ensures Valid() && buckets.Length == nbc && fresh(buckets)
      ensures forall i | 0 <= i < |list| :: list[i] in old(list)
      ensures Nodes(list) == Nodes(old(list)) && count == old(count)
    {
      hide C, Constrain, Buckets, Slots, Distinct, EqualAdjacent, Nodes;
      buckets := new Node?<K>[nbc](_ => null);
      lo, hi := seq(nbc, _ => 0), seq(nbc, _ => 0);
      if nbc > 0 {
        NoBuckets(hasher, list, buckets[..], nbc);
        var pp: Node<K> := anchor;
        var cp: Node?<K> := pp.next;
        if cp != null {
          HashNamesBucket(hasher, cp, cp.hash, nbc);
          var chash := Constrain(cp.hash, nbc);
          Extend(pp, cp, chash, 0);
          var phash := chash;
          pp := cp;
          cp := pp.next;
          ghost var p := 1;
          while cp != null
            invariant Prefix(p, pp, phash) && cp == pp.next && buckets.Length == nbc && fresh(buckets)
            invariant |list| == |old(list)| && forall i | 0 <= i < |list| :: list[i] in old(list)
            invariant Nodes(list) == Nodes(old(list)) && count == old(count)
            decreases |list| - p
          {
            pp, phash, p := RehashStep(pp, cp, phash, p);
            cp := pp.next;
          }
        }
      }
    }

    /** The nodes up to `pp`, at position `p` and of bucket `phash`, are in their buckets. */
    ghost predicate Prefix(p: nat, pp: Node<K>, phash: nat)
      reads this, list, buckets
    {
      && ValidList() && buckets.Length > 0 && 1 <= p < |list| && pp == list[p] && phash == C(hasher, pp, buckets.Length)
      && Hashed(hasher, list)
      && |lo| == |hi| && Buckets(hasher, list, p, buckets.Length, lo, hi) && Slots(list, buckets[..], lo, hi)
    }

    /** The body of the `__rehash` loop. */
    method RehashStep(pp: Node<K>, cp: Node<K>, phash: nat, ghost p: nat)
      returns (pp': Node<K>, phash': nat, ghost p': nat)
      requires Prefix(p, pp, phash) && pp.next == cp
      modifies this`list, this`lo, this`hi, list`next, buckets
      ensures p < p' && Prefix(p', pp', phash')
      ensures |list| == |old(list)| && forall i | 0 <= i < |list| :: list[i] in old(list)
      ensures Nodes(list) == Nodes(old(list))
    {
      hide C, Buckets, Slots, Distinct, EqualAdjacent, Nodes;
      assert p + 1 < |list| && cp == list[p + 1];
      HashNamesBucket(hasher, cp, cp.hash, buckets.Length);
      var chash := Constrain(cp.hash, buckets.Length);
      SlotAt(hasher, list, p, buckets[..], buckets.Length, lo, hi, chash);
      pp', phash', p' := pp, phash, p;
      if chash == phash {
        Extend(pp, cp, chash, p);
        pp', p' := cp, p + 1;
      } else if buckets[chash] == null {
        Extend(pp, cp, chash, p);
        pp', phash', p' := cp, chash, p + 1;
      } else {
        p' := MoveBack(pp, cp, chash, p);
      }
    }

    /** The node behind the processed prefix stays where it is; the slot of a bucket it opens is set. */
    method Extend(pp: Node<K>, cp: Node<K>, chash: nat, ghost p: nat)
      requires |list| > p + 1 && pp == list[p] && cp == list[p + 1] && |lo| == |hi|
      requires Buckets(hasher, list, p, buckets.Length, lo, hi) && Slots(list, buckets[..], lo, hi)
      requires chash == C(hasher, cp, buckets.Length)
      requires buckets[chash] == null || (p > 0 && chash == C(hasher, pp, buckets.Length))
      modifies this`lo, this`hi, buckets
      ensures |lo| == |hi| && Buckets(hasher, list, p + 1, buckets.Length, lo, hi) && Slots(list, buckets[..], lo, hi)
    {
      hide C, Buckets, Slots;
      ghost var bc := buckets.Length;
      SlotAt(hasher, list, p, buckets[..], bc, lo, hi, chash);
      ghost var lo' := if lo[chash] == hi[chash] then lo[chash := p] else lo;
      ghost var hi' := hi[chash := p + 1];
      ExtendBuckets(hasher, list, p, bc, lo, hi, lo', hi');
      ExtendSlots(hasher, list, buckets[..], p, bc, lo, hi, lo', hi');
      if buckets[chash] == null {
        buckets[chash] := pp;
      }
      lo, hi := lo', hi';
    }

    /** The innermost branch of `__rehash`: the run of nodes equal to `cp` joins the front of bucket `chash`. */
    method MoveBack(pp: Node<K>, cp: Node<K>, chash: nat, ghost p: nat) returns (ghost q: nat)
      requires ValidList() && 1 <= p < |list| - 1 && pp == list[p] && cp == list[p + 1]
      requires Buckets(hasher, list, p, buckets.Length, lo, hi) && Slots(list, buckets[..], lo, hi)
      requires chash == C(hasher, cp, buckets.Length) != C(hasher, pp, buckets.Length) && buckets[chash] != null
      requires Hashed(hasher, list)
      modifies this`list, this`lo, this`hi, list`next
      ensures ValidList() && p < q < |list| && list[q] == pp && Hashed(hasher, list)
      ensures |lo| == |hi| && Buckets(hasher, list, q, buckets.Length, lo, hi) && Slots(list, buckets[..], lo, hi)
      ensures |list| == |old(list)| && forall i | 0 <= i < |list| :: list[i] in old(list)
      ensures Nodes(list) == Nodes(old(list))
    {
      hide C, Buckets, Slots, Distinct, EqualAdjacent, Nodes, Source;
      ghost var bc := buckets.Length;
      SlotAt(hasher, list, p, buckets[..], bc, lo, hi, chash);
      ghost var s := lo[chash];
      ghost var list0 := list;
      q := p + 1;
      var np := cp;
      while np.next != null && cp.key == np.next.key
        invariant p < q < |list| && np == list[q]
        invariant forall i | p < i <= q :: list[i].key == cp.key
        modifies {}
        decreases |list| - q
      {
        np := np.next;
        q := q + 1;
      }
      RunMovable(hasher, list, p, q, bc, lo, hi, chash);
      EqualMove(hasher, list, p, q, bc, lo, hi, chash);
      MoveBuckets(hasher, list, p, q, bc, lo, hi, chash);
      MoveSlots(hasher, list, buckets[..], p, q, bc, lo, hi, chash);
      MoveKeepsNodes(list, s, p, q);
      Splice(pp, np, buckets[chash], cp, s, p, q);
      lo, hi := MovedLo(lo, hi, chash, p, q), MovedHi(lo, hi, chash, p, q);
    }

    /** The three pointer writes that move the run cp..np from behind `pp` to behind `front`. */
    method Splice(pp: Node<K>, np: Node<K>, front: Node<K>, cp: Node<K>, ghost s: nat, ghost p: nat, ghost q: nat)
      requires s < p < q < |list| && Distinct(list) && Linked(list)
      requires front == list[s] && pp == list[p] && cp == list[p + 1] && np == list[q]
      modifies this`list, list`next
      ensures list == MoveRun(old(list), s, p, q) && Linked(list)
    {
      hide Source;
      pp.next := np.next;
      np.next := front.next;
      front.next := cp;
      ghost var list0 := list;
      list := MoveRun(list, s, p, q);
      SourceNext(s, p, q, |list| - 1);
      forall i {:trigger list[i].next} | 0 <= i < |list| - 1
        ensures list[i].next == list[i + 1]
      {
        SourceNext(s, p, q, i);
        assert list[i] == list0[Source(s, p, q, i)];
      }
    }
  }
}
