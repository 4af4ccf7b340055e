/** `rotate` on a bit range: block swaps until the shorter side fits a four-word buffer. */
module BitRotate {
  import opened BitWords
  import opened BitCopy
  import opened BitCopyBackward
  import opened BitSwap

  /** `__bit_array::_Np` */
  const BUFFER_WORDS: nat := 4

  /** `dst` is `src` with the bits f..m-1 and m..l-1 in the other order; the bits outside f..l-1 are as before. */
  ghost predicate Rotated(src: seq<Word>, dst: seq<Word>, f: nat, m: nat, l: nat) {
    && |dst| == |src| && f <= m <= l
    && forall p: int {:trigger Bit(dst, p)} :: Bit(dst, p) ==
         if f <= p < f + l - m then Bit(src, p - f + m)
         else if f + l - m <= p < l then Bit(src, p - (l - m))
         else Bit(src, p)
  }

  /** Rotating what is left of `cur` completes the rotation of `src`. */
  ghost predicate Completes(src: seq<Word>, f0: nat, m0: nat, l0: nat, cur: seq<Word>, f: nat, m: nat, l: nat) {
    |cur| == |src| && forall dst :: Rotated(cur, dst, f, m, l) ==> Rotated(src, dst, f0, m0, l0)
  }

  /** With an empty side there is nothing left to rotate. */
  lemma NothingLeft(src: seq<Word>, f0: nat, m0: nat, l0: nat, cur: seq<Word>, f: nat, m: nat, l: nat)
    requires Completes(src, f0, m0, l0, cur, f, m, l) && f <= m <= l && (f == m || m == l)
    ensures Rotated(src, cur, f0, m0, l0)
  {
    assert Rotated(cur, cur, f, m, l);
  }

  /** Swapping the shorter front side behind leaves a rotation of the bits after it. */
  lemma FrontSwapped(src: seq<Word>, f0: nat, m0: nat, l0: nat, cur: seq<Word>, cur': seq<Word>, f: nat, m: nat, l: nat)
    requires Completes(src, f0, m0, l0, cur, f, m, l) && f <= m && m - f <= l - m
    requires Swapped(cur, cur', f, m, m - f)
    ensures Completes(src, f0, m0, l0, cur', m, m + (m - f), l)
  {
    hide Bit;
    forall dst | Rotated(cur', dst, m, m + (m - f), l) ensures Rotated(src, dst, f0, m0, l0) {
      assert Rotated(cur, dst, f, m, l);
    }
  }

  /** Swapping the shorter back side to the front leaves a rotation of the bits after it. */
  lemma BackSwapped(src: seq<Word>, f0: nat, m0: nat, l0: nat, cur: seq<Word>, cur': seq<Word>, f: nat, m: nat, l: nat)
    requires Completes(src, f0, m0, l0, cur, f, m, l) && m <= l && l - m < m - f
    requires Swapped(cur, cur', f, m, l - m)
    ensures Completes(src, f0, m0, l0, cur', f + (l - m), m, l)
  {
    hide Bit;
    forall dst | Rotated(cur', dst, f + (l - m), m, l) ensures Rotated(src, dst, f0, m0, l0) {
      assert Rotated(cur, dst, f, m, l);
    }
  }

  /** The front side saved, the back side moved down, the saved bits put behind it. */
  lemma FrontBuffered(cur: seq<Word>, mid: seq<Word>, dst: seq<Word>, buf: seq<Word>, buf': seq<Word>, f: nat,
                      m: nat, l: nat)
    requires f <= m <= l && Copied(cur, buf, buf', f, 0, m - f)
    requires Copied(cur, cur, mid, m - f, f, f + (l - m))
    requires Copied(buf', mid, dst, 0 - (f + (l - m)), f + (l - m), l)
    ensures Rotated(cur, dst, f, m, l)
  {
    hide Bit;
  }

  /** The back side saved, the front side moved up, the saved bits put before it. */
  lemma BackBuffered(cur: seq<Word>, mid: seq<Word>, dst: seq<Word>, buf: seq<Word>, buf': seq<Word>, f: nat, m: nat,
                     l: nat)
    requires f <= m <= l && Copied(cur, buf, buf', m, 0, l - m)
    requires Copied(cur, cur, mid, 0 - (l - m), f + (l - m), l)
    requires Copied(buf', mid, dst, 0 - f, f, f + (l - m))
    ensures Rotated(cur, dst, f, m, l)
  {
    hide Bit;
  }

  lemma NothingDone(src: seq<Word>, f: nat, m: nat, l: nat)
    ensures Completes(src, f, m, l, src, f, m, l)
  {}

  lemma Finished(src: seq<Word>, f0: nat, m0: nat, l0: nat, cur: seq<Word>, dst: seq<Word>, f: nat, m: nat, l: nat)
    requires Completes(src, f0, m0, l0, cur, f, m, l) && Rotated(cur, dst, f, m, l)
    ensures Rotated(src, dst, f0, m0, l0)
  {}

  lemma AdvancePos(it: BitIter, n: nat)
    ensures Pos(Advance(it, n)) == Pos(it) + n && Advance(it, n).ctz < 32
  {}

  method ThroughBufferFront(a: array<Word>, first: BitIter, middle: BitIter, last: BitIter)
    requires first.ctz < 32 && middle.ctz < 32 && last.ctz < 32
    requires Pos(first) <= Pos(middle) <= Pos(last) <= 32 * a.Length
    requires Pos(middle) - Pos(first) <= 32 * BUFFER_WORDS
    modifies a
    ensures Rotated(old(a[..]), a[..], Pos(first), Pos(middle), Pos(last))
  {
    hide Pos, Bit, Copied, Rotated;
    var b := new Word[BUFFER_WORDS];
    ghost var cur, buf := a[..], b[..];
    var begin := BitIter(0, 0);
    WordStart(begin);
    var end := Copy(a, first, middle, b, begin);
    ghost var buf' := b[..];
    var res := Copy(a, middle, last, a, first);
    ghost var mid := a[..];
    res := Copy(b, begin, end, a, res);
    FrontBuffered(cur, mid, a[..], buf, buf', Pos(first), Pos(middle), Pos(last));
  }

  method ThroughBufferBack(a: array<Word>, first: BitIter, middle: BitIter, last: BitIter)
    requires first.ctz < 32 && middle.ctz < 32 && last.ctz < 32
    requires Pos(first) <= Pos(middle) <= Pos(last) <= 32 * a.Length
    requires Pos(last) - Pos(middle) <= 32 * BUFFER_WORDS
    modifies a
    ensures Rotated(old(a[..]), a[..], Pos(first), Pos(middle), Pos(last))
  {
    hide Pos, Bit, Copied, Rotated;
    var b := new Word[BUFFER_WORDS];
    ghost var cur, buf := a[..], b[..];
    var begin := BitIter(0, 0);
    WordStart(begin);
    var end := Copy(a, middle, last, b, begin);
    ghost var buf' := b[..];
    var res := CopyBackward(a, first, middle, a, last);
    ghost var mid := a[..];
    res := CopyBackward(b, begin, end, a, res);
    BackBuffered(cur, mid, a[..], buf, buf', Pos(first), Pos(middle), Pos(last));
  }

  /** Rotates for every length and every pair of offsets, and returns where the first bit went. */
  method Rotate(a: array<Word>, first0: BitIter, middle0: BitIter, last: BitIter) returns (r: BitIter)
    requires first0.ctz < 32 && middle0.ctz < 32 && last.ctz < 32
    requires Pos(first0) <= Pos(middle0) <= Pos(last) <= 32 * a.Length
    modifies a
    ensures Rotated(old(a[..]), a[..], Pos(first0), Pos(middle0), Pos(last))
    ensures r.ctz < 32 && Pos(r) == Pos(first0) + Pos(last) - Pos(middle0)
  {
    hide Pos, Bit, Swapped, Rotated, Completes, Advance;
    var first, middle := first0, middle0;
    ghost var src := a[..];
    var d1: nat, d2: nat := Pos(middle) - Pos(first), Pos(last) - Pos(middle);
    r := Advance(first, d2);
    AdvancePos(first, d2);
    NothingDone(src, Pos(first), Pos(middle), Pos(last));
    while d1 != 0 && d2 != 0
      invariant first.ctz < 32 && middle.ctz < 32
      invariant Pos(first) + d1 == Pos(middle) && Pos(middle) + d2 == Pos(last)
      invariant Completes(src, Pos(first0), Pos(middle0), Pos(last), a[..], Pos(first), Pos(middle), Pos(last))
      decreases d1 + d2
    {
      ghost var cur := a[..];
      if d1 <= d2 {
        if d1 <= 32 * BUFFER_WORDS {
          ThroughBufferFront(a, first, middle, last);
          Finished(src, Pos(first0), Pos(middle0), Pos(last), cur, a[..], Pos(first), Pos(middle), Pos(last));
          return;
        } else {
          var mp := SwapRanges(a, first, middle, a, middle);
          FrontSwapped(src, Pos(first0), Pos(middle0), Pos(last), cur, a[..], Pos(first), Pos(middle), Pos(last));
          first := middle;
          middle := mp;
          d2 := d2 - d1;
        }
      } else {
        if d2 <= 32 * BUFFER_WORDS {
          ThroughBufferBack(a, first, middle, last);
          Finished(src, Pos(first0), Pos(middle0), Pos(last), cur, a[..], Pos(first), Pos(middle), Pos(last));
          return;
        } else {
          var mp := Advance(first, d2);
          AdvancePos(first, d2);
          var _ := SwapRanges(a, first, mp, a, middle);
          BackSwapped(src, Pos(first0), Pos(middle0), Pos(last), cur, a[..], Pos(first), Pos(middle), Pos(last));
          first := mp;
          d1 := d1 - d2;
        }
      }
    }
    NothingLeft(src, Pos(first0), Pos(middle0), Pos(last), a[..], Pos(first), Pos(middle), Pos(last));
  }

  /** Rotating back by the other side's length restores every bit. */
  lemma RotateBack(src: seq<Word>, dst: seq<Word>, src': seq<Word>, f: nat, m: nat, l: nat)
    requires Rotated(src, dst, f, m, l) && Rotated(dst, src', f, f + (l - m), l) && l <= 32 * |src|
    ensures src' == src
  {
    forall p | 0 <= p < 32 * |src| ensures BitAt(src', p) == BitAt(src, p) {
      assert Bit(src', p) == Bit(src, p);
    }
    SameBits(src', src);
  }
}
