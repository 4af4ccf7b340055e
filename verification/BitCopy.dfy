/**
  `copy` on bit ranges: word-wise, with or without equal bit offsets, also down to an overlapping
  range of the same array.
*/
module BitCopy {
  import opened BitWords

  /** The bit at a position, false outside the array. */
  ghost function Bit(ws: seq<Word>, p: int): bool {
    0 <= p < 32 * |ws| && BitAt(ws, p)
  }

  /** The positions lo..hi-1 of `dst` now hold the bits of `src` that lie `d` further on; all others are as before. */
  ghost predicate Copied(src: seq<Word>, dst: seq<Word>, dst': seq<Word>, d: int, lo: int, hi: int) {
    && |dst'| == |dst| && 0 <= lo <= hi <= 32 * |dst|
    && forall p: int {:trigger Bit(dst', p)} :: Bit(dst', p) == if lo <= p < hi then Bit(src, p + d) else Bit(dst, p)
  }

  /** What an array read during the copy still holds: `a` itself untouched, or the same array being written. */
  ghost predicate Reading(src: seq<Word>, dst: seq<Word>, dst': seq<Word>, cur: seq<Word>, same: bool) {
    if same then cur == dst' && dst == src else cur == src
  }

  lemma WordBit(ws: seq<Word>, seg: nat, j: nat)
    requires seg < |ws| && j < 32
    ensures Bit(ws, 32 * seg + j) == ws[seg][j]
  {
    BitOfWord(ws, seg, j);
  }

  lemma CopyMore(src: seq<Word>, dst: seq<Word>, dst1: seq<Word>, dst2: seq<Word>, d: int, lo: int, hi: int,
                 seg: nat, p: nat, q: nat, w: Word)
    requires Copied(src, dst, dst1, d, lo, hi) && Rewritten(dst1, dst2, seg, p, q, w)
    requires 32 * seg + p == hi || 32 * seg + q == lo
    requires forall j | p <= j < q :: w[j] == Bit(src, 32 * seg + j + d)
    ensures 32 * seg + p == hi ==> Copied(src, dst, dst2, d, lo, 32 * seg + q)
    ensures 32 * seg + q == lo ==> Copied(src, dst, dst2, d, 32 * seg + p, hi)
  {
    var lo' := if 32 * seg + p == hi then lo else 32 * seg + p;
    var hi' := if 32 * seg + p == hi then 32 * seg + q else hi;
    forall x: int
      ensures Bit(dst2, x) == if lo <= x < hi || 32 * seg + p <= x < 32 * seg + q then Bit(src, x + d) else Bit(dst, x)
    {
      assert Bit(dst1, x) == if lo <= x < hi then Bit(src, x + d) else Bit(dst, x);
      if 32 * seg <= x < 32 * seg + 32 {
        WordBit(dst2, seg, x - 32 * seg);
        WordBit(dst1, seg, x - 32 * seg);
      }
    }
  }

  /** `*seg &= ~m; *seg |= x` */
  method Put(b: array<Word>, seg: nat, m: Word, x: Word, ghost src: seq<Word>, ghost dst: seq<Word>,
             ghost d: int, ghost lo: int, ghost hi: int, ghost p: nat, ghost q: nat)
    requires Copied(src, dst, b[..], d, lo, hi) && seg < b.Length && p <= q <= 32 && IsMask(m, p, q)
    requires 32 * seg + p == hi || 32 * seg + q == lo
    requires Ready(src, x, seg, d, p, q)
    modifies b
    ensures 32 * seg + p == hi ==> Copied(src, dst, b[..], d, lo, 32 * seg + q)
    ensures 32 * seg + q == lo ==> Copied(src, dst, b[..], d, 32 * seg + p, hi)
  {
    hide Copied, Bit, Not, And, Or;
    ghost var dst1 := b[..];
    PutBits(b[seg], m, x, p, q);
    b[seg] := And(b[seg], Not(m));
    b[seg] := Or(b[seg], x);
    CopyMore(src, dst, dst1, b[..], d, lo, hi, seg, p, q, b[seg]);
  }

  /** `w` agrees with the source word `seg` on the bits p..q-1. */
  ghost predicate Holds(src: seq<Word>, w: Word, seg: nat, p: nat, q: nat) {
    forall j | 0 <= j < 32 && p <= j < q :: w[j] == Bit(src, 32 * seg + j)
  }

  /** A source word read before its bits are overwritten. */
  lemma Fetched(src: seq<Word>, dst: seq<Word>, dst': seq<Word>, cur: seq<Word>, same: bool, d: int, lo: int, hi: int,
                seg: nat, p: nat, q: nat)
    requires Copied(src, dst, dst', d, lo, hi) && Reading(src, dst, dst', cur, same)
    requires seg < |cur| && p <= q <= 32 && (same ==> hi <= 32 * seg + p || 32 * seg + q <= lo)
    ensures Holds(src, cur[seg], seg, p, q)
  {
    forall j | p <= j < q ensures cur[seg][j] == Bit(src, 32 * seg + j) {
      WordBit(cur, seg, j);
    }
  }

  /** `w` is the source word at `seg`, masked to the bits lo..hi-1. */
  ghost predicate Piece(src: seq<Word>, w: Word, seg: nat, lo: nat, hi: nat) {
    forall j | 0 <= j < 32 :: w[j] == (lo <= j < hi && Bit(src, 32 * seg + j))
  }

  lemma MaskedPiece(src: seq<Word>, w: Word, m: Word, seg: nat, lo: nat, hi: nat)
    requires IsMask(m, lo, hi) && Holds(src, w, seg, lo, hi)
    ensures Piece(src, And(w, m), seg, lo, hi)
  {
    AndBits(w, m);
  }

  lemma WholePiece(src: seq<Word>, w: Word, seg: nat)
    requires Holds(src, w, seg, 0, 32)
    ensures Piece(src, w, seg, 0, 32)
  {}

  /** Shifting a piece makes it exactly the bits p..q-1 to be put into word `to`. */
  lemma ShlPiece(src: seq<Word>, w: Word, seg: nat, lo: nat, hi: nat, k: nat, to: nat, d: int, p: nat, q: nat)
    requires Piece(src, w, seg, lo, hi) && k < 32 && 32 * to + d == 32 * seg - k
    requires lo <= hi <= 32 && p == lo + k && q == if hi + k > 32 then 32 else hi + k
    ensures Ready(src, Shl(w, k), to, d, p, q)
  {
    ShlBits(w, k);
    forall j | 0 <= j < 32 ensures Shl(w, k)[j] == (p <= j < q && Bit(src, 32 * to + j + d)) {
      assert 32 * to + j + d == 32 * seg + (j - k);
    }
  }

  lemma ShrPiece(src: seq<Word>, w: Word, seg: nat, lo: nat, hi: nat, k: nat, to: nat, d: int, p: nat, q: nat)
    requires Piece(src, w, seg, lo, hi) && k < 32 && 32 * to + d == 32 * seg + k
    requires lo <= hi <= 32 && p == (if lo < k then 0 else lo - k) && q + k == (if hi < k then k else hi)
    ensures Ready(src, Shr(w, k), to, d, p, q)
  {
    ShrBits(w, k);
    forall j | 0 <= j < 32 ensures Shr(w, k)[j] == (p <= j < q && Bit(src, 32 * to + j + d)) {
      assert 32 * to + j + d == 32 * seg + (j + k);
    }
  }

  /** `x` has the bits that belong at p..q-1 of word `seg`, and no others. */
  ghost predicate Ready(src: seq<Word>, x: Word, seg: nat, d: int, p: nat, q: nat) {
    forall j | 0 <= j < 32 :: x[j] == (p <= j < q && Bit(src, 32 * seg + j + d))
  }

  function Advance(it: BitIter, n: nat): BitIter {
    BitIter(it.seg + (n + it.ctz) / BITS, (n + it.ctz) % BITS)
  }

  /** Advancing within a word, or exactly to its end. */
  lemma AdvanceWithin(it: BitIter, n: nat)
    requires n + it.ctz <= 32 && 0 < n
    ensures Advance(it, n) == if n + it.ctz < 32 then BitIter(it.seg, it.ctz + n) else BitIter(it.seg + 1, 0)
  {}

  lemma PosDef(it: BitIter)
    ensures Pos(it) == 32 * it.seg + it.ctz
  {}

  lemma WordStart(it: BitIter)
    ensures it.ctz == 0 ==> Pos(it) == 32 * it.seg
  {}

  lemma FirstCopied(src: seq<Word>, dst: seq<Word>, same: bool, d: int, r: nat)
    requires r <= 32 * |dst| && (same ==> src == dst)
    ensures Copied(src, dst, dst, d, r, r) && Reading(src, dst, dst, src, same)
  {}

  /** What is left of a piece goes to the low bits of the next destination word. */
  method PutLow(b: array<Word>, to: nat, w: Word, k: nat, n: nat, ghost src: seq<Word>, ghost dst: seq<Word>,
                ghost d: int, ghost r: nat, ghost seg: nat, ghost lo: nat)
    requires to < b.Length && 0 < n < 32 && k + n <= 32 && lo <= k < 32 && Piece(src, w, seg, lo, k + n)
    requires 32 * to + d == 32 * seg + k && r <= 32 * to && Copied(src, dst, b[..], d, r, 32 * to)
    modifies b
    ensures Copied(src, dst, b[..], d, r, 32 * to + n)
  {
    hide Copied, Bit, Piece, Ready, IsMask, Ones, Not, And, Or, Shl, Shr;
    var m := Shr(Ones(), BITS - n);
    MaskBits(0, n);
    ShrPiece(src, w, seg, lo, k + n, k, to, d, 0, n);
    Put(b, to, m, Shr(w, k), src, dst, d, r, 32 * to, 0, n);
  }

  /** The part of a piece that fits into the current destination word. */
  method PutFirst(b: array<Word>, result: BitIter, w: Word, lo: nat, dn: nat, ddn: nat,
                  ghost src: seq<Word>, ghost dst: seq<Word>, ghost d: int, ghost r: nat, ghost seg: nat)
    requires result.ctz < 32 && lo < 32 && 0 < dn && lo + dn <= 32 && result.seg < b.Length
    requires Piece(src, w, seg, lo, lo + dn)
    requires ddn == (if dn < 32 - result.ctz then dn else 32 - result.ctz)
    requires Pos(result) + d == 32 * seg + lo && r <= Pos(result) && Copied(src, dst, b[..], d, r, Pos(result))
    modifies b
    ensures Copied(src, dst, b[..], d, r, Pos(result) + ddn)
  {
    hide Copied, Bit, Piece, Ready, IsMask, Ones, Not, And, Or, Shl, Shr;
    var m := And(Shl(Ones(), result.ctz), Shr(Ones(), BITS - result.ctz - ddn));
    MaskBits(result.ctz, result.ctz + ddn);
    var x;
    if result.ctz > lo {
      x := Shl(w, result.ctz - lo);
      ShlPiece(src, w, seg, lo, lo + dn, result.ctz - lo, result.seg, d, result.ctz, result.ctz + ddn);
    } else {
      x := Shr(w, lo - result.ctz);
      ShrPiece(src, w, seg, lo, lo + dn, lo - result.ctz, result.seg, d, result.ctz, result.ctz + ddn);
    }
    Put(b, result.seg, m, x, src, dst, d, r, Pos(result), result.ctz, result.ctz + ddn);
  }

  /**
    Puts the `dn` bits of a piece behind `result`, over one or two destination words: the code that the
    first and the last source word of `__copy_unaligned` share (there `lo` is the source offset, or 0).
  */
  method PutPiece(b: array<Word>, result: BitIter, w: Word, lo: nat, dn: nat,
                  ghost src: seq<Word>, ghost dst: seq<Word>, ghost d: int, ghost r: nat, ghost seg: nat)
    returns (res: BitIter)
    requires result.ctz < 32 && lo < 32 && 0 < dn && lo + dn <= 32 && Piece(src, w, seg, lo, lo + dn)
    requires Pos(result) + d == 32 * seg + lo && r <= Pos(result) && Pos(result) + dn <= 32 * b.Length
    requires Copied(src, dst, b[..], d, r, Pos(result))
    modifies b
    ensures res == if result.ctz + dn < 32 then BitIter(result.seg, result.ctz + dn)
            else BitIter(result.seg + 1, result.ctz + dn - 32)
    ensures Copied(src, dst, b[..], d, r, Pos(res))
  {
    hide Copied, Bit, Piece, Advance;
    var clzR := BITS - result.ctz;
    var ddn := if dn < clzR then dn else clzR;
    PutFirst(b, result, w, lo, dn, ddn, src, dst, d, r, seg);
    AdvanceWithin(result, ddn);
    res := Advance(result, ddn);
    var left := dn - ddn;
    if left > 0 {
      PutLow(b, res.seg, w, lo + ddn, left, src, dst, d, r, seg, lo);
      res := BitIter(res.seg, left);
    }
  }

  /** The first, partial source word of `__copy_unaligned`. */
  method CopyHead(a: array<Word>, first: BitIter, n: nat, b: array<Word>, result: BitIter)
    returns (res: BitIter, left: nat)
    requires 0 < first.ctz < 32 && result.ctz < 32 && n > 0
    requires Pos(first) + n <= 32 * a.Length && Pos(result) + n <= 32 * b.Length
    requires a == b ==> Pos(result) <= Pos(first)
    modifies b
    ensures left == if n < 32 - first.ctz then 0 else n - (32 - first.ctz)
    ensures res.ctz < 32 && Pos(res) == Pos(result) + n - left
    ensures left > 0 ==> (first.ctz != result.ctz ==> res.ctz > 0) && 32 * (first.seg + 1) == Pos(first) + n - left
    ensures Copied(old(a[..]), old(b[..]), b[..], Pos(first) - Pos(result), Pos(result), Pos(res))
    ensures Reading(old(a[..]), old(b[..]), b[..], a[..], a == b)
  {
    hide Copied, Bit, Piece, Holds, IsMask, Ones, Not, And, Or, Shl, Shr, Pos;
    PosDef(first);
    ghost var src, dst, r := a[..], b[..], Pos(result);
    ghost var d: int := Pos(first) - r;
    FirstCopied(src, dst, a == b, d, r);
    var clzF := BITS - first.ctz;
    var dn := if clzF < n then clzF else n;
    left := n - dn;
    var m := And(Shl(Ones(), first.ctz), Shr(Ones(), clzF - dn));
    MaskBits(first.ctz, first.ctz + dn);
    Fetched(src, dst, dst, src, a == b, d, r, r, first.seg, first.ctz, first.ctz + dn);
    MaskedPiece(src, a[first.seg], m, first.seg, first.ctz, first.ctz + dn);
    res := PutPiece(b, result, And(a[first.seg], m), first.ctz, dn, src, dst, d, r, first.seg);
    HeadOffsets(first, result, dn, res);
  }

  /** Ranges with different bit offsets never become aligned. */
  lemma HeadOffsets(first: BitIter, result: BitIter, dn: nat, res: BitIter)
    requires 0 < first.ctz < 32 && result.ctz < 32 && dn <= 32 - first.ctz
    requires res == if result.ctz + dn < 32 then BitIter(result.seg, result.ctz + dn)
             else BitIter(result.seg + 1, result.ctz + dn - 32)
    ensures res.ctz < 32 && Pos(res) == Pos(result) + dn
    ensures dn == 32 - first.ctz ==> 32 * (first.seg + 1) == Pos(first) + dn
    ensures dn == 32 - first.ctz && first.ctz != result.ctz ==> res.ctz > 0
  {}

  /** The last, partial source word of `__copy_unaligned`. */
  method CopyTail(a: array<Word>, seg: nat, n: nat, b: array<Word>, result: BitIter,
                  ghost src: seq<Word>, ghost dst: seq<Word>, ghost d: int, ghost r: nat)
    returns (res: BitIter)
    requires d == 32 * seg - Pos(result) && 0 < result.ctz < 32 && 0 < n < 32 && 32 * seg + n <= 32 * a.Length
    requires Pos(result) + n <= 32 * b.Length
    requires Reading(src, dst, b[..], a[..], a == b) && (a == b ==> Pos(result) <= 32 * seg)
    requires r <= Pos(result) && Copied(src, dst, b[..], d, r, Pos(result))
    modifies b
    ensures res.ctz < 32 && Pos(res) == Pos(result) + n
    ensures Copied(src, dst, b[..], d, r, Pos(res))
  {
    hide Copied, Bit, Piece, Holds, IsMask, Ones, Not, And, Or, Shl, Shr;
    var m := Shr(Ones(), BITS - n);
    MaskBits(0, n);
    Fetched(src, dst, b[..], a[..], a == b, d, r, Pos(result), seg, 0, n);
    MaskedPiece(src, a[seg], m, seg, 0, n);
    res := PutPiece(b, result, And(a[seg], m), 0, n, src, dst, d, r, seg);
  }

  /** The whole source words in the middle of `__copy_unaligned`, each split over two destination words. */
  method CopyBody(a: array<Word>, start: nat, n: nat, b: array<Word>, result: BitIter,
                  ghost src: seq<Word>, ghost dst: seq<Word>, ghost d: int, ghost r: nat)
    returns (seg: nat, left: nat, res: BitIter)
    requires d == 32 * start - Pos(result) && 0 < result.ctz < 32 && 32 * start + n <= 32 * a.Length
    requires Pos(result) + n <= 32 * b.Length
    requires Reading(src, dst, b[..], a[..], a == b) && (a == b ==> Pos(result) <= 32 * start)
    requires r <= Pos(result) && Copied(src, dst, b[..], d, r, Pos(result))
    modifies b
    ensures left < 32 && 32 * seg == 32 * start + n - left
    ensures res.ctz == result.ctz && Pos(res) == Pos(result) + n - left
    ensures Copied(src, dst, b[..], d, r, Pos(res)) && Reading(src, dst, b[..], a[..], a == b)
  {
    hide Copied, Bit, Holds, Piece, Ready, IsMask, Ones, Not, And, Or, Shl, Shr;
    seg, left, res := start, n, result;
    var clzR := BITS - res.ctz;
    var m := Shl(Ones(), res.ctz);
    MaskBits(res.ctz, 32);
    MaskNot(m, res.ctz);
    while left >= BITS
      invariant 0 <= left <= n && 32 * seg == 32 * start + n - left
      invariant res.ctz == result.ctz && Pos(res) == Pos(result) + n - left
      invariant Copied(src, dst, b[..], d, r, Pos(res)) && Reading(src, dst, b[..], a[..], a == b)
    {
      Fetched(src, dst, b[..], a[..], a == b, d, r, Pos(res), seg, 0, 32);
      var w := a[seg];
      WholePiece(src, w, seg);
      ShlPiece(src, w, seg, 0, 32, res.ctz, res.seg, d, res.ctz, 32);
      Put(b, res.seg, m, Shl(w, res.ctz), src, dst, d, r, Pos(res), res.ctz, 32);
      res := BitIter(res.seg + 1, res.ctz);
      ShrPiece(src, w, seg, 0, 32, clzR, res.seg, d, 0, res.ctz);
      Put(b, res.seg, Not(m), Shr(w, clzR), src, dst, d, r, 32 * res.seg, 0, res.ctz);
      left := left - BITS;
      seg := seg + 1;
    }
  }

  /** `__copy_unaligned` */
  method CopyUnaligned(a: array<Word>, first: BitIter, last: BitIter, b: array<Word>, result: BitIter)
    returns (res: BitIter)
    requires first.ctz < 32 && result.ctz < 32 && first.ctz != result.ctz
    requires Pos(first) <= Pos(last) <= 32 * a.Length && Pos(result) + Pos(last) - Pos(first) <= 32 * b.Length
    requires a == b ==> Pos(result) <= Pos(first)
    modifies b
    ensures res.ctz < 32 && Pos(res) == Pos(result) + Pos(last) - Pos(first)
    ensures Copied(old(a[..]), old(b[..]), b[..], Pos(first) - Pos(result), Pos(result), Pos(res))
  {
    hide Copied, Bit, Reading, Pos;
    WordStart(first);
    ghost var src, dst, r := a[..], b[..], Pos(result);
    ghost var d: int := Pos(first) - r;
    FirstCopied(src, dst, a == b, d, r);
    var n: nat := Pos(last) - Pos(first);
    res := result;
    var seg := first.seg;
    if n > 0 {
      if first.ctz != 0 {
        res, n := CopyHead(a, first, n, b, result);
        seg := seg + 1;
      }
      if n > 0 {
        seg, n, res := CopyBody(a, seg, n, b, res, src, dst, d, r);
      }
      if n > 0 {
        res := CopyTail(a, seg, n, b, res, src, dst, d, r);
      }
    }
  }

  lemma CopiedAt(src: seq<Word>, dst: seq<Word>, dst': seq<Word>, d: int, lo: int, hi: int, x: int)
    requires Copied(src, dst, dst', d, lo, hi)
    ensures |dst| == |dst'| && 0 <= lo <= hi <= 32 * |dst|
    ensures Bit(dst', x) == if lo <= x < hi then Bit(src, x + d) else Bit(dst, x)
  {}

  /** Whole words, as `memmove` copies them, in front of or behind what is copied already. */
  lemma CopyWords(src: seq<Word>, dst: seq<Word>, dst1: seq<Word>, dst2: seq<Word>, cur: seq<Word>, same: bool,
                  d: int, lo: int, hi: int, seg: nat, to: nat, nw: nat)
    requires Copied(src, dst, dst1, d, lo, hi) && Reading(src, dst, dst1, cur, same)
    requires 32 * seg - 32 * to == d && seg + nw <= |cur| && to + nw <= |dst1| == |dst2|
    requires 32 * to == hi || 32 * (to + nw) == lo
    requires same ==> hi <= 32 * seg || 32 * (seg + nw) <= lo
    requires forall i | 0 <= i < |dst1| :: dst2[i] == if to <= i < to + nw then cur[seg + i - to] else dst1[i]
    ensures 32 * to == hi ==> Copied(src, dst, dst2, d, lo, 32 * (to + nw))
    ensures 32 * (to + nw) == lo ==> Copied(src, dst, dst2, d, 32 * to, hi)
  {
    hide Bit, Copied;
    var lo' := if 32 * to == hi then lo else 32 * to;
    var hi' := if 32 * to == hi then 32 * (to + nw) else hi;
    CopiedAt(src, dst, dst1, d, lo, hi, 0);
    forall x: int
      ensures Bit(dst2, x) == if lo' <= x < hi' then Bit(src, x + d) else Bit(dst, x)
    {
      MovedBit(dst1, dst2, cur, seg, to, nw, x);
      CopiedAt(src, dst, dst1, d, lo, hi, x);
      CopiedAt(src, dst, dst1, d, lo, hi, x + d);
    }
    IsCopied(src, dst, dst2, d, lo', hi');
  }

  lemma IsCopied(src: seq<Word>, dst: seq<Word>, dst': seq<Word>, d: int, lo: int, hi: int)
    requires |dst'| == |dst| && 0 <= lo <= hi <= 32 * |dst|
    requires forall p: int {:trigger Bit(dst', p)} :: Bit(dst', p) == if lo <= p < hi then Bit(src, p + d)
             else Bit(dst, p)
    ensures Copied(src, dst, dst', d, lo, hi)
  {}

  lemma MovedBit(dst1: seq<Word>, dst2: seq<Word>, cur: seq<Word>, seg: nat, to: nat, nw: nat, x: int)
    requires seg + nw <= |cur| && to + nw <= |dst1| == |dst2|
    requires forall i | 0 <= i < |dst1| :: dst2[i] == if to <= i < to + nw then cur[seg + i - to] else dst1[i]
    ensures Bit(dst2, x) == if 32 * to <= x < 32 * (to + nw) then Bit(cur, x + 32 * seg - 32 * to) else Bit(dst1, x)
  {
    if 0 <= x < 32 * |dst1| {
      var i, j := x / 32, x % 32;
      WordBit(dst2, i, j);
      WordBit(dst1, i, j);
      if to <= i < to + nw { WordBit(cur, seg + i - to, j); }
    }
  }

  lemma PieceReady(src: seq<Word>, w: Word, seg: nat, to: nat, d: int, p: nat, q: nat)
    requires Piece(src, w, seg, p, q) && 32 * seg - 32 * to == d
    ensures Ready(src, w, to, d, p, q)
  {
    forall j | 0 <= j < 32 ensures w[j] == (p <= j < q && Bit(src, 32 * to + j + d)) {
      assert 32 * to + j + d == 32 * seg + j;
    }
  }

  /** One masked word between equal bit offsets. */
  method PutAligned(a: array<Word>, seg: nat, b: array<Word>, to: nat, m: Word, ghost src: seq<Word>,
                    ghost dst: seq<Word>,
                    ghost d: int, ghost lo: int, ghost hi: int, ghost p: nat, ghost q: nat)
    requires seg < a.Length && to < b.Length && p <= q <= 32 && IsMask(m, p, q) && 32 * seg - 32 * to == d
    requires Copied(src, dst, b[..], d, lo, hi) && Reading(src, dst, b[..], a[..], a == b)
    requires a == b ==> hi <= 32 * seg + p || 32 * seg + q <= lo
    requires 32 * to + p == hi || 32 * to + q == lo
    modifies b
    ensures 32 * to + p == hi ==> Copied(src, dst, b[..], d, lo, 32 * to + q)
    ensures 32 * to + q == lo ==> Copied(src, dst, b[..], d, 32 * to + p, hi)
    ensures Reading(src, dst, b[..], a[..], a == b)
  {
    hide Copied, Bit, Holds, Piece, Ready, IsMask, Ones, Not, And, Or, Shl, Shr;
    Fetched(src, dst, b[..], a[..], a == b, d, lo, hi, seg, p, q);
    MaskedPiece(src, a[seg], m, seg, p, q);
    var w := And(a[seg], m);
    PieceReady(src, w, seg, to, d, p, q);
    Put(b, to, m, w, src, dst, d, lo, hi, p, q);
  }

  /** The first, partial word of `__copy_aligned`. */
  method AlignedHead(a: array<Word>, first: BitIter, n: nat, b: array<Word>, result: BitIter)
    returns (res: BitIter, left: nat)
    requires 0 < first.ctz == result.ctz < 32 && n > 0
    requires Pos(first) + n <= 32 * a.Length && Pos(result) + n <= 32 * b.Length
    requires a == b ==> Pos(result) <= Pos(first)
    modifies b
    ensures left == if n < 32 - first.ctz then 0 else n - (32 - first.ctz)
    ensures res.ctz < 32 && Pos(res) == Pos(result) + n - left && (left > 0 ==> res.ctz == 0)
    ensures left > 0 ==> Pos(res) == 32 * res.seg && 32 * (first.seg + 1) == Pos(first) + n - left
    ensures Copied(old(a[..]), old(b[..]), b[..], Pos(first) - Pos(result), Pos(result), Pos(res))
    ensures Reading(old(a[..]), old(b[..]), b[..], a[..], a == b)
  {
    hide Copied, Bit, Holds, IsMask, Advance, Ones, Not, And, Or, Shl, Shr, Pos;
    PosDef(first);
    PosDef(result);
    ghost var src, dst, r := a[..], b[..], Pos(result);
    ghost var d: int := Pos(first) - r;
    FirstCopied(src, dst, a == b, d, r);
    var clz := BITS - first.ctz;
    var dn := if clz < n then clz else n;
    left := n - dn;
    var m := And(Shl(Ones(), first.ctz), Shr(Ones(), clz - dn));
    MaskBits(first.ctz, first.ctz + dn);
    PutAligned(a, first.seg, b, result.seg, m, src, dst, d, r, r, first.ctz, first.ctz + dn);
    AdvanceWithin(result, dn);
    res := Advance(result, dn);
    PosDef(res);
  }

  /** `__copy_aligned` */
  method CopyAligned(a: array<Word>, first: BitIter, last: BitIter, b: array<Word>, result: BitIter)
    returns (res: BitIter)
    requires first.ctz == result.ctz < 32
    requires Pos(first) <= Pos(last) <= 32 * a.Length && Pos(result) + Pos(last) - Pos(first) <= 32 * b.Length
    requires a == b ==> Pos(result) <= Pos(first)
    modifies b
    ensures res.ctz < 32 && Pos(res) == Pos(result) + Pos(last) - Pos(first)
    ensures Copied(old(a[..]), old(b[..]), b[..], Pos(first) - Pos(result), Pos(result), Pos(res))
  {
    hide Copied, Bit, Reading, Pos;
    WordStart(first);
    WordStart(result);
    ghost var src, dst, r := a[..], b[..], Pos(result);
    ghost var d: int := Pos(first) - r;
    FirstCopied(src, dst, a == b, d, r);
    var n: nat := Pos(last) - Pos(first);
    res := result;
    var seg := first.seg;
    if n > 0 {
      if first.ctz != 0 {
        res, n := AlignedHead(a, first, n, b, result);
        seg := seg + 1;
      }
      if n > 0 {
        assert res.ctz == 0 && Pos(res) == 32 * res.seg;
        res := AlignedRest(a, seg, n, b, res.seg, src, dst, d, r);
      }
    }
  }

  /** The middle words of `__copy_aligned`, moved at once, and the last partial one. */
  method AlignedRest(a: array<Word>, start: nat, n: nat, b: array<Word>, to: nat,
                     ghost src: seq<Word>, ghost dst: seq<Word>, ghost d: int, ghost r: nat)
    returns (res: BitIter)
    requires d == 32 * start - 32 * to && 32 * start + n <= 32 * a.Length && 32 * to + n <= 32 * b.Length
    requires a == b ==> to <= start
    requires Reading(src, dst, b[..], a[..], a == b)
    requires r <= 32 * to && Copied(src, dst, b[..], d, r, 32 * to)
    modifies b
    ensures res.ctz < 32 && Pos(res) == 32 * to + n
    ensures Copied(src, dst, b[..], d, r, Pos(res))
  {
    hide Copied, Bit, Holds, IsMask, Ones, Not, And, Or, Shl, Shr;
    var nw := n / BITS;
    ghost var dst1, cur := b[..], a[..];
    forall i | 0 <= i < nw { b[to + i] := a[start + i]; }
    CopyWords(src, dst, dst1, b[..], cur, a == b, d, r, 32 * to, start, to, nw);
    var left := n - nw * BITS;
    res := BitIter(to + nw, 0);
    if left > 0 {
      var m := Shr(Ones(), BITS - left);
      MaskBits(0, left);
      PutAligned(a, start + nw, b, res.seg, m, src, dst, d, r, 32 * (to + nw), 0, left);
      res := BitIter(res.seg, left);
    }
  }

  /** `copy`: the bits first..last-1 go to `result` onwards; towards the front within one array. */
  method Copy(a: array<Word>, first: BitIter, last: BitIter, b: array<Word>, result: BitIter)
    returns (res: BitIter)
    requires first.ctz < 32 && result.ctz < 32
    requires Pos(first) <= Pos(last) <= 32 * a.Length && Pos(result) + Pos(last) - Pos(first) <= 32 * b.Length
    requires a == b ==> Pos(result) <= Pos(first)
    modifies b
    ensures res.ctz < 32 && Pos(res) == Pos(result) + Pos(last) - Pos(first)
    ensures Copied(old(a[..]), old(b[..]), b[..], Pos(first) - Pos(result), Pos(result), Pos(res))
  {
    if first.ctz == result.ctz {
      res := CopyAligned(a, first, last, b, result);
    } else {
      res := CopyUnaligned(a, first, last, b, result);
    }
  }
}
