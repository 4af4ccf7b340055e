/** `copy_backward` on bit ranges: word-wise from the end, also towards the back within one array. */
module BitCopyBackward {
  import opened BitWords
  import opened BitCopy

  /** `-n & (__bits_per_word - 1)` */
  function Negated(n: nat): nat { (BITS - n % BITS) % BITS }

  function Retreat(it: BitIter, n: nat): BitIter {
    BitIter(it.seg, (Negated(n) + it.ctz) % BITS)
  }

  lemma RetreatWithin(it: BitIter, n: nat)
    requires 0 < n <= it.ctz < 32
    ensures Retreat(it, n) == BitIter(it.seg, it.ctz - n)
  {}

  lemma NegatedWithin(n: nat)
    requires 0 < n < 32
    ensures Negated(n) == 32 - n
  {}

  /** The part of a piece that fits in front of `result` within its word. */
  method PutLast(b: array<Word>, result: BitIter, w: Word, hi: nat, dn: nat, ddn: nat,
                 ghost src: seq<Word>, ghost dst: seq<Word>, ghost d: int, ghost e: nat, ghost seg: nat)
    requires 0 < result.ctz < 32 && 0 < dn <= hi <= 32 && result.seg < b.Length && Piece(src, w, seg, hi - dn, hi)
    requires ddn == (if dn < result.ctz then dn else result.ctz)
    requires Pos(result) + d == 32 * seg + hi && Pos(result) <= e && Copied(src, dst, b[..], d, Pos(result), e)
    modifies b
    ensures Copied(src, dst, b[..], d, Pos(result) - ddn, e)
  {
    hide Copied, Bit, Piece, Ready, IsMask, Ones, Not, And, Or, Shl, Shr;
    var m := And(Shl(Ones(), result.ctz - ddn), Shr(Ones(), BITS - result.ctz));
    MaskBits(result.ctz - ddn, result.ctz);
    var x;
    if result.ctz > hi {
      x := Shl(w, result.ctz - hi);
      ShlPiece(src, w, seg, hi - dn, hi, result.ctz - hi, result.seg, d, result.ctz - ddn, result.ctz);
    } else {
      x := Shr(w, hi - result.ctz);
      ShrPiece(src, w, seg, hi - dn, hi, hi - result.ctz, result.seg, d, result.ctz - ddn, result.ctz);
    }
    Put(b, result.seg, m, x, src, dst, d, Pos(result), e, result.ctz - ddn, result.ctz);
  }

  /** What is left of a piece goes to the high bits of the destination word in front. */
  method PutHigh(b: array<Word>, to: nat, w: Word, lo: nat, n: nat, ghost src: seq<Word>, ghost dst: seq<Word>,
                 ghost d: int, ghost e: nat, ghost seg: nat, ghost hi: nat)
    requires to < b.Length && 0 < n < 32 && lo + n <= hi <= 32 && Piece(src, w, seg, lo, hi)
    requires 32 * to + 32 + d == 32 * seg + lo + n && 32 * to + 32 <= e && Copied(src, dst, b[..], d, 32 * to + 32, e)
    modifies b
    ensures Copied(src, dst, b[..], d, 32 * to + 32 - n, e)
  {
    hide Copied, Bit, Piece, Ready, IsMask, Ones, Not, And, Or, Shl, Shr;
    var ctz := Negated(n);
    NegatedWithin(n);
    var m := Shl(Ones(), ctz);
    MaskBits(ctz, 32);
    ShlPiece(src, w, seg, lo, hi, ctz - lo, to, d, ctz, 32);
    Put(b, to, m, Shl(w, ctz - lo), src, dst, d, 32 * to + 32, e, ctz, 32);
  }

  /** Puts the `dn` bits of a piece in front of `result`, over one or two destination words. */
  method PutPieceBack(b: array<Word>, result: BitIter, w: Word, hi: nat, dn: nat,
                      ghost src: seq<Word>, ghost dst: seq<Word>, ghost d: int, ghost e: nat, ghost seg: nat)
    returns (res: BitIter)
    requires result.ctz < 32 && 0 < dn <= hi <= 32 && Piece(src, w, seg, hi - dn, hi)
    requires hi == result.ctz ==> result.ctz > 0
    requires Pos(result) + d == 32 * seg + hi && dn <= Pos(result) <= e && Pos(result) <= 32 * b.Length
    requires dn < 32 || result.ctz > 0
    requires Copied(src, dst, b[..], d, Pos(result), e)
    modifies b
    ensures res == if dn <= result.ctz then BitIter(result.seg, result.ctz - dn)
            else BitIter(result.seg - 1, result.ctz + 32 - dn)
    ensures Copied(src, dst, b[..], d, Pos(res), e)
  {
    hide Copied, Bit, Piece, Retreat, Negated;
    var ddn := if dn < result.ctz then dn else result.ctz;
    res := result;
    if ddn > 0 {
      PutLast(b, result, w, hi, dn, ddn, src, dst, d, e, seg);
      RetreatWithin(result, ddn);
      res := Retreat(result, ddn);
    }
    var left := dn - ddn;
    if left > 0 {
      PutHigh(b, res.seg - 1, w, hi - dn, left, src, dst, d, e, seg, hi);
      NegatedWithin(left);
      res := BitIter(res.seg - 1, Negated(left));
    }
  }

  /** The last, partial source word of `__copy_backward_unaligned`, which comes first. */
  method BackHead(a: array<Word>, last: BitIter, n: nat, b: array<Word>, result: BitIter)
    returns (res: BitIter, left: nat)
    requires 0 < last.ctz < 32 && result.ctz < 32 && 0 < n <= Pos(last) <= 32 * a.Length
    requires n <= Pos(result) <= 32 * b.Length && (a == b ==> Pos(last) <= Pos(result))
    modifies b
    ensures left == if n < last.ctz then 0 else n - last.ctz
    ensures res.ctz < 32 && Pos(res) == Pos(result) - (n - left)
    ensures left > 0 ==> (last.ctz != result.ctz ==> res.ctz > 0) && 32 * last.seg == Pos(last) - (n - left)
    ensures Copied(old(a[..]), old(b[..]), b[..], Pos(last) - Pos(result), Pos(res), Pos(result))
    ensures Reading(old(a[..]), old(b[..]), b[..], a[..], a == b)
  {
    hide Copied, Bit, Piece, Holds, IsMask, Ones, Not, And, Or, Shl, Shr, Pos;
    PosDef(last);
    ghost var src, dst, e := a[..], b[..], Pos(result);
    ghost var d: int := Pos(last) - e;
    FirstCopied(src, dst, a == b, d, e);
    var dn := if last.ctz < n then last.ctz else n;
    left := n - dn;
    var m := And(Shl(Ones(), last.ctz - dn), Shr(Ones(), BITS - last.ctz));
    MaskBits(last.ctz - dn, last.ctz);
    Fetched(src, dst, dst, src, a == b, d, e, e, last.seg, last.ctz - dn, last.ctz);
    MaskedPiece(src, a[last.seg], m, last.seg, last.ctz - dn, last.ctz);
    res := PutPieceBack(b, result, And(a[last.seg], m), last.ctz, dn, src, dst, d, e, last.seg);
    BackOffsets(result, dn, res);
  }

  lemma BackOffsets(result: BitIter, dn: nat, res: BitIter)
    requires result.ctz < 32 && dn <= 32 && dn <= Pos(result) && (dn < 32 || result.ctz > 0)
    requires res == if dn <= result.ctz then BitIter(result.seg, result.ctz - dn)
             else BitIter(result.seg - 1, result.ctz + 32 - dn)
    ensures res.ctz < 32 && Pos(res) == Pos(result) - dn && (dn != result.ctz ==> res.ctz > 0)
  {}

  /** The whole source words of `__copy_backward_unaligned`, from the last one on. */
  method BackBody(a: array<Word>, end: nat, n: nat, b: array<Word>, result: BitIter,
                  ghost src: seq<Word>, ghost dst: seq<Word>, ghost d: int, ghost e: nat)
    returns (seg: nat, left: nat, res: BitIter)
    requires d == 32 * end - Pos(result) && 0 < result.ctz < 32 && n <= 32 * end <= 32 * a.Length
    requires n <= Pos(result) <= e && Pos(result) <= 32 * b.Length
    requires Reading(src, dst, b[..], a[..], a == b) && (a == b ==> 32 * end <= Pos(result))
    requires Copied(src, dst, b[..], d, Pos(result), e)
    modifies b
    ensures left < 32 && left <= n && 32 * seg == 32 * end - (n - left)
    ensures res.ctz == result.ctz && Pos(res) == Pos(result) - (n - left)
    ensures Copied(src, dst, b[..], d, Pos(res), e) && Reading(src, dst, b[..], a[..], a == b)
  {
    hide Copied, Bit, Holds, Piece, Ready, IsMask, Ones, Not, And, Or, Shl, Shr;
    seg, left, res := end, n, result;
    var clzR := BITS - res.ctz;
    var m := Shr(Ones(), clzR);
    MaskBits(0, res.ctz);
    MaskNotLow(m, res.ctz);
    while left >= BITS
      invariant 0 <= left <= n && 32 * seg == 32 * end - (n - left)
      invariant res.ctz == result.ctz && Pos(res) == Pos(result) - (n - left)
      invariant Copied(src, dst, b[..], d, Pos(res), e) && Reading(src, dst, b[..], a[..], a == b)
    {
      seg := seg - 1;
      Fetched(src, dst, b[..], a[..], a == b, d, Pos(res), e, seg, 0, 32);
      var w := a[seg];
      WholePiece(src, w, seg);
      ShrPiece(src, w, seg, 0, 32, clzR, res.seg, d, 0, res.ctz);
      Put(b, res.seg, m, Shr(w, clzR), src, dst, d, Pos(res), e, 0, res.ctz);
      res := BitIter(res.seg - 1, res.ctz);
      ShlPiece(src, w, seg, 0, 32, res.ctz, res.seg, d, res.ctz, 32);
      Put(b, res.seg, Not(m), Shl(w, res.ctz), src, dst, d, 32 * res.seg + 32, e, res.ctz, 32);
      left := left - BITS;
    }
  }

  lemma MaskNotLow(m: Word, hi: nat)
    requires hi <= 32 && IsMask(m, 0, hi)
    ensures IsMask(Not(m), hi, 32)
  {}

  /** The first, partial source word of `__copy_backward_unaligned`, which comes last. */
  method BackTail(a: array<Word>, end: nat, n: nat, b: array<Word>, result: BitIter,
                  ghost src: seq<Word>, ghost dst: seq<Word>, ghost d: int, ghost e: nat)
    returns (res: BitIter)
    requires d == 32 * end - Pos(result) && 0 < result.ctz < 32 && 0 < n < 32 && n <= 32 * end <= 32 * a.Length
    requires n <= Pos(result) <= e && Pos(result) <= 32 * b.Length
    requires Reading(src, dst, b[..], a[..], a == b) && (a == b ==> 32 * end <= Pos(result))
    requires Copied(src, dst, b[..], d, Pos(result), e)
    modifies b
    ensures res.ctz < 32 && Pos(res) == Pos(result) - n
    ensures Copied(src, dst, b[..], d, Pos(res), e)
  {
    hide Copied, Bit, Piece, Holds, IsMask, Ones, Not, And, Or, Shl, Shr;
    var seg := end - 1;
    var m := Shl(Ones(), BITS - n);
    MaskBits(BITS - n, 32);
    Fetched(src, dst, b[..], a[..], a == b, d, Pos(result), e, seg, 32 - n, 32);
    MaskedPiece(src, a[seg], m, seg, 32 - n, 32);
    res := PutPieceBack(b, result, And(a[seg], m), 32, n, src, dst, d, e, seg);
    BackOffsets(result, n, res);
  }

  /** `__copy_backward_unaligned` */
  method BackUnaligned(a: array<Word>, first: BitIter, last: BitIter, b: array<Word>, result: BitIter)
    returns (res: BitIter)
    requires last.ctz < 32 && result.ctz < 32 && last.ctz != result.ctz
    requires Pos(first) <= Pos(last) <= 32 * a.Length && Pos(last) - Pos(first) <= Pos(result) <= 32 * b.Length
    requires a == b ==> Pos(last) <= Pos(result)
    modifies b
    ensures res.ctz < 32 && Pos(res) == Pos(result) - (Pos(last) - Pos(first))
    ensures Copied(old(a[..]), old(b[..]), b[..], Pos(last) - Pos(result), Pos(res), Pos(result))
  {
    hide Copied, Bit, Reading, Pos;
    WordStart(last);
    ghost var src, dst, e := a[..], b[..], Pos(result);
    ghost var d: int := Pos(last) - e;
    FirstCopied(src, dst, a == b, d, e);
    var n: nat := Pos(last) - Pos(first);
    res := result;
    var seg := last.seg;
    if n > 0 {
      if last.ctz != 0 {
        res, n := BackHead(a, last, n, b, result);
      }
      if n > 0 {
        seg, n, res := BackBody(a, seg, n, b, res, src, dst, d, e);
      }
      if n > 0 {
        res := BackTail(a, seg, n, b, res, src, dst, d, e);
      }
    }
  }

  /** The last, partial word of `__copy_backward_aligned`, which comes first. */
  method BackAlignedHead(a: array<Word>, last: BitIter, n: nat, b: array<Word>, result: BitIter)
    returns (res: BitIter, left: nat)
    requires 0 < last.ctz == result.ctz < 32 && 0 < n <= Pos(last) <= 32 * a.Length
    requires n <= Pos(result) <= 32 * b.Length && (a == b ==> Pos(last) <= Pos(result))
    modifies b
    ensures left == if n < last.ctz then 0 else n - last.ctz
    ensures res.ctz < 32 && Pos(res) == Pos(result) - (n - left) && (left > 0 ==> res.ctz == 0)
    ensures left > 0 ==> Pos(res) == 32 * res.seg && 32 * last.seg == Pos(last) - (n - left)
    ensures Copied(old(a[..]), old(b[..]), b[..], Pos(last) - Pos(result), Pos(res), Pos(result))
    ensures Reading(old(a[..]), old(b[..]), b[..], a[..], a == b)
  {
    hide Copied, Bit, Holds, IsMask, Retreat, Negated, Ones, Not, And, Or, Shl, Shr, Pos;
    PosDef(last);
    PosDef(result);
    ghost var src, dst, e := a[..], b[..], Pos(result);
    ghost var d: int := Pos(last) - e;
    FirstCopied(src, dst, a == b, d, e);
    var dn := if last.ctz < n then last.ctz else n;
    left := n - dn;
    var m := And(Shl(Ones(), last.ctz - dn), Shr(Ones(), BITS - last.ctz));
    MaskBits(last.ctz - dn, last.ctz);
    PutAligned(a, last.seg, b, result.seg, m, src, dst, d, e, e, last.ctz - dn, last.ctz);
    RetreatWithin(result, dn);
    res := Retreat(result, dn);
    PosDef(res);
  }

  /** The middle words of `__copy_backward_aligned`, moved at once, and the first partial one. */
  method BackAlignedRest(a: array<Word>, end: nat, n: nat, b: array<Word>, to: nat,
                         ghost src: seq<Word>, ghost dst: seq<Word>, ghost d: int, ghost e: nat)
    returns (res: BitIter)
    requires d == 32 * end - 32 * to && n <= 32 * end && n <= 32 * to && end <= a.Length && to <= b.Length
    requires a == b ==> end <= to
    requires Reading(src, dst, b[..], a[..], a == b)
    requires 32 * to <= e && Copied(src, dst, b[..], d, 32 * to, e)
    modifies b
    ensures res.ctz < 32 && Pos(res) == 32 * to - n
    ensures Copied(src, dst, b[..], d, Pos(res), e)
  {
    hide Copied, Bit, IsMask, Negated, Ones, Not, And, Or, Shl, Shr;
    var nw := n / BITS;
    var to', end' := to - nw, end - nw;
    ghost var dst1, cur := b[..], a[..];
    forall i | 0 <= i < nw { b[to' + i] := a[end' + i]; }
    CopyWords(src, dst, dst1, b[..], cur, a == b, d, 32 * to, e, end', to', nw);
    var left := n - nw * BITS;
    res := BitIter(to', 0);
    if left > 0 {
      var m := Shl(Ones(), BITS - left);
      MaskBits(BITS - left, 32);
      PutAligned(a, end' - 1, b, to' - 1, m, src, dst, d, 32 * to', e, BITS - left, 32);
      NegatedWithin(left);
      res := BitIter(to' - 1, Negated(left));
    }
  }

  /** `__copy_backward_aligned` */
  method BackAligned(a: array<Word>, first: BitIter, last: BitIter, b: array<Word>, result: BitIter)
    returns (res: BitIter)
    requires last.ctz == result.ctz < 32
    requires Pos(first) <= Pos(last) <= 32 * a.Length && Pos(last) - Pos(first) <= Pos(result) <= 32 * b.Length
    requires a == b ==> Pos(last) <= Pos(result)
    modifies b
    ensures res.ctz < 32 && Pos(res) == Pos(result) - (Pos(last) - Pos(first))
    ensures Copied(old(a[..]), old(b[..]), b[..], Pos(last) - Pos(result), Pos(res), Pos(result))
  {
    hide Copied, Bit, Reading, Pos;
    WordStart(last);
    WordStart(result);
    ghost var src, dst, e := a[..], b[..], Pos(result);
    ghost var d: int := Pos(last) - e;
    FirstCopied(src, dst, a == b, d, e);
    var n: nat := Pos(last) - Pos(first);
    res := result;
    if n > 0 {
      if last.ctz != 0 {
        res, n := BackAlignedHead(a, last, n, b, result);
      }
      if n > 0 {
        assert Pos(res) == 32 * res.seg;
        res := BackAlignedRest(a, last.seg, n, b, res.seg, src, dst, d, e);
      }
    }
  }

  /** `copy_backward`: the bits first..last-1 go in front of `result`; towards the back within one array. */
  method CopyBackward(a: array<Word>, first: BitIter, last: BitIter, b: array<Word>, result: BitIter)
    returns (res: BitIter)
    requires last.ctz < 32 && result.ctz < 32
    requires Pos(first) <= Pos(last) <= 32 * a.Length && Pos(last) - Pos(first) <= Pos(result) <= 32 * b.Length
    requires a == b ==> Pos(last) <= Pos(result)
    modifies b
    ensures res.ctz < 32 && Pos(res) == Pos(result) - (Pos(last) - Pos(first))
    ensures Copied(old(a[..]), old(b[..]), b[..], Pos(last) - Pos(result), Pos(res), Pos(result))
  {
    if last.ctz == result.ctz {
      res := BackAligned(a, first, last, b, result);
    } else {
      res := BackUnaligned(a, first, last, b, result);
    }
  }
}
