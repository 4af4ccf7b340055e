/** `swap_ranges` on bit ranges of two arrays or disjoint ranges of one, with or without equal bit offsets. */
module BitSwap {
  import opened BitWords
  import opened BitCopy

  /**
    The first `k` bits of the ranges at `f` and `r` are exchanged, the next `e` bits of the range at
    `f` are cleared, and every other bit is that of `src`.
  */
  ghost predicate Swapping(src: seq<Word>, cur: seq<Word>, f: nat, r: nat, k: nat, e: nat) {
    && |cur| == |src| && (f + k + e <= r || r + k <= f)
    && forall p: int {:trigger Bit(cur, p)} :: Bit(cur, p) ==
         if f <= p < f + k then Bit(src, p - f + r)
         else if r <= p < r + k then Bit(src, p - r + f)
         else !(f + k <= p < f + k + e) && Bit(src, p)
  }

  /** The outcome of a swap: the `n` bits at `f` and at `r` have changed places. */
  ghost predicate Swapped(src: seq<Word>, cur: seq<Word>, f: nat, r: nat, n: nat) {
    Swapping(src, cur, f, r, n, 0)
  }

  lemma RewrittenBit(ws: seq<Word>, ws': seq<Word>, seg: nat, lo: nat, hi: nat, w: Word, x: int)
    requires Rewritten(ws, ws', seg, lo, hi, w)
    ensures Bit(ws', x) == if 32 * seg + lo <= x < 32 * seg + hi then w[x - 32 * seg] else Bit(ws, x)
  {
    if 32 * seg <= x < 32 * seg + 32 {
      WordBit(ws, seg, x - 32 * seg);
      WordBit(ws', seg, x - 32 * seg);
    }
  }

  lemma SwappingAt(src: seq<Word>, cur: seq<Word>, f: nat, r: nat, k: nat, e: nat, p: int)
    requires Swapping(src, cur, f, r, k, e)
    ensures Bit(cur, p) ==
         if f <= p < f + k then Bit(src, p - f + r)
         else if r <= p < r + k then Bit(src, p - r + f)
         else !(f + k <= p < f + k + e) && Bit(src, p)
  {}

  /** `*seg &= ~m` in the range at `f`. */
  lemma Cleared(src: seq<Word>, cur: seq<Word>, cur': seq<Word>, f: nat, r: nat, k: nat, seg: nat, m: Word, p: nat,
                q: nat)
    requires Swapping(src, cur, f, r, k, 0) && seg < |cur| && p <= q <= 32 && IsMask(m, p, q)
    requires 32 * seg + p == f + k && (f + k + (q - p) <= r || r + k <= f)
    requires cur' == cur[seg := And(cur[seg], Not(m))]
    ensures Swapping(src, cur', f, r, k, q - p)
  {
    hide Bit;
    AndBits(cur[seg], Not(m));
    NotBits(m);
    forall x: int {:trigger Bit(cur', x)}
      ensures Bit(cur', x) == (!(f + k <= x < f + k + (q - p)) && Bit(cur, x))
    {
      RewrittenBit(cur, cur', seg, p, q, cur'[seg], x);
    }
  }

  /** One part of an exchange: into the range at `r` by mask, into the cleared bits at `f` by or. */
  lemma Exchanged(src: seq<Word>, cur: seq<Word>, cur1: seq<Word>, cur2: seq<Word>, f: nat, r: nat, k: nat, e: nat,
                  fseg: nat, flo: nat, rseg: nat, rlo: nat, len: nat, m: Word, x1: Word, x2: Word)
    requires Swapping(src, cur, f, r, k, e) && len <= e && fseg < |cur| && rseg < |cur|
    requires f + k + e <= r || r + k + len <= f
    requires 32 * fseg + flo == f + k && 32 * rseg + rlo == r + k && flo + len <= 32 && rlo + len <= 32
    requires IsMask(m, rlo, rlo + len)
    requires Ready(src, x1, rseg, f - r, rlo, rlo + len) && Ready(src, x2, fseg, r - f, flo, flo + len)
    requires cur1 == cur[rseg := Or(And(cur[rseg], Not(m)), x1)]
    requires cur2 == cur1[fseg := Or(cur1[fseg], x2)]
    ensures Swapping(src, cur2, f, r, k + len, e - len)
  {
    hide Bit;
    PutBits(cur[rseg], m, x1, rlo, rlo + len);
    OrBits(cur1[fseg], x2);
    forall x: int {:trigger Bit(cur1, x)}
      ensures Bit(cur1, x) == if r + k <= x < r + k + len then Bit(src, x - r + f) else Bit(cur, x)
    {
      RewrittenBit(cur, cur1, rseg, rlo, rlo + len, cur1[rseg], x);
    }
    forall x: int {:trigger Bit(cur2, x)}
      ensures Bit(cur2, x) == if f + k <= x < f + k + len then Bit(src, x - f + r) else Bit(cur1, x)
    {
      RewrittenBit(cur1, cur2, fseg, flo, flo + len, cur2[fseg], x);
      if f + k <= x < f + k + len { WordBit(cur1, fseg, x - 32 * fseg); }
    }
  }

  /** A word still holds its old bits where nothing has been exchanged or cleared yet. */
  lemma Untouched(src: seq<Word>, cur: seq<Word>, f: nat, r: nat, k: nat, e: nat, seg: nat, p: nat, q: nat)
    requires Swapping(src, cur, f, r, k, e) && seg < |cur| && p <= q <= 32
    requires (32 * seg + p == r + k && (f + k + e <= r || 32 * seg + q <= f))
          || (32 * seg + p == f + k && e == 0 && (32 * seg + q <= r || r + k <= f))
    ensures Holds(src, cur[seg], seg, p, q)
  {
    hide Bit;
    forall j | 0 <= j < 32 && p <= j < q ensures cur[seg][j] == Bit(src, 32 * seg + j) {
      WordBit(cur, seg, j);
      SwappingAt(src, cur, f, r, k, e, 32 * seg + j);
    }
  }

  /** The piece `w`, taken from the bits wlo..whi-1 of word `fseg`, shifted to its place in word `rseg`. */
  method Forth(w: Word, flo: nat, rlo: nat, ghost len: nat, ghost src: seq<Word>, ghost fseg: nat, ghost wlo: nat,
               ghost whi: nat,
               ghost rseg: nat, ghost d: int)
    returns (x: Word)
    requires Piece(src, w, fseg, wlo, whi) && wlo <= flo < 32 && rlo < 32 && 0 < len && flo + len <= whi <= 32
    requires rlo + len <= 32
    requires (wlo == flo || rlo == 0) && (rlo + len == 32 || flo + len == whi) && (rlo <= flo ==> flo + len == whi)
    requires 32 * rseg + d == 32 * fseg + flo - rlo
    ensures Ready(src, x, rseg, d, rlo, rlo + len)
  {
    hide Piece, Ready, Shl, Shr;
    if rlo > flo {
      x := Shl(w, rlo - flo);
      ShlPiece(src, w, fseg, wlo, whi, rlo - flo, rseg, d, rlo, rlo + len);
    } else {
      x := Shr(w, flo - rlo);
      ShrPiece(src, w, fseg, wlo, whi, flo - rlo, rseg, d, rlo, rlo + len);
    }
  }

  // ---- In two arrays, or twice in one ----

  /** The words of both arrays one behind the other, or of the one array that both are. */
  ghost function Joint(a: array<Word>, b: array<Word>): seq<Word>
    reads a, b
  {
    if a == b then a[..] else a[..] + b[..]
  }

  /** Where the words of the second array begin. */
  ghost function Behind(a: array<Word>, b: array<Word>): nat {
    if a == b then 0 else a.Length
  }

  method SetFirst(a: array<Word>, b: array<Word>, seg: nat, w: Word)
    requires seg < a.Length
    modifies a
    ensures Joint(a, b) == old(Joint(a, b))[seg := w]
    ensures a == b || b[..] == old(b[..])
  {
    a[seg] := w;
  }

  method SetSecond(a: array<Word>, b: array<Word>, seg: nat, w: Word)
    requires seg < b.Length
    modifies b
    ensures Joint(a, b) == old(Joint(a, b))[Behind(a, b) + seg := w]
  {
    b[seg] := w;
  }

  lemma JointWords(a: array<Word>, b: array<Word>)
    ensures |Joint(a, b)| == Behind(a, b) + b.Length && a.Length <= |Joint(a, b)|
    ensures forall i | 0 <= i < a.Length :: Joint(a, b)[i] == a[i]
    ensures forall i | 0 <= i < b.Length :: Joint(a, b)[Behind(a, b) + i] == b[i]
  {}

  /** Exchanges `len` bits whose place at `f` has been cleared; `w` is the piece taken from there. */
  method ExchangePart(a: array<Word>, fseg: nat, flo: nat, b: array<Word>, rseg: nat, rlo: nat, len: nat, w: Word,
                      ghost wlo: nat, ghost whi: nat, ghost src: seq<Word>,
                      ghost f: nat, ghost r: nat, ghost k: nat, ghost e: nat)
    requires fseg < a.Length && rseg < b.Length && 0 < len <= e && wlo <= flo < 32 && rlo < 32
    requires flo + len <= whi <= 32 && rlo + len <= 32 && Piece(src, w, fseg, wlo, whi)
    requires (wlo == flo || rlo == 0) && (rlo + len == 32 || flo + len == whi) && (rlo <= flo ==> flo + len == whi)
    requires Swapping(src, Joint(a, b), f, r, k, e) && (f + k + e <= r || r + k + len <= f)
    requires 32 * fseg + flo == f + k && 32 * (Behind(a, b) + rseg) + rlo == r + k
    modifies a, b
    ensures Swapping(src, Joint(a, b), f, r, k + len, e - len)
  {
    hide Swapping, Piece, Ready, Holds, Bit, IsMask, Ones, Not, And, Or, Shl, Shr, Joint, Behind;
    JointWords(a, b);
    ghost var cur, seg := Joint(a, b), Behind(a, b) + rseg;
    var x1 := Forth(w, flo, rlo, len, src, fseg, wlo, whi, seg, f - r);
    var m := And(Shl(Ones(), rlo), Shr(Ones(), BITS - rlo - len));
    MaskBits(rlo, rlo + len);
    Untouched(src, cur, f, r, k, e, seg, rlo, rlo + len);
    MaskedPiece(src, b[rseg], m, seg, rlo, rlo + len);
    var x2 := Forth(And(b[rseg], m), rlo, flo, len, src, seg, rlo, rlo + len, fseg, r - f);
    SetSecond(a, b, rseg, And(b[rseg], Not(m)));
    JointWords(a, b);
    SetSecond(a, b, rseg, Or(b[rseg], x1));
    JointWords(a, b);
    ghost var cur1 := Joint(a, b);
    SetFirst(a, b, fseg, Or(a[fseg], x2));
    Exchanged(src, cur, cur1, Joint(a, b), f, r, k, e, fseg, flo, seg, rlo, len, m, x1, x2);
  }

  /**
    Exchanges `dn` bits of one word at `f` with the bits at `result`, which may straddle two words.
    (For a whole word the source overwrites the word at `f` instead of clearing it and or-ing into it.)
  */
  method SwapPiece(a: array<Word>, fseg: nat, flo: nat, dn: nat, b: array<Word>, result: BitIter,
                   ghost src: seq<Word>, ghost f: nat, ghost r: nat, ghost k: nat)
    returns (res: BitIter)
    requires flo < 32 && result.ctz < 32 && 0 < dn && flo + dn <= 32 && fseg < a.Length
    requires Swapping(src, Joint(a, b), f, r, k, 0) && (f + k + dn <= r || r + k + dn <= f)
    requires 32 * fseg + flo == f + k && 32 * Behind(a, b) + Pos(result) == r + k && Pos(result) + dn <= 32 * b.Length
    modifies a, b
    ensures Swapping(src, Joint(a, b), f, r, k + dn, 0)
    ensures Pos(res) == Pos(result) + dn
    ensures res.ctz == (if result.ctz + dn < 32 then result.ctz + dn else result.ctz + dn - 32)
  {
    hide Swapping, Piece, Ready, Holds, Bit, IsMask, Advance, Ones, Not, And, Or, Shl, Shr, Joint, Behind;
    JointWords(a, b);
    ghost var cur := Joint(a, b);
    var m := And(Shl(Ones(), flo), Shr(Ones(), BITS - flo - dn));
    MaskBits(flo, flo + dn);
    Untouched(src, cur, f, r, k, 0, fseg, flo, flo + dn);
    MaskedPiece(src, a[fseg], m, fseg, flo, flo + dn);
    var w := And(a[fseg], m);
    SetFirst(a, b, fseg, And(a[fseg], Not(m)));
    Cleared(src, cur, Joint(a, b), f, r, k, fseg, m, flo, flo + dn);
    var clzR := BITS - result.ctz;
    var ddn := if dn < clzR then dn else clzR;
    ExchangePart(a, fseg, flo, b, result.seg, result.ctz, ddn, w, flo, flo + dn, src, f, r, k, dn);
    AdvanceWithin(result, ddn);
    res := Advance(result, ddn);
    var left := dn - ddn;
    if left > 0 {
      ExchangePart(a, fseg, flo + ddn, b, res.seg, 0, left, w, flo, flo + dn, src, f, r, k + ddn, left);
      res := BitIter(res.seg, left);
    }
  }

  /** The ranges lie in their arrays, and apart when both are in one. */
  ghost predicate Swappable(a: array<Word>, first: BitIter, last: BitIter, b: array<Word>, result: BitIter) {
    && first.ctz < 32 && result.ctz < 32 && Pos(first) <= Pos(last) <= 32 * a.Length
    && Pos(result) + Pos(last) - Pos(first) <= 32 * b.Length
    && (a == b ==> Pos(last) <= Pos(result) || Pos(result) + Pos(last) - Pos(first) <= Pos(first))
  }

  /** In terms of the words of both arrays. */
  lemma JointApart(a: array<Word>, first: BitIter, last: BitIter, b: array<Word>, result: BitIter)
    requires Swappable(a, first, last, b, result)
    ensures var n := Pos(last) - Pos(first);
      Pos(first) + n <= 32 * Behind(a, b) + Pos(result) || 32 * Behind(a, b) + Pos(result) + n <= Pos(first)
  {}

  /** `__swap_ranges_unaligned` */
  method SwapUnaligned(a: array<Word>, first: BitIter, last: BitIter, b: array<Word>, result: BitIter)
    returns (res: BitIter)
    requires Swappable(a, first, last, b, result)
    modifies a, b
    ensures res.ctz < 32 && Pos(res) == Pos(result) + Pos(last) - Pos(first)
    ensures Swapped(old(Joint(a, b)), Joint(a, b), Pos(first), 32 * Behind(a, b) + Pos(result), Pos(last) - Pos(first))
  {
    hide Swapping, Bit, Pos, Joint, Behind;
    JointApart(a, first, last, b, result);
    PosDef(first);
    ghost var src, f, r := Joint(a, b), Pos(first), 32 * Behind(a, b) + Pos(result);
    var n: nat := Pos(last) - Pos(first);
    ghost var k: nat := 0;
    SwapStart(src, f, r);
    res := result;
    var seg := first.seg;
    if n > 0 {
      if first.ctz != 0 {
        var clzF := BITS - first.ctz;
        var dn := if clzF < n then clzF else n;
        res := SwapPiece(a, seg, first.ctz, dn, b, res, src, f, r, k);
        n := n - dn;
        k := k + dn;
        seg := seg + 1;
      }
      while n >= BITS
        invariant 0 <= n && k + n == Pos(last) - f && (n > 0 ==> 32 * seg == f + k)
        invariant res.ctz < 32 && 32 * Behind(a, b) + Pos(res) == r + k
        invariant Swapping(src, Joint(a, b), f, r, k, 0)
      {
        res := SwapPiece(a, seg, 0, BITS, b, res, src, f, r, k);
        n := n - BITS;
        k := k + BITS;
        seg := seg + 1;
      }
      if n > 0 {
        res := SwapPiece(a, seg, 0, n, b, res, src, f, r, k);
      }
    }
  }

  lemma SwapStart(src: seq<Word>, f: nat, r: nat)
    ensures Swapping(src, src, f, r, 0, 0)
  {}

  /** Whole words exchanged. */
  lemma WordsSwapped(src: seq<Word>, cur: seq<Word>, cur': seq<Word>, f: nat, r: nat, k: nat, fseg: nat, rseg: nat)
    requires Swapping(src, cur, f, r, k, 0) && fseg < |cur| && rseg < |cur| && (f + k + 32 <= r || r + k + 32 <= f)
    requires 32 * fseg == f + k && 32 * rseg == r + k && cur' == cur[fseg := cur[rseg]][rseg := cur[fseg]]
    ensures Swapping(src, cur', f, r, k + 32, 0)
  {
    hide Bit;
    Untouched(src, cur, f, r, k, 0, fseg, 0, 32);
    Untouched(src, cur, f, r, k, 0, rseg, 0, 32);
    var mid := cur[fseg := cur[rseg]];
    forall x: int {:trigger Bit(cur', x)}
      ensures Bit(cur', x) == if f + k <= x < f + k + 32 then Bit(src, x - f + r)
                              else if r + k <= x < r + k + 32 then Bit(src, x - r + f) else Bit(cur, x)
    {
      RewrittenBit(cur, mid, fseg, 0, 32, cur[rseg], x);
      RewrittenBit(mid, cur', rseg, 0, 32, cur[fseg], x);
    }
  }

  /** `__swap_ranges_aligned` */
  method SwapAligned(a: array<Word>, first: BitIter, last: BitIter, b: array<Word>, result: BitIter)
    returns (res: BitIter)
    requires Swappable(a, first, last, b, result) && first.ctz == result.ctz
    modifies a, b
    ensures res.ctz < 32 && Pos(res) == Pos(result) + Pos(last) - Pos(first)
    ensures Swapped(old(Joint(a, b)), Joint(a, b), Pos(first), 32 * Behind(a, b) + Pos(result), Pos(last) - Pos(first))
  {
    hide Swapping, Bit, Pos, Joint, Behind;
    JointApart(a, first, last, b, result);
    PosDef(first);
    ghost var src, f, r := Joint(a, b), Pos(first), 32 * Behind(a, b) + Pos(result);
    var n: nat := Pos(last) - Pos(first);
    ghost var k: nat := 0;
    SwapStart(src, f, r);
    res := result;
    var seg := first.seg;
    if n > 0 {
      if first.ctz != 0 {
        var clz := BITS - first.ctz;
        var dn := if clz < n then clz else n;
        res := SwapPiece(a, seg, first.ctz, dn, b, res, src, f, r, k);
        n := n - dn;
        k := k + dn;
        seg := seg + 1;
      }
      while n >= BITS
        invariant 0 <= n && k + n == Pos(last) - f && (n > 0 ==> 32 * seg == f + k && res.ctz == 0)
        invariant res.ctz < 32 && 32 * Behind(a, b) + Pos(res) == r + k
        invariant Swapping(src, Joint(a, b), f, r, k, 0)
      {
        PosDef(res);
        SwapWords(a, seg, b, res.seg, src, f, r, k);
        res := BitIter(res.seg + 1, 0);
        PosDef(res);
        n := n - BITS;
        k := k + BITS;
        seg := seg + 1;
      }
      if n > 0 {
        res := SwapPiece(a, seg, 0, n, b, res, src, f, r, k);
      }
    }
  }

  method SwapWords(a: array<Word>, fseg: nat, b: array<Word>, rseg: nat,
                   ghost src: seq<Word>, ghost f: nat, ghost r: nat, ghost k: nat)
    requires Swapping(src, Joint(a, b), f, r, k, 0) && fseg < a.Length && rseg < b.Length
    requires 32 * fseg == f + k && 32 * (Behind(a, b) + rseg) == r + k && (f + k + 32 <= r || r + k + 32 <= f)
    modifies a, b
    ensures Swapping(src, Joint(a, b), f, r, k + 32, 0)
  {
    hide Swapping, Bit, Joint, Behind;
    JointWords(a, b);
    ghost var cur := Joint(a, b);
    var w, x := a[fseg], b[rseg];
    SetFirst(a, b, fseg, x);
    SetSecond(a, b, rseg, w);
    WordsSwapped(src, cur, Joint(a, b), f, r, k, fseg, Behind(a, b) + rseg);
  }

  /** The `n` bits of `a` at `f` and of `b` at `r` have changed places, and all others are as before. */
  ghost predicate Crossed(a: seq<Word>, b: seq<Word>, a': seq<Word>, b': seq<Word>, f: nat, r: nat, n: nat) {
    && |a'| == |a| && |b'| == |b|
    && (forall p: int {:trigger Bit(a', p)} :: Bit(a', p) == if f <= p < f + n then Bit(b, p - f + r) else Bit(a, p))
    && (forall p: int {:trigger Bit(b', p)} :: Bit(b', p) == if r <= p < r + n then Bit(a, p - r + f) else Bit(b, p))
  }

  lemma BitOfJoint(a: seq<Word>, b: seq<Word>, p: int)
    ensures Bit(a + b, p) == if p < 32 * |a| then Bit(a, p) else Bit(b, p - 32 * |a|)
  {
    if 0 <= p < 32 * (|a| + |b|) {
      var seg, j := p / 32, p % 32;
      WordBit(a + b, seg, j);
      if seg < |a| { WordBit(a, seg, j); } else { WordBit(b, seg - |a|, j); }
    }
  }

  lemma CrossedJoint(a: seq<Word>, b: seq<Word>, a': seq<Word>, b': seq<Word>, f: nat, r: nat, n: nat)
    requires |a'| == |a| && |b'| == |b| && f + n <= 32 * |a| && r + n <= 32 * |b|
    requires Swapped(a + b, a' + b', f, 32 * |a| + r, n)
    ensures Crossed(a, b, a', b', f, r, n)
  {
    hide Bit;
    forall p: int {:trigger Bit(a', p)}
      ensures Bit(a', p) == if f <= p < f + n then Bit(b, p - f + r) else Bit(a, p)
    {
      if 0 <= p < 32 * |a| {
        BitOfJoint(a', b', p);
        SwappingAt(a + b, a' + b', f, 32 * |a| + r, n, 0, p);
        BitOfJoint(a, b, p);
        BitOfJoint(a, b, p - f + 32 * |a| + r);
      } else {
        OutsideArray(a, p);
        OutsideArray(a', p);
      }
    }
    forall p: int {:trigger Bit(b', p)}
      ensures Bit(b', p) == if r <= p < r + n then Bit(a, p - r + f) else Bit(b, p)
    {
      if 0 <= p < 32 * |b| {
        BitOfJoint(a', b', 32 * |a| + p);
        SwappingAt(a + b, a' + b', f, 32 * |a| + r, n, 0, 32 * |a| + p);
        BitOfJoint(a, b, 32 * |a| + p);
        BitOfJoint(a, b, p - r + f);
      } else {
        OutsideArray(b, p);
        OutsideArray(b', p);
      }
    }
  }

  lemma OutsideArray(ws: seq<Word>, p: int)
    requires !(0 <= p < 32 * |ws|)
    ensures !Bit(ws, p)
  {}

  /** `swap_ranges`, between two arrays or within one. */
  method SwapRanges(a: array<Word>, first: BitIter, last: BitIter, b: array<Word>, result: BitIter)
    returns (res: BitIter)
    requires Swappable(a, first, last, b, result)
    modifies a, b
    ensures res.ctz < 32 && Pos(res) == Pos(result) + Pos(last) - Pos(first)
    ensures a == b ==> Swapped(old(a[..]), a[..], Pos(first), Pos(result), Pos(last) - Pos(first))
    ensures a != b ==> Crossed(old(a[..]), old(b[..]), a[..], b[..], Pos(first), Pos(result), Pos(last) - Pos(first))
  {
    hide Swapping, Bit, Pos, Crossed;
    if first.ctz == result.ctz {
      res := SwapAligned(a, first, last, b, result);
    } else {
      res := SwapUnaligned(a, first, last, b, result);
    }
    if a != b {
      CrossedJoint(old(a[..]), old(b[..]), a[..], b[..], Pos(first), Pos(result), Pos(last) - Pos(first));
    }
  }
}
