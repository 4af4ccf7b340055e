/** `__fill_n_true`, `__fill_n_false` and `__count_bool_true`: word-wise work on a range of bits. */
module BitFill {
  import opened BitWords

  /** The bits first..first+n-1 have the value `v`, every other bit is as before. */
  ghost predicate Filled(ws: seq<Word>, ws': seq<Word>, first: nat, n: nat, v: bool) {
    && |ws'| == |ws|
    && forall p | 0 <= p < 32 * |ws| :: BitAt(ws', p) == if first <= p < first + n then v else BitAt(ws, p)
  }

  lemma FillMore(ws: seq<Word>, ws1: seq<Word>, ws2: seq<Word>, first: nat, k: nat, v: bool, seg: nat, lo: nat,
                 hi: nat, w: Word)
    requires Filled(ws, ws1, first, k, v) && Rewritten(ws1, ws2, seg, lo, hi, w)
    requires 32 * seg + lo == first + k && forall j | lo <= j < hi :: w[j] == v
    ensures Filled(ws, ws2, first, k + hi - lo, v)
  {
    forall p | 0 <= p < 32 * |ws|
      ensures BitAt(ws2, p) == if first <= p < first + k + hi - lo then v else BitAt(ws, p)
    {
      assert BitAt(ws1, p) == if first <= p < first + k then v else BitAt(ws, p);
    }
  }

  /** Whole words, as `memset` writes them. */
  lemma FillWords(ws: seq<Word>, ws1: seq<Word>, ws2: seq<Word>, first: nat, k: nat, v: bool, seg: nat, nw: nat)
    requires Filled(ws, ws1, first, k, v) && (nw > 0 ==> 32 * seg == first + k) && seg + nw <= |ws| == |ws2|
    requires forall i | 0 <= i < |ws| && !(seg <= i < seg + nw) :: ws2[i] == ws1[i]
    requires forall i, j | seg <= i < seg + nw && 0 <= j < 32 :: ws2[i][j] == v
    ensures Filled(ws, ws2, first, k + 32 * nw, v)
  {
    forall p | 0 <= p < 32 * |ws|
      ensures BitAt(ws2, p) == if first <= p < first + k + 32 * nw then v else BitAt(ws, p)
    {
      assert BitAt(ws1, p) == if first <= p < first + k then v else BitAt(ws, p);
    }
  }

  /** `__fill_n_true` */
  method FillTrue(a: array<Word>, first: BitIter, n: nat)
    requires first.ctz < 32 && Pos(first) + n <= 32 * a.Length
    modifies a
    ensures Filled(old(a[..]), a[..], Pos(first), n, true)
  {
    ghost var ws := a[..];
    var seg, left := first.seg, n;
    if first.ctz != 0 {
      var clz := BITS - first.ctz;
      var dn := if clz < left then clz else left;
      var m := And(Shl(Ones(), first.ctz), Shr(Ones(), clz - dn));
      MaskBits(first.ctz, first.ctz + dn);
      a[seg] := Or(a[seg], m);
      FillMore(ws, ws, a[..], Pos(first), 0, true, seg, first.ctz, first.ctz + dn, a[seg]);
      left := left - dn;
      seg := seg + 1;
    }
    var nw := left / BITS;
    ghost var ws1 := a[..];
    forall i | seg <= i < seg + nw { a[i] := Ones(); }
    FillWords(ws, ws1, a[..], Pos(first), n - left, true, seg, nw);
    left := left - nw * BITS;
    if left > 0 {
      seg := seg + nw;
      var m := Shr(Ones(), BITS - left);
      MaskBits(0, left);
      ghost var ws2 := a[..];
      a[seg] := Or(a[seg], m);
      FillMore(ws, ws2, a[..], Pos(first), n - left, true, seg, 0, left, a[seg]);
    }
  }

  /** `__fill_n_false` */
  method FillFalse(a: array<Word>, first: BitIter, n: nat)
    requires first.ctz < 32 && Pos(first) + n <= 32 * a.Length
    modifies a
    ensures Filled(old(a[..]), a[..], Pos(first), n, false)
  {
    ghost var ws := a[..];
    var seg, left := first.seg, n;
    if first.ctz != 0 {
      var clz := BITS - first.ctz;
      var dn := if clz < left then clz else left;
      var m := And(Shl(Ones(), first.ctz), Shr(Ones(), clz - dn));
      MaskBits(first.ctz, first.ctz + dn);
      a[seg] := And(a[seg], Not(m));
      FillMore(ws, ws, a[..], Pos(first), 0, false, seg, first.ctz, first.ctz + dn, a[seg]);
      left := left - dn;
      seg := seg + 1;
    }
    var nw := left / BITS;
    ghost var ws1 := a[..];
    forall i | seg <= i < seg + nw { a[i] := Not(Ones()); }
    FillWords(ws, ws1, a[..], Pos(first), n - left, false, seg, nw);
    left := left - nw * BITS;
    if left > 0 {
      seg := seg + nw;
      var m := Shr(Ones(), BITS - left);
      MaskBits(0, left);
      ghost var ws2 := a[..];
      a[seg] := And(a[seg], Not(m));
      FillMore(ws, ws2, a[..], Pos(first), n - left, false, seg, 0, left, a[seg]);
    }
  }

  // ----- counting

  /** The number of set bits among the first `j` bits of a word; `__pop_count` counts all 32. */
  function PopUpTo(w: Word, j: nat): nat
    requires j <= 32
  {
    if j == 0 then 0 else PopUpTo(w, j - 1) + if w[j - 1] then 1 else 0
  }

  function PopCount(w: Word): nat { PopUpTo(w, 32) }

  /** The number of set bits at positions p..p+n-1. */
  ghost function CountBits(ws: seq<Word>, p: nat, n: nat): nat
    requires p + n <= 32 * |ws|
  {
    if n == 0 then 0 else CountBits(ws, p, n - 1) + if BitAt(ws, p + n - 1) then 1 else 0
  }

  lemma CountNone(ws: seq<Word>, p: nat)
    requires p <= 32 * |ws|
    ensures CountBits(ws, p, 0) == 0
  {}

  lemma {:induction false} CountSplit(ws: seq<Word>, p: nat, k: nat, n: nat)
    requires p + k + n <= 32 * |ws|
    ensures CountBits(ws, p, k + n) == CountBits(ws, p, k) + CountBits(ws, p + k, n)
  {
    if n > 0 { CountSplit(ws, p, k, n - 1); }
  }

  /** A masked population count is the count of the selected positions. */
  lemma {:induction false} CountWord(ws: seq<Word>, seg: nat, lo: nat, hi: nat, m: Word, j: nat)
    requires seg < |ws| && lo <= hi <= 32 && IsMask(m, lo, hi) && j <= 32
    ensures PopUpTo(And(ws[seg], m), j) == if j <= lo then 0
            else CountBits(ws, 32 * seg + lo, (if j < hi then j else hi) - lo)
  {
    if j > 0 {
      CountWord(ws, seg, lo, hi, m, j - 1);
      BitOfWord(ws, seg, j - 1);
    }
  }

  lemma {:induction false} PopOfAnd(w: Word, j: nat)
    requires j <= 32
    ensures PopUpTo(And(w, Ones()), j) == PopUpTo(w, j)
  {
    if j > 0 { PopOfAnd(w, j - 1); }
  }

  /** `__count_bool_true` */
  method CountTrue(a: array<Word>, first: BitIter, n: nat) returns (r: nat)
    requires first.ctz < 32 && Pos(first) + n <= 32 * a.Length
    ensures r == CountBits(a[..], Pos(first), n)
  {
    hide PopUpTo, CountBits;
    r := 0;
    ghost var ws, p := a[..], Pos(first);
    CountNone(ws, p);
    var seg, left := first.seg, n;
    if first.ctz != 0 {
      var clz := BITS - first.ctz;
      var dn := if clz < left then clz else left;
      var m := And(Shl(Ones(), first.ctz), Shr(Ones(), clz - dn));
      MaskBits(first.ctz, first.ctz + dn);
      CountWord(ws, seg, first.ctz, first.ctz + dn, m, 32);
      r := PopCount(And(a[seg], m));
      left := left - dn;
      seg := seg + 1;
    }
    while left >= BITS
      invariant 0 <= left <= n && r == CountBits(ws, p, n - left)
      invariant left > 0 ==> 32 * seg == p + n - left
    {
      CountWord(ws, seg, 0, 32, Ones(), 32);
      PopOfAnd(a[seg], 32);
      CountSplit(ws, p, n - left, 32);
      r := r + PopCount(a[seg]);
      seg := seg + 1;
      left := left - BITS;
    }
    if left > 0 {
      var m := Shr(Ones(), BITS - left);
      MaskBits(0, left);
      CountWord(ws, seg, 0, left, m, 32);
      CountSplit(ws, p, n - left, left);
      r := r + PopCount(And(a[seg], m));
    }
  }
}
