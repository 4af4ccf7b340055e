/** Machine words as their bits, lowest first, and bit positions in arrays of words. */
module BitWords {
  /** `sizeof(__storage_type) * CHAR_BIT` on the 32-bit target. */
  const BITS: nat := 32

  type Word = w: seq<bool> | |w| == 32 witness seq(32, _ => false)

  /** `~__storage_type(0)` */
  function Ones(): Word
  {
    seq(32, _ => true)
  }

  function Not(x: Word): Word
  {
    seq(32, i requires 0 <= i < 32 => !x[i])
  }

  function And(x: Word, y: Word): Word
  {
    seq(32, i requires 0 <= i < 32 => x[i] && y[i])
  }

  function Or(x: Word, y: Word): Word
  {
    seq(32, i requires 0 <= i < 32 => x[i] || y[i])
  }

  /** A shift by the word width or more is undefined, so every use below shows its count to be smaller. */
  function Shl(x: Word, k: nat): Word
    requires k < 32
  {
    seq(32, i requires 0 <= i < 32 => i >= k && x[i - k])
  }

  function Shr(x: Word, k: nat): Word
    requires k < 32
  {
    seq(32, i requires 0 <= i < 32 => i + k < 32 && x[i + k])
  }

  /** A bit iterator: word index and bit index within the word. */
  datatype BitIter = BitIter(seg: nat, ctz: nat)

  function Pos(it: BitIter): nat { 32 * it.seg + it.ctz }

  ghost function BitAt(ws: seq<Word>, p: nat): bool
    requires p < 32 * |ws|
  {
    ws[p / 32][p % 32]
  }

  lemma BitOfWord(ws: seq<Word>, seg: nat, j: nat)
    requires seg < |ws| && j < 32
    ensures 32 * seg + j < 32 * |ws| && BitAt(ws, 32 * seg + j) == ws[seg][j]
  {
    assert (32 * seg + j) / 32 == seg && (32 * seg + j) % 32 == j;
  }

  ghost predicate IsMask(m: Word, lo: nat, hi: nat) {
    forall j | 0 <= j < 32 :: m[j] == (lo <= j < hi)
  }

  lemma AndBits(x: Word, y: Word)
    ensures forall j | 0 <= j < 32 :: And(x, y)[j] == (x[j] && y[j])
  {}

  lemma NotBits(x: Word)
    ensures forall j | 0 <= j < 32 :: Not(x)[j] == !x[j]
  {}

  lemma OrBits(x: Word, y: Word)
    ensures forall j | 0 <= j < 32 :: Or(x, y)[j] == (x[j] || y[j])
  {}

  lemma ShlBits(x: Word, k: nat)
    requires k < 32
    ensures forall j | 0 <= j < 32 :: Shl(x, k)[j] == (j >= k && x[j - k])
  {}

  lemma ShrBits(x: Word, k: nat)
    requires k < 32
    ensures forall j | 0 <= j < 32 :: Shr(x, k)[j] == (j + k < 32 && x[j + k])
  {}

  /** `(~0 << lo) & (~0 >> (32 - hi))` selects the bits lo..hi-1. */
  lemma MaskBits(lo: nat, hi: nat)
    requires lo < 32 && 0 < hi <= 32
    ensures IsMask(And(Shl(Ones(), lo), Shr(Ones(), 32 - hi)), lo, hi)
    ensures IsMask(Shr(Ones(), 32 - hi), 0, hi)
    ensures IsMask(Shl(Ones(), lo), lo, 32)
  {
    AndBits(Shl(Ones(), lo), Shr(Ones(), 32 - hi));
    ShlBits(Ones(), lo);
    ShrBits(Ones(), 32 - hi);
  }

  lemma MaskNot(m: Word, lo: nat)
    requires lo <= 32 && IsMask(m, lo, 32)
    ensures IsMask(Not(m), 0, lo)
  {}

  /** `(w & ~m) | x` takes the bits lo..hi-1 from `x` and leaves the others. */
  lemma PutBits(w: Word, m: Word, x: Word, lo: nat, hi: nat)
    requires IsMask(m, lo, hi) && forall j | 0 <= j < 32 && !(lo <= j < hi) :: !x[j]
    ensures forall j | 0 <= j < 32 :: Or(And(w, Not(m)), x)[j] == if lo <= j < hi then x[j] else w[j]
  {}

  /** The bits lo..hi-1 of word `seg`, at flat positions p.. , are the only ones a write changed, to those of `f`. */
  ghost predicate Rewritten(ws: seq<Word>, ws': seq<Word>, seg: nat, lo: nat, hi: nat, w: Word) {
    && seg < |ws| && ws' == ws[seg := w] && lo <= hi <= 32
    && forall j | 0 <= j < 32 && !(lo <= j < hi) :: w[j] == ws[seg][j]
  }

  /** Equality of arrays of words, bit by bit. */
  lemma SameBits(ws: seq<Word>, ws': seq<Word>)
    requires |ws| == |ws'| && forall p | 0 <= p < 32 * |ws| :: BitAt(ws, p) == BitAt(ws', p)
    ensures ws == ws'
  {
    forall seg | 0 <= seg < |ws| ensures ws[seg] == ws'[seg] {
      forall j | 0 <= j < 32 ensures ws[seg][j] == ws'[seg][j] {
        BitOfWord(ws, seg, j);
        BitOfWord(ws', seg, j);
      }
    }
  }
}
