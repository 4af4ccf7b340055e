/** `__constrain_hash`: the bucket of a hash, with a mask for power-of-two bucket counts. */
module HashConstrain {
  import opened Arithmetic

  /** Bitwise and of two unsigned words. */
  function And(x: nat, y: nat): nat {
    if x == 0 || y == 0 then 0
    else (if x % 2 == 1 && y % 2 == 1 then 1 else 0) + 2 * And(x / 2, y / 2)
  }

  /** `__is_hash_power2`-style test on the mask, then mask, identity or remainder. */
  function Constrain(h: nat, bc: nat): nat
    requires bc > 0
  {
    if And(bc, bc - 1) == 0 then And(h, bc - 1)
    else if h < bc then h
    else h % bc
  }

  function Bit(x: nat, k: nat): bool { x / Pow2(k) % 2 == 1 }

  /** Bit by bit. */
  lemma {:induction false} AndBits(x: nat, y: nat, k: nat)
    ensures Bit(And(x, y), k) <==> Bit(x, k) && Bit(y, k)
    decreases k
  {
    if x == 0 || y == 0 {
      NoBits(k);
    } else if k > 0 {
      AndBits(x / 2, y / 2, k - 1);
      BitAbove(x, k);
      BitAbove(y, k);
      BitAbove(And(x, y), k);
    }
  }

  lemma NoBits(k: nat)
    ensures !Bit(0, k)
  {}

  lemma BitAbove(x: nat, k: nat)
    requires k > 0
    ensures Bit(x, k) == Bit(x / 2, k - 1)
  {
    DivideTwice(x, Pow2(k - 1));
  }

  lemma DivideTwice(x: nat, m: nat)
    requires m > 0
    ensures x / (2 * m) == x / 2 / m
  {
    HalfMod(x, m);
    var q, r := x / 2 / m, x / 2 % m;
    assert x == 2 * (q * m + r) + x % 2;
    assert x == q * (2 * m) + (2 * r + x % 2);
    ModUnique(x, q, 2 * m, 2 * r + x % 2);
  }

  /** The mask is used exactly for powers of two. */
  lemma {:induction false} MaskedIff(bc: nat)
    requires bc > 0
    ensures And(bc, bc - 1) == 0 <==> exists k: nat :: bc == Pow2(k)
    decreases bc
  {
    hide And;
    if bc == 1 {
      MaskOfOne();
      assert bc == Pow2(0);
    } else if bc % 2 == 1 {
      MaskOfOdd(bc);
      forall k: nat ensures bc != Pow2(k) {}
    } else {
      var m := bc / 2;
      MaskedIff(m);
      MaskOfEven(m);
      if And(m, m - 1) == 0 {
        var k: nat :| m == Pow2(k);
        assert bc == Pow2(k + 1);
      } else {
        forall k: nat ensures bc != Pow2(k) {
          if k > 0 { assert m != Pow2(k - 1); }
        }
      }
    }
  }

  lemma MaskOfOne()
    ensures And(1, 0) == 0
  {}

  lemma MaskOfOdd(bc: nat)
    requires bc % 2 == 1 && bc > 1
    ensures And(bc, bc - 1) > 0
  {
    AndSelf(bc / 2);
    assert (bc - 1) / 2 == bc / 2;
  }

  lemma MaskOfEven(m: nat)
    requires m > 0
    ensures And(2 * m, 2 * m - 1) == 2 * And(m, m - 1)
  {
    assert (2 * m - 1) / 2 == m - 1;
  }

  /** `bc & (bc - 1)` vanishes only for powers of two, and then the mask is the remainder. */
  lemma {:induction false} MaskIsMod(h: nat, bc: nat)
    requires bc > 0 && And(bc, bc - 1) == 0
    ensures And(h, bc - 1) == h % bc
    decreases bc
  {
    if bc % 2 == 1 {
      if bc > 1 {
        AndSelf(bc / 2);
      }
    } else {
      var m := bc / 2;
      assert (bc - 1) / 2 == m - 1 && (bc - 1) % 2 == 1;
      if m > 1 { assert And(bc, bc - 1) == 2 * And(m, m - 1); }
      MaskIsMod(h / 2, m);
      HalfMod(h, m);
    }
  }

  lemma {:induction false} AndSelf(x: nat)
    ensures And(x, x) == x
  {
    if x > 0 { AndSelf(x / 2); }
  }

  lemma HalfMod(h: nat, m: nat)
    requires m > 0
    ensures h % (2 * m) == h % 2 + 2 * (h / 2 % m)
  {
    var q, r := h / 2 / m, h / 2 % m;
    assert h == 2 * (q * m + r) + h % 2;
    assert h == q * (2 * m) + (2 * r + h % 2);
    ModUnique(h, q, 2 * m, 2 * r + h % 2);
  }

  /** For every bucket count, `__constrain_hash` is the remainder, so it names a bucket. */
  lemma ConstrainIsMod(h: nat, bc: nat)
    requires bc > 0
    ensures Constrain(h, bc) == h % bc < bc
  {
    hide And;
    if And(bc, bc - 1) == 0 {
      MaskIsMod(h, bc);
    } else if h < bc {
      ModUnique(h, 0, bc, h);
    }
  }
}
