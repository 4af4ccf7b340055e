/** Quotients and remainders by a variable divisor. */
module Arithmetic {
  lemma MulSign(a: int, s: nat)
    ensures a >= 1 ==> a * s >= s
    ensures a <= -1 ==> a * s + s <= 0
  {}

  lemma DivExact(x: nat, i: nat, s: nat)
    requires s > 0 && x == i * s
    ensures x / s == i
  {
    var d := i - x / s;
    assert d * s == x % s;
    MulSign(d, s);
  }

  lemma ModUnique(x: nat, q: nat, m: nat, r: nat)
    requires r < m && x == q * m + r
    ensures x % m == r && x / m == q
  {
    var d := x / m - q;
    assert d * m == r - x % m;
    MulSign(d, m);
  }

  function Pow2(n: nat): (r: nat)
    ensures r > 0
  {
    if n == 0 then 1 else 2 * Pow2(n - 1)
  }
}
