/** Division and multiplication of whole numbers. */
module Arithmetic {
  lemma DivModUnique(q: int, m: int, r: int)
    requires 0 <= r < m
    ensures (q * m + r) / m == q && (q * m + r) % m == r
  {
    var x := q * m + r;
    assert x == m * (x / m) + x % m;
    var d := x / m - q;
    assert m * d == r - x % m;
    if d >= 1 {
      MulMonotone(m, 1, d);
    } else if d <= -1 {
      MulMonotone(m, d, -1);
    }
  }

  lemma MulMonotone(m: int, a: int, b: int)
    requires 0 <= m && a <= b
    ensures m * a <= m * b
  {
    assert m * b == m * a + m * (b - a);
  }

  function DivRoundUp(a: nat, b: nat): nat
    requires 0 < b
  {
    (a + b - 1) / b
  }

  lemma DivRoundUpBound(a: nat, b: nat)
    requires 0 < b
    ensures a <= DivRoundUp(a, b) * b < a + b
    ensures 0 < a ==> 0 < DivRoundUp(a, b)
  {
    var x := a + b - 1;
    assert x == b * (x / b) + x % b;
    assert b * (x / b) == x / b * b;
  }
}
