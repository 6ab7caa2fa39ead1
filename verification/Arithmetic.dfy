/** Multiplication and Euclidean division facts used by the other modules. */
module Arithmetic {

  /** No multiple of m lies strictly between -m and m except zero. */
  lemma MultipleOutside(m: nat, d: int)
    ensures d > 0 ==> m * d >= m
    ensures d < 0 ==> m * d + m <= 0
  {
  }

  lemma DivUnique(k: nat, p: nat, q: nat, r: nat)
    requires p > 0 && k == p * q + r && r < p
    ensures k / p == q
  {
    var q', r' := k / p, k % p;
    assert k == p * q' + r';
    assert p * (q - q') == r' - r;
    MultipleOutside(p, q - q');
  }

  lemma ModUnique(k: nat, p: nat, q: nat, r: nat)
    requires p > 0 && k == p * q + r && r < p
    ensures k % p == r
  {
    DivUnique(k, p, q, r);
    assert k == p * (k / p) + k % p;
  }

  lemma DivMonotone(a: nat, b: nat, g: nat)
    requires a <= b && g >= 1
    ensures a / g <= b / g
  {
    var q, r := a / g, b / g;
    assert g * q <= a && b < g * r + g;
    assert g * (q - r) == g * q - g * r;
    MultipleOutside(g, q - r);
  }

  lemma MulMonotone(a: nat, b: nat, w: nat)
    requires a <= b
    ensures a * w <= b * w
    ensures w * a <= w * b
  {
  }
}
