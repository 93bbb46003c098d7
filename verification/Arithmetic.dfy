/** Facts about multiplication and division that several modules need. */
module Arithmetic {

  function MaxNat(a: nat, b: nat): nat { if a < b then b else a }

  function Max(x: real, y: real): real { if x < y then y else x }

  function Min(x: real, y: real): real { if x < y then x else y }

  lemma MulAtLeast(x: int, d: nat)
    ensures x >= 1 ==> x * d >= d
    ensures x <= 0 ==> x * d <= 0
  {}

  lemma DivModUnique(a: nat, d: nat, q: nat, r: nat)
    requires d > 0 && a == q * d + r && r < d
    ensures a / d == q && a % d == r
  {
    var q', r' := a / d, a % d;
    assert a == q' * d + r' && r' < d;
    assert (q - q') * d == q * d - q' * d == r' - r;
    assert (q' - q) * d == r - r';
    MulAtLeast(q - q', d);
    MulAtLeast(q' - q, d);
  }

  lemma RealMulSign(a: real, b: real)
    ensures a > 0.0 && b > 0.0 ==> a * b > 0.0
    ensures a >= 0.0 && b >= 0.0 ==> a * b >= 0.0
  {}

  lemma QuotientUnique(x: real, d: real, q: real)
    requires d > 0.0 && d * q == x
    ensures x / d == q
  {}
}
