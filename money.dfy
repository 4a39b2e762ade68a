/** Exact-real money arithmetic: the two-decimal rounding that every step of the
    amortization engine applies, written `Math.round(x * 100) / 100` in the
    source, and the integer power that stands for `Math.pow(1 + r, n)`. */
module Money {

  /** `Math.round(x * 100) / 100`: JavaScript's Math.round rounds halves toward
      +infinity, so it is the floor of `x * 100 + 1/2`. */
  function Round2(x: real): real {
    (x * 100.0 + 0.5).Floor as real / 100.0
  }

  /** x is a whole number of cents. */
  predicate IsCents(x: real) {
    (x * 100.0).Floor as real == x * 100.0
  }

  /** `if (closing < 0) closing = 0` */
  function Max0(x: real): real {
    if x < 0.0 then 0.0 else x
  }

  /** `Math.pow(x, n)` for a whole exponent. */
  function Pow(x: real, n: nat): real {
    if n == 0 then 1.0 else x * Pow(x, n - 1)
  }

  lemma Round2IsCents(x: real)
    ensures IsCents(Round2(x))
  {
    var k := (x * 100.0 + 0.5).Floor;
    assert Round2(x) * 100.0 == k as real;
  }

  /** Rounding leaves an amount that is already in cents alone. */
  lemma Round2OfCents(x: real)
    requires IsCents(x)
    ensures Round2(x) == x
  {
    var k := (x * 100.0).Floor;
    assert x * 100.0 + 0.5 == k as real + 0.5;
    assert (k as real + 0.5).Floor == k;
  }

  lemma Round2Idempotent(x: real)
    ensures Round2(Round2(x)) == Round2(x)
  {
    Round2IsCents(x);
    Round2OfCents(Round2(x));
  }

  /** Rounding moves an amount by at most half a cent, and a remainder of
      exactly half a cent rounds up (toward +infinity). */
  lemma Round2Error(x: real)
    ensures -0.005 <= x - Round2(x) < 0.005
  {
  }

  /** What is left after paying off the rounded balance rounds to zero. */
  lemma Round2Residue(x: real)
    ensures Round2(x - Round2(x)) == 0.0
  {
    Round2Error(x);
    var d := x - Round2(x);
    assert 0.0 <= d * 100.0 + 0.5 < 1.0;
  }

  lemma CentsSub(a: real, b: real)
    requires IsCents(a) && IsCents(b)
    ensures IsCents(a - b)
  {
    var ka, kb := (a * 100.0).Floor, (b * 100.0).Floor;
    assert (a - b) * 100.0 == (ka - kb) as real;
  }

  lemma Max0Cents(x: real)
    requires IsCents(x)
    ensures IsCents(Max0(x)) && Max0(x) >= 0.0
  {
  }
}
