/** Facts about multiplication and Euclidean division by a positive divisor,
    proved once so that the contracts that rely on them (receive rates, jam
    intervals, the visualiser's index layout) do not depend on the solver's
    non-linear arithmetic.
 */
module Arithmetic {

  lemma MulMonotone(a: int, b: int, i: nat)
    requires a <= b
    ensures a * i <= b * i
  {
    assert b * i - a * i == (b - a) * i;
  }

  lemma MulStrictCancel(a: int, b: int, i: nat)
    requires i > 0 && a * i < b * i
    ensures a < b
  {
    assert (b - a) * i == b * i - a * i;
  }

  lemma DivBounds(x: nat, i: nat)
    requires i > 0
    ensures (x / i) * i <= x < (x / i + 1) * i
  {
    assert x == (x / i) * i + x % i;
    assert (x / i + 1) * i == (x / i) * i + i;
  }

  /** The quotient is the only q with q * i <= x < (q + 1) * i. */
  lemma DivUnique(x: nat, i: nat, q: nat)
    requires i > 0 && q * i <= x < (q + 1) * i
    ensures x / i == q
  {
    var p := x / i;
    DivBounds(x, i);
    MulStrictCancel(q, p + 1, i);
    MulStrictCancel(p, q + 1, i);
  }
}
