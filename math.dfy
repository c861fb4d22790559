/**
 * Compile-time integer power of spacetime/math.hpp: pow<N>(base).
 */
module SpaceTimeMath {

  /** pow<N>(base): the three template specialisations, N = 0, N = 1 and N >= 2. */
  function Pow(base: real, n: nat): (r: real)
    ensures base >= 0.0 ==> r >= 0.0
  {
    if n == 0 then 1.0
    else if n == 1 then base
    else Pow(base, n - 1) * base
  }

  /** The recursion multiplies by the base once per level: pow<N>(b) = pow<N-1>(b) * b for every N >= 1. */
  lemma {:induction false} PowStep(base: real, n: nat)
    requires n >= 1
    ensures Pow(base, n) == Pow(base, n - 1) * base
  {
  }

  /** A positive base gives a positive power. */
  lemma {:induction false} PowPositive(base: real, n: nat)
    requires base > 0.0
    ensures Pow(base, n) > 0.0
  {
    if n >= 2 {
      PowPositive(base, n - 1);
    }
  }

  /** Zero to any positive power is zero. */
  lemma {:induction false} PowZeroBase(n: nat)
    requires n >= 1
    ensures Pow(0.0, n) == 0.0
  {
  }

  /** The power of an absolute value is the absolute value of the power. */
  lemma {:induction false} PowAbs(base: real, n: nat)
    ensures Pow(if base < 0.0 then -base else base, n) == (var p := Pow(base, n); if p < 0.0 then -p else p)
  {
    if n >= 2 {
      PowAbs(base, n - 1);
    }
  }
}
