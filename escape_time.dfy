/**
 * The escape-time iteration both renderers run, over exact reals.
 *
 * A pixel maps to a point c of the plane.  The orbit starts at z = c and
 * each step sets z to z^exponent + c.  When `iterations` is odd, one step is
 * taken first without a check.  Then the steps go in pairs, and the squared
 * magnitude is compared with the limit after each pair; the pixel is drawn
 * when no check finds it strictly above the limit.
 *
 * The two renderers differ only for exponent 0, where the power is 1 and
 * one of them drops c (ZeroExponentRule.DropC) while the other still adds
 * it (ZeroExponentRule.AddC).
 */
module EscapeTime {

  datatype Complex = Complex(re: real, im: real)

  const Zero := Complex(0.0, 0.0)

  const One := Complex(1.0, 0.0)

  function Add(a: Complex, b: Complex): Complex {
    Complex(a.re + b.re, a.im + b.im)
  }

  function Mul(a: Complex, b: Complex): Complex {
    Complex(a.re * b.re - a.im * b.im, a.re * b.im + a.im * b.re)
  }

  function Conj(z: Complex): Complex {
    Complex(z.re, -z.im)
  }

  /** |z|^2, the quantity the escape test compares with the limit. */
  function Norm2(z: Complex): real {
    z.re * z.re + z.im * z.im
  }

  /** The test as the C code writes it, on separate real and imaginary parts. */
  /** z^n as n multiplications by z starting from 1; the C loops' exp - 1 multiplications from z give the same (PowOne). */
  function Pow(z: Complex, n: nat): Complex {
    if n == 0 then One else Mul(z, Pow(z, n - 1))
  }

  function RealPow(x: real, n: nat): real {
    if n == 0 then 1.0 else x * RealPow(x, n - 1)
  }

  // ---------------------------------------------------------------------
  // Algebra of the step
  // ---------------------------------------------------------------------

  /** |ab|^2 = |a|^2 |b|^2. */
  lemma NormMul(a: Complex, b: Complex)
    ensures Norm2(Mul(a, b)) == Norm2(a) * Norm2(b)
  {
    var p, q, r, s := a.re, a.im, b.re, b.im;
    calc {
      Norm2(Mul(a, b));
      (p * r - q * s) * (p * r - q * s) + (p * s + q * r) * (p * s + q * r);
      p * p * r * r + q * q * s * s + p * p * s * s + q * q * r * r;
      (p * p + q * q) * (r * r + s * s);
    }
  }

  /** |z^n|^2 = (|z|^2)^n. */
  lemma {:induction false} NormPow(z: Complex, n: nat)
    ensures Norm2(Pow(z, n)) == RealPow(Norm2(z), n)
  {
    if n > 0 {
      NormPow(z, n - 1);
      NormMul(z, Pow(z, n - 1));
    }
  }

  lemma {:induction false} PowOfZero(n: nat)
    requires n >= 1
    ensures Pow(Zero, n) == Zero
  {
    if n > 1 {
      PowOfZero(n - 1);
    }
  }

  lemma MulConj(a: Complex, b: Complex)
    ensures Mul(Conj(a), Conj(b)) == Conj(Mul(a, b))
  {
    assert (-a.im) * (-b.im) == a.im * b.im;
    assert a.re * (-b.im) + (-a.im) * b.re == -(a.re * b.im + a.im * b.re);
  }

  /** Conjugation commutes with powers. */
  lemma {:induction false} PowConj(z: Complex, n: nat)
    ensures Pow(Conj(z), n) == Conj(Pow(z, n))
  {
    if n > 0 {
      PowConj(z, n - 1);
      MulConj(z, Pow(z, n - 1));
    }
  }

  lemma MulOne(z: Complex)
    ensures Mul(z, One) == z
  {
    assert z.re * 1.0 - z.im * 0.0 == z.re;
    assert z.re * 0.0 + z.im * 1.0 == z.im;
  }

  /** z^1 = z: the power loop leaves z as it is when it runs no multiplication. */
  lemma PowOne(z: Complex)
    ensures Pow(z, 1) == z
  {
    MulOne(z);
  }

  lemma MulSelf(z: Complex)
    ensures Mul(z, z) == Complex(z.re * z.re - z.im * z.im, 2.0 * z.re * z.im)
  {
  }

  /** With exponent 2 the power is (x^2 - y^2, 2xy). */
  lemma SquareIsPow(z: Complex)
    ensures Pow(z, 2) == Complex(z.re * z.re - z.im * z.im, 2.0 * z.re * z.im)
  {
    PowOne(z);
    MulSelf(z);
  }

  // ---------------------------------------------------------------------
  // The orbit
  // ---------------------------------------------------------------------

  /** What an exponent-0 step does with c. */
  datatype ZeroExponentRule = DropC | AddC

  /** One step z := z^exponent + c, with exponent 0 handled by the rule. */
  function Step(rule: ZeroExponentRule, exponent: nat, c: Complex, z: Complex): Complex {
    if exponent == 0 then
      (if rule == DropC then One else Add(One, c))
    else
      Add(Pow(z, exponent), c)
  }

  /** z after n steps from z = c. */
  function Orbit(rule: ZeroExponentRule, exponent: nat, c: Complex, n: nat): Complex {
    if n == 0 then c else Step(rule, exponent, c, Orbit(rule, exponent, c, n - 1))
  }

  /** The iterate the k-th check of the pair loop sees: after iterations % 2 + 2(k + 1) steps. */
  function Checked(rule: ZeroExponentRule, exponent: nat, c: Complex, iterations: nat, k: nat): Complex {
    Orbit(rule, exponent, c, iterations % 2 + 2 * k + 2)
  }

  /** The strict, root-free escape test. */
  predicate Escapes(z: Complex, limit: real) {
    Norm2(z) > limit
  }

  /** c is drawn: no check of the pair loop finds the orbit strictly outside the limit. */
  predicate Draws(rule: ZeroExponentRule, exponent: nat, c: Complex, iterations: nat, limit: real) {
    forall k :: 0 <= k < iterations / 2 ==> !Escapes(Checked(rule, exponent, c, iterations, k), limit)
  }

  // ---------------------------------------------------------------------
  // Properties of the drawing rule
  // ---------------------------------------------------------------------

  /** With fewer than two iterations the pair loop never runs, so every point is drawn. */
  lemma FewIterationsDraw(rule: ZeroExponentRule, exponent: nat, c: Complex, iterations: nat, limit: real)
    requires iterations <= 1
    ensures Draws(rule, exponent, c, iterations, limit)
  {
  }

  /** A larger limit draws at least the same points. */
  lemma DrawsMonotoneInLimit(rule: ZeroExponentRule, exponent: nat, c: Complex, iterations: nat, limit: real, limit': real)
    requires limit <= limit'
    ensures Draws(rule, exponent, c, iterations, limit) ==> Draws(rule, exponent, c, iterations, limit')
  {
  }

  lemma {:induction false} OrbitOfOrigin(rule: ZeroExponentRule, exponent: nat, n: nat)
    requires exponent >= 1
    ensures Orbit(rule, exponent, Zero, n) == Zero
  {
    if n > 0 {
      OrbitOfOrigin(rule, exponent, n - 1);
      PowOfZero(exponent);
    }
  }

  lemma CheckedOfOrigin(rule: ZeroExponentRule, exponent: nat, iterations: nat, k: nat)
    requires exponent >= 1
    ensures Checked(rule, exponent, Zero, iterations, k) == Zero
  {
    var n := iterations % 2 + 2 * k + 2;
    OrbitOfOrigin(rule, exponent, n);
  }

  /** For exponent >= 1 the origin is a fixed point, so it is drawn for every non-negative limit. */
  lemma OriginDraws(rule: ZeroExponentRule, exponent: nat, iterations: nat, limit: real)
    requires exponent >= 1 && limit >= 0.0
    ensures Draws(rule, exponent, Zero, iterations, limit)
  {
    forall k | 0 <= k < iterations / 2
      ensures !Escapes(Checked(rule, exponent, Zero, iterations, k), limit)
    {
      var z := Checked(rule, exponent, Zero, iterations, k);
      CheckedOfOrigin(rule, exponent, iterations, k);
      assert z.re == 0.0 && z.im == 0.0;
      assert Norm2(z) == 0.0;
    }
  }

  /** With exponent 0 every step lands on the same value: 1 when c is dropped, 1 + c when it is added. */
  lemma ZeroExponentOrbit(rule: ZeroExponentRule, c: Complex, n: nat)
    requires n >= 1
    ensures Orbit(rule, 0, c, n) == (if rule == DropC then One else Add(One, c))
  {
  }

  /**
   * With exponent 0, a point is drawn when the pair loop does not run, or
   * else exactly when that fixed value is not strictly outside the limit:
   * a value exactly on the limit is drawn.
   */
  lemma ZeroExponentDraws(rule: ZeroExponentRule, c: Complex, iterations: nat, limit: real)
    ensures rule == DropC ==> (Draws(rule, 0, c, iterations, limit) <==> iterations <= 1 || 1.0 <= limit)
    ensures rule == AddC ==> (Draws(rule, 0, c, iterations, limit) <==> iterations <= 1 || Norm2(Add(One, c)) <= limit)
  {
    var fixed := if rule == DropC then One else Add(One, c);
    forall k | 0 <= k < iterations / 2
      ensures Checked(rule, 0, c, iterations, k) == fixed
    {
      var n := iterations % 2 + 2 * k + 2;
      ZeroExponentOrbit(rule, c, n);
      assert Checked(rule, 0, c, iterations, k) == Orbit(rule, 0, c, n);
    }
    if iterations >= 2 {
      assert Checked(rule, 0, c, iterations, 0) == fixed;
    }
  }

  /** One step from the mirror images of c and z lands on the mirror image of the step. */
  lemma StepConj(rule: ZeroExponentRule, exponent: nat, c: Complex, z: Complex)
    ensures Step(rule, exponent, Conj(c), Conj(z)) == Conj(Step(rule, exponent, c, z))
  {
    if exponent > 0 {
      PowConj(z, exponent);
    }
  }

  lemma {:induction false} OrbitConj(rule: ZeroExponentRule, exponent: nat, c: Complex, n: nat)
    ensures Orbit(rule, exponent, Conj(c), n) == Conj(Orbit(rule, exponent, c, n))
  {
    if n > 0 {
      OrbitConj(rule, exponent, c, n - 1);
      StepConj(rule, exponent, c, Orbit(rule, exponent, c, n - 1));
    }
  }

  lemma CheckedConj(rule: ZeroExponentRule, exponent: nat, c: Complex, iterations: nat, k: nat)
    ensures Checked(rule, exponent, Conj(c), iterations, k) == Conj(Checked(rule, exponent, c, iterations, k))
  {
    var n := iterations % 2 + 2 * k + 2;
    OrbitConj(rule, exponent, c, n);
  }

  lemma NormConj(z: Complex)
    ensures Norm2(Conj(z)) == Norm2(z)
  {
    assert (-z.im) * (-z.im) == z.im * z.im;
  }

  /** The k-th check sees a point and its mirror image escape alike. */
  lemma CheckedEscapesConj(rule: ZeroExponentRule, exponent: nat, c: Complex, iterations: nat, k: nat, limit: real)
    ensures Escapes(Checked(rule, exponent, Conj(c), iterations, k), limit)
        == Escapes(Checked(rule, exponent, c, iterations, k), limit)
  {
    CheckedConj(rule, exponent, c, iterations, k);
    NormConj(Checked(rule, exponent, c, iterations, k));
  }

  /** A point and its mirror image in the real axis are drawn alike. */
  lemma DrawsConj(rule: ZeroExponentRule, exponent: nat, c: Complex, iterations: nat, limit: real)
    ensures Draws(rule, exponent, Conj(c), iterations, limit) == Draws(rule, exponent, c, iterations, limit)
  {
    forall k | 0 <= k < iterations / 2
      ensures Escapes(Checked(rule, exponent, Conj(c), iterations, k), limit)
          == Escapes(Checked(rule, exponent, c, iterations, k), limit)
    {
      CheckedEscapesConj(rule, exponent, c, iterations, k, limit);
    }
  }
}
