/** The extended Euclidean algorithm, `lab::extended_euclid` and
    `lab::EuclidResult` (lab1/Algorithms.hpp, lab1/Algorithms.cpp). */
module Euclid {
  import opened Arith

  /** The triple returned by the algorithm: a divisor and its Bezout
      coefficients. */
  datatype EuclidResult = EuclidResult(gcd: int, x: int, y: int)

  /** g is a greatest common divisor of a and b in the sense of
      divisibility: it divides both, and every common divisor divides it.
      For inputs of every sign this pins g down up to sign, and it is 0
      only when a and b are both 0. */
  ghost predicate IsGcd(g: int, a: int, b: int) {
    && Divides(g, a) && Divides(g, b)
    && forall d :: Divides(d, a) && Divides(d, b) ==> Divides(d, g)
  }

  /** The recursive form: a == 0 gives (b, 0, 1); otherwise recurse on
      (b % a, a) and rebuild the coefficients with the quotient b / a.  Both
      operations truncate, as `cpp_int` does, so the recursion shrinks |a|
      for inputs of any sign.  The result always satisfies Bezout's
      identity. */
  function ExtendedEuclid(a: int, b: int): (r: EuclidResult)
    ensures a * r.x + b * r.y == r.gcd
    ensures a == 0 ==> r == EuclidResult(b, 0, 1)
    decreases Abs(a)
  {
    if a == 0 then EuclidResult(b, 0, 1)
    else
      var rec := ExtendedEuclid(TMod(b, a), a);
      BezoutStep(a, b, rec.gcd, rec.x, rec.y);
      EuclidResult(rec.gcd, rec.y - TDiv(b, a) * rec.x, rec.x)
  }

  /** The coefficient update preserves Bezout's identity. */
  lemma BezoutStep(a: int, b: int, g: int, x1: int, y1: int)
    requires a != 0
    requires TMod(b, a) * x1 + a * y1 == g
    ensures a * (y1 - TDiv(b, a) * x1) + b * x1 == g
  {
    var q, t := TDiv(b, a), TMod(b, a);
    TDivModIdentity(b, a);
    assert b * x1 == (a * q) * x1 + t * x1;
    assert a * (y1 - q * x1) == a * y1 - (a * q) * x1;
  }

  /** The returned divisor divides both inputs. */
  lemma {:induction false} ExtendedEuclidDivides(a: int, b: int)
    ensures Divides(ExtendedEuclid(a, b).gcd, a)
    ensures Divides(ExtendedEuclid(a, b).gcd, b)
    decreases Abs(a)
  {
    var g := ExtendedEuclid(a, b).gcd;
    if a == 0 {
      MultipleDivides(b, 0);
      MultipleDivides(b, 1);
    } else {
      ExtendedEuclidDivides(TMod(b, a), a);
      TDivModIdentity(b, a);
      DividesCombination(g, a, TMod(b, a), TDiv(b, a), 1);
    }
  }

  /** The returned divisor is a greatest common divisor of the inputs, for
      inputs of any sign. */
  lemma ExtendedEuclidIsGcd(a: int, b: int)
    ensures IsGcd(ExtendedEuclid(a, b).gcd, a, b)
  {
    var r := ExtendedEuclid(a, b);
    ExtendedEuclidDivides(a, b);
    forall d | Divides(d, a) && Divides(d, b)
      ensures Divides(d, r.gcd)
    {
      DividesCombination(d, a, b, r.x, r.y);
    }
  }

  /** On non-negative inputs every value in the recursion is non-negative,
      so the divisor returned is non-negative too. */
  lemma {:induction false} ExtendedEuclidNonNegative(a: int, b: int)
    requires a >= 0 && b >= 0
    ensures ExtendedEuclid(a, b).gcd >= 0
    decreases a
  {
    if a != 0 {
      ExtendedEuclidNonNegative(TMod(b, a), a);
    }
  }

  /** On non-negative inputs, not both zero, the returned divisor is the
      greatest common divisor: positive, and no common divisor exceeds it. */
  lemma ExtendedEuclidGreatest(a: int, b: int)
    requires a >= 0 && b >= 0 && (a != 0 || b != 0)
    ensures ExtendedEuclid(a, b).gcd > 0
    ensures forall d :: Divides(d, a) && Divides(d, b) ==> d <= ExtendedEuclid(a, b).gcd
  {
    var g := ExtendedEuclid(a, b).gcd;
    ExtendedEuclidNonNegative(a, b);
    ExtendedEuclidIsGcd(a, b);
    assert g != 0;
    forall d | Divides(d, a) && Divides(d, b)
      ensures d <= g
    {
      DivisorBound(d, g);
    }
  }

  /** One level of the recursion, with the remainder and quotient supplied. */
  lemma EuclidStep(a: int, b: int, rec: EuclidResult, rem: int, quot: int)
    requires a != 0 && TMod(b, a) == rem && TDiv(b, a) == quot
    requires ExtendedEuclid(rem, a) == rec
    ensures ExtendedEuclid(a, b) == EuclidResult(rec.gcd, rec.y - quot * rec.x, rec.x)
  {
  }

  /** With a negative input the returned divisor can be negative: the
      magnitude is the greatest common divisor, the sign is whatever the
      truncating recursion leaves. */
  lemma ExtendedEuclidNegative()
    ensures ExtendedEuclid(-3, 6) == EuclidResult(-3, 1, 0)
    ensures ExtendedEuclid(6, -3) == EuclidResult(-3, 0, 1)
  {
    EuclidStep(-3, 6, EuclidResult(-3, 0, 1), 0, -2);
    EuclidStep(6, -3, EuclidResult(-3, 1, 0), -3, 0);
  }

  /** The call in the lab 1 demo: gcd(435, 150) = 15 = 435 * -1 + 150 * 3. */
  lemma ExtendedEuclidDemo()
    ensures ExtendedEuclid(435, 150) == EuclidResult(15, -1, 3)
  {
    // each level of the recursion, from the innermost call out
    EuclidStep(15, 135, EuclidResult(15, 0, 1), 0, 9);
    EuclidStep(135, 150, EuclidResult(15, 1, 0), 15, 1);
    EuclidStep(150, 435, EuclidResult(15, -1, 1), 135, 2);
    EuclidStep(435, 150, EuclidResult(15, 3, -1), 150, 0);
  }
}
