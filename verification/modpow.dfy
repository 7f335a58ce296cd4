/** Modular exponentiation, `lab::pow` (lab1/Algorithms.cpp). */
module ModExp {
  import opened Arith

  /** The square of a value. */
  function Square(v: int): (r: int)
    ensures r >= 0
  {
    v * v
  }

  /** Recursive square-and-multiply.  A zero base yields 0 before the degree
      is looked at, and a zero degree yields 1 without reducing by `m`.  The
      halving of the degree, its parity test and the remainders are those
      of `cpp_int`, which truncate toward zero: a negative base can produce
      a negative result, a negative degree recurses like its magnitude, and
      a negative modulus acts like its magnitude.  A zero modulus makes
      `cpp_int` throw, and is excluded. */
  function ModPow(x: int, degree: int, m: int): (r: int)
    requires m != 0
    ensures x >= 0 ==> r >= 0
    ensures x != 0 && degree != 0 ==> Abs(r) < Abs(m)
    decreases Abs(degree)
  {
    if x == 0 then 0
    else if degree == 0 then 1
    else
      var almost := TMod(Square(ModPow(x, TDiv(degree, 2), m)), m);
      if TMod(degree, 2) == 0 then almost else TMod(almost * x, m)
  }

  /** A negative degree gives the same result as its magnitude: truncating
      halving and the truncating parity test are symmetric in the sign. */
  lemma {:induction false} ModPowNegativeDegree(x: int, degree: int, m: int)
    requires m != 0
    ensures ModPow(x, -degree, m) == ModPow(x, degree, m)
    decreases Abs(degree)
  {
    if x != 0 && degree != 0 {
      assert TDiv(-degree, 2) == -TDiv(degree, 2);
      assert TMod(-degree, 2) == -TMod(degree, 2);
      ModPowNegativeDegree(x, TDiv(degree, 2), m);
    }
  }

  /** A negative modulus gives the same result as its magnitude, since a
      truncating remainder ignores the divisor's sign. */
  lemma {:induction false} ModPowNegativeModulus(x: int, degree: int, m: int)
    requires m != 0
    ensures ModPow(x, degree, -m) == ModPow(x, degree, m)
    decreases Abs(degree)
  {
    if x != 0 && degree != 0 {
      ModPowNegativeModulus(x, TDiv(degree, 2), m);
      var half := ModPow(x, TDiv(degree, 2), m);
      assert TMod(Square(half), -m) == TMod(Square(half), m);
      var almost := TMod(Square(half), m);
      assert TMod(almost * x, -m) == TMod(almost * x, m);
    }
  }

  /** The result agrees with x^degree modulo m, whatever the sign of x,
      except for 0^0, which the routine maps to 0. */
  lemma {:induction false} ModPowCongruent(x: int, degree: nat, m: int)
    requires m > 0
    requires x != 0 || degree > 0
    ensures Congruent(ModPow(x, degree, m), Power(x, degree), m)
    decreases degree
  {
    if x == 0 {
      assert Power(x, degree) == 0;
    } else if degree > 0 {
      var h := degree / 2;
      var half := ModPow(x, h, m);
      var ph := Power(x, h);
      var almost := TMod(half * half, m);
      ModPowCongruent(x, h, m);
      CongruentMul(half, ph, half, ph, m);
      TModCongruent(half * half, m);
      CongruentTransitive(almost, half * half, ph * ph, m);
      PowerAdd(x, h, h);
      if degree % 2 == 1 {
        assert Power(x, 1) == x;
        PowerAdd(x, h + h, 1);
        assert Congruent(x, x, m);
        CongruentMul(almost, ph * ph, x, x, m);
        TModCongruent(almost * x, m);
        CongruentTransitive(TMod(almost * x, m), almost * x, ph * ph * x, m);
      }
    }
  }

  /** For a non-negative base and a positive degree the result is exactly
      the least non-negative residue of x^degree. */
  lemma ModPowExact(x: int, degree: nat, m: int)
    requires m > 0 && x >= 0 && degree > 0
    ensures ModPow(x, degree, m) == Power(x, degree) % m
  {
    ModPowCongruent(x, degree, m);
    if x == 0 {
      assert Power(x, degree) == 0;
    } else {
      CongruentResidue(ModPow(x, degree, m), Power(x, degree), m);
    }
  }

  /** The two early returns: a zero base wins over a zero degree, and a
      zero degree gives 1 even when m == 1. */
  lemma ModPowEdgeCases(x: int, degree: int, m: int)
    requires m != 0
    ensures ModPow(0, degree, m) == 0
    ensures x != 0 ==> ModPow(x, 0, m) == 1
  {
  }

  /** One level of the recursion for a non-zero base and a positive
      degree, with the degree halved and tested as a natural number. */
  lemma ModPowUnfold(x: int, degree: nat, m: int)
    requires m > 0 && x != 0 && degree > 0
    ensures ModPow(x, degree, m)
            == var almost := TMod(Square(ModPow(x, degree / 2, m)), m);
               if degree % 2 == 0 then almost else TMod(almost * x, m)
  {
    TruncatingIsEuclideanWhenNonNegative(degree, 2);
  }

  /** One level of the recursion for an even degree and a positive base,
      with the remainders written as Euclidean ones. */
  lemma ModPowEvenStep(x: int, degree: nat, m: int, half: int, r: int)
    requires m > 0 && x > 0 && degree > 0 && degree % 2 == 0
    requires ModPow(x, degree / 2, m) == half
    requires r == half * half % m
    ensures ModPow(x, degree, m) == r
  {
    ModPowUnfold(x, degree, m);
    TruncatingIsEuclideanWhenNonNegative(half * half, m);
  }

  /** One level of the recursion for an odd degree and a positive base. */
  lemma ModPowOddStep(x: int, degree: nat, m: int, half: int, sq: int, r: int)
    requires m > 0 && x > 0 && degree % 2 == 1
    requires ModPow(x, degree / 2, m) == half
    requires sq == half * half % m && r == sq * x % m
    ensures ModPow(x, degree, m) == r
  {
    ModPowUnfold(x, degree, m);
    OddStepResidue(half, x, m, sq, r);
  }

  /** The arithmetic of an odd step: with non-negative operands the
      truncating remainders are the Euclidean ones. */
  lemma OddStepResidue(half: int, x: int, m: int, sq: int, r: int)
    requires m > 0 && x > 0 && half >= 0
    requires sq == half * half % m && r == sq * x % m
    ensures TMod(TMod(Square(half), m) * x, m) == r
  {
    TruncatingIsEuclideanWhenNonNegative(half * half, m);
    TruncatingIsEuclideanWhenNonNegative(sq * x, m);
  }

  /** The value printed by the lab 1 demo. */
  lemma ModPowDemo()
    ensures ModPow(234, 6565, 4543) == 430
  {
    // each level of the recursion, from the innermost call out
    ModPowOddStep(234, 1, 4543, 1, 1, 234);
    ModPowOddStep(234, 3, 4543, 234, 240, 1644);
    ModPowEvenStep(234, 6, 4543, 1644, 4194);
    ModPowEvenStep(234, 12, 4543, 4194, 3683);
    ModPowOddStep(234, 25, 4543, 3683, 3634, 815);
    ModPowOddStep(234, 51, 4543, 815, 947, 3534);
    ModPowEvenStep(234, 102, 4543, 3534, 449);
    ModPowOddStep(234, 205, 4543, 449, 1709, 122);
    ModPowEvenStep(234, 410, 4543, 122, 1255);
    ModPowEvenStep(234, 820, 4543, 1255, 3147);
    ModPowOddStep(234, 1641, 4543, 3147, 4412, 1147);
    ModPowEvenStep(234, 3282, 4543, 1147, 2682);
    ModPowOddStep(234, 6565, 4543, 2682, 1555, 430);
  }
}
