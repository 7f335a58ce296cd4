/** Integer helpers shared by the number-theory routines.

    The source computes on arbitrary-precision `cpp_int` values whose `/` and
    `%` truncate toward zero; Dafny's `/` and `%` are Euclidean.  `TDiv` and
    `TMod` spell out the truncating pair, and `Divides` gives an independent
    notion of divisibility used by the specifications. */
module Arith {

  function Abs(x: int): (r: nat)
    ensures r == x || r == -x
  {
    if x < 0 then -x else x
  }

  /** x raised to the n-th power, by repeated multiplication. */
  function Power(x: int, n: nat): (r: int)
    ensures x > 0 ==> r > 0
  {
    if n == 0 then 1 else x * Power(x, n - 1)
  }

  /** Division truncating toward zero, as `cpp_int` (and C++) defines it. */
  function TDiv(a: int, b: int): int
    requires b != 0
  {
    var q := Abs(a) / Abs(b);
    if (a < 0) == (b < 0) then q else -q
  }

  /** Remainder of `TDiv`: it takes the sign of the dividend. */
  function TMod(a: int, b: int): (r: int)
    requires b != 0
    ensures Abs(r) < Abs(b)
    ensures a >= 0 ==> r >= 0
    ensures a <= 0 ==> r <= 0
  {
    var m := Abs(a) % Abs(b);
    if a < 0 then -m else m
  }

  /** The truncating pair reconstructs the dividend. */
  lemma TDivModIdentity(a: int, b: int)
    requires b != 0
    ensures a == b * TDiv(a, b) + TMod(a, b)
  {
    var q := Abs(a) / Abs(b);
    var m := Abs(a) % Abs(b);
    assert Abs(a) == Abs(b) * q + m;
    if a < 0 && b < 0 {
      assert b * TDiv(a, b) == -(Abs(b) * q);
    } else if a < 0 {
      assert b * TDiv(a, b) == -(Abs(b) * q);
    } else if b < 0 {
      assert b * TDiv(a, b) == Abs(b) * q;
    }
  }

  /** On a non-negative dividend and a positive divisor the truncating and
      the Euclidean operations agree. */
  lemma TruncatingIsEuclideanWhenNonNegative(a: int, b: int)
    requires a >= 0 && b > 0
    ensures TDiv(a, b) == a / b && TMod(a, b) == a % b
  {
  }

  /** The quotient's magnitude is the quotient of the magnitudes. */
  lemma TDivMagnitude(a: int, b: int)
    requires b != 0
    ensures Abs(TDiv(a, b)) == Abs(a) / Abs(b)
  {
  }

  /** d divides n (every integer divides 0, and 0 divides only 0). */
  predicate Divides(d: int, n: int) {
    if d == 0 then n == 0 else n % d == 0
  }

  /** A multiple of m smaller in magnitude than m is zero. */
  lemma SmallMultipleIsZero(m: int, j: int)
    requires m != 0
    requires Abs(m * j) < Abs(m)
    ensures j == 0
  {
  }

  /** Division of an exact multiple recovers the factor. */
  lemma MultipleDivides(d: int, k: int)
    ensures Divides(d, d * k)
  {
    if d != 0 {
      var n := d * k;
      assert n == d * (n / d) + n % d;
      assert d * (k - n / d) == n % d;
      SmallMultipleIsZero(d, k - n / d);
    }
  }

  /** Common divisors divide every integer combination. */
  lemma DividesCombination(d: int, a: int, b: int, x: int, y: int)
    requires Divides(d, a) && Divides(d, b)
    ensures Divides(d, a * x + b * y)
  {
    if d != 0 {
      var ka, kb := a / d, b / d;
      assert a == d * ka && b == d * kb;
      calc {
        a * x + b * y;
        (d * ka) * x + (d * kb) * y;
        { assert (d * ka) * x == d * (ka * x); assert (d * kb) * y == d * (kb * y); }
        d * (ka * x) + d * (kb * y);
        d * (ka * x + kb * y);
      }
      MultipleDivides(d, ka * x + kb * y);
    }
  }

  /** m divides a - b: a and b agree modulo m. */
  predicate Congruent(a: int, b: int, m: int) {
    Divides(m, a - b)
  }

  lemma CongruentTransitive(a: int, b: int, c: int, m: int)
    requires Congruent(a, b, m) && Congruent(b, c, m)
    ensures Congruent(a, c, m)
  {
    DividesCombination(m, a - b, b - c, 1, 1);
  }

  /** Congruence is preserved by multiplication. */
  lemma CongruentMul(a: int, b: int, c: int, d: int, m: int)
    requires Congruent(a, b, m) && Congruent(c, d, m)
    ensures Congruent(a * c, b * d, m)
  {
    assert a * c - b * d == (a - b) * c + (c - d) * b;
    DividesCombination(m, a - b, c - d, c, b);
  }

  /** A truncating remainder is congruent to its dividend. */
  lemma TModCongruent(a: int, m: int)
    requires m != 0
    ensures Congruent(TMod(a, m), a, m)
  {
    TDivModIdentity(a, m);
    assert TMod(a, m) - a == m * -TDiv(a, m);
    MultipleDivides(m, -TDiv(a, m));
  }

  /** The least non-negative residue is the only one in [0, m). */
  lemma CongruentResidue(r: int, a: int, m: int)
    requires m > 0 && 0 <= r < m
    requires Congruent(r, a, m)
    ensures r == a % m
  {
    var k, q := (r - a) / m, a / m;
    assert r - a == m * k;
    assert a == m * q + a % m;
    assert r - a % m == m * k + m * q;
    assert m * (k + q) == r - a % m;
    SmallMultipleIsZero(m, k + q);
  }

  lemma MulAssociative(x: int, a: int, b: int)
    ensures x * (a * b) == (x * a) * b
  {
  }

  lemma {:induction false} PowerAdd(x: int, i: nat, j: nat)
    ensures Power(x, i + j) == Power(x, i) * Power(x, j)
  {
    if i > 0 {
      PowerAdd(x, i - 1, j);
      var a, b := Power(x, i - 1), Power(x, j);
      assert Power(x, i + j) == x * Power(x, (i - 1) + j);
      MulAssociative(x, a, b);
    }
  }

  lemma {:induction false} PowerMonotone(x: int, i: nat, j: nat)
    requires x > 0 && i <= j
    ensures Power(x, i) <= Power(x, j)
    decreases j
  {
    if i < j {
      PowerMonotone(x, i, j - 1);
      var p := Power(x, j - 1);
      assert Power(x, j) == x * p == p + (x - 1) * p;
      assert (x - 1) * p >= 0;
    }
  }

  /** A natural divided by a positive number is a natural. */
  lemma QuotientNonNegative(x: nat, d: int)
    requires d > 0
    ensures x / d >= 0
  {
  }

  /** Quotient and remainder are the only pair with x == q * d + r and
      0 <= r < d. */
  lemma DivisionUnique(x: int, d: int, q: int, r: int)
    requires d > 0 && x == q * d + r && 0 <= r < d
    ensures x / d == q && x % d == r
  {
    var q', r' := x / d, x % d;
    assert x == q' * d + r';
    assert (q - q') * d == r' - r;
    assert Abs((q - q') * d) < Abs(d);
    assert d * (q - q') == (q - q') * d;
    SmallMultipleIsZero(d, q - q');
  }

  /** A non-negative value below the divisor is its own remainder. */
  lemma TModSmall(a: int, b: int)
    requires 0 <= a < b
    ensures TMod(a, b) == a
  {
    DivisionUnique(a, b, 0, a);
  }

  /** Reducing modulo a multiple of m first does not change the remainder
      modulo m. */
  lemma ModOfMultipleModulus(x: int, m: int, k: int)
    requires m > 0 && k > 0
    ensures (x % (m * k)) % m == x % m
  {
    var q := x / (m * k);
    var r := x % (m * k);
    assert x == (m * k) * q + r;
    assert x == m * (k * q) + r;
    var r2 := r % m;
    assert r == m * (r / m) + r2;
    assert x == m * (k * q + r / m) + r2;
    DivisionUnique(x, m, k * q + r / m, r2);
  }

  /** Doubling either factor doubles the product. */
  lemma DoubleFactor(p: int, t: int)
    ensures (2 * p) * t == p * t + p * t
    ensures p * (2 * t) == (2 * p) * t
  {
  }

  /** A positive number's divisors are no larger than it. */
  lemma DivisorBound(d: int, n: int)
    requires n > 0 && Divides(d, n)
    ensures d <= n
  {
    if d > 0 {
      var k := n / d;
      assert n == d * k;
      assert k >= 1;
      assert d * k == d + d * (k - 1);
      assert d * (k - 1) >= 0;
    }
  }
}
