/** Karatsuba multiplication on decimal splits, `lab::karatsuba` and its
    helper `length` (lab1/Algorithms.cpp). */
module Karatsuba {
  import opened Arith

  /** Below this many characters the operands are multiplied directly. */
  const MinSize: nat := 10

  function Max(a: int, b: int): int {
    if a < b then b else a
  }

  /** The number of decimal digits of n (0 has one digit). */
  function DigitCount(n: nat): (r: nat)
    ensures r >= 1
  {
    if n < 10 then 1 else 1 + DigitCount(n / 10)
  }

  /** The length of v's decimal string, counting a leading '-' sign. */
  function Length(v: int): nat {
    if v < 0 then 1 + DigitCount(-v) else DigitCount(v)
  }

  /** A positive number with k digits lies in [10^(k-1), 10^k); 0 has one
      digit and lies below 10. */
  lemma {:induction false} DigitCountRange(n: nat)
    ensures n < Power(10, DigitCount(n))
    ensures n >= 1 ==> Power(10, DigitCount(n) - 1) <= n
  {
    if n >= 10 {
      DigitCountRange(n / 10);
      var k := DigitCount(n / 10);
      assert Power(10, k + 1) == 10 * Power(10, k);
      assert Power(10, k - 1) <= n / 10;
    }
  }

  /** Below 10^k a number has at most k digits. */
  lemma {:induction false} DigitCountBound(n: nat, k: nat)
    requires k >= 1 && n < Power(10, k)
    ensures DigitCount(n) <= k
  {
    if n >= 10 {
      assert Power(10, k) == 10 * Power(10, k - 1);
      if k > 1 {
        DigitCountBound(n / 10, k - 1);
      }
    }
  }

  /** A value of magnitude below 10^k takes at most k + 1 characters. */
  lemma LengthBound(w: int, k: nat)
    requires k >= 1 && Abs(w) < Power(10, k)
    ensures Length(w) <= k + 1
  {
    DigitCountBound(Abs(w), k);
  }

  /** a < b * c with b > 0 gives a / b < c. */
  lemma QuotientBound(a: nat, b: int, c: int)
    requires b > 0 && a < b * c
    ensures a / b < c
  {
  }

  /** Splitting an operand of at most n characters (n >= 10) at half = n / 2
      digits gives a high part, a low part and a sum of the two, each
      strictly shorter than n characters. */
  lemma SplitShrinks(v: int, n: nat, half: nat)
    requires Length(v) <= n && n >= MinSize && half == n / 2
    ensures Length(TDiv(v, Power(10, half))) < n
    ensures Length(TMod(v, Power(10, half))) < n
    ensures Length(TDiv(v, Power(10, half)) + TMod(v, Power(10, half))) < n
  {
    var b, c := Power(10, half), Power(10, n - half);
    DigitCountRange(Abs(v));
    PowerMonotone(10, DigitCount(Abs(v)), n);
    PowerAdd(10, half, n - half);
    PowerMonotone(10, half, n - half);
    var q, r := TDiv(v, b), TMod(v, b);
    TDivMagnitude(v, b);
    QuotientBound(Abs(v), b, c);
    assert Power(10, n - half + 1) == 10 * c;
    LengthBound(q, n - half + 1);
    LengthBound(r, n - half + 1);
    LengthBound(q + r, n - half + 1);
  }

  /** The three-product recombination equals the product of the operands. */
  lemma Recombine(lhs: int, rhs: int, b: int, ll: int, lr: int, rl: int, rr: int)
    requires lhs == b * ll + lr && rhs == b * rl + rr
    ensures (ll * rl) * (b * b) + ((ll + lr) * (rl + rr) - ll * rl - lr * rr) * b + lr * rr
            == lhs * rhs
  {
    assert (ll + lr) * (rl + rr) - ll * rl - lr * rr == ll * rr + lr * rl;
    assert lhs * rhs == (b * ll) * (b * rl) + (b * ll) * rr + lr * (b * rl) + lr * rr;
    assert (b * ll) * (b * rl) == (ll * rl) * (b * b);
    assert (b * ll) * rr + lr * (b * rl) == (ll * rr + lr * rl) * b;
  }

  /** The product of the operands: directly when both are shorter than
      `MinSize` characters, and otherwise from three recursive products of
      the halves split at 10^half. */
  function Karatsuba(lhs: int, rhs: int): (r: int)
    ensures r == lhs * rhs
    decreases Max(Length(lhs), Length(rhs))
  {
    var n := Max(Length(lhs), Length(rhs));
    if n < MinSize then lhs * rhs
    else
      var half := n / 2;
      var tenEHalf := Power(10, half);
      var lhsLeft, lhsRight := TDiv(lhs, tenEHalf), TMod(lhs, tenEHalf);
      var rhsLeft, rhsRight := TDiv(rhs, tenEHalf), TMod(rhs, tenEHalf);
      SplitShrinks(lhs, n, half);
      SplitShrinks(rhs, n, half);
      var p0 := Karatsuba(lhsLeft, rhsLeft);
      var p1 := Karatsuba(lhsRight, rhsRight);
      var p2 := Karatsuba(lhsLeft + lhsRight, rhsLeft + rhsRight);
      TDivModIdentity(lhs, tenEHalf);
      TDivModIdentity(rhs, tenEHalf);
      PowerAdd(10, half, half);
      Recombine(lhs, rhs, tenEHalf, lhsLeft, lhsRight, rhsLeft, rhsRight);
      p0 * Power(10, half * 2) + (p2 - p0 - p1) * tenEHalf + p1
  }

  /** The twenty-digit product of the lab 1 demo. */
  lemma KaratsubaDemo()
    ensures Karatsuba(12345634344789123144, 43219876543343442186)
            == 533576792231046609299835065353598552784
  {
  }
}
