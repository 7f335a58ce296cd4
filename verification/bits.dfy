/** Unsigned 32-bit words and bitwise exclusive or, written over the
    integers: a word is a number in [0, 2^32), a right shift by k bits is a
    division by 2^k, and the k low bits are the remainder modulo 2^k. */
module Bits {
  import opened Arith

  const WordModulus: nat := 0x1_0000_0000

  /** An unsigned 32-bit word. */
  type Word = w: int | 0 <= w < WordModulus

  lemma WordModulusIsPower()
    ensures Power(2, 32) == WordModulus
  {
    assert Power(2, 4) == 16;
    PowerAdd(2, 4, 4);
    PowerAdd(2, 8, 8);
    PowerAdd(2, 16, 16);
  }

  /** Bitwise exclusive or of two naturals, lowest bit first. */
  function Xor(a: nat, b: nat): nat
    decreases a + b
  {
    if a == 0 && b == 0 then 0
    else 2 * Xor(a / 2, b / 2) + (if a % 2 == b % 2 then 0 else 1)
  }

  /** `^` on two unsigned 32-bit words. */
  function Xor32(a: Word, b: Word): Word {
    XorWord(a, b);
    Xor(a, b)
  }

  /** The lowest bit of the result is set when the operands' lowest bits
      differ, and the remaining bits are the exclusive or of the remaining
      bits. */
  lemma XorBit(a: nat, b: nat)
    ensures Xor(a, b) % 2 == (if a % 2 == b % 2 then 0 else 1)
    ensures Xor(a, b) / 2 == Xor(a / 2, b / 2)
  {
    var x, r := Xor(a / 2, b / 2), (if a % 2 == b % 2 then 0 else 1);
    if a == 0 && b == 0 {
      assert x == 0;
    } else {
      assert Xor(a, b) == x * 2 + r;
      DivisionUnique(Xor(a, b), 2, x, r);
    }
  }

  /** Zero is the identity of exclusive or. */
  lemma {:induction false} XorZero(a: nat)
    ensures Xor(a, 0) == a && Xor(0, a) == a
  {
    if a != 0 {
      XorZero(a / 2);
    }
  }

  /** Every value is its own inverse. */
  lemma {:induction false} XorSelf(a: nat)
    ensures Xor(a, a) == 0
  {
    if a != 0 {
      XorSelf(a / 2);
    }
  }

  lemma {:induction false} XorCommutative(a: nat, b: nat)
    ensures Xor(a, b) == Xor(b, a)
    decreases a + b
  {
    if a != 0 || b != 0 {
      XorCommutative(a / 2, b / 2);
    }
  }

  /** A number is determined by its lowest bit and the rest. */
  lemma SameBits(x: nat, y: nat)
    requires x % 2 == y % 2 && x / 2 == y / 2
    ensures x == y
  {
    assert x == 2 * (x / 2) + x % 2;
    assert y == 2 * (y / 2) + y % 2;
  }

  lemma {:induction false} XorAssociative(a: nat, b: nat, c: nat)
    ensures Xor(Xor(a, b), c) == Xor(a, Xor(b, c))
    decreases a + b + c
  {
    if a != 0 || b != 0 || c != 0 {
      XorAssociative(a / 2, b / 2, c / 2);
      var ab, bc := Xor(a, b), Xor(b, c);
      XorBit(a, b);
      XorBit(b, c);
      XorBit(ab, c);
      XorBit(a, bc);
      SameBits(Xor(ab, c), Xor(a, bc));
    }
  }

  /** The exclusive or of two n-bit values has at most n bits. */
  lemma {:induction false} XorBound(a: nat, b: nat, n: nat)
    requires a < Power(2, n) && b < Power(2, n)
    ensures Xor(a, b) < Power(2, n)
    decreases n
  {
    if n > 0 && (a != 0 || b != 0) {
      XorBound(a / 2, b / 2, n - 1);
    }
  }

  /** Two words combine into a word. */
  lemma XorWord(a: Word, b: Word)
    ensures Xor(a, b) < WordModulus
  {
    WordModulusIsPower();
    XorBound(a, b, 32);
  }

  /** Reducing modulo 2p is reducing the half modulo p and putting the low
      bit back; dividing by 2p is halving, then dividing by p. */
  lemma HalveModulus(x: nat, p: nat)
    requires p > 0
    ensures x % (2 * p) == 2 * ((x / 2) % p) + x % 2
    ensures x / (2 * p) == (x / 2) / p
    ensures (x % (2 * p)) % 2 == x % 2 && (x % (2 * p)) / 2 == (x / 2) % p
  {
    var h := x / 2;
    var q, r := h / p, h % p;
    assert h == q * p + r;
    assert x == 2 * h + x % 2;
    assert x == q * (2 * p) + (2 * r + x % 2);
    assert 0 <= 2 * r + x % 2 < 2 * p;
    DivisionUnique(x, 2 * p, q, 2 * r + x % 2);
  }

  /** The n low bits of an exclusive or depend only on the operands' n low
      bits. */
  lemma {:induction false} XorLow(a: nat, b: nat, n: nat)
    ensures Xor(a, b) % Power(2, n) == Xor(a % Power(2, n), b % Power(2, n))
  {
    if n > 0 {
      var p := Power(2, n - 1);
      assert Power(2, n) == 2 * p;
      XorLow(a / 2, b / 2, n - 1);
      HalveModulus(a, p);
      HalveModulus(b, p);
      var x := Xor(a, b);
      HalveModulus(x, p);
      XorBit(a, b);
      var y := Xor(a % (2 * p), b % (2 * p));
      XorBit(a % (2 * p), b % (2 * p));
      assert (x % (2 * p)) / 2 == y / 2;
      SameBits(x % (2 * p), y);
    }
  }

  /** Operands that agree in their n low bits give exclusive ors with a
      common value that agree there too. */
  lemma XorLowAgree(a: nat, x: nat, y: nat, n: nat)
    requires x % Power(2, n) == y % Power(2, n)
    ensures Xor(a, x) % Power(2, n) == Xor(a, y) % Power(2, n)
  {
    XorLow(a, x, n);
    XorLow(a, y, n);
  }

  /** Dividing by 2p is dividing by p, then halving. */
  lemma ShiftTwice(x: nat, p: int)
    requires p > 0
    ensures x / (2 * p) == (x / p) / 2
  {
    var q, r := x / p, x % p;
    var q2, r2 := q / 2, q % 2;
    assert x == q * p + r;
    assert q == 2 * q2 + r2;
    assert x == q2 * (2 * p) + (r2 * p + r);
    assert 0 <= r2 * p + r < 2 * p;
    DivisionUnique(x, 2 * p, q2, r2 * p + r);
  }

  /** Shifting an exclusive or right by n bits shifts both operands. */
  lemma {:induction false} XorHigh(a: nat, b: nat, n: nat)
    ensures Xor(a, b) / Power(2, n) == Xor(a / Power(2, n), b / Power(2, n))
    decreases n
  {
    if n > 0 {
      var p := Power(2, n - 1);
      assert Power(2, n) == 2 * p;
      QuotientNonNegative(a, p);
      QuotientNonNegative(b, p);
      var x, ap, bp := Xor(a, b), a / p, b / p;
      XorHigh(a, b, n - 1);
      assert x / p == Xor(ap, bp);
      XorBit(ap, bp);
      assert Xor(ap, bp) / 2 == Xor(ap / 2, bp / 2);
      ShiftTwice(x, p);
      ShiftTwice(a, p);
      ShiftTwice(b, p);
      assert x / (2 * p) == Xor(ap / 2, bp / 2);
      assert a / (2 * p) == ap / 2 && b / (2 * p) == bp / 2;
    }
  }

  /** When the bits of a lie below bit n and those of b from bit n up, the
      exclusive or is the sum. */
  lemma {:induction false} XorDisjoint(a: nat, b: nat, n: nat)
    requires a < Power(2, n) && b % Power(2, n) == 0
    ensures Xor(a, b) == a + b
  {
    if n == 0 {
      XorZero(b);
    } else {
      var p := Power(2, n - 1);
      HalveModulus(b, p);
      XorDisjoint(a / 2, b / 2, n - 1);
      XorBit(a, b);
      var x := Xor(a, b);
      assert x == 2 * (x / 2) + x % 2;
    }
  }
}
