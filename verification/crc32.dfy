/** Table-driven CRC-32, class `CRC32` (lab3/main.cpp): the reflected
    CRC-32 of IEEE 802.3 (generator 0x04C11DB7, processed bit-reversed as
    0xEDB88320), with initial value and final exclusive or 0xFFFFFFFF.

    The bit-serial definition of the checksum is the reference: each
    message byte is combined into the low bits of the register, which then
    takes eight single-bit steps.  The table-driven `Calculate` is proved
    equal to it. */
module Crc32 {
  import opened Arith
  import opened Bits

  /** The generator 0x04C11DB7 with its 32 bits reversed. */
  const ReversedPolynomial: Word := 0xEDB8_8320

  const InitialValue: Word := 0xFFFF_FFFF
  const FinalXor: Word := 0xFFFF_FFFF

  /** A byte value. */
  type Byte = b: int | 0 <= b < 256

  /** A `char` of the input, signed or unsigned: the source leaves it to the
      platform, and only the low eight bits are used. */
  type Char = c: int | -128 <= c < 256

  // ------------------------------------------------------------ bit-serial

  /** One step of the reflected register: shift right by one bit and, when
      the bit shifted out was set, add the reversed polynomial. */
  function BitStep(c: Word): Word {
    if c % 2 == 1 then Xor32(c / 2, ReversedPolynomial) else c / 2
  }

  /** n single-bit steps. */
  function BitSteps(c: Word, n: nat): Word
    decreases n
  {
    if n == 0 then c else BitSteps(BitStep(c), n - 1)
  }

  /** The last of n + 1 steps follows the first n. */
  lemma {:induction false} BitStepsSnoc(c: Word, n: nat)
    ensures BitSteps(c, n + 1) == BitStep(BitSteps(c, n))
    decreases n
  {
    if n > 0 {
      BitStepsSnoc(BitStep(c), n - 1);
    }
  }

  /** A register of zeros stays zero. */
  lemma {:induction false} BitStepsZero(n: nat)
    ensures BitSteps(0, n) == 0
  {
    if n > 0 {
      BitStepsZero(n - 1);
    }
  }

  /** Xor(x, y) rearranged with one more operand: used to move the
      polynomial across. */
  lemma XorSwapMiddle(x: nat, y: nat, p: nat)
    ensures Xor(Xor(x, y), p) == Xor(Xor(x, p), y)
  {
    XorAssociative(x, y, p);
    XorCommutative(y, p);
    XorAssociative(x, p, y);
  }

  /** Two additions of the polynomial cancel. */
  lemma XorCancelPair(x: nat, y: nat, p: nat)
    ensures Xor(Xor(x, p), Xor(y, p)) == Xor(x, y)
  {
    XorAssociative(x, p, Xor(y, p));
    XorCommutative(y, p);
    XorAssociative(p, p, y);
    XorSelf(p);
    XorZero(y);
  }

  /** A single step is linear over exclusive or. */
  lemma StepLinear(x: Word, y: Word)
    ensures Xor(x, y) < WordModulus
    ensures BitStep(Xor(x, y)) == Xor(BitStep(x), BitStep(y))
  {
    XorWord(x, y);
    XorBit(x, y);
    var p := ReversedPolynomial;
    if x % 2 == 1 && y % 2 == 0 {
      XorSwapMiddle(x / 2, y / 2, p);
    } else if x % 2 == 0 && y % 2 == 1 {
      XorAssociative(x / 2, y / 2, p);
    } else if x % 2 == 1 && y % 2 == 1 {
      XorCancelPair(x / 2, y / 2, p);
    }
  }

  /** So are n steps. */
  lemma {:induction false} StepsLinear(x: Word, y: Word, n: nat)
    ensures Xor(x, y) < WordModulus
    ensures BitSteps(Xor(x, y), n) == Xor(BitSteps(x, n), BitSteps(y, n))
    decreases n
  {
    StepLinear(x, y);
    if n > 0 {
      StepsLinear(BitStep(x), BitStep(y), n - 1);
    }
  }

  /** On a register whose n low bits are clear, n steps never shift out a
      set bit: they are a plain shift right by n. */
  lemma {:induction false} StepsOfClearLowBits(h: Word, n: nat)
    requires h % Power(2, n) == 0
    ensures BitSteps(h, n) == h / Power(2, n)
  {
    if n > 0 {
      var p := Power(2, n - 1);
      HalveModulus(h, p);
      StepsOfClearLowBits(h / 2, n - 1);
    }
  }

  /** n steps split into the steps of the n low bits lo, which the table
      holds for n = 8, and the rest shifted right by n. */
  lemma SplitSteps(x: Word, n: nat, lo: Word, rest: nat)
    requires lo == x % Power(2, n) && rest == x / Power(2, n)
    ensures BitSteps(x, n) == Xor(BitSteps(lo, n), rest)
  {
    var p := Power(2, n);
    var hi := (x / p) * p;
    assert x == hi + lo;
    assert hi % p == 0 && hi / p == x / p by {
      MultipleDivides(p, x / p);
      assert hi == p * (x / p);
    }
    XorDisjoint(lo, hi, n);
    XorCommutative(lo, hi);
    StepsLinear(lo, hi, n);
    StepsOfClearLowBits(hi, n);
  }

  /** The register after each byte of the message, bit by bit, from
      register c. */
  function RunBits(c: Word, bytes: seq<Byte>): Word
    decreases |bytes|
  {
    if |bytes| == 0 then c
    else
      RunBits(BitSteps(Xor32(c, bytes[0]), 8), bytes[1..])
  }

  /** The checksum of a message by its bit-serial definition. */
  function Crc32Reference(bytes: seq<Byte>): Word {
    Xor32(RunBits(InitialValue, bytes), FinalXor)
  }

  // ---------------------------------------------------------------- table

  /** The table: entry i is the register i after eight steps. */
  predicate IsTable(table: seq<Word>) {
    |table| == 256 && forall i :: 0 <= i < 256 ==> table[i] == BitSteps(i, 8)
  }

  /** The constructor: for every i below 256, eight reflected steps from
      i.  The divisor argument is never read; the table depends only on the
      built-in polynomial. */
  method BuildTable(divisor: Word) returns (table: seq<Word>)
    ensures IsTable(table)
    ensures table[0] == 0
  {
    table := [];
    var i := 0;
    while i < 256
      invariant 0 <= i <= 256 && |table| == i
      invariant forall k :: 0 <= k < i ==> table[k] == BitSteps(k, 8)
    {
      var crc: Word := i;
      var j := 0;
      while j < 8
        invariant 0 <= j <= 8
        invariant crc == BitSteps(i, j)
      {
        crc := if crc % 2 == 1 then Xor32(crc / 2, ReversedPolynomial) else crc / 2;
        BitStepsSnoc(i, j);
        j := j + 1;
      }
      table := table + [crc];
      i := i + 1;
    }
    BitStepsZero(8);
  }

  // ------------------------------------------------------------ calculate

  /** The conversion of a `char` to `uint32_t` for the exclusive or: sign
      extension, that is, the value modulo 2^32. */
  function CharWord(c: Char): Word {
    c % WordModulus
  }

  /** The byte a `char` stands for: its low eight bits. */
  function CharByte(c: Char): Byte {
    c % 256
  }

  /** One step of `calculate`: `_table[(crc ^ byte) & 0xFF] ^ (crc >> 8)`. */
  function Update(table: seq<Word>, crc: Word, c: Char): Word
    requires IsTable(table)
  {
    var index := Xor32(crc, CharWord(c)) % 256;
    Xor32(table[index], crc / 256)
  }

  lemma ByteModulus()
    ensures Power(2, 8) == 256
  {
  }

  /** A `char` and the byte it stands for agree in the low eight bits. */
  lemma CharLowByte(c: Char)
    ensures CharWord(c) % 256 == CharByte(c)
  {
    ModOfMultipleModulus(c, 256, 0x100_0000);
  }

  /** The table index is the low byte of the register combined with the
      character's byte. */
  lemma UpdateIndex(crc: Word, c: Char)
    ensures Xor(crc, CharWord(c)) % 256 == Xor(crc, CharByte(c)) % 256
  {
    CharLowByte(c);
    ByteModulus();
    XorLowAgree(crc, CharWord(c), CharByte(c), 8);
  }

  /** A byte does not reach the register's bits above the low eight. */
  lemma UpdateShift(crc: Word, c: Char)
    ensures Xor(crc, CharByte(c)) / 256 == crc / 256
  {
    ByteModulus();
    XorHigh(crc, CharByte(c), 8);
    XorZero(crc / 256);
  }

  /** The table lookup does the work of eight bit steps on the register
      combined with the character's byte; the bits of the `char` above the
      low byte play no part. */
  lemma UpdateIsBitSerial(table: seq<Word>, crc: Word, c: Char)
    requires IsTable(table)
    ensures Xor(crc, CharByte(c)) < WordModulus
    ensures Update(table, crc, c) == BitSteps(Xor(crc, CharByte(c)), 8)
  {
    XorWord(crc, CharWord(c));
    XorWord(crc, CharByte(c));
    UpdateIndex(crc, c);
    UpdateShift(crc, c);
    ByteModulus();
    var x := Xor(crc, CharByte(c));
    SplitSteps(x, 8, x % 256, x / 256);
  }

  /** The register after each character of s, table-driven, from register
      crc. */
  function Run(table: seq<Word>, crc: Word, s: seq<Char>): Word
    requires IsTable(table)
    decreases |s|
  {
    if |s| == 0 then crc else Run(table, Update(table, crc, s[0]), s[1..])
  }

  /** The bytes the characters stand for. */
  function Bytes(s: seq<Char>): (r: seq<Byte>)
    ensures |r| == |s|
  {
    if |s| == 0 then [] else [CharByte(s[0])] + Bytes(s[1..])
  }

  /** The table-driven register agrees with the bit-serial one, from any
      starting value. */
  lemma {:induction false} RunIsBitSerial(table: seq<Word>, crc: Word, s: seq<Char>)
    requires IsTable(table)
    ensures Run(table, crc, s) == RunBits(crc, Bytes(s))
    decreases |s|
  {
    if |s| > 0 {
      UpdateIsBitSerial(table, crc, s[0]);
      RunIsBitSerial(table, Update(table, crc, s[0]), s[1..]);
      assert Bytes(s)[0] == CharByte(s[0]) && Bytes(s)[1..] == Bytes(s[1..]);
    }
  }

  /** Processing a concatenation is processing the second part from the
      register the first part leaves. */
  lemma {:induction false} RunConcat(table: seq<Word>, crc: Word, s1: seq<Char>, s2: seq<Char>)
    requires IsTable(table)
    ensures Run(table, crc, s1 + s2) == Run(table, Run(table, crc, s1), s2)
    decreases |s1|
  {
    if |s1| > 0 {
      var u := Update(table, crc, s1[0]);
      assert (s1 + s2)[0] == s1[0] && (s1 + s2)[1..] == s1[1..] + s2;
      assert Run(table, crc, s1 + s2) == Run(table, u, s1[1..] + s2);
      RunConcat(table, u, s1[1..], s2);
    } else {
      assert s1 + s2 == s2;
    }
  }

  /** `calculate`: start from 0xFFFFFFFF, fold every character in through
      the table, and return the register xor 0xFFFFFFFF. */
  method Calculate(table: seq<Word>, s: seq<Char>) returns (r: Word)
    requires IsTable(table)
    ensures r == Crc32Reference(Bytes(s))
    ensures |s| == 0 ==> r == 0
  {
    var crc: Word := InitialValue;
    var i := 0;
    while i < |s|
      invariant 0 <= i <= |s|
      invariant Run(table, crc, s[i..]) == Run(table, InitialValue, s)
    {
      assert s[i..][0] == s[i] && s[i..][1..] == s[i + 1..];
      crc := Update(table, crc, s[i]);
      i := i + 1;
    }
    r := Xor32(crc, FinalXor);
    RunIsBitSerial(table, InitialValue, s);
    if |s| == 0 {
      XorSelf(FinalXor);
    }
  }
}
