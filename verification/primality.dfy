/** The probabilistic primality tests `lab::is_fermat_prime` and
    `lab::miller_rabin` (lab1/Algorithms.cpp).

    The source draws each witness from a process-wide Mersenne twister,
    uniformly in [2, n - 2].  Here the draws are an explicit sequence
    `witnesses`, consumed in order, one per round; a round that is never
    reached leaves its witness unused. */
module Primality {
  import opened Arith
  import opened ModExp

  /** The number of rounds both tests run when the caller gives none. */
  const DefaultIters: int := 5

  /** Every witness lies in the sampler's range [2, n - 2]. */
  predicate WitnessesInRange(witnesses: seq<int>, n: int) {
    forall i :: 0 <= i < |witnesses| ==> 2 <= witnesses[i] <= n - 2
  }

  // ---------------------------------------------------------------- Fermat

  /** Fermat's condition for witness a: a^(x-1) leaves remainder 1 mod x. */
  ghost predicate FermatWitnessPasses(a: int, x: int)
    requires x > 0
  {
    Power(a, x - 1) % x == 1
  }

  /** Numbers below 4 are decided exactly.  From 4 on, the test runs `iters`
      rounds and stops at the first witness whose power is not 1; it
      answers true when no round fails, in particular when `iters <= 0`. */
  method IsFermatPrime(x: int, iters: int, witnesses: seq<int>) returns (r: bool)
    requires iters <= |witnesses|
    requires x >= 4 ==> WitnessesInRange(witnesses, x)
    ensures x < 4 ==> (r <==> x == 2 || x == 3)
    ensures x >= 4 ==> (r <==> forall i :: 0 <= i < iters ==> FermatWitnessPasses(witnesses[i], x))
  {
    if x < 4 {
      return x == 2 || x == 3;
    }
    var i := 0;
    while i < iters
      invariant 0 <= i && (i <= iters || i == 0)
      invariant forall k :: 0 <= k < i ==> FermatWitnessPasses(witnesses[k], x)
    {
      var a := witnesses[i];
      ModPowExact(a, x - 1, x);
      if ModPow(a, x - 1, x) != 1 {
        return false;
      }
      i := i + 1;
    }
    return true;
  }

  /** The Fermat test with the default number of rounds. */
  method IsFermatPrimeDefault(x: int, witnesses: seq<int>) returns (r: bool)
    requires DefaultIters <= |witnesses|
    requires x >= 4 ==> WitnessesInRange(witnesses, x)
    ensures x < 4 ==> (r <==> x == 2 || x == 3)
    ensures x >= 4 ==> (r <==> forall i :: 0 <= i < 5 ==> FermatWitnessPasses(witnesses[i], x))
  {
    r := IsFermatPrime(x, DefaultIters, witnesses);
  }

  // ---------------------------------------------------------- Miller-Rabin

  /** The number of factors 2 in a positive m. */
  function TwoAdicExponent(m: nat): nat
    requires m > 0
  {
    if m % 2 == 1 then 0 else 1 + TwoAdicExponent(m / 2)
  }

  /** What is left of a positive m once all factors 2 are divided out. */
  function OddPart(m: nat): nat
    requires m > 0
  {
    if m % 2 == 1 then m else OddPart(m / 2)
  }

  /** m == 2^s * t with t odd, for s and t as defined above. */
  lemma {:induction false} OddPartDecomposition(m: nat)
    requires m > 0
    ensures m == Power(2, TwoAdicExponent(m)) * OddPart(m)
    ensures OddPart(m) % 2 == 1
  {
    if m % 2 == 0 {
      OddPartDecomposition(m / 2);
      var s, t := TwoAdicExponent(m / 2), OddPart(m / 2);
      assert Power(2, s + 1) == 2 * Power(2, s);
      assert m == 2 * (Power(2, s) * t) == (2 * Power(2, s)) * t;
    }
  }

  /** The halving loop: it divides n - 1 by 2 until the quotient is odd,
      counting the divisions. */
  method Decompose(n: int) returns (s: nat, t: int)
    requires n >= 5 && n % 2 == 1
    ensures s == TwoAdicExponent(n - 1) && t == OddPart(n - 1)
    ensures n - 1 == Power(2, s) * t
    ensures s >= 1 && t >= 1 && t % 2 == 1
  {
    s := 0;
    t := n - 1;
    while t % 2 == 0
      invariant t >= 1
      invariant TwoAdicExponent(n - 1) == s + TwoAdicExponent(t)
      invariant OddPart(n - 1) == OddPart(t)
      invariant n - 1 == Power(2, s) * t
      decreases t
    {
      var p, h := Power(2, s), t / 2;
      assert Power(2, s + 1) == 2 * p;
      assert t == 2 * h;
      DoubleFactor(p, h);
      t := h;
      s := s + 1;
    }
    OddPartDecomposition(n - 1);
  }

  /** The exponent after j squarings of a^t: 2^j * t. */
  function ChainExponent(j: nat, t: nat): nat {
    Power(2, j) * t
  }

  /** The strong-probable-prime condition for witness a, with
      n - 1 == 2^s * t: a^t is 1 mod n, or one of a^t, a^(2t), ...,
      a^(2^(s-1) t) is n - 1 mod n. */
  ghost predicate RoundPasses(a: int, n: int, s: nat, t: nat)
    requires n > 0
  {
    || Power(a, t) % n == 1
    || exists j :: 0 <= j < s && Power(a, ChainExponent(j, t)) % n == n - 1
  }

  /** Squaring the residue of a^e gives the residue of a^(2e). */
  lemma SquareResidue(a: int, n: int, e: nat)
    requires n > 0 && a > 0
    ensures TMod(Square(Power(a, e) % n), n) == Power(a, e + e) % n
  {
    var y := Power(a, e);
    var z := y % n;
    TruncatingIsEuclideanWhenNonNegative(y, n);
    TModCongruent(y, n);
    CongruentMul(z, y, z, y, n);
    TModCongruent(z * z, n);
    CongruentTransitive(TMod(z * z, n), z * z, y * y, n);
    PowerAdd(a, e, e);
    CongruentResidue(TMod(z * z, n), y * y, n);
  }

  /** The values the round's inner loop walks through: x0 squared j times,
      each square reduced mod n as the source does. */
  function SquareChain(x0: int, n: int, j: nat): int
    requires n > 0
  {
    if j == 0 then x0 else TMod(Square(SquareChain(x0, n, j - 1)), n)
  }

  /** Starting from a^t mod n, the j-th value is a^(2^j t) mod n. */
  lemma {:induction false} SquareChainIsPower(a: int, n: int, t: nat, j: nat)
    requires n > 0 && a > 0
    ensures SquareChain(Power(a, t) % n, n, j) == Power(a, ChainExponent(j, t)) % n
  {
    if j == 0 {
      assert ChainExponent(0, t) == t;
    } else {
      SquareChainIsPower(a, n, t, j - 1);
      var p := Power(2, j - 1);
      var e := ChainExponent(j - 1, t);
      SquareResidue(a, n, e);
      assert Power(2, j) == 2 * p;
      DoubleFactor(p, t);
      assert ChainExponent(j, t) == e + e;
    }
  }

  /** Once the chain reaches 1 it stays there. */
  lemma {:induction false} SquareChainOneStaysOne(x0: int, n: int, j: nat, k: nat)
    requires n > 1 && j <= k && SquareChain(x0, n, j) == 1
    ensures SquareChain(x0, n, k) == 1
    decreases k - j
  {
    if j < k {
      assert Square(1) == 1;
      TModSmall(1, n);
      assert SquareChain(x0, n, j + 1) == TMod(Square(SquareChain(x0, n, j)), n);
      SquareChainOneStaysOne(x0, n, j + 1, k);
    }
  }

  /** The round condition in terms of the chain. */
  ghost predicate ChainPasses(x0: int, n: int, s: nat)
    requires n > 0
  {
    x0 == 1 || exists j :: 0 <= j < s && SquareChain(x0, n, j) == n - 1
  }

  lemma ChainPassesIsRoundPasses(a: int, n: int, s: nat, t: nat)
    requires n > 0 && a > 0
    ensures ChainPasses(Power(a, t) % n, n, s) <==> RoundPasses(a, n, s, t)
  {
    var x0 := Power(a, t) % n;
    if exists j :: 0 <= j < s && SquareChain(x0, n, j) == n - 1 {
      var j :| 0 <= j < s && SquareChain(x0, n, j) == n - 1;
      SquareChainIsPower(a, n, t, j);
      assert Power(a, ChainExponent(j, t)) % n == n - 1;
    }
    if exists j :: 0 <= j < s && Power(a, ChainExponent(j, t)) % n == n - 1 {
      var j :| 0 <= j < s && Power(a, ChainExponent(j, t)) % n == n - 1;
      SquareChainIsPower(a, n, t, j);
      assert SquareChain(x0, n, j) == n - 1;
    }
  }

  /** One round for witness a: x = a^t mod n, accepted at once if it is 1
      or n - 1; otherwise squared up to s - 1 times, rejecting on reaching
      1 and accepting on reaching n - 1.  The source returns from the whole
      test on rejection; the round reports it instead and the caller
      returns.  The early rejection on 1 agrees with the plain condition. */
  method WitnessRound(a: int, n: int, s: nat, t: nat) returns (pass: bool)
    requires n >= 5 && 2 <= a <= n - 2 && s >= 1 && t >= 1
    ensures pass <==> RoundPasses(a, n, s, t)
  {
    var x := ModPow(a, t, n);
    ModPowExact(a, t, n);
    ghost var x0 := x;
    assert x0 == Power(a, t) % n;
    ChainPassesIsRoundPasses(a, n, s, t);
    if x == 1 || x == n - 1 {
      assert SquareChain(x0, n, 0) == x0;
      return true;
    }
    var j := 1;
    while j < s
      invariant 1 <= j <= s
      invariant x == SquareChain(x0, n, j - 1) && x != 1
      invariant forall k :: 0 <= k < j ==> SquareChain(x0, n, k) != n - 1
    {
      x := TMod(x * x, n);
      assert x == SquareChain(x0, n, j);
      if x == 1 {
        forall k | j <= k < s
          ensures SquareChain(x0, n, k) != n - 1
        {
          SquareChainOneStaysOne(x0, n, j, k);
        }
        return false;
      }
      if x == n - 1 {
        break;
      }
      j := j + 1;
    }
    pass := x == n - 1;
  }

  /** 2 and 3 are prime; numbers below 2 and even numbers are not.  Every
      other n runs `iters` rounds and is reported prime when every round
      passes. */
  method MillerRabin(n: int, iters: int, witnesses: seq<int>) returns (r: bool)
    requires iters <= |witnesses|
    requires n >= 4 ==> WitnessesInRange(witnesses, n)
    ensures n == 2 || n == 3 ==> r
    ensures n < 2 || (n > 3 && n % 2 == 0) ==> !r
    ensures n > 3 && n % 2 == 1 ==>
      (r <==> forall i :: 0 <= i < iters ==>
                RoundPasses(witnesses[i], n, TwoAdicExponent(n - 1), OddPart(n - 1)))
  {
    if n == 2 || n == 3 {
      return true;
    }
    if n < 2 || TMod(n, 2) == 0 {
      return false;
    }
    var s, t := Decompose(n);
    var i := 0;
    while i < iters
      invariant 0 <= i && (i <= iters || i == 0)
      invariant forall k :: 0 <= k < i ==> RoundPasses(witnesses[k], n, s, t)
    {
      var pass := WitnessRound(witnesses[i], n, s, t);
      if !pass {
        return false;
      }
      i := i + 1;
    }
    return true;
  }

  /** The Miller-Rabin test with the default number of rounds. */
  method MillerRabinDefault(n: int, witnesses: seq<int>) returns (r: bool)
    requires DefaultIters <= |witnesses|
    requires n >= 4 ==> WitnessesInRange(witnesses, n)
    ensures n == 2 || n == 3 ==> r
    ensures n < 2 || (n > 3 && n % 2 == 0) ==> !r
    ensures n > 3 && n % 2 == 1 ==>
      (r <==> forall i :: 0 <= i < 5 ==>
                RoundPasses(witnesses[i], n, TwoAdicExponent(n - 1), OddPart(n - 1)))
  {
    r := MillerRabin(n, DefaultIters, witnesses);
  }
}
