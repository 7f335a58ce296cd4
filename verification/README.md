# Cryptography labs in Dafny

A model of three small cryptography labs, with proofs about the model.

- **lab 1** covers number theory on arbitrary-precision integers:
  - modular exponentiation (`lab::pow`);
  - the extended Euclidean algorithm (`lab::extended_euclid`);
  - the Fermat and Miller–Rabin probabilistic primality tests (`lab::is_fermat_prime`, `lab::miller_rabin`);
  - Karatsuba multiplication on decimal splits (`lab::karatsuba` and its helper `length`).
- **lab 2** is the RTEA block cipher (`RTEA<N>::encrypt`, `RTEA<N>::decrypt`) with 128- or 256-bit keys.
- **lab 3** is a table-driven CRC-32 (class `CRC32`: the table-building constructor and `calculate`).

Modules:

| file | module | contents |
|---|---|---|
| `arith.dfy` | `Arith` | `Abs` and `Power`. `TDiv`/`TMod` are the truncating division and remainder of `cpp_int`; Dafny's own `/` and `%` are Euclidean. Also divisibility and congruence. |
| `modpow.dfy` | `ModExp` | `lab::pow` |
| `euclid.dfy` | `Euclid` | `lab::extended_euclid` |
| `primality.dfy` | `Primality` | the Fermat and Miller–Rabin tests |
| `karatsuba.dfy` | `Karatsuba` | `lab::karatsuba` and `length` |
| `bits.dfy` | `Bits` | unsigned 32-bit words as integers in [0, 2^32), and exclusive or on naturals with its algebra |
| `rtea.dfy` | `Rtea` | the RTEA cipher |
| `crc32.dfy` | `Crc32` | CRC-32: table, per-byte update, bit-serial reference |

Design choices:

- **Random witnesses.** The primality tests draw random witnesses in [2, n − 2]. In the model those draws are an explicit sequence `witnesses`, which is consumed in order.
- **Machine words.** Words are integers modulo 2^32, with each wrap-around written out:
  - `<< 6` is a multiplication by 64 reduced modulo 2^32;
  - `>> k` is a division by 2^k;
  - `& 0xFF` is the remainder modulo 256;
  - `^` is the bitwise exclusive or `Bits.Xor`.
- **CRC reference.** The checksum's specification is the bit-serial definition of the reflected CRC-32 of clause 3.2.9 of IEEE 802.3. That is generator 0x04C11DB7, bit-reversed to 0xEDB88320, with initial value and final exclusive or 0xFFFFFFFF. The table-driven `calculate` is proved equal to it.
- **CRC comment.** A comment in lab3/main.cpp at line 41 calls the checksum "CRC-32/BZIP2". BZIP2 is the non-reflected variant, but the code computes the reflected one, so the model follows the code.

## Model

| member | source | states |
|---|---|---|
| Arith.TMod | lab1/Algorithms.cpp:23 | the remainder of `cpp_int` `%` is smaller in magnitude than the divisor and has the sign of the dividend |
| Arith.TDiv | lab1/Algorithms.cpp:106-108 | the truncating `cpp_int` `/` (also at line 49); it has no contract of its own, and `TDivModIdentity` ties it to `TMod` so that the pair rebuilds the dividend |
| Arith.TDivModIdentity | lab1/Algorithms.cpp:48-49 | truncating quotient and remainder rebuild the dividend: a == b * (a / b) + a % b |
| ModExp.ModPow | lab1/Algorithms.cpp:14-28 | `pow` is non-negative for a non-negative base, and below the modulus in magnitude once the base and the degree are non-zero, for either sign of degree and modulus |
| ModExp.ModPowNegativeDegree | lab1/Algorithms.cpp:19-27 | a negative degree gives the same result as its magnitude, because truncating `degree / 2` and `degree % 2` are symmetric in the sign |
| ModExp.ModPowNegativeModulus | lab1/Algorithms.cpp:23-27 | a negative modulus gives the same result as its magnitude, because the truncating `%` ignores the divisor's sign |
| ModExp.ModPowCongruent | lab1/Algorithms.cpp:14-28 | `pow(x, d, m)` is congruent to x^d modulo m for every sign of x, except for 0^0 |
| ModExp.ModPowExact | lab1/Algorithms.cpp:14-28 | for x >= 0 and a positive degree, `pow` is exactly the least non-negative residue of x^d |
| ModExp.ModPowEdgeCases | lab1/Algorithms.cpp:16-21 | a zero base gives 0 even for degree 0; degree 0 gives 1 for any non-zero base, not reduced by the modulus |
| ModExp.ModPowDemo | lab1/main.cpp:7 | pow(234, 6565, 4543) == 430 |
| Euclid.ExtendedEuclid | lab1/Algorithms.cpp:43-50 | the triple satisfies a·x + b·y == gcd for all integers a and b; for a == 0 it is (b, 0, 1) |
| Euclid.ExtendedEuclidDivides | lab1/Algorithms.cpp:43-50 | the returned gcd divides both a and b |
| Euclid.ExtendedEuclidIsGcd | lab1/Algorithms.hpp:15-21 | the returned gcd is a greatest common divisor: a common divisor that every common divisor divides |
| Euclid.ExtendedEuclidNonNegative | lab1/Algorithms.cpp:43-50 | for non-negative a and b the gcd is non-negative |
| Euclid.ExtendedEuclidNegative | lab1/Algorithms.cpp:43-50 | with a negative input the returned divisor can be negative: (−3, 6) gives (−3, 1, 0) and (6, −3) gives (−3, 0, 1) |
| Euclid.ExtendedEuclidGreatest | lab1/Algorithms.hpp:20-21 | for non-negative a and b, not both 0, the gcd is positive and no common divisor exceeds it |
| Euclid.ExtendedEuclidDemo | lab1/main.cpp:9 | extended_euclid(435, 150) == (15, -1, 3) |
| Primality.IsFermatPrime | lab1/Algorithms.cpp:30-42 | below 4, the answer is exactly x == 2 or x == 3; from 4 on, true iff w^(x-1) mod x == 1 for each of the first `iters` witnesses (so true when iters <= 0) |
| Primality.IsFermatPrimeDefault | lab1/Algorithms.hpp:9 | with the default iters, the first five witnesses decide |
| Primality.OddPartDecomposition | lab1/Algorithms.cpp:61-66 | every positive m is 2^s · t with t odd |
| Primality.Decompose | lab1/Algorithms.cpp:61-66 | for odd n >= 5 the halving loop ends with n - 1 == 2^s · t, t odd and s >= 1 |
| Primality.SquareChain | lab1/Algorithms.cpp:73-74 | the values `x = x * x % n` walks through, each square reduced by the truncating `%`; it has no contract of its own, and `SquareChainIsPower` states that the j-th value is a^(2^j·t) mod n |
| Primality.SquareChainIsPower | lab1/Algorithms.cpp:73-74 | after j squarings mod n, starting from a^t mod n, x is a^(2^j·t) mod n |
| Primality.SquareChainOneStaysOne | lab1/Algorithms.cpp:74-77 | once a squaring reaches 1 every later one is 1, so no later value is n - 1 |
| Primality.ChainPassesIsRoundPasses | lab1/Algorithms.cpp:69-84 | the squaring chain passes exactly when a^t mod n == 1 or a^(2^j·t) mod n == n - 1 for some j < s |
| Primality.WitnessRound | lab1/Algorithms.cpp:68-84 | a round passes iff a^t mod n is 1, or a^(2^j·t) mod n is n - 1 for some 0 <= j < s; the early `x == 1` rejection gives the same verdict |
| Primality.MillerRabin | lab1/Algorithms.cpp:52-87 | true for 2 and 3, false below 2 and for even n, and for other odd n true iff every one of the first `iters` witnesses passes the round rule |
| Primality.MillerRabinDefault | lab1/Algorithms.hpp:11 | with the default iters, the first five witnesses decide |
| Karatsuba.DigitCountRange | lab1/Algorithms.cpp:91-94 | every n is below 10^k, where k is its digit count, and every positive n is at least 10^(k-1) |
| Karatsuba.Length | lab1/Algorithms.cpp:91-94 | `length`, the size of the decimal string, counting a leading '-'; it has no contract of its own, and `LengthBound` and `SplitShrinks` state what the recursion relies on |
| Karatsuba.LengthBound | lab1/Algorithms.cpp:91-94 | a value of magnitude below 10^k has a decimal string of at most k + 1 characters, sign included |
| Karatsuba.SplitShrinks | lab1/Algorithms.cpp:99-114 | from max length N >= 10, splitting at N/2 digits gives high part, low part and their sum each shorter than N characters |
| Karatsuba.Recombine | lab1/Algorithms.cpp:116-118 | the three-product recombination equals the product of the operands |
| Karatsuba.Karatsuba | lab1/Algorithms.cpp:96-119 | karatsuba(lhs, rhs) == lhs * rhs for all integers, so it can stand in for ordinary multiplication |
| Karatsuba.KaratsubaDemo | lab1/main.cpp:14-16 | the twenty-digit example product |
| Bits.XorLow | lab3/main.cpp:29 | the low n bits of an exclusive or depend only on the operands' low n bits |
| Bits.XorHigh | lab3/main.cpp:29 | shifting an exclusive or right by n shifts both operands |
| Bits.XorWord | lab3/main.cpp:29 | the exclusive or of two 32-bit words is a 32-bit word |
| Rtea.Pack | lab2/main.cpp:24 | the packed block has a as its high word and b as its low word |
| Rtea.Unpack | lab2/main.cpp:18 | `std::pair{std::uint32_t(x >> 32), std::uint32_t(x)}`, also at line 30; it has no contract of its own, and `PackUnpack` and `UnpackPack` make it the inverse of `Pack` |
| Rtea.PackUnpack | lab2/main.cpp:18-24 | re-packing the split halves of a block restores it |
| Rtea.UnpackPack | lab2/main.cpp:24-30 | splitting a packed block gives back its halves |
| Rtea.Mix | lab2/main.cpp:20 | `(w << 6) ^ (w >> 8)` on a 32-bit word; it has no contract of its own, and `MixShift` states its value for every word |
| Rtea.MixShift | lab2/main.cpp:20 | for every word w, `(w << 6) ^ (w >> 8)` is the low 26 bits of w moved up six places, xor w / 256: the left shift loses exactly the six top bits |
| Rtea.RoundKey | lab2/main.cpp:20-22 | the key term `key[i % key.size()] + i`, also at lines 32 and 34; it has no contract of its own, and `Encrypt` and `Decrypt` both take the term of index i from it, which is what lets `PairsDecryptEncrypt` pair each update with its inverse |
| Rtea.Feed | lab2/main.cpp:20-22 | the encryption update `x += y + mix(y) + k` modulo 2^32; it has no contract of its own, and `FeedInverse` states that `Unfeed` undoes it |
| Rtea.Unfeed | lab2/main.cpp:32-34 | the decryption update `x -= y + mix(y) + k` modulo 2^32; it has no contract of its own, and `FeedInverse` states that it undoes `Feed` |
| Rtea.Encrypt | lab2/main.cpp:16-25 | `encrypt` as a function of the key and the block; it has no contract of its own, and `DecryptEncrypt` and `EncryptDecrypt` make it a permutation with inverse `Decrypt` |
| Rtea.Decrypt | lab2/main.cpp:28-37 | `decrypt` as a function of the key and the block; it has no contract of its own, and `DecryptEncrypt` states that it inverts `Encrypt` |
| Rtea.FeedInverse | lab2/main.cpp:20-34 | the decryption update `x -= …` undoes the encryption update `x += …` modulo 2^32, and the other way round |
| Rtea.PairInverse | lab2/main.cpp:19-35 | decrypting one index pair undoes encrypting it, and the other way round |
| Rtea.PairsDecryptEncrypt | lab2/main.cpp:19-35 | decrypting the first k pairs in reverse order undoes encrypting them |
| Rtea.PairsEncryptDecrypt | lab2/main.cpp:19-35 | encrypting the first k pairs undoes decrypting them |
| Rtea.DecryptEncrypt | lab2/main.cpp:16-37 | decrypt(encrypt(x)) == x for every 64-bit x and every 4- or 8-word key |
| Rtea.EncryptDecrypt | lab2/main.cpp:16-37 | encrypt(decrypt(x)) == x, so the cipher permutes the blocks |
| Rtea.EncryptBlock | lab2/main.cpp:16-25 | the encryption loop, two indices per pass, computes the cipher, and decryption recovers its input |
| Rtea.DecryptBlock | lab2/main.cpp:28-37 | the decryption loop from index 4N + 31 down to 0 computes the inverse cipher, and encryption recovers its input |
| Crc32.BitStep | lab3/main.cpp:19 | one step of the reflected register: shift right, adding 0xEDB88320 when a set bit falls out; it has no contract of its own, and `StepLinear` and `BitStepsZero` state its algebra |
| Crc32.BitSteps | lab3/main.cpp:18-20 | the `j < 8` loop, for any number of steps; it has no contract of its own, and `StepsLinear`, `StepsOfClearLowBits` and `SplitSteps` state its algebra |
| Crc32.BitStepsZero | lab3/main.cpp:16-21 | a zero register stays zero, so table entry 0 is 0 |
| Crc32.StepLinear | lab3/main.cpp:19 | one reflected step is linear over exclusive or |
| Crc32.StepsLinear | lab3/main.cpp:18-20 | n reflected steps are linear over exclusive or |
| Crc32.StepsOfClearLowBits | lab3/main.cpp:18-20 | on a register whose n low bits are clear, n steps are a plain right shift by n |
| Crc32.SplitSteps | lab3/main.cpp:29 | n steps are the steps of the n low bits, xor the register shifted right by n |
| Crc32.BuildTable | lab3/main.cpp:13-23 | the table has 256 entries, entry i is i after eight reflected steps, entry 0 is 0, and the divisor argument plays no part |
| Crc32.CharWord | lab3/main.cpp:29 | the conversion of the `char` to `uint32_t` inside `crc ^ byte`, the value modulo 2^32; it has no contract of its own, and `CharLowByte` states that it keeps the byte in its low eight bits |
| Crc32.CharLowByte | lab3/main.cpp:29 | a `char` widened to 32 bits keeps its byte in the low eight bits |
| Crc32.Update | lab3/main.cpp:29 | `_table[(crc ^ byte) & 0xFF] ^ (crc >> 8)`; it has no contract of its own, and `UpdateIsBitSerial` states that it is eight bit-serial steps |
| Crc32.UpdateIndex | lab3/main.cpp:29 | the table index `(crc ^ byte) & 0xFF` is the low byte of crc xor the character's byte |
| Crc32.UpdateShift | lab3/main.cpp:29 | combining a byte into the register leaves `crc >> 8` unchanged |
| Crc32.UpdateIsBitSerial | lab3/main.cpp:29 | the table update equals eight bit-serial reflected steps on crc xor the byte; only the char's low eight bits matter |
| Crc32.Run | lab3/main.cpp:28-30 | the `for (const auto byte : bytes)` loop from a given register; it has no contract of its own, and `RunIsBitSerial` and `RunConcat` state what it computes |
| Crc32.RunIsBitSerial | lab3/main.cpp:27-30 | the table-driven register over a string equals the bit-serial register over its bytes, from any start |
| Crc32.RunConcat | lab3/main.cpp:27-30 | the register over s1 ++ s2 is the register over s2 started from the register after s1 |
| Crc32.Calculate | lab3/main.cpp:25-32 | `calculate` returns the bit-serial reflected CRC-32 of the string's bytes; the empty string gives 0 |

## Left out

- The random generators are left out: `random` in lab1/Algorithms.cpp (lines 7-11) and `random_int` in lab2/main.cpp. Witnesses are a parameter, and nothing is claimed about their distribution or about error probabilities.
- Primality soundness is left out: that a `true` answer means prime, or a `false` one composite. It rests on Fermat's little theorem, which is not part of this model.
- All `main` functions are left out: printing, colours and timing. Their literals appear only as the concrete lemmas `ModPowDemo`, `ExtendedEuclidDemo` and `KaratsubaDemo`.
- The demo calls `is_fermat_prime(3253)` and `miller_rabin(3000)` have no lemma of their own. 3253 is prime, so the first is true for every sequence of draws, but proving that needs Fermat's little theorem (see above) or a power lemma per witness. The second is covered by `MillerRabin`'s contract for even n.
- `boost::crc_32_type` is an external library and is not modelled. Conformance is stated against the bit-serial definition of the standard instead.
- Crc32.Calculate: there is no lemma for a concrete check value (such as 0xCBF43926 for "123456789"), because evaluating 72 bit steps on literals is beyond what the verifier does cheaply.
- The `int` types of `iters` and of the counter `s` are treated as unbounded integers. Their 32-bit width is irrelevant at the sizes involved.
- ModExp.ModPow: a zero modulus is excluded by precondition (`m != 0`), and with it three behaviours of the source. With m == 0, `pow` still returns 0 for a zero base and 1 for a zero degree, because those returns come before any `%`. Only the remaining calls reach `% mod` and throw from `cpp_int`. Neither the two results nor the throw is modelled, so `ModPowEdgeCases` does not state them for m == 0. Negative degrees and negative moduli are modelled. The properties `ModPowCongruent`, `ModPowExact` and the step lemmas are stated for degree >= 0 and m > 0, and `ModPowNegativeDegree` and `ModPowNegativeModulus` reduce the other signs to these.
- ModExp.ModPowEdgeCases: states the zero-base and zero-degree results only for m != 0; for m == 0 the source returns the same 0 and 1, which the model leaves out with the zero modulus.
- The primality tests' witnesses are required to lie in [2, n − 2], the range the source's sampler draws from.
- Euclid.ExtendedEuclidNonNegative: the sign of the returned divisor is stated only for a, b >= 0. The header comment at lab1/Algorithms.hpp:20 calls the result `gcd(a, b)`, but with a negative input the code can return a negative divisor, as `ExtendedEuclidNegative` shows. The model follows the code. `ExtendedEuclidIsGcd` still holds for every sign, so the magnitude is always the greatest common divisor.
- `cpp_int` internals are left out: the cost of `str()` and the speed of Karatsuba. `length` is a decimal digit count plus one for a minus sign.
- Primality.MillerRabin: the source's `return false` on `x == 1` inside the squaring loop is modelled as the round reporting failure and the outer loop returning at once. The verdict is the same.
- The key words and the index `i` of RTEA are combined exactly, and the sum is reduced once. This gives the same 32-bit word as the source's mix of 32- and 64-bit intermediates.
