/** The RTEA block cipher, `RTEA<N>::encrypt` and `RTEA<N>::decrypt`
    (lab2/main.cpp).

    A 64-bit block is split into a high word a and a low word b.  Encryption
    runs the indices 0 .. 4N + 31 two at a time: the first index of a pair
    updates b from a, the second updates a from the new b.  Decryption undoes
    the same updates from index 4N + 31 down to 0.

    Words are unsigned 32-bit values, modelled as integers in [0, 2^32); a
    compound assignment to a word keeps its value modulo 2^32, so every
    update reduces once, by `WordModulus`.  Reducing the whole right-hand
    side once gives the same word as the source's mix of 32- and 64-bit
    intermediate sums, since truncation to 32 bits commutes with addition. */
module Rtea {
  import opened Arith
  import opened Bits

  /** An unsigned 64-bit block. */
  type Block = x: int | 0 <= x < WordModulus * WordModulus

  /** A key of 4 or 8 words (128 or 256 bits); the source rejects any other
      size at compile time. */
  type Key = k: seq<Word> | |k| == 4 || |k| == 8 witness [0, 0, 0, 0]

  /** The two halves of a block. */
  datatype Halves = Halves(a: Word, b: Word)

  /** The high word (`x >> 32`) and the low word (the 32-bit truncation). */
  function Unpack(x: Block): Halves {
    Halves(x / WordModulus, x % WordModulus)
  }

  /** `uint64_t{a} << 32 | b`: the low word fits below bit 32, so the or is
      a sum. */
  function Pack(h: Halves): (x: Block)
    ensures x / WordModulus == h.a && x % WordModulus == h.b
  {
    h.a * WordModulus + h.b
  }

  /** Splitting and joining a block are inverse to each other. */
  lemma PackUnpack(x: Block)
    ensures Pack(Unpack(x)) == x
  {
  }

  lemma UnpackPack(h: Halves)
    ensures Unpack(Pack(h)) == h
  {
  }

  /** The shift-and-xor mixing `(w << 6) ^ (w >> 8)` of one word: the left
      shift is a multiplication by 64 that drops the bits moved past bit 31,
      the right shift a division by 256. */
  function Mix(w: Word): Word {
    XorWord((w * 64) % WordModulus, w / 256);
    Xor((w * 64) % WordModulus, w / 256)
  }

  /** The left shift keeps exactly the low 26 bits of the word, moved up
      six places; the six top bits are lost. */
  lemma MixShift(w: Word)
    ensures Mix(w) == Xor((w % 0x400_0000) * 64, w / 256)
  {
    var q, r := w / 0x400_0000, w % 0x400_0000;
    assert w * 64 == q * WordModulus + r * 64;
    DivisionUnique(w * 64, WordModulus, q, r * 64);
  }

  /** The number of indices the cipher runs through: 4N + 32. */
  function IndexCount(key: Key): nat {
    |key| * 4 + 32
  }

  /** The key term of index i: the key word at i mod N plus the index. */
  function RoundKey(key: Key, i: nat): int {
    key[i % |key|] + i
  }

  /** `x += y + ((y << 6) ^ (y >> 8)) + k`. */
  function Feed(x: Word, y: Word, k: int): Word {
    (x + (y + Mix(y) + k)) % WordModulus
  }

  /** `x -= y + ((y << 6) ^ (y >> 8)) + k`. */
  function Unfeed(x: Word, y: Word, k: int): Word {
    (x - (y + Mix(y) + k)) % WordModulus
  }

  /** Adding and subtracting the same amount modulo 2^32 cancel, in either
      order. */
  lemma WrapCancel(x: Word, t: int)
    ensures ((x + t) % WordModulus - t) % WordModulus == x
    ensures ((x - t) % WordModulus + t) % WordModulus == x
  {
    var q := (x + t) / WordModulus;
    assert (x + t) % WordModulus - t == x - WordModulus * q;
    var p := (x - t) / WordModulus;
    assert (x - t) % WordModulus + t == x - WordModulus * p;
  }

  /** Taking an update back restores the word, and so does redoing one that
      was taken back. */
  lemma FeedInverse(x: Word, y: Word, k: int)
    ensures Unfeed(Feed(x, y, k), y, k) == x
    ensures Feed(Unfeed(x, y, k), y, k) == x
  {
    WrapCancel(x, y + Mix(y) + k);
  }

  /** Two consecutive updates of encryption, with key terms k0 and k1: b
      takes in a, then a takes in the new b. */
  function EncryptPair(h: Halves, k0: int, k1: int): Halves {
    var b := Feed(h.b, h.a, k0);
    Halves(Feed(h.a, b, k1), b)
  }

  /** The same two updates taken back, a first: k1 is the term of the higher
      index, k0 that of the lower. */
  function DecryptPair(h: Halves, k1: int, k0: int): Halves {
    var a := Unfeed(h.a, h.b, k1);
    Halves(a, Unfeed(h.b, a, k0))
  }

  /** The first k pairs of encryption, indices 0 .. 2k - 1 in order. */
  function EncryptPairs(key: Key, h: Halves, k: nat): Halves {
    if k == 0 then h
    else EncryptPair(EncryptPairs(key, h, k - 1), RoundKey(key, 2 * k - 2), RoundKey(key, 2 * k - 1))
  }

  /** Decryption of the first k pairs, indices 2k - 1 down to 0. */
  function DecryptPairs(key: Key, h: Halves, k: nat): Halves
    decreases k
  {
    if k == 0 then h
    else DecryptPairs(key, DecryptPair(h, RoundKey(key, 2 * k - 1), RoundKey(key, 2 * k - 2)), k - 1)
  }

  /** One more pair of encryption follows the first k: b takes in a
      with the key term of index 2k, then a takes in the new b with that
      of index 2k + 1. */
  lemma EncryptPairsNext(key: Key, h: Halves, k: nat, a: Word, b: Word)
    requires Halves(a, b) == EncryptPairs(key, h, k)
    ensures var b' := Feed(b, a, RoundKey(key, 2 * k));
            Halves(Feed(a, b', RoundKey(key, 2 * k + 1)), b') == EncryptPairs(key, h, k + 1)
  {
  }

  /** The cipher as a function of the key and the block. */
  function Encrypt(key: Key, x: Block): Block {
    Pack(EncryptPairs(key, Unpack(x), IndexCount(key) / 2))
  }

  function Decrypt(key: Key, x: Block): Block {
    Pack(DecryptPairs(key, Unpack(x), IndexCount(key) / 2))
  }

  /** Decryption of a pair undoes its encryption, and the other way round. */
  lemma PairInverse(h: Halves, k0: int, k1: int)
    ensures DecryptPair(EncryptPair(h, k0, k1), k1, k0) == h
    ensures EncryptPair(DecryptPair(h, k1, k0), k0, k1) == h
  {
    var b := Feed(h.b, h.a, k0);
    FeedInverse(h.a, b, k1);
    FeedInverse(h.b, h.a, k0);
    var a := Unfeed(h.a, h.b, k1);
    FeedInverse(h.b, a, k0);
    FeedInverse(h.a, h.b, k1);
  }

  lemma {:induction false} PairsDecryptEncrypt(key: Key, h: Halves, k: nat)
    ensures DecryptPairs(key, EncryptPairs(key, h, k), k) == h
    decreases k
  {
    if k > 0 {
      PairInverse(EncryptPairs(key, h, k - 1), RoundKey(key, 2 * k - 2), RoundKey(key, 2 * k - 1));
      PairsDecryptEncrypt(key, h, k - 1);
    }
  }

  lemma {:induction false} PairsEncryptDecrypt(key: Key, h: Halves, k: nat)
    ensures EncryptPairs(key, DecryptPairs(key, h, k), k) == h
    decreases k
  {
    if k > 0 {
      var k0, k1 := RoundKey(key, 2 * k - 2), RoundKey(key, 2 * k - 1);
      PairsEncryptDecrypt(key, DecryptPair(h, k1, k0), k - 1);
      PairInverse(h, k0, k1);
    }
  }

  /** Decryption recovers every block under every key: the comparison the
      lab 2 demo makes for each random block always succeeds. */
  lemma DecryptEncrypt(key: Key, x: Block)
    ensures Decrypt(key, Encrypt(key, x)) == x
  {
    var k := IndexCount(key) / 2;
    UnpackPack(EncryptPairs(key, Unpack(x), k));
    PairsDecryptEncrypt(key, Unpack(x), k);
    PackUnpack(x);
  }

  /** Encryption undoes decryption as well, so the cipher is a permutation
      of the blocks. */
  lemma EncryptDecrypt(key: Key, x: Block)
    ensures Encrypt(key, Decrypt(key, x)) == x
  {
    var k := IndexCount(key) / 2;
    UnpackPack(DecryptPairs(key, Unpack(x), k));
    PairsEncryptDecrypt(key, Unpack(x), k);
    PackUnpack(x);
  }

  /** The encryption loop as written: the header and the body each advance
      the index, so one pass handles a pair of indices. */
  method EncryptBlock(key: Key, x: Block) returns (y: Block)
    ensures y == Encrypt(key, x)
    ensures Decrypt(key, y) == x
  {
    var h := Unpack(x);
    var a, b := h.a, h.b;
    var i: nat := 0;
    ghost var k: nat := 0;
    while i < |key| * 4 + 32
      invariant i == 2 * k && k <= IndexCount(key) / 2
      invariant Halves(a, b) == EncryptPairs(key, h, k)
    {
      EncryptPairsNext(key, h, k, a, b);
      b := Feed(b, a, RoundKey(key, i));
      i := i + 1;
      a := Feed(a, b, RoundKey(key, i));
      i := i + 1;
      k := k + 1;
    }
    y := Pack(Halves(a, b));
    DecryptEncrypt(key, x);
  }

  /** The decryption loop as written: the index starts at 4N + 31, which is
      odd, so the inner decrement never takes it below 0. */
  method DecryptBlock(key: Key, x: Block) returns (y: Block)
    ensures y == Decrypt(key, x)
    ensures Encrypt(key, y) == x
  {
    var h := Unpack(x);
    var a, b := h.a, h.b;
    var i: int := |key| * 4 + 31;
    ghost var k: nat := IndexCount(key) / 2;
    while i >= 0
      invariant i == 2 * k - 1
      invariant DecryptPairs(key, Halves(a, b), k) == DecryptPairs(key, h, IndexCount(key) / 2)
    {
      ghost var before := Halves(a, b);
      a := Unfeed(a, b, RoundKey(key, i));
      i := i - 1;
      b := Unfeed(b, a, RoundKey(key, i));
      i := i - 1;
      assert Halves(a, b) == DecryptPair(before, RoundKey(key, 2 * k - 1), RoundKey(key, 2 * k - 2));
      k := k - 1;
    }
    y := Pack(Halves(a, b));
    EncryptDecrypt(key, x);
  }
}
