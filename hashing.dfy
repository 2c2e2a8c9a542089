/**
 * The integer mixing hash of hashmap.cpp (`hashmap::hashFunction`) on 32-bit
 * words, and the bucket index the map derives from it.
 */
module Hashing {

  const BucketCount: nat := 10

  /** The multiplier of the mixing step. */
  const Multiplier: bv32 := 0x45d9f3b

  function Byte(n: int): bv32
    requires 0 <= n < 0x100
  {
    (n as bv8) as bv32
  }

  /** The 32-bit pattern with the four given bytes, most significant first. */
  function FromBytes(b3: int, b2: int, b1: int, b0: int): bv32
    requires 0 <= b3 < 0x100 && 0 <= b2 < 0x100 && 0 <= b1 < 0x100 && 0 <= b0 < 0x100
  {
    (Byte(b3) << 24) | (Byte(b2) << 16) | (Byte(b1) << 8) | Byte(b0)
  }

  /** Two's-complement bit pattern of a C `int`, assembled byte by byte. */
  function ToWord(x: int): bv32
  {
    var n := x % 0x1_0000_0000;
    FromBytes(n / 0x100_0000, (n / 0x1_0000) % 0x100, (n / 0x100) % 0x100, n % 0x100)
  }

  /** The signed `int` a 32-bit pattern stands for. */
  function SignedValue(w: bv32): (r: int)
    ensures -0x8000_0000 <= r < 0x8000_0000
  {
    if w as int < 0x8000_0000 then w as int else w as int - 0x1_0000_0000
  }

  /** Reduction of an integer into the range of a 32-bit `int`, wrapping around. */
  function WrapInt32(x: int): (r: int)
    ensures -0x8000_0000 <= r < 0x8000_0000
    ensures (r - x) % 0x1_0000_0000 == 0
    ensures -0x8000_0000 <= x < 0x8000_0000 ==> r == x
  {
    (x + 0x8000_0000) % 0x1_0000_0000 - 0x8000_0000
  }

  /** `input >> 16` on a signed `int`: an arithmetic shift that copies the sign bit. */
  function ShiftRight16Signed(w: bv32): bv32
  {
    if w & 0x8000_0000 == 0 then w >> 16 else (w >> 16) | 0xFFFF_0000
  }

  /**
   * The mixed 32-bit word: the input xored with its shifted self, multiplied
   * with wrap-around, then xored with its own upper half.
   */
  function Mix(input: int): bv32
  {
    var w := ToWord(input);
    var t := (ShiftRight16Signed(w) ^ w) * Multiplier;
    (t >> 16) ^ t
  }

  /** The mixed word read back as a signed `int` (`int hash = (int) temp`). */
  function Mixed(input: int): int
  {
    SignedValue(Mix(input))
  }

  /**
   * `hashFunction` as written: the mixed value negated when negative. The
   * negation `hash *= -1` wraps for the one value -2^31, which stays negative.
   */
  function HashFunctionAsWritten(input: int): (h: int)
    ensures -0x8000_0000 <= h < 0x8000_0000
    ensures h >= 0 <==> Mixed(input) != -0x8000_0000
    ensures Mixed(input) == -0x8000_0000 ==> h == -0x8000_0000
  {
    var hash := Mixed(input);
    if hash < 0 then WrapInt32(hash * -1) else hash
  }

  /** C++ `%` on `int`: truncates toward zero, so the remainder takes the sign of `a`. */
  function CRem(a: int, b: int): (r: int)
    requires b > 0
    ensures a >= 0 ==> 0 <= r < b
    ensures a < 0 ==> -b < r <= 0
  {
    if a >= 0 then a % b else -((-a) % b)
  }

  /** The index `hashFunction(key) % 10` that put, get and containsKey use, as written. */
  function BucketAsWritten(key: int): int
  {
    CRem(HashFunctionAsWritten(key), BucketCount)
  }

  /**
   * The evidently intended hash: the magnitude of the signed mixed value,
   * computed without overflow.
   */
  function HashFunction(input: int): nat
  {
    var hash := Mixed(input);
    if hash < 0 then -hash else hash
  }

  /**
   * The corrected hash never exceeds 2^31, reaches it exactly for the
   * overflowing mixed value, and agrees with the written one everywhere else.
   */
  lemma HashFunctionCorrectsOverflow(input: int)
    ensures HashFunction(input) <= 0x8000_0000
    ensures HashFunction(input) == 0x8000_0000 <==> Mixed(input) == -0x8000_0000
    ensures Mixed(input) != -0x8000_0000 ==> HashFunction(input) == HashFunctionAsWritten(input)
  {
    var hash := Mixed(input);
    if hash < 0 {
      assert WrapInt32(hash * -1) == (if hash == -0x8000_0000 then hash else -hash);
    }
  }

  /**
   * The bucket a key lives in, `hashFunction(key) % 10` with the corrected
   * hash; the rest of the model uses this one. It goes through one step of
   * `Deferred` so that proofs about the chains, which only compare bucket
   * indices, do not unfold the 32-bit arithmetic of the hash (BucketIsHashMod
   * unfolds it where it is wanted).
   */
  function BucketOf(key: int): (b: nat)
    ensures b < BucketCount
  {
    Deferred(key, 1)
  }

  /**
   * `hash % 10` after a countdown that only delays the unfolding of the hash.
   * It is an aid to the verifier only and models nothing of the source.
   */
  function Deferred(key: int, countdown: nat): (b: nat)
    ensures b < BucketCount
  {
    if countdown == 0 then HashFunction(key) % BucketCount else Deferred(key, countdown - 1)
  }

  /** The bucket is the corrected hash modulo the bucket count. */
  lemma BucketIsHashMod(key: int)
    ensures BucketOf(key) == HashFunction(key) % BucketCount
  {
    assert Deferred(key, 0) == HashFunction(key) % BucketCount;
  }

  /** Wherever the written hash does not overflow, the corrected bucket is the written one. */
  lemma BucketMatchesWritten(key: int)
    requires Mixed(key) != -0x8000_0000
    ensures BucketOf(key) == BucketAsWritten(key)
  {
    BucketIsHashMod(key);
    HashFunctionCorrectsOverflow(key);
  }

  /** Away from the one overflowing mixed value, the written bucket index is in range. */
  lemma BucketInRange(key: int)
    requires Mixed(key) != -0x8000_0000
    ensures 0 <= BucketAsWritten(key) < BucketCount
  {
  }

  /** The key 1895428345 mixes to 0x80000000, so the written index is -8: out of range. */
  lemma OverflowingKeyLeavesBucketRange()
    ensures Mixed(1895428345) == -0x8000_0000
    ensures HashFunctionAsWritten(1895428345) == -0x8000_0000
    ensures BucketAsWritten(1895428345) == -8
    ensures BucketOf(1895428345) == 8
  {
    var n := 1895428345;
    assert n % 0x1_0000_0000 == n;
    assert n / 0x100_0000 == 0x70;
    assert (n / 0x1_0000) % 0x100 == 0xf9;
    assert (n / 0x100) % 0x100 == 0xf0;
    assert n % 0x100 == 0xf9;
    assert Byte(0x70) == 0x70 && Byte(0xf9) == 0xf9 && Byte(0xf0) == 0xf0;
    assert ToWord(n) == 0x70f9f0f9;
    assert Mix(n) == 0x8000_0000;
  }

  /** So does the negative key -1895428346, whose bit pattern is 0x8f060f06. */
  lemma OverflowingNegativeKey()
    ensures Mixed(-1895428346) == -0x8000_0000
    ensures BucketAsWritten(-1895428346) == -8
  {
    var n := -1895428346 % 0x1_0000_0000;
    assert n == 0x8f060f06;
    assert n / 0x100_0000 == 0x8f;
    assert (n / 0x1_0000) % 0x100 == 0x06;
    assert (n / 0x100) % 0x100 == 0x0f;
    assert n % 0x100 == 0x06;
    assert Byte(0x8f) == 0x8f && Byte(0x06) == 0x06 && Byte(0x0f) == 0x0f;
    assert ToWord(-1895428346) == 0x8f060f06;
    assert Mix(-1895428346) == 0x8000_0000;
  }
}
