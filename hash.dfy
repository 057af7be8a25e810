/**
 * The bucket hash of nothashy.h: a polynomial accumulation with multiplier 37
 * in an `unsigned long` (64 bits, so every step wraps modulo 2^64), reduced
 * once modulo the table size; `_ht_index` reduces a second time.
 */
module Hashing {

  /** Number of buckets, `TABLE_SIZE`. */
  const TABLE_SIZE: nat := 100000

  /** 2^64, the modulus of the `unsigned long` accumulator. */
  const WORD: nat := 0x1_0000_0000_0000_0000

  /** 2^32: `strlen(key)` is stored in an `unsigned int key_len`, which keeps it modulo 2^32. */
  const UINT: nat := 0x1_0000_0000

  /** One byte of a C string: any `char` except the terminating NUL. */
  type KeyChar = c: char | 0 < c as int < 256 witness 'a'

  /** A key is the byte sequence before the NUL terminator. */
  type Key = seq<KeyChar>

  /**
   * The amount `key[i]` adds to the accumulator: a plain `char` is signed
   * here, so bytes 128..255 count as -128..-1 before being converted to
   * `unsigned long`.
   */
  function CharValue(c: KeyChar): (r: int)
    ensures -128 <= r < 128
    ensures r % 256 == c as int
    ensures c as int < 128 ==> r == c as int
  {
    if c as int < 128 then c as int else c as int - 256
  }

  /** One step of the loop: `value = value * 37 + key[i]` in 64-bit unsigned arithmetic. */
  function Step(value: nat, c: KeyChar): (r: nat)
    ensures r < WORD
  {
    (value * 37 + CharValue(c)) % WORD
  }

  /** The accumulator after the loop has consumed every byte of `key`. */
  function Acc(key: Key): (r: nat)
    ensures r < WORD
  {
    if key == [] then 0 else Step(Acc(key[..|key| - 1]), key[|key| - 1])
  }

  /**
   * The bytes the loop of `hash` reads: the first `key_len` of them, where
   * `key_len` is `strlen(key)` truncated to 32 bits. Every key shorter than
   * 2^32 bytes is read whole.
   */
  function HashedPrefix(key: Key): (p: Key)
    ensures |p| < UINT
    ensures |key| < UINT ==> p == key
    ensures forall j :: 0 <= j < |p| ==> p[j] == key[j]
  {
    key[..|key| % UINT]
  }

  /** The bucket of `key`: the accumulator over the bytes read, reduced modulo `TABLE_SIZE`. */
  function Hash(key: Key): (h: nat)
    ensures h < TABLE_SIZE
    ensures |key| % UINT == 0 ==> h == 0
  {
    Acc(HashedPrefix(key)) % TABLE_SIZE
  }

  /** The same polynomial over unbounded integers, without wrap-around. */
  function Poly(key: Key): int {
    if key == [] then 0 else Poly(key[..|key| - 1]) * 37 + CharValue(key[|key| - 1])
  }

  /** The polynomial for a platform whose plain `char` is unsigned. */
  function UnsignedPoly(key: Key): nat {
    if key == [] then 0 else UnsignedPoly(key[..|key| - 1]) * 37 + key[|key| - 1] as int
  }

  /** Reducing the accumulator before a step gives the same result as after it. */
  lemma StepOfReduced(a: int, c: KeyChar)
    ensures ((a % WORD) * 37 + CharValue(c)) % WORD == (a * 37 + CharValue(c)) % WORD
  {
  }

  /**
   * Wrapping at every step is the same as computing the polynomial exactly
   * and reducing it modulo 2^64 once.
   */
  lemma {:induction false} AccIsPolyModWord(key: Key)
    ensures Acc(key) == Poly(key) % WORD
  {
    if key != [] {
      var init := key[..|key| - 1];
      AccIsPolyModWord(init);
      StepOfReduced(Poly(init), key[|key| - 1]);
    }
  }

  /** For keys made of 7-bit bytes the signedness of `char` does not matter. */
  lemma {:induction false} AsciiPolyIsUnsigned(key: Key)
    requires forall i :: 0 <= i < |key| ==> key[i] as int < 128
    ensures Poly(key) == UnsignedPoly(key)
  {
    if key != [] {
      AsciiPolyIsUnsigned(key[..|key| - 1]);
    }
  }

  /**
   * For 7-bit keys the hash is the unsigned polynomial of the bytes read,
   * reduced modulo 2^64 and then modulo `TABLE_SIZE`, whatever the
   * signedness of `char`.
   */
  lemma AsciiHash(key: Key)
    requires forall i :: 0 <= i < |key| ==> key[i] as int < 128
    ensures Hash(key) == (UnsignedPoly(HashedPrefix(key)) % WORD) % TABLE_SIZE
  {
    var p := HashedPrefix(key);
    AccIsPolyModWord(p);
    AsciiPolyIsUnsigned(p);
  }

  /** A two-byte 7-bit key hashes to its two-term polynomial: no wrap-around happens. */
  lemma HashOfPair(a: KeyChar, b: KeyChar)
    requires a as int < 128 && b as int < 128
    ensures Hash([a, b]) == (a as int * 37 + b as int) % TABLE_SIZE
  {
    assert HashedPrefix([a, b]) == [a, b];
    assert [a, b][..1] == [a];
    assert [a][..0] == [];
    assert Acc([a]) == a as int;
    assert Acc([a, b]) == a as int * 37 + b as int;
  }

  /**
   * Only the bytes that `key_len` covers reach the hash: a key hashes like
   * its first `|key| mod 2^32` bytes, so keys that share those bytes and
   * differ only beyond them collide.
   */
  lemma HashReadsPrefixOnly(key: Key)
    ensures Hash(key) == Hash(HashedPrefix(key))
  {
    assert HashedPrefix(HashedPrefix(key)) == HashedPrefix(key);
  }

  /**
   * `hash`: the accumulation loop over the first `key_len` bytes, `key_len`
   * being the 32-bit truncation of the key's length, followed by one reduction.
   */
  method ComputeHash(key: Key) returns (h: nat)
    ensures h == Hash(key)
  {
    var value: nat := 0;
    var i := 0;
    var keyLen := |key| % UINT;
    while i < keyLen
      invariant 0 <= i <= keyLen
      invariant value == Acc(key[..i])
    {
      assert key[..i + 1][..i] == key[..i];
      value := (value * 37 + CharValue(key[i])) % WORD;
      i := i + 1;
    }
    assert key[..keyLen] == HashedPrefix(key);
    h := value % TABLE_SIZE;
  }

  /**
   * `_ht_index`: the hash reduced modulo `TABLE_SIZE` a second time, which
   * gives the hash itself.
   */
  method HtIndex(key: Key) returns (index: nat)
    ensures index == Hash(key)
  {
    var h := ComputeHash(key);
    index := h % TABLE_SIZE;
  }
}
