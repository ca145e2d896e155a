/**
 * The two stateless helpers that htable.c and dhtable.c each define as `static`
 * functions (the two copies are identical): the word-to-integer hash and the
 * double-hashing step size.
 */
module WordHash {

  /** `unsigned int` arithmetic wraps around modulo 2^32. */
  const Modulus: nat := 0x1_0000_0000

  /**
   * The hash of a word: the left fold `h := c + 31 * h` over its characters,
   * starting from 0, in unsigned 32-bit arithmetic. A word is the characters
   * before its terminating NUL; characters are their ASCII codes.
   */
  function Hash(word: string): (h: nat)
    ensures h < Modulus
  {
    if |word| == 0 then 0
    else (word[|word| - 1] as int + 31 * Hash(word[..|word| - 1])) % Modulus
  }

  /** Extending a word by one character performs exactly one step of the fold. */
  lemma HashSnoc(word: string, c: char)
    ensures Hash(word + [c]) == (c as int + 31 * Hash(word)) % Modulus
  {
    assert (word + [c])[..|word|] == word;
  }

  /** htable_word_to_int: the loop that walks the word accumulating `result`. */
  method WordToInt(word: string) returns (result: nat)
    ensures result == Hash(word)
    ensures result < Modulus
  {
    result := 0;
    var i := 0;
    while i < |word|
      invariant 0 <= i <= |word|
      invariant result == Hash(word[..i])
    {
      assert word[..i + 1][..i] == word[..i];
      result := (word[i] as int + 31 * result) % Modulus;
      i := i + 1;
    }
    assert word[..i] == word;
  }

  /**
   * htable_step: the double-hashing step `1 + key mod (capacity - 1)`. Under the
   * requirement `capacity >= 2` (the divisor must be positive) it is never 0 and
   * never a whole turn of the table.
   */
  function Step(capacity: int, key: nat): (step: nat)
    requires capacity >= 2
    ensures 1 <= step <= capacity - 1
  {
    1 + key % (capacity - 1)
  }
}
