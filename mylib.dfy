/**
 * mylib.c: the prime search used to size a table, and the word reader that
 * feeds it. The reader's stream is modelled as a character sequence with a
 * cursor (the index of the next character `getc` would return); characters
 * are ASCII.
 */
module MyLib {

  import opened Wrappers
  import opened Arith

  // ---------------------------------------------------------------------------
  // next_prime
  // ---------------------------------------------------------------------------

  /** The usual notion: at least 2, with no divisor strictly between 1 and itself. */
  predicate IsPrime(n: int) {
    n >= 2 && forall d :: 2 <= d < n ==> n % d != 0
  }

  /** Whether the odd trial divisors i, i + 2, ... below `n` include a divisor of `n`. */
  function HasOddDivisorFrom(n: int, i: int): (b: bool)
    requires i >= 3
    decreases n - i
  {
    if i >= n then false else n % i == 0 || HasOddDivisorFrom(n, i + 2)
  }

  /**
   * The test one pass of next_prime's outer loop applies to `x`: `x` is odd,
   * and none of the trial divisors 3, 5, 7, ... below `x` divides it. (C's `%`
   * truncates, but whether a remainder is zero is the same as with Dafny's.)
   */
  predicate TrialPrime(x: int) {
    x % 2 != 0 && !HasOddDivisorFrom(x, 3)
  }

  /** `r` is the first number at or after `x` that passes the trial. */
  predicate LeastTrialPrimeFrom(x: int, r: int) {
    r >= x && TrialPrime(r) && forall n :: x <= n < r ==> !TrialPrime(n)
  }

  /** A found divisor among the trial divisors is a real one. */
  lemma {:induction false} OddDivisorFound(n: int, i: int) returns (d: int)
    requires i >= 3 && HasOddDivisorFrom(n, i)
    ensures i <= d < n && n % d == 0
    decreases n - i
  {
    if n % i == 0 {
      d := i;
    } else {
      d := OddDivisorFound(n, i + 2);
    }
  }

  /** An odd divisor at or after the trial start is found by the trial. */
  lemma {:induction false} OddDivisorFinds(n: int, i: int, d: int)
    requires 3 <= i <= d < n && i % 2 == 1 && d % 2 == 1 && n % d == 0
    ensures HasOddDivisorFrom(n, i)
    decreases d - i
  {
    if i < d && n % i != 0 {
      OddDivisorFinds(n, i + 2, d);
    }
  }

  /** A number with an even divisor is even. */
  lemma EvenDivisor(n: int, d: int)
    requires d > 0 && d % 2 == 0 && n % d == 0
    ensures n % 2 == 0
  {
    var q, h := n / d, d / 2;
    assert n == q * d && d == 2 * h;
    assert n == (q * h) * 2;
    ModUnique(n, q * h, 0, 2);
  }

  /** From 3 on, passing the trial is being prime. */
  lemma TrialPrimeIsPrime(n: int)
    requires n >= 3
    ensures TrialPrime(n) <==> IsPrime(n)
  {
    if IsPrime(n) && HasOddDivisorFrom(n, 3) {
      var d := OddDivisorFound(n, 3);
    }
    if TrialPrime(n) {
      forall d | 2 <= d < n
        ensures n % d != 0
      {
        if n % d == 0 {
          if d % 2 == 0 {
            EvenDivisor(n, d);
          } else {
            OddDivisorFinds(n, 3, d);
          }
        }
      }
    }
  }

  lemma MulMonotone(a: int, b: int, c: int)
    requires a <= b && c >= 0
    ensures a * c <= b * c
  {
    assert b * c - a * c == (b - a) * c;
  }

  /** An odd number the trial rejects has an odd divisor no larger than its square root. */
  lemma SmallOddDivisor(n: int) returns (d: int)
    requires n % 2 == 1 && HasOddDivisorFrom(n, 3)
    ensures 3 <= d && d % 2 == 1 && d * d <= n && n % d == 0
  {
    var d0 := OddDivisorFound(n, 3);
    if d0 % 2 == 0 {
      EvenDivisor(n, d0);
    }
    var e := n / d0;
    assert n == d0 * e;
    if e <= 0 {
      MulMonotone(e, 0, d0);
    }
    ModUnique(n, d0, 0, e);
    if e % 2 == 0 {
      EvenDivisor(n, e);
    }
    assert e != 1;
    if d0 <= e {
      MulMonotone(d0, e, d0);
      d := d0;
    } else {
      MulMonotone(e, d0, e);
      d := e;
    }
  }

  /**
   * Trial division need only go as far as the square root: an odd number with
   * no odd divisor from 3 up to below `bound`, where `bound * bound > n`, passes
   * the whole trial.
   */
  lemma TrialUpToSquareRoot(n: int, bound: int)
    requires n % 2 == 1 && bound >= 0 && bound * bound > n
    requires forall d :: 3 <= d < bound && d % 2 == 1 ==> n % d != 0
    ensures TrialPrime(n)
  {
    if HasOddDivisorFrom(n, 3) {
      var d := SmallOddDivisor(n);
      if d >= bound {
        MulMonotone(bound, d, bound);
        MulMonotone(bound, d, d);
      }
    }
  }

  function Factorial(n: nat): (f: nat)
    ensures f >= 1
  {
    if n == 0 then 1 else n * Factorial(n - 1)
  }

  /** n! is divisible by every number from 1 to n. */
  lemma {:induction false} FactorialDivisible(n: nat, d: int)
    requires 1 <= d <= n
    ensures Factorial(n) % d == 0
  {
    var f := Factorial(n - 1);
    assert Factorial(n) == n * f;
    if d == n {
      assert n * f == f * d + 0;
      ModUnique(n * f, f, 0, d);
    } else {
      FactorialDivisible(n - 1, d);
      var k := f / d;
      assert f == k * d + f % d;
      assert n * f == (n * k) * d + 0 by {
        assert n * (k * d) == (n * k) * d;
      }
      ModUnique(n * f, n * k, 0, d);
    }
  }

  /** The least divisor above 1 of a number at least 2 is prime. */
  lemma LeastDivisorIsPrime(m: int) returns (p: int)
    requires m >= 2
    ensures 2 <= p <= m && m % p == 0 && IsPrime(p)
  {
    p := 2;
    while m % p != 0
      invariant 2 <= p <= m
      invariant forall d :: 2 <= d < p ==> m % d != 0
      decreases m - p
    {
      ModUnique(m, 1, 0, m);
      p := p + 1;
    }
    forall d | 2 <= d < p
      ensures p % d != 0
    {
      if p % d == 0 {
        var a, b := p / d, m / p;
        assert p == a * d && m == b * p;
        assert m == (b * a) * d;
        ModUnique(m, b * a, 0, d);
      }
    }
  }

  /** Euclid: there is a prime above every number at least 2 (a factor of m! + 1). */
  lemma PrimeAbove(m: int) returns (p: int)
    requires m >= 2
    ensures p > m && IsPrime(p)
  {
    p := LeastDivisorIsPrime(Factorial(m) + 1);
    if p <= m {
      FactorialDivisible(m, p);
      ModUnique(Factorial(m) + 1, Factorial(m) / p, 1, p);
      assert false;
    }
  }

  /** Some number at or after `x` passes the trial, so next_prime's outer loop ends. */
  lemma TrialPrimeAtOrAbove(x: int) returns (b: int)
    ensures b >= x && TrialPrime(b)
  {
    if x <= 1 {
      b := if x % 2 == 0 then x + 1 else x;
    } else {
      b := PrimeAbove(x);
      TrialPrimeIsPrime(b);
    }
  }

  /**
   * next_prime: step `x` past even numbers and past odd numbers with an odd
   * trial divisor. The result is the first number at or after `x` passing
   * the trial: from 3 on the smallest prime at least `x` (so `x` itself when it
   * is prime, although the doc comment says "greater than"), 3 for 2, and for
   * `x <= 1`, where the trial loop never runs, `x` or `x + 1`, whichever is odd.
   */
  method NextPrime(x0: int) returns (x: int)
    ensures LeastTrialPrimeFrom(x0, x)
    ensures x % 2 == 1
    ensures x0 >= 2 ==> IsPrime(x)
    ensures x0 >= 3 ==> forall n :: x0 <= n < x ==> !IsPrime(n)
    ensures x0 <= 1 ==> x == if x0 % 2 == 0 then x0 + 1 else x0
  {
    ghost var bound := TrialPrimeAtOrAbove(x0);
    x := x0;
    var isPrime := 0;
    while isPrime == 0
      invariant x0 <= x <= bound
      invariant forall n :: x0 <= n < x ==> !TrialPrime(n)
      invariant isPrime != 0 ==> TrialPrime(x)
      decreases bound - x, 1 - isPrime
    {
      if x % 2 == 0 {
        x := x + 1;
      } else {
        ghost var y := x;
        isPrime := 1;
        var i := 3;
        while i < x
          invariant 3 <= i && i % 2 == 1 && x == y && isPrime == 1
          invariant HasOddDivisorFrom(y, 3) == HasOddDivisorFrom(y, i)
          decreases x - i
        {
          if x % i == 0 {
            x := x + 1;
            isPrime := 0;
            break;
          }
          i := i + 2;
        }
      }
    }
    LeastTrialPrimeFacts(x0, x);
  }

  /**
   * What the first number at or after `x0` that passes the trial is: an odd
   * number; a prime from `x0 == 2` on; from 3 on the smallest prime at least
   * `x0`; and for `x0 <= 1`, `x0` or `x0 + 1`, whichever is odd.
   */
  lemma LeastTrialPrimeFacts(x0: int, x: int)
    requires LeastTrialPrimeFrom(x0, x)
    ensures x % 2 == 1
    ensures x0 >= 2 ==> IsPrime(x)
    ensures x0 >= 3 ==> forall n :: x0 <= n < x ==> !IsPrime(n)
    ensures x0 <= 1 ==> x == if x0 % 2 == 0 then x0 + 1 else x0
  {
    if x0 <= 1 {
      var c := if x0 % 2 == 0 then x0 + 1 else x0;
      assert TrialPrime(c);
      assert x0 % 2 == 0 ==> !TrialPrime(x0);
    }
    if x0 >= 2 {
      assert x != 2;
      TrialPrimeIsPrime(x);
    }
    if x0 >= 3 {
      forall n | x0 <= n < x
        ensures !IsPrime(n)
      {
        TrialPrimeIsPrime(n);
      }
    }
  }

  /** 113 and 127 pass the trial: no odd number from 3 to their square roots divides them. */
  lemma TrialPrimes113And127()
    ensures TrialPrime(113) && TrialPrime(127)
  {
    forall d | 3 <= d < 12 && d % 2 == 1
      ensures 113 % d != 0 && 127 % d != 0
    {
      assert d == 3 || d == 5 || d == 7 || d == 9 || d == 11;
    }
    TrialUpToSquareRoot(113, 11);
    TrialUpToSquareRoot(127, 12);
  }

  /** next_prime(113) is 113 itself, the only result `NextPrime`'s contract allows. */
  lemma NextPrimeOfPrime()
    ensures forall r :: LeastTrialPrimeFrom(113, r) <==> r == 113
  {
    TrialPrimes113And127();
  }

  /** next_prime(114) is 127: every number from 114 to 126 is even or has an odd divisor. */
  lemma NextPrimeSkips()
    ensures forall r :: LeastTrialPrimeFrom(114, r) <==> r == 127
  {
    TrialPrimes113And127();
    assert HasOddDivisorFrom(115, 3) && HasOddDivisorFrom(117, 3) && HasOddDivisorFrom(119, 3);
    assert HasOddDivisorFrom(121, 3) && HasOddDivisorFrom(123, 3) && HasOddDivisorFrom(125, 3);
  }

  /** next_prime(2) is 3, and next_prime(1) and next_prime(0) are both 1. */
  lemma NextPrimeSmall()
    ensures forall r :: LeastTrialPrimeFrom(2, r) <==> r == 3
    ensures forall r :: LeastTrialPrimeFrom(1, r) <==> r == 1
    ensures forall r :: LeastTrialPrimeFrom(0, r) <==> r == 1
  {
    assert TrialPrime(3) && TrialPrime(1) && !TrialPrime(2) && !TrialPrime(0);
  }

  // ---------------------------------------------------------------------------
  // getword
  // ---------------------------------------------------------------------------

  /** The value getword returns at the end of the input. */
  const EOF: int := -1

  /** isalnum in the C locale. */
  predicate IsAlnum(c: char) {
    'a' <= c <= 'z' || 'A' <= c <= 'Z' || '0' <= c <= '9'
  }

  /** tolower in the C locale. */
  function ToLower(c: char): (l: char)
    ensures !('A' <= l <= 'Z')
    ensures IsAlnum(c) <==> IsAlnum(l)
  {
    if 'A' <= c <= 'Z' then (c as int - 'A' as int + 'a' as int) as char else c
  }

  /** A character a word may contain: a letter, a digit or an apostrophe. */
  predicate InWord(c: char) {
    IsAlnum(c) || c == '\''
  }

  predicate AllInWord(seg: seq<char>) {
    forall k :: 0 <= k < |seg| ==> InWord(seg[k])
  }

  /** The letters and digits of `seg`, lowercased, with everything else dropped. */
  function Letters(seg: seq<char>): (w: seq<char>)
    ensures |w| <= |seg|
    ensures forall k :: 0 <= k < |w| ==> IsAlnum(w[k]) && !('A' <= w[k] <= 'Z')
  {
    if seg == [] then []
    else Letters(seg[..|seg| - 1]) + (if IsAlnum(seg[|seg| - 1]) then [ToLower(seg[|seg| - 1])] else [])
  }

  /**
   * Reading one more character of the input: it joins the run of word
   * characters exactly when it is one, and it adds itself, lowercased, to the
   * word exactly when it is a letter or a digit.
   */
  lemma SegmentSnoc(input: seq<char>, start: nat, pos: nat, next: nat)
    requires start <= pos < |input| && next == pos + 1
    ensures AllInWord(input[start..next]) <==> AllInWord(input[start..pos]) && InWord(input[pos])
    ensures Letters(input[start..next]) ==
            Letters(input[start..pos]) + (if IsAlnum(input[pos]) then [ToLower(input[pos])] else [])
  {
    var seg, seg' := input[start..pos], input[start..next];
    assert seg' == seg + [input[pos]];
    assert seg'[..|seg|] == seg;
    assert forall k :: 0 <= k < |seg| ==> seg'[k] == seg[k];
  }

  /** The index of the first letter or digit at or after `i`, or the end of the input. */
  function FirstAlnum(input: seq<char>, i: nat): (j: nat)
    requires i <= |input|
    ensures i <= j <= |input|
    ensures forall k :: i <= k < j ==> !IsAlnum(input[k])
    ensures j < |input| ==> IsAlnum(input[j])
    decreases |input| - i
  {
    if i == |input| || IsAlnum(input[i]) then i else FirstAlnum(input, i + 1)
  }

  /**
   * What a call that found a word at `start` read and wrote, ending with the
   * cursor at `next`. With `limit == 1` the first letter is consumed and
   * nothing is written. Otherwise the word is the lowercased letters and
   * digits of a run of letters, digits and apostrophes starting at `start`,
   * and either (a) it reached `limit - 1` letters and reading stopped just
   * after the last of them, or (b) it is shorter and the run went to the end
   * of the input, or (c) it is shorter and the run ended at a character that
   * is no part of a word, which was consumed.
   */
  ghost predicate WordRead(input: seq<char>, start: nat, limit: int, next: nat, word: seq<char>)
    requires start < next <= |input|
  {
    if limit == 1 then
      next == start + 1 && word == []
    else
      (|word| == limit - 1 && IsAlnum(input[next - 1]) &&
       AllInWord(input[start..next]) && word == Letters(input[start..next])) ||
      (|word| < limit - 1 && next == |input| &&
       AllInWord(input[start..]) && word == Letters(input[start..])) ||
      (|word| < limit - 1 && !InWord(input[next - 1]) &&
       AllInWord(input[start..next - 1]) && word == Letters(input[start..next - 1]))
  }

  /** Whatever `WordRead` allows, the word is made of lowercased letters and digits. */
  lemma WordReadLetters(input: seq<char>, start: nat, limit: int, next: nat, word: seq<char>)
    requires start < next <= |input| && WordRead(input, start, limit, next, word)
    ensures forall k :: 0 <= k < |word| ==> IsAlnum(word[k]) && !('A' <= word[k] <= 'Z')
  {
    if limit != 1 {
      assert word == Letters(input[start..next]) || word == Letters(input[start..]) ||
             word == Letters(input[start..next - 1]);
    }
  }

  /** A word's first character, a letter or digit, is read and written lowercased. */
  lemma FirstLetter(input: seq<char>, start: nat, next: nat)
    requires start < |input| && next == start + 1 && IsAlnum(input[start])
    ensures AllInWord(input[start..next]) && Letters(input[start..next]) == [ToLower(input[start])]
  {
    SegmentSnoc(input, start, start, next);
  }

  /** Reading stopped because `limit - 1` letters and digits were written. */
  lemma ReadToLimit(input: seq<char>, start: nat, limit: int, next: nat, word: seq<char>)
    requires 2 <= limit && start < next <= |input| && |word| == limit - 1 && IsAlnum(input[next - 1])
    requires AllInWord(input[start..next]) && word == Letters(input[start..next])
    ensures WordRead(input, start, limit, next, word)
  {
  }

  /** Reading stopped at the end of the input, with room left. */
  lemma ReadToEnd(input: seq<char>, start: nat, limit: int, word: seq<char>)
    requires 2 <= limit && start < |input| && |word| < limit - 1
    requires AllInWord(input[start..]) && word == Letters(input[start..])
    ensures WordRead(input, start, limit, |input|, word)
  {
  }

  /** Reading stopped at (and consumed) a character that is no part of a word, with room left. */
  lemma ReadToStop(input: seq<char>, start: nat, limit: int, next: nat, word: seq<char>)
    requires 2 <= limit && start < next - 1 && next <= |input| && |word| < limit - 1 && !InWord(input[next - 1])
    requires AllInWord(input[start..next - 1]) && word == Letters(input[start..next - 1])
    ensures WordRead(input, start, limit, next, word)
  {
  }

  /** getc: the next character and the advanced cursor, or `None` at the end of the input. */
  method Getc(input: seq<char>, pos: nat) returns (c: Option<char>, next: nat)
    requires pos <= |input|
    ensures c.Some? <==> pos < |input|
    ensures c.Some? ==> c.value == input[pos] && next == pos + 1
    ensures c.None? ==> next == pos
  {
    if pos < |input| {
      c, next := Some(input[pos]), pos + 1;
    } else {
      c, next := None, pos;
    }
  }

  /**
   * The second half of getword, once the skip loop has read `c`, the first
   * letter or digit, at `input[start]`: write it lowercased if `limit` leaves
   * room, then read the rest of the word (`ReadRun`) and terminate it with NUL.
   */
  method ReadWord(s: array<char>, limit: int, input: seq<char>, start: nat, c: char) returns (n: int, next: nat)
    requires 0 < limit <= s.Length && start < |input| && c == input[start] && IsAlnum(c)
    modifies s
    ensures 0 <= n < limit && s[n] == '\0'
    ensures start < next <= |input| && WordRead(input, start, limit, next, s[..n])
    ensures forall k :: n < k < s.Length ==> s[k] == old(s[k])
  {
    var pos: nat := start + 1;
    var lim := limit - 1;
    var w := 0;
    if lim > 0 {
      s[w] := ToLower(c);
      w := w + 1;
      FirstLetter(input, start, pos);
      assert s[..w] == [ToLower(input[start])];
      // The loop test `--limit > 0` fails at once when `limit` was 1, so the
      // loop is entered only on this branch.
      w, pos := ReadRun(s, limit, input, start, pos, w, lim - 1);
    }
    ghost var word := s[..w];
    s[w] := '\0';
    assert s[..w] == word;
    n, next := w, pos;
  }

  /**
   * The state of getword's loop after the first letter or digit at `start`:
   * the characters read so far, up to the cursor `pos`, are letters, digits
   * and apostrophes; the characters written are their letters and digits,
   * lowercased; written characters and `lim` (getword's `limit` after the
   * loop test decremented it) add up to `limit - 1`; and when `lim` reached 0
   * the last character read was a letter or digit.
   */
  ghost predicate RunSoFar(input: seq<char>, start: nat, limit: int, pos: nat, lim: int, written: seq<char>)
  {
    2 <= limit && start < pos <= |input| && |written| < limit &&
    AllInWord(input[start..pos]) && written == Letters(input[start..pos]) &&
    |written| + lim == limit - 1 && (lim == 0 ==> IsAlnum(input[pos - 1]))
  }

  /**
   * The loop of getword: while `limit` allows, read a character (`ReadStep`)
   * and stop when it ends the word. `lim` is getword's `limit` after the loop
   * test decremented it; `w` is how many characters were written so far (at
   * least the first, since the loop runs only when `limit >= 2`).
   */
  method ReadRun(s: array<char>, limit: int, input: seq<char>, start: nat, pos0: nat, w0: nat, lim0: int)
    returns (w: nat, pos: nat)
    requires limit <= s.Length && w0 <= s.Length && RunSoFar(input, start, limit, pos0, lim0, s[..w0])
    modifies s
    ensures w < limit && start < pos <= |input| && WordRead(input, start, limit, pos, s[..w])
    ensures forall k :: w <= k < s.Length ==> s[k] == old(s[k])
  {
    w, pos := w0, pos0;
    var lim := lim0;
    while lim > 0
      invariant w <= s.Length && RunSoFar(input, start, limit, pos, lim, s[..w])
      invariant forall k :: w <= k < s.Length ==> s[k] == old(s[k])
      decreases |input| - pos
    {
      var stop: bool;
      w, pos, lim, stop := ReadStep(s, limit, input, start, w, pos, lim);
      if stop {
        return;
      }
    }
    ReadToLimit(input, start, limit, pos, s[..w]);
  }

  /**
   * One pass of getword's loop: read a character; write a letter or digit
   * lowercased, skip an apostrophe without counting it against `limit`, and
   * report the end of the word at (having consumed) anything else or at the
   * end of the input. Then the loop test decrements `lim`.
   */
  method ReadStep(s: array<char>, limit: int, input: seq<char>, start: nat, w: nat, pos: nat, lim: int)
    returns (w': nat, pos': nat, lim': int, stop: bool)
    requires limit <= s.Length && w <= s.Length && RunSoFar(input, start, limit, pos, lim, s[..w]) && lim > 0
    modifies s
    ensures stop ==> w' < limit && start < pos' <= |input| && WordRead(input, start, limit, pos', s[..w'])
    ensures !stop ==> w' <= s.Length && RunSoFar(input, start, limit, pos', lim', s[..w']) && pos < pos'
    ensures w <= w' && forall k :: w' <= k < s.Length ==> s[k] == old(s[k])
  {
    var c: Option<char>;
    c, pos' := Getc(input, pos);
    w', lim', stop := w, lim, false;
    if c.Some? && IsAlnum(c.value) {
      SegmentSnoc(input, start, pos, pos');
      ghost var written := s[..w];
      s[w] := ToLower(c.value);
      assert s[..w + 1] == written + [ToLower(c.value)];
      w' := w + 1;
    } else if c == Some('\'') {
      SegmentSnoc(input, start, pos, pos');
      lim' := lim + 1;
    } else if c.None? {
      assert input[start..] == input[start..pos];
      ReadToEnd(input, start, limit, s[..w]);
      stop := true;
      return;
    } else {
      ReadToStop(input, start, limit, pos', s[..w]);
      stop := true;
      return;
    }
    lim' := lim' - 1;
  }

  /**
   * getword: skip to the next letter or digit; at the end of the input return
   * EOF. Otherwise copy the word into `s`, lowercased and without apostrophes,
   * at most `limit - 1` characters of it, terminate it with NUL, and return
   * how many characters were written. The cursor ends as `WordRead` says.
   */
  method GetWord(s: array<char>, limit: int, input: seq<char>, cursor: nat) returns (n: int, next: nat)
    requires 0 < limit <= s.Length && cursor <= |input|
    modifies s
    ensures n == EOF <==> FirstAlnum(input, cursor) == |input|
    ensures n == EOF ==> next == |input| && s[..] == old(s[..])
    ensures n != EOF ==> 0 <= n < limit && s[n] == '\0'
    ensures n != EOF ==> forall k :: 0 <= k < n ==> IsAlnum(s[k]) && !('A' <= s[k] <= 'Z')
    ensures n != EOF ==> FirstAlnum(input, cursor) < next <= |input| &&
                         WordRead(input, FirstAlnum(input, cursor), limit, next, s[..n])
    ensures n != EOF ==> forall k :: n < k < s.Length ==> s[k] == old(s[k])
  {
    var c: Option<char>;
    var pos := cursor;
    c, pos := Getc(input, pos);
    while c.Some? && !IsAlnum(c.value)
      invariant cursor <= pos <= |input| && (c.None? ==> pos == |input|) && (c.Some? ==> cursor < pos)
      invariant c.Some? ==> c.value == input[pos - 1] && FirstAlnum(input, cursor) == FirstAlnum(input, pos - 1)
      invariant c.None? ==> FirstAlnum(input, cursor) == |input|
      invariant s[..] == old(s[..])
      decreases |input| - pos, c.Some?
    {
      c, pos := Getc(input, pos);
    }
    if c.None? {
      return EOF, pos;
    }
    n, next := ReadWord(s, limit, input, pos - 1, c.value);
    WordReadLetters(input, pos - 1, limit, next, s[..n]);
    assert forall k :: 0 <= k < n ==> s[k] == s[..n][k];
  }
}
