/**
 * Facts about Euclidean `%` and `/` on non-negative operands, used by the probe
 * sequence, the statistics checkpoints and the prime search.
 */
module Arith {

  lemma MulAtLeast(d: int, c: int)
    requires d >= 1 && c > 0
    ensures d * c >= c
  {
    if d > 1 {
      MulAtLeast(d - 1, c);
      assert d * c == (d - 1) * c + c;
    }
  }

  /** Euclidean remainder is determined by any quotient/remainder decomposition. */
  lemma ModUnique(y: int, q: int, r: int, c: int)
    requires c > 0 && 0 <= r < c && y == q * c + r
    ensures y % c == r
  {
    var q', r' := y / c, y % c;
    assert y == q' * c + r';
    var d := q - q';
    assert d * c == r' - r by {
      assert q * c - q' * c == (q - q') * c;
    }
    if d >= 1 {
      MulAtLeast(d, c);
    } else if d <= -1 {
      MulAtLeast(-d, c);
    }
  }

  lemma ModSmall(x: int, c: int)
    requires 0 <= x < c
    ensures x % c == x
  {
    ModUnique(x, 0, x, c);
  }

  lemma ModAddMultiple(x: int, m: int, c: int)
    requires c > 0
    ensures (x + m * c) % c == x % c
  {
    assert x == (x / c) * c + x % c;
    assert x + m * c == (x / c + m) * c + x % c;
    ModUnique(x + m * c, x / c + m, x % c, c);
  }

  lemma ModAddLeft(a: int, b: int, c: int)
    requires c > 0
    ensures (a % c + b) % c == (a + b) % c
  {
    assert a == (a / c) * c + a % c;
    ModAddMultiple(a % c + b, a / c, c);
    assert a % c + b + (a / c) * c == a + b;
  }

  lemma MulSucc(k: int, s: int)
    ensures (k + 1) * s == k * s + s
  {
  }

  /** Adding `s` after reducing modulo `c` lands where adding it first does. */
  lemma ModStep(a: int, b: int, s: int, c: int)
    requires c > 0 && b == a + s
    ensures (a % c + s) % c == b % c
  {
    ModAddLeft(a, s, c);
  }

  lemma DivMonotone(a: int, b: int, n: int)
    requires 0 <= a <= b && n > 0
    ensures a / n <= b / n
  {
    var qa, qb := a / n, b / n;
    assert a == qa * n + a % n && b == qb * n + b % n;
    assert qa * n - qb * n == (qa - qb) * n;
    if qa > qb {
      MulAtLeast(qa - qb, n);
    }
  }
}
