/** Facts about integer division and remainder by a positive divisor that the
    board generator's index arithmetic relies on. Python's `//` and `%` agree
    with Dafny's `/` and `%` whenever the divisor is positive, which is the
    only case the generator uses. */
module Arith {

  /** A positive multiple of `n` is at least `n`; a negative one at most `-n`. */
  lemma MulSign(n: int, k: int)
    requires n > 0
    ensures k >= 1 ==> n * k >= n
    ensures k <= -1 ==> n * k <= -n
  {
  }

  /** Multiplying by a non-negative `n` keeps the order. */
  lemma MulMono(n: int, a: int, b: int)
    requires n >= 0 && a <= b
    ensures n * a <= n * b
  {
    assert n * b - n * a == n * (b - a);
  }

  /** Quotient and remainder are determined by `x == n * q + r` with `0 <= r < n`. */
  lemma DivModUnique(x: int, n: int, q: int, r: int)
    requires n > 0 && 0 <= r < n && x == n * q + r
    ensures x / n == q && x % n == r
  {
    var q', r' := x / n, x % n;
    assert x == n * q' + r' && 0 <= r' < n;
    assert n * (q' - q) == r - r';
    MulSign(n, q' - q);
  }

  /** The two base-`n` digits of a number below `n * n`. */
  lemma DigitBounds(k: int, n: int)
    requires n > 0 && 0 <= k < n * n
    ensures 0 <= k / n < n && 0 <= k % n < n
    ensures k == n * (k / n) + k % n
  {
    var q := k / n;
    assert k == n * q + k % n;
    MulSign(n, q - n + 1);
    assert n * (q - n + 1) == n * q - n * n + n;
    MulSign(n, q + 1);
  }

  /** Multiplication distributes over a sum of three terms. */
  lemma Distrib3(n: int, a: int, b: int, c: int)
    ensures n * (a + b + c) == n * a + n * b + n * c
  {
  }

  /** Composing two digits and taking them apart again. */
  lemma Digits(a: int, t: int, n: int)
    requires n > 0 && 0 <= t < n
    ensures (n * a + t) / n == a && (n * a + t) % n == t
    ensures (a * n + t) / n == a && (a * n + t) % n == t
  {
    assert a * n == n * a;
    DivModUnique(n * a + t, n, a, t);
  }

  /** A number written with two digits below `n` lies below `n * n`. */
  lemma TwoDigitBound(a: int, t: int, n: int)
    requires n > 0 && 0 <= a < n && 0 <= t < n
    ensures 0 <= n * a + t < n * n
  {
    MulMono(n, 0, a);
    MulMono(n, a, n - 1);
    assert n * (n - 1) == n * n - n;
  }

  /** Adding a fixed amount modulo `n` is injective on `[0, n)`. */
  lemma ModShiftInjective(k: int, a: int, b: int, n: int)
    requires n > 0 && 0 <= a < n && 0 <= b < n
    ensures (k + a) % n == (k + b) % n ==> a == b
  {
    var q1, q2 := (k + a) / n, (k + b) / n;
    assert k + a == n * q1 + (k + a) % n;
    assert k + b == n * q2 + (k + b) % n;
    if (k + a) % n == (k + b) % n {
      assert n * (q1 - q2) == a - b;
      MulSign(n, q1 - q2);
    }
  }

  /** ... and it reaches every residue. */
  lemma ModShiftHits(k: int, m: int, n: int)
    requires n > 0 && 0 <= m < n
    ensures 0 <= (m - k) % n < n && (k + (m - k) % n) % n == m
  {
    var c := (m - k) % n;
    var q := (m - k) / n;
    assert m - k == n * q + c;
    assert k + c == n * (-q) + m;
    DivModUnique(k + c, n, -q, m);
  }

  /** Reducing `n * a + t` modulo `n * n` reduces the upper digit modulo `n`. */
  lemma SquareMod(a: int, t: int, n: int)
    requires n > 0 && 0 <= t < n
    ensures (n * a + t) % (n * n) == n * (a % n) + t
  {
    var q, a0 := a / n, a % n;
    assert a == n * q + a0;
    assert n * a + t == (n * n) * q + (n * a0 + t) by {
      assert n * a == n * (n * q) + n * a0;
    }
    TwoDigitBound(a0, t, n);
    DivModUnique(n * a + t, n * n, q, n * a0 + t);
  }
}
