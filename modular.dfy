/** Facts about Euclidean `%` used by the cyclic index arithmetic.
    For a positive modulus, Python's `%` and Dafny's `%` agree. */
module Modular {

  /** Euclidean division is unique: a quotient/remainder pair determines `x % n`. */
  lemma ModUnique(x: int, q: int, r: int, n: int)
    requires n > 0 && 0 <= r < n && x == q * n + r
    ensures x % n == r
  {
    var d := x / n;
    assert x == d * n + x % n;
    assert (q - d) * n == x % n - r;
    MulBound(q - d, n);
  }

  /** A non-zero multiple of `n` is at least `n` away from zero. */
  lemma MulBound(t: int, n: int)
    requires n > 0
    ensures t >= 1 ==> t * n >= n
    ensures t <= -1 ==> t * n <= -n
  {
    if t >= 1 {
      assert t * n == (t - 1) * n + n;
    } else if t <= -1 {
      assert t * n == -((-t - 1) * n) - n;
    }
  }

  /** Adding a multiple of the modulus does not change the remainder. */
  lemma ModAddMultiple(x: int, q: int, n: int)
    requires n > 0
    ensures (x + q * n) % n == x % n
  {
    assert x == (x / n) * n + x % n;
    assert x + q * n == (x / n + q) * n + x % n;
    ModUnique(x + q * n, x / n + q, x % n, n);
  }

  /** Reducing one summand first does not change the remainder of a sum. */
  lemma ModOfSum(x: int, d: int, n: int)
    requires n > 0
    ensures (x % n + d) % n == (x + d) % n
  {
    assert x == (x / n) * n + x % n;
    ModAddMultiple(x % n + d, x / n, n);
    assert x % n + d + (x / n) * n == x + d;
  }

  /** A value already in `[0, n)` is its own remainder. */
  lemma ModSmall(x: int, n: int)
    requires 0 <= x < n
    ensures x % n == x
  {
    ModUnique(x, 0, x, n);
  }

  /** The remainder of a difference, from the remainders of its terms. */
  lemma ModDiff(i: int, j: int, n: int)
    requires n > 0
    ensures i % n <= j % n ==> (j - i) % n == j % n - i % n
    ensures i % n > j % n ==> (j - i) % n == n - i % n + j % n
  {
    var a, b := i % n, j % n;
    assert i == (i / n) * n + a;
    assert j == (j / n) * n + b;
    if a <= b {
      ModUnique(j - i, j / n - i / n, b - a, n);
    } else {
      ModUnique(j - i, j / n - i / n - 1, n - a + b, n);
    }
  }
}
