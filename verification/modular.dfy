/** Facts about Euclidean remainder that the shift proofs rest on.
    Dafny's `%` with a positive divisor is the same operation as Rust's
    `rem_euclid`: the remainder always lies in `[0, n)`. */
module Modular {

  /** Two integers are congruent modulo `n`. */
  predicate Congruent(x: int, y: int, n: int)
    requires n > 0
  {
    x % n == y % n
  }

  /** The remainder is determined by any decomposition `x == q * n + r`
      with `r` in range. */
  lemma ModUnique(x: int, q: int, r: int, n: int)
    requires n > 0 && 0 <= r < n && x == q * n + r
    ensures x % n == r
  {
    var q', r' := x / n, x % n;
    assert x == q' * n + r';
    var d := q' - q;
    MulSubDistrib(q', q, n);
    assert d * n == r - r';
    if d > 0 {
      MulPositive(d, n);
    } else if d < 0 {
      MulNegative(d, n);
    }
    assert d == 0;
  }

  lemma MulSubDistrib(a: int, b: int, n: int)
    ensures (a - b) * n == a * n - b * n
  {
  }

  lemma MulPositive(k: int, n: int)
    requires n > 0 && k > 0
    ensures k * n >= n
  {
  }

  lemma MulNegative(k: int, n: int)
    requires n > 0 && k < 0
    ensures k * n <= -n
  {
  }

  /** Adding a multiple of `n` does not change the remainder. */
  lemma ModAddMultiple(x: int, k: int, n: int)
    requires n > 0
    ensures (x + k * n) % n == x % n
  {
    ModUnique(x + k * n, x / n + k, x % n, n);
  }

  /** The remainder depends only on the congruence class of each summand. */
  lemma ModAddLeft(x: int, y: int, n: int)
    requires n > 0
    ensures (x % n + y) % n == (x + y) % n
  {
    ModAddMultiple(x % n + y, x / n, n);
  }

  lemma ModAddRight(x: int, y: int, n: int)
    requires n > 0
    ensures (x + y % n) % n == (x + y) % n
  {
    ModAddLeft(y, x, n);
  }

  /** A value already in `[0, n)` is its own remainder. */
  lemma ModSmall(x: int, n: int)
    requires n > 0 && 0 <= x < n
    ensures x % n == x
  {
    ModUnique(x, 0, x, n);
  }

  /** Subtracting the normalized shift is the same as adding the normalized
      negated shift. */
  lemma ModSubIsAddNeg(i: int, s: int, n: int)
    requires n > 0
    ensures (i - s % n) % n == (i + (-s) % n) % n
  {
    var p := s % n;
    NegMod(s, n);
    if p != 0 {
      ModAddMultiple(i - p, 1, n);
      assert i + (-s) % n == (i - p) + 1 * n;
    }
  }

  /** The remainder of `-s` is the complement of the remainder of `s`. */
  lemma NegMod(s: int, n: int)
    requires n > 0
    ensures (-s) % n == if s % n == 0 then 0 else n - s % n
  {
    var q, p := s / n, s % n;
    assert s == q * n + p;
    if p == 0 {
      assert -s == (-q) * n + 0;
      ModUnique(-s, -q, 0, n);
    } else {
      assert -s == (-q - 1) * n + (n - p);
      ModUnique(-s, -q - 1, n - p, n);
    }
  }

  /** Adding `s` and then `-s`, each normalized, returns a position in
      `[0, n)` to itself. */
  lemma ModAddCancel(i: int, s: int, n: int)
    requires n > 0 && 0 <= i < n
    ensures ((i + s % n) % n + (-s) % n) % n == i
  {
    ModAddLeft(i + s % n, (-s) % n, n);
    ModAddRight(i + s % n, -s, n);
    assert i + s % n + -s == (i - s) + s % n;
    ModAddRight(i - s, s, n);
    assert i - s + s == i;
    ModSmall(i, n);
  }

  /** Subtracting `s` and then `-s`, each normalized, returns a position in
      `[0, n)` to itself. */
  lemma ModSubCancel(i: int, s: int, n: int)
    requires n > 0 && 0 <= i < n
    ensures ((i - s % n) % n - (-s) % n) % n == i
  {
    var p, j := s % n, (i - s % n) % n;
    NegMod(s, n);
    ModAddLeft(i - p, p, n);
    assert i - p + p == i;
    ModSmall(i, n);
    if p != 0 {
      assert j - (n - p) == (j + p) + (-1) * n;
      ModAddMultiple(j + p, -1, n);
    }
  }
}
