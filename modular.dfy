/** Facts about Dafny's (Euclidean) remainder used by the wrap-around cursors. */
module Modular {

  /** A multiple of at least one period is at least one period long. */
  lemma MulAtLeast(m: int, n: int)
    requires m >= 1 && n > 0
    ensures m * n >= n
  {
  }

  /** Quotient and remainder are determined by any decomposition with the remainder in range. */
  lemma DivModUnique(x: int, k: int, r: int, n: int)
    requires n > 0 && 0 <= r < n && x == k * n + r
    ensures x / n == k && x % n == r
  {
    var k', r' := x / n, x % n;
    assert x == k' * n + r';
    if k' < k {
      MulAtLeast(k - k', n);
      assert false;
    } else if k < k' {
      MulAtLeast(k' - k, n);
      assert false;
    }
  }

  /** Adding a whole number of periods does not change the remainder. */
  lemma ModShift(x: int, q: int, n: int)
    requires n > 0
    ensures (x + q * n) % n == x % n
  {
    var k := x / n;
    assert x == k * n + x % n;
    assert x + q * n == (k + q) * n + x % n;
    DivModUnique(x + q * n, k + q, x % n, n);
  }

  /** Reducing the left operand first does not change the remainder of a sum. */
  lemma ModAddLeft(a: int, b: int, n: int)
    requires n > 0
    ensures ((a % n) + b) % n == (a + b) % n
  {
    var q := a / n;
    assert a == q * n + a % n;
    ModShift((a % n) + b, q, n);
    assert (a % n) + b + q * n == a + b;
  }

  /** A position in range comes back to itself after one full period. */
  lemma ModFullTurn(j: int, n: int)
    requires 0 <= j < n
    ensures j % n == j && (j + n) % n == j && (j - n) % n == j
  {
    DivModUnique(j, 0, j, n);
    DivModUnique(j + n, 1, j, n);
    DivModUnique(j - n, -1, j, n);
  }

  /** A dividend below q + 1 periods has a quotient of at most q. */
  lemma DivAtMost(x: int, m: int, q: int)
    requires m > 0 && x < (q + 1) * m
    ensures x / m <= q
  {
    var k := x / m;
    assert x == k * m + x % m;
    if k > q {
      MulAtLeast(k - q, m);
      assert false;
    }
  }

  /** The quotient by a positive divisor is positive exactly when the dividend reaches the divisor. */
  lemma DivPositive(x: int, m: int)
    requires m > 0
    ensures x / m > 0 <==> x >= m
  {
    var q := x / m;
    assert x == q * m + x % m;
    if q > 0 {
      MulAtLeast(q, m);
    } else {
      assert q * m <= 0;
    }
  }

}
