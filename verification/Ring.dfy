/** Arithmetic of positions in a ring of `n` cells, shared by the pipe and the ring queue. */
module Ring {

  lemma ModDistinct(a: nat, b: nat, n: nat)
    requires a < b < a + n
    ensures a % n != b % n
  {
    if a % n == b % n {
      DivMod(a, n);
      DivMod(b, n);
      assert b - a == n * (b / n - a / n) by { Distribute(n, b / n, a / n); }
      NoMultiple(n, b / n - a / n);
    }
  }

  lemma DivMod(a: nat, n: nat)
    requires n > 0
    ensures a == n * (a / n) + a % n
  {
  }

  lemma Distribute(n: int, x: int, y: int)
    ensures n * x - n * y == n * (x - y)
  {
  }

  lemma NoMultiple(n: nat, k: int)
    requires n > 0
    ensures !(0 < n * k < n)
  {
    if k >= 1 { Grows(n, k); } else { Shrinks(n, k); }
  }

  lemma Grows(n: nat, k: int)
    requires k >= 1
    ensures n * k >= n
  {
  }

  lemma Shrinks(n: nat, k: int)
    requires k <= 0
    ensures n * k <= 0
  {
  }

  /** Advancing a position is advancing its count. */
  lemma ModNext(a: nat, n: nat)
    requires n > 0
    ensures (a % n + 1) % n == (a + 1) % n
  {
    var q, r := a / n, a % n;
    DivMod(a, n);
    if r + 1 < n {
      Remainder(r + 1, n, 0, r + 1);
      Remainder(a + 1, n, q, r + 1);
    } else {
      Distribute(n, q + 1, q);
      Remainder(r + 1, n, 1, 0);
      Remainder(a + 1, n, q + 1, 0);
    }
  }

  lemma Remainder(a: nat, n: nat, q: nat, r: nat)
    requires n > 0 && a == n * q + r && r < n
    ensures a % n == r
  {
    DivMod(a, n);
    assert n * (a / n - q) == r - a % n by { Distribute(n, a / n, q); }
    if r > a % n { NoMultiple(n, a / n - q); }
    if r < a % n {
      Distribute(n, q, a / n);
      NoMultiple(n, q - a / n);
    }
  }
}
