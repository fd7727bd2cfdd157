/** Facts about remainders that the solver does not find by itself. */
module Modular {

  lemma DivModUnique(x: int, n: int, q: int, r: int)
    requires n > 0 && 0 <= r < n && x == q * n + r
    ensures x / n == q && x % n == r
  {
    var p := x / n;
    if p < q {
      MulMono(p + 1, q, n);
    } else if p > q {
      MulMono(q + 1, p, n);
    }
  }

  lemma MulMono(a: int, b: int, n: int)
    requires a <= b && n >= 0
    ensures a * n <= b * n
  {
  }

  /** Adding a multiple of `n` keeps the remainder. */
  lemma ModPlus(x: nat, n: nat, k: nat)
    requires n > 0
    ensures (x + n) % n == x % n
    ensures (x + k * n) % n == x % n
  {
    var q, r := x / n, x % n;
    assert x + n == (q + 1) * n + r;
    DivModUnique(x + n, n, q + 1, r);
    assert x + k * n == (q + k) * n + r;
    DivModUnique(x + k * n, n, q + k, r);
  }

  /** Two numbers less than `n` apart have different remainders. */
  lemma ModApart(a: nat, b: nat, n: nat)
    requires n > 0 && a < b < a + n
    ensures a % n != b % n
  {
    if a % n == b % n {
      var d := b / n - a / n;
      assert b - a == b / n * n - a / n * n == d * n;
      if d >= 1 {
        MulMono(1, d, n);
      } else {
        MulMono(d, 0, n);
      }
    }
  }

  /** Within any `n` consecutive numbers one has remainder `i`. */
  lemma ModHit(k: nat, n: nat, i: nat) returns (off: nat)
    requires i < n
    ensures off < n && (k + off) % n == i
  {
    var q, r := k / n, k % n;
    assert k == q * n + r;
    if r <= i {
      off := i - r;
      DivModUnique(k + off, n, q, i);
    } else {
      off := i + n - r;
      assert k + off == (q + 1) * n + i;
      DivModUnique(k + off, n, q + 1, i);
    }
  }
}
