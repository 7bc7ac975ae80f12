/** The smaller and the larger of two numbers, products as the loops build them up, and the next value
    of a counter modulo n. */
module Arithmetic {
  function Min(a: int, b: int): int { if a <= b then a else b }

  function Max(a: int, b: int): int { if a >= b then a else b }

  /** n * x, by repeated addition: what the delay loops compute. */
  function Times(n: nat, x: nat): (t: nat)
    ensures n > 0 ==> t >= x
  {
    if n == 0 then 0 else Times(n - 1, x) + x
  }

  lemma {:induction false} TimesIsProduct(n: nat, x: nat)
    ensures Times(n, x) == n * x
  {
    if n > 0 {
      TimesIsProduct(n - 1, x);
      assert (n - 1) * x + x == n * x;
    }
  }

  lemma {:induction false} TimesGrows(m: nat, n: nat, x: nat)
    requires m <= n
    ensures Times(m, x) <= Times(n, x)
  {
    if m < n {
      TimesGrows(m, n - 1, x);
    }
  }

  lemma MulGrows(a: int, n: int)
    requires a >= 1 && n >= 0
    ensures a * n >= n
  {
  }

  lemma ModUnique(y: int, n: int, q: int, r: int)
    requires n >= 1 && y == q * n + r && 0 <= r < n
    ensures y % n == r
  {
    var k := q - y / n;
    assert k * n == q * n - (y / n) * n == y % n - r;
    assert (-k) * n == -(k * n);
    if k >= 1 {
      MulGrows(k, n);
    } else if k <= -1 {
      MulGrows(-k, n);
    }
  }

  lemma ModNext(y: int, n: int)
    requires n >= 1
    ensures (y + 1) % n == if y % n + 1 == n then 0 else y % n + 1
  {
    var q := y / n;
    if y % n + 1 == n {
      assert (q + 1) * n == q * n + n;
      ModUnique(y + 1, n, q + 1, 0);
    } else {
      ModUnique(y + 1, n, q, y % n + 1);
    }
  }
}
