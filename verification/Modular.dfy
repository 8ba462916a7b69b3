/** Remainders of counters that wrap at n. */
module Modular {

  lemma {:induction false} ProductNonNegative(a: int, n: int)
    requires a >= 0 && n >= 0
    ensures a * n >= 0
  {
  }

  lemma {:induction false} MultipleIsLarge(a: int, n: int)
    requires a >= 1 && n >= 1
    ensures a * n >= n
  {
    ProductNonNegative(a - 1, n);
    assert (a - 1) * n == a * n - n;
  }

  /** The only multiple of n between -n and n is 0. */
  lemma {:induction false} NoMultiple(a: int, n: int, d: int)
    requires n >= 1 && a * n == d && -n < d < n
    ensures a == 0
  {
    assert -a * n == -d;
    if a >= 1 {
      MultipleIsLarge(a, n);
    } else if a <= -1 {
      MultipleIsLarge(-a, n);
    }
  }

  lemma {:induction false} ModIs(k: nat, n: nat, q: int, r: int)
    requires n >= 1 && k == q * n + r && 0 <= r < n
    ensures k % n == r
  {
    var d, e := k / n, k % n;
    assert k == d * n + e;
    assert (d - q) * n == r - e;
    NoMultiple(d - q, n, r - e);
  }

  /** What a counter from 0 to n-1 does when it is stepped. */
  function Next(i: int, n: nat): int {
    if i + 1 >= n then 0 else i + 1
  }

  lemma {:induction false} ModNext(k: nat, n: nat)
    requires n >= 1
    ensures (k + 1) % n == Next(k % n, n)
  {
    var q := k / n;
    assert k == q * n + k % n;
    if k % n + 1 == n {
      assert (q + 1) * n == q * n + n;
      ModIs(k + 1, n, q + 1, 0);
    } else {
      ModIs(k + 1, n, q, k % n + 1);
    }
  }
}
