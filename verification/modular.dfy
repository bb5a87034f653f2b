/**
 * Facts about Euclidean remainders used to follow positions around a
 * circular sequence of length `n`.
 */
module Modular {

  lemma MulSign(d: int, n: int)
    requires 0 < n
    ensures d >= 1 ==> d * n >= n
    ensures d <= -1 ==> d * n <= -n
  {
  }

  /** Any decomposition `q * n + m` with `0 <= m < n` gives the remainder. */
  lemma ModUnique(x: int, n: int, q: int, m: int)
    requires 0 < n && 0 <= m < n && x == q * n + m
    ensures x % n == m
  {
    var q2, m2 := x / n, x % n;
    assert (q - q2) * n == m2 - m;
    MulSign(q - q2, n);
  }

  /** A position less than three laps around reduces by the laps it has completed. */
  lemma ModRange(x: int, n: int)
    requires 0 <= x < 3 * n
    ensures x % n == if x < n then x else if x < 2 * n then x - n else x - 2 * n
  {
    if x < n {
      ModUnique(x, n, 0, x);
    } else if x < 2 * n {
      ModUnique(x, n, 1, x - n);
    } else {
      ModUnique(x, n, 2, x - 2 * n);
    }
  }

  /** A position in lap `k` (at most the fourth) reduces by `k` laps. */
  lemma ModLap(a: int, n: int, k: nat)
    requires 0 < n && k <= 3 && k * n <= a < k * n + n
    ensures a % n == a - k * n
  {
    ModUnique(a, n, k, a - k * n);
  }

  /** One more lap leaves the remainder unchanged. */
  lemma ModShift(a: int, n: int)
    requires 0 < n
    ensures (a + n) % n == a % n
  {
    ModUnique(a + n, n, a / n + 1, a % n);
  }

  /** Moving `d` on from `a` lands where moving `d` on from `a mod n` does. */
  lemma ModAdd(n: nat, a: nat, d: nat)
    requires 0 < n
    ensures (a + d) % n == (a % n + d) % n
  {
    ModUnique(a + d, n, a / n + (a % n + d) / n, (a % n + d) % n);
  }
}
