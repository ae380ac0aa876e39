/** Quotients and remainders, for positions in streams that are made of equal pieces. */
module Division {
  lemma Distribute(a: int, b: int, n: int)
    ensures (a + b) * n == a * n + b * n
  {
  }

  lemma Multiples(d: int, n: nat)
    ensures d >= 1 ==> d * n >= n
    ensures d <= -1 ==> d * n + n <= 0
    ensures 0 * n == 0
  {
    if d >= 1 { Distribute(d - 1, 1, n); } else { Distribute(d + 1, -1, n); }
  }

  lemma Below(m: nat, k: nat, n: nat, i: nat)
    requires m < k && i < n
    ensures 0 <= m * n + i < k * n
  {
    Multiples(k - m, n);
    Distribute(m, k - m, n);
  }

  lemma DivideUnique(k: nat, n: nat, q: nat, r: nat)
    requires n >= 1 && k == q * n + r && r < n
    ensures k / n == q && k % n == r
  {
    Distribute(q, k / n - q, n);
    Multiples(k / n - q, n);
  }

  lemma DivideBounds(p: nat, n: nat, m: nat)
    requires n > 0 && p < m * n
    ensures p / n < m && p % n < n && p == (p / n) * n + p % n
  {
    Distribute(m, p / n - m, n);
    Multiples(p / n - m, n);
  }
}
