/** Powers of two, and facts about multiplication and division small enough for the solver to find at once. */
module Arith {

  lemma MulMono(a: int, b: int, p: int)
    requires a <= b && 0 <= p
    ensures a * p <= b * p
  {
  }

  lemma MulNonNeg(a: int, p: int)
    requires 0 <= a && 0 <= p
    ensures 0 <= a * p
  {
  }

  lemma Distribute(a: int, b: int, p: int)
    ensures (a + b) * p == a * p + b * p
    ensures (a - b) * p == a * p - b * p
    ensures p * (a + b) == p * a + p * b
    ensures p * (a - b) == p * a - p * b
  {
  }

  lemma Assoc(a: int, b: int, c: int)
    ensures (a * b) * c == a * (b * c)
  {
  }

  lemma MulGap(k: int, m: int)
    requires m > 0 && -m < k * m < m
    ensures k == 0
  {
    if k >= 1 {
      MulMono(1, k, m);
    } else if k <= -1 {
      MulMono(k, -1, m);
    }
  }

  /** Quotient and remainder are determined by the division equation. */
  lemma DivModUnique(x: int, m: int, q: int, r: int)
    requires m > 0 && x == q * m + r && 0 <= r < m
    ensures x / m == q && x % m == r
  {
    var q', r' := x / m, x % m;
    assert x == q' * m + r';
    Distribute(q, q', m);
    MulGap(q - q', m);
  }

  lemma ModLow(h: int, b: int, l: int)
    requires 0 <= l < b
    ensures (b * h + l) % b == l
    ensures (b * h + l) / b == h
  {
    DivModUnique(b * h + l, b, h, l);
  }

  /** Dividing twice is dividing by the product. */
  lemma DivDiv(x: int, m: int, n: int)
    requires m > 0 && n > 0
    ensures m * n > 0 && x / m / n == x / (m * n)
  {
    MulMono(1, m, n);
    DivDivParts(x, m, n, x / m, x % m, x / m / n, x / m % n);
  }

  lemma DivDivParts(x: int, m: int, n: int, q: int, r: int, q': int, r': int)
    requires m > 0 && n > 0 && m * n > 0
    requires x == q * m + r && 0 <= r < m && q == q' * n + r' && 0 <= r' < n
    ensures x / (m * n) == q'
  {
    Distribute(q' * n, r', m);
    Assoc(q', n, m);
    MulMono(r', n - 1, m);
    MulNonNeg(r', m);
    Distribute(n, 1, m);
    DivModUnique(x, m * n, q', r' * m + r);
  }

  lemma ModSmall(x: int, m: int)
    requires 0 <= x && m > 0
    ensures 0 <= x % m <= x
  {
    assert x == x / m * m + x % m;
    MulNonNeg(x / m, m);
  }

  lemma QuotientRange(x: int, m: int)
    requires 0 <= x && 0 < m
    ensures x == x / m * m + x % m && 0 <= x % m < m && 0 <= x / m
  {
    if x / m < 0 {
      MulMono(x / m, -1, m);
    }
  }

  lemma ModRange(x: int, m: int)
    requires m > 0
    ensures 0 <= x % m < m
  {
  }

  /** 2^n */
  function Pow2(n: nat): (p: nat)
    ensures p >= 1
  {
    if n == 0 then 1 else 2 * Pow2(n - 1)
  }

  lemma {:induction false} Pow2Add(m: nat, n: nat)
    ensures Pow2(m + n) == Pow2(m) * Pow2(n)
  {
    if m == 0 {
    } else {
      Pow2Add(m - 1, n);
      assert 2 * (Pow2(m - 1) * Pow2(n)) == (2 * Pow2(m - 1)) * Pow2(n);
    }
  }

  lemma {:induction false} Pow2Mono(m: nat, n: nat)
    requires m <= n
    ensures Pow2(m) <= Pow2(n)
    ensures m < n ==> 2 * Pow2(m) <= Pow2(n)
    decreases n - m
  {
    if m < n {
      Pow2Mono(m + 1, n);
    }
  }
}
