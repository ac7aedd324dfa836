/** Digit sequences in radix 2^16 and the natural numbers they stand for. */
module MpiDigits {
  import opened Arith

  const RADIX := 0x1_0000
  const DIGIT_BIT := 16
  const WORD_MOD := 0x1_0000_0000

  /** `mp_digit`: an unsigned 16-bit word. */
  type Digit = x: int | 0 <= x < 0x1_0000

  /** RADIX^n */
  function Pow(n: nat): (p: nat)
    ensures p >= 1
  {
    if n == 0 then 1 else RADIX * Pow(n - 1)
  }

  /** The number written in the `n` low digits of `dp`, least significant digit first. */
  function Value(dp: seq<Digit>, n: nat): nat
    requires n <= |dp|
  {
    if n == 0 then 0 else Value(dp, n - 1) + dp[n - 1] * Pow(n - 1)
  }

  // ----- powers

  lemma {:induction false} PowAdd(m: nat, n: nat)
    ensures Pow(m + n) == Pow(m) * Pow(n)
  {
    if m == 0 {
    } else {
      PowAdd(m - 1, n);
      assert RADIX * (Pow(m - 1) * Pow(n)) == (RADIX * Pow(m - 1)) * Pow(n);
    }
  }

  lemma {:induction false} PowMono(m: nat, n: nat)
    requires m <= n
    ensures Pow(m) <= Pow(n)
    ensures m < n ==> RADIX * Pow(m) <= Pow(n)
    decreases n - m
  {
    if m < n {
      PowMono(m + 1, n);
    }
  }

  lemma Pow2Sixteen()
    ensures Pow2(16) == RADIX
    ensures Pow2(15) == 0x8000
  {
    assert Pow2(4) == 16;
    Pow2Add(4, 4);
    Pow2Add(8, 8);
    Pow2Add(8, 4);
    Pow2Add(12, 3);
  }

  /** RADIX^n is 2^(16 n). */
  lemma {:induction false} PowIsPow2(n: nat)
    ensures Pow(n) == Pow2(DIGIT_BIT * n)
  {
    if n > 0 {
      PowIsPow2(n - 1);
      Pow2Sixteen();
      Pow2Add(16, DIGIT_BIT * (n - 1));
    }
  }

  lemma Pow2Split(k: nat)
    ensures Pow2(k) == Pow(k / DIGIT_BIT) * Pow2(k % DIGIT_BIT)
  {
    Pow2Add(DIGIT_BIT * (k / DIGIT_BIT), k % DIGIT_BIT);
    PowIsPow2(k / DIGIT_BIT);
  }

  // ----- values

  lemma BoundStep(v: int, d: int, p: int)
    requires 0 <= v < p && 0 <= d < RADIX
    ensures 0 <= v + d * p < RADIX * p
  {
    MulMono(d, RADIX - 1, p);
    MulNonNeg(d, p);
  }

  lemma {:induction false} ValueBound(dp: seq<Digit>, n: nat)
    requires n <= |dp|
    ensures Value(dp, n) < Pow(n)
  {
    if n > 0 {
      ValueBound(dp, n - 1);
      BoundStep(Value(dp, n - 1), dp[n - 1], Pow(n - 1));
    }
  }

  lemma {:induction false} ValueFrame(s: seq<Digit>, t: seq<Digit>, n: nat)
    requires n <= |s| && n <= |t|
    requires forall i | 0 <= i < n :: s[i] == t[i]
    ensures Value(s, n) == Value(t, n)
  {
    if n > 0 {
      ValueFrame(s, t, n - 1);
    }
  }

  lemma {:induction false} ValueZeros(dp: seq<Digit>, m: nat, n: nat)
    requires m <= n <= |dp|
    requires forall i | m <= i < n :: dp[i] == 0
    ensures Value(dp, n) == Value(dp, m)
  {
    if m < n {
      ValueZeros(dp, m, n - 1);
    }
  }

  lemma {:induction false} ValueMono(dp: seq<Digit>, m: nat, n: nat)
    requires m <= n <= |dp|
    ensures Value(dp, m) <= Value(dp, n)
  {
    if m < n {
      ValueMono(dp, m, n - 1);
      assert dp[n - 1] * Pow(n - 1) >= 0;
    }
  }

  lemma SplitStep(p: int, h: int, d: int, q: int)
    ensures p * (h + d * q) == p * h + d * (p * q)
  {
    Distribute(h, d * q, p);
    Assoc(p, d, q);
    Assoc(d, p, q);
  }

  /** A value splits at digit `p` into its low part and a multiple of RADIX^p. */
  lemma {:induction false} ValueSplit(dp: seq<Digit>, p: nat, n: nat)
    requires p <= n <= |dp|
    ensures Value(dp, n) == Value(dp, p) + Pow(p) * Value(dp[p..], n - p)
  {
    if p < n {
      ValueSplit(dp, p, n - 1);
      PowAdd(p, n - 1 - p);
      var h := Value(dp[p..], n - 1 - p);
      var d := dp[n - 1];
      var q := Pow(n - 1 - p);
      ValueFrame(dp[p..], dp[p..], n - 1 - p);
      assert Value(dp[p..], n - p) == h + d * q;
      SplitStep(Pow(p), h, d, q);
    }
  }

  /** The value is not below its top digit's weight. */
  lemma ValueTop(dp: seq<Digit>, n: nat)
    requires 0 < n <= |dp|
    ensures dp[n - 1] * Pow(n - 1) <= Value(dp, n) < (dp[n - 1] + 1) * Pow(n - 1)
  {
    ValueBound(dp, n - 1);
    assert (dp[n - 1] + 1) * Pow(n - 1) == dp[n - 1] * Pow(n - 1) + Pow(n - 1);
  }

  /** Replacing digit `k` changes the value by the difference times its weight. */
  lemma {:induction false} ValueUpdate(dp: seq<Digit>, k: nat, d: Digit, n: nat)
    requires k < n <= |dp|
    ensures Value(dp[k := d], n) == Value(dp, n) + (d - dp[k]) * Pow(k)
  {
    if k == n - 1 {
      ValueFrame(dp[k := d], dp, n - 1);
      assert (d - dp[k]) * Pow(k) == d * Pow(k) - dp[k] * Pow(k);
    } else {
      ValueUpdate(dp, k, d, n - 1);
    }
  }

  /** A value is its low digit plus a multiple of the radix. */
  lemma {:induction false} ValueLow(dp: seq<Digit>, n: nat)
    requires 0 < n <= |dp|
    ensures exists h: nat :: Value(dp, n) == RADIX * h + dp[0]
  {
    if n == 1 {
      assert Value(dp, 1) == RADIX * 0 + dp[0];
    } else {
      ValueLow(dp, n - 1);
      var h: nat :| Value(dp, n - 1) == RADIX * h + dp[0];
      var p := Pow(n - 2);
      Assoc(RADIX, dp[n - 1], p);
      Assoc(dp[n - 1], RADIX, p);
      assert Value(dp, n) == RADIX * (h + dp[n - 1] * p) + dp[0];
    }
  }

  lemma ValueLowDigit(dp: seq<Digit>, n: nat)
    requires 0 < n <= |dp|
    ensures Value(dp, n) % RADIX == dp[0]
    ensures Value(dp, n) % 2 == dp[0] % 2
  {
    hide Value, Pow;
    ValueLow(dp, n);
    var h: nat :| Value(dp, n) == RADIX * h + dp[0];
    LowDigitArith(Value(dp, n), h, dp[0]);
  }

  lemma LowDigitArith(v: int, h: int, d: int)
    requires v == RADIX * h + d && 0 <= d < RADIX
    ensures v % RADIX == d && v % 2 == d % 2
  {
  }

  /** In a positive number without leading zeros the top digit is nonzero. */
  lemma ValueTopNonzero(dp: seq<Digit>, n: nat)
    requires 0 < n <= |dp|
    requires Value(dp, n) > 0
    requires n > 1 ==> dp[n - 1] != 0
    ensures dp[n - 1] != 0
    ensures Pow(n - 1) <= Value(dp, n)
  {
    if n == 1 {
      assert Value(dp, 1) == dp[0] * Pow(0);
    }
    ValueTop(dp, n);
    MulMono(1, dp[n - 1], Pow(n - 1));
  }

  /** Moving the digits up by `p` places and filling with zeros multiplies by RADIX^p. */
  lemma ValueShifted(s: seq<Digit>, t: seq<Digit>, p: nat, n: nat)
    requires n <= |t| && n + p <= |s|
    requires forall i | 0 <= i < p :: s[i] == 0
    requires forall i | 0 <= i < n :: s[i + p] == t[i]
    ensures Value(s, n + p) == Value(t, n) * Pow(p)
  {
    assert Value(s, p) == 0 by { ValueZeros(s, 0, p); }
    hide Value, Pow;
    ValueSplit(s, p, n + p);
    ValueFrame(s[p..], t, n);
  }

  /** The number of digits of a positive number without leading zeros follows from its value. */
  lemma UsedFromValue(dp: seq<Digit>, n: nat, u: nat)
    requires 0 < n <= |dp| && 0 < u
    requires n > 1 ==> dp[n - 1] != 0
    requires Pow(u - 1) <= Value(dp, n) < Pow(u)
    ensures n == u
  {
    ValueTopNonzero(dp, n);
    ValueBound(dp, n);
    if n < u {
      PowMono(n, u - 1);
    } else if u < n {
      PowMono(u, n - 1);
    }
  }

  // ----- steps of the carry loops

  /** One digit of a carry loop: `x` is written as a low digit `lo` and a carry `hi`. */
  lemma CarryStep(x: int, lo: int, hi: int, p: int)
    requires x == lo + RADIX * hi
    ensures x * p == lo * p + hi * (RADIX * p)
  {
    Distribute(lo, RADIX * hi, p);
    Assoc(hi, RADIX, p);
  }

  /** 2^d and 2^(16-d) multiply to the radix. */
  lemma BitSplit(d: nat)
    requires d <= DIGIT_BIT
    ensures Pow2(d) * Pow2(DIGIT_BIT - d) == RADIX
  {
    Pow2Add(d, DIGIT_BIT - d);
    Pow2Sixteen();
  }

  /** A digit shifted left by d bits: the bits that stay and the bits that leave. */
  lemma ShiftLeftDigit(x: int, c: int, e: int, save: int)
    requires 0 <= x < RADIX && 0 < c && 0 < e && c * e == RADIX && 0 <= save < c
    ensures 0 <= x % e * c + save < RADIX
    ensures 0 <= x / e < c
    ensures x * c + save == (x % e * c + save) + RADIX * (x / e)
  {
    var q, r := x / e, x % e;
    assert x == q * e + r;
    Distribute(q * e, r, c);
    Assoc(q, e, c);
    MulMono(r, e - 1, c);
    MulNonNeg(r, c);
    Distribute(e, 1, c);
    if q >= c {
      MulMono(c, q, e);
    }
  }

  /** A digit shifted right by d bits, with bits coming in from the digit above. */
  lemma ShiftRightDigit(x: int, c: int, e: int, save: int)
    requires 0 <= x < RADIX && 0 < c && 0 < e && c * e == RADIX && 0 <= save < c
    ensures 0 <= x / c + save * e < RADIX
    ensures x + save * RADIX == c * (x / c + save * e) + x % c
  {
    var q := x / c;
    assert x == q * c + x % c;
    Distribute(q, save * e, c);
    Assoc(save, e, c);
    if q >= e {
      MulMono(e, q, c);
    }
    MulMono(save, c - 1, e);
    MulNonNeg(save, e);
    Distribute(c, 1, e);
  }

  /** Numbers that agree from digit `m` up differ only by their low parts. */
  lemma {:induction false} ValueSuffix(s: seq<Digit>, t: seq<Digit>, m: nat, n: nat)
    requires m <= n <= |s| && n <= |t|
    requires forall i | m <= i < n :: s[i] == t[i]
    ensures Value(s, n) - Value(s, m) == Value(t, n) - Value(t, m)
  {
    if m < n {
      ValueSuffix(s, t, m, n - 1);
    }
  }

  /** A number not below RADIX^(n-1) has a nonzero n-th digit. */
  lemma TopFromValue(dp: seq<Digit>, n: nat)
    requires 0 < n <= |dp| && Value(dp, n) >= Pow(n - 1)
    ensures dp[n - 1] != 0
  {
    ValueBound(dp, n - 1);
  }

  /** `mp_word` arithmetic is modulo 2^32. */
  function Word(x: int): (w: int)
    ensures 0 <= w < WORD_MOD
    ensures 0 <= x < WORD_MOD ==> w == x
  {
    x % WORD_MOD
  }

  /** CARRYOUT and ACCUM */
  function CarryOut(w: int): (k: int)
    requires 0 <= w < WORD_MOD
    ensures 0 <= k < RADIX
  {
    w / RADIX
  }

  function Accum(w: int): (d: Digit)
    requires 0 <= w < WORD_MOD
    ensures w == d + RADIX * CarryOut(w)
  {
    w % RADIX
  }

  lemma PowStep(n: nat)
    ensures Pow(n + 1) == RADIX * Pow(n)
  {
  }

  lemma ValueStep(dp: seq<Digit>, n: nat)
    requires n < |dp|
    ensures Value(dp, n + 1) == Value(dp, n) + dp[n] * Pow(n)
  {
  }

  lemma ValueAllZero(dp: seq<Digit>, n: nat)
    requires n <= |dp| && forall i | 0 <= i < n :: dp[i] == 0
    ensures Value(dp, n) == 0
  {
    ValueZeros(dp, 0, n);
  }
}
