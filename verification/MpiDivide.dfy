/** Division of magnitudes: the power-of-two shortcut and normalised long division. */
module MpiDivide {
  import opened Arith
  import opened MpiDigits
  import opened MpiInt
  import opened MpiMagnitude

  // ----- powers of two

  ghost predicate IsPower(x: nat) {
    exists k: nat :: x == Pow2(k)
  }

  lemma {:induction false} Pow2Injective(j: nat, k: nat)
    requires Pow2(j) == Pow2(k)
    ensures j == k
  {
    if j < k {
      Pow2Mono(j, k);
    } else if k < j {
      Pow2Mono(k, j);
    }
  }

  /** A power of two is one digit, itself a power of two, followed by zeros. */
  lemma PowerShape(dp: seq<Digit>, n: nat, k: nat)
    requires 0 < n <= |dp| && (n > 1 ==> dp[n - 1] != 0)
    requires Value(dp, n) == Pow2(k)
    ensures n - 1 == k / DIGIT_BIT && dp[n - 1] == Pow2(k % DIGIT_BIT) && Value(dp, n - 1) == 0
  {
    hide Value, Pow, Pow2;
    var q, r := k / DIGIT_BIT, k % DIGIT_BIT;
    Pow2Split(k);
    BitFits(r);
    MulMono(1, Pow2(r), Pow(q));
    MulMono(Pow2(r), RADIX - 1, Pow(q));
    PowStep(q);
    UsedFromValue(dp, n, q + 1);
    ValueStep(dp, q);
    ValueBound(dp, q);
    DivModUnique(Value(dp, n), Pow(q), dp[q], Value(dp, q));
    DivModUnique(Value(dp, n), Pow(q), Pow2(r), 0);
  }

  lemma OddTimesPower(d: nat, e: nat, r: nat)
    requires d % 2 == 1 && d * Pow2(e) == Pow2(r)
    ensures d == 1
  {
    if e >= r {
      Pow2Mono(r, e);
      if d > 1 {
        MulMono(2, d, Pow2(e));
      }
    } else {
      Pow2Add(r - e, e);
      Pow2Mono(1, r - e);
      var h := Pow2(r - e - 1);
      assert Pow2(r - e) == 2 * h;
      CancelFactor(d, 2 * h, Pow2(e));
    }
  }

  lemma CancelFactor(x: int, y: int, p: int)
    requires p > 0 && x * p == y * p
    ensures x == y
  {
    Distribute(x, y, p);
    MulGap(x - y, p);
  }

  lemma {:induction false} NonzeroDigit(dp: seq<Digit>, i: nat, n: nat)
    requires i < n <= |dp| && dp[i] != 0
    ensures Value(dp, n) > 0
  {
    ValueMono(dp, i + 1, n);
    MulMono(1, dp[i], Pow(i));
  }

  /** `s_mp_ispow2`: the exponent of a power of two, or -1. */
  method PowerExponent(v: MpInt) returns (k: int)
    requires v.Clamped()
    ensures -1 <= k
    ensures k >= 0 ==> v.Mag() == Pow2(k)
    ensures k == -1 <==> !IsPower(v.Mag())
  {
    var uv := v.used;
    var d, extra := v.dp[uv - 1], 0;
    ghost var top: int := d;
    while d != 0 && d % 2 == 0
      invariant 0 <= extra && d * Pow2(extra) == top && (d == 0 ==> top == 0)
      decreases d
    {
      Assoc(d / 2, 2, Pow2(extra));
      d := d / 2;
      extra := extra + 1;
    }
    if d == 1 {
      var ix: int := uv - 2;
      while ix >= 0
        invariant -1 <= ix <= uv - 2
        invariant forall i | ix < i < uv - 1 :: v.dp[i] == 0
      {
        if v.dp[ix] != 0 {
          NonzeroDigit(v.dp, ix, uv - 1);
          forall j: nat ensures v.Mag() != Pow2(j) {
            if v.Mag() == Pow2(j) {
              PowerShape(v.dp, uv, j);
            }
          }
          return -1;
        }
        ix := ix - 1;
      }
      ValueZeros(v.dp, 0, uv - 1);
      Pow2Add(extra, (uv - 1) * DIGIT_BIT);
      PowIsPow2(uv - 1);
      return (uv - 1) * DIGIT_BIT + extra;
    }
    forall j: nat ensures v.Mag() != Pow2(j) {
      if v.Mag() == Pow2(j) {
        PowerShape(v.dp, uv, j);
        OddTimesPower(d, extra, j % DIGIT_BIT);
      }
    }
    return -1;
  }

  lemma SingleBit(dp: seq<Digit>, dig: nat, bit: nat)
    requires dig < |dp| && bit < DIGIT_BIT && Value(dp, dig + 1) == 0
    ensures dp[dig] == 0 && Pow2(bit) < RADIX
    ensures Value(dp[dig := Pow2(bit)], dig + 1) == Pow2(DIGIT_BIT * dig + bit)
  {
    if dp[dig] != 0 {
      NonzeroDigit(dp, dig, dig + 1);
    }
    BitFits(bit);
    ValueFrame(dp[dig := Pow2(bit)], dp, dig);
    ValueMono(dp, dig, dig + 1);
    assert Pow2(DIGIT_BIT * dig + bit) == Pow2(bit) * Pow(dig) by {
      Pow2Add(DIGIT_BIT * dig, bit);
      PowIsPow2(dig);
    }
  }

  lemma BitFits(bit: nat)
    requires bit < DIGIT_BIT
    ensures Pow2(bit) < RADIX
  {
    Pow2Mono(bit, 15);
    Pow2Sixteen();
  }

  /** `s_mp_2expt`: the exponent is passed as a 16-bit digit. */
  method TwoToThe(a: MpInt, k: Digit)
    requires a.Shaped()
    modifies a
    ensures a.Valid() && !a.neg && a.Mag() == Pow2(k)
  {
    var dig, bit := k / DIGIT_BIT, k % DIGIT_BIT;
    a.Set(0);
    a.Pad(dig + 1);
    SingleBit(a.dp, dig, bit);
    assert k == DIGIT_BIT * dig + bit;
    a.dp := a.dp[dig := a.dp[dig] + Pow2(bit)];
    TopFromPower(a.dp, dig, bit);
  }

  lemma TopFromPower(dp: seq<Digit>, dig: nat, bit: nat)
    requires dig < |dp| && dp[dig] == Pow2(bit)
    ensures dp[dig] != 0
  {
  }

  // ----- normalisation

  /** The shift that brings a nonzero digit to half the radix or more. */
  method TopShift(top: Digit) returns (d: nat)
    requires top != 0
    ensures d < DIGIT_BIT && 0x8000 <= top * Pow2(d) < RADIX
  {
    var t: int := top;
    d := 0;
    while t < RADIX / 2
      invariant 0 < t < RADIX && t == top * Pow2(d)
      decreases RADIX - t
    {
      Assoc(top, Pow2(d), 2);
      t := t * 2;
      d := d + 1;
    }
    if d >= DIGIT_BIT {
      Pow2Mono(DIGIT_BIT, d);
      Pow2Sixteen();
      MulMono(1, top, Pow2(d));
    }
  }

  /** `s_mp_norm`: scale both numbers by the power of two that brings b's top digit to half the radix. */
  method Normalize(a: MpInt, b: MpInt) returns (d: nat)
    requires a != b && a.Valid() && b.Valid() && b.Mag() > 0
    modifies a, b
    ensures a.Valid() && b.Valid() && d < DIGIT_BIT
    ensures a.Mag() == old(a.Mag()) * Pow2(d) && b.Mag() == old(b.Mag()) * Pow2(d)
    ensures b.dp[b.used - 1] >= 0x8000
  {
    ValueTopNonzero(b.dp, b.used);
    ghost var top: int, u, v := b.dp[b.used - 1], b.used, b.dp;
    d := TopShift(b.dp[b.used - 1]);
    if d != 0 {
      a.Mul2d(d);
      b.Mul2d(d);
    }
    NormalizedTop(v, u, d, b.dp, b.used);
  }

  /** Scaling by 2^d keeps the number of digits and puts top * 2^d in the top one. */
  lemma NormalizedTop(v: seq<Digit>, u: nat, d: nat, w: seq<Digit>, n: nat)
    requires 0 < u <= |v| && d < DIGIT_BIT && 0x8000 <= v[u - 1] * Pow2(d) < RADIX
    requires 0 < n <= |w| && (n > 1 ==> w[n - 1] != 0)
    requires Value(w, n) == Value(v, u) * Pow2(d)
    ensures n == u && w[n - 1] >= 0x8000
  {
    var c, e, top: int, p := Pow2(d), Pow2(DIGIT_BIT - d), v[u - 1], Pow(u - 1);
    BitSplit(d);
    ValueTop(v, u);
    ScaledTop(top, c, e, p, Value(v, u));
    MulMono(1, 0x8000, p);
    UsedFromValue(w, n, u);
    ValueTop(w, u);
    if w[u - 1] < 0x8000 {
      MulMono(w[u - 1] + 1, 0x8000, p);
    }
  }

  lemma ScaledTop(top: int, c: int, e: int, p: int, v: int)
    requires 0 <= top && 0 < c && 0 < e && c * e == RADIX && 0 < p
    requires 0x8000 <= top * c < RADIX && top * p <= v < (top + 1) * p
    ensures 0x8000 * p <= v * c < RADIX * p
  {
    if top >= e {
      MulMono(e, top, c);
    }
    MulMono(top + 1, e, c);
    MulMono(0x8000, top * c, p);
    MulMono((top + 1) * c, RADIX, p);
    MulMono(top * p, v, c);
    MulMono(v + 1, (top + 1) * p, c);
    Distribute(v, 1, c);
    Assoc(top, p, c);
    Assoc(top, c, p);
    Assoc(top + 1, p, c);
    Assoc(top + 1, c, p);
  }

  // ----- guessing a quotient digit

  lemma UsedMono(s: seq<Digit>, m: nat, t: seq<Digit>, n: nat)
    requires 0 < m <= |s| && 0 < n <= |t| && (n > 1 ==> t[n - 1] != 0)
    requires Value(s, m) >= Value(t, n)
    ensures m >= n
  {
    if m < n {
      LongerIsGreater(t, n, s, m);
    }
  }

  /** With equally many digits the true quotient digit is 1. */
  lemma GuessSameLength(r: seq<Digit>, b: seq<Digit>, n: nat)
    requires 0 < n <= |r| && n <= |b| && b[n - 1] >= 0x8000
    requires Value(b, n) <= Value(r, n)
    ensures Value(r, n) < 2 * Value(b, n) && b[n - 1] <= r[n - 1]
  {
    ValueTop(r, n);
    ValueTop(b, n);
    SameLengthArith(r[n - 1], b[n - 1], Pow(n - 1), Value(r, n), Value(b, n));
  }

  lemma SameLengthArith(rt: int, bt: int, p: int, r: int, b: int)
    requires 0 < p && rt < RADIX && 0x8000 <= bt && r < (rt + 1) * p && bt * p <= b <= r
    ensures r < 2 * b && bt <= rt
  {
    MulMono(rt + 1, RADIX, p);
    MulMono(0x8000, bt, p);
    if rt < bt {
      MulMono(rt + 1, bt, p);
    }
  }

  /** With one digit more, the two leading digits over the divisor's one never guess too low. */
  lemma GuessLonger(r: seq<Digit>, b: seq<Digit>, n: nat, two: int, q: int)
    requires 0 < n && n + 1 <= |r| && n <= |b| && b[n - 1] >= 0x8000
    requires Value(r, n + 1) < RADIX * Value(b, n)
    requires two == r[n] * RADIX + r[n - 1] && q == two / b[n - 1]
    ensures r[n] <= b[n - 1]
    ensures q >= 0 && Value(r, n + 1) < (q + 1) * Value(b, n)
  {
    var tb: int, p := b[n - 1], Pow(n - 1);
    ValueTop(b, n);
    ValueBound(r, n - 1);
    assert Value(r, n + 1) == Value(r, n - 1) + r[n - 1] * p + r[n] * (RADIX * p);
    CarryStep(two, r[n - 1], r[n], p);
    LeadingDigits(Value(r, n + 1), two, p, tb, Value(b, n), q);
    if r[n] > tb {
      MulMono((tb + 1) * RADIX, two, p);
      Assoc(RADIX, tb + 1, p);
    }
  }

  lemma LeadingDigits(r: int, two: int, p: int, tb: int, b: int, q: int)
    requires p > 0 && tb > 0 && 0 <= two && two * p <= r < two * p + p && tb * p <= b && q == two / tb
    ensures q >= 0 && r < (q + 1) * b
  {
    assert two + 1 <= (q + 1) * tb by {
      assert two == q * tb + two % tb;
      Distribute(q, 1, tb);
    }
    if q < 0 {
      MulMono(q, -1, tb);
    }
    MulMono(two + 1, (q + 1) * tb, p);
    Distribute(two, 1, p);
    Assoc(q + 1, tb, p);
    MulMono(tb * p, b, q + 1);
  }

  /** The guess of `s_mp_div`: capped below the radix and never under the true digit. */
  method GuessDigit(rem: MpInt, b: MpInt) returns (q: int)
    requires rem.Clamped() && b.Clamped() && b.dp[b.used - 1] >= 0x8000
    requires b.Mag() <= rem.Mag() < RADIX * b.Mag()
    ensures 1 <= q < RADIX && rem.Mag() < (q + 1) * b.Mag()
  {
    ghost var r, n := rem.dp, b.used;
    RemainderLength(rem.dp, rem.used, b.dp, b.used);
    q := rem.dp[rem.used - 1];
    if q <= b.dp[b.used - 1] && rem.used > 1 {
      q := q * RADIX + rem.dp[rem.used - 2];
    }
    ghost var two := q;
    q := q / b.dp[b.used - 1];
    if rem.used == n {
      GuessSameLength(r, b.dp, n);
      QuotientAtLeastOne(two, b.dp[n - 1], q);
      MulMono(2, q + 1, b.Mag());
    } else {
      GuessLonger(r, b.dp, n, r[n] * RADIX + r[n - 1], (r[n] * RADIX + r[n - 1]) / b.dp[n - 1]);
      ZeroGuess(q, rem.Mag(), b.Mag());
    }
    if q >= RADIX {
      q := RADIX - 1;
    }
  }

  lemma RemainderLength(r: seq<Digit>, m: nat, b: seq<Digit>, n: nat)
    requires 0 < m <= |r| && 0 < n <= |b| && (m > 1 ==> r[m - 1] != 0) && (n > 1 ==> b[n - 1] != 0)
    requires Value(b, n) <= Value(r, m) < RADIX * Value(b, n)
    ensures m == n || m == n + 1
  {
    UsedMono(r, m, b, n);
    ValueBound(b, n);
    if m > n + 1 {
      ValueTopNonzero(r, m);
      PowMono(n + 1, m - 1);
    }
  }

  lemma QuotientAtLeastOne(x: int, y: int, q: int)
    requires 0 < y <= x && q == x / y
    ensures q >= 1
  {
    if q < 1 {
      MulMono(q, 0, y);
    }
  }

  lemma ZeroGuess(q: int, r: int, b: int)
    requires 0 <= q && b <= r < (q + 1) * b
    ensures q >= 1
  {
  }

  // ----- long division

  /** t = b * q, in a buffer that may be exactly as long as `b`. */
  method TrialProduct(t: MpInt, b: MpInt, q: Digit)
    requires b != t && b.Valid() && t.Shaped() && b.dp[b.used - 1] >= 0x8000 && q >= 1
    modifies t
    ensures t.Valid() && t.Mag() == q * b.Mag()
  {
    hide Value, Pow;
    t.CopyFrom(b);
    RoomForQuotient(t.dp, t.used, q);
    MulDigit(t, q);
  }

  /** The back-off loop: lower a guess that is not too small until its product fits. */
  method BackOffProduct(t: MpInt, b: MpInt, rem: MpInt, guess: int) returns (q: int)
    requires rem != b && rem != t && b != t
    requires rem.Clamped() && b.Valid() && t.Valid() && 1 <= guess < RADIX
    requires 0 < b.Mag() <= rem.Mag() < (guess + 1) * b.Mag() && t.Mag() == guess * b.Mag()
    modifies t
    ensures 1 <= q < RADIX && t.Valid()
    ensures t.Mag() == q * b.Mag() && q * b.Mag() <= rem.Mag() < (q + 1) * b.Mag()
  {
    q := guess;
    ghost var bm, rm := b.Mag(), rem.Mag();
    var c := CmpMag(t, rem);
    while c > 0
      invariant 1 <= q < RADIX && t.Valid() && b.Valid() && rem.Clamped()
      invariant t.Mag() == q * bm && bm == b.Mag() && rm == rem.Mag() && rm < (q + 1) * bm
      invariant c == Sign(t.Mag() - rm)
      decreases q
    {
      BackOff(q, bm, rm);
      UsedMono(t.dp, t.used, b.dp, b.used);
      q := q - 1;
      var _ := SubMag(t, b);
      c := CmpMag(t, rem);
    }
  }

  /** One quotient digit: guess, multiply, back off, subtract. */
  method NextDigit(rem: MpInt, b: MpInt, t: MpInt) returns (digit: Digit)
    requires rem != b && rem != t && b != t
    requires rem.Valid() && b.Valid() && t.Shaped() && !rem.neg && b.dp[b.used - 1] >= 0x8000
    requires 0 < b.Mag() <= rem.Mag() < RADIX * b.Mag()
    modifies rem, t
    ensures rem.Valid() && !rem.neg && t.Shaped() && rem.Mag() < b.Mag()
    ensures old(rem.Mag()) == digit * b.Mag() + rem.Mag()
  {
    ghost var bm := b.Mag();
    var q := GuessDigit(rem, b);
    TrialProduct(t, b, q);
    q := BackOffProduct(t, b, rem, q);
    UsedMono(rem.dp, rem.used, t.dp, t.used);
    var _ := SubMag(rem, t);
    Distribute(q, 1, bm);
    digit := q;
  }

  lemma BackOff(q: int, b: int, r: int)
    requires b <= r < q * b && 0 < b
    ensures q >= 2 && (q - 1) * b == q * b - b && q * b >= b
  {
    if q < 2 {
      MulMono(q, 1, b);
    }
    Distribute(q, 1, b);
  }

  /** The only digit whose product does not spill from the top digit is 1, and then nothing spills. */
  lemma RoomForQuotient(dp: seq<Digit>, n: nat, q: Digit)
    requires 0 < n <= |dp| && dp[n - 1] >= 0x8000 && q >= 1
    ensures RoomForProduct(dp, n, q)
  {
    ValueBound(dp, n);
    if q >= 2 {
      MulMono(0x8000, dp[n - 1], 2);
      MulMono(2, q, dp[n - 1]);
    }
  }

  /** The digits of `v` from `j` up, as a number. */
  ghost function High(v: seq<Digit>, u: nat, j: nat): nat
    requires j <= u <= |v|
  {
    Value(v[j..], u - j)
  }

  lemma HighStep(v: seq<Digit>, u: nat, j: nat)
    requires j < u <= |v|
    ensures High(v, u, j) == v[j] + RADIX * High(v, u, j + 1)
  {
    ValueSplit(v[j..], 1, u - j);
    assert v[j..][1..] == v[j + 1..];
    assert Pow(1) == RADIX;
    assert Value(v[j..], 1) == v[j] * Pow(0);
  }

  /** `rem` and `quot` are the remainder and quotient of the digits of `a` from `j` up. */
  ghost predicate Divided(v: seq<Digit>, u: nat, j: nat, quot: int, b: int, rem: int)
    requires j <= u <= |v|
  {
    High(v, u, j) == quot * b + rem
  }

  lemma DividedShift(v: seq<Digit>, u: nat, j: nat, quot: int, b: int, rem: int)
    requires j < u <= |v| && Divided(v, u, j + 1, quot, b, rem) && 0 <= rem < b
    ensures Divided(v, u, j, quot * RADIX, b, rem * RADIX + v[j])
    ensures 0 <= rem * RADIX + v[j] < RADIX * b
  {
    HighStep(v, u, j);
    Assoc(quot, b, RADIX);
    Assoc(quot, RADIX, b);
    Distribute(quot * b, rem, RADIX);
  }

  lemma DividedDigit(v: seq<Digit>, u: nat, j: nat, quot: int, b: int, rem: int, q: int, r: int)
    requires j <= u <= |v| && Divided(v, u, j, quot, b, rem) && rem == q * b + r
    ensures Divided(v, u, j, quot + q, b, r)
  {
    Distribute(quot, q, b);
  }

  /** Shift the next digit of `a` into `rem` and open a place in `quot`. */
  method BringDown(rem: MpInt, quot: MpInt, d: Digit)
    requires rem != quot && rem.Clamped() && !rem.neg && quot.Shaped()
    modifies rem, quot`dp, quot`used
    ensures rem.Valid() && !rem.neg && rem.Mag() == old(rem.Mag()) * RADIX + d
    ensures quot.Shaped() && quot.Mag() == old(quot.Mag()) * RADIX && quot.dp[0] == 0
  {
    assert Pow(1) == RADIX;
    rem.Lshd(1);
    quot.Lshd(1);
    ValueUpdate(rem.dp, 0, d, rem.used);
    rem.dp := rem.dp[0 := d];
    rem.Clamp();
  }

  /** Put a quotient digit into the open place. */
  method SetLowDigit(quot: MpInt, q: Digit)
    requires quot.Shaped() && quot.dp[0] == 0
    modifies quot`dp
    ensures quot.Shaped() && quot.Mag() == old(quot.Mag()) + q
  {
    ValueUpdate(quot.dp, 0, q, quot.used);
    quot.dp := quot.dp[0 := q];
  }

  /** The inner loop of `s_mp_div`: take in digits of `a` until the remainder reaches the divisor. */
  method GatherDigits(a: MpInt, b: MpInt, quot: MpInt, rem: MpInt, start: int) returns (ix: int, c: int)
    requires a !in {b, quot, rem} && b !in {quot, rem} && quot != rem
    requires a.Shaped() && b.Clamped() && 0 <= start < a.used
    requires quot.Shaped() && rem.Valid() && !rem.neg && rem.Mag() < b.Mag()
    requires Divided(a.dp, a.used, start + 1, quot.Mag(), b.Mag(), rem.Mag())
    modifies quot`dp, quot`used, rem
    ensures -1 <= ix < start && quot.Shaped() && rem.Valid() && !rem.neg
    ensures c == Sign(rem.Mag() - b.Mag()) && (c < 0 ==> ix == -1)
    ensures rem.Mag() < RADIX * b.Mag() && quot.dp[0] == 0
    ensures Divided(a.dp, a.used, ix + 1, quot.Mag(), b.Mag(), rem.Mag())
  {
    ghost var v, u, bm := a.dp, a.used, b.Mag();
    ix := start;
    c := CmpMag(rem, b);
    while c < 0 && ix >= 0
      invariant -1 <= ix <= start < u
      invariant a.dp == v && b.Clamped() && b.Mag() == bm
      invariant quot.Shaped() && rem.Valid() && !rem.neg && rem.Mag() < RADIX * bm
      invariant ix < start ==> quot.dp[0] == 0
      invariant c == Sign(rem.Mag() - bm) && (ix == start ==> c < 0)
      invariant Divided(v, u, ix + 1, quot.Mag(), bm, rem.Mag())
      decreases ix
    {
      DividedShift(v, u, ix, quot.Mag(), bm, rem.Mag());
      BringDown(rem, quot, a.dp[ix]);
      ix := ix - 1;
      c := CmpMag(rem, b);
    }
  }

  /** The outer loop of `s_mp_div`, on a normalised divisor. */
  method LongDivide(a: MpInt, b: MpInt, quot: MpInt, rem: MpInt, t: MpInt)
    requires a !in {b, quot, rem, t} && b !in {quot, rem, t} && quot !in {rem, t} && rem != t
    requires a.Shaped() && b.Valid() && b.dp[b.used - 1] >= 0x8000 && b.Mag() > 0
    requires quot.Shaped() && quot.Mag() == 0 && rem.Valid() && !rem.neg && rem.Mag() == 0 && t.Shaped()
    modifies quot`dp, quot`used, rem, t
    ensures quot.Shaped() && rem.Valid() && !rem.neg
    ensures a.Mag() == quot.Mag() * b.Mag() + rem.Mag() && rem.Mag() < b.Mag()
  {
    ghost var v, u, bm := a.dp, a.used, b.Mag();
    var ix: int := a.used - 1;
    while ix >= 0
      invariant -1 <= ix < u
      invariant a.dp == v && a.used == u && b.Valid() && b.Mag() == bm && b.dp[b.used - 1] >= 0x8000
      invariant quot.Shaped() && rem.Valid() && !rem.neg && t.Shaped() && rem.Mag() < bm
      invariant Divided(v, u, ix + 1, quot.Mag(), bm, rem.Mag())
      decreases ix
    {
      var c;
      ix, c := GatherDigits(a, b, quot, rem, ix);
      if c < 0 {
        break;
      }
      ghost var whole, qm := rem.Mag(), quot.Mag();
      var q := NextDigit(rem, b, t);
      SetLowDigit(quot, q);
      DividedDigit(v, u, ix + 1, qm, bm, whole, q, rem.Mag());
    }
    assert v[0..] == v;
  }

  // ----- s_mp_div

  /** Exponents are narrowed to a 16-bit digit on the way to the shift routines. */
  const EXPONENT_MOD := 0x1_0000

  ghost function Exponent(b: nat): (k: nat)
    requires IsPower(b)
    ensures b == Pow2(k)
  {
    var k: nat :| b == Pow2(k);
    k
  }

  /** The number `s_mp_div` really divides by: a power of two has its exponent narrowed. */
  ghost function EffectiveDivisor(b: nat): (e: nat)
    requires b > 0
    ensures e > 0
  {
    if IsPower(b) then Pow2(Exponent(b) % EXPONENT_MOD) else b
  }

  lemma EffectiveDivisorOfPower(k: nat)
    ensures EffectiveDivisor(Pow2(k)) == Pow2(k % EXPONENT_MOD)
  {
    assert IsPower(Pow2(k));
    Pow2Injective(Exponent(Pow2(k)), k);
  }

  /** Narrowing only ever makes the divisor smaller, and only from 2^65536 up. */
  lemma EffectiveDivisorBound(b: nat)
    requires b > 0
    ensures EffectiveDivisor(b) <= b
    ensures b < Pow2(EXPONENT_MOD) ==> EffectiveDivisor(b) == b
    ensures EffectiveDivisor(b) < b <==> IsPower(b) && b >= Pow2(EXPONENT_MOD)
  {
    hide Pow2;
    if IsPower(b) {
      var k := Exponent(b);
      Pow2Mono(k % EXPONENT_MOD, k);
      if k < EXPONENT_MOD {
        Pow2Mono(k, EXPONENT_MOD);
      } else {
        Pow2Mono(EXPONENT_MOD, k);
      }
    }
  }

  /**
   * `s_mp_div` meets its contract on exactly these operands: the divisor is not a power of two of
   * 2^65536 or more, or the dividend is below the narrowed divisor.
   */
  lemma DivisionIsExactIff(a: nat, b: nat)
    requires b > 0
    ensures a / EffectiveDivisor(b) == a / b && a % EffectiveDivisor(b) == a % b
            <==> !(IsPower(b) && b >= Pow2(EXPONENT_MOD)) || a < EffectiveDivisor(b)
  {
    hide Pow2;
    var e := EffectiveDivisor(b);
    EffectiveDivisorBound(b);
    if e < b {
      var k := Exponent(b);
      Pow2Mono(k % EXPONENT_MOD, k);
      assert 2 * e <= b;
      if a < e {
        DivModUnique(a, e, 0, a);
        DivModUnique(a, b, 0, a);
      } else {
        QuotientsDiffer(a, e, b);
      }
    }
  }

  lemma QuotientsDiffer(a: nat, e: nat, b: nat)
    requires 0 < e < b && e <= a
    ensures a / e != a / b || a % e != a % b
  {
    if a / e == a / b && a % e == a % b {
      var q := a / e;
      assert a == q * e + a % e && a == q * b + a % b;
      CancelledQuotient(q, e, b);
    }
  }

  lemma CancelledQuotient(q: int, e: int, b: int)
    requires e < b && q * e == q * b
    ensures q == 0
  {
    Distribute(e, b, q);
    MulGap(q, b - e) by {
      assert q * (b - e) == 0;
    }
  }

  /** A divisor the code gets wrong: 2^65536 into 1 yields quotient 1 and remainder 0. */
  lemma DivisionCounterexample()
    ensures IsPower(Pow2(EXPONENT_MOD)) && EffectiveDivisor(Pow2(EXPONENT_MOD)) == 1
    ensures 1 / EffectiveDivisor(Pow2(EXPONENT_MOD)) == 1
    ensures 1 / Pow2(EXPONENT_MOD) == 0
  {
    EffectiveDivisorOfPower(EXPONENT_MOD);
    Pow2Mono(1, EXPONENT_MOD);
    assert Pow2(1) == 2;
    DivModUnique(1, Pow2(EXPONENT_MOD), 0, 1);
  }

  /** Scaling dividend and divisor by the same factor scales the remainder and keeps the quotient. */
  lemma Denormalize(a: nat, b: nat, c: nat, q: nat, r: nat)
    requires b > 0 && c > 0
    requires a * c == q * (b * c) + r && r < b * c
    ensures q == a / b && r / c == a % b && r % c == 0
  {
    var s := a - q * b;
    Distribute(a, q * b, c);
    Assoc(q, b, c);
    assert r == s * c;
    if s < 0 {
      MulMono(s, -1, c);
    }
    if s >= b {
      MulMono(b, s, c);
    }
    DivModUnique(a, b, q, s);
    DivModUnique(r, c, s, 0);
  }

  /** Normalise and divide; the remainder is still scaled by 2^d. */
  method DivScaled(a: MpInt, b: MpInt) returns (quot: MpInt, rem: MpInt, d: nat)
    requires a != b && a.Valid() && b.Valid() && b.Mag() > 0
    modifies a, b
    ensures fresh(quot) && fresh(rem) && quot != rem && d < DIGIT_BIT
    ensures quot.Shaped() && rem.Valid() && !rem.neg
    ensures quot.Mag() == old(a.Mag()) / old(b.Mag())
    ensures rem.Mag() / Pow2(d) == old(a.Mag()) % old(b.Mag())
  {
    ghost var am, bm := a.Mag(), b.Mag();
    quot := new MpInt(a.used);
    var t := new MpInt(a.used);
    rem := new MpInt(a.used);
    d := Normalize(a, b);
    MulMono(1, bm, Pow2(d));
    LongDivide(a, b, quot, rem, t);
    Denormalize(am, bm, Pow2(d), quot.Mag(), rem.Mag());
  }

  /** The general case of `s_mp_div`. */
  method DivNormalized(a: MpInt, b: MpInt)
    requires a != b && a.Valid() && b.Valid() && b.Mag() > 0
    modifies a, b
    ensures a.Valid() && b.Valid()
    ensures a.Mag() == old(a.Mag()) / old(b.Mag()) && b.Mag() == old(a.Mag()) % old(b.Mag())
  {
    var quot, rem, d := DivScaled(a, b);
    if d != 0 {
      rem.Div2d(d);
    }
    quot.Clamp();
    rem.Clamp();
    MpInt.Exch(quot, a);
    MpInt.Exch(rem, b);
  }

  /** The shortcut of `s_mp_div` for a divisor 2^k. */
  method DivByPower(a: MpInt, b: MpInt, k: nat)
    requires a != b && a.Valid() && b.Valid()
    modifies a, b
    ensures a.Valid() && b.Valid()
    ensures a.Mag() == old(a.Mag()) / Pow2(k % EXPONENT_MOD) && b.Mag() == old(a.Mag()) % Pow2(k % EXPONENT_MOD)
  {
    b.CopyFrom(a);
    a.Div2d(k % EXPONENT_MOD);
    b.Mod2d(k % EXPONENT_MOD);
  }

  /** `s_mp_div`: a becomes the quotient and b the remainder of the magnitudes. */
  method DivMag(a: MpInt, b: MpInt) returns (res: Err)
    requires a != b && a.Valid() && b.Valid()
    modifies a, b
    ensures a.Valid() && b.Valid()
    ensures res == (if old(b.Mag()) == 0 then Range else Okay)
    ensures res.Range? ==> a.Val() == old(a.Val()) && b.Val() == old(b.Val())
    ensures res.Okay? ==> a.Mag() == old(a.Mag()) / EffectiveDivisor(old(b.Mag()))
    ensures res.Okay? ==> b.Mag() == old(a.Mag()) % EffectiveDivisor(old(b.Mag()))
  {
    var z := CmpZero(b);
    if z == 0 {
      return Range;
    }
    var ix := PowerExponent(b);
    if ix >= 0 {
      EffectiveDivisorOfPower(ix);
      DivByPower(a, b, ix);
    } else {
      DivNormalized(a, b);
    }
    return Okay;
  }
}
