/** A number for which the iteration of `mp_sqrt` divides by zero. */
module MpiSqrtZero {
  import opened Arith
  import opened MpiDivide
  import opened MpiSigned
  import opened MpiSqrt

  /** With x for 2^65536: the largest number whose iteration may pass through x with a correction of x. */
  ghost function Unlucky(x: nat): int {
    x * x - 2 * x - 1
  }

  /** From y the loop reaches zero. */
  ghost predicate Dies(a: int, y: int) {
    exists n: nat :: Ends(a, y, n) && Last(a, y, n) == 0
  }

  ghost function Next(a: int, y: int): int
    requires y > 0
  {
    y - (y * y - a) / (2 * y)
  }

  lemma DiesNext(a: int, y: int, z: int)
    requires y != 0 && z != y && Correction(a, y) == y - z && Dies(a, z)
    ensures Dies(a, y)
  {
    hide Correction, Ends, Last;
    var n: nat :| Ends(a, z, n) && Last(a, z, n) == 0;
    Prepend(a, y, n);
  }

  /** The next iterate is the average of y and a / y, rounded up. */
  ghost predicate Average(a: int, y: int, z: int) {
    y * y + a <= 2 * y * z < y * y + a + 2 * y
  }

  lemma AverageStep(a: nat, y: int, z: int)
    requires y > 0 && y * y > a && !IsPower(2 * y) && z == Next(a, y)
    ensures Correction(a, y) == y - z && Average(a, y, z)
  {
    var d, q := y * y - a, (y * y - a) / (2 * y);
    TameCorrection(a, y);
    QuotientRange(d, 2 * y);
    assert 2 * y * z == 2 * (y * y) - q * (2 * y) by { Distribute(y, q, 2 * y); Assoc(2, y, y); }
  }

  /** Between two powers of two an iterate is divided by rightly. */
  lemma StepBetween(a: nat, y: int, k: nat)
    requires Pow2(k) < y < 2 * Pow2(k) && y * y > a
    ensures Correction(a, y) == y - Next(a, y) && Average(a, y, Next(a, y))
  {
    assert Pow2(k + 1) == 2 * Pow2(k) && Pow2(k + 2) == 4 * Pow2(k);
    hide Pow2, IsPower;
    BetweenPowers(k + 1, 2 * y);
    AverageStep(a, y, Next(a, y));
  }

  lemma CutFactor(y: int, u: int, v: int)
    requires y > 0 && y * u < y * v
    ensures u < v
  {
    if u >= v {
      MulMono(v, u, y);
    }
  }

  // ----- near x

  /** At x itself the division by 2^65537 is one by 2. */
  lemma AtPower(x: nat)
    requires x == Pow2(EXPONENT_MOD) && x > 4
    ensures Unlucky(x) > 0 && Correction(Unlucky(x), x) == x && Dies(Unlucky(x), x)
  {
    var a := Unlucky(x);
    assert Pow2(EXPONENT_MOD + 1) == 2 * x && Pow2(1) == 2;
    EffectiveDivisorOfPower(EXPONENT_MOD + 1);
    hide Pow2, EffectiveDivisor;
    MulMono(4, x, x);
    assert x * x - a == 2 * x + 1;
    assert QuotMag(2 * x + 1, 2 * x) == (2 * x + 1) / 2 == x;
    assert Ends(a, 0, 1) && Last(a, 0, 1) == 0;
    hide Correction;
    DiesNext(a, x, 0);
  }

  lemma NearAverage(x: nat, k: nat, z: int)
    requires 0 < k && x > 4 && Average(Unlucky(x), x + k, z)
    ensures x <= z < x + k
  {
    var y, r := x + k, k * k + 2 * k - 1;
    Square(x, k);
    assert 0 < r < k * (2 * y) by { MulMono(1, k, k); Distribute(2 * x, 2 * k, k); MulMono(5, x, k); Assoc(k, 2, k); Assoc(2, x, k); Assoc(2, k, k); }
    NearCut(y, x, k, r, z, Unlucky(x));
  }

  lemma NearCut(y: int, x: int, k: int, r: int, z: int, a: int)
    requires y > 0 && y * y + a == 2 * y * (x - 1) + r && 0 < r < k * (2 * y) && Average(a, y, z)
    ensures x <= z < x + k
  {
    CutFactor(2 * y, x - 1, z);
    Distribute(x, 1, 2 * y);
    Distribute(x, k, 2 * y);
    CutFactor(2 * y, z, x + k);
  }

  lemma Square(x: int, k: int)
    ensures (x + k) * (x + k) + (x * x - 2 * x - 1) == 2 * (x + k) * (x - 1) + (k * k + 2 * k - 1)
  {
    Distribute(x, k, x + k);
    Distribute(x, k, x);
    Distribute(x, k, k);
    Distribute(x, 1, 2 * (x + k));
    Assoc(2, x + k, x);
  }

  /** From a little above x the iteration comes down to x. */
  lemma {:induction false} Near(x: nat, k: nat)
    requires x == Pow2(EXPONENT_MOD) && x > 4 && k < x
    ensures Dies(Unlucky(x), x + k)
    decreases k
  {
    hide Pow2, Correction, Dies, Unlucky, Next;
    AtPower(x);
    if k > 0 {
      var a, y := Unlucky(x), x + k;
      NearStep(x, k);
      Near(x, Next(a, y) - x);
      DiesNext(a, y, Next(a, y));
    }
  }

  lemma NearStep(x: nat, k: nat)
    requires x == Pow2(EXPONENT_MOD) && x > 4 && 0 < k < x
    ensures var a, y := Unlucky(x), x + k; Correction(a, y) == y - Next(a, y) && x <= Next(a, y) < y
  {
    hide Pow2, Correction;
    var a, y := Unlucky(x), x + k;
    MulMono(x, y, x);
    MulMono(x, y, y);
    hide Next;
    assert a >= 0 by { MulMono(4, x, x); }
    StepBetween(a, y, EXPONENT_MOD);
    NearAverage(x, k, Next(a, y));
  }

  // ----- above the powers of two

  lemma AboveAverage(a: nat, p: nat, r: nat, k: nat, z: int)
    requires Average(a, 2 * p + k, z) && 0 < a < 2 * p * r && 0 < k <= r < 2 * p
    ensures p < z <= p + r && z < 2 * p + k
  {
    var y := 2 * p + k;
    assert y * y + a < y * (y + r) by { Distribute(y, r, y); MulMono(2 * p, y, r); }
    assert 2 * y * z < y * (y + r + 2) by { Distribute(y + r, 2, y); }
    Assoc(y, 2, z);
    assert y * (2 * z) < y * (y + r + 2);
    CutFactor(y, 2 * z, y + r + 2);
    CutFactor(y, y, 2 * z);
  }

  /** From 2^m and at most 2^(2e - m) more, e being 65536, the iteration comes down the same way to 2^e. */
  lemma {:induction false} Above(x: nat, m: nat, k: nat)
    requires x == Pow2(EXPONENT_MOD) && x > 4
    requires EXPONENT_MOD < m <= 2 * EXPONENT_MOD && 0 < k <= Pow2(2 * EXPONENT_MOD - m)
    ensures Dies(Unlucky(x), Pow2(m) + k)
    decreases m
  {
    hide Pow2, Correction, Dies, Next, Unlucky;
    var a, y := Unlucky(x), Pow2(m) + k;
    AboveNext(x, m, k);
    var k' := Next(a, y) - Pow2(m - 1);
    if m - 1 == EXPONENT_MOD {
      Near(x, k');
    } else {
      Above(x, m - 1, k');
    }
    DiesNext(a, y, Next(a, y));
  }

  lemma AboveNext(x: nat, m: nat, k: nat)
    requires x == Pow2(EXPONENT_MOD) && x > 4
    requires EXPONENT_MOD < m <= 2 * EXPONENT_MOD && 0 < k <= Pow2(2 * EXPONENT_MOD - m)
    ensures var a, y := Unlucky(x), Pow2(m) + k;
      var k' := Next(a, y) - Pow2(m - 1);
      && Correction(a, y) == y - Next(a, y) && Next(a, y) < y && 0 < k' <= Pow2(2 * EXPONENT_MOD - (m - 1))
      && (m - 1 == EXPONENT_MOD ==> k' < x)
  {
    hide Pow2, Correction, Next;
    AbovePowers(x, m);
    MulMono(4, x, x);
    AboveStep(Unlucky(x), m, Pow2(m - 1), Pow2(2 * EXPONENT_MOD - m), k);
  }

  lemma AbovePowers(x: nat, m: nat)
    requires x == Pow2(EXPONENT_MOD) && EXPONENT_MOD < m <= 2 * EXPONENT_MOD
    ensures var p, r := Pow2(m - 1), Pow2(2 * EXPONENT_MOD - m);
      && Pow2(m) == 2 * p && Pow2(2 * EXPONENT_MOD - (m - 1)) == 2 * r && 2 * p * r == x * x && r <= p
      && (m - 1 == EXPONENT_MOD ==> 2 * r == x)
  {
    assert Pow2(m) == 2 * Pow2(m - 1) && Pow2(2 * EXPONENT_MOD - (m - 1)) == 2 * Pow2(2 * EXPONENT_MOD - m);
    Pow2Add(m, 2 * EXPONENT_MOD - m);
    Pow2Add(EXPONENT_MOD, EXPONENT_MOD);
    Pow2Mono(2 * EXPONENT_MOD - m, m - 1);
  }

  lemma AboveStep(a: nat, m: nat, p: nat, r: nat, k: nat)
    requires Pow2(m) == 2 * p && 0 < a < 2 * p * r && 0 < k <= r <= p
    ensures var y := 2 * p + k;
      var z := Next(a, y);
      Correction(a, y) == y - z && p < z <= p + r && z < y
  {
    hide Pow2, Correction;
    var y := 2 * p + k;
    AboveSquare(2 * p, r, y);
    StepBetween(a, y, m);
    AboveAverage(a, p, r, k, Next(a, y));
  }

  lemma AboveSquare(p: nat, r: nat, y: nat)
    requires r <= p <= y
    ensures p * r <= y * y
  {
    MulMono(r, y, p);
    MulMono(p, y, y);
  }

  // ----- below the powers of two

  /** Half of an even number plus c: the averages keep c near a third of p. */
  lemma BelowAverage(a: nat, h: nat, p: nat, c: nat, z: int)
    requires Average(a, 2 * h + c, z) && a == 2 * h * p - 1 && 2 * h + c > c * p + 1 && 2 * h > p + 1
    requires p - 2 <= 3 * c <= p + 2
    ensures 2 * p - 2 <= 3 * (z - h) <= 2 * p + 2 && z < 2 * h + c
  {
    var y := 2 * h + c;
    assert a == y * p - c * p - 1 by { Distribute(2 * h, c, p); }
    MulNonNeg(c, p);
    assert 2 * y * z < y * (y + p + 2) by { Distribute(y, p, y); Distribute(y + p, 2, y); }
    assert 2 * y * z > y * (y + p - 1) by { Distribute(y, p, y); Distribute(y + p, 1, y); }
    Assoc(y, 2, z);
    CutFactor(y, 2 * z, y + p + 2);
    CutFactor(y, y + p - 1, 2 * z);
  }

  /** The iterate j, with c the distance from 2^(2e - j) - 2^(e + 1 - j). */
  ghost function Iterate(j: nat): int
    requires j <= EXPONENT_MOD
  {
    Pow2(2 * EXPONENT_MOD - j) - Pow2(EXPONENT_MOD + 1 - j)
  }

  /** Sizes of the powers that occur for the first j; h is half of 65536. */
  lemma Powers(x: nat, h: nat, j: nat)
    requires x == Pow2(EXPONENT_MOD) && 2 * h == EXPONENT_MOD && 1 <= j <= h + 1
    ensures var p, u, w := Pow2(j), Pow2(2 * EXPONENT_MOD - j), Pow2(EXPONENT_MOD + 1 - j);
      && (u - w) * p == x * x - 2 * x && 4 <= w <= u / 4 && p <= 2 * w && 2 <= p
      && Iterate(j) == u - w && 2 * Iterate(j + 1) == u - w && u / 4 > p * p + 1 && u == 2 * Pow2(2 * EXPONENT_MOD - j - 1)
  {
    PowerProducts(x, j);
    PowerSizes(h, j);
  }

  lemma PowerProducts(x: nat, j: nat)
    requires x == Pow2(EXPONENT_MOD) && 1 <= j <= EXPONENT_MOD
    ensures (Pow2(2 * EXPONENT_MOD - j) - Pow2(EXPONENT_MOD + 1 - j)) * Pow2(j) == x * x - 2 * x
    ensures Pow2(2 * EXPONENT_MOD - j) == 2 * Pow2(2 * EXPONENT_MOD - j - 1) && Pow2(EXPONENT_MOD + 1 - j) == 2 * Pow2(EXPONENT_MOD - j)
  {
    assert Pow2(EXPONENT_MOD + 1) == 2 * x;
    Pow2Add(2 * EXPONENT_MOD - j, j);
    Pow2Add(EXPONENT_MOD + 1 - j, j);
    Pow2Add(EXPONENT_MOD, EXPONENT_MOD);
    hide Pow2;
    Distribute(Pow2(2 * EXPONENT_MOD - j), Pow2(EXPONENT_MOD + 1 - j), Pow2(j));
  }

  lemma PowerSizes(h: nat, j: nat)
    requires 2 * h == EXPONENT_MOD && 1 <= j <= h + 1
    ensures var p, u, w := Pow2(j), Pow2(2 * EXPONENT_MOD - j), Pow2(EXPONENT_MOD + 1 - j);
      4 <= w <= u / 4 && 2 <= p <= 2 * w && u / 4 > p * p + 1
  {
    var t := Pow2(2 * EXPONENT_MOD - j - 3);
    assert Pow2(1) == 2 && Pow2(2) == 4 && Pow2(2 * EXPONENT_MOD - j) == 8 * t && Pow2(2 * EXPONENT_MOD - j - 2) == 2 * t by {
      EightTimes(2 * EXPONENT_MOD - j - 3);
    }
    assert Pow2(EXPONENT_MOD + 2 - j) == 2 * Pow2(EXPONENT_MOD + 1 - j);
    Pow2Mono(1, j);
    Pow2Mono(2, EXPONENT_MOD + 1 - j);
    Pow2Mono(EXPONENT_MOD + 1 - j, 2 * EXPONENT_MOD - j - 2);
    Pow2Mono(j, EXPONENT_MOD + 2 - j);
    Pow2Mono(j + j, 2 * EXPONENT_MOD - j - 3);
    Pow2Add(j, j);
    hide Pow2;
    MulMono(2, Pow2(j), Pow2(j));
  }

  lemma EightTimes(n: nat)
    ensures Pow2(n + 1) == 2 * Pow2(n) && Pow2(n + 2) == 4 * Pow2(n) && Pow2(n + 3) == 8 * Pow2(n)
  {
    assert Pow2(n + 1) == 2 * Pow2(n);
    assert Pow2(n + 2) == 2 * Pow2(n + 1);
    assert Pow2(n + 3) == 2 * Pow2(n + 2);
  }

  lemma {:induction false} Below(x: nat, h: nat, j: nat, c: nat)
    requires x == Pow2(EXPONENT_MOD) && x > 4 && 2 * h == EXPONENT_MOD && 1 <= j <= h + 2
    requires Pow2(j) - 2 <= 3 * c <= Pow2(j) + 2
    ensures Dies(Unlucky(x), Iterate(j) + c)
    decreases h + 2 - j
  {
    hide Pow2, Correction, Dies, Iterate, Next, Unlucky;
    if j == h + 2 {
      CrossOver(x, h, c);
    } else {
      var a, y := Unlucky(x), Iterate(j) + c;
      BelowNext(x, h, j, c);
      Below(x, h, j + 1, Next(a, y) - Iterate(j + 1));
      DiesNext(a, y, Next(a, y));
    }
  }

  lemma BelowNext(x: nat, h: nat, j: nat, c: nat)
    requires x == Pow2(EXPONENT_MOD) && x > 4 && 2 * h == EXPONENT_MOD && 1 <= j <= h + 1
    requires Pow2(j) - 2 <= 3 * c <= Pow2(j) + 2
    ensures var a, y := Unlucky(x), Iterate(j) + c;
      y > 0 && Correction(a, y) == y - Next(a, y) && Next(a, y) < y
      && Pow2(j + 1) - 2 <= 3 * (Next(a, y) - Iterate(j + 1)) <= Pow2(j + 1) + 2
  {
    assert Pow2(j + 1) == 2 * Pow2(j);
    hide Pow2, Correction, Next, Iterate;
    Powers(x, h, j);
    assert Unlucky(x) > 0 by { MulMono(4, x, x); }
    hide Unlucky;
    BelowStep(x, j, Pow2(j), Pow2(2 * EXPONENT_MOD - j), Pow2(EXPONENT_MOD + 1 - j), c, Iterate(j + 1));
  }

  lemma BelowStep(x: nat, j: nat, p: nat, u: nat, w: nat, c: nat, half: int)
    requires j < 2 * EXPONENT_MOD && u == 2 * Pow2(2 * EXPONENT_MOD - j - 1) && x > 4 && Unlucky(x) > 0
    requires (u - w) * p == x * x - 2 * x && 4 <= w <= u / 4 && 2 <= p <= 2 * w && u / 4 > p * p + 1
    requires 2 * half == u - w && p - 2 <= 3 * c <= p + 2
    ensures var a, y := Unlucky(x), u - w + c;
      var z := Next(a, y);
      y > 0 && Correction(a, y) == y - z && z < y && 2 * p - 2 <= 3 * (z - half) <= 2 * p + 2
  {
    hide Pow2, Correction;
    var a, y := Unlucky(x), u - w + c;
    assert c * p <= p * p by { MulMono(c, p, p); }
    MulMono(2, p, p);
    assert y * y > a by { MulMono(p, y, y); Distribute(u - w, c, p); MulNonNeg(c, p); Assoc(1, y, p); }
    StepBetween(a, y, 2 * EXPONENT_MOD - j - 1);
    BelowAverage(a, half, p, c, Next(a, y));
  }

  /** After half the exponent the iterates lie above the powers of two. */
  lemma CrossOver(x: nat, h: nat, c: nat)
    requires x == Pow2(EXPONENT_MOD) && x > 4 && 2 * h == EXPONENT_MOD && Pow2(h + 2) - 2 <= 3 * c <= Pow2(h + 2) + 2
    ensures Dies(Unlucky(x), Iterate(h + 2) + c)
  {
    var w := Pow2(EXPONENT_MOD + 1 - (h + 2));
    EightTimes(h - 1);
    assert w == Pow2(h - 1);
    var m := 2 * EXPONENT_MOD - (h + 2);
    assert Iterate(h + 2) + c == Pow2(m) + (c - w);
    hide Pow2, Dies, Iterate;
    Above(x, m, c - w);
  }

  /** 2^131072 - 2^65537 - 1 has the iterate 2^65536, whose correction is itself: `mp_sqrt` returns RANGE. */
  lemma SqrtDividesByZero(x: nat)
    requires x == Pow2(EXPONENT_MOD)
    ensures var a := Unlucky(x); a > 1 && Terminates(a) && LastIterate(a) == 0
  {
    assert x > 16 by { Pow2Mono(5, EXPONENT_MOD); assert Pow2(5) == 32; }
    var a := Unlucky(x);
    FirstIterate(x);
    hide Pow2, Ends, Last;
    var n: nat :| Ends(a, a, n) && Last(a, a, n) == 0;
    LastIterateIs(a, n);
  }

  lemma FirstIterate(x: nat)
    requires x == Pow2(EXPONENT_MOD) && x > 16
    ensures Unlucky(x) > 1 && Dies(Unlucky(x), Unlucky(x))
  {
    var a, h := Unlucky(x), EXPONENT_MOD / 2;
    SquareHalf(x);
    assert Pow2(1) == 2;
    hide Pow2, Iterate, Correction, Dies;
    MulMono(16, x, x);
    FirstStep(x, a, Iterate(1));
    Below(x, h, 1, 0);
    DiesNext(a, a, Iterate(1));
  }

  lemma SquareHalf(x: nat)
    requires x == Pow2(EXPONENT_MOD)
    ensures 2 * Pow2(2 * EXPONENT_MOD - 1) == x * x && 2 * Iterate(1) == x * x - 2 * x
  {
    Pow2Add(EXPONENT_MOD, EXPONENT_MOD);
  }

  lemma FirstStep(x: nat, a: nat, z: int)
    requires 2 * Pow2(2 * EXPONENT_MOD - 1) == x * x && x > 16 && a == Unlucky(x) && 2 * z == x * x - 2 * x
    ensures a > 1 && Correction(a, a) == a - z && z < a
  {
    hide Pow2, Correction;
    MulMono(16, x, x);
    MulMono(2, a, a);
    StepBetween(a, a, 2 * EXPONENT_MOD - 1);
    FirstAverage(a, z, Next(a, a));
  }

  lemma FirstAverage(a: nat, z: int, y: int)
    requires a == 2 * z - 1 && a > 0 && Average(a, a, y)
    ensures y == z
  {
    Assoc(a, 2, y);
    Distribute(a, 1, a);
    Distribute(a, 3, a);
    CutFactor(a, 2 * y, a + 3);
    CutFactor(a, a, 2 * y);
  }
}
