/** Barrett reduction. */
module MpiReduce {
  import opened Arith
  import opened MpiDigits
  import opened MpiInt
  import opened MpiMagnitude
  import opened MpiDivide
  import opened MpiSigned

  /** The bit count DIGIT_BIT * (k + 1), narrowed to the 16-bit parameter of `s_mp_mod_2d`. */
  function MaskBits(k: nat): Digit {
    DIGIT_BIT * (k + 1) % EXPONENT_MOD
  }

  /** The quotient estimate q3, from x, mu and the number of digits of the modulus. */
  ghost function Estimate(x: nat, mu: nat, k: nat): nat
    requires k > 0
  {
    x / Pow(k - 1) * mu / Pow(k + 1)
  }

  /** What is left in `x` when the final loop starts. */
  ghost function Residue(x: nat, m: nat, mu: nat, k: nat): (r: nat)
    requires k > 0
  {
    ResidueNonNegative(x, m, mu, k);
    var r := x % Pow2(MaskBits(k)) - Estimate(x, mu, k) * m % Pow2(MaskBits(k));
    if r < 0 then r + Pow(k + 1) else r
  }

  lemma MaskBelow(k: nat)
    ensures Pow2(MaskBits(k)) <= Pow(k + 1)
    ensures k + 1 < 4096 ==> Pow2(MaskBits(k)) == Pow(k + 1)
  {
    PowIsPow2(k + 1);
    Pow2Mono(MaskBits(k), DIGIT_BIT * (k + 1));
  }

  lemma ResidueNonNegative(x: nat, m: nat, mu: nat, k: nat)
    requires k > 0
    ensures x % Pow2(MaskBits(k)) - Estimate(x, mu, k) * m % Pow2(MaskBits(k)) + Pow(k + 1) >= 0
  {
    MaskBelow(k);
    ModRange(x, Pow2(MaskBits(k)));
    ModRange(Estimate(x, mu, k) * m, Pow2(MaskBits(k)));
  }

  // ----- the estimate is at most two below the true quotient

  lemma EstimateNotAbove(x: int, m: int, b1: int, b2: int, q1: int, r1: int, mu: int, s: int, q3: int, t: int)
    requires 0 < b1 && 0 < b2 && 0 < m && 0 <= q1 && 0 <= mu && 0 <= q3
    requires x == q1 * b1 + r1 && 0 <= r1
    requires b1 * b2 == mu * m + s && 0 <= s
    requires q1 * mu == q3 * b2 + t && 0 <= t
    ensures q3 * m <= x
  {
    var n := b1 * b2;
    calc {
      (q3 * m) * n;
      { Assoc(q3, m, n); Assoc(m, b1, b2); Assoc(q3, m * b1, b2); Assoc(m * b1, q3, b2); Assoc(q3, b2, m * b1); }
      (q3 * b2) * (m * b1);
    <=  { MulNonNeg(m, b1); MulMono(q3 * b2, q1 * mu, m * b1); }
      (q1 * mu) * (m * b1);
      { Assoc(q1, mu, m * b1); Assoc(mu, m, b1); Assoc(q1, mu * m, b1); Assoc(mu * m, q1, b1); Assoc(q1, b1, mu * m); }
      (q1 * b1) * (mu * m);
    <=  { MulNonNeg(q1, b1); MulMono(mu * m, n, q1 * b1); }
      (q1 * b1) * n;
    <=  { MulNonNeg(b1, b2); MulMono(q1 * b1, x, n); }
      x * n;
    }
    if q3 * m > x {
      MulNonNeg(b1, b2);
      MulMono(1, b1, b2);
      MulMono(x + 1, q3 * m, n);
      Distribute(x, 1, n);
    }
  }

  lemma EstimateClose(x: int, m: int, b1: int, b2: int, q1: int, r1: int, mu: int, s: int, q3: int, t: int)
    requires 0 < b1 <= m && 0 < b2 && 0 <= q1 && 0 <= x < b1 * b2
    requires x == q1 * b1 + r1 && 0 <= r1 < b1
    requires b1 * b2 == mu * m + s && 0 <= s < m
    requires q1 * mu == q3 * b2 + t && 0 <= t < b2
    ensures x - q3 * m < 3 * m
  {
    var n := b1 * b2;
    assert n * (x - q3 * m) == n * r1 + (q1 * b1) * s + t * (m * b1) by {
      Distribute(q1 * b1, r1, n);
      Distribute(x, q3 * m, n);
      assert (q3 * m) * n == (q1 * b1) * (mu * m) - t * (m * b1) by {
        Assoc(q3, m, n); Assoc(m, b1, b2); Assoc(q3, m * b1, b2); Assoc(m * b1, q3, b2); Assoc(q3, b2, m * b1);
        Distribute(q1 * mu, t, m * b1);
        Assoc(q1, mu, m * b1); Assoc(mu, m, b1); Assoc(q1, mu * m, b1); Assoc(mu * m, q1, b1); Assoc(q1, b1, mu * m);
      }
      Distribute(n, s, q1 * b1);
    }
    EstimateBounds(x, m, b1, b2, q1, r1, s, t, n);
    Assoc(3, m, n);
    CancelLess(n, x - q3 * m, 3 * m);
  }

  lemma CancelLess(n: int, a: int, b: int)
    requires n > 0 && n * a < b * n
    ensures a < b
  {
    if b <= a {
      MulMono(b, a, n);
    }
  }

  lemma EstimateBounds(x: int, m: int, b1: int, b2: int, q1: int, r1: int, s: int, t: int, n: int)
    requires 0 < b1 <= m && 0 < b2 && n == b1 * b2 && 0 <= q1 && 0 <= x < n
    requires x == q1 * b1 + r1 && 0 <= r1 < b1 && 0 <= s < m && 0 <= t < b2
    ensures n > 0 && n * r1 + (q1 * b1) * s + t * (m * b1) < 3 * (m * n)
  {
    MulMono(1, b1, b2);
    MulMono(r1, m - 1, n);
    Distribute(m, 1, n);
    assert n * r1 <= m * n - n;
    MulNonNeg(q1, b1);
    MulMono(q1 * b1, n, s);
    MulMono(s, m, n);
    assert (q1 * b1) * s <= m * n;
    MulNonNeg(m, b1);
    MulMono(t, b2, m * b1);
    assert b2 * (m * b1) == m * n by { Assoc(m, b1, b2); }
  }

  lemma ModOfDifference(x: int, y: int, b: int, r: int)
    requires b > 0 && r == x - y && 0 <= r < b
    ensures r == var d := x % b - y % b; if d < 0 then d + b else d
  {
    var d := x % b - y % b;
    assert x == x / b * b + x % b && y == y / b * b + y % b;
    Distribute(x / b, y / b, b);
    assert d - r == (y / b - x / b) * b by { Distribute(y / b, x / b, b); }
    if d < 0 {
      Distribute(y / b - x / b, 1, b);
      MulGap(y / b - x / b + 1, b);
    } else {
      MulGap(y / b - x / b, b);
    }
  }

  lemma BarrettBounds(x: int, m: int, b1: int, b2: int, mu: int, q1: int, q3: int)
    requires 0 < b1 <= m && 0 < b2 && 0 <= x < b1 * b2
    requires q1 == x / b1 && mu == b1 * b2 / m && q3 == q1 * mu / b2
    ensures 0 <= q3 && q3 * m <= x < q3 * m + 3 * m
  {
    QuotientRange(x, b1);
    QuotientRange(b1 * b2, m);
    MulNonNeg(q1, mu);
    QuotientRange(q1 * mu, b2);
    EstimateNotAbove(x, m, b1, b2, q1, x % b1, mu, b1 * b2 % m, q3, q1 * mu % b2);
    EstimateClose(x, m, b1, b2, q1, x % b1, mu, b1 * b2 % m, q3, q1 * mu % b2);
  }

  /** Below 4095 digits both masks are RADIX^(k+1). */
  lemma WideResidue(x: nat, m: nat, mu: nat, k: nat)
    requires k > 0 && k + 1 < 4096
    ensures Residue(x, m, mu, k) == var d := x % Pow(k + 1) - Estimate(x, mu, k) * m % Pow(k + 1);
                                    if d < 0 then d + Pow(k + 1) else d
  {
    hide Pow, Pow2, Estimate, MaskBits;
    MaskBelow(k);
  }

  /** Barrett's bound: the estimate is low by at most two, so the residue is x - q3 m and below 3 m. */
  lemma BarrettResidue(x: nat, m: nat, k: nat)
    requires k > 0 && k + 1 < 4096 && Pow(k - 1) <= m < Pow(k) && x < Pow(2 * k)
    ensures 0 <= x - Estimate(x, Pow(2 * k) / m, k) * m < 3 * m
    ensures Residue(x, m, Pow(2 * k) / m, k) == x - Estimate(x, Pow(2 * k) / m, k) * m
  {
    var mu := Pow(2 * k) / m;
    var q3 := Estimate(x, mu, k);
    EstimateBounded(x, m, k, mu);
    WideResidue(x, m, mu, k);
    hide Pow, Estimate, Residue;
    PowStep(k);
    ModOfDifference(x, q3 * m, Pow(k + 1), x - q3 * m);
  }

  lemma EstimateBounded(x: nat, m: nat, k: nat, mu: nat)
    requires k > 0 && Pow(k - 1) <= m && x < Pow(2 * k) && mu == Pow(2 * k) / m
    ensures Estimate(x, mu, k) * m <= x < Estimate(x, mu, k) * m + 3 * m
  {
    var q3 := Estimate(x, mu, k);
    assert q3 == x / Pow(k - 1) * mu / Pow(k + 1);
    hide Pow, Estimate;
    PowAdd(k - 1, k + 1);
    BarrettBounds(x, m, Pow(k - 1), Pow(k + 1), mu, x / Pow(k - 1), q3);
  }

  /** The residue is congruent to x, so the final subtractions leave x mod m, and there are at most two. */
  lemma BarrettCorrect(x: nat, m: nat, k: nat)
    requires k > 0 && k + 1 < 4096 && Pow(k - 1) <= m < Pow(k) && x < Pow(2 * k)
    ensures Residue(x, m, Pow(2 * k) / m, k) % m == x % m
    ensures Residue(x, m, Pow(2 * k) / m, k) / m <= 2
  {
    hide Pow, Residue, Estimate;
    BarrettResidue(x, m, k);
    SubtractMultiple(x, Estimate(x, Pow(2 * k) / m, k), m);
  }

  lemma SubtractMultiple(x: nat, q: nat, m: nat)
    requires m > 0 && 0 <= x - q * m < 3 * m
    ensures (x - q * m) % m == x % m && (x - q * m) / m <= 2
  {
    var r := x - q * m;
    QuotientRange(r, m);
    Distribute(q, r / m, m);
    DivModUnique(x, m, q + r / m, r % m);
    if r / m >= 3 {
      MulMono(3, r / m, m);
    }
  }

  /** From 4095 digits on the narrowed masks cut away a power of the radix that is smaller than m. */
  lemma MaskedPower(m: nat, mu: nat, k: nat)
    requires k >= 4095 && Pow(k - 1) <= m
    ensures var x := Pow((k + 1) % 4096); Residue(x, m, mu, k) == 0 && 0 < x < m && x < Pow(2 * k)
  {
    var j := (k + 1) % 4096;
    assert MaskBits(k) == DIGIT_BIT * j;
    hide Pow, Pow2, Estimate, MaskBits;
    assert j < k - 1;
    PowMono(j, k - 1);
    PowMono(j, 2 * k);
    PowIsPow2(j);
    EstimateBelow(Pow(j), mu, k);
    DivModUnique(Pow(j), Pow(j), 1, 0);
    DivModUnique(0 * m, Pow(j), 0, 0);
  }

  lemma EstimateBelow(x: nat, mu: nat, k: nat)
    requires k > 0 && x < Pow(k - 1)
    ensures Estimate(x, mu, k) == 0
  {
    DivModUnique(x, Pow(k - 1), 0, x);
    DivModUnique(0 * mu, Pow(k + 1), 0, 0);
  }

  /**
   * Barrett reduction is right for every x below RADIX^(2k) exactly when the modulus has fewer than 4095
   * digits; for each longer modulus it turns some x into 0.
   */
  lemma ReduceExactIff(m: nat, k: nat)
    requires k > 0 && Pow(k - 1) <= m < Pow(k)
    ensures (forall x: nat :: x < Pow(2 * k) ==> Residue(x, m, Pow(2 * k) / m, k) % m == x % m) <==> k + 1 < 4096
  {
    hide Pow, Residue;
    if k + 1 < 4096 {
      forall x: nat | x < Pow(2 * k) ensures Residue(x, m, Pow(2 * k) / m, k) % m == x % m {
        BarrettCorrect(x, m, k);
      }
    } else {
      ReduceLosesPower(m, Pow(2 * k) / m, k);
    }
  }

  lemma ReduceLosesPower(m: nat, mu: nat, k: nat)
    requires k >= 4095 && Pow(k - 1) <= m
    ensures exists x: nat :: x < Pow(2 * k) && Residue(x, m, mu, k) % m != x % m
  {
    hide Pow, Residue;
    var x := Pow((k + 1) % 4096);
    MaskedPower(m, mu, k);
    DivModUnique(x, m, 0, x);
    DivModUnique(0, m, 0, 0);
    assert Residue(x, m, mu, k) % m != x % m;
  }

  lemma ResidueValue(x: nat, m: nat, mu: nat, k: nat, d: int)
    requires k > 0 && d == x % Pow2(MaskBits(k)) - Estimate(x, mu, k) * m % Pow2(MaskBits(k))
    ensures Residue(x, m, mu, k) == (if d < 0 then d + Pow(k + 1) else d) && d + Pow(k + 1) >= 0
  {
    hide Pow, Pow2, Estimate, MaskBits;
    ResidueNonNegative(x, m, mu, k);
  }

  /** q3: two digit shifts around a product. */
  method EstimateQuotient(x: MpInt, mu: MpInt, um: nat) returns (q: MpInt)
    requires um > 0 && x.Valid() && mu.Valid()
    ensures fresh(q) && q.Valid() && !q.neg && q.Mag() == Estimate(x.Mag(), mu.Mag(), um)
  {
    hide Pow, Value;
    q := new MpInt.Copy(x);
    q.Rshd(um - 1);
    MulMag(q, mu);
    q.Rshd(um + 1);
  }

  /** x becomes the residue: the two products, the two masks and the correction of a negative difference. */
  method ReduceToResidue(x: MpInt, m: MpInt, mu: MpInt)
    requires x != m && x != mu && x.Valid() && !x.neg && m.Valid() && mu.Valid()
    modifies x
    ensures x.Valid() && !x.neg && x.Mag() == Residue(old(x.Mag()), old(m.Mag()), old(mu.Mag()), m.used)
  {
    var um := m.used;
    var bits := MaskBits(um);
    hide Pow, Pow2, MaskBits, Estimate, Value, Residue;
    var q := EstimateQuotient(x, mu, um);
    x.Mod2d(bits);
    MulMag(q, m);
    q.Mod2d(bits);
    ResidueNonNegative(old(x.Mag()), m.Mag(), mu.Mag(), um);
    Sub(x, q, x);
    ResidueValue(old(x.Mag()), m.Mag(), mu.Mag(), um, x.Val());
    var c := CmpZero(x);
    if c < 0 {
      q.Set(1);
      q.Lshd(um + 1);
      Add(x, q, x);
    }
  }

  /** `s_mp_reduce`; `rounds` counts the subtractions of the final loop. */
  method Reduce(x: MpInt, m: MpInt, mu: MpInt) returns (ghost rounds: nat)
    requires x != m && x != mu && x.Valid() && !x.neg && m.Valid() && m.Val() > 0 && mu.Valid()
    modifies x
    ensures x.Valid() && !x.neg
    ensures var r := Residue(old(x.Mag()), old(m.Mag()), old(mu.Mag()), m.used);
            x.Mag() == r % old(m.Mag()) && rounds == r / old(m.Mag())
  {
    ghost var r, mm := Residue(x.Mag(), m.Mag(), mu.Mag(), m.used), m.Mag();
    ReduceToResidue(x, m, mu);
    rounds := 0;
    var c := Cmp(x, m);
    while c >= 0
      invariant x.Valid() && !x.neg && m.Valid() && !m.neg && m.Mag() == mm
      invariant r == rounds * mm + x.Mag()
      invariant c == Sign(x.Mag() - mm)
      decreases x.Mag()
    {
      UsedMono(x.dp, x.used, m.dp, m.used);
      var res := SubMag(x, m);
      if res != Okay {
        break;
      }
      Distribute(rounds, 1, mm);
      rounds := rounds + 1;
      c := Cmp(x, m);
    }
    DivModUnique(r, mm, rounds, x.Mag());
  }
}
