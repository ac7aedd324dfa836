/** Modular exponentiation by squaring, with a Barrett step after every product. */
module MpiExpt {
  import opened Arith
  import opened MpiDigits
  import opened MpiInt
  import opened MpiMagnitude
  import opened MpiSquare
  import opened MpiDivide
  import opened MpiSigned
  import opened MpiReduce

  /** x to the n */
  function Expo(x: int, n: nat): int {
    if n == 0 then 1 else x * Expo(x, n - 1)
  }

  lemma {:induction false} ExpoAdd(x: int, m: nat, n: nat)
    ensures Expo(x, m + n) == Expo(x, m) * Expo(x, n)
  {
    if m > 0 {
      ExpoAdd(x, m - 1, n);
      Assoc(x, Expo(x, m - 1), Expo(x, n));
    }
  }

  /** A square's n-th power is the 2n-th power. */
  lemma {:induction false} ExpoSquare(x: int, n: nat)
    ensures Expo(x * x, n) == Expo(x, 2 * n)
  {
    if n > 0 {
      ExpoSquare(x, n - 1);
      assert Expo(x, 2 * n) == x * (x * Expo(x, 2 * (n - 1)));
      Assoc(x, x, Expo(x, 2 * (n - 1)));
    }
  }

  // ----- congruence

  lemma ModMul(x: int, y: int, m: int)
    requires m > 0
    ensures (x % m) * y % m == x * y % m
    ensures y * (x % m) % m == y * x % m
  {
    var q, r := x / m, x % m;
    var p, t := r * y / m, r * y % m;
    assert x == q * m + r && r * y == p * m + t;
    Distribute(q * m, r, y);
    Assoc(q, m, y);
    Assoc(q, y, m);
    Distribute(q * y, p, m);
    DivModUnique(x * y, m, q * y + p, t);
  }

  lemma {:induction false} ModExpo(x: int, n: nat, m: int)
    requires m > 0
    ensures Expo(x % m, n) % m == Expo(x, n) % m
  {
    if n > 0 {
      ModExpo(x, n - 1, m);
      ModMul(x, Expo(x % m, n - 1), m);
      ModMul(Expo(x % m, n - 1), x, m);
      ModMul(Expo(x, n - 1), x, m);
    }
  }

  // ----- the computation as a function of the exponent

  /** What a Barrett step leaves. */
  ghost function Reduced(x: nat, m: nat, mu: nat, k: nat): nat
    requires m > 0 && k > 0
  {
    Residue(x, m, mu, k) % m
  }

  /** Square-and-multiply from the low bit up. */
  ghost function ExptBits(s: nat, x: nat, b: nat, m: nat, mu: nat, k: nat): nat
    requires m > 0 && k > 0
    decreases b
  {
    if b == 0 then s
    else ExptBits(if b % 2 == 1 then Reduced(s * x, m, mu, k) else s, Reduced(x * x, m, mu, k), b / 2, m, mu, k)
  }

  /** With a working reduction every stage is a residue and the result is s * x^b mod m. */
  lemma {:induction false} ExptBitsCorrect(s: nat, x: nat, b: nat, m: nat, k: nat)
    requires k > 0 && k + 1 < 4096 && Pow(k - 1) <= m < Pow(k) && s < m && x < m
    ensures ExptBits(s, x, b, m, Pow(2 * k) / m, k) == s * Expo(x, b) % m
    decreases b
  {
    var mu := Pow(2 * k) / m;
    if b == 0 {
      DivModUnique(s, m, 0, s);
    } else {
      ReducedProduct(s, x, m, k);
      ReducedProduct(x, x, m, k);
      var s', x' := if b % 2 == 1 then s * x % m else s, x * x % m;
      ExptBitsCorrect(s', x', b / 2, m, k);
      ExptStepArith(s, x, b, m, s', x');
    }
  }

  lemma ProductBelow(s: int, x: int, p: int)
    requires 0 <= s < p && 0 <= x < p
    ensures 0 <= s * x < p * p
  {
    MulNonNeg(s, x);
    MulMono(s, p - 1, x);
    MulMono(x, p - 1, p - 1);
    Distribute(p, 1, p - 1);
    Distribute(p, 1, p);
  }

  lemma ReducedProduct(s: nat, x: nat, m: nat, k: nat)
    requires k > 0 && k + 1 < 4096 && Pow(k - 1) <= m < Pow(k) && s < m && x < m
    ensures Reduced(s * x, m, Pow(2 * k) / m, k) == s * x % m < m
  {
    hide Pow, Residue;
    PowAdd(k, k);
    ProductBelow(s, x, Pow(k));
    BarrettCorrect(s * x, m, k);
    ModRange(s * x, m);
  }

  lemma ExptStepArith(s: nat, x: nat, b: nat, m: nat, s': nat, x': nat)
    requires m > 0 && b > 0
    requires s' == (if b % 2 == 1 then s * x % m else s) && x' == x * x % m
    ensures s' * Expo(x', b / 2) % m == s * Expo(x, b) % m
  {
    var h := b / 2;
    ModExpo(x * x, h, m);
    ModMul(Expo(x', h), s', m);
    ModMul(Expo(x * x, h), s', m);
    ExpoSquare(x, h);
    if b % 2 == 1 {
      ModMul(s * x, Expo(x, 2 * h), m);
      Assoc(s, x, Expo(x, 2 * h));
      assert b == 2 * h + 1;
    } else {
      assert b == 2 * h;
    }
  }

  // ----- the routine

  /** One multiplication with its reduction: s = s * x in the Barrett sense. */
  method MulReduce(s: MpInt, x: MpInt, m: MpInt, mu: MpInt)
    requires s !in {x, m, mu} && s.Valid() && x.Valid() && m.Valid() && m.Val() > 0 && mu.Valid()
    modifies s
    ensures s.Valid() && !s.neg && s.Mag() == Reduced(old(s.Mag()) * x.Mag(), m.Mag(), mu.Mag(), m.used)
  {
    MulMag(s, x);
    ghost var _ := Reduce(s, m, mu);
  }

  method SqrReduce(x: MpInt, m: MpInt, mu: MpInt)
    requires x !in {m, mu} && x.Valid() && m.Valid() && m.Val() > 0 && mu.Valid()
    modifies x
    ensures x.Valid() && !x.neg && x.Mag() == Reduced(old(x.Mag()) * old(x.Mag()), m.Mag(), mu.Mag(), m.used)
  {
    SqrMag(x);
    ghost var _ := Reduce(x, m, mu);
  }

  /** The work on one exponent bit. */
  method ExptBit(s: MpInt, x: MpInt, m: MpInt, mu: MpInt, bit: bool, ghost rest: nat)
    requires s !in {x, m, mu} && x !in {m, mu}
    requires s.Valid() && x.Valid() && m.Valid() && m.Val() > 0 && mu.Valid()
    requires rest > 0 && bit == (rest % 2 == 1)
    modifies s, x
    ensures s.Valid() && !s.neg == (bit || !old(s.neg)) && x.Valid() && !x.neg
    ensures ExptBits(s.Mag(), x.Mag(), rest / 2, m.Mag(), mu.Mag(), m.used)
            == ExptBits(old(s.Mag()), old(x.Mag()), rest, m.Mag(), mu.Mag(), m.used)
  {
    hide Reduced;
    if bit {
      MulReduce(s, x, m, mu);
    }
    SqrReduce(x, m, mu);
  }

  /** The bits that remain once `n` bits of digit `j` have been consumed. */
  ghost function Remaining(v: seq<Digit>, u: nat, j: nat, d: nat, n: nat): nat
    requires j < u <= |v| && n <= DIGIT_BIT
  {
    d + Pow2(DIGIT_BIT - n) * High(v, u, j + 1)
  }

  lemma RemainingStep(v: seq<Digit>, u: nat, j: nat, d: nat, n: nat)
    requires j < u <= |v| && n < DIGIT_BIT && d < Pow2(DIGIT_BIT - n)
    ensures Remaining(v, u, j, d, n) % 2 == d % 2
    ensures Remaining(v, u, j, d, n) / 2 == Remaining(v, u, j, d / 2, n + 1)
    ensures d / 2 < Pow2(DIGIT_BIT - (n + 1))
  {
    var p, h := Pow2(DIGIT_BIT - (n + 1)), High(v, u, j + 1);
    assert Pow2(DIGIT_BIT - n) == 2 * p;
    Assoc(2, p, h);
    HalfOfSum(d, p * h);
  }

  lemma HalfOfSum(d: int, x: int)
    ensures (d + 2 * x) % 2 == d % 2 && (d + 2 * x) / 2 == d / 2 + x
  {
  }

  lemma RemainingStart(v: seq<Digit>, u: nat, j: nat)
    requires j < u <= |v|
    ensures Remaining(v, u, j, v[j], 0) == High(v, u, j)
    ensures Remaining(v, u, j, 0, DIGIT_BIT) == High(v, u, j + 1)
    ensures v[j] < Pow2(DIGIT_BIT)
  {
    Pow2Sixteen();
    HighStep(v, u, j);
  }

  /** Below the top digit there is always something left of the exponent. */
  lemma RemainingPositive(v: seq<Digit>, u: nat, j: nat, d: nat, n: nat)
    requires j + 1 < u <= |v| && n <= DIGIT_BIT && v[u - 1] != 0
    ensures Remaining(v, u, j, d, n) > 0
  {
    NonzeroDigit(v[j + 1..], u - 1 - (j + 1), u - (j + 1));
    MulMono(1, High(v, u, j + 1), Pow2(DIGIT_BIT - n));
  }

  /** The sixteen bits of a digit below the top one. */
  method ExptDigit(s: MpInt, x: MpInt, m: MpInt, mu: MpInt, digit: Digit, ghost v: seq<Digit>, ghost u: nat, ghost j: nat)
    requires s !in {x, m, mu} && x !in {m, mu}
    requires s.Valid() && !s.neg && x.Valid() && m.Valid() && m.Val() > 0 && mu.Valid()
    requires j + 1 < u <= |v| && v[u - 1] != 0 && digit == v[j]
    modifies s, x
    ensures s.Valid() && !s.neg && x.Valid()
    ensures ExptBits(s.Mag(), x.Mag(), High(v, u, j + 1), m.Mag(), mu.Mag(), m.used)
            == ExptBits(old(s.Mag()), old(x.Mag()), High(v, u, j), m.Mag(), mu.Mag(), m.used)
  {
    hide ExptBits, Pow2, High, Remaining;
    ghost var whole := ExptBits(s.Mag(), x.Mag(), High(v, u, j), m.Mag(), mu.Mag(), m.used);
    RemainingStart(v, u, j);
    var d: int, bit := digit, 0;
    while bit < DIGIT_BIT
      invariant 0 <= bit <= DIGIT_BIT && 0 <= d < Pow2(DIGIT_BIT - bit)
      invariant s.Valid() && !s.neg && x.Valid() && m.Valid() && m.Val() > 0 && mu.Valid()
      invariant ExptBits(s.Mag(), x.Mag(), Remaining(v, u, j, d, bit), m.Mag(), mu.Mag(), m.used) == whole
    {
      RemainingStep(v, u, j, d, bit);
      RemainingPositive(v, u, j, d, bit);
      ExptBit(s, x, m, mu, d % 2 == 1, Remaining(v, u, j, d, bit));
      d := d / 2;
      bit := bit + 1;
    }
    PowZero();
  }

  lemma PowZero()
    ensures Pow2(0) == 1
  {
  }

  /** The top digit: stop when it is used up. */
  method ExptTopDigit(s: MpInt, x: MpInt, m: MpInt, mu: MpInt, digit: Digit)
    requires s !in {x, m, mu} && x !in {m, mu}
    requires s.Valid() && !s.neg && x.Valid() && m.Valid() && m.Val() > 0 && mu.Valid()
    modifies s, x
    ensures s.Valid() && !s.neg
    ensures s.Mag() == ExptBits(old(s.Mag()), old(x.Mag()), digit, m.Mag(), mu.Mag(), m.used)
  {
    ghost var whole := ExptBits(s.Mag(), x.Mag(), digit, m.Mag(), mu.Mag(), m.used);
    var d: int := digit;
    while d != 0
      invariant 0 <= d
      invariant s.Valid() && !s.neg && x.Valid() && m.Valid() && m.Val() > 0 && mu.Valid()
      invariant ExptBits(s.Mag(), x.Mag(), d, m.Mag(), mu.Mag(), m.used) == whole
      decreases d
    {
      ExptBit(s, x, m, mu, d % 2 == 1, d);
      d := d / 2;
    }
  }

  /** The loop over the digits of the exponent. */
  method ExptDigits(s: MpInt, x: MpInt, b: MpInt, m: MpInt, mu: MpInt)
    requires s !in {x, b, m, mu} && x !in {b, m, mu}
    requires s.Valid() && !s.neg && x.Valid() && b.Valid() && m.Valid() && m.Val() > 0 && mu.Valid()
    modifies s, x
    ensures s.Valid() && !s.neg
    ensures s.Mag() == ExptBits(old(s.Mag()), old(x.Mag()), b.Mag(), m.Mag(), mu.Mag(), m.used)
  {
    hide ExptBits, High, Value;
    ghost var whole := ExptBits(s.Mag(), x.Mag(), b.Mag(), m.Mag(), mu.Mag(), m.used);
    ExponentStart(b.dp, b.used);
    var dig := 0;
    while dig < b.used - 1
      invariant 0 <= dig < b.used
      invariant s.Valid() && !s.neg && x.Valid()
      invariant ExptBits(s.Mag(), x.Mag(), High(b.dp, b.used, dig), m.Mag(), mu.Mag(), m.used) == whole
    {
      ExptDigit(s, x, m, mu, b.dp[dig], b.dp, b.used, dig);
      dig := dig + 1;
    }
    ExponentEnd(b.dp, b.used);
    ExptTopDigit(s, x, m, mu, b.dp[dig]);
  }

  /** mu = RADIX^(2k) / m */
  method BarrettConstant(m: MpInt) returns (mu: MpInt)
    requires m.Valid() && m.Val() > 0
    ensures fresh(mu) && mu.Valid() && !mu.neg && mu.Mag() == QuotMag(Pow(2 * m.used), m.Mag())
  {
    mu := new MpInt(DEFPREC);
    AddDigit(mu, 1);
    mu.Lshd(2 * m.used);
    var _ := Div(mu, m, mu, null);
  }

  /** The whole computation, for a base of either sign. */
  ghost function ExptResult(a: int, b: nat, m: nat, k: nat): nat
    requires m > 0 && k > 0
  {
    ModResultRange(a, m);
    ExptBits(1, ModResult(a, m, false), b, m, QuotMag(Pow(2 * k), m), k)
  }

  /** `mp_exptmod`: the output may be any of the inputs, which are not read after it is written. */
  method Exptmod(a: MpInt, b: MpInt, m: MpInt, c: MpInt) returns (res: Err)
    requires a.Valid() && b.Valid() && m.Valid() && c.Shaped()
    modifies c
    ensures res == (if old(b.Val()) < 0 || old(m.Val()) <= 0 then Range else Okay)
    ensures res.Range? ==> c.neg == old(c.neg) && c.used == old(c.used) && c.dp == old(c.dp)
    ensures res.Okay? ==>
              c.Valid() && c.Val() == ExptResult(old(a.Val()), old(b.Val()), old(m.Val()), old(m.used))
  {
    hide ExptResult, Value, Pow;
    var bz := CmpZero(b);
    var mz := CmpZero(m);
    if bz < 0 || mz <= 0 {
      return Range;
    }
    var s := Power(a, b, m);
    MpInt.Exch(s, c);
    return Okay;
  }

  /** The part of `mp_exptmod` that works on local numbers only. */
  method Power(a: MpInt, b: MpInt, m: MpInt) returns (s: MpInt)
    requires a.Valid() && b.Valid() && m.Valid() && b.Val() >= 0 && m.Val() > 0
    ensures fresh(s) && s.Valid() && s.Val() == ExptResult(a.Val(), b.Val(), m.Val(), m.used)
  {
    hide ExptBits, ModResult, QuotMag, High, Value, Pow;
    s := new MpInt(DEFPREC);
    var x := new MpInt.Copy(a);
    var _ := Mod(x, m, x);
    ModResultRange(a.Val(), m.Val());
    s.Set(1);
    var mu := BarrettConstant(m);
    ExptDigits(s, x, b, m, mu);
  }

  lemma ExponentStart(v: seq<Digit>, u: nat)
    requires u <= |v|
    ensures High(v, u, 0) == Value(v, u)
  {
    assert v[0..] == v;
  }

  lemma ExponentEnd(v: seq<Digit>, u: nat)
    requires 0 < u <= |v|
    ensures High(v, u, u - 1) == v[u - 1]
  {
    HighStep(v, u, u - 1);
  }

  /** Below 4095 digits no number is a power of two large enough to be divided wrongly. */
  lemma ShortNeverMisdivides(a: nat, m: nat, k: nat)
    requires k + 1 < 4096 && m < Pow(k)
    ensures !Misdivides(a, m)
  {
    PowIsPow2(k);
    Pow2Mono(DIGIT_BIT * k, EXPONENT_MOD);
  }

  /** a^b mod m, for every modulus above 1 with fewer than 4095 digits. */
  lemma ExptmodCorrect(a: int, b: nat, m: nat, k: nat)
    requires k > 0 && k + 1 < 4096 && Pow(k - 1) <= m < Pow(k) && m > 1
    ensures ExptResult(a, b, m, k) == Expo(a, b) % m < m
  {
    hide Pow, ExptBits, QuotMag, ModResult;
    ShortNeverMisdivides(Pow(2 * k), m, k);
    ShortNeverMisdivides(Abs(a), m, k);
    QuotRemExactIff(Pow(2 * k), m);
    ModIsRemainder(a, m);
    ModRange(a, m);
    ExptBitsCorrect(1, a % m, b, m, k);
    ModExpo(a, b, m);
    ModRange(Expo(a, b), m);
  }

  /**
   * `mp_exptmod` meets its contract for every base and exponent exactly when the modulus is above 1 and
   * has fewer than 4095 digits: modulo 1 the power 0 comes out as 1, and longer moduli lose a base.
   */
  lemma ExptmodExactIff(m: nat, k: nat)
    requires k > 0 && Pow(k - 1) <= m < Pow(k)
    ensures (forall a: int, b: nat :: ExptResult(a, b, m, k) == Expo(a, b) % m) <==> m > 1 && k + 1 < 4096
  {
    if m > 1 && k + 1 < 4096 {
      forall a: int, b: nat ensures ExptResult(a, b, m, k) == Expo(a, b) % m {
        ExptmodCorrect(a, b, m, k);
      }
    } else if m == 1 {
      assert ExptResult(0, 0, m, k) == 1;
      assert Expo(0, 0) % m == 0;
    } else {
      var x := Pow((k + 1) % 4096);
      ExptmodLosesBase(m, k);
      assert ExptResult(x, 1, m, k) != Expo(x, 1) % m;
    }
  }

  lemma ExptmodLosesBase(m: nat, k: nat)
    requires k > 0 && Pow(k - 1) <= m < Pow(k) && k + 1 >= 4096
    ensures var x := Pow((k + 1) % 4096); ExptResult(x, 1, m, k) == 0 && Expo(x, 1) % m == x > 0
  {
    var x, mu := Pow((k + 1) % 4096), QuotMag(Pow(2 * k), m);
    MaskedPower(m, mu, k);
    DivModUnique(x, m, 0, x);
    DivModUnique(0, m, 0, 0);
    assert ModResult(x, m, false) == x;
    assert Reduced(1 * x, m, mu, k) == 0;
  }
}
