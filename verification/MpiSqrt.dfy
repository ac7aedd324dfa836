/** The integer square root by Newton's iteration. */
module MpiSqrt {
  import opened Arith
  import opened MpiDigits
  import opened MpiInt
  import opened MpiMagnitude
  import opened MpiDivide
  import opened MpiSigned
  import opened MpiGcd

  /** r is the integer part of the root of a. */
  predicate IsRoot(r: int, a: int) {
    r >= 0 && r * r <= a < (r + 1) * (r + 1)
  }

  lemma RootUnique(r: int, s: int, a: int)
    requires IsRoot(r, a) && IsRoot(s, a)
    ensures r == s
  {
    if r < s {
      MulMono(r + 1, s, r + 1);
      MulMono(r + 1, s, s);
    } else if s < r {
      MulMono(s + 1, r, s + 1);
      MulMono(s + 1, r, r);
    }
  }

  /** A Newton step from above stays above, and above zero. */
  lemma NewtonStep(x: int, a: int, q: int)
    requires x > 0 && a >= 0 && x * x > a && q == (x * x - a) / (2 * x) && q > 0
    ensures 0 < x - q && (x - q) * (x - q) > a
  {
    var d, y := x * x - a, 2 * x;
    QuotientRange(d, y);
    assert q * y <= d;
    assert q * y == 2 * (x * q) by { Assoc(2, x, q); }
    Distribute(x, q, x - q);
    Distribute(x, q, x);
    Distribute(x, q, q);
    MulMono(1, q, q);
    if x - q <= 0 {
      MulMono(x, q, x);
      MulMono(1, x, x);
    }
  }

  /** When the correction is zero, x - 1 is the root. */
  lemma NewtonEnd(x: int, a: int)
    requires x > 0 && x * x > a >= 0 && (x * x - a) / (2 * x) == 0
    ensures IsRoot(x - 1, a)
  {
    QuotientRange(x * x - a, 2 * x);
    Distribute(x, 1, x - 1);
    Distribute(x, 1, x);
  }

  // ----- the iteration as the code performs it

  /** The correction subtracted from x, with the quotient that the division routine delivers. */
  ghost function Correction(a: int, x: int): int
    requires x != 0
  {
    Negate((x * x - a < 0) != (x < 0), QuotMag(Abs(x * x - a), Abs(2 * x)))
  }

  /** Within n rounds from x the correction is zero, or x is and the division fails. */
  ghost predicate Ends(a: int, x: int, n: nat)
    decreases n
  {
    n > 0 && (x == 0 || Correction(a, x) == 0 || Ends(a, x - Correction(a, x), n - 1))
  }

  /** The last x. */
  ghost function Last(a: int, x: int, n: nat): int
    requires Ends(a, x, n)
    decreases n
  {
    if x == 0 || Correction(a, x) == 0 then x else Last(a, x - Correction(a, x), n - 1)
  }

  /** The loop of `mp_sqrt` ends for a. */
  ghost predicate Terminates(a: int) {
    exists n: nat :: Ends(a, a, n)
  }

  /** The x with which it ends. */
  ghost function LastIterate(a: int): int
    requires Terminates(a)
  {
    var n: nat :| Ends(a, a, n);
    Last(a, a, n)
  }

  lemma {:induction false} LastUnique(a: int, x: int, m: nat, n: nat)
    requires Ends(a, x, m) && Ends(a, x, n)
    ensures Last(a, x, m) == Last(a, x, n)
    decreases m
  {
    hide Correction;
    if x != 0 && Correction(a, x) != 0 {
      LastUnique(a, x - Correction(a, x), m - 1, n - 1);
    }
  }

  lemma LastIterateIs(a: int, n: nat)
    requires Ends(a, a, n)
    ensures Terminates(a) && LastIterate(a) == Last(a, a, n)
  {
    hide Ends, Last;
    var m: nat :| Ends(a, a, m) && LastIterate(a) == Last(a, a, m);
    LastUnique(a, a, m, n);
  }

  /** t = (x * x - a) / 2x, with x doubled and halved again on the way. */
  method NewtonCorrection(a: MpInt, x: MpInt, t: MpInt) returns (res: Err)
    requires x !in {a, t} && t != a && a.Valid() && x.Valid() && t.Valid()
    modifies x, t
    ensures x.Valid() && t.Valid() && (res == if old(x.Val()) == 0 then Range else Okay)
    ensures res.Okay? ==> x.Val() == old(x.Val()) && t.Val() == Correction(a.Val(), x.Val())
  {
    hide Value, Pow, QuotMag;
    ghost var xv := x.Val();
    t.CopyFrom(x);
    Sqr(t, t);
    Sub(t, a, t);
    x.Mul2();
    assert x.Val() == 2 * xv;
    res := Div(t, x, t, null);
    if res == Okay {
      Halve(x);
    }
  }

  /**
   * `mp_sqrt`, for every number on which its loop ends: the result is the last iterate less one, which is the
   * exact integer root for tame numbers.
   */
  method Sqrt(a: MpInt, b: MpInt) returns (res: Err)
    requires a.Valid() && b.Shaped()
    requires a.Val() > 1 ==> Terminates(a.Val())
    modifies b
    ensures res == if old(a.Val()) < 0 || (old(a.Val()) > 1 && LastIterate(old(a.Val())) == 0) then Range else Okay
    ensures res.Okay? ==> b.Valid() && b.Val() == if old(a.Val()) > 1 then LastIterate(old(a.Val())) - 1 else old(a.Val())
    ensures res.Okay? && Tame(old(a.Val())) ==> IsRoot(b.Val(), old(a.Val()))
    ensures res.Range? ==> b.neg == old(b.neg) && b.used == old(b.used) && b.dp == old(b.dp)
  {
    hide Terminates, LastIterate, Tame;
    if a.neg {
      return Range;
    }
    var c0 := CmpDigit(a, 0);
    var c1 := CmpDigit(a, 1);
    if c0 == 0 || c1 == 0 {
      b.CopyFrom(a);
      return Okay;
    }
    if Tame(a.Val()) {
      TameIsRight(a.Val());
    }
    var x;
    x, res := NewtonLoop(a);
    if res == Okay {
      SubSmall(x, 1, x);
      MpInt.Exch(x, b);
    }
  }

  method NewtonLoop(a: MpInt) returns (x: MpInt, res: Err)
    requires a.Valid() && a.Val() > 1 && Terminates(a.Val())
    ensures fresh(x) && x.Valid() && (res == if LastIterate(a.Val()) == 0 then Range else Okay)
    ensures res.Okay? ==> x.Val() == LastIterate(a.Val())
  {
    hide Value, Pow, Correction;
    ghost var av := a.Val();
    ghost var n: nat :| Ends(av, av, n);
    LastIterateIs(av, n);
    ghost var last := Last(av, av, n);
    hide LastIterate;
    var t := new MpInt(a.used);
    x := new MpInt.Copy(a);
    res := Okay;
    var more := true;
    while more
      invariant x.Valid() && t.Valid() && res == Okay && (more ==> Ends(av, x.Val(), n) && Last(av, x.Val(), n) == last)
      invariant !more ==> x.Val() == last != 0
      decreases more, n
    {
      ghost var xv := x.Val();
      res := NewtonCorrection(a, x, t);
      if res != Okay {
        return;
      }
      var tz := CmpZero(t);
      if tz == 0 {
        more := false;
      } else {
        Sub(x, t, x);
        n := n - 1;
      }
    }
  }

  // ----- where the result is the root

  /** Newton's iteration for the root of a from above, in exact arithmetic. */
  ghost function Newton(a: nat, k: nat): int {
    if k == 0 then a
    else
      var x := Newton(a, k - 1);
      if x <= 0 then x else x - (x * x - a) / (2 * x)
  }

  lemma {:induction false} NewtonAbove(a: nat, k: nat)
    requires a > 1
    ensures 0 < Newton(a, k) <= a && Newton(a, k) * Newton(a, k) > a
  {
    if k == 0 {
      MulMono(2, a, a);
    } else {
      NewtonAbove(a, k - 1);
      var x := Newton(a, k - 1);
      var q := (x * x - a) / (2 * x);
      QuotientRange(x * x - a, 2 * x);
      if q > 0 {
        NewtonStep(x, a, q);
      }
    }
  }

  /** No iterate meets a divisor that the division routine gets wrong. */
  ghost predicate Tame(a: int) {
    forall k: nat | a > 1 :: TameAt(a, Newton(a, k))
  }

  ghost predicate TameAt(a: nat, x: int) {
    x > 0 && x * x > a ==> !Misdivides(x * x - a, 2 * x)
  }

  lemma TameCorrection(a: nat, x: nat)
    requires x > 0 && x * x > a && TameAt(a, x)
    ensures Correction(a, x) == (x * x - a) / (2 * x) >= 0
  {
    var d := x * x - a;
    hide QuotMag, RemMag, Misdivides;
    QuotRemExactIff(d, 2 * x);
    QuotientRange(d, 2 * x);
  }

  /** From the k-th iterate on the loop ends above the root. */
  lemma {:induction false} TameFrom(a: nat, k: nat) returns (n: nat)
    requires a > 1 && Tame(a)
    ensures Ends(a, Newton(a, k), n) && IsRoot(Last(a, Newton(a, k), n) - 1, a)
    decreases Newton(a, k)
  {
    hide Correction, IsRoot, TameAt;
    var x := Newton(a, k);
    NewtonAbove(a, k);
    TameCorrection(a, x);
    if Correction(a, x) == 0 {
      NewtonEnd(x, a);
      n := 1;
    } else {
      assert Newton(a, k + 1) == x - Correction(a, x);
      NewtonAbove(a, k + 1);
      n := TameFrom(a, k + 1);
      n := n + 1;
    }
  }

  /** On tame numbers the loop ends, and with the exact root. */
  lemma TameIsRight(a: nat)
    requires a > 1 && Tame(a)
    ensures Terminates(a) && LastIterate(a) > 0 && IsRoot(LastIterate(a) - 1, a)
  {
    hide LastIterate, Correction, Tame;
    var n := TameFrom(a, 0);
    LastIterateIs(a, n);
  }

  /** All numbers below 2^65535 are tame. */
  lemma SmallIsTame(a: nat)
    requires a < Pow2(EXPONENT_MOD - 1)
    ensures Tame(a)
  {
    assert Pow2(EXPONENT_MOD) == 2 * Pow2(EXPONENT_MOD - 1);
    hide Pow2;
    forall k: nat | a > 1 ensures TameAt(a, Newton(a, k)) {
      NewtonAbove(a, k);
    }
  }

  // ----- where it is not

  /** What the iteration from -y passes through: small numbers, and numbers next to p(2b - 4) for powers p. */
  ghost predicate OnPath(y: int, b: nat) {
    y > 0 && y * y > b && (y < b || exists j: nat :: Beside(y, Pow2(j), b))
  }

  ghost predicate Beside(y: int, p: nat, b: nat) {
    y == p * (2 * b - 4) + 1
  }

  lemma BetweenPowers(k: nat, v: nat)
    requires Pow2(k) < v < Pow2(k + 1)
    ensures !IsPower(v)
  {
    hide Pow2;
    if IsPower(v) {
      var i := Exponent(v);
      if i <= k {
        Pow2Mono(i, k);
      } else {
        Pow2Mono(k + 1, i);
      }
    }
  }

  /** Twice a number on the path is no power of two that is divided by wrongly. */
  lemma NoPower(j: nat, n: nat, b: nat, c: nat)
    requires b == Pow2(n) && b >= 8 && c <= 1
    ensures !IsPower(2 * (Pow2(j) * (2 * b - 4) + c))
  {
    var p := Pow2(j);
    Pow2Add(n, j);
    assert Pow2(n + j) == b * p && Pow2(n + j + 1) == 2 * (b * p) && Pow2(n + j + 2) == 4 * (b * p);
    hide Pow2;
    Distribute(2 * b, 4, p);
    Assoc(2, b, p);
    MulMono(8, b, p);
    BetweenPowers(n + j + 1, 2 * (p * (2 * b - 4) + c));
  }

  lemma NegativeCorrection(a: nat, y: int)
    requires y > 0 && y * y > a && !Misdivides(y * y - a, 2 * y)
    ensures Correction(a, -y) == -((y * y - a) / (2 * y)) <= 0
  {
    var x := -y;
    assert x * x == y * y by { Distribute(0, y, x); Distribute(0, y, y); }
    hide QuotMag, RemMag, Misdivides;
    QuotRemExactIff(y * y - a, 2 * y);
    QuotientRange(y * y - a, 2 * y);
  }

  /** Beside p(2b - 4) the next number is beside half of that. */
  lemma HalfWay(y: int, p: nat, b: nat)
    requires Beside(y, p, b) && p > 0 && b >= 8
    ensures (y * y - b) / (2 * y) == (y - 1) / 2 == p * (b - 2) && y >= b
  {
    Distribute(b, 2, p);
    Distribute(2 * b, 4, p);
    Assoc(2, b, p);
    assert y == 2 * (p * (b - 2)) + 1 by { Distribute(b - 2, b - 2, p); }
    MulMono(1, p, b - 2);
    var h := p * (b - 2);
    assert h * (2 * y) == (y - 1) * y by { Assoc(h, 2, y); }
    Distribute(y, 1, y);
    DivModUnique(y * y - b, 2 * y, h, y - b);
  }

  lemma NextOnPath(y: int, j: nat, b: nat)
    requires Beside(y, Pow2(j), b) && b >= 8
    ensures OnPath(y - Pow2(j) * (b - 2), b)
  {
    var p := Pow2(j);
    assert y - p * (b - 2) == p * (b - 2) + 1 by { Distribute(b - 2, b - 2, p); }
    var z := p * (b - 2) + 1;
    if j > 0 {
      var half := Pow2(j - 1);
      assert p == 2 * half;
      hide Pow2;
      assert z == half * (2 * b - 4) + 1 by { Assoc(half, 2, b - 2); }
      assert Beside(z, Pow2(j - 1), b);
      HalfWay(z, half, b);
      MulMono(2, z, z);
    } else {
      MulMono(2, b - 1, b - 1);
    }
  }

  /** A round that corrects -y by -q leads from the path to the path. */
  lemma PathStep(y: int, b: nat, n: nat)
    requires b == Pow2(n) && n + 1 == EXPONENT_MOD && OnPath(y, b) && b >= 8
    ensures var q := (y * y - b) / (2 * y);
      Correction(b, -y) == -q && (q == 0 || (0 < q && 0 < y - q && OnPath(y - q, b)))
  {
    PathDivides(y, b, n);
    NegativeCorrection(b, y);
    hide Correction, Misdivides, Pow2;
    var q := (y * y - b) / (2 * y);
    if q != 0 {
      NewtonStep(y, b, q);
      if y >= b {
        var j: nat :| Beside(y, Pow2(j), b);
        HalfWay(y, Pow2(j), b);
        NextOnPath(y, j, b);
      }
    }
  }

  /** One more round before an end. */
  lemma Prepend(a: int, x: int, n: nat)
    requires x != 0 && Correction(a, x) != 0 && Ends(a, x - Correction(a, x), n)
    ensures Ends(a, x, n + 1) && Last(a, x, n + 1) == Last(a, x - Correction(a, x), n)
  {
    hide Correction;
  }

  /** From a number on the path, taken negative, the loop ends with a negative number. */
  lemma {:induction false} StaysNegative(y: int, b: nat, n: nat) returns (rounds: nat)
    requires b == Pow2(n) && n + 1 == EXPONENT_MOD && OnPath(y, b) && b >= 8
    ensures Ends(b, -y, rounds) && Last(b, -y, rounds) < 0
    decreases y
  {
    PathStep(y, b, n);
    hide Correction, OnPath, Pow2;
    assert y > 0 by { OnPathPositive(y, b); }
    var c := Correction(b, -y);
    if c == 0 {
      rounds := 1;
    } else {
      rounds := StaysNegative(y + c, b, n);
      assert -(y + c) == -y - c;
      Prepend(b, -y, rounds);
      rounds := rounds + 1;
    }
  }

  lemma OnPathPositive(y: int, b: nat)
    requires OnPath(y, b)
    ensures y > 0
  {
  }

  lemma PathDivides(y: int, b: nat, n: nat)
    requires b == Pow2(n) && n + 1 == EXPONENT_MOD && b >= 8 && OnPath(y, b)
    ensures !Misdivides(y * y - b, 2 * y)
  {
    assert Pow2(EXPONENT_MOD) == 2 * b;
    hide Pow2;
    if y >= b {
      var j: nat :| Beside(y, Pow2(j), b);
      NoPower(j, n, b, 1);
    }
  }

  /** The first round for 2^65535 divides by 1 instead of 2^65536. */
  lemma FirstRound(b: nat, n: nat)
    requires b == Pow2(n) && n + 1 == EXPONENT_MOD && b >= 8
    ensures Correction(b, b) == b * b - b && Misdivides(b * b - b, 2 * b)
    ensures b - Correction(b, b) == -(Pow2(n - 1) * (2 * b - 4))
  {
    assert 2 * b == Pow2(EXPONENT_MOD) && b == 2 * Pow2(n - 1) && IsPower(2 * b);
    EffectiveDivisorOfPower(EXPONENT_MOD);
    assert Pow2(0) == 1;
    hide Pow2, EffectiveDivisor;
    MulMono(8, b, b);
    Distribute(2 * b, 4, Pow2(n - 1));
    Assoc(Pow2(n - 1), 2, b);
    assert QuotMag(b * b - b, 2 * b) == (b * b - b) / 1;
  }

  /** The second round leads onto the path. */
  lemma SecondRound(b: nat, n: nat) returns (y: int, h: int)
    requires b == Pow2(n) && n + 1 == EXPONENT_MOD && b >= 8
    ensures b - Correction(b, b) == -y && Correction(b, b) != 0
    ensures y > 0 && Correction(b, -y) == 1 - h < 0 && OnPath(y + 1 - h, b)
  {
    y, h := Pow2(n - 1) * (2 * b - 4), Pow2(n - 1) * (b - 2);
    FirstRound(b, n);
    Grows(b);
    SecondShape(b, n);
    hide Pow2, Correction, OnPath, Misdivides, IsPower;
    SecondCorrection(b, y, h);
  }

  lemma SecondShape(b: nat, n: nat)
    requires b == Pow2(n) && n + 1 == EXPONENT_MOD && b >= 8
    ensures var y, h := Pow2(n - 1) * (2 * b - 4), Pow2(n - 1) * (b - 2);
      y == 2 * h && h >= 2 && y + 1 >= b && !IsPower(2 * y) && OnPath(y + 1 - h, b)
  {
    var p := Pow2(n - 1);
    var y, h := p * (2 * b - 4), p * (b - 2);
    NoPower(n - 1, n, b, 0);
    hide Pow2, OnPath, IsPower;
    assert Beside(y + 1, p, b);
    HalfWay(y + 1, p, b);
    NextOnPath(y + 1, n - 1, b);
    assert y == 2 * h by { Assoc(2, p, b - 2); Distribute(b - 2, b - 2, p); }
    MulMono(1, p, b - 2);
  }

  lemma SecondCorrection(b: nat, y: int, h: int)
    requires y == 2 * h && h >= 2 && y + 1 >= b && b >= 8 && !IsPower(2 * y)
    ensures Correction(b, -y) == 1 - h < 0
  {
    SecondQuotient(y, h, b);
    hide Correction;
    NegativeCorrection(b, y);
  }

  lemma SecondQuotient(y: int, h: int, b: nat)
    requires y == 2 * h && h >= 2 && y + 1 >= b && b >= 8
    ensures y * y > b && (y * y - b) / (2 * y) == h - 1
  {
    MulMono(2, y, y);
    assert (h - 1) * (2 * y) == y * y - 2 * y by { Distribute(h, 1, 2 * y); Assoc(h, 2, y); }
    DivModUnique(y * y - b, 2 * y, h - 1, 2 * y - b);
  }

  /** For 2^65535 the loop ends with a negative number: `mp_sqrt` succeeds with a result that is no root. */
  lemma SqrtBreaks(n: nat)
    requires n == EXPONENT_MOD - 1
    ensures var a := Pow2(n); Terminates(a) && LastIterate(a) < 0 && !IsRoot(LastIterate(a) - 1, a) && !Tame(a)
  {
    var b := Pow2(n);
    assert b >= 8 by { Pow2Mono(3, n); assert Pow2(3) == 8; }
    var rounds := EndsNegative(b, n);
    hide Pow2, Ends, Last, IsRoot;
    LastIterateIs(b, rounds);
    assert !IsRoot(LastIterate(b) - 1, b) by { NoNegativeRoot(LastIterate(b) - 1, b); }
    NotTame(b, n);
  }

  lemma NoNegativeRoot(r: int, a: int)
    requires r < 0
    ensures !IsRoot(r, a)
  {
  }

  lemma NotTame(b: nat, n: nat)
    requires b == Pow2(n) && n + 1 == EXPONENT_MOD && b >= 8
    ensures !Tame(b)
  {
    FirstRound(b, n);
    hide Pow2, Misdivides, Correction;
    MulMono(8, b, b);
    assert Newton(b, 0) == b;
    assert !TameAt(b, Newton(b, 0));
  }

  lemma Grows(b: nat)
    requires b >= 8
    ensures b * b - b > 0
  {
    MulMono(8, b, b);
  }

  lemma EndsNegative(b: nat, n: nat) returns (rounds: nat)
    requires b == Pow2(n) && n + 1 == EXPONENT_MOD && b >= 8
    ensures Ends(b, b, rounds) && Last(b, b, rounds) < 0
  {
    var y, h := SecondRound(b, n);
    rounds := TwoMore(b, n, y, h);
  }

  lemma TwoMore(b: nat, n: nat, y: int, h: int) returns (rounds: nat)
    requires b == Pow2(n) && n + 1 == EXPONENT_MOD && b >= 8 && y > 0
    requires b - Correction(b, b) == -y && Correction(b, b) != 0
    requires Correction(b, -y) == 1 - h < 0 && OnPath(y + 1 - h, b)
    ensures Ends(b, b, rounds) && Last(b, b, rounds) < 0
  {
    hide Pow2, Correction, OnPath, Ends, Last;
    rounds := StaysNegative(y + 1 - h, b, n);
    assert -(y + 1 - h) == -y - Correction(b, -y);
    Prepend(b, -y, rounds);
    Prepend(b, b, rounds + 1);
    rounds := rounds + 2;
  }

  /** The loop ends with the root. */
  ghost predicate Right(a: nat) {
    Terminates(a) && IsRoot(LastIterate(a) - 1, a)
  }

  /** 2^65535 is the exact bound below which every number is done right. */
  lemma RightBelowIff(bound: nat, n: nat)
    requires n == EXPONENT_MOD - 1
    ensures (forall a: nat | 1 < a < bound :: Right(a)) <==> bound <= Pow2(n)
  {
    if bound <= Pow2(n) {
      forall a: nat | 1 < a < bound ensures Right(a) {
        SmallIsTame(a);
        TameIsRight(a);
      }
    } else {
      Pow2Mono(1, n);
      SqrtBreaks(n);
      assert !Right(Pow2(n));
    }
  }
}
