/** When the cofactors that `mp_xgcd` delivers satisfy the identity its comment promises. */
module MpiBezout {
  import opened Arith
  import opened Divisors
  import opened MpiDivide
  import opened MpiSigned
  import opened MpiGcd
  import opened MpiCofactors

  /** A number with its cofactors in the two arguments. */
  ghost predicate Sound(p: Part, a: int, b: int) {
    Combines(p.x, p.y, a, b, p.n)
  }

  // ----- the loop delivers a Bezout combination

  lemma {:induction false} MadeOddSound(p: Part, a: int, b: int)
    requires p.n > 0 && Sound(p, a, b) && (a % 2 == 1 || b % 2 == 1)
    ensures Sound(MadeOdd(p, a, b), a, b) && Divides(MadeOdd(p, a, b).n, p.n)
    decreases p.n
  {
    if p.n % 2 == 1 {
      DividesSelf(p.n);
    } else {
      hide Combines, Divides;
      var h := Halved(p, a, b);
      if p.x % 2 == 0 && p.y % 2 == 0 {
        HalvedCofactors(h.x, h.y, a, b, h.n);
      } else {
        CofactorParity(p.x, p.y, a, b, h.n);
        HalvedCofactors(h.x, h.y, a, b, h.n);
      }
      MadeOddSound(h, a, b);
      DividesBy(h.n, p.n, 2);
      DividesTransitive(MadeOdd(h, a, b).n, h.n, p.n);
    }
  }

  lemma {:induction false} RunSound(s: Part, t: Part, a: int, b: int)
    requires s.n > 0 && t.n > 0 && Sound(s, a, b) && Sound(t, a, b) && Covers(s.n, t.n, a, b) && (a % 2 == 1 || b % 2 == 1)
    ensures var e := Run(s, t, a, b); e.n > 0 && Sound(e, a, b) && Divides(e.n, a) && Divides(e.n, b)
    decreases s.n + t.n
  {
    var p, q := MadeOdd(s, a, b), MadeOdd(t, a, b);
    MadeOddSound(s, a, b);
    MadeOddSound(t, a, b);
    hide Combines, Covers, Divides, MadeOdd;
    CoversParts(s.n, t.n, p.n, q.n, a, b);
    CoversDifference(p.n, q.n, a, b);
    if p.n == q.n {
      CoversZero(q.n, a, b);
    } else if p.n > q.n {
      SubtractedCofactors(p.x, p.y, q.x, q.y, a, b, p.n, q.n);
      RunSound(Minus(p, q), q, a, b);
    } else {
      SubtractedCofactors(q.x, q.y, p.x, p.y, a, b, q.n, p.n);
      RunSound(p, Minus(q, p), a, b);
    }
  }

  lemma CofactorsSound(a: nat, b: nat)
    requires a > 0 && b > 0 && (a % 2 == 1 || b % 2 == 1)
    ensures var e := Cofactors(a, b); e.n > 0 && Sound(e, a, b) && Divides(e.n, a) && Divides(e.n, b)
  {
    RunSound(Part(a, 1, 0), Part(b, 0, 1), a, b);
  }

  // ----- which cofactors are zero

  lemma {:induction false} OddDivisorStays(d: nat, p: Part, a: int, b: int)
    requires d % 2 == 1 && p.n > 0 && Divides(d, p.n)
    ensures Divides(d, MadeOdd(p, a, b).n)
    decreases p.n
  {
    if p.n % 2 == 0 {
      OddDividesHalf(d, p.n / 2);
      OddDivisorStays(d, Halved(p, a, b), a, b);
    }
  }

  /** An odd number that divides the other one is never changed. */
  lemma {:induction false} DivisorStays(s: Part, t: Part, a: int, b: int)
    requires s.n > 0 && t.n > 0 && t.n % 2 == 1 && Divides(t.n, s.n)
    ensures Run(s, t, a, b) == t
    decreases s.n
  {
    var p := MadeOdd(s, a, b);
    OddDivisorStays(t.n, s, a, b);
    hide Divides;
    DividesBound(t.n, p.n);
    if p.n > t.n {
      DividesSelf(t.n);
      DividesSum(t.n, p.n, t.n);
      DivisorStays(Minus(p, t), t, a, b);
    }
  }

  /** A cofactor of zero leaves the other number as the gcd. */
  lemma OnlyOne(n: nat, y: int, b: nat)
    requires n > 0 && b > 0 && y * b == n && Divides(n, b)
    ensures n == b
  {
    DividesBound(n, b);
    if y <= 0 {
      MulMono(y, 0, b);
    } else {
      MulMono(1, y, b);
    }
  }

  lemma FirstZero(a: nat, b: nat)
    requires a > 0 && b > 0 && (a % 2 == 1 || b % 2 == 1)
    ensures Cofactors(a, b).x == 0 <==> Divides(b, a)
  {
    var e := Cofactors(a, b);
    CofactorsSound(a, b);
    if e.x == 0 {
      OnlyOne(e.n, e.y, b);
    }
    if Divides(b, a) {
      if b % 2 == 0 {
        DivisorOfOdd(b, a);
      }
      DivisorStays(Part(a, 1, 0), Part(b, 0, 1), a, b);
    }
  }

  /** The second cofactor is still 1 or has been cleared; the first makes up the number. */
  ghost predicate AgainstOne(t: Part, b: nat) {
    (t.y == 0 && t.x == t.n) || (t.y == 1 && t.x == t.n - b)
  }

  /** Against 1 every halving clears the second cofactor. */
  lemma {:induction false} HalvingClears(t: Part, b: nat)
    requires t.n > 0 && AgainstOne(t, b)
    ensures var q := MadeOdd(t, 1, b); q == t || (q.y == 0 && q.x == q.n)
    decreases t.n
  {
    if t.n % 2 == 0 {
      var h := Halved(t, 1, b);
      assert h.y == 0 && h.x == h.n;
      HalvingClears(h, b);
    }
  }

  lemma {:induction false} OneClears(t: Part, b: nat)
    requires t.n > 0 && AgainstOne(t, b) && (t.y == 1 ==> t.n > 1)
    ensures Run(Part(1, 1, 0), t, 1, b).y == 0
    decreases t.n
  {
    var s, q := Part(1, 1, 0), MadeOdd(t, 1, b);
    HalvingClears(t, b);
    assert MadeOdd(s, 1, b) == s;
    if q.n > 1 {
      OneClears(Minus(q, s), b);
    }
  }

  /** Above 1 an odd divisor keeps the second cofactor at 1 or below zero. */
  lemma {:induction false} HalvingKeeps(t: Part, a: nat, b: nat)
    requires a % 2 == 1 && a > 1 && t.n > 0 && (t.y == 1 || t.y < 0)
    ensures var q := MadeOdd(t, a, b); q.y == 1 || q.y < 0
    decreases t.n
  {
    if t.n % 2 == 0 {
      HalvingKeeps(Halved(t, a, b), a, b);
    }
  }

  lemma {:induction false} DivisorKeeps(s: Part, t: Part, a: nat, b: nat)
    requires s == Part(a, 1, 0) && a % 2 == 1 && a > 1 && t.n > 0 && Divides(a, t.n) && (t.y == 1 || t.y < 0)
    ensures Run(s, t, a, b).y != 0
    decreases t.n
  {
    var q := MadeOdd(t, a, b);
    HalvingKeeps(t, a, b);
    OddDivisorStays(a, t, a, b);
    hide Divides;
    assert MadeOdd(s, a, b) == s;
    DividesBound(a, q.n);
    if q.n > a {
      DividesSelf(a);
      DividesSum(a, q.n, a);
      DivisorKeeps(s, Minus(q, s), a, b);
    }
  }

  lemma SecondZero(a: nat, b: nat)
    requires a > 0 && b > 0 && (a % 2 == 1 || b % 2 == 1)
    ensures Cofactors(a, b).y == 0 <==> a == 1 && b > 1
  {
    var e := Cofactors(a, b);
    var s, t := Part(a, 1, 0), Part(b, 0, 1);
    if a == 1 && b > 1 {
      OneClears(t, b);
    } else if a == 1 {
      assert MadeOdd(s, a, b) == s && MadeOdd(t, a, b) == t;
    } else if e.y == 0 {
      CofactorsSound(a, b);
      OnlyOne(e.n, e.x, a);
      if a % 2 == 0 {
        DivisorOfOdd(a, b);
      }
      DivisorKeeps(s, t, a, b);
    }
  }

  // ----- back to the arguments

  lemma {:induction false} TwosOut(a: nat, b: nat) returns (k: nat)
    requires a > 0 && b > 0
    ensures var p := OddPair(a, b); a == Pow2(k) * p.0 && b == Pow2(k) * p.1 && p.0 > 0 && p.1 > 0
    decreases a
  {
    if a % 2 == 0 && b % 2 == 0 {
      k := TwosOut(a / 2, b / 2);
      var p := OddPair(a, b);
      Assoc(2, Pow2(k), p.0);
      Assoc(2, Pow2(k), p.1);
      k := k + 1;
    } else {
      k := 0;
    }
  }

  /** Common factors do not matter to divisibility. */
  lemma CommonFactor(c: nat, d: nat, n: nat)
    requires c > 0
    ensures Divides(c * d, c * n) <==> Divides(d, n)
  {
    if Divides(d, n) {
      ScaledDivides(d, n, c);
    }
    if Divides(c * d, c * n) {
      var k :| Multiple(c * n, c * d, k);
      Assoc(k, c, d);
      Assoc(c, k, d);
      assert c * n == c * (k * d);
      Distribute(n, k * d, c);
      if n != k * d {
        NonzeroProduct(c, n - k * d);
      }
      DividesBy(d, n, k);
    }
  }

  lemma DeliveredBezout(a: nat, b: nat)
    requires a > 0 && b > 0
    ensures var e := Delivered(a, b); a * e.x + b * e.y == Gcd(a, b)
  {
    var p, e := OddPair(a, b), Delivered(a, b);
    var k := TwosOut(a, b);
    CofactorsSound(p.0, p.1);
    hide Combines, Divides, Gcd;
    MulNonNeg(Pow2(k), e.n);
    XgcdResult(Pow2(k) * e.n, e.x, e.y, e.n, Pow2(k), p.0, p.1, a, b);
  }

  /** Without twos the first number is 1 exactly if it is a power of two that divides the other. */
  lemma PowerPair(a: nat, b: nat)
    requires a > 0 && b > 0
    ensures OddPair(a, b).0 == 1 <==> IsPower(a) && Divides(a, b)
  {
    var p := OddPair(a, b);
    var k := TwosOut(a, b);
    CommonFactor(Pow2(k), p.0, p.1);
    if p.0 == 1 {
      DividesSelf(p.1);
    }
    if IsPower(a) && Divides(a, b) {
      hide Divides;
      PowerFactor(k, p.0);
      if p.0 % 2 == 0 {
        DivisorOfOdd(p.0, p.1);
      }
      OddPower(p.0);
    }
  }

  lemma {:induction false} PowerFactor(k: nat, n: nat)
    requires IsPower(Pow2(k) * n)
    ensures IsPower(n)
  {
    if k > 0 {
      Assoc(2, Pow2(k - 1), n);
      HalfOfPower(Pow2(k - 1) * n);
      PowerFactor(k - 1, n);
    }
  }

  /**
   * The comment on `mp_xgcd` promises a x + b y = g.  The routine works on absolute values, and keeps the promise
   * exactly when: both arguments are positive; or only a is negative and b divides it; or only b is negative and a is
   * a power of two that divides b and is smaller.
   */
  lemma BezoutIff(a: int, b: int)
    requires a != 0 && b != 0
    ensures var e := Delivered(Abs(a), Abs(b));
      a * e.x + b * e.y == Gcd(Abs(a), Abs(b))
      <==> || (a > 0 && b > 0)
           || (a < 0 < b && Divides(b, Abs(a)))
           || (b < 0 < a && IsPower(a) && Divides(a, Abs(b)) && a < Abs(b))
  {
    var m, n := Abs(a), Abs(b);
    var p, e := OddPair(m, n), Delivered(m, n);
    var k := TwosOut(m, n);
    CommonFactor(Pow2(k), p.1, p.0);
    PowerPair(m, n);
    FirstZero(p.0, p.1);
    SecondZero(p.0, p.1);
    DeliveredBezout(m, n);
    Larger(Pow2(k), p.0, p.1);
    hide Gcd, Divides, Cofactors, OddPair, IsPower;
    BezoutSigns(a, b, e.x, e.y);
  }

  lemma Larger(c: nat, d: nat, n: nat)
    requires c > 0
    ensures c * d < c * n <==> d < n
  {
    if d < n {
      Distribute(d, n, c);
      MulMono(1, n - d, c);
    } else {
      MulMono(n, d, c);
    }
  }

  /** For -1 and 2 the cofactors are 1 and 0, and the sum is -1 instead of 1. */
  lemma BezoutCounterexample()
    ensures Delivered(Abs(-1), Abs(2)) == Part(1, 1, 0) && -1 * 1 + 2 * 0 != Gcd(Abs(-1), Abs(2))
  {
    assert OddPair(1, 2) == (1, 2);
    assert MadeOdd(Part(1, 1, 0), 1, 2) == Part(1, 1, 0);
    assert MadeOdd(Part(2, 0, 1), 1, 2) == MadeOdd(Part(1, 1, 0), 1, 2);
  }
}
