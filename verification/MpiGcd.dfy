/** The binary greatest-common-divisor routines and the modular inverse. */
module MpiGcd {
  import opened Arith
  import opened MpiDigits
  import opened MpiInt
  import opened MpiMagnitude
  import opened MpiDivide
  import opened MpiSigned
  import opened Divisors
  import opened MpiCofactors

  /** `s_mp_div_2` on an even number of either sign is exact. */
  method Halve(a: MpInt)
    requires a.Valid() && a.Val() % 2 == 0
    modifies a
    ensures a.Valid() && 2 * a.Val() == old(a.Val())
  {
    hide Value, Pow, Pow2;
    PowOne();
    a.Div2d(1);
  }

  lemma PowOne()
    ensures Pow2(1) == 2
  {
  }

  /** u is the combination of xc and yc with cofactors a and b. */
  ghost predicate Combines(a: int, b: int, xc: int, yc: int, u: int) {
    a * xc + b * yc == u
  }

  lemma ParityCases(a: int, b: int, x: int, y: int, p: int, q: int, u: int)
    requires p % 2 == 1 <==> a % 2 == 1 && x % 2 == 1
    requires q % 2 == 1 <==> b % 2 == 1 && y % 2 == 1
    requires p + q == 2 * u && (x % 2 == 1 || y % 2 == 1) && (a % 2 == 1 || b % 2 == 1)
    ensures (a + y) % 2 == 0 && (b - x) % 2 == 0
  {
  }

  /** Why adding yc to A and taking xc from B makes both even and keeps the combination. */
  lemma CofactorParity(a: int, b: int, xc: int, yc: int, u: int)
    requires Combines(a, b, xc, yc, 2 * u) && (xc % 2 == 1 || yc % 2 == 1)
    requires a % 2 == 1 || b % 2 == 1
    ensures (a + yc) % 2 == 0 && (b - xc) % 2 == 0
    ensures Combines(a + yc, b - xc, xc, yc, 2 * u)
  {
    assert Combines(a + yc, b - xc, xc, yc, 2 * u) by {
      Distribute(a, yc, xc);
      Distribute(b, xc, yc);
    }
    var p, q := a * xc, b * yc;
    assert p + q == 2 * u;
    ProductParity(a, xc);
    ProductParity(b, yc);
    ParityCases(a, b, xc, yc, p, q, u);
  }

  lemma HalvedCofactors(a: int, b: int, xc: int, yc: int, u: int)
    requires Combines(2 * a, 2 * b, xc, yc, 2 * u)
    ensures Combines(a, b, xc, yc, u)
  {
    Assoc(2, a, xc);
    Assoc(2, b, yc);
  }

  lemma SubtractedCofactors(a: int, b: int, c: int, d: int, xc: int, yc: int, u: int, v: int)
    requires Combines(a, b, xc, yc, u) && Combines(c, d, xc, yc, v)
    ensures Combines(a - c, b - d, xc, yc, u - v)
  {
    Distribute(a, c, xc);
    Distribute(b, d, yc);
  }

  ghost function PartOf(u: MpInt, a: MpInt, b: MpInt): Part
    reads u, a, b
    requires u.Shaped() && a.Shaped() && b.Shaped()
  {
    Part(u.Val(), a.Val(), b.Val())
  }

  /** Halve a pair of cofactors, correcting them first when one is odd. */
  method HalveCofactors(a: MpInt, b: MpInt, xc: MpInt, yc: MpInt, ghost u: int)
    requires a !in {b, xc, yc} && b !in {xc, yc}
    requires a.Valid() && b.Valid() && xc.Valid() && yc.Valid()
    requires xc.Val() % 2 == 1 || yc.Val() % 2 == 1
    requires Combines(a.Val(), b.Val(), xc.Val(), yc.Val(), 2 * u)
    modifies a, b
    ensures a.Valid() && b.Valid()
    ensures Combines(a.Val(), b.Val(), xc.Val(), yc.Val(), u)
    ensures Part(u, a.Val(), b.Val()) == Halved(Part(2 * u, old(a.Val()), old(b.Val())), xc.Val(), yc.Val())
  {
    hide Combines, Value, Pow;
    var ea := IsEven(a);
    var eb := IsEven(b);
    if ea && eb {
      Halve(a);
      Halve(b);
    } else {
      CofactorParity(a.Val(), b.Val(), xc.Val(), yc.Val(), u);
      Add(a, yc, a);
      Halve(a);
      Sub(b, xc, b);
      Halve(b);
    }
    HalvedCofactors(a.Val(), b.Val(), xc.Val(), yc.Val(), u);
  }

  /** One halving of `u` with its cofactors in `mp_xgcd`. */
  method HalveWithCofactors(u: MpInt, a: MpInt, b: MpInt, xc: MpInt, yc: MpInt)
    requires u !in {a, b, xc, yc} && a !in {b, xc, yc} && b !in {xc, yc}
    requires u.Valid() && a.Valid() && b.Valid() && xc.Valid() && yc.Valid()
    requires u.Val() % 2 == 0
    requires xc.Val() % 2 == 1 || yc.Val() % 2 == 1
    requires Combines(a.Val(), b.Val(), xc.Val(), yc.Val(), u.Val())
    modifies u, a, b
    ensures u.Valid() && a.Valid() && b.Valid() && 2 * u.Val() == old(u.Val())
    ensures Combines(a.Val(), b.Val(), xc.Val(), yc.Val(), u.Val())
    ensures PartOf(u, a, b) == Halved(old(PartOf(u, a, b)), xc.Val(), yc.Val())
  {
    hide Combines, Value, Pow;
    Halve(u);
    HalveCofactors(a, b, xc, yc, u.Val());
  }

  /** The loop that halves `u` until it is odd. */
  method MakeOdd(u: MpInt, a: MpInt, b: MpInt, xc: MpInt, yc: MpInt)
    requires u !in {a, b, xc, yc} && a !in {b, xc, yc} && b !in {xc, yc}
    requires u.Valid() && a.Valid() && b.Valid() && xc.Valid() && yc.Valid()
    requires u.Val() > 0
    requires xc.Val() % 2 == 1 || yc.Val() % 2 == 1
    requires Combines(a.Val(), b.Val(), xc.Val(), yc.Val(), u.Val())
    modifies u, a, b
    ensures u.Valid() && a.Valid() && b.Valid() && 0 < u.Val() <= old(u.Val()) && u.Val() % 2 == 1
    ensures Divides(u.Val(), old(u.Val()))
    ensures Combines(a.Val(), b.Val(), xc.Val(), yc.Val(), u.Val())
    ensures PartOf(u, a, b) == MadeOdd(old(PartOf(u, a, b)), xc.Val(), yc.Val())
  {
    hide Combines, Divides, Halved;
    ghost var u0, odd := u.Val(), MadeOdd(PartOf(u, a, b), xc.Val(), yc.Val());
    DividesSelf(u0);
    var even := IsEven(u);
    while even
      invariant u.Valid() && a.Valid() && b.Valid() && 0 < u.Val() <= u0
      invariant Divides(u.Val(), u0) && even == (u.Val() % 2 == 0)
      invariant Combines(a.Val(), b.Val(), xc.Val(), yc.Val(), u.Val())
      invariant MadeOdd(PartOf(u, a, b), xc.Val(), yc.Val()) == odd
      decreases u.Val()
    {
      HalveWithCofactors(u, a, b, xc, yc);
      DividesBy(u.Val(), 2 * u.Val(), 2);
      DividesTransitive(u.Val(), 2 * u.Val(), u0);
      even := IsEven(u);
    }
  }

  // ----- extended gcd

  /** Every common divisor of u and v divides xc and yc. */
  ghost predicate Covers(u: int, v: int, xc: int, yc: int) {
    forall d: nat :: Divides(d, u) && Divides(d, v) ==> Divides(d, xc) && Divides(d, yc)
  }

  lemma CoversParts(u: int, v: int, u': int, v': int, xc: int, yc: int)
    requires Covers(u, v, xc, yc) && Divides(u', u) && Divides(v', v)
    ensures Covers(u', v', xc, yc)
  {
    hide Divides;
    forall d: nat | Divides(d, u') && Divides(d, v') ensures Divides(d, xc) && Divides(d, yc) {
      DividesTransitive(d, u', u);
      DividesTransitive(d, v', v);
    }
  }

  lemma CoversDifference(u: int, v: int, xc: int, yc: int)
    requires Covers(u, v, xc, yc)
    ensures Covers(u - v, v, xc, yc) && Covers(u, v - u, xc, yc)
  {
    hide Divides;
    forall d: nat | Divides(d, u - v) && Divides(d, v) ensures Divides(d, xc) && Divides(d, yc) {
      DividesSum(d, u - v, v);
    }
    forall d: nat | Divides(d, u) && Divides(d, v - u) ensures Divides(d, xc) && Divides(d, yc) {
      DividesSum(d, v - u, u);
    }
  }

  /** Divide out common factors of two, counting them in `gx` as a power. */
  method RemoveTwos(xc: MpInt, yc: MpInt, gx: MpInt)
    requires xc !in {yc, gx} && yc != gx
    requires xc.Valid() && yc.Valid() && gx.Valid() && xc.Val() > 0 && yc.Val() > 0 && gx.Val() == 1
    modifies xc, yc, gx
    ensures xc.Valid() && yc.Valid() && gx.Valid() && xc.Val() > 0 && yc.Val() > 0 && gx.Val() > 0
    ensures xc.Val() % 2 == 1 || yc.Val() % 2 == 1
    ensures (xc.Val(), yc.Val()) == OddPair(old(xc.Val()), old(yc.Val()))
    ensures gx.Val() * xc.Val() == old(xc.Val()) && gx.Val() * yc.Val() == old(yc.Val())
  {
    hide Value, Pow;
    ghost var x0, y0 := xc.Val(), yc.Val();
    var ex := IsEven(xc);
    var ey := IsEven(yc);
    while ex && ey
      invariant xc.Valid() && yc.Valid() && gx.Valid() && xc.Val() > 0 && yc.Val() > 0 && gx.Val() > 0
      invariant ex == (xc.Val() % 2 == 0) && ey == (yc.Val() % 2 == 0)
      invariant OddPair(xc.Val(), yc.Val()) == OddPair(x0, y0)
      invariant gx.Val() * xc.Val() == x0 && gx.Val() * yc.Val() == y0
      decreases xc.Val()
    {
      ghost var g := gx.Val();
      Halve(xc);
      Halve(yc);
      gx.Mul2();
      assert gx.Val() == 2 * g;
      MoveTwo(g, xc.Val());
      MoveTwo(g, yc.Val());
      ex := IsEven(xc);
      ey := IsEven(yc);
    }
  }

  lemma MoveTwo(g: int, x: int)
    ensures (2 * g) * x == g * (2 * x)
  {
  }

  /** The smaller number is subtracted from the larger, with the cofactors. */
  method SubtractWithCofactors(u: MpInt, v: MpInt, a: MpInt, b: MpInt, c: MpInt, d: MpInt, ghost xv: int, ghost yv: int)
    requires u !in {v, a, b, c, d} && v !in {a, b, c, d} && a !in {b, c, d} && b !in {c, d} && c != d
    requires u.Valid() && v.Valid() && a.Valid() && b.Valid() && c.Valid() && d.Valid()
    requires Combines(a.Val(), b.Val(), xv, yv, u.Val()) && Combines(c.Val(), d.Val(), xv, yv, v.Val())
    modifies u, a, b
    ensures u.Valid() && a.Valid() && b.Valid() && u.Val() == old(u.Val()) - v.Val()
    ensures Combines(a.Val(), b.Val(), xv, yv, u.Val())
    ensures PartOf(u, a, b) == Minus(old(PartOf(u, a, b)), PartOf(v, c, d))
  {
    hide Combines, Value, Pow;
    SubtractedCofactors(a.Val(), b.Val(), c.Val(), d.Val(), xv, yv, u.Val(), v.Val());
    Sub(u, v, u);
    Sub(a, c, a);
    Sub(b, d, b);
  }

  /** From s and t one round of the loop leads to s' and t'. */
  ghost predicate Leads(s: Part, t: Part, s': Part, t': Part, xc: int, yc: int) {
    var p, q := MadeOdd(s, xc, yc), MadeOdd(t, xc, yc);
    if p.n >= q.n then s' == Minus(p, q) && t' == q else s' == p && t' == Minus(q, p)
  }

  lemma LeadsRun(s: Part, t: Part, s': Part, t': Part, xc: int, yc: int)
    requires s.n > 0 && t.n > 0 && Leads(s, t, s', t', xc, yc) && t'.n > 0
    ensures if s'.n > 0 then Run(s, t, xc, yc) == Run(s', t', xc, yc) else Run(s, t, xc, yc) == t'
  {
  }

  /** One round of the main loop: make both numbers odd, then subtract the smaller from the larger. */
  method GcdRound(u: MpInt, v: MpInt, a: MpInt, b: MpInt, c: MpInt, d: MpInt, xc: MpInt, yc: MpInt)
    requires u !in {v, a, b, c, d, xc, yc} && v !in {a, b, c, d, xc, yc} && a !in {b, c, d, xc, yc}
    requires b !in {c, d, xc, yc} && c !in {d, xc, yc} && d !in {xc, yc}
    requires u.Valid() && v.Valid() && a.Valid() && b.Valid() && c.Valid() && d.Valid() && xc.Valid() && yc.Valid()
    requires u.Val() > 0 && v.Val() > 0 && (xc.Val() % 2 == 1 || yc.Val() % 2 == 1)
    requires Combines(a.Val(), b.Val(), xc.Val(), yc.Val(), u.Val())
    requires Combines(c.Val(), d.Val(), xc.Val(), yc.Val(), v.Val())
    requires Covers(u.Val(), v.Val(), xc.Val(), yc.Val())
    modifies u, v, a, b, c, d
    ensures u.Valid() && v.Valid() && a.Valid() && b.Valid() && c.Valid() && d.Valid()
    ensures u.Val() >= 0 && v.Val() > 0 && u.Val() + v.Val() < old(u.Val() + v.Val())
    ensures Combines(a.Val(), b.Val(), xc.Val(), yc.Val(), u.Val())
    ensures Combines(c.Val(), d.Val(), xc.Val(), yc.Val(), v.Val())
    ensures Covers(u.Val(), v.Val(), xc.Val(), yc.Val())
    ensures Leads(old(PartOf(u, a, b)), old(PartOf(v, c, d)), PartOf(u, a, b), PartOf(v, c, d), xc.Val(), yc.Val())
  {
    hide Combines, Covers, Divides, Value, Pow, MadeOdd;
    ghost var u0, v0, xv, yv := u.Val(), v.Val(), xc.Val(), yc.Val();
    MakeOdd(u, a, b, xc, yc);
    MakeOdd(v, c, d, xc, yc);
    CoversParts(u0, v0, u.Val(), v.Val(), xv, yv);
    CoversDifference(u.Val(), v.Val(), xv, yv);
    var cmp := Cmp(u, v);
    if cmp >= 0 {
      SubtractWithCofactors(u, v, a, b, c, d, xv, yv);
    } else {
      SubtractWithCofactors(v, u, c, d, a, b, xv, yv);
    }
  }

  /** The main loop of `mp_xgcd`: it ends with v a combination of xc and yc that divides both. */
  method BinaryGcd(u: MpInt, v: MpInt, a: MpInt, b: MpInt, c: MpInt, d: MpInt, xc: MpInt, yc: MpInt)
    requires u !in {v, a, b, c, d, xc, yc} && v !in {a, b, c, d, xc, yc} && a !in {b, c, d, xc, yc}
    requires b !in {c, d, xc, yc} && c !in {d, xc, yc} && d !in {xc, yc}
    requires u.Valid() && v.Valid() && a.Valid() && b.Valid() && c.Valid() && d.Valid() && xc.Valid() && yc.Valid()
    requires u.Val() == xc.Val() > 0 && v.Val() == yc.Val() > 0
    requires xc.Val() % 2 == 1 || yc.Val() % 2 == 1
    requires a.Val() == 1 && b.Val() == 0 && c.Val() == 0 && d.Val() == 1
    modifies u, v, a, b, c, d
    ensures v.Valid() && c.Valid() && d.Valid() && v.Val() > 0
    ensures Combines(c.Val(), d.Val(), xc.Val(), yc.Val(), v.Val())
    ensures Divides(v.Val(), xc.Val()) && Divides(v.Val(), yc.Val())
    ensures PartOf(v, c, d) == Cofactors(xc.Val(), yc.Val())
  {
    assert Combines(1, 0, xc.Val(), yc.Val(), xc.Val()) && Combines(0, 1, xc.Val(), yc.Val(), yc.Val());
    assert Covers(xc.Val(), yc.Val(), xc.Val(), yc.Val());
    hide Combines, Covers, Divides, Value, Pow, Leads, Run;
    ghost var end := Cofactors(xc.Val(), yc.Val());
    var uz := 1;
    while uz != 0
      invariant u.Valid() && v.Valid() && a.Valid() && b.Valid() && c.Valid() && d.Valid()
      invariant u.Val() >= 0 && v.Val() > 0 && (uz == 0 <==> u.Val() == 0)
      invariant Combines(a.Val(), b.Val(), xc.Val(), yc.Val(), u.Val())
      invariant Combines(c.Val(), d.Val(), xc.Val(), yc.Val(), v.Val())
      invariant Covers(u.Val(), v.Val(), xc.Val(), yc.Val())
      invariant if u.Val() > 0 then Run(PartOf(u, a, b), PartOf(v, c, d), xc.Val(), yc.Val()) == end else PartOf(v, c, d) == end
      decreases u.Val() + v.Val()
    {
      ghost var s, t := PartOf(u, a, b), PartOf(v, c, d);
      GcdRound(u, v, a, b, c, d, xc, yc);
      uz := CmpZero(u);
      LeadsRun(s, t, PartOf(u, a, b), PartOf(v, c, d), xc.Val(), yc.Val());
    }
    CoversZero(v.Val(), xc.Val(), yc.Val());
  }

  lemma CoversZero(v: nat, xc: int, yc: int)
    requires Covers(0, v, xc, yc)
    ensures Divides(v, xc) && Divides(v, yc)
  {
    DividesSelf(v);
  }

  /** From the odd parts back to the arguments. */
  lemma XgcdResult(g: nat, x: int, y: int, v: nat, gx: nat, xv: nat, yv: nat, a: nat, b: nat)
    requires a == gx * xv && b == gx * yv && g == gx * v
    requires Combines(x, y, xv, yv, v) && Divides(v, xv) && Divides(v, yv)
    ensures a * x + b * y == g == Gcd(a, b)
  {
    Distribute(x * xv, y * yv, gx);
    Assoc(x, xv, gx);
    Assoc(y, yv, gx);
    assert g == x * a + y * b;
    ScaledDivides(v, xv, gx);
    ScaledDivides(v, yv, gx);
    hide Combines, Divides;
    BezoutIsGcd(g, a, b, x, y);
  }

  lemma ScaledDivides(d: int, n: int, c: int)
    requires Divides(d, n)
    ensures Divides(c * d, c * n)
  {
    var k :| Multiple(n, d, k);
    Assoc(c, k, d);
    Assoc(k, c, d);
    DividesBy(c * d, c * n, k);
  }

  /** The cofactors are those of the loop on the numbers without their common factors of two. */
  ghost predicate Found(a: nat, b: nat, x: int, y: int) {
    a > 0 && b > 0 && x == Delivered(a, b).x && y == Delivered(a, b).y
  }

  ghost predicate NullOrShaped(p: MpInt?)
    reads p
  {
    p == null || p.Shaped()
  }

  /**
   * `mp_xgcd`, on the absolute values of a and b.  For a == 0 and b != 0 the halving loop of the source
   * never ends, so that case is excluded.  `xv` and `yv` are the cofactors, delivered or not.
   */
  method Xgcd(a: MpInt, b: MpInt, g: MpInt?, x: MpInt?, y: MpInt?) returns (res: Err, ghost xv: int, ghost yv: int)
    requires a.Valid() && b.Valid() && (b.Val() == 0 || a.Val() != 0)
    requires NullOrShaped(g) && NullOrShaped(x) && NullOrShaped(y)
    requires (g != null ==> g != x && g != y) && (x != null ==> x != y)
    modifies g, x, y
    ensures res == (if old(b.Val()) == 0 then Range else Okay)
    ensures res.Okay? ==> old(a.Mag()) * xv + old(b.Mag()) * yv == Gcd(old(a.Mag()), old(b.Mag()))
    ensures res.Okay? ==> Found(old(a.Mag()), old(b.Mag()), xv, yv)
    ensures res.Okay? && g != null ==> g.Valid() && g.Val() == Gcd(old(a.Mag()), old(b.Mag()))
    ensures res.Okay? && x != null ==> x.Valid() && x.Val() == xv
    ensures res.Okay? && y != null ==> y.Valid() && y.Val() == yv
  {
    hide Combines, Divides, Gcd, Value, Pow;
    xv, yv := 0, 0;
    var bz := CmpZero(b);
    if bz == 0 {
      return Range, xv, yv;
    }
    ghost var am, bm := a.Mag(), b.Mag();
    var gx, v, c, d;
    gx, v, c, d := XgcdCore(a, b);
    xv, yv := c.Val(), d.Val();
    if x != null {
      x.CopyFrom(c);
    }
    if y != null {
      y.CopyFrom(d);
    }
    if g != null {
      Mul(gx, v, g);
    }
    return Okay, xv, yv;
  }

  /** |a|, |b| without their common power of two. */
  method OddParts(a: MpInt, b: MpInt) returns (gx: MpInt, xc: MpInt, yc: MpInt)
    requires a.Valid() && b.Valid() && a.Val() != 0 && b.Val() != 0
    ensures fresh(gx) && fresh(xc) && fresh(yc) && gx !in {xc, yc} && xc != yc
    ensures gx.Valid() && xc.Valid() && yc.Valid() && gx.Val() > 0 && xc.Val() > 0 && yc.Val() > 0
    ensures xc.Val() % 2 == 1 || yc.Val() % 2 == 1
    ensures (xc.Val(), yc.Val()) == OddPair(a.Mag(), b.Mag())
    ensures gx.Val() * xc.Val() == a.Mag() && gx.Val() * yc.Val() == b.Mag()
  {
    hide Value, Pow;
    gx := new MpInt(DEFPREC);
    xc := new MpInt.Copy(a);
    xc.neg := false;
    yc := new MpInt.Copy(b);
    yc.neg := false;
    gx.Set(1);
    RemoveTwos(xc, yc, gx);
  }

  /** The cofactor loop from its initial values. */
  method OddGcd(xc: MpInt, yc: MpInt) returns (v: MpInt, c: MpInt, d: MpInt)
    requires xc.Valid() && yc.Valid() && xc.Val() > 0 && yc.Val() > 0
    requires xc != yc && (xc.Val() % 2 == 1 || yc.Val() % 2 == 1)
    ensures fresh(v) && fresh(c) && fresh(d)
    ensures v.Valid() && c.Valid() && d.Valid() && v.Val() > 0
    ensures Combines(c.Val(), d.Val(), xc.Val(), yc.Val(), v.Val())
    ensures Divides(v.Val(), xc.Val()) && Divides(v.Val(), yc.Val())
    ensures PartOf(v, c, d) == Cofactors(xc.Val(), yc.Val())
  {
    hide Combines, Covers, Divides, Value, Pow;
    var aa := new MpInt(DEFPREC);
    var bb := new MpInt(DEFPREC);
    c := new MpInt(DEFPREC);
    d := new MpInt(DEFPREC);
    var u := new MpInt.Copy(xc);
    v := new MpInt.Copy(yc);
    aa.Set(1);
    d.Set(1);
    BinaryGcd(u, v, aa, bb, c, d, xc, yc);
  }

  /** The part of `mp_xgcd` that works on local numbers only. */
  method XgcdCore(a: MpInt, b: MpInt) returns (gx: MpInt, v: MpInt, c: MpInt, d: MpInt)
    requires a.Valid() && b.Valid() && a.Val() != 0 && b.Val() != 0
    ensures fresh(gx) && fresh(v) && fresh(c) && fresh(d) && gx != v
    ensures gx.Valid() && v.Valid() && c.Valid() && d.Valid()
    ensures gx.Val() * v.Val() == Gcd(a.Mag(), b.Mag())
    ensures PartOf(v, c, d) == Delivered(a.Mag(), b.Mag())
    ensures a.Mag() * c.Val() + b.Mag() * d.Val() == Gcd(a.Mag(), b.Mag())
  {
    hide Combines, Covers, Divides, Gcd, Value, Pow, Run;
    var xc, yc;
    gx, xc, yc := OddParts(a, b);
    v, c, d := OddGcd(xc, yc);
    XgcdResult(gx.Val() * v.Val(), c.Val(), d.Val(), v.Val(), gx.Val(), xc.Val(), yc.Val(), a.Mag(), b.Mag());
  }

  /** For given cofactors of the absolute values, the identity holds when no negative argument has a nonzero one. */
  lemma BezoutSigns(a: int, b: int, x: int, y: int)
    requires a != 0 && b != 0 && Abs(a) * x + Abs(b) * y == Gcd(Abs(a), Abs(b))
    ensures a * x + b * y == Gcd(Abs(a), Abs(b)) <==> (a > 0 || x == 0) && (b > 0 || y == 0)
  {
    var g := Gcd(Abs(a), Abs(b));
    GcdPositive(Abs(a), Abs(b));
    hide Gcd;
    NegatedProduct(a, x);
    NegatedProduct(b, y);
    if a < 0 && b > 0 && x != 0 {
      NonzeroProduct(Abs(a), x);
    }
    if a > 0 && b < 0 && y != 0 {
      NonzeroProduct(Abs(b), y);
    }
  }

  lemma NegatedProduct(a: int, x: int)
    ensures a * x == if a < 0 then -(Abs(a) * x) else Abs(a) * x
    ensures x == 0 ==> Abs(a) * x == 0
  {
  }

  lemma NonzeroProduct(p: int, x: int)
    requires p > 0 && x != 0
    ensures p * x != 0
  {
  }

  lemma {:induction false} GcdPositive(a: nat, b: nat)
    requires a > 0 || b > 0
    ensures Gcd(a, b) > 0
    decreases b
  {
    if b > 0 {
      GcdPositive(b, a % b);
    }
  }

  // ----- modular inverse

  /** A combination equal to 1 gives an inverse modulo m, also after reducing it. */
  lemma InverseFromBezout(a: int, m: nat, x: int, y: int, c: int)
    requires m > 0 && a != 0 && Abs(a) * x + m * y == 1
    requires c == if a < 0 then -(x % m) else x % m
    ensures a * c % m == 1 % m
  {
    var q, r := x / m, x % m;
    assert x == q * m + r;
    assert a * c == Abs(a) * r by { NegatedProduct(a, c); NegatedProduct(-1, r); }
    Distribute(q * m, r, Abs(a));
    Assoc(Abs(a), q, m);
    var k := Abs(a) * q + y;
    Distribute(Abs(a) * q, y, m);
    assert Abs(a) * r == 1 - k * m;
    SameRemainder(Abs(a) * r, 1, m, k);
  }

  lemma SameRemainder(u: int, v: int, m: int, k: int)
    requires m > 0 && u == v - k * m
    ensures u % m == v % m
  {
    var p, t := v / m, v % m;
    Distribute(p, k, m);
    DivModUnique(u, m, p - k, t);
  }

  lemma OneApart(p: int, m: int) returns (k: int)
    requires m > 0 && p % m == 1 % m
    ensures p - k * m == 1
  {
    k := p / m - 1 / m;
    assert p == p / m * m + p % m && 1 == 1 / m * m + 1 % m;
    Distribute(p / m, 1 / m, m);
  }

  /** Without gcd 1 there is no inverse to find. */
  lemma NoInverse(a: int, m: nat, c: int)
    requires m > 0 && Gcd(Abs(a), m) != 1
    ensures a * c % m != 1 % m
  {
    if a * c % m == 1 % m {
      var g := Gcd(Abs(a), m);
      GcdIsGcd(Abs(a), m);
      hide Gcd, Divides;
      var p := a * c;
      var k := OneApart(p, m);
      DividesProduct(g, Abs(a), c);
      DividesNegation(g, a, c);
      DividesProduct(g, m, k);
      DividesSum(g, p, k * m);
      DividesBound(g, 1);
    }
  }

  lemma DividesNegation(g: int, a: int, c: int)
    requires Divides(g, c * Abs(a))
    ensures Divides(g, a * c)
  {
    var k :| Multiple(c * Abs(a), g, k);
    NegatedProduct(a, c);
    if a < 0 {
      NegatedProduct(-1, k * g);
      assert a * c == (-k) * g;
      DividesBy(g, a * c, -k);
    } else {
      DividesBy(g, a * c, k);
    }
  }

  /**
   * `mp_invmod`.  The sign of `a` is put on the output whatever happened; with a negative and m == 1
   * that makes a negative zero, the one result that breaks the representation invariant.  Callers must not
   * let the output be the modulus: then a negative cofactor is reduced wrongly.
   */
  method Invmod(a: MpInt, m: MpInt, c: MpInt) returns (res: Err)
    requires a.Valid() && m.Valid() && c.Shaped()
    modifies c
    ensures var av, mv := old(a.Val()), old(m.Val());
            res == if av == 0 || mv == 0 then Range
                   else if Gcd(Abs(av), Abs(mv)) != 1 then Undef
                   else if mv < 0 then Range else Okay
    ensures res.Okay? ==> c.Clamped() && c.neg == (old(a.Val()) < 0)
    ensures res.Okay? && c != m ==>
              && IsInverse(old(a.Val()), Signed(c.neg, c.Mag()), old(m.Val())) && c.Mag() < old(m.Val())
              && (c.Valid() <==> !(old(a.Val()) < 0 && old(m.Val()) == 1))
    ensures res.Okay? && c == m ==>
              (IsInverse(old(a.Val()), Signed(c.neg, c.Mag()), old(m.Val()))
               <==> Cofactors(old(a.Mag()), old(m.Mag())).x >= 0 || old(m.Val()) in {1, 3})
  {
    hide Gcd, Value, Pow, ModResult, IsInverse, Cofactors;
    var az := CmpZero(a);
    var mz := CmpZero(m);
    if az == 0 || mz == 0 {
      return Range;
    }
    var sa := a.neg;
    var g := new MpInt(DEFPREC);
    var x := new MpInt(DEFPREC);
    ghost var xv, yv;
    res, xv, yv := Xgcd(a, m, g, x, null);
    var gd := CmpDigit(g, 1);
    if g.neg || gd != 0 {
      return Undef;
    }
    ghost var av, mv := a.Val(), m.Val();
    CoprimePair(a.Mag(), m.Mag());
    res := DeliverInverse(x, m, c, sa, av, yv);
  }

  /** The end of `mp_invmod`: reduce the cofactor and put the sign on it. */
  method DeliverInverse(x: MpInt, m: MpInt, c: MpInt, negative: bool, ghost av: int, ghost yv: int) returns (res: Err)
    requires x.Valid() && m.Valid() && c.Shaped() && c != x && av != 0 && m.Val() != 0 && negative == (av < 0)
    requires Abs(av) * x.Val() + Abs(m.Val()) * yv == 1 && x.Val() == Cofactors(Abs(av), Abs(m.Val())).x
    modifies c
    ensures res == if old(m.Val()) < 0 then Range else Okay
    ensures res.Okay? ==> c.Clamped() && c.neg == negative
    ensures res.Okay? && c != m ==>
              && IsInverse(av, Signed(c.neg, c.Mag()), old(m.Val())) && c.Mag() < old(m.Val())
              && (c.Valid() <==> !(negative && old(m.Val()) == 1))
    ensures res.Okay? && c == m ==>
              (IsInverse(av, Signed(c.neg, c.Mag()), old(m.Val()))
               <==> Cofactors(Abs(av), old(m.Mag())).x >= 0 || old(m.Val()) in {1, 3})
  {
    hide Value, Pow, ModResult, IsInverse, Cofactors;
    ghost var mv := m.Val();
    if mv > 0 {
      InverseDelivered(av, mv, x.Val(), yv);
      ModResultRange(x.Val(), mv);
    }
    res := Mod(x, m, c);
    c.neg := negative;
  }

  /** c is an inverse of a modulo m. */
  ghost predicate IsInverse(a: int, c: int, m: int)
    requires m != 0
  {
    a * c % m == 1 % m
  }

  function Signed(neg: bool, r: nat): int {
    if neg then -(r as int) else r
  }

  /** Coprime numbers are not both even, so the loop runs on themselves. */
  lemma CoprimePair(a: nat, b: nat)
    requires a > 0 && b > 0 && Gcd(a, b) == 1
    ensures Delivered(a, b) == Cofactors(a, b)
  {
    if a % 2 == 0 && b % 2 == 0 {
      GcdDouble(a / 2, b / 2);
    }
  }

  /** What the sign put on the reduced cofactor makes of it. */
  lemma InverseDelivered(a: int, m: nat, x: int, y: int)
    requires m > 0 && a != 0 && Abs(a) * x + m * y == 1 && x == Cofactors(Abs(a), m).x
    ensures var r := ModResult(x, m, false);
      r >= 0 && IsInverse(a, Signed(a < 0, r), m) && r < m && (r == 0 <==> m == 1)
    ensures IsInverse(a, Signed(a < 0, Abs(ModResult(x, m, true))), m) <==> x >= 0 || m in {1, 3}
  {
    Divisible(a, m, x);
    ModIsRemainder(x, m);
    ModRange(x, m);
    var r := x % m;
    InverseFromBezout(a, m, x, y, Signed(a < 0, r));
    if r == 0 {
      OneModulo(m);
    }
    hide IsInverse;
    if x < 0 {
      AliasedInverse(a, m, x, y);
    }
  }

  /** The reduction of a cofactor never meets the divisors that the division routine narrows. */
  lemma Divisible(a: int, m: nat, x: int)
    requires m > 0 && a != 0 && x == Cofactors(Abs(a), m).x
    ensures !Misdivides(Abs(x), m)
  {
    if IsPower(m) {
      PowerCofactor(Abs(a), m);
    }
  }

  /** With the output in place of the modulus a negative cofactor gives twice the distance to the inverse. */
  lemma AliasedInverse(a: int, m: nat, x: int, y: int)
    requires m > 0 && a != 0 && Abs(a) * x + m * y == 1 && x < 0 && !Misdivides(Abs(x), m)
    ensures IsInverse(a, Signed(a < 0, Abs(ModResult(x, m, true))), m) <==> m in {1, 3}
  {
    var r, q := Abs(x) % m, Abs(x) / m;
    AliasedResult(x, m);
    AliasedProduct(Abs(a), m, x, y, q, r) by { QuotientRange(Abs(x), m); }
    SignedProduct(a, 2 * r);
    OffByTwo(Abs(a) * (2 * r), m, -2 * (y - Abs(a) * q));
    hide ModResult, Misdivides, Abs;
  }

  lemma OffByTwo(p: int, m: nat, k: int)
    requires m > 0 && p == -2 - k * m
    ensures p % m == 1 % m <==> m in {1, 3}
  {
    SameRemainder(p, -2, m, k);
    MinusTwo(m);
  }

  lemma AliasedResult(x: int, m: nat)
    requires m > 0 && x < 0 && !Misdivides(Abs(x), m)
    ensures Abs(ModResult(x, m, true)) == 2 * (Abs(x) % m)
  {
    hide RemMag, QuotMag;
    QuotRemExactIff(Abs(x), m);
  }

  lemma SignedProduct(a: int, r: nat)
    ensures a * Signed(a < 0, r) == Abs(a) * r
  {
    NegatedProduct(a, Signed(a < 0, r));
    NegatedProduct(-1, Abs(a) * r);
    if a < 0 {
      assert Abs(a) * -(r as int) == -(Abs(a) * r);
    }
  }

  lemma AliasedProduct(a: nat, m: nat, x: int, y: int, q: nat, r: nat)
    requires a * x + m * y == 1 && -x == q * m + r
    ensures a * (2 * r) == -2 - (-2 * (y - a * q)) * m
  {
    var k := y - a * q;
    assert a * r == k * m - 1 by {
      Distribute(q * m, r, a);
      Assoc(a, q, m);
      Distribute(y, a * q, m);
      assert a * x == -(a * (q * m + r)) by { Distribute(0, q * m + r, a); }
    }
    Assoc(a, r, 2);
    Assoc(-2, k, m);
  }

  /** -2 and 1 agree modulo 1 and 3 only. */
  lemma MinusTwo(m: nat)
    requires m > 0
    ensures -2 % m == 1 % m <==> m in {1, 3}
  {
    if m > 3 {
      DivModUnique(-2, m, -1, m - 2);
      DivModUnique(1, m, 0, 1);
    }
  }

  /** The inverse of 4 modulo 5, written over the 5, comes out as 2; it is 4. */
  lemma InvmodOverModulus()
    ensures Cofactors(4, 5).x == -1 && Abs(ModResult(-1, 5, true)) == 2
    ensures !IsInverse(4, 2, 5) && IsInverse(4, 4, 5)
  {
    hide Cofactors;
    CofactorsOfFourAndFive();
  }

  lemma OneModulo(m: int)
    requires m > 0 && 0 % m == 1 % m
    ensures m == 1
  {
    if m > 1 {
      DivModUnique(1, m, 0, 1);
      DivModUnique(0, m, 0, 0);
    }
  }

  // ----- mp_gcd

  /** Halve both numbers while both are even, counting the rounds. */
  method CommonTwos(u: MpInt, v: MpInt) returns (k: nat)
    requires u != v && u.Valid() && v.Valid() && u.Val() > 0 && v.Val() > 0
    modifies u, v
    ensures u.Valid() && v.Valid() && u.Val() > 0 && v.Val() > 0
    ensures u.Val() % 2 == 1 || v.Val() % 2 == 1
    ensures Gcd(old(u.Val()), old(v.Val())) == Gcd(u.Val(), v.Val()) * Pow2(k)
  {
    ghost var g0 := Gcd(u.Val(), v.Val());
    k := 0;
    assert g0 == Gcd(u.Val(), v.Val()) * Pow2(k);
    hide Gcd, Pow2, Value, Pow;
    var eu := IsEven(u);
    var ev := IsEven(v);
    while eu && ev
      invariant u.Valid() && v.Valid() && u.Val() > 0 && v.Val() > 0
      invariant eu == (u.Val() % 2 == 0) && ev == (v.Val() % 2 == 0)
      invariant g0 == Gcd(u.Val(), v.Val()) * Pow2(k)
      decreases u.Val()
    {
      Halve(u);
      Halve(v);
      GcdDouble(u.Val(), v.Val());
      TwoOut(Gcd(u.Val(), v.Val()), k);
      k := k + 1;
      eu := IsEven(u);
      ev := IsEven(v);
    }
  }

  lemma TwoOut(g: int, k: nat)
    ensures (2 * g) * Pow2(k) == g * Pow2(k + 1)
  {
    Assoc(g, 2, Pow2(k));
  }

  /** The odd part of a nonzero number, sign kept; an odd partner's gcd is unchanged. */
  method OddPart(t: MpInt, ghost partner: nat)
    requires t.Valid() && t.Val() != 0 && partner % 2 == 1
    modifies t
    ensures t.Valid() && t.Mag() % 2 == 1 && 0 < t.Mag() <= old(t.Mag()) && t.neg == old(t.neg)
    ensures Gcd(t.Mag(), partner) == Gcd(old(t.Mag()), partner)
  {
    hide Gcd, Value, Pow;
    ghost var m0, g0 := t.Mag(), Gcd(t.Mag(), partner);
    var even := IsEven(t);
    while even
      invariant t.Valid() && 0 < t.Mag() <= m0 && t.neg == old(t.neg)
      invariant even == (t.Mag() % 2 == 0) && Gcd(t.Mag(), partner) == g0
      decreases t.Mag()
    {
      ghost var m := t.Mag();
      Halve(t);
      GcdHalf(t.Mag(), partner);
      even := IsEven(t);
    }
  }

  /** The number that t will be compared with: v for a positive t, u for a negative one. */
  ghost function Partner(t: int, u: nat, v: nat): nat {
    if t > 0 then v else u
  }

  /** One round of the loop: t is made odd, replaces u or -v, and becomes their difference. */
  method SteinRound(u: MpInt, v: MpInt, t: MpInt)
    requires u !in {v, t} && v != t && u.Valid() && v.Valid() && t.Valid()
    requires u.Val() > 0 && v.Val() > 0 && t.Val() != 0 && Partner(t.Val(), u.Val(), v.Val()) % 2 == 1
    modifies u, v, t
    ensures u.Valid() && v.Valid() && t.Valid() && t.Val() == u.Val() - v.Val()
    ensures u.Val() > 0 && v.Val() > 0 && u.Val() % 2 == 1 && v.Val() % 2 == 1
    ensures u.Val() + v.Val() <= old(t.Mag() + Partner(t.Val(), u.Val(), v.Val()))
    ensures Gcd(u.Val(), v.Val()) == Gcd(old(t.Mag()), old(Partner(t.Val(), u.Val(), v.Val())))
  {
    hide Gcd, Value, Pow;
    ghost var p := Partner(t.Val(), u.Val(), v.Val());
    OddPart(t, p);
    var tz := CmpZero(t);
    if tz > 0 {
      u.CopyFrom(t);
    } else {
      v.CopyFrom(t);
      v.neg := !t.neg;
      GcdSymmetric(v.Val(), p);
    }
    Sub(u, v, t);
  }

  /** Subtracting keeps the gcd, whichever number was the larger. */
  lemma SteinDifference(u: nat, v: nat)
    requires u != v && u > 0 && v > 0
    ensures Gcd(Abs(u - v), Partner(u - v, u, v)) == Gcd(u, v)
    ensures Abs(u - v) + Partner(u - v, u, v) < u + v
  {
    hide Gcd;
    if u > v {
      GcdDifference(u, v);
    } else {
      GcdDifference(v, u);
      GcdSymmetric(u, v);
    }
  }

  /** The loop of `mp_gcd` on two positive numbers that are not both even. */
  method SteinLoop(u: MpInt, v: MpInt, t: MpInt)
    requires u !in {v, t} && v != t && u.Valid() && v.Valid() && t.Valid()
    requires u.Val() > 0 && v.Val() > 0 && (u.Val() % 2 == 1 || v.Val() % 2 == 1)
    modifies u, v, t
    ensures u.Valid() && v.Valid() && u.Val() % 2 == 1 && u.Val() == Gcd(old(u.Val()), old(v.Val()))
  {
    hide Gcd, Value, Pow;
    ghost var g := Gcd(u.Val(), v.Val());
    GcdSymmetric(u.Val(), v.Val());
    var eu := IsEven(u);
    if !eu {
      t.CopyFrom(v);
      t.neg := !v.neg;
    } else {
      t.CopyFrom(u);
    }
    var done := false;
    while !done
      invariant u.Valid() && v.Valid() && t.Valid() && u.Val() > 0 && v.Val() > 0
      invariant !done ==> t.Val() != 0 && Partner(t.Val(), u.Val(), v.Val()) % 2 == 1
      invariant !done ==> Gcd(t.Mag(), Partner(t.Val(), u.Val(), v.Val())) == g
      invariant done ==> u.Val() == v.Val() && u.Val() % 2 == 1 && Gcd(u.Val(), v.Val()) == g
      decreases !done, t.Mag() + Partner(t.Val(), u.Val(), v.Val())
    {
      SteinRound(u, v, t);
      var tz := CmpDigit(t, 0);
      if tz == 0 {
        done := true;
      } else {
        SteinDifference(u.Val(), v.Val());
      }
    }
    GcdEqual(u.Val());
  }

  /** The general case of `mp_gcd`, on copies of the absolute values. */
  method SteinGcd(a: MpInt, b: MpInt, c: MpInt) returns (ghost odd: nat, ghost k: nat)
    requires a.Valid() && b.Valid() && c.Shaped() && a.Val() != 0 && b.Val() != 0
    modifies c
    ensures c.Valid() && odd % 2 == 1 && Gcd(old(a.Mag()), old(b.Mag())) == odd * Pow2(k)
    ensures c.Val() == odd * Pow2(k % EXPONENT_MOD)
  {
    hide Gcd, Value, Pow, Pow2;
    var t := new MpInt(DEFPREC);
    var u := new MpInt.Copy(a);
    u.neg := false;
    var v := new MpInt.Copy(b);
    v.neg := false;
    var twos := CommonTwos(u, v);
    SteinLoop(u, v, t);
    odd, k := u.Val(), twos;
    TwoToThe(v, twos % EXPONENT_MOD);
    Mul(u, v, c);
  }

  /**
   * `mp_gcd`.  `odd` and `k` are the odd part of the gcd and its power of two; the exponent passes
   * through a 16-bit digit on its way back into the result.
   */
  method GcdInto(a: MpInt, b: MpInt, c: MpInt) returns (res: Err, ghost odd: nat, ghost k: nat)
    requires a.Valid() && b.Valid() && c.Shaped()
    modifies c
    ensures res == (if old(a.Val()) == 0 && old(b.Val()) == 0 then Range else Okay)
    ensures res.Okay? ==> c.Valid()
    ensures res.Okay? && (old(a.Val()) == 0 || old(b.Val()) == 0) ==> c.Val() == Gcd(old(a.Mag()), old(b.Mag()))
    ensures old(a.Val()) != 0 && old(b.Val()) != 0 ==>
              && odd % 2 == 1 && Gcd(old(a.Mag()), old(b.Mag())) == odd * Pow2(k)
              && c.Val() == odd * Pow2(k % EXPONENT_MOD)
  {
    hide Gcd, Value, Pow, Pow2;
    odd, k := 1, 0;
    var az := CmpZero(a);
    var bz := CmpZero(b);
    if az == 0 && bz == 0 {
      return Range, odd, k;
    }
    GcdEqual(a.Mag());
    GcdEqual(b.Mag());
    if az == 0 {
      c.CopyFrom(b);
      c.neg := false;
      return Okay, odd, k;
    } else if bz == 0 {
      c.CopyFrom(a);
      c.neg := false;
      return Okay, odd, k;
    }
    odd, k := SteinGcd(a, b, c);
    return Okay, odd, k;
  }

  /** `mp_gcd` is right exactly when the gcd has fewer than 65536 factors of two. */
  lemma GcdExactIff(odd: nat, k: nat)
    requires odd > 0
    ensures odd * Pow2(k % EXPONENT_MOD) == odd * Pow2(k) <==> k < EXPONENT_MOD
  {
    if k >= EXPONENT_MOD {
      Pow2Mono(k % EXPONENT_MOD, k);
      hide Pow2;
      if odd * Pow2(k % EXPONENT_MOD) == odd * Pow2(k) {
        CancelFactor(Pow2(k % EXPONENT_MOD), Pow2(k), odd);
      }
    }
  }
}
