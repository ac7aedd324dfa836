/** Signed arithmetic.  Output parameters may be any of the inputs. */
module MpiSigned {
  import opened Arith
  import opened MpiDigits
  import opened MpiInt
  import opened MpiMagnitude
  import opened MpiSquare
  import opened MpiDivide

  /** `mp_cmp` */
  method Cmp(a: MpInt, b: MpInt) returns (c: int)
    requires a.Valid() && b.Valid()
    ensures c == Sign(a.Val() - b.Val())
  {
    if a.neg == b.neg {
      var mag := CmpMag(a, b);
      if mag == 0 {
        return 0;
      }
      return if a.neg then -mag else mag;
    } else if !a.neg {
      return 1;
    } else {
      return -1;
    }
  }

  /** |a| - |b| into `c` with the sign of `a`, going through a temporary when `c` is `b`. */
  method SubMagInto(a: MpInt, b: MpInt, c: MpInt)
    requires a.Valid() && b.Valid() && c.Shaped() && a.Mag() >= b.Mag()
    modifies c
    ensures c.Valid() && c.Mag() == old(a.Mag()) - old(b.Mag())
    ensures c.neg == (old(a.neg) && c.Mag() > 0)
  {
    UsedMono(a.dp, a.used, b.dp, b.used);
    if c == b {
      var tmp := new MpInt.Copy(a);
      var _ := SubMag(tmp, b);
      MpInt.Exch(tmp, c);
    } else {
      if c != a {
        c.CopyFrom(a);
      }
      var _ := SubMag(c, b);
    }
  }

  /** A zero result is made non-negative. */
  method FixZeroSign(c: MpInt)
    requires c.Clamped()
    modifies c`neg
    ensures c.Valid() && c.neg == (old(c.neg) && c.Mag() > 0)
  {
    assert Value(c.dp, 1) == c.dp[0] * Pow(0);
    if c.used > 1 {
      ValueTop(c.dp, c.used);
      MulMono(1, c.dp[c.used - 1], Pow(c.used - 1));
    }
    if c.used == 1 && c.dp[0] == 0 {
      c.neg := false;
    }
  }

  /** `mp_add` */
  method Add(a: MpInt, b: MpInt, c: MpInt)
    requires a.Valid() && b.Valid() && c.Shaped()
    modifies c
    ensures c.Valid() && c.Val() == old(a.Val()) + old(b.Val())
  {
    hide Value, Pow;
    if a.neg == b.neg {
      if c == b {
        AddMag(c, a);
      } else {
        if c != a {
          c.CopyFrom(a);
        }
        AddMag(c, b);
      }
    } else {
      var cmp := CmpMag(a, b);
      if cmp > 0 {
        SubMagInto(a, b, c);
      } else if cmp == 0 {
        c.Set(0);
        return;
      } else {
        SubMagInto(b, a, c);
      }
    }
    FixZeroSign(c);
  }

  /** `mp_sub` */
  method Sub(a: MpInt, b: MpInt, c: MpInt)
    requires a.Valid() && b.Valid() && c.Shaped()
    modifies c
    ensures c.Valid() && c.Val() == old(a.Val()) - old(b.Val())
  {
    hide Value, Pow;
    if a.neg != b.neg {
      if c == a {
        AddMag(c, b);
      } else {
        if c != b {
          c.CopyFrom(b);
        }
        AddMag(c, a);
        c.neg := a.neg;
      }
    } else {
      var cmp := CmpMag(a, b);
      if cmp > 0 {
        SubMagInto(a, b, c);
      } else if cmp == 0 {
        c.Set(0);
        return;
      } else {
        SubMagInto(b, a, c);
        c.neg := !b.neg;
      }
    }
    FixZeroSign(c);
  }

  /** `mp_mul` */
  method Mul(a: MpInt, b: MpInt, c: MpInt)
    requires a.Valid() && b.Valid() && c.Shaped()
    modifies c
    ensures c.Valid() && c.Val() == old(a.Val()) * old(b.Val())
  {
    ghost var am, bm, an, bn := a.Mag(), b.Mag(), a.neg, b.neg;
    var neg := a.neg != b.neg;
    if c == b {
      MulMag(c, a);
    } else {
      c.CopyFrom(a);
      MulMag(c, b);
    }
    var z := CmpDigit(c, 0);
    if !neg || z == 0 {
      c.neg := false;
    } else {
      c.neg := neg;
    }
    SignedProduct(am, an, bm, bn);
  }

  lemma SignedProduct(am: nat, an: bool, bm: nat, bn: bool)
    ensures (if an then -(am as int) else am) * (if bn then -(bm as int) else bm)
            == (if an != bn then -(am * bm as int) else am * bm)
  {
  }

  /** `mp_sqr` */
  method Sqr(a: MpInt, b: MpInt)
    requires a.Valid() && b.Shaped()
    modifies b
    ensures b.Valid() && b.Val() == old(a.Val()) * old(a.Val())
  {
    ghost var am, an := a.Mag(), a.neg;
    b.CopyFrom(a);
    SqrMag(b);
    b.neg := false;
    SignedProduct(am, an, am, an);
  }

  /** A number below the radix has a single digit, which is its value. */
  lemma OneDigit(dp: seq<Digit>, n: nat)
    requires 0 < n <= |dp| && (n > 1 ==> dp[n - 1] != 0) && Value(dp, n) < RADIX
    ensures n == 1 && Value(dp, n) == dp[0]
  {
    if n > 1 {
      ValueTop(dp, n);
      MulMono(1, dp[n - 1], Pow(n - 1));
      PowMono(1, n - 1);
    }
    assert Value(dp, 1) == dp[0] * Pow(0);
  }

  /** `mp_sub_d` */
  method SubSmall(a: MpInt, d: Digit, b: MpInt)
    requires a.Valid() && b.Shaped()
    modifies b
    ensures b.Valid() && b.Val() == old(a.Val()) - d
  {
    b.CopyFrom(a);
    var c := CmpDigit(b, d);
    if b.neg {
      AddDigit(b, d);
    } else if c >= 0 {
      var _ := SubDigit(b, d);
    } else {
      OneDigit(b.dp, b.used);
      b.dp := b.dp[0 := d - b.dp[0]];
      assert Value(b.dp, 1) == b.dp[0] * Pow(0);
      b.neg := true;
    }
    FixZeroSign(b);
  }

  // ----- division

  /** Quotient and remainder of the magnitudes, as `mp_div` computes them. */
  ghost function QuotMag(a: nat, b: nat): nat
    requires b > 0
  {
    if a < b then 0 else if a == b then 1 else a / EffectiveDivisor(b)
  }

  ghost function RemMag(a: nat, b: nat): nat
    requires b > 0
  {
    if a < b then a else if a == b then 0 else a % EffectiveDivisor(b)
  }

  /** The one family of operands on which the division routines are wrong. */
  ghost predicate Misdivides(a: nat, b: nat) {
    IsPower(b) && Pow2(EXPONENT_MOD) <= b < a
  }

  lemma QuotRemExactIff(a: nat, b: nat)
    requires b > 0
    ensures QuotMag(a, b) == a / b && RemMag(a, b) == a % b <==> !Misdivides(a, b)
  {
    if a < b {
      DivModUnique(a, b, 0, a);
    } else if a == b {
      DivModUnique(a, b, 1, 0);
    } else {
      DivisionIsExactIff(a, b);
      EffectiveDivisorBound(b);
    }
  }

  function Negate(neg: bool, m: nat): int {
    var i: int := m;
    if neg then -i else i
  }

  /** The last part of `mp_div`: divide copies and deliver whichever outputs were asked for. */
  method DivCopies(a: MpInt, b: MpInt, q: MpInt?, r: MpInt?)
    requires a.Valid() && b.Valid() && b.Mag() > 0 && a.Mag() > b.Mag()
    requires (q == null || q.Shaped()) && (r == null || r.Shaped()) && (q == null || q != r)
    modifies q, r
    ensures q != null ==> q.Valid() && q.Val() == Negate(old(a.neg) != old(b.neg), QuotMag(old(a.Mag()), old(b.Mag())))
    ensures r != null ==> r.Valid() && r.Val() == Negate(old(a.neg), RemMag(old(a.Mag()), old(b.Mag())))
  {
    hide EffectiveDivisor;
    var qtmp := new MpInt.Copy(a);
    var rtmp := new MpInt.Copy(b);
    var _ := DivMag(qtmp, rtmp);
    rtmp.neg := a.neg;
    qtmp.neg := a.neg != b.neg;
    FixZeroSign(qtmp);
    FixZeroSign(rtmp);
    if q != null {
      MpInt.Exch(qtmp, q);
    }
    if r != null {
      MpInt.Exch(rtmp, r);
    }
  }

  /** `mp_div`: truncated division; a null output is not delivered. */
  method Div(a: MpInt, b: MpInt, q: MpInt?, r: MpInt?) returns (res: Err)
    requires a.Valid() && b.Valid()
    requires (q == null || q.Shaped()) && (r == null || r.Shaped()) && (q == null || q != r)
    modifies q, r
    ensures res == (if old(b.Val()) == 0 then Range else Okay)
    ensures res.Range? && q != null ==> q.neg == old(q.neg) && q.used == old(q.used) && q.dp == old(q.dp)
    ensures res.Range? && r != null ==> r.neg == old(r.neg) && r.used == old(r.used) && r.dp == old(r.dp)
    ensures res.Okay? && q != null ==>
              q.Valid() && q.Val() == Negate(old(a.neg) != old(b.neg), QuotMag(old(a.Mag()), old(b.Mag())))
    ensures res.Okay? && r != null ==>
              r.Valid() && r.Val() == Negate(old(a.neg), RemMag(old(a.Mag()), old(b.Mag())))
  {
    var z := CmpZero(b);
    if z == 0 {
      return Range;
    }
    res := Okay;
    var cmp := CmpMag(a, b);
    if cmp < 0 {
      if r != null {
        r.CopyFrom(a);
      }
      if q != null {
        q.Set(0);
      }
    } else if cmp == 0 {
      if q != null {
        var qneg := a.neg != b.neg;
        q.Set(1);
        if qneg {
          q.neg := true;
        }
      }
      if r != null {
        r.Set(0);
      }
    } else {
      DivCopies(a, b, q, r);
    }
  }

  ghost function Abs(x: int): nat {
    if x < 0 then -x else x
  }

  /** What `mp_mod` leaves in its output, `r` being the remainder of the magnitudes. */
  ghost function Corrected(negative: bool, r: nat, m: nat, outputIsModulus: bool): int {
    if !negative || r == 0 then r else if outputIsModulus then -2 * r else m - r
  }

  ghost function ModResult(a: int, m: nat, outputIsModulus: bool): int
    requires m > 0
  {
    Corrected(a < 0, RemMag(Abs(a), m), m, outputIsModulus)
  }

  lemma RemMagSmall(a: nat, b: nat)
    requires b > 0
    ensures a < b ==> RemMag(a, b) == a
    ensures a == b ==> RemMag(a, b) == 0
  {
  }

  /**
   * `mp_mod`.  The result is in [0, m); but when `c` is `m` itself and `a` is negative the correction
   * adds the remainder to itself instead of the modulus.
   */
  method Mod(a: MpInt, m: MpInt, c: MpInt) returns (res: Err)
    requires a.Valid() && m.Valid() && c.Shaped()
    modifies c
    ensures res == (if old(m.Val()) < 0 || (old(m.Val()) == 0 && old(a.Val()) != 0) then Range else Okay)
    ensures res.Range? ==> c.neg == old(c.neg) && c.used == old(c.used) && c.dp == old(c.dp)
    ensures res.Okay? ==> c.Valid()
    ensures res.Okay? && old(m.Val()) > 0 ==> c.Val() == ModResult(old(a.Val()), old(m.Val()), c == m)
    ensures res.Okay? && old(m.Val()) == 0 ==> c.Val() == 0
  {
    hide RemMag, QuotMag;
    if m.neg {
      return Range;
    }
    ghost var am, mm := a.Mag(), m.Mag();
    if mm > 0 {
      RemMagSmall(am, mm);
    }
    var mag := CmpMag(a, m);
    if mag > 0 {
      res := Div(a, m, null, c);
      if res != Okay {
        return;
      }
      if c.neg {
        Add(c, m, c);
      }
    } else if mag < 0 {
      var negative := a.neg;
      c.CopyFrom(a);
      if negative {
        Add(c, m, c);
      }
    } else {
      c.Set(0);
    }
    return Okay;
  }

  /** The divisor that the code uses divides the one it was given. */
  lemma EffectiveDivides(m: nat) returns (k: nat)
    requires m > 0
    ensures m == k * EffectiveDivisor(m) && k > 0
  {
    hide Pow2;
    k := 1;
    if IsPower(m) {
      var i := Exponent(m);
      QuotientRange(i, EXPONENT_MOD);
      k := Pow2(i - i % EXPONENT_MOD);
      Pow2Add(i - i % EXPONENT_MOD, i % EXPONENT_MOD);
    }
  }

  /** So the remainder of the magnitudes is that of the true remainder, and equal to it exactly below the divisor used. */
  lemma RemMagIs(a: nat, m: nat)
    requires m > 0
    ensures RemMag(a, m) == if a < m then a else a % m % EffectiveDivisor(m)
    ensures RemMag(a, m) == a % m <==> a < m || a % m < EffectiveDivisor(m)
    ensures a % m == 0 ==> RemMag(a, m) == 0
  {
    var e := EffectiveDivisor(m);
    var k := EffectiveDivides(m);
    hide EffectiveDivisor;
    var q, r := a / m, a % m;
    QuotientRange(a, m);
    QuotientRange(r, e);
    if a < m {
      DivModUnique(a, m, 0, a);
    } else {
      Assoc(q, k, e);
      Distribute(q * k, r / e, e);
      DivModUnique(a, e, q * k + r / e, r % e);
      if r < e {
        DivModUnique(r, e, 0, r);
      }
      if a == m {
        DivModUnique(a, m, 1, 0);
      }
      if r == 0 {
        DivModUnique(0, e, 0, 0);
      }
    }
  }

  /**
   * `mp_mod` is reduction modulo m exactly here: m divides a; or the output is not the modulus of a negative number,
   * and the number is smaller than m or leaves a remainder below the divisor that the code uses.
   */
  lemma ModExactIff(a: int, m: nat, outputIsModulus: bool)
    requires m > 0
    ensures ModResult(a, m, outputIsModulus) == a % m
            <==> Abs(a) % m == 0 || (!(outputIsModulus && a < 0) && (Abs(a) < m || Abs(a) % m < EffectiveDivisor(m)))
  {
    var n, r := Abs(a), Abs(a) % m;
    RemMagIs(n, m);
    QuotientRange(n, m);
    SignedRemainder(a, m, n / m, r);
    RemMagRange(n, m);
    hide RemMag, EffectiveDivisor;
    var s := RemMag(n, m);
    assert s == 0 && r != 0 ==> !(n < m || r < EffectiveDivisor(m));
  }

  /** 2^65536 + 1 is 1 modulo 2^65536, and comes out as 0. */
  lemma ModCounterexample(m: nat)
    requires m == Pow2(EXPONENT_MOD)
    ensures ModResult(m + 1, m, false) == 0 && (m + 1) % m == 1
  {
    DivisionCounterexample();
    hide EffectiveDivisor, Pow2;
    EffectiveDivisorBound(m);
    Pow2Mono(1, EXPONENT_MOD);
    DivModUnique(m + 1, m, 1, 1);
    RemMagIs(m + 1, m);
    assert 1 % EffectiveDivisor(m) == 0;
  }

  /** In particular wherever quotient and remainder are both right. */
  lemma ModIsRemainder(a: int, m: nat)
    requires m > 0 && !Misdivides(Abs(a), m)
    ensures ModResult(a, m, false) == a % m
    ensures a >= 0 ==> ModResult(a, m, true) == a % m
    ensures ModResult(a, m, true) == a % m <==> a >= 0 || a % m == 0
  {
    EffectiveDivisorBound(m);
    QuotientRange(Abs(a), m);
    if Abs(a) == m {
      DivModUnique(m, m, 1, 0);
    }
    SignedRemainder(a, m, Abs(a) / m, Abs(a) % m);
    hide RemMag, ModResult, EffectiveDivisor;
    ModExactIff(a, m, false);
    ModExactIff(a, m, true);
  }

  lemma SignedRemainder(a: int, m: nat, q: int, r: int)
    requires m > 0 && Abs(a) == q * m + r && 0 <= r < m
    ensures a % m == if a >= 0 || r == 0 then r else m - r
  {
    if a >= 0 {
      DivModUnique(a, m, q, r);
    } else if r == 0 {
      DivModUnique(a, m, -q, 0);
    } else {
      Distribute(-q, 1, m);
      DivModUnique(a, m, -q - 1, m - r);
    }
  }

  lemma ModResultRange(a: int, m: nat)
    requires m > 0
    ensures 0 <= ModResult(a, m, false)
  {
    RemMagRange(Abs(a), m);
  }

  lemma RemMagRange(a: nat, b: nat)
    requires b > 0
    ensures RemMag(a, b) < b
  {
    hide EffectiveDivisor;
    EffectiveDivisorBound(b);
    if a > b {
      QuotientRange(a, EffectiveDivisor(b));
    }
  }
}
