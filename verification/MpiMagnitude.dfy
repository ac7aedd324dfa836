/** Unsigned arithmetic on digit buffers: the `s_mp_` routines that work on magnitudes. */
module MpiMagnitude {
  import opened Arith
  import opened MpiDigits
  import opened MpiInt

  // ----- comparison

  /** `s_mp_cmp`: compare magnitudes from the top digit down; -1, 0 or 1. */
  method CmpMag(a: MpInt, b: MpInt) returns (c: int)
    requires a.Clamped() && b.Clamped()
    ensures c == Sign(a.Mag() - b.Mag())
  {
    if a.used > b.used {
      LongerIsGreater(a.dp, a.used, b.dp, b.used);
      return 1;
    } else if a.used < b.used {
      LongerIsGreater(b.dp, b.used, a.dp, a.used);
      return -1;
    }
    var ix: int := a.used - 1;
    while ix >= 0
      invariant -1 <= ix < a.used
      invariant forall i | ix < i < a.used :: a.dp[i] == b.dp[i]
    {
      if a.dp[ix] > b.dp[ix] {
        FirstDifference(a.dp, b.dp, ix, a.used);
        return 1;
      } else if a.dp[ix] < b.dp[ix] {
        FirstDifference(b.dp, a.dp, ix, a.used);
        return -1;
      }
      ix := ix - 1;
    }
    ValueFrame(a.dp, b.dp, a.used);
    return 0;
  }

  function Sign(x: int): int {
    if x < 0 then -1 else if x == 0 then 0 else 1
  }

  lemma LongerIsGreater(s: seq<Digit>, m: nat, t: seq<Digit>, n: nat)
    requires 0 < n < m <= |s| && n <= |t| && s[m - 1] != 0
    ensures Value(s, m) > Value(t, n)
  {
    ValueTop(s, m);
    MulMono(1, s[m - 1], Pow(m - 1));
    ValueBound(t, n);
    PowMono(n, m - 1);
  }

  lemma FirstDifference(s: seq<Digit>, t: seq<Digit>, k: nat, n: nat)
    requires k < n <= |s| && n <= |t| && s[k] > t[k]
    requires forall i | k < i < n :: s[i] == t[i]
    ensures Value(s, n) > Value(t, n)
  {
    ValueSuffix(s, t, k + 1, n);
    ValueTop(t, k + 1);
    ValueTop(s, k + 1);
    MulMono(t[k] + 1, s[k], Pow(k));
  }

  /** `s_mp_cmp_d` */
  method CmpDigit(a: MpInt, d: Digit) returns (c: int)
    requires a.Clamped()
    ensures c == Sign(a.Mag() - d)
  {
    assert Value(a.dp, 1) == a.dp[0] * Pow(0);
    if a.used > 1 {
      ValueTopNonzero(a.dp, a.used) by {
        ValueTop(a.dp, a.used);
        MulMono(1, a.dp[a.used - 1], Pow(a.used - 1));
      }
      PowMono(1, a.used - 1);
      return 1;
    }
    if a.dp[0] < d {
      return -1;
    } else if a.dp[0] > d {
      return 1;
    }
    return 0;
  }

  /** `mp_cmp_z` */
  method CmpZero(a: MpInt) returns (c: int)
    requires a.Valid()
    ensures c == Sign(a.Val())
  {
    if a.neg {
      return -1;
    }
    assert Value(a.dp, 1) == a.dp[0] * Pow(0);
    if a.used == 1 && a.dp[0] == 0 {
      return 0;
    }
    if a.used > 1 {
      ValueTop(a.dp, a.used);
      MulMono(1, a.dp[a.used - 1], Pow(a.used - 1));
    }
    return 1;
  }

  /** `mp_iseven`: the parity of the magnitude is that of its low digit. */
  method IsEven(a: MpInt) returns (e: bool)
    requires a.Shaped()
    ensures e <==> a.Mag() % 2 == 0
    ensures e <==> a.Val() % 2 == 0
  {
    ValueLowDigit(a.dp, a.used);
    e := a.dp[0] % 2 == 0;
  }

  // ----- addition and subtraction

  /** `n` digits of a sum are written, the digits of the second operand amounting to `c`. */
  ghost predicate Added(dp: seq<Digit>, v: seq<Digit>, n: nat, c: int, w: int)
    requires n <= |dp| && n <= |v|
  {
    Value(dp, n) + w * Pow(n) == Value(v, n) + c
  }

  lemma AddedStep(dp: seq<Digit>, v: seq<Digit>, n: nat, c: int, w: int, e: int, lo: Digit, hi: int)
    requires n < |dp| && n < |v|
    requires Added(dp, v, n, c, w)
    requires w + v[n] + e == lo + RADIX * hi
    ensures Added(dp[n := lo], v, n + 1, c + e * Pow(n), hi)
  {
    ValueFrame(dp[n := lo], dp, n);
    AddedArith(w, v[n], e, lo, hi, Pow(n));
  }

  lemma AddedArith(w: int, x: int, e: int, lo: int, hi: int, p: int)
    requires w + x + e == lo + RADIX * hi
    ensures lo * p + hi * (RADIX * p) == w * p + x * p + e * p
  {
    CarryStep(w + x + e, lo, hi, p);
    Distribute(w + x, e, p);
    Distribute(w, x, p);
  }

  lemma AddedEnd(dp: seq<Digit>, v: seq<Digit>, n: nat, m: nat, c: int)
    requires n <= m <= |dp| && m <= |v|
    requires Added(dp, v, n, c, 0)
    requires forall i | n <= i < m :: dp[i] == v[i]
    ensures Value(dp, m) == Value(v, m) + c
  {
    ValueSuffix(dp, v, n, m);
  }

  lemma AddedSpill(dp: seq<Digit>, v: seq<Digit>, n: nat, c: int, w: Digit)
    requires n < |dp| && n <= |v|
    requires Added(dp, v, n, c, w)
    ensures Value(dp[n := w], n + 1) == Value(v, n) + c
  {
    ValueFrame(dp[n := w], dp, n);
  }

  /** The first loop of `s_mp_add`, over the digits of `b`; returns the carry. */
  method AddDigits(a: MpInt, b: MpInt) returns (w: int)
    requires a.Shaped() && b.Shaped() && b.used <= a.used
    modifies a`dp
    ensures |a.dp| == |old(a.dp)| && 0 <= w <= 1
    ensures forall i | old(b.used) <= i < |a.dp| :: a.dp[i] == old(a.dp)[i]
    ensures Added(a.dp, old(a.dp), old(b.used), Value(old(b.dp), old(b.used)), w)
  {
    ghost var bv, v := b.dp, a.dp;
    var used := b.used;
    var ix := 0;
    w := 0;
    while ix < used
      invariant 0 <= ix <= used == b.used <= a.used <= |a.dp| == |v| && 0 <= w <= 1
      invariant forall i | ix <= i < |a.dp| :: a.dp[i] == v[i]
      invariant used <= |b.dp| && forall i | ix <= i < used :: b.dp[i] == bv[i]
      invariant Added(a.dp, v, ix, Value(bv, ix), w)
    {
      var s := Word(w + a.dp[ix] + b.dp[ix]);
      AddedStep(a.dp, v, ix, Value(bv, ix), w, bv[ix], Accum(s), CarryOut(s));
      a.dp := a.dp[ix := Accum(s)];
      w := CarryOut(s);
      ix := ix + 1;
    }
  }

  /** The second loop of `s_mp_add` and the one of `s_mp_add_d`: carry into the digits from `start` up. */
  method PropagateCarry(a: MpInt, start: nat, carry: int, ghost v: seq<Digit>, ghost c: int)
    returns (ix: nat, w: int)
    requires a.Shaped() && start <= a.used && |a.dp| == |v| && 0 <= carry <= 1
    requires forall i | start <= i < |v| :: a.dp[i] == v[i]
    requires Added(a.dp, v, start, c, carry)
    modifies a`dp
    ensures ix <= a.used && |a.dp| == |v| && 0 <= w <= 1 && (w != 0 ==> ix == a.used)
    ensures forall i | ix <= i < |v| :: a.dp[i] == v[i]
    ensures Added(a.dp, v, ix, c, w)
  {
    ix, w := start, carry;
    while w != 0 && ix < a.used
      invariant start <= ix <= a.used <= |a.dp| == |v| && 0 <= w <= 1
      invariant forall i | ix <= i < |v| :: a.dp[i] == v[i]
      invariant Added(a.dp, v, ix, c, w)
    {
      var s := Word(w + a.dp[ix]);
      AddedStep(a.dp, v, ix, c, w, 0, Accum(s), CarryOut(s));
      a.dp := a.dp[ix := Accum(s)];
      w := CarryOut(s);
      ix := ix + 1;
    }
  }

  /** The end of both additions: a carry out of the top takes a new digit. */
  method StoreCarry(a: MpInt, ix: nat, w: int, ghost v: seq<Digit>, ghost c: int)
    requires a.used <= |a.dp| == |v| && 0 < a.used && ix <= a.used && 0 <= w <= 1 && (w != 0 ==> ix == a.used)
    requires forall i | ix <= i < |v| :: a.dp[i] == v[i]
    requires forall i | a.used <= i < |v| :: v[i] == 0
    requires Added(a.dp, v, ix, c, w)
    modifies a`dp, a`used
    ensures a.Shaped() && a.Mag() == Value(v, old(a.used)) + c
    ensures a.used == old(a.used) + w && (w != 0 ==> a.dp[a.used - 1] != 0)
  {
    if w != 0 {
      ghost var was := a.dp;
      a.Pad(a.used + 1);
      ValueFrame(a.dp, was, ix);
      AddedSpill(a.dp, v, ix, c, w);
      a.dp := a.dp[ix := w];
    } else {
      AddedEnd(a.dp, v, ix, a.used, c);
    }
  }

  /** `s_mp_add`: |a| + |b| in place; `b` may be `a` itself. */
  method AddMag(a: MpInt, b: MpInt)
    requires a.Shaped() && b.Shaped()
    modifies a`dp, a`used
    ensures a.Shaped() && a.Mag() == old(a.Mag()) + old(b.Mag())
    ensures old(a.Clamped()) && old(b.Clamped()) ==> a.Clamped()
  {
    hide Value, Pow;
    if b.used > a.used {
      a.Pad(b.used);
    }
    ghost var v, bu, c := a.dp, b.used, b.Mag();
    var start := b.used;
    var w := AddDigits(a, b);
    var ix;
    ix, w := PropagateCarry(a, start, w, v, c);
    StoreCarry(a, ix, w, v, c);
    if w == 0 {
      SumClamped(old(a.dp), old(a.used), old(b.dp), old(b.used), a.dp, a.used);
    }
  }

  /** A sum that did not spill has as many digits as its longer operand. */
  lemma SumClamped(s: seq<Digit>, m: nat, t: seq<Digit>, n: nat, r: seq<Digit>, u: nat)
    requires 0 < m <= |s| && 0 < n <= |t| && u == (if n > m then n else m) <= |r|
    requires Value(r, u) == Value(s, m) + Value(t, n)
    ensures (m > 1 ==> s[m - 1] != 0) && (n > 1 ==> t[n - 1] != 0) && u > 1 ==> r[u - 1] != 0
  {
    if (m > 1 ==> s[m - 1] != 0) && (n > 1 ==> t[n - 1] != 0) && u > 1 {
      if n > m {
        ValueTop(t, n);
        MulMono(1, t[n - 1], Pow(n - 1));
      } else {
        ValueTop(s, m);
        MulMono(1, s[m - 1], Pow(m - 1));
      }
      TopFromValue(r, u);
    }
  }

  /** `s_mp_add_d`: |a| + d in place. */
  method AddDigit(a: MpInt, d: Digit)
    requires a.Shaped()
    modifies a`dp, a`used
    ensures a.Shaped() && a.Mag() == old(a.Mag()) + d
    ensures old(a.Clamped()) ==> a.Clamped()
  {
    ghost var v := a.dp;
    var s := Word(a.dp[0] + d);
    AddedStep(v, v, 0, 0, 0, d, Accum(s), CarryOut(s));
    a.dp := a.dp[0 := Accum(s)];
    var ix, w := PropagateCarry(a, 1, CarryOut(s), v, d);
    StoreCarry(a, ix, w, v, d);
    if w == 0 {
      assert Value([d], 1) == d * Pow(0);
      SumClamped(v, a.used, [d], 1, a.dp, a.used);
    }
  }

  /** `n` digits of a difference are written, the digits taken away amounting to `c`, with borrow `w`. */
  ghost predicate Subtracted(dp: seq<Digit>, v: seq<Digit>, n: nat, c: int, w: int)
    requires n <= |dp| && n <= |v|
  {
    Value(dp, n) + c == Value(v, n) + w * Pow(n)
  }

  lemma SubtractedStep(dp: seq<Digit>, v: seq<Digit>, n: nat, c: int, w: int, e: int, lo: Digit, hi: int)
    requires n < |dp| && n < |v|
    requires Subtracted(dp, v, n, c, w)
    requires RADIX + v[n] - w - e == lo + RADIX * hi
    ensures Subtracted(dp[n := lo], v, n + 1, c + e * Pow(n), 1 - hi)
  {
    ValueFrame(dp[n := lo], dp, n);
    SubtractedArith(w, v[n], e, lo, hi, Pow(n));
  }

  lemma SubtractedArith(w: int, x: int, e: int, lo: int, hi: int, p: int)
    requires RADIX + x - w - e == lo + RADIX * hi
    ensures lo * p + w * p + e * p == x * p + (1 - hi) * (RADIX * p)
  {
    AddedArith(lo, w, e, x, 1 - hi, p);
  }

  lemma SubtractedEnd(dp: seq<Digit>, v: seq<Digit>, n: nat, m: nat, c: int)
    requires n <= m <= |dp| && m <= |v|
    requires Subtracted(dp, v, n, c, 0)
    requires forall i | n <= i < m :: dp[i] == v[i]
    ensures Subtracted(dp, v, m, c, 0)
  {
    ValueSuffix(dp, v, n, m);
  }

  /** A borrow out of the top means that more was taken away than was there. */
  lemma BorrowMeansLess(dp: seq<Digit>, v: seq<Digit>, n: nat, c: int, w: int)
    requires n <= |dp| && n <= |v| && 0 <= w <= 1
    requires Subtracted(dp, v, n, c, w)
    ensures w == 0 ==> Value(dp, n) == Value(v, n) - c && c <= Value(v, n)
    ensures w == 1 ==> Value(dp, n) == Value(v, n) - c + Pow(n) && Value(v, n) < c
  {
    hide Value, Pow;
    ValueBound(dp, n);
    if w == 0 {
    } else {
      assert w * Pow(n) == Pow(n);
    }
  }

  /** The first loop of `s_mp_sub`, over the digits of `b`; returns the borrow. */
  method SubDigits(a: MpInt, b: MpInt) returns (w: int)
    requires a.Shaped() && b.Shaped() && b.used <= a.used
    modifies a`dp
    ensures |a.dp| == |old(a.dp)| && 0 <= w <= 1
    ensures forall i | old(b.used) <= i < |a.dp| :: a.dp[i] == old(a.dp)[i]
    ensures Subtracted(a.dp, old(a.dp), old(b.used), Value(old(b.dp), old(b.used)), w)
  {
    ghost var bv, v := b.dp, a.dp;
    var used := b.used;
    var ix := 0;
    w := 0;
    while ix < used
      invariant 0 <= ix <= used == b.used <= a.used <= |a.dp| == |v| && 0 <= w <= 1
      invariant forall i | ix <= i < |a.dp| :: a.dp[i] == v[i]
      invariant used <= |b.dp| && forall i | ix <= i < used :: b.dp[i] == bv[i]
      invariant Subtracted(a.dp, v, ix, Value(bv, ix), w)
    {
      var s := Word(RADIX + a.dp[ix] - w - b.dp[ix]);
      SubtractedStep(a.dp, v, ix, Value(bv, ix), w, bv[ix], Accum(s), CarryOut(s));
      a.dp := a.dp[ix := Accum(s)];
      w := if CarryOut(s) != 0 then 0 else 1;
      ix := ix + 1;
    }
  }

  /**
   * `s_mp_sub`: |a| - |b| in place.  It reports MP_RANGE exactly when |b| > |a|, and then leaves the
   * difference modulo RADIX^used.
   */
  method SubMag(a: MpInt, b: MpInt) returns (res: Err)
    requires a.Shaped() && b.Shaped() && b.used <= a.used
    modifies a
    ensures a.Valid() && a.neg == (old(a.neg) && a.Mag() > 0)
    ensures res == (if old(a.Mag()) >= old(b.Mag()) then Okay else Range)
    ensures a.Mag() == old(a.Mag()) - old(b.Mag()) + (if res.Okay? then 0 else Pow(old(a.used)))
  {
    hide Value, Pow;
    ghost var v, bv, bu := a.dp, b.dp, b.used;
    ghost var c := Value(bv, bu);
    var start := b.used;
    var w := SubDigits(a, b);
    var ix := start;
    while ix < a.used
      invariant bu <= ix <= a.used == old(a.used) <= |a.dp| == |v| && 0 <= w <= 1 && a.neg == old(a.neg)
      invariant forall i | ix <= i < |a.dp| :: a.dp[i] == v[i]
      invariant Subtracted(a.dp, v, ix, c, w)
    {
      var s := Word(RADIX + a.dp[ix] - w);
      SubtractedStep(a.dp, v, ix, c, w, 0, Accum(s), CarryOut(s));
      a.dp := a.dp[ix := Accum(s)];
      w := if CarryOut(s) != 0 then 0 else 1;
      ix := ix + 1;
    }
    BorrowMeansLess(a.dp, v, ix, c, w);
    a.Clamp();
    res := if w != 0 then Range else Okay;
  }

  /** `s_mp_sub_d`: |a| - d in place; MP_RANGE exactly when d > |a|. */
  method SubDigit(a: MpInt, d: Digit) returns (res: Err)
    requires a.Shaped()
    modifies a
    ensures a.Valid() && a.neg == (old(a.neg) && a.Mag() > 0)
    ensures res == (if old(a.Mag()) >= d then Okay else Range)
    ensures a.Mag() == old(a.Mag()) - d + (if res.Okay? then 0 else Pow(old(a.used)))
  {
    ghost var v := a.dp;
    var s := Word(RADIX + a.dp[0] - d);
    SubtractedStep(v, v, 0, 0, 0, d, Accum(s), CarryOut(s));
    a.dp := a.dp[0 := Accum(s)];
    var w := if CarryOut(s) != 0 then 0 else 1;
    var ix := 1;
    while w != 0 && ix < a.used
      invariant 1 <= ix <= a.used == old(a.used) <= |a.dp| == |v| && 0 <= w <= 1 && a.neg == old(a.neg)
      invariant forall i | ix <= i < |a.dp| :: a.dp[i] == v[i]
      invariant Subtracted(a.dp, v, ix, d, w)
    {
      s := Word(RADIX + a.dp[ix] - w);
      SubtractedStep(a.dp, v, ix, d, w, 0, Accum(s), CarryOut(s));
      a.dp := a.dp[ix := Accum(s)];
      w := if CarryOut(s) != 0 then 0 else 1;
      ix := ix + 1;
    }
    if w == 0 {
      SubtractedEnd(a.dp, v, ix, a.used, d);
    }
    BorrowMeansLess(a.dp, v, a.used, d, w);
    a.Clamp();
    res := if w != 0 then Range else Okay;
  }

  // ----- multiplication

  /** The inner step shared by the products: x * y + k + t never leaves a word. */
  method MulStep(x: int, y: int, k: int, t: int) returns (lo: Digit, hi: int)
    requires 0 <= x < RADIX && 0 <= y < RADIX && 0 <= k < RADIX && 0 <= t < RADIX
    ensures x * y + k + t == lo + RADIX * hi && 0 <= hi < RADIX
  {
    MulMono(x, RADIX - 1, y);
    MulNonNeg(x, y);
    var w := Word(x * y + k + t);
    lo, hi := Accum(w), CarryOut(w);
  }

  /** `n` digits of v0 + d * v * RADIX^p have been written above position p. */
  ghost predicate RowDone(t: seq<Digit>, t0: seq<Digit>, v: seq<Digit>, p: nat, n: nat, d: int, k: int)
    requires p + n <= |t| && p + n <= |t0| && n <= |v|
  {
    Value(t, p + n) + k * Pow(p + n) == Value(t0, p + n) + d * Value(v, n) * Pow(p)
  }

  lemma RowStep(t: seq<Digit>, t0: seq<Digit>, v: seq<Digit>, p: nat, n: nat, d: int, k: int, lo: Digit, hi: int)
    requires p + n < |t| && p + n < |t0| && n < |v|
    requires RowDone(t, t0, v, p, n, d, k)
    requires d * v[n] + k + t0[p + n] == lo + RADIX * hi
    ensures RowDone(t[p + n := lo], t0, v, p, n + 1, d, hi)
  {
    ValueFrame(t[p + n := lo], t, p + n);
    PowAdd(p, n);
    RowArith(d, v[n], k, t0[p + n], lo, hi, Pow(p), Pow(n), Pow(p + n), Value(v, n));
  }

  lemma RowArith(d: int, y: int, k: int, t: int, lo: int, hi: int, p: int, n: int, pn: int, h: int)
    requires pn == p * n
    requires d * y + k + t == lo + RADIX * hi
    ensures d * (h + y * n) * p == d * h * p + (lo * pn + hi * (RADIX * pn)) - k * pn - t * pn
  {
    AddedArith(d * y, k, t, lo, hi, pn);
    calc {
      d * (h + y * n) * p;
      { Distribute(h, y * n, d); Distribute(d * h, d * (y * n), p); }
      d * h * p + d * (y * n) * p;
      { Assoc(d, y * n, p); Assoc(y, n, p); Assoc(d, y, n * p); }
      d * h * p + (d * y) * pn;
    }
  }

  /** Writing the last carry of a row above it completes the row. */
  lemma RowEnd(t: seq<Digit>, t0: seq<Digit>, v: seq<Digit>, p: nat, n: nat, d: int, k: Digit)
    requires p + n < |t| && p + n < |t0| && n <= |v|
    requires RowDone(t, t0, v, p, n, d, k) && t0[p + n] == 0
    ensures Value(t[p + n := k], p + n + 1) == Value(t0, p + n + 1) + d * Value(v, n) * Pow(p)
  {
    ValueFrame(t[p + n := k], t, p + n);
  }

  /** One row of `s_mp_mul`: t += d * |a| * RADIX^p, for a zero digit above the row. */
  method MulRow(t: MpInt, a: MpInt, p: nat, d: Digit)
    requires t != a && a.Shaped() && t.used <= |t.dp| && p + a.used < t.used
    requires t.dp[p + a.used] == 0
    modifies t`dp
    ensures |t.dp| == |old(t.dp)|
    ensures forall i | p + a.used < i < |t.dp| :: t.dp[i] == old(t.dp)[i]
    ensures Value(t.dp, p + a.used + 1) == Value(old(t.dp), p + a.used + 1) + d * a.Mag() * Pow(p)
  {
    ghost var t0 := t.dp;
    var jx, k := 0, 0;
    assert RowDone(t.dp, t0, a.dp, p, 0, d, 0);
    while jx < a.used
      invariant 0 <= jx <= a.used && 0 <= k < RADIX && |t.dp| == |t0| && t.used == old(t.used)
      invariant forall i | p + jx <= i < |t.dp| :: t.dp[i] == t0[i]
      invariant RowDone(t.dp, t0, a.dp, p, jx, d, k)
    {
      var lo, hi := MulStep(d, a.dp[jx], k, t.dp[p + jx]);
      RowStep(t.dp, t0, a.dp, p, jx, d, k, lo, hi);
      t.dp := t.dp[p + jx := lo];
      k := hi;
      jx := jx + 1;
    }
    RowEnd(t.dp, t0, a.dp, p, jx, d, k);
    t.dp := t.dp[p + jx := k];
  }

  /** The product of `av` with the `n` low digits of `bv` has been written. */
  ghost predicate ProductRows(t: seq<Digit>, av: seq<Digit>, u: nat, bv: seq<Digit>, n: nat)
    requires n + u <= |t| && u <= |av| && n <= |bv|
  {
    Value(t, n + u) == Value(av, u) * Value(bv, n)
  }

  lemma ProductRowsStep(t: seq<Digit>, t': seq<Digit>, av: seq<Digit>, u: nat, bv: seq<Digit>, n: nat)
    requires n + u < |t| && n + u < |t'| && u <= |av| && n < |bv| && t[n + u] == 0
    requires ProductRows(t, av, u, bv, n)
    requires Value(t', n + u + 1) == Value(t, n + u + 1) + bv[n] * Value(av, u) * Pow(n)
    ensures ProductRows(t', av, u, bv, n + 1)
  {
    ProductRow(Value(av, u), Value(bv, n), bv[n], Pow(n));
  }

  lemma ProductRowsSkip(t: seq<Digit>, av: seq<Digit>, u: nat, bv: seq<Digit>, n: nat)
    requires n + u < |t| && u <= |av| && n < |bv| && t[n + u] == 0 && bv[n] == 0
    requires ProductRows(t, av, u, bv, n)
    ensures ProductRows(t, av, u, bv, n + 1)
  {
  }

  lemma ProductRow(a: int, h: int, d: int, p: int)
    ensures a * (h + d * p) == a * h + d * a * p
  {
    Distribute(h, d * p, a);
    Assoc(a, d, p);
  }

  /** `s_mp_mul`: |a| * |b| in place; `b` may be `a` itself. */
  method MulMag(a: MpInt, b: MpInt)
    requires a.Shaped() && b.Shaped()
    modifies a
    ensures a.Valid() && !a.neg && a.Mag() == old(a.Mag()) * old(b.Mag())
  {
    var ua, ub := a.used, b.used;
    var tmp := new MpInt(ua + ub);
    tmp.used := ua + ub;
    assert ProductRows(tmp.dp, a.dp, ua, b.dp, 0) by { ValueZeros(tmp.dp, 0, ua); }
    hide Value, Pow, ProductRows;
    var ix := 0;
    while ix < ub
      invariant 0 <= ix <= ub && tmp.used == ua + ub == |tmp.dp| && !tmp.neg
      invariant forall i | ix + ua <= i < |tmp.dp| :: tmp.dp[i] == 0
      invariant a.Shaped() && a.used == ua && a.dp == old(a.dp) && b.Shaped() && b.used == ub && b.dp == old(b.dp)
      invariant ProductRows(tmp.dp, a.dp, ua, b.dp, ix)
    {
      if b.dp[ix] == 0 {
        ProductRowsSkip(tmp.dp, a.dp, ua, b.dp, ix);
      } else {
        ghost var was := tmp.dp;
        MulRow(tmp, a, ix, b.dp[ix]);
        ProductRowsStep(was, tmp.dp, a.dp, ua, b.dp, ix);
      }
      ix := ix + 1;
    }
    ProductRowsEnd(tmp.dp, a.dp, ua, b.dp, ub);
    tmp.Clamp();
    MpInt.Exch(tmp, a);
  }

  lemma ProductRowsEnd(t: seq<Digit>, av: seq<Digit>, u: nat, bv: seq<Digit>, n: nat)
    requires n + u <= |t| && u <= |av| && n <= |bv|
    requires ProductRows(t, av, u, bv, n)
    ensures Value(t, u + n) == Value(av, u) * Value(bv, n)
  {
  }

  /** `n` digits of d * v are written, with carry `k`. */
  ghost predicate Scaled(dp: seq<Digit>, v: seq<Digit>, n: nat, d: int, k: int)
    requires n <= |dp| && n <= |v|
  {
    Value(dp, n) + k * Pow(n) == Value(v, n) * d
  }

  lemma ScaledStep(dp: seq<Digit>, v: seq<Digit>, n: nat, d: int, k: int, lo: Digit, hi: int)
    requires n < |dp| && n < |v|
    requires Scaled(dp, v, n, d, k)
    requires v[n] * d + k + 0 == lo + RADIX * hi
    ensures Scaled(dp[n := lo], v, n + 1, d, hi)
  {
    ValueFrame(dp[n := lo], dp, n);
    AddedArith(0, v[n] * d, k, lo, hi, Pow(n));
    ScaledArith(Value(v, n), v[n], Pow(n), d);
  }

  lemma ScaledArith(h: int, x: int, p: int, d: int)
    ensures (h + x * p) * d == h * d + x * d * p
  {
    Distribute(h, x * p, d);
    Assoc(x, p, d);
    Assoc(x, d, p);
  }

  lemma ScaledEnd(dp: seq<Digit>, v: seq<Digit>, n: nat, d: int, k: Digit)
    requires n <= |dp| && n <= |v| && Scaled(dp, v, n, d, k)
    ensures k == 0 ==> Value(dp, n) == Value(v, n) * d
    ensures n < |dp| ==> Value(dp[n := k], n + 1) == Value(v, n) * d
    ensures k != 0 ==> Value(v, n) * d >= Pow(n)
  {
    if n < |dp| {
      ValueFrame(dp[n := k], dp, n);
    }
    if k != 0 {
      MulMono(1, k, Pow(n));
    }
  }

  /**
   * What `s_mp_mul_d` needs of its caller: it pads only when the top digit's own product spills, so any
   * other carry out of the top must find a free digit in the buffer.
   */
  ghost predicate RoomForProduct(dp: seq<Digit>, used: nat, d: Digit)
    requires 0 < used <= |dp|
  {
    used < |dp| || dp[used - 1] * d >= RADIX || Value(dp, used) * d < Pow(used)
  }

  /** Does `top * d` spill into a second digit? */
  method TopSpills(top: Digit, d: Digit) returns (spills: bool)
    ensures spills <==> top * d >= RADIX
  {
    MulMono(top, RADIX - 1, d);
    MulNonNeg(top, d);
    var w := Word(top * d);
    assert w == Accum(w) + RADIX * CarryOut(w);
    spills := CarryOut(w) != 0;
  }

  /** The loop of `s_mp_mul_d` over the `n` original digits; returns the carry out. */
  method ScaleDigits(a: MpInt, n: nat, d: Digit) returns (k: Digit)
    requires n <= |a.dp|
    modifies a`dp
    ensures |a.dp| == |old(a.dp)| && Scaled(a.dp, old(a.dp), n, d, k)
    ensures forall i | n <= i < |a.dp| :: a.dp[i] == old(a.dp)[i]
  {
    ghost var v := a.dp;
    var ix := 0;
    k := 0;
    while ix < n
      invariant 0 <= ix <= n <= |a.dp| == |v|
      invariant forall i | ix <= i < |a.dp| :: a.dp[i] == v[i]
      invariant Scaled(a.dp, v, ix, d, k)
    {
      var lo, hi := MulStep(a.dp[ix], d, k, 0);
      ScaledStep(a.dp, v, ix, d, k, lo, hi);
      a.dp := a.dp[ix := lo];
      k := hi;
      ix := ix + 1;
    }
  }

  /** `s_mp_mul_d`: |a| * d in place. */
  method MulDigit(a: MpInt, d: Digit)
    requires a.Clamped() && RoomForProduct(a.dp, a.used, d)
    modifies a
    ensures a.Valid() && a.Mag() == old(a.Mag()) * d
    ensures a.neg == (old(a.neg) && a.Mag() > 0)
    ensures |a.dp| >= old(|a.dp|)
  {
    hide Value, Pow;
    var max := a.used;
    var spills := TopSpills(a.dp[max - 1], d);
    if spills {
      a.Pad(max + 1);
    }
    ghost var v := a.dp;
    ValueFrame(v, old(a.dp), max);
    var k := ScaleDigits(a, max, d);
    ScaledEnd(a.dp, v, max, d, k);
    if k != 0 {
      a.dp := a.dp[max := k];
      a.used := max + 1;
    } else {
      ValueZeros(a.dp, max, a.used);
    }
    a.Clamp();
  }
}
