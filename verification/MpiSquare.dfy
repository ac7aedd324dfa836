/** The dedicated squaring loop, which has to notice the overflow of its own words. */
module MpiSquare {
  import opened Arith
  import opened MpiDigits
  import opened MpiInt
  import opened MpiMagnitude

  /** The carry between inner steps needs 17 bits; this is the largest that occurs. */
  const CARRY_MAX := 2 * RADIX - 2

  /**
   * The inner step of `s_mp_sqr`: 2 x y + t + k, where both the doubling and the addition may leave the
   * 32-bit word.  The flag and the wide carry together lose nothing.
   */
  method SquareStep(x: Digit, y: Digit, t: Digit, k: int) returns (lo: Digit, hi: int)
    requires 0 <= k <= CARRY_MAX
    ensures 2 * (x * y) + t + k == lo + RADIX * hi && 0 <= hi <= CARRY_MAX
  {
    var p := x * y;
    DigitProduct(x, y, p);
    lo, hi := DoubleAndAdd(p, t, k);
  }

  lemma DigitProduct(x: int, y: int, p: int)
    requires 0 <= x < RADIX && 0 <= y < RADIX && p == x * y
    ensures 0 <= p <= (RADIX - 1) * (RADIX - 1)
  {
    MulMono(x, RADIX - 1, y);
    MulNonNeg(x, y);
  }

  /** The word arithmetic of the step, on the product `p` of two digits. */
  method DoubleAndAdd(p: int, t: Digit, k: int) returns (lo: Digit, hi: int)
    requires 0 <= p <= (RADIX - 1) * (RADIX - 1) && 0 <= k <= CARRY_MAX
    ensures 2 * p + t + k == lo + RADIX * hi && 0 <= hi <= CARRY_MAX
  {
    var w := Word(p);
    var u := w / 0x8000_0000;
    w := Word(w * 2);
    var v := Word(t + k);
    if WORD_MOD - 1 - v < w {
      u := 1;
    }
    w := Word(w + v);
    lo, hi := Accum(w), CarryOut(w) + u * RADIX;
  }

  /** What row `i` of the square adds, once the columns below `j` have been visited. */
  ghost function SquareRow(v: seq<Digit>, i: nat, j: nat): int
    requires i < j <= |v|
  {
    var dp := v[i] * Pow(i);
    dp * (dp + 2 * (Value(v, j) - Value(v, i + 1)))
  }

  ghost predicate SquareRowDone(t: seq<Digit>, t0: seq<Digit>, v: seq<Digit>, i: nat, j: nat, k: int)
    requires i < j <= |v| && i + j <= |t| && i + j <= |t0|
  {
    Value(t, i + j) + k * Pow(i + j) == Value(t0, i + j) + SquareRow(v, i, j)
  }

  lemma SquareRowStart(t0: seq<Digit>, v: seq<Digit>, i: nat, lo: Digit, hi: int, x: int)
    requires i < |v| && i + i < |t0| && x == v[i]
    requires t0[i + i] + x * x == lo + RADIX * hi
    ensures SquareRowDone(t0[i + i := lo], t0, v, i, i + 1, hi)
  {
    ValueFrame(t0[i + i := lo], t0, i + i);
    PowAdd(i, i);
    SquareStartArith(t0[i + i], x, Pow(i), Pow(i + i), lo, hi);
  }

  lemma SquareStartArith(t: int, d: int, p: int, pp: int, lo: int, hi: int)
    requires pp == p * p && t + d * d == lo + RADIX * hi
    ensures lo * pp + hi * (RADIX * pp) == t * pp + (d * p) * (d * p + 2 * 0)
  {
    CarryStep(t + d * d, lo, hi, pp);
    Distribute(t, d * d, pp);
    Assoc(d, d, pp);
    Assoc(d, p, p);
    Assoc(d, p, d * p);
    Assoc(p, d, p);
    Assoc(d, p, p);
  }

  lemma SquareRowStep(t: seq<Digit>, t0: seq<Digit>, v: seq<Digit>, i: nat, j: nat, k: int, lo: Digit, hi: int, x: int)
    requires i < j < |v| && i + j < |t| && i + j < |t0| && x == v[i]
    requires SquareRowDone(t, t0, v, i, j, k)
    requires 2 * (x * v[j]) + t0[i + j] + k == lo + RADIX * hi
    ensures SquareRowDone(t[i + j := lo], t0, v, i, j + 1, hi)
  {
    ValueFrame(t[i + j := lo], t, i + j);
    PowAdd(i, j);
    SquareColumnArith(x, Pow(i), v[j], Pow(j), Value(v, j) - Value(v, i + 1), Pow(i + j), t0[i + j], k, lo, hi);
  }

  lemma SquareColumnArith(d: int, p: int, y: int, q: int, h: int, pq: int, t: int, k: int, lo: int, hi: int)
    requires pq == p * q && 2 * (d * y) + t + k == lo + RADIX * hi
    ensures (d * p) * (d * p + 2 * (h + y * q)) ==
            (d * p) * (d * p + 2 * h) + (lo * pq + hi * (RADIX * pq)) - t * pq - k * pq
  {
    var dp := d * p;
    AddedArith(2 * (d * y), t, k, lo, hi, pq);
    Distribute(dp + 2 * h, 2 * (y * q), dp);
    calc {
      dp * (2 * (y * q));
      { Assoc(dp, 2, y * q); Assoc(2, dp, y * q); }
      2 * (dp * (y * q));
      { Assoc(d, p, y * q); Assoc(p, y, q); Assoc(y, p, q); Assoc(d, y, p * q); }
      2 * ((d * y) * (p * q));
      { Assoc(2, d * y, p * q); }
      (2 * (d * y)) * pq;
    }
  }

  /** The part of the square that the rows below `i` make up. */
  ghost function SquareSum(v: seq<Digit>, u: nat, i: nat): int
    requires i <= u <= |v|
  {
    Value(v, i) * (2 * Value(v, u) - Value(v, i))
  }

  lemma SquareSumStep(v: seq<Digit>, u: nat, i: nat)
    requires i < u <= |v|
    ensures SquareSum(v, u, i + 1) == SquareSum(v, u, i) + SquareRow(v, i, u)
    ensures v[i] == 0 ==> SquareSum(v, u, i + 1) == SquareSum(v, u, i)
  {
    SquareSumArith(Value(v, i), v[i] * Pow(i), Value(v, u));
  }

  lemma SquareSumArith(h: int, x: int, a: int)
    ensures (h + x) * (2 * a - (h + x)) == h * (2 * a - h) + x * (x + 2 * (a - (h + x)))
  {
    Distribute(h, x, 2 * a - (h + x));
    Distribute(2 * a - h, x, h);
    Distribute(2 * a - (h + x), -h, x);
  }

  /** No partial sum reaches RADIX^(2 u), so a carry never leaves the buffer. */
  lemma SquareFits(v: seq<Digit>, u: nat)
    requires u <= |v|
    ensures SquareSum(v, u, u) == Value(v, u) * Value(v, u) < Pow(2 * u)
  {
    var a := Value(v, u);
    ValueBound(v, u);
    PowAdd(u, u);
    MulMono(a, Pow(u) - 1, a);
    MulMono(a, Pow(u), Pow(u) - 1);
    Distribute(Pow(u), 1, Pow(u));
  }

  /** Entering row `i`, every digit above i + u is still zero and digit i + u is 0 or 1. */
  ghost predicate SquareFrontier(t: seq<Digit>, u: nat, i: nat)
    requires i <= u && |t| == 2 * u
  {
    && (i < u ==> t[i + u] <= 1)
    && forall n | i + u < n < 2 * u :: t[n] == 0
  }

  /** The columns of row `i`; returns the wide carry out of them. */
  method SquareColumns(t: MpInt, a: MpInt, i: nat) returns (k: int)
    requires t != a && a.Shaped() && i < a.used && |t.dp| == 2 * a.used
    modifies t`dp
    ensures |t.dp| == |old(t.dp)| && 0 <= k <= CARRY_MAX
    ensures forall n | i + a.used <= n < |t.dp| :: t.dp[n] == old(t.dp)[n]
    ensures SquareRowDone(t.dp, old(t.dp), a.dp, i, a.used, k)
  {
    ghost var t0 := t.dp;
    var x: int := a.dp[i];
    var lo, hi := MulStep(x, x, 0, t.dp[i + i]);
    SquareRowStart(t0, a.dp, i, lo, hi, x);
    t.dp := t.dp[i + i := lo];
    k := hi;
    var jx := i + 1;
    while jx < a.used
      invariant i < jx <= a.used && 0 <= k <= CARRY_MAX && |t.dp| == |t0|
      invariant forall n | i + jx <= n < |t.dp| :: t.dp[n] == t0[n]
      invariant SquareRowDone(t.dp, t0, a.dp, i, jx, k)
    {
      lo, hi := SquareStep(x, a.dp[jx], t.dp[i + jx], k);
      SquareRowStep(t.dp, t0, a.dp, i, jx, k, lo, hi, x);
      t.dp := t.dp[i + jx := lo];
      k := hi;
      jx := jx + 1;
    }
  }

  /** Adding the wide carry to digit i + u leaves at most one unit for the digit above. */
  lemma SquareTopDigit(t: seq<Digit>, t0: seq<Digit>, v: seq<Digit>, u: nat, i: nat, k: int, s: int)
    requires i < u <= |v| && |t| == 2 * u == |t0|
    requires SquareRowDone(t, t0, v, i, u, k) && t[i + u] == t0[i + u] <= 1 && 0 <= k <= CARRY_MAX
    requires s == t0[i + u] + k
    ensures 0 <= s < 2 * RADIX
    ensures var w := t[i + u := s % RADIX];
            Value(w, i + u + 1) + s / RADIX * Pow(i + u + 1) == Value(t0, i + u + 1) + SquareRow(v, i, u)
  {
    var lo, hi := s % RADIX, s / RADIX;
    ValueFrame(t[i + u := lo], t, i + u);
    CarryStep(s, lo, hi, Pow(i + u));
    Distribute(t0[i + u], k, Pow(i + u));
  }

  /** In the last row nothing is carried: the sum would not be a square of u digits. */
  lemma SquareCarryStays(w: seq<Digit>, v: seq<Digit>, u: nat, i: nat, k: int)
    requires i < u <= |v| && |w| == 2 * u && 0 <= k <= 1
    requires Value(w, i + u + 1) + k * Pow(i + u + 1) == SquareSum(v, u, i + 1)
    ensures k == 1 ==> i + u + 1 < 2 * u
  {
    if k == 1 && i + u + 1 == 2 * u {
      SquareFits(v, u);
    }
  }

  /** The value once the carry sits in the digit above. */
  lemma SquarePropagated(w: seq<Digit>, w': seq<Digit>, u: nat, i: nat, k: int)
    requires i < u && |w| == |w'| == 2 * u && 0 <= k <= 1 && (k == 1 ==> i + u + 1 < 2 * u)
    requires forall n | i + u < n < 2 * u :: w[n] == 0
    requires w' == if k == 1 then w[i + u + 1 := 1] else w
    ensures Value(w', 2 * u) == Value(w, i + u + 1) + k * Pow(i + u + 1)
  {
    if k == 1 {
      ValueFrame(w', w, i + u + 1);
      ValueZeros(w', i + u + 2, 2 * u);
    } else {
      ValueZeros(w', i + u + 1, 2 * u);
    }
  }

  /**
   * One row of `s_mp_sqr`.  The propagation loop at its end finds a zero digit at once, and in the last
   * row there is nothing to propagate.
   */
  method SquareRowInPlace(t: MpInt, a: MpInt, i: nat)
    requires t != a && a.Shaped() && i < a.used && |t.dp| == 2 * a.used
    requires SquareFrontier(t.dp, a.used, i)
    requires Value(t.dp, 2 * a.used) == SquareSum(a.dp, a.used, i)
    modifies t`dp
    ensures |t.dp| == |old(t.dp)| && SquareFrontier(t.dp, a.used, i + 1)
    ensures Value(t.dp, 2 * a.used) == SquareSum(a.dp, a.used, i + 1)
  {
    hide Value, Pow, SquareSum, SquareRow, SquareRowDone;
    ghost var t0, u := t.dp, a.used;
    ValueZeros(t0, i + u + 1, 2 * u);
    var k := SquareColumns(t, a, i);
    SquareSumStep(a.dp, u, i);
    var jx := a.used;
    ghost var t1 := t.dp;
    var s: int := t.dp[i + jx] + k;
    SquareTopDigit(t1, t0, a.dp, u, i, k, s);
    t.dp := t.dp[i + jx := s % RADIX];
    k := s / RADIX;
    SquareCarryStays(t.dp, a.dp, u, i, k);
    ghost var t2 := t.dp;
    var kx := 1;
    while k != 0
      invariant 0 <= k <= 1 && 1 <= kx <= 2 && (k == 1 ==> kx == 1 && i + u + 1 < 2 * u)
      invariant |t.dp| == 2 * u && u == a.used == jx
      invariant kx == 1 ==> t.dp == t2
      invariant kx == 1 && k == 0 ==> s / RADIX == 0
      invariant kx == 2 ==> k == 0 && s / RADIX == 1 && i + u + 1 < 2 * u && t.dp == t2[i + u + 1 := 1]
      decreases k
    {
      k := t.dp[i + jx + kx] + 1;
      t.dp := t.dp[i + jx + kx := k % RADIX];
      k := k / RADIX;
      kx := kx + 1;
    }
    SquarePropagated(t2, t.dp, u, i, s / RADIX);
  }

  /** `s_mp_sqr`: |a|^2 in place. */
  method SqrMag(a: MpInt)
    requires a.Shaped()
    modifies a
    ensures a.Valid() && !a.neg && a.Mag() == old(a.Mag()) * old(a.Mag())
  {
    var used := a.used;
    var tmp := new MpInt(2 * used);
    tmp.used := 2 * used;
    ValueZeros(tmp.dp, 0, 2 * used);
    var ix := 0;
    while ix < used
      invariant 0 <= ix <= used && tmp.used == 2 * used == |tmp.dp| && !tmp.neg
      invariant a.Shaped() && a.used == used && a.dp == old(a.dp)
      invariant SquareFrontier(tmp.dp, used, ix)
      invariant Value(tmp.dp, 2 * used) == SquareSum(a.dp, used, ix)
    {
      if a.dp[ix] == 0 {
        SquareSumStep(a.dp, used, ix);
      } else {
        SquareRowInPlace(tmp, a, ix);
      }
      ix := ix + 1;
    }
    SquareFits(a.dp, used);
    tmp.Clamp();
    MpInt.Exch(tmp, a);
  }
}
