/** The signed big integer object, its storage management and its digit shifts. */
module MpiInt {
  import opened Arith
  import opened MpiDigits

  /** Result codes; `mp_err`. */
  datatype Err = Okay | Range | Undef

  /** MP_DEFPREC: storage is grown in multiples of this many digits. */
  const DEFPREC := 16

  function Zeros(n: nat): (z: seq<Digit>)
    ensures |z| == n && forall i | 0 <= i < n :: z[i] == 0
  {
    seq(n, _ => 0)
  }

  /**
   * `mp_int`.  `dp` is the allocated buffer, so |dp| is the source's `alloc` field; it is replaced by
   * a longer one when the number outgrows it.
   */
  class MpInt {
    var neg: bool
    var used: nat
    var dp: seq<Digit>

    /** What every routine relies on: the digits from `used` up are zero. */
    ghost predicate Shaped()
      reads this
    {
      && 1 <= used <= |dp|
      && forall i | used <= i < |dp| :: dp[i] == 0
    }

    /** Shaped, without leading zeros. */
    ghost predicate Clamped()
      reads this
    {
      Shaped() && (used > 1 ==> dp[used - 1] != 0)
    }

    /** The representation invariant between library calls. */
    ghost predicate Valid()
      reads this
    {
      Clamped() && (neg ==> Mag() > 0)
    }

    ghost function Mag(): nat
      requires Shaped()
      reads this
    {
      Value(dp, used)
    }

    ghost function Val(): int
      requires Shaped()
      reads this
    {
      var m: int := Mag();
      if neg then -m else m
    }

    /** `mp_init_size` */
    constructor (prec: nat)
      requires prec > 0
      ensures Valid() && !neg && used == 1 && |dp| == prec && Mag() == 0
    {
      neg, used, dp := false, 1, Zeros(prec);
      new;
      assert Value(dp, 1) == 0;
    }

    /** `mp_init_copy` */
    constructor Copy(from: MpInt)
      requires from.Shaped()
      ensures Shaped() && neg == from.neg && used == from.used && Mag() == from.Mag()
      ensures dp == from.dp[..used]
      ensures from.Valid() ==> Valid()
    {
      neg, used, dp := from.neg, from.used, from.dp[..from.used];
      new;
      ValueFrame(dp, from.dp, used);
    }

    /** `mp_copy`: `this` becomes equal to `from`, reusing the buffer when it is long enough. */
    method CopyFrom(from: MpInt)
      requires from.Shaped()
      requires Shaped()
      modifies this
      ensures from == this ==> neg == old(neg) && used == old(used) && dp == old(dp)
      ensures Shaped() && neg == old(from.neg) && used == old(from.used) && Mag() == old(from.Mag())
      ensures |dp| >= old(|dp|)
      ensures forall i | 0 <= i < used :: dp[i] == old(from.dp)[i]
      ensures old(from.Valid()) ==> Valid()
    {
      if from == this {
        return;
      }
      if |dp| >= from.used {
        dp := from.dp[..from.used] + Zeros(|dp| - from.used);
      } else {
        dp := from.dp[..from.used];
      }
      used := from.used;
      neg := from.neg;
      ValueFrame(dp, from.dp, used);
    }

    /** `s_mp_exch`: swap the two numbers, buffers included. */
    static method Exch(a: MpInt, b: MpInt)
      modifies a, b
      ensures a.neg == old(b.neg) && a.used == old(b.used) && a.dp == old(b.dp)
      ensures b.neg == old(a.neg) && b.used == old(a.used) && b.dp == old(a.dp)
    {
      var neg, used, dp := a.neg, a.used, a.dp;
      a.neg, a.used, a.dp := b.neg, b.used, b.dp;
      b.neg, b.used, b.dp := neg, used, dp;
    }

    /** `mp_set`; with d == 0 this is `mp_zero`. */
    method Set(d: Digit)
      requires Shaped()
      modifies this
      ensures Valid() && !neg && used == 1 && Mag() == d && |dp| == old(|dp|)
    {
      dp := Zeros(|dp|);
      used := 1;
      neg := false;
      dp := dp[0 := d];
      assert Value(dp, 0) == 0;
    }

    /** `s_mp_grow` */
    method Grow(min: nat)
      requires Shaped()
      modifies this`dp
      ensures Shaped() && |dp| >= min && old(dp) <= dp && Mag() == old(Mag())
      ensures min <= old(|dp|) ==> dp == old(dp)
      ensures old(Clamped()) ==> Clamped()
    {
      if min > |dp| {
        var size := (min + (DEFPREC - 1)) / DEFPREC * DEFPREC;
        dp := dp[..used] + Zeros(size - used);
        ValueFrame(dp, old(dp), used);
      }
    }

    /** `s_mp_pad`: the digits taken into use are already zero. */
    method Pad(min: nat)
      requires Shaped()
      modifies this`dp, this`used
      ensures Shaped() && used == (if min > old(used) then min else old(used))
      ensures old(dp) <= dp && Mag() == old(Mag())
      ensures forall i | old(used) <= i < |dp| :: dp[i] == 0
      ensures min <= old(used) ==> dp == old(dp)
    {
      if min > used {
        if min > |dp| {
          Grow(min);
        }
        ValueZeros(dp, used, min);
        used := min;
      }
    }

    /** `s_mp_clamp`: drop leading zeros; a zero result loses its sign. */
    method Clamp()
      requires Shaped()
      modifies this`neg, this`used
      ensures Clamped() && Mag() == old(Mag()) && used <= old(used)
      ensures neg == (old(neg) && Mag() > 0)
      ensures Valid()
    {
      var du := used;
      while du > 1 && dp[du - 1] == 0
        invariant 1 <= du <= used
        invariant forall i | du <= i < |dp| :: dp[i] == 0
        invariant Value(dp, du) == Value(dp, used)
      {
        du := du - 1;
      }
      if du == 1 && dp[0] == 0 {
        neg := false;
      }
      assert Value(dp, 1) == dp[0] * Pow(0);
      ValueTop(dp, du);
      assert du > 1 ==> Value(dp, du) > 0 by {
        if du > 1 {
          MulMono(1, dp[du - 1], Pow(du - 1));
        }
      }
      used := du;
    }

    /** `s_mp_lshd`: multiply by RADIX^p. */
    method Lshd(p: nat)
      requires Shaped()
      modifies this`dp, this`used
      ensures Shaped() && Mag() == old(Mag()) * Pow(p) && used == old(used) + p
      ensures forall i | 0 <= i < p :: dp[i] == 0
      ensures forall i | 0 <= i < old(used) :: dp[i + p] == old(dp)[i]
      ensures old(Clamped()) && old(Mag()) > 0 ==> Clamped()
      ensures |dp| >= old(|dp|)
    {
      if p == 0 {
        return;
      }
      ghost var u := used;
      Pad(used + p);
      var ix: int := used - 1 - p;
      while ix >= 0
        invariant -1 <= ix <= u - 1
        invariant |dp| >= |old(dp)| && used == u + p && used <= |dp|
        invariant forall i | 0 <= i <= ix :: dp[i] == old(dp)[i]
        invariant forall i | ix < i < u :: dp[i + p] == old(dp)[i]
        invariant forall i | used <= i < |dp| :: dp[i] == 0
      {
        dp := dp[ix + p := dp[ix]];
        ix := ix - 1;
      }
      var jx := 0;
      while jx < p
        invariant 0 <= jx <= p
        invariant |dp| >= |old(dp)| && used == u + p && used <= |dp|
        invariant forall i | 0 <= i < jx :: dp[i] == 0
        invariant forall i | 0 <= i < u :: dp[i + p] == old(dp)[i]
        invariant forall i | used <= i < |dp| :: dp[i] == 0
      {
        dp := dp[jx := 0];
        jx := jx + 1;
      }
      ValueShifted(dp, old(dp), p, u);
      if old(Clamped()) && old(Mag()) > 0 {
        ValueTopNonzero(old(dp), u);
      }
    }

    /** `s_mp_rshd`: divide by RADIX^p. */
    method Rshd(p: nat)
      requires Shaped()
      modifies this
      ensures Shaped() && Mag() == old(Mag()) / Pow(p) && |dp| == old(|dp|)
      ensures p > 0 ==> Valid() && neg == (old(neg) && Mag() > 0)
      ensures p == 0 ==> neg == old(neg) && used == old(used) && dp == old(dp)
    {
      hide Value, Pow;
      ghost var u, d := used, dp;
      ShiftedDown(d, u, p);
      if p == 0 {
        return;
      }
      if p >= used {
        dp := Zeros(|dp|);
        used := 1;
        neg := false;
        ValueAllZero(dp, 1);
        return;
      }
      var ix := p;
      while ix < used
        invariant p <= ix <= u == used
        invariant |dp| == |d| && neg == old(neg)
        invariant forall i | 0 <= i < ix - p :: dp[i] == d[i + p]
        invariant forall i | ix - p <= i < |dp| :: dp[i] == d[i]
      {
        dp := dp[ix - p := dp[ix]];
        ix := ix + 1;
      }
      ix := ix - p;
      while ix < used
        invariant u - p <= ix <= u == used
        invariant |dp| == |d| && neg == old(neg)
        invariant forall i | 0 <= i < u - p :: dp[i] == d[i + p]
        invariant forall i | u - p <= i < ix :: dp[i] == 0
        invariant forall i | ix <= i < |dp| :: dp[i] == d[i]
      {
        dp := dp[ix := 0];
        ix := ix + 1;
      }
      ValueZeros(dp, u - p, u);
      ValueFrame(d[p..], dp, u - p);
      Clamp();
    }

    /** `s_mp_mul_2`: double. */
    method Mul2()
      requires Clamped()
      modifies this`dp, this`used
      ensures Clamped() && Mag() == 2 * old(Mag())
    {
      ghost var u, d := used, dp;
      var ix, kin := 0, 0;
      assert Doubled(dp, d, 0, 0);
      hide Value, Pow, Doubled;
      while ix < used
        invariant 0 <= ix <= u == used && 0 <= kin <= 1
        invariant |dp| == |d|
        invariant forall i | ix <= i < |dp| :: dp[i] == d[i]
        invariant Doubled(dp, d, ix, kin)
        invariant ix == u && kin == 0 && u > 1 ==> dp[u - 1] != 0
      {
        var x: int := dp[ix];
        var kout := x / 0x8000;
        var low: Digit := x % 0x8000 * 2 + kin;
        DoubledStep(dp, d, ix, kin, low, kout);
        dp := dp[ix := low];
        kin := kout;
        ix := ix + 1;
      }
      if kin != 0 {
        ghost var was := dp;
        if ix >= |dp| {
          Grow(|dp| + 1);
        }
        DoubledEnd(was, d, u, kin, dp);
        dp := dp[ix := kin];
        used := used + 1;
      } else {
        DoubledEnd(dp, d, u, kin, dp);
      }
    }

    /** One digit of a left shift: the bits of `x` that stay, above the incoming ones, and those that leave. */
    static method ShiftDigitLeft(x: int, d: nat, save: int) returns (y: Digit, next: int)
      requires 0 <= x < RADIX && d < DIGIT_BIT && 0 <= save < Pow2(d)
      ensures x * Pow2(d) + save == y + RADIX * next && 0 <= next < Pow2(d)
      ensures next == SpilledBits(x, d)
    {
      var c, e := Pow2(d), Pow2(DIGIT_BIT - d);
      BitSplit(d);
      ShiftLeftDigit(x, c, e, save);
      next := SpilledBits(x, d);
      y := x % e * c + save;
    }

    /** One digit of a right shift, with `save` coming in from above. */
    static method ShiftDigitRight(x: int, d: nat, save: int) returns (y: Digit, next: int)
      requires 0 <= x < RADIX && d < DIGIT_BIT && 0 <= save < Pow2(d)
      ensures x + save * RADIX == Pow2(d) * y + next && 0 <= next < Pow2(d)
    {
      var c, e := Pow2(d), Pow2(DIGIT_BIT - d);
      BitSplit(d);
      ShiftRightDigit(x, c, e, save);
      next := x % c;
      y := x / c + save * e;
    }

    /** The bit loop of `s_mp_mul_2d`; the buffer grows only when the top digit will spill. */
    method ShiftBitsLeft(d: nat)
      requires Shaped() && d < DIGIT_BIT
      modifies this`dp, this`used
      ensures Shaped() && Mag() == old(Mag()) * Pow2(d)
    {
      var u := used;
      var top := SpilledBits(dp[u - 1], d);
      if top != 0 {
        Grow(u + 1);
      }
      ghost var v := dp;
      assert ShiftedLeft(dp, v, 0, 0, d);
      hide Value, Pow, Pow2, ShiftedLeft;
      var save, ix := 0, 0;
      while ix < u
        invariant 0 <= ix <= u == used <= |dp| == |v| && 0 <= save < Pow2(d)
        invariant forall i | ix <= i < |dp| :: dp[i] == v[i]
        invariant ShiftedLeft(dp, v, ix, save, d)
        invariant ix == u ==> save == top
      {
        var y, next := ShiftDigitLeft(dp[ix], d, save);
        ShiftedLeftStep(dp, v, ix, save, d, y, next);
        dp := dp[ix := y];
        save := next;
        ix := ix + 1;
      }
      ShiftedLeftEnd(dp, v, u, save, d);
      if save != 0 {
        dp := dp[u := save];
        used := used + 1;
      }
    }

    /** `s_mp_mul_2d`: multiply by 2^k. */
    method Mul2d(k: Digit)
      requires Clamped()
      modifies this
      ensures Valid() && Mag() == old(Mag()) * Pow2(k)
      ensures neg == (old(neg) && Mag() > 0)
    {
      Lshd(k / DIGIT_BIT);
      ShiftBitsLeft(k % DIGIT_BIT);
      Clamp();
      Pow2Split(k);
      Assoc(old(Mag()), Pow(k / DIGIT_BIT), Pow2(k % DIGIT_BIT));
    }

    /** The bit loop of `s_mp_div_2d`. */
    method ShiftBitsRight(d: nat)
      requires Shaped() && d < DIGIT_BIT
      modifies this`dp
      ensures Shaped() && Mag() == old(Mag()) / Pow2(d)
    {
      ghost var v := dp;
      var save := 0;
      var ix: int := used - 1;
      while ix >= 0
        invariant -1 <= ix < used <= |dp| == |v| && 0 <= save < Pow2(d)
        invariant forall i | 0 <= i <= ix || used <= i < |dp| :: dp[i] == v[i]
        invariant ShiftedRight(dp, v, used, ix + 1, save, d)
      {
        var y, next := ShiftDigitRight(dp[ix], d, save);
        ShiftedRightStep(dp, v, used, ix, save, d, y, next);
        dp := dp[ix := y];
        save := next;
        ix := ix - 1;
      }
      ShiftedRightEnd(dp, v, used, save, d);
    }

    /** `s_mp_div_2d`: divide by 2^k. */
    method Div2d(k: Digit)
      requires Shaped()
      modifies this
      ensures Valid() && Mag() == old(Mag()) / Pow2(k)
      ensures neg == (old(neg) && Mag() > 0)
    {
      hide Value, Pow, Pow2;
      Rshd(k / DIGIT_BIT);
      ShiftBitsRight(k % DIGIT_BIT);
      Clamp();
      Pow2Split(k);
      DivDiv(old(Mag()), Pow(k / DIGIT_BIT), Pow2(k % DIGIT_BIT));
    }

    /** `s_mp_mod_2d`: keep the low k bits. */
    method Mod2d(k: Digit)
      requires Valid()
      modifies this
      ensures Valid() && Mag() == old(Mag()) % Pow2(k)
      ensures neg == (old(neg) && Mag() > 0)
    {
      var ndig, nbit := k / DIGIT_BIT, k % DIGIT_BIT;
      ghost var u, v := used, dp;
      assert k == DIGIT_BIT * ndig + nbit;
      if ndig >= used {
        ShortValue(dp, used, ndig, nbit);
        return;
      }
      dp := dp[ndig := MaskLow(dp[ndig], nbit)];
      var ix := ndig + 1;
      while ix < used
        invariant ndig < ix <= u == used && |dp| == |v|
        invariant forall i | 0 <= i < ndig :: dp[i] == v[i]
        invariant dp[ndig] == MaskLow(v[ndig], nbit)
        invariant forall i | ndig < i < ix :: dp[i] == 0
        invariant forall i | ix <= i < |dp| :: dp[i] == v[i]
        invariant neg == old(neg)
      {
        dp := dp[ix := 0];
        ix := ix + 1;
      }
      MaskedValue(v, dp, u, ndig, nbit);
      Clamp();
    }
  }

  /** Dropping the p low digits divides by RADIX^p. */
  lemma ShiftedDown(v: seq<Digit>, u: nat, p: nat)
    requires u <= |v|
    ensures p == 0 ==> Value(v, u) / Pow(p) == Value(v, u)
    ensures p >= u ==> Value(v, u) / Pow(p) == 0
    ensures p < u ==> Value(v, u) / Pow(p) == Value(v[p..], u - p)
  {
    ValueBound(v, u);
    if p >= u {
      PowMono(u, p);
      DivModUnique(Value(v, u), Pow(p), 0, Value(v, u));
    } else {
      hide Value, Pow;
      ValueSplit(v, p, u);
      ValueBound(v, p);
      ModLow(Value(v[p..], u - p), Pow(p), Value(v, p));
    }
  }

  /** `x & ((1 << b) - 1)` */
  function MaskLow(x: Digit, b: nat): (r: Digit)
    ensures r <= x
  {
    ModSmall(x, Pow2(b));
    x % Pow2(b)
  }

  /** The `n` low digits have been doubled, with `k` to carry. */
  ghost predicate Doubled(dp: seq<Digit>, v: seq<Digit>, n: nat, k: int)
    requires n <= |dp| && n <= |v|
  {
    Value(dp, n) + k * Pow(n) == 2 * Value(v, n)
  }

  lemma DoubledStep(dp: seq<Digit>, v: seq<Digit>, n: nat, k: int, lo: Digit, hi: int)
    requires n < |dp| && n < |v| && Doubled(dp, v, n, k) && 2 * v[n] + k == lo + RADIX * hi
    ensures Doubled(dp[n := lo], v, n + 1, hi)
  {
    ValueFrame(dp[n := lo], dp, n);
    var x: int := v[n];
    CarryStep(2 * x + k, lo, hi, Pow(n));
    Distribute(2 * x, k, Pow(n));
    Assoc(2, x, Pow(n));
  }

  lemma DoubledEnd(dp: seq<Digit>, v: seq<Digit>, n: nat, k: int, w: seq<Digit>)
    requires n <= |dp| && n <= |v| && Doubled(dp, v, n, k) && 0 <= k <= 1
    requires n <= |w| && forall i | 0 <= i < n :: w[i] == dp[i]
    ensures k == 0 ==> Value(w, n) == 2 * Value(v, n)
    ensures k == 1 && n < |w| ==> Value(w[n := 1], n + 1) == 2 * Value(v, n)
  {
    ValueFrame(w, dp, n);
    if k == 1 && n < |w| {
      ValueFrame(w[n := 1], dp, n);
    }
  }

  /** `(x >> (16 - d)) & ((1 << d) - 1)` for a digit x. */
  function SpilledBits(x: int, d: nat): int
    requires 0 <= x < RADIX && d < DIGIT_BIT
  {
    x / Pow2(DIGIT_BIT - d)
  }

  /** The `n` low digits have been shifted, with `save` still to be stored above them. */
  ghost predicate ShiftedLeft(dp: seq<Digit>, v: seq<Digit>, n: nat, save: int, d: nat)
    requires n <= |dp| == |v|
  {
    Value(dp, n) + save * Pow(n) == Pow2(d) * Value(v, n)
  }

  lemma ShiftedLeftStep(dp: seq<Digit>, v: seq<Digit>, n: nat, save: int, d: nat, y: Digit, next: int)
    requires n < |dp| == |v| && dp[n] == v[n]
    requires ShiftedLeft(dp, v, n, save, d)
    requires v[n] * Pow2(d) + save == y + RADIX * next
    ensures ShiftedLeft(dp[n := y], v, n + 1, next, d)
  {
    ValueFrame(dp[n := y], dp, n);
    ShiftedLeftArith(v[n], Pow2(d), y, next, save, Pow(n), Value(dp, n), Value(v, n));
  }

  lemma ShiftedLeftArith(x: int, c: int, y: int, next: int, save: int, p: int, l: int, h: int)
    requires x * c + save == y + RADIX * next
    requires l + save * p == c * h
    ensures l + y * p + next * (RADIX * p) == c * (h + x * p)
  {
    CarryStep(x * c + save, y, next, p);
    Distribute(x * c, save, p);
    Distribute(h, x * p, c);
    Assoc(c, x, p);
  }

  lemma ShiftedLeftEnd(dp: seq<Digit>, v: seq<Digit>, n: nat, save: int, d: nat)
    requires n <= |dp| == |v| && ShiftedLeft(dp, v, n, save, d)
    ensures save == 0 ==> Value(dp, n) == Value(v, n) * Pow2(d)
    ensures 0 < save < RADIX && n < |dp| ==> Value(dp[n := save], n + 1) == Value(v, n) * Pow2(d)
  {
    if 0 < save < RADIX && n < |dp| {
      ValueFrame(dp[n := save], dp, n);
    }
  }

  /** The digits from `n` up have been shifted, with `save` still to go into the digits below. */
  ghost predicate ShiftedRight(dp: seq<Digit>, v: seq<Digit>, u: nat, n: nat, save: int, d: nat)
    requires n <= u <= |dp| == |v|
  {
    Pow2(d) * (Value(dp, u) - Value(v, n)) + save * Pow(n) == Value(v, u) - Value(v, n)
  }

  lemma ShiftedRightStep(dp: seq<Digit>, v: seq<Digit>, u: nat, n: nat, save: int, d: nat, y: Digit, next: int)
    requires n < u <= |dp| == |v| && dp[n] == v[n]
    requires ShiftedRight(dp, v, u, n + 1, save, d)
    requires v[n] + save * RADIX == Pow2(d) * y + next
    ensures ShiftedRight(dp[n := y], v, u, n, next, d)
  {
    var x, c, p, h := v[n], Pow2(d), Pow(n), Value(dp, u) - Value(v, n + 1);
    ValueUpdate(dp, n, y, u);
    Distribute(y, x, p);
    assert Value(dp[n := y], u) - Value(v, n) == h + y * p;
    Distribute(h, y * p, c);
    Assoc(c, y, p);
    Distribute(c * y, next, p);
    Distribute(x, save * RADIX, p);
    Assoc(save, RADIX, p);
  }

  /** A number of at most n digits has no bits from position 16 n + b up. */
  lemma ShortValue(v: seq<Digit>, u: nat, n: nat, b: nat)
    requires u <= n && u <= |v|
    ensures Value(v, u) % Pow2(DIGIT_BIT * n + b) == Value(v, u)
  {
    Pow2Add(DIGIT_BIT * n, b);
    PowIsPow2(n);
    ValueBound(v, u);
    PowMono(u, n);
    MulMono(1, Pow2(b), Pow(n));
    DivModUnique(Value(v, u), Pow2(DIGIT_BIT * n + b), 0, Value(v, u));
  }

  lemma ShiftedRightEnd(dp: seq<Digit>, v: seq<Digit>, u: nat, save: int, d: nat)
    requires u <= |dp| == |v| && ShiftedRight(dp, v, u, 0, save, d) && 0 <= save < Pow2(d)
    ensures Value(dp, u) == Value(v, u) / Pow2(d)
  {
    assert Pow2(d) * Value(dp, u) + save == Value(v, u);
    hide *;
    DivModUnique(Value(v, u), Pow2(d), Value(dp, u), save);
  }

  /** Clearing the bits from position 16 n + b up leaves the remainder by that power of two. */
  lemma MaskedValue(v: seq<Digit>, w: seq<Digit>, u: nat, n: nat, b: nat)
    requires n < u <= |v| == |w| && b < DIGIT_BIT
    requires forall i | 0 <= i < n :: w[i] == v[i]
    requires w[n] == MaskLow(v[n], b)
    requires forall i | n < i < u :: w[i] == 0
    ensures Value(w, u) == Value(v, u) % Pow2(DIGIT_BIT * n + b)
  {
    var c, p := Pow2(b), Pow(n);
    ValueZeros(w, n + 1, u);
    ValueFrame(w, v, n);
    ValueBound(v, n);
    Pow2Add(DIGIT_BIT * n, b);
    PowIsPow2(n);
    ValueSplit(v, n + 1, u);
    MaskedNumber(Value(v, n), v[n], c, Pow2(DIGIT_BIT - b), p, Value(v[n + 1..], u - n - 1)) by { BitSplit(b); }
  }

  lemma MaskedNumber(l: int, x: int, c: int, e: int, p: int, h: int)
    requires 0 <= l < p && 0 < c && c * e == RADIX
    ensures p * c > 0
    ensures (l + x * p + (RADIX * p) * h) % (p * c) == l + x % c * p
  {
    var q, r := x / c, x % c;
    MaskStep(l, q, r, c, e, p, h);
    MulMono(1, c, p);
    DivModUnique(l + x * p + (RADIX * p) * h, p * c, q + e * h, l + r * p);
  }

  lemma MaskStep(l: int, q: int, r: int, c: int, e: int, p: int, h: int)
    requires 0 <= l < p && 0 <= r < c && c * e == RADIX
    ensures l + (q * c + r) * p + (RADIX * p) * h == (q + e * h) * (p * c) + (l + r * p)
    ensures 0 <= l + r * p < p * c
  {
    Distribute(q * c, r, p);
    Distribute(q, e * h, p * c);
    assert (q * c) * p == q * (p * c) by { Assoc(q, c, p); }
    assert (RADIX * p) * h == (e * h) * (p * c) by {
      calc {
        (RADIX * p) * h;
        { Assoc(c, e, p); Assoc(c * e, p, h); }
        (c * e) * (p * h);
        { Assoc(c, e, p * h); Assoc(e, p, h); Assoc(e, h, p); }
        c * ((e * h) * p);
        { Assoc(e * h, p, c); }
        (e * h) * (p * c);
      }
    }
    MulMono(r, c - 1, p);
    MulNonNeg(r, p);
    Distribute(c, 1, p);
  }
}
