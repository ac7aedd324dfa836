/** Bitwise operations on the n low bits of numbers. */
module Bits {
  import opened Arith

  /** Combine n low bits: the bit for (0, 0) is f00, and so on. */
  function Bitwise(f: (bool, bool) -> bool, a: nat, b: nat, n: nat): (c: nat)
    ensures c < Pow2(n)
  {
    if n == 0 then 0
    else (if f(a % 2 == 1, b % 2 == 1) then 1 else 0) + 2 * Bitwise(f, a / 2, b / 2, n - 1)
  }

  function And(a: nat, b: nat, n: nat): (c: nat)
    ensures c < Pow2(n)
  {
    Bitwise((p, q) => p && q, a, b, n)
  }

  function Or(a: nat, b: nat, n: nat): (c: nat)
    ensures c < Pow2(n)
  {
    Bitwise((p, q) => p || q, a, b, n)
  }

  function Xor(a: nat, b: nat, n: nat): (c: nat)
    ensures c < Pow2(n)
  {
    Bitwise((p, q) => p != q, a, b, n)
  }

  function Not(a: nat, n: nat): (c: nat)
    ensures c < Pow2(n)
  {
    Bitwise((p, q) => !p, a, 0, n)
  }

  /** Bit i of a number. */
  predicate Bit(a: nat, i: nat) {
    if i == 0 then a % 2 == 1 else Bit(a / 2, i - 1)
  }

  lemma {:induction false} BitwiseBit(f: (bool, bool) -> bool, a: nat, b: nat, n: nat, i: nat)
    requires i < n
    ensures Bit(Bitwise(f, a, b, n), i) == f(Bit(a, i), Bit(b, i))
  {
    var low := if f(a % 2 == 1, b % 2 == 1) then 1 else 0;
    var high := Bitwise(f, a / 2, b / 2, n - 1);
    assert (low + 2 * high) % 2 == low && (low + 2 * high) / 2 == high;
    if i > 0 {
      BitwiseBit(f, a / 2, b / 2, n - 1, i - 1);
    }
  }

  /** Numbers with the same n bits are equal. */
  lemma {:induction false} SameBits(a: nat, b: nat, n: nat)
    requires a < Pow2(n) && b < Pow2(n) && forall i: nat | i < n :: Bit(a, i) == Bit(b, i)
    ensures a == b
  {
    if n > 0 {
      assert Bit(a, 0) == Bit(b, 0);
      forall i: nat | i < n - 1 ensures Bit(a / 2, i) == Bit(b / 2, i) {
        assert Bit(a, i + 1) == Bit(b, i + 1);
      }
      SameBits(a / 2, b / 2, n - 1);
    }
  }

  lemma {:induction false} NoBits(i: nat)
    ensures !Bit(0, i)
  {
    if i > 0 {
      NoBits(i - 1);
    }
  }

  lemma AndBit(a: nat, b: nat, n: nat, i: nat)
    requires i < n
    ensures Bit(And(a, b, n), i) == (Bit(a, i) && Bit(b, i))
  {
    BitwiseBit((p, q) => p && q, a, b, n, i);
  }

  lemma OrBit(a: nat, b: nat, n: nat, i: nat)
    requires i < n
    ensures Bit(Or(a, b, n), i) == (Bit(a, i) || Bit(b, i))
  {
    BitwiseBit((p, q) => p || q, a, b, n, i);
  }

  lemma XorBit(a: nat, b: nat, n: nat, i: nat)
    requires i < n
    ensures Bit(Xor(a, b, n), i) == (Bit(a, i) != Bit(b, i))
  {
    BitwiseBit((p, q) => p != q, a, b, n, i);
  }

  lemma NotBit(a: nat, n: nat, i: nat)
    requires i < n
    ensures Bit(Not(a, n), i) == !Bit(a, i)
  {
    BitwiseBit((p, q) => !p, a, 0, n, i);
  }

  lemma XorTwice(a: nat, b: nat, n: nat)
    requires a < Pow2(n)
    ensures Xor(Xor(a, b, n), b, n) == a
  {
    hide Xor;
    var c := Xor(a, b, n);
    forall i: nat | i < n ensures Bit(Xor(c, b, n), i) == Bit(a, i) {
      XorBit(a, b, n, i);
      XorBit(c, b, n, i);
    }
    SameBits(Xor(c, b, n), a, n);
  }

  lemma XorCommutes(a: nat, b: nat, n: nat)
    ensures Xor(a, b, n) == Xor(b, a, n)
  {
    hide Xor;
    forall i: nat | i < n ensures Bit(Xor(a, b, n), i) == Bit(Xor(b, a, n), i) {
      XorBit(a, b, n, i);
      XorBit(b, a, n, i);
    }
    SameBits(Xor(a, b, n), Xor(b, a, n), n);
  }

  lemma XorZero(a: nat, n: nat)
    requires a < Pow2(n)
    ensures Xor(a, 0, n) == a
  {
    hide Xor;
    forall i: nat | i < n ensures Bit(Xor(a, 0, n), i) == Bit(a, i) {
      XorBit(a, 0, n, i);
      NoBits(i);
    }
    SameBits(Xor(a, 0, n), a, n);
  }

  lemma OrZero(a: nat, n: nat)
    requires a < Pow2(n)
    ensures Or(a, 0, n) == a
  {
    hide Or;
    forall i: nat | i < n ensures Bit(Or(a, 0, n), i) == Bit(a, i) {
      OrBit(a, 0, n, i);
      NoBits(i);
    }
    SameBits(Or(a, 0, n), a, n);
  }

  lemma OrStep(a: nat, b: nat, n: nat)
    requires n > 0
    ensures Or(a, b, n) == (if a % 2 == 1 || b % 2 == 1 then 1 else 0) + 2 * Or(a / 2, b / 2, n - 1)
  {
  }

  lemma AndStep(a: nat, b: nat, n: nat)
    requires n > 0
    ensures And(a, b, n) == (if a % 2 == 1 && b % 2 == 1 then 1 else 0) + 2 * And(a / 2, b / 2, n - 1)
  {
  }

  lemma OrTwice(a: nat, b: nat, n: nat)
    ensures Or(Or(a, b, n), b, n) == Or(a, b, n)
  {
    hide Or;
    var c := Or(a, b, n);
    forall i: nat | i < n ensures Bit(Or(c, b, n), i) == Bit(c, i) {
      OrBit(a, b, n, i);
      OrBit(c, b, n, i);
    }
    SameBits(Or(c, b, n), c, n);
  }

  lemma {:induction false} AllBits(n: nat, i: nat)
    requires i < n
    ensures Bit(Pow2(n) - 1, i)
  {
    if i > 0 {
      assert (Pow2(n) - 1) / 2 == Pow2(n - 1) - 1;
      AllBits(n - 1, i - 1);
    }
  }

  lemma AndAll(a: nat, n: nat)
    requires a < Pow2(n)
    ensures And(a, Pow2(n) - 1, n) == a
  {
    hide And;
    forall i: nat | i < n ensures Bit(And(a, Pow2(n) - 1, n), i) == Bit(a, i) {
      AndBit(a, Pow2(n) - 1, n, i);
      AllBits(n, i);
    }
    SameBits(And(a, Pow2(n) - 1, n), a, n);
  }

  lemma Halves(c: nat, p: nat)
    ensures c * (2 * p) % 2 == 0 && c * (2 * p) / 2 == c * p
  {
    assert c * (2 * p) == 2 * (c * p);
  }

  /** A number whose low k bits are clear, or-ed with one of k bits. */
  lemma {:induction false} ShiftedOr(c: nat, b: nat, k: nat, n: nat)
    requires k <= n && b < Pow2(k) && c < Pow2(n - k)
    ensures Or(c * Pow2(k), b, n) == c * Pow2(k) + b
  {
    if k == 0 {
      OrZero(c, n);
    } else {
      Halves(c, Pow2(k - 1));
      ShiftedOr(c, b / 2, k - 1, n - 1);
      OrStep(c * Pow2(k), b, n);
    }
  }

  /** A mask of all but the k low bits. */
  lemma {:induction false} HighAnd(a: nat, k: nat, n: nat)
    requires k <= n && a < Pow2(n) && Pow2(k) <= Pow2(n)
    ensures And(a, Pow2(n) - Pow2(k), n) == a / Pow2(k) * Pow2(k)
  {
    if k == 0 {
      AndAll(a, n);
    } else {
      var p := Pow2(k - 1);
      assert (Pow2(n) - Pow2(k)) / 2 == Pow2(n - 1) - p && (Pow2(n) - Pow2(k)) % 2 == 0;
      HighAnd(a / 2, k - 1, n - 1);
      AndStep(a, Pow2(n) - Pow2(k), n);
      DivDiv(a, 2, p);
      assert 2 * (a / 2 / p * p) == a / 2 / p * (2 * p) by { Assoc(a / 2 / p, p, 2); }
    }
  }

  /** Keep the bits above k, set bit k, clear the ones below. */
  lemma MaskThenSet(w: nat, k: nat, n: nat)
    requires k < n && w < Pow2(n) && Pow2(k) <= Pow2(n)
    ensures Or(And(w, Pow2(n) - Pow2(k), n), Pow2(k), n) == w / Pow2(k + 1) * Pow2(k + 1) + Pow2(k)
  {
    hide Or, And;
    var b := Pow2(k);
    HighAnd(w, k, n);
    var q := w / b;
    var c := q / 2;
    DivDiv(w, b, 2);
    SmallQuotient(w, k + 1, n);
    ShiftedOr(c, b, k + 1, n);
    OrTwice(c * Pow2(k + 1), b, n);
    ShiftedOr(c, 0, k + 1, n);
    HalvesOf(q, b);
  }

  lemma HalvesOf(q: nat, b: nat)
    ensures q * b == q / 2 * (2 * b) + (if q % 2 == 1 then b else 0)
  {
    assert q == 2 * (q / 2) + q % 2;
    Distribute(2 * (q / 2), q % 2, b);
    Assoc(q / 2, 2, b);
  }

  lemma SmallQuotient(w: nat, k: nat, n: nat)
    requires k <= n && w < Pow2(n)
    ensures w / Pow2(k) < Pow2(n - k)
  {
    var p, c := Pow2(k), w / Pow2(k);
    Pow2Add(k, n - k);
    QuotientRange(w, p);
    if c >= Pow2(n - k) {
      MulMono(Pow2(n - k), c, p);
    }
  }
}
