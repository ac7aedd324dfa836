/** The word operations of SHA-256, bit by bit, and its constants as roots of primes. */
module Sha256Bits {
  import opened Arith
  import opened Sha256Spec
  import Bits

  lemma {:induction false} ShiftedDown(x: nat, n: nat, i: nat)
    ensures x / Pow2(n) >= 0
    ensures Bits.Bit(x / Pow2(n), i) == Bits.Bit(x, i + n)
  {
    QuotientRange(x, Pow2(n));
    if n > 0 {
      ShiftedDown(x / 2, n - 1, i);
      DivDiv(x, 2, Pow2(n - 1));
    }
  }

  lemma {:induction false} ShiftedUp(x: nat, n: nat, i: nat)
    ensures Bits.Bit(x * Pow2(n), i) == (i >= n && Bits.Bit(x, i - n))
  {
    if n > 0 {
      Bits.Halves(x, Pow2(n - 1));
      if i > 0 {
        ShiftedUp(x, n - 1, i - 1);
      }
    }
  }

  lemma {:induction false} LowBits(x: nat, m: nat, i: nat)
    requires i < m
    ensures Bits.Bit(x % Pow2(m), i) == Bits.Bit(x, i)
  {
    var h, p := x / 2, Pow2(m - 1);
    ModHalf(x, p);
    if i > 0 {
      LowBits(h, m - 1, i - 1);
    }
  }

  lemma ModHalf(x: nat, p: nat)
    requires p > 0
    ensures x % (2 * p) / 2 == x / 2 % p && x % (2 * p) % 2 == x % 2
  {
    var h := x / 2;
    var q, r := h / p, h % p;
    assert h == q * p + r;
    assert q * (2 * p) == 2 * (q * p);
    DivModUnique(x, 2 * p, q, 2 * r + x % 2);
  }

  lemma {:induction false} NoHighBits(x: nat, n: nat, i: nat)
    requires x < Pow2(n) && n <= i
    ensures !Bits.Bit(x, i)
  {
    if n == 0 {
      Bits.NoBits(i);
    } else {
      NoHighBits(x / 2, n - 1, i - 1);
    }
  }

  /** A shift to the right moves every bit n places down and fills with zeros. */
  lemma ShrBit(x: Word, n: nat, i: nat)
    ensures Bits.Bit(Shr(x, n), i) == (i + n < 32 && Bits.Bit(x, i + n))
  {
    ShiftedDown(x, n, i);
    if i + n >= 32 {
      WordBits();
      NoHighBits(x, 32, i + n);
    }
  }

  lemma ShlBit(x: Word, n: nat, i: nat)
    requires i < 32
    ensures Bits.Bit(Shl(x, n), i) == (i >= n && Bits.Bit(x, i - n))
  {
    WordBits();
    hide Pow2;
    MulNonNeg(x, Pow2(n));
    LowBits(x * Pow2(n), 32, i);
    ShiftedUp(x, n, i);
  }

  /** A rotation to the right: bit i is what was n places above, around the end. */
  lemma RotrBit(x: Word, n: nat, i: nat)
    requires n <= 32 && i < 32
    ensures Bits.Bit(Rotr(x, n), i) == Bits.Bit(x, (i + n) % 32)
  {
    WordBits();
    hide Bits.Or, Shr, Shl;
    Bits.OrBit(Shr(x, n), Shl(x, 32 - n), 32, i);
    ShrBit(x, n, i);
    ShlBit(x, 32 - n, i);
  }

  /** The other operations combine the bits of a place. */
  lemma WordOperations(x: Word, y: Word, z: Word, i: nat)
    requires i < 32
    ensures Bits.Bit(Ch(x, y, z), i) == if Bits.Bit(x, i) then Bits.Bit(y, i) else Bits.Bit(z, i)
    ensures var a, b, c := Bits.Bit(x, i), Bits.Bit(y, i), Bits.Bit(z, i);
      Bits.Bit(Maj(x, y, z), i) == ((a && b) || (a && c) || (b && c))
    ensures Bits.Bit(Xor(x, y), i) == (Bits.Bit(x, i) != Bits.Bit(y, i))
  {
    WordBits();
    hide Bits.And, Bits.Xor, Bits.Not;
    Bits.NotBit(x, 32, i);
    Bits.AndBit(x, y, 32, i);
    Bits.AndBit(x, z, 32, i);
    Bits.AndBit(y, z, 32, i);
    Bits.AndBit(Not(x), z, 32, i);
    Bits.XorBit(And(x, y), And(Not(x), z), 32, i);
    Bits.XorBit(And(x, y), And(x, z), 32, i);
    Bits.XorBit(Xor(And(x, y), And(x, z)), And(y, z), 32, i);
    Bits.XorBit(x, y, 32, i);
  }

  /** The six functions of section 4.1.2 of FIPS 180-4, bit by bit: SHR fills with zeros, ROTR goes around. */
  lemma SigmaBits(x: Word, i: nat)
    requires i < 32
    ensures Bits.Bit(BigSigma0(x), i) == ((Bits.Bit(x, (i + 2) % 32) != Bits.Bit(x, (i + 13) % 32)) != Bits.Bit(x, (i + 22) % 32))
    ensures Bits.Bit(BigSigma1(x), i) == ((Bits.Bit(x, (i + 6) % 32) != Bits.Bit(x, (i + 11) % 32)) != Bits.Bit(x, (i + 25) % 32))
    ensures Bits.Bit(SmallSigma0(x), i)
         == ((Bits.Bit(x, (i + 7) % 32) != Bits.Bit(x, (i + 18) % 32)) != (i < 29 && Bits.Bit(x, i + 3)))
    ensures Bits.Bit(SmallSigma1(x), i)
         == ((Bits.Bit(x, (i + 17) % 32) != Bits.Bit(x, (i + 19) % 32)) != (i < 22 && Bits.Bit(x, i + 10)))
  {
    hide Rotr, Shr, Xor, Bits.Bit;
    ThreeRotations(x, 2, 13, 22, i);
    ThreeRotations(x, 6, 11, 25, i);
    TwoRotations(x, 7, 18, 3, i);
    TwoRotations(x, 17, 19, 10, i);
  }

  lemma ThreeRotations(x: Word, a: nat, b: nat, c: nat, i: nat)
    requires i < 32 && a <= 32 && b <= 32 && c <= 32
    ensures Bits.Bit(Xor(Xor(Rotr(x, a), Rotr(x, b)), Rotr(x, c)), i)
         == ((Bits.Bit(x, (i + a) % 32) != Bits.Bit(x, (i + b) % 32)) != Bits.Bit(x, (i + c) % 32))
  {
    hide Rotr, Xor;
    WordXor(Rotr(x, a), Rotr(x, b), i);
    WordXor(Xor(Rotr(x, a), Rotr(x, b)), Rotr(x, c), i);
    RotrBit(x, a, i);
    RotrBit(x, b, i);
    RotrBit(x, c, i);
  }

  lemma TwoRotations(x: Word, a: nat, b: nat, c: nat, i: nat)
    requires i < 32 && a <= 32 && b <= 32
    ensures Bits.Bit(Xor(Xor(Rotr(x, a), Rotr(x, b)), Shr(x, c)), i)
         == ((Bits.Bit(x, (i + a) % 32) != Bits.Bit(x, (i + b) % 32)) != (i + c < 32 && Bits.Bit(x, i + c)))
  {
    hide Rotr, Shr, Xor;
    WordXor(Rotr(x, a), Rotr(x, b), i);
    WordXor(Xor(Rotr(x, a), Rotr(x, b)), Shr(x, c), i);
    RotrBit(x, a, i);
    RotrBit(x, b, i);
    ShrBit(x, c, i);
  }

  lemma WordXor(x: Word, y: Word, i: nat)
    requires i < 32
    ensures Bits.Bit(Xor(x, y), i) == (Bits.Bit(x, i) != Bits.Bit(y, i))
  {
    hide Bits.Xor;
    WordBits();
    Bits.XorBit(x, y, 32, i);
  }

  // ----- sections 4.2.2 and 5.3.3 of FIPS 180-4: where the constants come from

  /** k is the first 32 bits of the fraction of the cube root of p. */
  predicate CubeRoot(p: nat, k: Word) {
    var whole := if p < 8 then 1 else if p < 27 then 2 else if p < 64 then 3 else if p < 125 then 4 else if p < 216 then 5 else 6;
    var r := whole * WORD_MOD + k;
    r * r * r <= p * WORD_MOD * WORD_MOD * WORD_MOD < (r + 1) * (r + 1) * (r + 1)
  }

  predicate SquareRoot(p: nat, k: Word) {
    var whole := if p < 4 then 1 else if p < 9 then 2 else if p < 16 then 3 else 4;
    var r := whole * WORD_MOD + k;
    r * r <= p * WORD_MOD * WORD_MOD < (r + 1) * (r + 1)
  }

  /** The first 64 primes. */
  function Primes(): (p: seq<nat>)
    ensures |p| == 64
  {
    hide Primes0, Primes1, Primes2, Primes3;
    Primes0() + Primes1() + Primes2() + Primes3()
  }

  function Primes0(): (p: seq<nat>)
    ensures |p| == 16
  {
    [2, 3, 5, 7, 11, 13, 17, 19, 23, 29, 31, 37, 41, 43, 47, 53]
  }

  function Primes1(): (p: seq<nat>)
    ensures |p| == 16
  {
    [59, 61, 67, 71, 73, 79, 83, 89, 97, 101, 103, 107, 109, 113, 127, 131]
  }

  function Primes2(): (p: seq<nat>)
    ensures |p| == 16
  {
    [137, 139, 149, 151, 157, 163, 167, 173, 179, 181, 191, 193, 197, 199, 211, 223]
  }

  function Primes3(): (p: seq<nat>)
    ensures |p| == 16
  {
    [227, 229, 233, 239, 241, 251, 257, 263, 269, 271, 277, 281, 283, 293, 307, 311]
  }

  /** Eight constants in a row. */
  ghost predicate EightRoots(p: seq<nat>, k: seq<Word>, i: nat)
    requires |p| == |k| == 16 && i <= 8
  {
    && CubeRoot(p[i], k[i]) && CubeRoot(p[i + 1], k[i + 1]) && CubeRoot(p[i + 2], k[i + 2]) && CubeRoot(p[i + 3], k[i + 3])
    && CubeRoot(p[i + 4], k[i + 4]) && CubeRoot(p[i + 5], k[i + 5]) && CubeRoot(p[i + 6], k[i + 6]) && CubeRoot(p[i + 7], k[i + 7])
  }

  lemma OneOfEight(p: seq<nat>, k: seq<Word>, i: nat, t: nat)
    requires |p| == |k| == 16 && i <= 8 && i <= t < i + 8 && EightRoots(p, k, i)
    ensures CubeRoot(p[t], k[t])
  {
    hide CubeRoot;
    var d := t - i;
    assert d == 0 || d == 1 || d == 2 || d == 3 || d == 4 || d == 5 || d == 6 || d == 7;
  }

  lemma RootsOfK0()
    ensures EightRoots(Primes0(), K0(), 0) && EightRoots(Primes0(), K0(), 8)
  {
    assert CubeRoot(2, K0()[0]);
    assert CubeRoot(3, K0()[1]);
    assert CubeRoot(5, K0()[2]);
    assert CubeRoot(7, K0()[3]);
    assert CubeRoot(11, K0()[4]);
    assert CubeRoot(13, K0()[5]);
    assert CubeRoot(17, K0()[6]);
    assert CubeRoot(19, K0()[7]);
    assert CubeRoot(23, K0()[8]);
    assert CubeRoot(29, K0()[9]);
    assert CubeRoot(31, K0()[10]);
    assert CubeRoot(37, K0()[11]);
    assert CubeRoot(41, K0()[12]);
    assert CubeRoot(43, K0()[13]);
    assert CubeRoot(47, K0()[14]);
    assert CubeRoot(53, K0()[15]);
  }

  lemma RootsOfK1()
    ensures EightRoots(Primes1(), K1(), 0) && EightRoots(Primes1(), K1(), 8)
  {
    assert CubeRoot(59, K1()[0]);
    assert CubeRoot(61, K1()[1]);
    assert CubeRoot(67, K1()[2]);
    assert CubeRoot(71, K1()[3]);
    assert CubeRoot(73, K1()[4]);
    assert CubeRoot(79, K1()[5]);
    assert CubeRoot(83, K1()[6]);
    assert CubeRoot(89, K1()[7]);
    assert CubeRoot(97, K1()[8]);
    assert CubeRoot(101, K1()[9]);
    assert CubeRoot(103, K1()[10]);
    assert CubeRoot(107, K1()[11]);
    assert CubeRoot(109, K1()[12]);
    assert CubeRoot(113, K1()[13]);
    assert CubeRoot(127, K1()[14]);
    assert CubeRoot(131, K1()[15]);
  }

  lemma RootsOfK2()
    ensures EightRoots(Primes2(), K2(), 0) && EightRoots(Primes2(), K2(), 8)
  {
    assert CubeRoot(137, K2()[0]);
    assert CubeRoot(139, K2()[1]);
    assert CubeRoot(149, K2()[2]);
    assert CubeRoot(151, K2()[3]);
    assert CubeRoot(157, K2()[4]);
    assert CubeRoot(163, K2()[5]);
    assert CubeRoot(167, K2()[6]);
    assert CubeRoot(173, K2()[7]);
    assert CubeRoot(179, K2()[8]);
    assert CubeRoot(181, K2()[9]);
    assert CubeRoot(191, K2()[10]);
    assert CubeRoot(193, K2()[11]);
    assert CubeRoot(197, K2()[12]);
    assert CubeRoot(199, K2()[13]);
    assert CubeRoot(211, K2()[14]);
    assert CubeRoot(223, K2()[15]);
  }

  lemma RootsOfK3()
    ensures EightRoots(Primes3(), K3(), 0) && EightRoots(Primes3(), K3(), 8)
  {
    assert CubeRoot(227, K3()[0]);
    assert CubeRoot(229, K3()[1]);
    assert CubeRoot(233, K3()[2]);
    assert CubeRoot(239, K3()[3]);
    assert CubeRoot(241, K3()[4]);
    assert CubeRoot(251, K3()[5]);
    assert CubeRoot(257, K3()[6]);
    assert CubeRoot(263, K3()[7]);
    assert CubeRoot(269, K3()[8]);
    assert CubeRoot(271, K3()[9]);
    assert CubeRoot(277, K3()[10]);
    assert CubeRoot(281, K3()[11]);
    assert CubeRoot(283, K3()[12]);
    assert CubeRoot(293, K3()[13]);
    assert CubeRoot(307, K3()[14]);
    assert CubeRoot(311, K3()[15]);
  }

  /** The round constants are the fractions of the cube roots of the first 64 primes. */
  lemma ConstantsAreRoots(t: nat)
    requires t < 64
    ensures CubeRoot(Primes()[t], K()[t])
  {
    hide CubeRoot, EightRoots, Primes, K, Primes0, Primes1, Primes2, Primes3, K0, K1, K2, K3;
    RootsOfK0();
    RootsOfK1();
    RootsOfK2();
    RootsOfK3();
    var i := t % 16;
    InSixteens(t);
    OneOfEight(PrimesOf(t / 16), KOf(t / 16), if i < 8 then 0 else 8, i);
  }

  function PrimesOf(j: nat): (p: seq<nat>)
    ensures |p| == 16
  {
    if j == 0 then Primes0() else if j == 1 then Primes1() else if j == 2 then Primes2() else Primes3()
  }

  function KOf(j: nat): (k: seq<Word>)
    ensures |k| == 16
  {
    if j == 0 then K0() else if j == 1 then K1() else if j == 2 then K2() else K3()
  }

  lemma InSixteens(t: nat)
    requires t < 64
    ensures Primes()[t] == PrimesOf(t / 16)[t % 16] && K()[t] == KOf(t / 16)[t % 16]
  {
    hide Primes0, Primes1, Primes2, Primes3, K0, K1, K2, K3;
    assert t / 16 == 0 || t / 16 == 1 || t / 16 == 2 || t / 16 == 3;
  }

  /** The initial hash value is the fractions of the square roots of the first eight. */
  lemma InitialIsRoots(t: nat)
    requires t < 8
    ensures SquareRoot(Primes()[t], H0()[t])
  {
    InitialRoots();
    assert Primes()[t] == Primes0()[t];
    hide SquareRoot;
    assert t == 0 || t == 1 || t == 2 || t == 3 || t == 4 || t == 5 || t == 6 || t == 7;
  }

  lemma InitialRoots()
    ensures SquareRoot(2, H0()[0]) && SquareRoot(3, H0()[1]) && SquareRoot(5, H0()[2]) && SquareRoot(7, H0()[3])
    ensures SquareRoot(11, H0()[4]) && SquareRoot(13, H0()[5]) && SquareRoot(17, H0()[6]) && SquareRoot(19, H0()[7])
  {
  }

  // ----- sections 3.1 and 5.1.1 of FIPS 180-4: bytes and padding

  /** The number that bytes stand for, most significant first. */
  function Number(b: seq<Byte>): nat {
    if b == [] then 0 else 256 * Number(b[..|b| - 1]) + b[|b| - 1]
  }

  lemma {:induction false} NumberOfBytes(x: nat, n: nat)
    ensures Number(BigEndianBytes(x, n)) == x % Pow2(8 * n)
  {
    if n == 0 {
      assert Pow2(0) == 1;
    } else {
      var b := BigEndianBytes(x, n);
      assert b[..n - 1] == BigEndianBytes(x / 256, n - 1) && b[n - 1] == x % 256;
      NumberOfBytes(x / 256, n - 1);
      AesBlocks.EightBits();
      Pow2Add(8, 8 * (n - 1));
      TopAndLow(x, Pow2(8 * (n - 1)));
    }
  }

  lemma TopAndLow(x: nat, p: nat)
    requires p > 0
    ensures x % (256 * p) == 256 * (x / 256 % p) + x % 256
  {
    var h := x / 256;
    var q, r := h / p, h % p;
    assert h == q * p + r;
    assert q * (256 * p) == 256 * (q * p) by { Assoc(q, 256, p); Assoc(256, q, p); }
    DivModUnique(x, 256 * p, q, 256 * r + x % 256);
  }

  lemma WordIsNumber(b: seq<Byte>)
    requires |b| == 4
    ensures BigEndian(b) == Number(b)
  {
    assert b[..3][..2] == b[..2] && b[..2][..1] == b[..1] && b[..1][..0] == [];
    assert Number(b[..1]) == b[0] && Number(b[..2]) == 256 * b[0] as int + b[1] as int;
    assert Number(b[..3]) == 256 * Number(b[..2]) + b[2];
  }

  /** Four bytes of the digest stand for one word of the hash value. */
  lemma DigestWords(h: Digest, j: nat)
    requires j < 8
    ensures Number(DigestBytes(h)[4 * j..4 * j + 4]) == h[j]
  {
    var d, b := DigestBytes(h), BigEndianBytes(h[j], 4);
    forall i | 0 <= i < 4 ensures d[4 * j..4 * j + 4][i] == b[i] {
      assert (4 * j + i) / 4 == j && (4 * j + i) % 4 == i;
    }
    assert d[4 * j..4 * j + 4] == b;
    NumberOfBytes(h[j], 4);
    WordBits();
    DivModUnique(h[j], Pow2(32), 0, h[j]);
  }

  /**
   * The padded message: the message, the byte 0x80, as few zero bytes as make whole blocks, and the length in bits, which
   * is exact below 2^64.
   */
  lemma PadShape(m: seq<Byte>)
    ensures var p, n := Pad(m), |m|;
      && |p| % 64 == 0 && n + 9 <= |p| < n + 73 && p[..n] == m && p[n] == 0x80
      && (forall i | n < i < |p| - 8 :: p[i] == 0)
      && Number(p[|p| - 8..]) == 8 * n % Pow2(64)
  {
    var p := Pad(m);
    assert p[|p| - 8..] == BigEndianBytes(8 * |m|, 8);
    NumberOfBytes(8 * |m|, 8);
  }
}
