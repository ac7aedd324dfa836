/** The message buffer as words and as bytes on a little-endian machine, and the padding done on words. */
module Sha256Words {
  import opened Arith
  import opened Sha256Spec
  import Bits

  // ----- bytes of a word

  function BytesOf(w: Word): (b: seq<Byte>)
    ensures |b| == 4
  {
    [w % 0x100, w / 0x100 % 0x100, w / 0x1_0000 % 0x100, w / 0x100_0000]
  }

  function LittleEndian(b: seq<Byte>): Word
    requires |b| == 4
  {
    b[0] as int + b[1] as int * 0x100 + b[2] as int * 0x1_0000 + b[3] as int * 0x100_0000
  }

  lemma BytesOfLittleEndian(b: seq<Byte>)
    requires |b| == 4
    ensures BytesOf(LittleEndian(b)) == b
  {
    var w := LittleEndian(b);
    DivModUnique(w, 0x100, b[1] as int + b[2] as int * 0x100 + b[3] as int * 0x1_0000, b[0]);
    DivModUnique(w / 0x100, 0x100, b[2] as int + b[3] as int * 0x100, b[1]);
    DivModUnique(w, 0x1_0000, b[2] as int + b[3] as int * 0x100, b[0] as int + b[1] as int * 0x100);
    DivModUnique(w / 0x1_0000, 0x100, b[3], b[2]);
    DivModUnique(w, 0x100_0000, b[3], b[0] as int + b[1] as int * 0x100 + b[2] as int * 0x1_0000);
  }

  /** The 64 bytes of the buffer in address order. */
  function Bytes(p: seq<Word>): (b: seq<Byte>)
    requires |p| == 16
    ensures |b| == 64
  {
    seq(64, i requires 0 <= i < 64 => BytesOf(p[i / 4])[i % 4])
  }

  /** Store a byte into the buffer. */
  function Poke(p: seq<Word>, i: nat, b: Byte): (q: seq<Word>)
    requires |p| == 16 && i < 64
    ensures |q| == 16
  {
    p[i / 4 := LittleEndian(BytesOf(p[i / 4])[i % 4 := b])]
  }

  lemma PokeSets(p: seq<Word>, i: nat, b: Byte)
    requires |p| == 16 && i < 64
    ensures Bytes(Poke(p, i, b)) == Bytes(p)[i := b]
  {
    hide BytesOf, LittleEndian;
    BytesOfLittleEndian(BytesOf(p[i / 4])[i % 4 := b]);
    var q := Poke(p, i, b);
    forall k | 0 <= k < 64 ensures Bytes(q)[k] == Bytes(p)[i := b][k] {
      if k / 4 == i / 4 && k != i {
        assert k % 4 != i % 4 by { assert k == 4 * (k / 4) + k % 4 && i == 4 * (i / 4) + i % 4; }
      }
    }
  }

  /** `bswap_32` */
  function Swap(w: Word): Word {
    BigEndian(BytesOf(w))
  }

  lemma WordOfBytes(p: seq<Word>, k: nat)
    requires |p| == 16 && k < 16
    ensures Bytes(p)[4 * k..4 * k + 4] == BytesOf(p[k])
  {
    hide BytesOf;
    forall j | 0 <= j < 4 ensures Bytes(p)[4 * k + j] == BytesOf(p[k])[j] {
      DivModUnique(4 * k + j, 4, k, j);
    }
  }

  /** Swapping all words turns the buffer into the message block it holds. */
  lemma SwappedIsBlock(p: seq<Word>, q: seq<Word>)
    requires |p| == |q| == 16 && forall k | 0 <= k < 16 :: q[k] == Swap(p[k])
    ensures q == WordsOf(Bytes(p))
  {
    hide BytesOf, BigEndian;
    forall k | 0 <= k < 16 ensures q[k] == WordsOf(Bytes(p))[k] {
      WordOfBytes(p, k);
    }
  }

  // ----- masks

  function Power256(n: nat): (p: nat)
    requires n <= 4
    ensures p >= 1
  {
    if n == 0 then 1 else if n == 1 then 0x100 else if n == 2 then 0x1_0000 else if n == 3 then 0x100_0000 else 0x1_0000_0000
  }

  lemma {:induction false} BytePowers(s: nat)
    requires s <= 4
    ensures Pow2(8 * s) == Power256(s)
    ensures s < 4 ==> Pow2(8 * s + 7) == 128 * Power256(s)
  {
    assert Pow2(8) == 256 && Pow2(7) == 128 by { assert Pow2(4) == 16; }
    if s > 0 {
      BytePowers(s - 1);
      Pow2Add(8 * (s - 1), 8);
    }
    Pow2Add(8 * s, 7);
  }

  /** The padding byte: mask the valid bytes and one bit, then set that bit; s is `~i & 3`. */
  function PadWord(w: Word, s: nat): Word
    requires s < 4
  {
    Or(And(w, Shl(0xFFFF_FF80, 8 * s)), Shl(0x80, 8 * s))
  }

  /** The bytes above byte s stay, byte s becomes 0x80, the bytes below it are cleared. */
  lemma PadWordKeeps(w: Word, s: nat)
    requires s < 4
    ensures PadWord(w, s) == w / Power256(s + 1) * Power256(s + 1) + 128 * Power256(s)
  {
    hide Bits.Or, Bits.And;
    var b := 128 * Power256(s);
    WordBits();
    BytePowers(s);
    BytePowers(s + 1);
    assert Shl(0x80, 8 * s) == b && Shl(0xFFFF_FF80, 8 * s) == WORD_MOD - b;
    Bits.MaskThenSet(w, 8 * s + 7, 32);
  }

  /** Applied to a word whose first r bytes are valid: padding byte behind them, then zeros. */
  lemma PadPartial(b: seq<Byte>, r: nat)
    requires |b| == 4 && r < 4
    ensures PadWord(BigEndian(b), 3 - r) == BigEndian(b[..r] + [0x80] + Zeros(3 - r))
  {
    hide PadWord;
    var w := BigEndian(b);
    PadWordKeeps(w, 3 - r);
    if r == 0 {
      assert w / 0x1_0000_0000 == 0;
    } else if r == 1 {
      DivModUnique(w, 0x100_0000, b[0], b[1] as int * 0x1_0000 + b[2] as int * 0x100 + b[3] as int);
    } else if r == 2 {
      DivModUnique(w, 0x1_0000, b[0] as int * 0x100 + b[1] as int, b[2] as int * 0x100 + b[3] as int);
    } else {
      DivModUnique(w, 0x100, b[0] as int * 0x1_0000 + b[1] as int * 0x100 + b[2] as int, b[3]);
    }
  }

  // ----- the length

  lemma BigEndianBack(x: nat)
    ensures BigEndian(BigEndianBytes(x, 4)) == W(x)
  {
    var b := BigEndianBytes(x, 4);
    var x1, x2, x3 := x / 256, x / 256 / 256, x / 256 / 256 / 256;
    assert BigEndianBytes(x2, 2) == [x3 % 256] + [x2 % 256] by { assert BigEndianBytes(x3, 1) == [] + [x3 % 256]; }
    assert b == BigEndianBytes(x1, 3) + [x % 256] == (BigEndianBytes(x2, 2) + [x1 % 256]) + [x % 256];
    DivModUnique(x, WORD_MOD, x3 / 256, BigEndian(b));
  }

  lemma {:induction false} BytesJoin(x: nat, n: nat, k: nat)
    requires k <= 4
    ensures BigEndianBytes(x, n + k) == BigEndianBytes(x / Power256(k), n) + BigEndianBytes(x, k)
  {
    if k > 0 {
      BytesJoin(x / 256, n, k - 1);
      DivDiv(x, 256, Power256(k - 1));
    }
  }

  /** The two length words; c0 and c1 are the halves of the byte count. */
  function HighLength(c0: Word, c1: Word): Word {
    Or(Shl(c1, 3), Shr(c0, 29))
  }

  function LowLength(c0: Word): Word {
    Shl(c0, 3)
  }

  const COUNT_MOD := 0x1_0000_0000_0000_0000

  /** The two count words hold n modulo 2^64. */
  ghost predicate Counted(c0: Word, c1: Word, n: nat) {
    c0 as int + WORD_MOD * c1 as int == n % COUNT_MOD
  }

  lemma LengthWords(n: nat, c0: Word, c1: Word)
    requires Counted(c0, c1, n)
    ensures var b := BigEndianBytes(8 * n, 8);
      BigEndian(b[..4]) == HighLength(c0, c1) && BigEndian(b[4..]) == LowLength(c0)
  {
    hide Bits.Or, HighLength, BigEndianBytes, BigEndian;
    BytesJoin(8 * n, 4, 4);
    BigEndianBack(8 * n);
    BigEndianBack(8 * n / WORD_MOD);
    HighLengthIs(c0, c1);
    var k := n / COUNT_MOD;
    assert 8 * n == 8 * c0 as int + WORD_MOD * (8 * c1 as int + 8 * WORD_MOD * k);
    EightTimes(c0, 8 * c1 as int + 8 * WORD_MOD * k, 8 * n);
    assert Pow2(3) == 8;
    ModMany(8 * c1 as int + c0 as int / 0x2000_0000, 8 * k);
  }

  lemma EightTimes(c0: Word, h: nat, x: nat)
    requires x == 8 * c0 as int + WORD_MOD * h
    ensures x / WORD_MOD == h + c0 as int / 0x2000_0000 && W(x) == W(8 * c0 as int)
  {
    var q, r := c0 as int / 0x2000_0000, c0 as int % 0x2000_0000;
    DivModUnique(x, WORD_MOD, h + q, 8 * r);
    DivModUnique(8 * c0 as int, WORD_MOD, q, 8 * r);
  }

  lemma ModMany(x: int, k: int)
    ensures W(x + WORD_MOD * k) == W(x)
  {
    DivModUnique(x + WORD_MOD * k, WORD_MOD, x / WORD_MOD + k, x % WORD_MOD);
  }

  lemma HighLengthIs(c0: Word, c1: Word)
    ensures HighLength(c0, c1) == W(8 * c1 as int + c0 as int / 0x2000_0000)
  {
    hide Bits.Or;
    WordBits();
    var c, q := c1 as int % 0x2000_0000, c0 as int / 0x2000_0000;
    assert Pow2(3) == 8;
    TwentyNine();
    DivModUnique(8 * c1 as int, WORD_MOD, c1 as int / 0x2000_0000, 8 * c);
    Bits.ShiftedOr(c, q, 3, 32);
    DivModUnique(8 * c1 as int + q, WORD_MOD, c1 as int / 0x2000_0000, 8 * c + q);
  }

  lemma TwentyNine()
    ensures Pow2(29) == 0x2000_0000
  {
    WordBits();
    assert Pow2(32) == 8 * Pow2(29);
  }

  // ----- words of a growing run of bytes

  ghost predicate PrefixWords(w: seq<Word>, b: seq<Byte>) {
    |w| == 16 && |b| % 4 == 0 && |b| <= 64 && forall k | 0 <= k < |b| / 4 :: w[k] == BigEndian(b[4 * k..4 * k + 4])
  }

  lemma AppendWord(w: seq<Word>, b: seq<Byte>, x: seq<Byte>)
    requires PrefixWords(w, b) && |b| < 64 && |x| == 4
    ensures PrefixWords(w[|b| / 4 := BigEndian(x)], b + x)
  {
    hide BigEndian;
    var c, n := b + x, |b| / 4;
    forall k | 0 <= k < |c| / 4 ensures w[n := BigEndian(x)][k] == BigEndian(c[4 * k..4 * k + 4]) {
      if k < n {
        assert c[4 * k..4 * k + 4] == b[4 * k..4 * k + 4];
      } else {
        assert c[4 * k..4 * k + 4] == x;
      }
    }
  }

  lemma WholeBlock(w: seq<Word>, b: seq<Byte>)
    requires PrefixWords(w, b) && |b| == 64
    ensures w == WordsOf(b)
  {
  }

  /** The message's last bytes, the padding byte and zeros up to a word. */
  function Padded(t: seq<Byte>): (q: seq<Byte>)
    ensures |q| == 4 * (|t| / 4) + 4
  {
    t + [0x80] + Zeros(3 - |t| % 4)
  }

  /** The words a message's last bytes touch, swapped and padded. */
  lemma PaddedWords(p: seq<Word>, s: seq<Word>, t: seq<Byte>)
    requires |p| == |s| == 16 && |t| < 64 && Bytes(p)[..|t|] == t
    requires forall k | 0 <= k < 16 :: s[k] == if k < (|t| + 3) / 4 then Swap(p[k]) else p[k]
    ensures PrefixWords(s[|t| / 4 := PadWord(s[|t| / 4], 3 - |t| % 4)], Padded(t))
  {
    hide BigEndian, BytesOf, PadWord;
    var n, r, q := |t| / 4, |t| % 4, Padded(t);
    var w := s[n := PadWord(s[n], 3 - r)];
    forall k | 0 <= k < n ensures w[k] == BigEndian(q[4 * k..4 * k + 4]) {
      WordOfBytes(p, k);
      assert q[4 * k..4 * k + 4] == t[4 * k..4 * k + 4] == Bytes(p)[4 * k..4 * k + 4];
    }
    LastWord(p[n], s[n], t[4 * n..]) by {
      WordOfBytes(p, n);
      assert t[4 * n..] == Bytes(p)[4 * n..4 * n + 4][..r];
    }
    assert q[4 * n..4 * n + 4] == t[4 * n..] + [0x80] + Zeros(3 - r);
  }

  lemma LastWord(p: Word, s: Word, t: seq<Byte>)
    requires |t| < 4 && t == BytesOf(p)[..|t|] && (|t| > 0 ==> s == Swap(p))
    ensures PadWord(s, 3 - |t|) == BigEndian(t + [0x80] + Zeros(3 - |t|))
  {
    hide BigEndian, PadWord, BytesOf;
    if |t| > 0 {
      PadPartial(BytesOf(p), |t|);
    } else {
      var b := BigEndianBytes(s, 4);
      BigEndianBack(s);
      PadPartial(b, 0);
      assert b[..0] == t;
    }
  }
}
