/** `sha256_begin`, `sha256_hash` and `sha256_end`: hashing a message that arrives in pieces. */
module Sha256 {
  import opened Arith
  import opened AesBlocks
  import S = Sha256Spec
  import C = Sha256Compile
  import opened Sha256Words

  type Word = S.Word

  /** The bytes of a message that do not fill a block. */
  function Tail(m: seq<Byte>): (t: seq<Byte>)
    ensures |t| == |m| % 64
  {
    m[|m| - |m| % 64..]
  }

  /** Hash and buffer are those of a message seen as far as m. */
  ghost predicate Filled(hash: seq<Word>, wbuf: seq<Word>, m: seq<Byte>) {
    && |hash| == 8 && |wbuf| == 16
    && hash == S.HashBlocks(S.H0(), m) && Bytes(wbuf)[..|m| % 64] == Tail(m)
  }

  // ----- blocks

  /** A whole block behind whole blocks. */
  lemma {:induction false} HashOneMore(h: S.Digest, a: seq<Byte>, b: seq<Byte>)
    requires |a| % 64 == 0 && |b| == 64
    ensures S.HashBlocks(h, a + b) == S.Compress(S.HashBlocks(h, a), S.WordsOf(b))
    decreases |a|
  {
    hide S.Compress, S.WordsOf;
    if a == [] {
      assert a + b == b && b[..64] == b && b[64..] == [];
      assert S.HashBlocks(S.Compress(h, S.WordsOf(b)), []) == S.Compress(h, S.WordsOf(b));
    } else {
      assert (a + b)[..64] == a[..64] && (a + b)[64..] == a[64..] + b;
      HashOneMore(S.Compress(h, S.WordsOf(a[..64])), a[64..], b);
    }
  }

  /** What does not fill a block is not hashed yet. */
  lemma {:induction false} HashWhole(h: S.Digest, a: seq<Byte>, t: seq<Byte>)
    requires |a| % 64 == 0 && |t| < 64
    ensures S.HashBlocks(h, a + t) == S.HashBlocks(h, a)
    decreases |a|
  {
    hide S.Compress, S.WordsOf;
    if a == [] {
      assert a + t == t;
    } else {
      assert (a + t)[..64] == a[..64] && (a + t)[64..] == a[64..] + t;
      HashWhole(S.Compress(h, S.WordsOf(a[..64])), a[64..], t);
    }
  }

  lemma TailSplit(m: seq<Byte>, x: seq<Byte>)
    ensures var a := m[..|m| - |m| % 64]; |a| % 64 == 0 && m == a + Tail(m) && m + x == a + (Tail(m) + x)
  {
  }

  /** The bytes x complete the block that the tail of m began. */
  lemma BlockFills(m: seq<Byte>, x: seq<Byte>)
    requires |m| % 64 + |x| == 64
    ensures |m + x| % 64 == 0
    ensures S.HashBlocks(S.H0(), m + x) == S.Compress(S.HashBlocks(S.H0(), m), S.WordsOf(Tail(m) + x))
  {
    hide S.Compress, S.WordsOf, S.HashBlocks, S.H0;
    var a := m[..|m| - |m| % 64];
    TailSplit(m, x);
    HashOneMore(S.H0(), a, Tail(m) + x);
    HashWhole(S.H0(), a, Tail(m));
  }

  /** The bytes x leave the block incomplete. */
  lemma BlockGrows(m: seq<Byte>, x: seq<Byte>)
    requires |m| % 64 + |x| < 64
    ensures S.HashBlocks(S.H0(), m + x) == S.HashBlocks(S.H0(), m) && Tail(m + x) == Tail(m) + x
  {
    hide S.HashBlocks, S.H0;
    var a := m[..|m| - |m| % 64];
    TailSplit(m, x);
    HashWhole(S.H0(), a, Tail(m) + x);
    HashWhole(S.H0(), a, Tail(m));
    DivModUnique(|m + x|, 64, |m| / 64, |m| % 64 + |x|);
  }

  // ----- buffer operations

  /** `memcpy` into the bytes of the buffer */
  method CopyBytes(wbuf: array<Word>, pos: nat, data: seq<Byte>, from: nat, n: nat)
    requires wbuf.Length == 16 && pos + n <= 64 && from + n <= |data|
    modifies wbuf
    ensures Bytes(wbuf[..]) == Put(old(Bytes(wbuf[..])), pos, data[from..from + n])
  {
    hide Bytes, Poke, Put, Partly;
    ghost var s := Bytes(wbuf[..]);
    ghost var x, y := s[pos..pos + n], data[from..from + n];
    PartlyEnds(s, pos, y);
    var i := 0;
    while i < n
      invariant 0 <= i <= n && Bytes(wbuf[..]) == Put(s, pos, Partly(x, y, i))
    {
      PartlyStep(x, y, i);
      PutAt(s, pos, Partly(x, y, i), i, y[i]);
      PokeSets(wbuf[..], pos + i, y[i]);
      PokeByte(wbuf, pos + i, data[from + i]);
      i := i + 1;
    }
  }

  method PokeByte(wbuf: array<Word>, i: nat, b: Byte)
    requires wbuf.Length == 16 && i < 64
    modifies wbuf
    ensures wbuf[..] == Poke(old(wbuf[..]), i, b)
  {
    wbuf[i / 4] := LittleEndian(BytesOf(wbuf[i / 4])[i % 4 := b]);
  }

  /** `bsw_32`: swap the bytes of the first n words, from the last one down. */
  method SwapWords(wbuf: array<Word>, n: nat)
    requires wbuf.Length == 16 && n <= 16
    modifies wbuf
    ensures forall k | 0 <= k < 16 :: wbuf[k] == if k < n then Swap(old(wbuf[k])) else old(wbuf[k])
  {
    hide Swap;
    var i := n;
    while i > 0
      invariant 0 <= i <= n
      invariant forall k | 0 <= k < 16 :: wbuf[k] == if i <= k < n then Swap(old(wbuf[k])) else old(wbuf[k])
    {
      i := i - 1;
      wbuf[i] := Swap(wbuf[i]);
    }
  }

  // ----- the context

  class Sha256Ctx {
    var count0: Word
    var count1: Word
    const hash: array<Word>
    const wbuf: array<Word>

    ghost predicate Valid() {
      hash.Length == 8 && wbuf.Length == 16 && hash != wbuf
    }

    /** The context has been given exactly the message m. */
    ghost predicate Absorbed(m: seq<Byte>)
      reads this, hash, wbuf
    {
      Valid() && Counted(count0, count1, |m|) && Filled(hash[..], wbuf[..], m)
    }

    /** `sha256_begin` */
    constructor ()
      ensures Absorbed([]) && fresh(hash) && fresh(wbuf)
    {
      hide S.H0;
      count0, count1 := 0, 0;
      var h := S.H0();
      hash := new Word[8](i requires 0 <= i < 8 => h[i]);
      wbuf := new Word[16](_ => 0);
      new;
      assert hash[..] == S.H0();
    }

    method AddCount(len: nat, ghost n: nat)
      requires Counted(count0, count1, n) && len < S.WORD_MOD
      modifies `count0, `count1
      ensures Counted(count0, count1, n + len)
    {
      Count(n, len, count0, count1);
      count0 := S.W(count0 as int + len);
      if count0 < len {
        count1 := S.W(count1 as int + 1);
      }
    }

    /** `sha256_hash`; lengths are 32-bit. */
    method Hash(data: seq<Byte>, ghost m: seq<Byte>)
      requires Absorbed(m) && |data| < S.WORD_MOD
      modifies this, hash, wbuf
      ensures Absorbed(m + data)
    {
      hide Filled, Counted;
      var len := |data|;
      LowBits(|m|, count0, count1);
      var pos: int := count0 as int % 64;
      var space: int := 64 - pos;
      AddCount(len, |m|);
      var sp: int := 0;
      ghost var a := m;
      assert m + data[..0] == m;
      while len >= space
        invariant 0 <= sp && 0 <= len && sp + len == |data| && pos == |a| % 64 && space == 64 - pos
        invariant a == m + data[..sp] && Filled(hash[..], wbuf[..], a)
        invariant Counted(count0, count1, |m| + |data|)
        decreases len
      {
        AbsorbBlock(hash, wbuf, data, pos, sp, space, a);
        Extend(m, data, sp, space);
        a := a + data[sp..sp + space];
        sp, len, space, pos := sp + space, len - space, 64, 0;
      }
      AbsorbRest(hash, wbuf, data, pos, sp, len, a);
      Extend(m, data, sp, len);
      assert data[..sp + len] == data;
    }

    /** `sha256_end` */
    method End(ghost m: seq<Byte>) returns (hval: seq<Byte>)
      requires Absorbed(m)
      modifies hash, wbuf
      ensures hval == S.Sha256(m)
    {
      hide PrefixWords, Padded, Bytes, S.Compress, S.WordsOf, S.HashBlocks, S.H0, S.BigEndianBytes, S.Pad;
      LowBits(|m|, count0, count1);
      var i: int := count0 as int % 64;
      ghost var q := Padded(Tail(m));
      ghost var b := q;
      PadTail(wbuf, i, Tail(m));
      if i > 64 - 9 {
        PadTwoBlocks(m);
        if i < 60 {
          ZeroWord(wbuf[..], q);
          ghost var w := wbuf[..];
          wbuf[15] := 0;
          assert wbuf[..] == w[15 := 0];
        } else {
          assert q + S.Zeros(0) == q;
        }
        WholeBlock(wbuf[..], q + S.Zeros(64 - |q|));
        C.Compile(hash, wbuf);
        i, b := 0, [];
        NothingYet(wbuf[..]);
      } else {
        PadOneBlock(m);
        i := i / 4 + 1;
      }
      ZeroWords(wbuf, i, b);
      assert [] + S.Zeros(56) == S.Zeros(56);
      LengthEnd(wbuf, count0, count1, |m|, b + S.Zeros(56 - |b|));
      C.Compile(hash, wbuf);
      hval := Extract();
    }

    /** The digest, byte by byte: `hash[i >> 2] >> (8 * (~i & 3))` cut to a byte. */
    method Extract() returns (hval: seq<Byte>)
      requires Valid()
      ensures hval == S.DigestBytes(hash[..])
    {
      hval := [];
      var i := 0;
      while i < 32
        invariant 0 <= i <= 32 && hval == S.DigestBytes(hash[..])[..i]
      {
        ByteAt(hash[i / 4], i % 4);
        hval := hval + [S.Shr(hash[i / 4], 8 * (3 - i % 4)) % 256];
        i := i + 1;
      }
    }
  }

  // ----- the end of the message

  /** Where the length fits behind the padding byte, the padded message is one block longer. */
  lemma PadOneBlock(m: seq<Byte>)
    requires |m| % 64 <= 55
    ensures var q, len := Padded(Tail(m)), S.BigEndianBytes(8 * |m|, 8);
      S.HashBlocks(S.H0(), S.Pad(m)) == S.Compress(S.HashBlocks(S.H0(), m), S.WordsOf(q + S.Zeros(56 - |q|) + len))
  {
    hide S.Compress, S.WordsOf, S.HashBlocks, S.H0, S.BigEndianBytes;
    var i, q, len := |m| % 64, Padded(Tail(m)), S.BigEndianBytes(8 * |m|, 8);
    var p := [0x80] + S.Zeros(55 - i) + len;
    assert S.Gap(|m|) == 55 - i;
    assert S.Zeros(3 - i % 4) + S.Zeros(56 - |q|) == S.Zeros(55 - i);
    assert S.Pad(m) == m + p && Tail(m) + p == q + S.Zeros(56 - |q|) + len;
    BlockFills(m, p);
  }

  /** Otherwise it is two blocks longer. */
  lemma PadTwoBlocks(m: seq<Byte>)
    requires |m| % 64 > 55
    ensures var q, len := Padded(Tail(m)), S.BigEndianBytes(8 * |m|, 8);
      var h := S.Compress(S.HashBlocks(S.H0(), m), S.WordsOf(q + S.Zeros(64 - |q|)));
      S.HashBlocks(S.H0(), S.Pad(m)) == S.Compress(h, S.WordsOf(S.Zeros(56) + len))
  {
    hide S.Compress, S.WordsOf, S.HashBlocks, S.H0, S.BigEndianBytes;
    var i, q, len := |m| % 64, Padded(Tail(m)), S.BigEndianBytes(8 * |m|, 8);
    var p1, p2 := [0x80] + S.Zeros(63 - i), S.Zeros(56) + len;
    assert S.Gap(|m|) == 119 - i;
    assert S.Zeros(3 - i % 4) + S.Zeros(64 - |q|) == S.Zeros(63 - i);
    assert S.Pad(m) == (m + p1) + p2 && Tail(m) + p1 == q + S.Zeros(64 - |q|);
    BlockFills(m, p1);
    BlockFills(m + p1, p2);
    assert Tail(m + p1) + p2 == p2;
  }

  /** Zero words up to word 14, behind the bytes b. */
  method ZeroWords(wbuf: array<Word>, from: nat, ghost b: seq<Byte>)
    requires wbuf.Length == 16 && from <= 14 && |b| == 4 * from && PrefixWords(wbuf[..], b)
    modifies wbuf
    ensures PrefixWords(wbuf[..], b + S.Zeros(56 - |b|))
  {
    hide PrefixWords, S.BigEndian;
    var i := from;
    assert b + S.Zeros(0) == b;
    while i < 14
      invariant from <= i <= 14 && PrefixWords(wbuf[..], b + S.Zeros(4 * i - |b|))
    {
      ghost var c, w := b + S.Zeros(4 * i - |b|), wbuf[..];
      ZeroWord(w, c);
      wbuf[i] := 0;
      assert wbuf[..] == w[i := 0];
      i := i + 1;
      assert c + S.Zeros(4) == b + S.Zeros(4 * i - |b|);
    }
  }

  lemma ZeroWord(w: seq<Word>, b: seq<Byte>)
    requires PrefixWords(w, b) && |b| < 64
    ensures PrefixWords(w[|b| / 4 := 0], b + S.Zeros(4))
  {
    hide PrefixWords;
    AppendWord(w, b, S.Zeros(4));
    assert S.BigEndian(S.Zeros(4)) == 0;
  }

  /** The two length words complete the block. */
  method LengthEnd(wbuf: array<Word>, c0: Word, c1: Word, ghost n: nat, ghost b: seq<Byte>)
    requires wbuf.Length == 16 && Counted(c0, c1, n) && |b| == 56 && PrefixWords(wbuf[..], b)
    modifies wbuf
    ensures wbuf[..] == S.WordsOf(b + S.BigEndianBytes(8 * n, 8))
  {
    hide PrefixWords, S.BigEndian, S.BigEndianBytes, HighLength, LowLength, S.WordsOf, Counted;
    LengthWords(n, c0, c1);
    ghost var len, w := S.BigEndianBytes(8 * n, 8), wbuf[..];
    AppendWord(w, b, len[..4]);
    ghost var u: seq<Word> := w[14 := HighLength(c0, c1)];
    AppendWord(u, b + len[..4], len[4..]);
    wbuf[14] := HighLength(c0, c1);
    wbuf[15] := LowLength(c0);
    assert wbuf[..] == u[15 := LowLength(c0)];
    assert b + len[..4] + len[4..] == b + len;
    WholeBlock(wbuf[..], b + len);
  }

  /** Swap the words that hold message bytes and set the padding byte; i is the number of those bytes. */
  method PadTail(wbuf: array<Word>, i: nat, ghost t: seq<Byte>)
    requires wbuf.Length == 16 && i == |t| < 64 && Bytes(wbuf[..])[..i] == t
    modifies wbuf
    ensures PrefixWords(wbuf[..], Padded(t))
  {
    hide PrefixWords, Bytes, Padded, Swap, S.And, S.Or, S.Shl;
    ghost var p := wbuf[..];
    SwapWords(wbuf, (i + 3) / 4);
    ghost var s := wbuf[..];
    PaddedWords(p, s, t);
    var k := 3 - i % 4;
    wbuf[i / 4] := S.And(wbuf[i / 4], S.Shl(0xFFFF_FF80, 8 * k));
    wbuf[i / 4] := S.Or(wbuf[i / 4], S.Shl(0x80, 8 * k));
    assert wbuf[..] == s[i / 4 := PadWord(s[i / 4], k)];
  }

  lemma NothingYet(w: seq<Word>)
    requires |w| == 16
    ensures PrefixWords(w, [])
  {
  }

  lemma ByteAt(w: Word, j: nat)
    requires j < 4
    ensures S.BigEndianBytes(w, 4)[j] == S.Shr(w, 8 * (3 - j)) % 256
  {
    BytePowers(3 - j);
    BytesJoin(w, j + 1, 3 - j);
    assert S.BigEndianBytes(w / Power256(3 - j), j + 1)[j] == w / Power256(3 - j) % 256;
  }

  lemma Extend(m: seq<Byte>, x: seq<Byte>, i: nat, n: nat)
    requires i + n <= |x|
    ensures m + x[..i] + x[i..i + n] == m + x[..i + n]
  {
    assert x[..i] + x[i..i + n] == x[..i + n];
  }

  lemma LowBits(n: nat, c0: Word, c1: Word)
    requires Counted(c0, c1, n)
    ensures c0 as int % 64 == n % 64
  {
    var q := n / COUNT_MOD;
    assert n == c0 as int + 64 * (0x400_0000 * c1 as int + 0x400_0000_0000_0000 * q);
    DivModUnique(n, 64, c0 as int / 64 + (0x400_0000 * c1 as int + 0x400_0000_0000_0000 * q), c0 as int % 64);
  }

  /** The carry out of the low count word shows as a sum below the addend. */
  lemma Count(n: nat, len: nat, c0: Word, c1: Word)
    requires Counted(c0, c1, n) && len < S.WORD_MOD
    ensures var d0 := S.W(c0 as int + len);
      Counted(d0, if d0 < len then S.W(c1 as int + 1) else c1, n + len)
  {
    var q := n / COUNT_MOD;
    var d0 := S.W(c0 as int + len);
    if c0 as int + len < S.WORD_MOD {
      assert d0 == c0 as int + len;
      DivModUnique(n + len, COUNT_MOD, q, d0 as int + S.WORD_MOD * c1 as int);
    } else {
      assert d0 == c0 as int + len - S.WORD_MOD;
      if c1 as int + 1 < S.WORD_MOD {
        DivModUnique(n + len, COUNT_MOD, q, d0 as int + S.WORD_MOD * (c1 as int + 1));
      } else {
        DivModUnique(n + len, COUNT_MOD, q + 1, d0);
      }
    }
  }

  /** Fill up the buffer, swap it and hash it. */
  method AbsorbBlock(hash: array<Word>, wbuf: array<Word>, data: seq<Byte>, pos: nat, sp: nat, space: nat, ghost a: seq<Byte>)
    requires hash.Length == 8 && wbuf.Length == 16 && hash != wbuf && sp + space <= |data|
    requires pos == |a| % 64 && space == 64 - pos && Filled(hash[..], wbuf[..], a)
    modifies hash, wbuf
    ensures Filled(hash[..], wbuf[..], a + data[sp..sp + space]) && |a + data[sp..sp + space]| % 64 == 0
  {
    hide S.Compress, S.WordsOf, S.HashBlocks, S.H0, Bytes, Put;
    ghost var x, s := data[sp..sp + space], Bytes(wbuf[..]);
    CopyBytes(wbuf, pos, data, sp, space);
    FullBuffer(s, Tail(a), x);
    ghost var p := wbuf[..];
    SwapWords(wbuf, 16);
    SwappedIsBlock(p, wbuf[..]);
    BlockFills(a, x);
    C.Compile(hash, wbuf);
  }

  lemma FullBuffer(s: seq<Byte>, t: seq<Byte>, x: seq<Byte>)
    requires |s| == 64 == |t| + |x| && s[..|t|] == t
    ensures Put(s, |t|, x) == t + x
  {
  }

  /** Keep what does not fill a block. */
  method AbsorbRest(hash: array<Word>, wbuf: array<Word>, data: seq<Byte>, pos: nat, sp: nat, n: nat, ghost a: seq<Byte>)
    requires hash.Length == 8 && wbuf.Length == 16 && hash != wbuf && sp + n <= |data|
    requires pos == |a| % 64 && pos + n < 64 && Filled(hash[..], wbuf[..], a)
    modifies wbuf
    ensures Filled(hash[..], wbuf[..], a + data[sp..sp + n])
  {
    hide S.Compress, S.WordsOf, S.HashBlocks, S.H0, Bytes, Put;
    ghost var x, s := data[sp..sp + n], Bytes(wbuf[..]);
    CopyBytes(wbuf, pos, data, sp, n);
    PartBuffer(s, Tail(a), x);
    BlockGrows(a, x);
  }

  lemma PartBuffer(s: seq<Byte>, t: seq<Byte>, x: seq<Byte>)
    requires |s| == 64 > |t| + |x| && s[..|t|] == t
    ensures Put(s, |t|, x)[..|t| + |x|] == t + x
  {
  }
}
