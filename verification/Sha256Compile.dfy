/** `sha256_compile`: rounds over rotated variables and a message schedule kept in sixteen words in place. */
module Sha256Compile {
  import opened Arith
  import opened Sha256Spec
  import Bits

  // ----- the cheaper forms of Ch and Maj

  function ChFast(x: Word, y: Word, z: Word): Word {
    Xor(z, And(x, Xor(y, z)))
  }

  function MajFast(x: Word, y: Word, z: Word): Word {
    Or(And(x, y), And(z, Xor(x, y)))
  }

  /** Bit i of each operation on words. */
  lemma BitsOf(x: Word, y: Word, i: nat)
    requires i < 32
    ensures Bits.Bit(And(x, y), i) == (Bits.Bit(x, i) && Bits.Bit(y, i))
    ensures Bits.Bit(Or(x, y), i) == (Bits.Bit(x, i) || Bits.Bit(y, i))
    ensures Bits.Bit(Xor(x, y), i) == (Bits.Bit(x, i) != Bits.Bit(y, i))
    ensures Bits.Bit(Not(x), i) == !Bits.Bit(x, i)
  {
    hide Bits.And, Bits.Or, Bits.Xor, Bits.Not, Bits.Bit;
    Bits.AndBit(x, y, 32, i);
    Bits.OrBit(x, y, 32, i);
    Bits.XorBit(x, y, 32, i);
    Bits.NotBit(x, 32, i);
  }

  lemma SameWord(x: Word, y: Word)
    requires forall i: nat | i < 32 :: Bits.Bit(x, i) == Bits.Bit(y, i)
    ensures x == y
  {
    WordBits();
    Bits.SameBits(x, y, 32);
  }

  lemma ChFastIsCh(x: Word, y: Word, z: Word)
    ensures ChFast(x, y, z) == Ch(x, y, z)
  {
    hide And, Or, Xor, Not, Bits.Bit;
    forall i: nat | i < 32 ensures Bits.Bit(ChFast(x, y, z), i) == Bits.Bit(Ch(x, y, z), i) {
      BitsOf(y, z, i);
      BitsOf(x, Xor(y, z), i);
      BitsOf(z, And(x, Xor(y, z)), i);
      BitsOf(x, y, i);
      BitsOf(Not(x), z, i);
      BitsOf(And(x, y), And(Not(x), z), i);
    }
    SameWord(ChFast(x, y, z), Ch(x, y, z));
  }

  lemma MajFastIsMaj(x: Word, y: Word, z: Word)
    ensures MajFast(x, y, z) == Maj(x, y, z)
  {
    hide And, Or, Xor, Not, Bits.Bit;
    forall i: nat | i < 32 ensures Bits.Bit(MajFast(x, y, z), i) == Bits.Bit(Maj(x, y, z), i) {
      BitsOf(x, y, i);
      BitsOf(z, Xor(x, y), i);
      BitsOf(And(x, y), And(z, Xor(x, y)), i);
      BitsOf(x, z, i);
      BitsOf(y, z, i);
      BitsOf(And(x, y), And(x, z), i);
      BitsOf(Xor(And(x, y), And(x, z)), And(y, z), i);
    }
    SameWord(MajFast(x, y, z), Maj(x, y, z));
  }

  // ----- the rotated variables

  /** `vf(n, i)` */
  function Slot(n: int, t: int): (k: nat)
    ensures k < 8
  {
    (n - t) % 8
  }

  lemma SlotsDiffer(m: int, n: int, t: int)
    requires 0 <= m < n < 8
    ensures Slot(m, t) != Slot(n, t)
  {
  }

  lemma SlotMoves(n: int, t: int)
    ensures Slot(n, t + 1) == Slot(n - 1, t) && Slot(n + 8, t) == Slot(n, t)
  {
  }

  /** The variables hold a to h, moved round by the number of rounds done. */
  ghost predicate Rotated(v: seq<Word>, s: Digest, t: int)
    requires |v| == 8
  {
    forall n | 0 <= n < 8 :: v[Slot(n, t)] == s[n]
  }

  /** What one `v_cycle` makes of the variables. */
  function Cycle(v: seq<Word>, t: int, k: Word, w: Word): (r: seq<Word>)
    requires |v| == 8
    ensures |r| == 8
  {
    var x := W(v[Slot(7, t)] as int + w as int + k as int + BigSigma1(v[Slot(4, t)]) as int
             + ChFast(v[Slot(4, t)], v[Slot(5, t)], v[Slot(6, t)]) as int);
    var y := W(v[Slot(3, t)] as int + x as int);
    var z := W(x as int + BigSigma0(v[Slot(0, t)]) as int + MajFast(v[Slot(0, t)], v[Slot(1, t)], v[Slot(2, t)]) as int);
    v[Slot(3, t) := y][Slot(7, t) := z]
  }

  /** Rotating the names instead of moving the words computes the standard's round. */
  lemma CycleIsRound(v: seq<Word>, s: Digest, t: int, k: Word, w: Word)
    requires |v| == 8 && Rotated(v, s, t)
    ensures Rotated(Cycle(v, t, k, w), Round(s, k, w), t + 1)
  {
    hide ChFast, MajFast, Ch, Maj, BigSigma0, BigSigma1, W, Slot;
    ChFastIsCh(s[4], s[5], s[6]);
    MajFastIsMaj(s[0], s[1], s[2]);
    var t1 := s[7] as int + BigSigma1(s[4]) as int + Ch(s[4], s[5], s[6]) as int + k as int + w as int;
    var t2 := BigSigma0(s[0]) as int + Maj(s[0], s[1], s[2]) as int;
    Sum(t1, W(t2) as int);
    Sum(t2, t1);
    Sum(t1, t2);
    Sum(t1, s[3] as int);
    Sum(s[3] as int, W(t1) as int);
    var r := Cycle(v, t, k, w);
    forall n | 0 <= n < 8 ensures r[Slot(n, t + 1)] == Round(s, k, w)[n] {
      SlotMoves(n, t);
      SlotMoves(-1, t);
      if 0 < n < 4 { SlotsDiffer(n - 1, 3, t); SlotsDiffer(n - 1, 7, t); }
      if 4 < n { SlotsDiffer(3, n - 1, t); SlotsDiffer(n - 1, 7, t); }
      SlotsDiffer(3, 7, t);
    }
  }

  // ----- the schedule in sixteen words

  /** Which word of the schedule slot k holds before round t: the last one below t, or the message word. */
  function Latest(k: nat, t: nat): nat
    requires k < 16
  {
    if t < 16 then k else t - 1 - (t - 1 - k) % 16
  }

  ghost predicate Window(p: seq<Word>, m: MessageBlock, t: nat)
    requires |p| == 16
  {
    forall k | 0 <= k < 16 :: p[k] == Schedule(m, Latest(k, t))
  }

  lemma LatestMoves(k: nat, t: nat)
    requires k < 16
    ensures Latest(k, t + 1) == if k == t % 16 then t else Latest(k, t)
  {
    if t >= 16 {
      OneLess(t - k);
      SameResidue(t, k);
    }
  }

  lemma OneLess(a: int)
    ensures (a - 1) % 16 == if a % 16 == 0 then 15 else a % 16 - 1
  {
    var q, r := a / 16, a % 16;
    if r == 0 {
      DivModUnique(a - 1, 16, q - 1, 15);
    } else {
      DivModUnique(a - 1, 16, q, r - 1);
    }
  }

  lemma SameResidue(t: int, k: int)
    requires 0 <= k < 16
    ensures (t - k) % 16 == 0 <==> k == t % 16
  {
    if (t - k) % 16 == 0 {
      DivModUnique(t, 16, (t - k) / 16, k);
    }
    if k == t % 16 {
      DivModUnique(t - k, 16, t / 16, 0);
    }
  }

  /** `hf(i)`: the word that takes the place of the oldest one. */
  function NextWord(p: seq<Word>, i: nat): Word
    requires |p| == 16 && i < 16
  {
    W(p[i] as int + SmallSigma1(p[(i + 14) % 16]) as int + p[(i + 9) % 16] as int + SmallSigma0(p[(i + 1) % 16]) as int)
  }

  lemma NextWordIsNext(p: seq<Word>, m: MessageBlock, t: nat)
    requires |p| == 16 && Window(p, m, t) && t >= 16
    ensures NextWord(p, t % 16) == Schedule(m, t)
  {
    hide W, SmallSigma0, SmallSigma1, Schedule, Window;
    var i := t % 16;
    WindowAt(p, m, t, 16);
    WindowAt(p, m, t, 2);
    WindowAt(p, m, t, 7);
    WindowAt(p, m, t, 15);
    ScheduleStep(m, t);
    Commute(p[i], SmallSigma1(p[(i + 14) % 16]), p[(i + 9) % 16], SmallSigma0(p[(i + 1) % 16]));
  }

  /** The word d rounds back. */
  lemma WindowAt(p: seq<Word>, m: MessageBlock, t: nat, d: nat)
    requires |p| == 16 && Window(p, m, t) && 1 <= d <= 16 <= t
    ensures p[(t % 16 + (16 - d)) % 16] == Schedule(m, t - d)
  {
    hide Schedule;
    BackBy(t, d);
    assert Latest((t % 16 + (16 - d)) % 16, t) == t - d;
  }

  lemma BackBy(t: nat, d: nat)
    requires d <= 16 <= t
    ensures (t % 16 + (16 - d)) % 16 == (t - d) % 16
  {
  }

  lemma ScheduleStep(m: MessageBlock, t: nat)
    requires t >= 16
    ensures Schedule(m, t) == W(SmallSigma1(Schedule(m, t - 2)) as int + Schedule(m, t - 7) as int
                              + SmallSigma0(Schedule(m, t - 15)) as int + Schedule(m, t - 16) as int)
  {
  }

  lemma Commute(a: int, b: int, c: int, d: int)
    ensures W(a + b + c + d) == W(b + c + d + a)
  {
    assert a + b + c + d == b + c + d + a;
  }

  /** With the next word of the schedule in the oldest one's place, the window has moved on. */
  lemma WindowMoves(p: seq<Word>, m: MessageBlock, t: nat, w: Word)
    requires |p| == 16 && Window(p, m, t) && w == Schedule(m, t)
    ensures Window(p[t % 16 := w], m, t + 1)
  {
    hide Schedule, Latest;
    var q := p[t % 16 := w];
    forall k | 0 <= k < 16 ensures q[k] == Schedule(m, Latest(k, t + 1)) {
      LatestMoves(k, t);
    }
  }

  lemma FirstWords(p: seq<Word>, m: MessageBlock, t: nat)
    requires |p| == 16 && t < 16 && Window(p, m, t)
    ensures p[t] == Schedule(m, t) && p[t := p[t]] == p
  {
    assert Latest(t, t) == t;
  }

  /** `(j ? hf(i) : p[i])` */
  method ScheduleWord(p: array<Word>, i: nat, j: nat, ghost m: MessageBlock) returns (w: Word)
    requires p.Length == 16 && i < 16 && j % 16 == 0 && Window(p[..], m, i + j)
    modifies p
    ensures w == Schedule(m, i + j) && Window(p[..], m, i + j + 1)
  {
    hide W, SmallSigma0, SmallSigma1, Schedule, Window;
    ghost var p0 := p[..];
    assert (i + j) % 16 == i;
    if j != 0 {
      NextWordIsNext(p0, m, i + j);
      p[i] := W(p[i] as int + SmallSigma1(p[(i + 14) % 16]) as int + p[(i + 9) % 16] as int + SmallSigma0(p[(i + 1) % 16]) as int);
    } else {
      FirstWords(p0, m, i);
    }
    w := p[i];
    assert p[..] == p0[i := w];
    WindowMoves(p0, m, i + j, w);
  }

  /** `v_cycle(i, j)` */
  method VCycle(v: array<Word>, p: array<Word>, i: nat, j: nat, ghost h: Digest, ghost m: MessageBlock)
    requires v.Length == 8 && p.Length == 16 && v != p && i < 16 && j % 16 == 0 && i + j < 64
    requires Rotated(v[..], Rounds(h, m, i + j), i + j) && Window(p[..], m, i + j)
    modifies v, p
    ensures Rotated(v[..], Rounds(h, m, i + j + 1), i + j + 1) && Window(p[..], m, i + j + 1)
  {
    hide W, BigSigma0, BigSigma1, ChFast, MajFast, Round, Rotated, Window, Schedule, K, Slot;
    ghost var v0 := v[..];
    SameSlots(i, j);
    var w := ScheduleWord(p, i, j, m);
    CycleIsRound(v0, Rounds(h, m, i + j), i + j, K()[i + j], w);
    v[Slot(7, i)] := W(v[Slot(7, i)] as int + w as int + K()[i + j] as int + BigSigma1(v[Slot(4, i)]) as int
                     + ChFast(v[Slot(4, i)], v[Slot(5, i)], v[Slot(6, i)]) as int);
    v[Slot(3, i)] := W(v[Slot(3, i)] as int + v[Slot(7, i)] as int);
    v[Slot(7, i)] := W(v[Slot(7, i)] as int + BigSigma0(v[Slot(0, i)]) as int
                     + MajFast(v[Slot(0, i)], v[Slot(1, i)], v[Slot(2, i)]) as int);
    assert v[..] == Cycle(v0, i + j, K()[i + j], w);
  }

  lemma SameSlots(i: nat, j: nat)
    requires j % 16 == 0
    ensures forall n :: Slot(n, i) == Slot(n, i + j)
    ensures Slot(7, i) != Slot(3, i) && Slot(7, i) != Slot(0, i) && Slot(7, i) != Slot(1, i) && Slot(7, i) != Slot(2, i)
    ensures Slot(3, i) != Slot(0, i) && Slot(3, i) != Slot(1, i) && Slot(3, i) != Slot(2, i)
  {
  }

  /** `sha256_compile`; the schedule overwrites the buffer. */
  method Compile(hash: array<Word>, wbuf: array<Word>)
    requires hash.Length == 8 && wbuf.Length == 16 && hash != wbuf
    modifies hash, wbuf
    ensures hash[..] == Compress(old(hash[..]), old(wbuf[..]))
  {
    hide Rounds, Rotated, Window, Schedule, K;
    ghost var h: Digest, m: MessageBlock := hash[..], wbuf[..];
    var v := new Word[8](i requires 0 <= i < 8 reads hash => hash[i]);
    CompileStarts(h, m);
    assert v[..] == h;
    var j := 0;
    while j < 64
      invariant j <= 64 && j % 16 == 0 && v[..] != [] && hash[..] == h
      invariant Rotated(v[..], Rounds(h, m, j), j) && Window(wbuf[..], m, j)
    {
      var i := 0;
      while i < 16
        invariant i <= 16 && hash[..] == h
        invariant Rotated(v[..], Rounds(h, m, i + j), i + j) && Window(wbuf[..], m, i + j)
      {
        VCycle(v, wbuf, i, j, h, m);
        i := i + 1;
      }
      j := j + 16;
    }
    BackInPlace(v[..], Rounds(h, m, 64));
    var n := 0;
    while n < 8
      invariant n <= 8 && v[..] == Rounds(h, m, 64)
      invariant forall k | 0 <= k < 8 :: hash[k] == if k < n then Compress(h, m)[k] else h[k]
    {
      hash[n] := W(hash[n] as int + v[n] as int);
      n := n + 1;
    }
  }

  lemma CompileStarts(h: Digest, m: MessageBlock)
    ensures Rotated(h, Rounds(h, m, 0), 0) && Window(m, m, 0)
  {
  }

  /** After a multiple of eight rounds every variable is back in its own place. */
  lemma BackInPlace(v: seq<Word>, s: Digest)
    requires |v| == 8 && Rotated(v, s, 64)
    ensures v == s
  {
    forall n | 0 <= n < 8 ensures v[n] == s[n] {
      assert Slot(n, 64) == n;
    }
  }
}
