/** Bytes, cipher blocks and the buffer operations the cipher modes are written with. */
module AesBlocks {
  import opened Arith
  import Bits

  const BLOCK := 16

  type Byte = x: int | 0 <= x < 256

  type Block = s: seq<Byte> | |s| == BLOCK witness seq(BLOCK, _ => 0)

  /** The block cipher under one key: any function on blocks. */
  type Cipher = Block -> Block

  ghost predicate Inverse(e: Cipher, d: Cipher) {
    forall x: Block :: d(e(x)) == x
  }

  lemma EightBits()
    ensures Pow2(8) == 256
  {
    assert Pow2(4) == 16;
  }

  function Xor(a: Byte, b: Byte): Byte {
    EightBits();
    Bits.Xor(a, b, 8)
  }

  /** Bit i of the sum is set when exactly one of the two bits is. */
  lemma XorIsBitwise(a: Byte, b: Byte, i: nat)
    requires i < 8
    ensures Bits.Bit(Xor(a, b), i) == (Bits.Bit(a, i) != Bits.Bit(b, i))
  {
    hide Bits.Xor;
    EightBits();
    Bits.XorBit(a, b, 8, i);
  }

  lemma XorLaws(a: Byte, b: Byte)
    ensures Xor(Xor(a, b), b) == a && Xor(a, b) == Xor(b, a) && Xor(a, 0) == a
  {
    hide Bits.Xor;
    EightBits();
    Bits.XorTwice(a, b, 8);
    Bits.XorCommutes(a, b, 8);
    Bits.XorZero(a, 8);
  }

  function XorBytes(a: seq<Byte>, b: seq<Byte>): (c: seq<Byte>)
    requires |a| == |b|
    ensures |c| == |a|
  {
    seq(|a|, i requires 0 <= i < |a| => Xor(a[i], b[i]))
  }

  lemma XorTwice(a: seq<Byte>, b: seq<Byte>)
    requires |a| == |b|
    ensures XorBytes(XorBytes(a, b), b) == a && XorBytes(a, b) == XorBytes(b, a)
  {
    hide Xor;
    forall i | 0 <= i < |a| ensures Xor(Xor(a[i], b[i]), b[i]) == a[i] && Xor(a[i], b[i]) == Xor(b[i], a[i]) {
      XorLaws(a[i], b[i]);
    }
  }

  lemma XorTake(a: seq<Byte>, b: seq<Byte>, n: nat)
    requires |a| == |b| && n <= |a|
    ensures XorBytes(a, b)[..n] == XorBytes(a[..n], b[..n]) && XorBytes(a, b)[n..] == XorBytes(a[n..], b[n..])
  {
  }

  lemma XorZero(a: seq<Byte>)
    ensures XorBytes(a, seq(|a|, _ => 0)) == a
  {
    hide Xor;
    forall i | 0 <= i < |a| ensures Xor(a[i], 0) == a[i] {
      XorLaws(a[i], 0);
    }
  }

  /** The chunks one behind the other. */
  function Flatten(chunks: seq<seq<Byte>>): seq<Byte> {
    if chunks == [] then [] else chunks[0] + Flatten(chunks[1..])
  }

  // ----- buffers

  /** The buffer with the bytes x at offset `at`. */
  function Put(s: seq<Byte>, at: nat, x: seq<Byte>): (t: seq<Byte>)
    requires at + |x| <= |s|
    ensures |t| == |s|
  {
    s[..at] + x + s[at + |x|..]
  }

  lemma PutSlices(s: seq<Byte>, at: nat, x: seq<Byte>)
    requires at + |x| <= |s|
    ensures Put(s, at, x)[at..at + |x|] == x
    ensures forall lo, hi | 0 <= lo <= hi <= |s| && (hi <= at || at + |x| <= lo) :: Put(s, at, x)[lo..hi] == s[lo..hi]
  {
  }

  lemma PutAt(s: seq<Byte>, at: nat, x: seq<Byte>, i: nat, v: Byte)
    requires at + |x| <= |s| && i < |x|
    ensures Put(s, at, x)[at + i := v] == Put(s, at, x[i := v]) && Put(s, at, x)[at + i] == x[i]
  {
  }

  lemma PutKeeps(s: seq<Byte>, at: nat, x: seq<Byte>, k: nat)
    requires at + |x| <= |s| && k < |s| && (k < at || at + |x| <= k)
    ensures Put(s, at, x)[k] == s[k]
  {
  }

  lemma XorAt(a: seq<Byte>, b: seq<Byte>, i: nat)
    requires |a| == |b| && i < |a|
    ensures XorBytes(a, b)[i] == Xor(a[i], b[i])
  {
  }

  /** x overwritten by y up to i */
  function Partly(x: seq<Byte>, y: seq<Byte>, i: nat): (z: seq<Byte>)
    requires |x| == |y| && i <= |x|
    ensures |z| == |x|
  {
    y[..i] + x[i..]
  }

  lemma PartlyStep(x: seq<Byte>, y: seq<Byte>, i: nat)
    requires |x| == |y| && i < |x|
    ensures Partly(x, y, i)[i := y[i]] == Partly(x, y, i + 1) && Partly(x, y, i)[i] == x[i]
  {
  }

  lemma PartlyEnds(s: seq<Byte>, at: nat, y: seq<Byte>)
    requires at + |y| <= |s|
    ensures Put(s, at, Partly(s[at..at + |y|], y, 0)) == s && Partly(s[at..at + |y|], y, |y|) == y
  {
  }

  /** `memcpy`, and the loops that move bytes within a buffer */
  method Copy(dst: array<Byte>, at: nat, src: array<Byte>, from: nat, n: nat)
    requires at + n <= dst.Length && from + n <= src.Length
    requires dst != src || at + n <= from || from + n <= at
    modifies dst
    ensures dst[..] == Put(old(dst[..]), at, old(src[from..from + n]))
  {
    hide Put, Partly;
    ghost var s, x := dst[..], dst[at..at + n];
    ghost var y := src[from..from + n];
    PartlyEnds(s, at, y);
    var i := 0;
    while i < n
      invariant 0 <= i <= n && dst[..] == Put(s, at, Partly(x, y, i))
    {
      ghost var t := dst[..];
      PartlyStep(x, y, i);
      PutAt(s, at, Partly(x, y, i), i, y[i]);
      if dst == src {
        PutKeeps(s, at, Partly(x, y, i), from + i);
        assert dst[from + i] == t[from + i];
      }
      dst[at + i] := src[from + i];
      assert dst[..] == t[at + i := y[i]];
      i := i + 1;
    }
  }

  /** The loop that xors n bytes into n others. */
  method XorInto(dst: array<Byte>, at: nat, src: array<Byte>, from: nat, n: nat)
    requires at + n <= dst.Length && from + n <= src.Length
    requires dst != src || at + n <= from || from + n <= at
    modifies dst
    ensures dst[..] == Put(old(dst[..]), at, XorBytes(old(dst[at..at + n]), old(src[from..from + n])))
  {
    hide Put, Partly, XorBytes, Xor;
    ghost var s, x, z := dst[..], dst[at..at + n], src[from..from + n];
    ghost var y := XorBytes(x, z);
    PartlyEnds(s, at, y);
    var i := 0;
    while i < n
      invariant 0 <= i <= n && dst[..] == Put(s, at, Partly(x, y, i))
    {
      ghost var t := dst[..];
      PartlyStep(x, y, i);
      PutAt(s, at, Partly(x, y, i), i, y[i]);
      XorAt(x, z, i);
      assert dst[at + i] == t[at + i];
      if dst == src {
        PutKeeps(s, at, Partly(x, y, i), from + i);
        assert dst[from + i] == t[from + i];
      }
      dst[at + i] := Xor(dst[at + i], src[from + i]);
      assert dst[..] == t[at + i := y[i]];
      i := i + 1;
    }
  }

  /** The cipher applied to one block of a buffer. */
  method CryptBlock(f: Cipher, src: array<Byte>, from: nat, dst: array<Byte>, at: nat)
    requires from + BLOCK <= src.Length && at + BLOCK <= dst.Length
    modifies dst
    ensures dst[..] == Put(old(dst[..]), at, f(old(src[from..from + BLOCK])))
  {
    var y := f(src[from..from + BLOCK]);
    ghost var s, x := dst[..], dst[at..at + BLOCK];
    PartlyEnds(s, at, y);
    var i := 0;
    while i < BLOCK
      invariant 0 <= i <= BLOCK && dst[..] == Put(s, at, Partly(x, y, i))
    {
      PartlyStep(x, y, i);
      PutAt(s, at, Partly(x, y, i), i, y[i]);
      dst[at + i] := y[i];
      i := i + 1;
    }
  }
}
