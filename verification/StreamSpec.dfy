/** The feedback modes as byte streams that may be broken off and resumed anywhere, and the standard's definitions. */
module StreamSpec {
  import opened AesBlocks

  datatype Mode = CfbEncrypt | CfbDecrypt | Ofb

  /** The feedback block and how many of its bytes are used up; at 16 the next byte needs a new block. */
  datatype State = State(iv: Block, pos: nat)

  /** The byte that takes the place of key stream byte k once x has been processed. */
  function Fed(mode: Mode, k: Byte, x: Byte): Byte {
    match mode
    case CfbEncrypt => Xor(k, x)
    case CfbDecrypt => x
    case Ofb => k
  }

  /** The state in which the next byte finds its key stream byte. */
  function Primed(e: Cipher, s: State): (t: State)
    ensures t.pos < BLOCK
  {
    if s.pos >= BLOCK then State(e(s.iv), 0) else s
  }

  function Next(e: Cipher, mode: Mode, s: State, x: Byte): (t: State)
    ensures 0 < t.pos <= BLOCK
  {
    var p := Primed(e, s);
    State(p.iv[p.pos := Fed(mode, p.iv[p.pos], x)], p.pos + 1)
  }

  function OutByte(e: Cipher, s: State, x: Byte): Byte {
    var p := Primed(e, s);
    Xor(p.iv[p.pos], x)
  }

  function After(e: Cipher, mode: Mode, s: State, x: seq<Byte>): State
    decreases |x|
  {
    if x == [] then s else After(e, mode, Next(e, mode, s, x[0]), x[1..])
  }

  function Out(e: Cipher, mode: Mode, s: State, x: seq<Byte>): (y: seq<Byte>)
    ensures |y| == |x|
    decreases |x|
  {
    if x == [] then [] else [OutByte(e, s, x[0])] + Out(e, mode, Next(e, mode, s, x[0]), x[1..])
  }

  // ----- splits

  lemma {:induction false} Split(e: Cipher, mode: Mode, s: State, a: seq<Byte>, b: seq<Byte>)
    ensures After(e, mode, s, a + b) == After(e, mode, After(e, mode, s, a), b)
    ensures Out(e, mode, s, a + b) == Out(e, mode, s, a) + Out(e, mode, After(e, mode, s, a), b)
    decreases |a|
  {
    hide Next, OutByte;
    if a == [] {
      assert a + b == b;
    } else {
      assert (a + b)[1..] == a[1..] + b;
      Split(e, mode, Next(e, mode, s, a[0]), a[1..], b);
    }
  }

  /** The output of one call after the other. */
  function Calls(e: Cipher, mode: Mode, s: State, chunks: seq<seq<Byte>>): seq<Byte>
    decreases |chunks|
  {
    if chunks == [] then []
    else Out(e, mode, s, chunks[0]) + Calls(e, mode, After(e, mode, s, chunks[0]), chunks[1..])
  }

  /** However a message is cut up, the calls give what a single call would. */
  lemma {:induction false} CallsAreOneCall(e: Cipher, mode: Mode, s: State, chunks: seq<seq<Byte>>)
    ensures Calls(e, mode, s, chunks) == Out(e, mode, s, Flatten(chunks))
    decreases |chunks|
  {
    if chunks != [] {
      Split(e, mode, s, chunks[0], Flatten(chunks[1..]));
      CallsAreOneCall(e, mode, After(e, mode, s, chunks[0]), chunks[1..]);
    }
  }

  // ----- inverses

  /** The decrypting mode of a mode. */
  function Inv(mode: Mode): Mode {
    match mode
    case CfbEncrypt => CfbDecrypt
    case CfbDecrypt => CfbEncrypt
    case Ofb => Ofb
  }

  lemma {:induction false} Undo(e: Cipher, mode: Mode, s: State, x: seq<Byte>)
    ensures Out(e, Inv(mode), s, Out(e, mode, s, x)) == x
    ensures After(e, Inv(mode), s, Out(e, mode, s, x)) == After(e, mode, s, x)
    decreases |x|
  {
    if x != [] {
      var p, y := Primed(e, s), OutByte(e, s, x[0]);
      XorLaws(x[0], p.iv[p.pos]);
      XorLaws(p.iv[p.pos], x[0]);
      assert Xor(p.iv[p.pos], y) == x[0] by { XorLaws(p.iv[p.pos], y); }
      assert Next(e, Inv(mode), s, y) == Next(e, mode, s, x[0]);
      Undo(e, mode, Next(e, mode, s, x[0]), x[1..]);
      assert Out(e, mode, s, x)[1..] == Out(e, mode, Next(e, mode, s, x[0]), x[1..]);
    }
  }

  /** Decryption under any splitting undoes encryption under any other. */
  lemma SplitsUndo(e: Cipher, mode: Mode, s: State, plain: seq<seq<Byte>>, cipher: seq<seq<Byte>>)
    requires Flatten(cipher) == Calls(e, mode, s, plain)
    ensures Calls(e, Inv(mode), s, cipher) == Flatten(plain)
  {
    CallsAreOneCall(e, mode, s, plain);
    CallsAreOneCall(e, Inv(mode), s, cipher);
    Undo(e, mode, s, Flatten(plain));
  }

  // ----- the standard

  /** CFB with whole blocks as segments, the last one possibly shortened: section 6.3 of NIST SP 800-38A. */
  function Cfb(e: Cipher, iv: Block, p: seq<Byte>): seq<Byte>
    decreases |p|
  {
    if |p| < BLOCK then XorBytes(e(iv)[..|p|], p)
    else
      var c := XorBytes(e(iv), p[..BLOCK]);
      c + Cfb(e, c, p[BLOCK..])
  }

  /** OFB: section 6.4 of NIST SP 800-38A. */
  function OfbMode(e: Cipher, iv: Block, p: seq<Byte>): seq<Byte>
    decreases |p|
  {
    if |p| < BLOCK then XorBytes(e(iv)[..|p|], p)
    else XorBytes(e(iv), p[..BLOCK]) + OfbMode(e, e(iv), p[BLOCK..])
  }

  function FedBytes(mode: Mode, k: seq<Byte>, x: seq<Byte>): (f: seq<Byte>)
    requires |k| == |x|
    ensures |f| == |x|
  {
    match mode
    case CfbEncrypt => XorBytes(k, x)
    case CfbDecrypt => x
    case Ofb => k
  }

  /** The block s.iv with the bytes from s.pos on replaced by what x feeds back. */
  function FedBlock(mode: Mode, s: State, x: seq<Byte>): (b: Block)
    requires s.pos + |x| <= BLOCK
  {
    s.iv[..s.pos] + FedBytes(mode, s.iv[s.pos..s.pos + |x|], x) + s.iv[s.pos + |x|..]
  }

  lemma FedBlockStep(e: Cipher, mode: Mode, s: State, x: seq<Byte>)
    requires s.pos + |x| <= BLOCK && x != []
    ensures FedBlock(mode, Next(e, mode, s, x[0]), x[1..]) == FedBlock(mode, s, x)
  {
    hide Fed, FedBytes;
    var n, k := s.pos + |x|, s.iv[s.pos..s.pos + |x|];
    var t, f := Next(e, mode, s, x[0]), Fed(mode, k[0], x[0]);
    var rest := FedBytes(mode, k[1..], x[1..]);
    assert t.iv[t.pos..n] == k[1..] && t.iv[n..] == s.iv[n..] && t.iv[..t.pos] == s.iv[..s.pos] + [f];
    FedBytesStep(mode, k, x);
    assert (s.iv[..s.pos] + [f]) + rest + s.iv[n..] == s.iv[..s.pos] + ([f] + rest) + s.iv[n..];
  }

  lemma FedBytesStep(mode: Mode, k: seq<Byte>, x: seq<Byte>)
    requires |k| == |x| > 0
    ensures FedBytes(mode, k, x) == [Fed(mode, k[0], x[0])] + FedBytes(mode, k[1..], x[1..])
  {
    hide Xor;
  }

  lemma {:induction false} AfterWithinBlock(e: Cipher, mode: Mode, s: State, x: seq<Byte>)
    requires s.pos + |x| <= BLOCK
    ensures After(e, mode, s, x) == State(FedBlock(mode, s, x), s.pos + |x|)
    decreases |x|
  {
    if x == [] {
      assert FedBytes(mode, s.iv[s.pos..s.pos], x) == [];
      assert FedBlock(mode, s, x) == s.iv;
    } else {
      hide FedBlock, Xor;
      FedBlockStep(e, mode, s, x);
      AfterWithinBlock(e, mode, Next(e, mode, s, x[0]), x[1..]);
    }
  }

  /** Within one block, each byte meets its own key stream byte. */
  lemma {:induction false} OutWithinBlock(e: Cipher, mode: Mode, s: State, x: seq<Byte>)
    requires s.pos + |x| <= BLOCK
    ensures Out(e, mode, s, x) == XorBytes(s.iv[s.pos..s.pos + |x|], x)
    decreases |x|
  {
    hide Xor;
    if x != [] {
      var k, t := s.iv[s.pos..s.pos + |x|], Next(e, mode, s, x[0]);
      OutWithinBlock(e, mode, t, x[1..]);
      assert t.iv[t.pos..s.pos + |x|] == k[1..];
      assert XorBytes(k, x) == [Xor(k[0], x[0])] + XorBytes(k[1..], x[1..]);
    }
  }

  /** A used-up block is as good as the encrypted one with nothing used. */
  lemma PrimedSame(e: Cipher, mode: Mode, s: State, x: seq<Byte>)
    ensures Out(e, mode, s, x) == Out(e, mode, Primed(e, s), x)
    ensures x != [] ==> After(e, mode, s, x) == After(e, mode, Primed(e, s), x)
  {
  }

  lemma WholeBlock(e: Cipher, mode: Mode, iv: Block, p: seq<Byte>)
    requires |p| >= BLOCK
    ensures Out(e, mode, State(iv, BLOCK), p)
         == XorBytes(e(iv), p[..BLOCK]) + Out(e, mode, State(FedBytes(mode, e(iv), p[..BLOCK]), BLOCK), p[BLOCK..])
  {
    hide Out, After, XorBytes, FedBytes;
    var t, head := State(e(iv), 0), p[..BLOCK];
    assert p == head + p[BLOCK..] && t.iv[0..BLOCK] == t.iv;
    PrimedSame(e, mode, State(iv, BLOCK), p);
    Split(e, mode, t, head, p[BLOCK..]);
    OutWithinBlock(e, mode, t, head);
    AfterWithinBlock(e, mode, t, head);
    assert FedBlock(mode, t, head) == FedBytes(mode, e(iv), head);
  }

  lemma PartBlock(e: Cipher, mode: Mode, iv: Block, p: seq<Byte>)
    requires |p| < BLOCK
    ensures Out(e, mode, State(iv, BLOCK), p) == XorBytes(e(iv)[..|p|], p)
  {
    PrimedSame(e, mode, State(iv, BLOCK), p);
    OutWithinBlock(e, mode, State(e(iv), 0), p);
  }

  lemma {:induction false} CfbIsStandard(e: Cipher, iv: Block, p: seq<Byte>)
    ensures Out(e, CfbEncrypt, State(iv, BLOCK), p) == Cfb(e, iv, p)
    decreases |p|
  {
    if |p| < BLOCK {
      PartBlock(e, CfbEncrypt, iv, p);
    } else {
      WholeBlock(e, CfbEncrypt, iv, p);
      CfbIsStandard(e, XorBytes(e(iv), p[..BLOCK]), p[BLOCK..]);
    }
  }

  lemma {:induction false} OfbIsStandard(e: Cipher, iv: Block, p: seq<Byte>)
    ensures Out(e, Ofb, State(iv, BLOCK), p) == OfbMode(e, iv, p)
    decreases |p|
  {
    if |p| < BLOCK {
      PartBlock(e, Ofb, iv, p);
    } else {
      WholeBlock(e, Ofb, iv, p);
      OfbIsStandard(e, e(iv), p[BLOCK..]);
    }
  }
}
