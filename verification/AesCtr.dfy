/** Counter mode: section 6.5 of NIST SP 800-38A, and `aes_ctr_crypt`, which works on batches of eight blocks. */
module AesCtr {
  import opened AesBlocks

  const BATCH := 8 * BLOCK

  /** The counter block in use and how many of its bytes are used up. */
  datatype Counter = Counter(block: Block, pos: nat)

  function Iterate(inc: Cipher, c: Block, n: nat): Block {
    if n == 0 then c else inc(Iterate(inc, c, n - 1))
  }

  lemma {:induction false} IterateAdd(inc: Cipher, c: Block, m: nat, n: nat)
    ensures Iterate(inc, Iterate(inc, c, m), n) == Iterate(inc, c, m + n)
  {
    if n != 0 {
      IterateAdd(inc, c, m, n - 1);
    }
  }

  /** Byte k of the key stream that begins with the counter block c. */
  function KeyByte(e: Cipher, inc: Cipher, c: Block, k: nat): Byte {
    e(Iterate(inc, c, k / BLOCK))[k % BLOCK]
  }

  function Ctr(e: Cipher, inc: Cipher, s: Counter, x: seq<Byte>): (y: seq<Byte>)
    ensures |y| == |x|
  {
    seq(|x|, k requires 0 <= k < |x| => Xor(x[k], KeyByte(e, inc, s.block, s.pos + k)))
  }

  /** The counter n bytes further on, with fewer than 16 bytes used. */
  function Advance(inc: Cipher, s: Counter, n: nat): Counter {
    Counter(Iterate(inc, s.block, (s.pos + n) / BLOCK), (s.pos + n) % BLOCK)
  }

  /** A block used up and not yet counted on is the next block with nothing used. */
  function Norm(inc: Cipher, s: Counter): Counter {
    Advance(inc, s, 0)
  }

  lemma KeyByteShift(e: Cipher, inc: Cipher, s: Counter, n: nat, k: nat)
    ensures var t := Advance(inc, s, n); KeyByte(e, inc, t.block, t.pos + k) == KeyByte(e, inc, s.block, s.pos + n + k)
  {
    var t := Advance(inc, s, n);
    var q := (s.pos + n) / BLOCK;
    assert (s.pos + n + k) / BLOCK == q + (t.pos + k) / BLOCK && (s.pos + n + k) % BLOCK == (t.pos + k) % BLOCK;
    IterateAdd(inc, s.block, q, (t.pos + k) / BLOCK);
  }

  lemma AdvanceTwice(inc: Cipher, s: Counter, m: nat, n: nat)
    ensures Advance(inc, Advance(inc, s, m), n) == Advance(inc, s, m + n)
  {
    var t := Advance(inc, s, m);
    var q := (s.pos + m) / BLOCK;
    assert (s.pos + m + n) / BLOCK == q + (t.pos + n) / BLOCK && (s.pos + m + n) % BLOCK == (t.pos + n) % BLOCK;
    IterateAdd(inc, s.block, q, (t.pos + n) / BLOCK);
  }

  /** Output and successor depend on a saved state only through its normal form. */
  lemma SavedSixteen(e: Cipher, inc: Cipher, c: Block, x: seq<Byte>)
    ensures Norm(inc, Counter(c, BLOCK)) == Counter(inc(c), 0)
    ensures Ctr(e, inc, Counter(c, BLOCK), x) == Ctr(e, inc, Counter(inc(c), 0), x)
    ensures Advance(inc, Counter(c, BLOCK), |x|) == Advance(inc, Counter(inc(c), 0), |x|)
  {
    assert Iterate(inc, c, 1) == inc(Iterate(inc, c, 0));
    NormSame(e, inc, Counter(c, BLOCK), x);
  }

  lemma NormSame(e: Cipher, inc: Cipher, s: Counter, x: seq<Byte>)
    ensures Ctr(e, inc, s, x) == Ctr(e, inc, Norm(inc, s), x)
    ensures Advance(inc, s, |x|) == Advance(inc, Norm(inc, s), |x|)
  {
    hide Xor, KeyByte, Advance;
    var t := Norm(inc, s);
    forall k | 0 <= k < |x| ensures Ctr(e, inc, s, x)[k] == Ctr(e, inc, t, x)[k] {
      KeyByteShift(e, inc, s, 0, k);
    }
    AdvanceTwice(inc, s, 0, |x|);
  }

  lemma CtrSplit(e: Cipher, inc: Cipher, s: Counter, a: seq<Byte>, b: seq<Byte>)
    ensures Ctr(e, inc, s, a + b) == Ctr(e, inc, s, a) + Ctr(e, inc, Advance(inc, s, |a|), b)
  {
    hide Xor, KeyByte, Advance;
    var t := Advance(inc, s, |a|);
    var y := Ctr(e, inc, s, a + b);
    forall k | 0 <= k < |b| ensures y[|a| + k] == Ctr(e, inc, t, b)[k] {
      KeyByteShift(e, inc, s, |a|, k);
    }
    assert y[..|a|] == Ctr(e, inc, s, a) && y[|a|..] == Ctr(e, inc, t, b);
  }

  /** Calls one after the other; each starts from a state that some representation of the last one's end may hold. */
  ghost predicate CallsGive(e: Cipher, inc: Cipher, s: Counter, chunks: seq<seq<Byte>>, saved: seq<Counter>, y: seq<Byte>)
    requires |saved| == |chunks|
    decreases |chunks|
  {
    if chunks == [] then y == []
    else
      && |y| >= |chunks[0]| && Norm(inc, saved[0]) == Norm(inc, s)
      && y[..|chunks[0]|] == Ctr(e, inc, saved[0], chunks[0])
      && CallsGive(e, inc, Advance(inc, s, |chunks[0]|), chunks[1..], saved[1..], y[|chunks[0]|..])
  }

  lemma {:induction false} CtrCallsAreOneCall(e: Cipher, inc: Cipher, s: Counter, chunks: seq<seq<Byte>>, saved: seq<Counter>, y: seq<Byte>)
    requires |saved| == |chunks| && CallsGive(e, inc, s, chunks, saved, y)
    ensures y == Ctr(e, inc, s, Flatten(chunks))
    decreases |chunks|
  {
    hide Ctr, Advance, Norm;
    if chunks != [] {
      var a := chunks[0];
      CtrCallsAreOneCall(e, inc, Advance(inc, s, |a|), chunks[1..], saved[1..], y[|a|..]);
      NormSame(e, inc, saved[0], a);
      NormSame(e, inc, s, a);
      CtrSplit(e, inc, s, a, Flatten(chunks[1..]));
    }
  }

  /** Counter mode is its own inverse. */
  lemma CtrUndo(e: Cipher, inc: Cipher, s: Counter, x: seq<Byte>)
    ensures Ctr(e, inc, s, Ctr(e, inc, s, x)) == x
  {
    hide Xor, KeyByte;
    forall k | 0 <= k < |x|
      ensures var b := KeyByte(e, inc, s.block, s.pos + k); Xor(Xor(x[k], b), b) == x[k]
    {
      XorLaws(x[k], KeyByte(e, inc, s.block, s.pos + k));
    }
  }

  /** Section 6.5 of NIST SP 800-38A: each block is xored with its encrypted counter. */
  function CtrMode(e: Cipher, inc: Cipher, c: Block, p: seq<Byte>): seq<Byte>
    decreases |p|
  {
    if |p| < BLOCK then XorBytes(p, e(c)[..|p|])
    else XorBytes(p[..BLOCK], e(c)) + CtrMode(e, inc, inc(c), p[BLOCK..])
  }

  lemma {:induction false} CtrIsStandard(e: Cipher, inc: Cipher, c: Block, p: seq<Byte>)
    ensures Ctr(e, inc, Counter(c, 0), p) == CtrMode(e, inc, c, p)
    decreases |p|
  {
    hide Ctr, XorBytes;
    if |p| < BLOCK {
      FirstBlock(e, inc, c, p);
    } else {
      var head := p[..BLOCK];
      assert p == head + p[BLOCK..] && e(c)[..BLOCK] == e(c);
      FirstBlock(e, inc, c, head);
      assert Iterate(inc, c, 1) == inc(Iterate(inc, c, 0));
      CtrSplit(e, inc, Counter(c, 0), head, p[BLOCK..]);
      CtrIsStandard(e, inc, inc(c), p[BLOCK..]);
    }
  }

  lemma FirstBlock(e: Cipher, inc: Cipher, c: Block, p: seq<Byte>)
    requires |p| <= BLOCK
    ensures Ctr(e, inc, Counter(c, 0), p) == XorBytes(p, e(c)[..|p|])
  {
    hide Xor;
    assert Iterate(inc, c, 0) == c;
  }

  // ----- `aes_ctr_crypt`

  /** s and done are where the work on x from s0 has got to. */
  ghost predicate Doing(e: Cipher, inc: Cipher, s0: Counter, x: seq<Byte>, s: Counter, done: seq<Byte>) {
    |done| <= |x| && done == Ctr(e, inc, s0, x[..|done|]) && Norm(inc, s) == Advance(inc, s0, |done|)
  }

  /** n more bytes from a state with nothing pending beyond its block's used bytes. */
  lemma DoRun(e: Cipher, inc: Cipher, s0: Counter, x: seq<Byte>, s: Counter, done: seq<Byte>, n: nat, t: Counter, run: seq<Byte>)
    requires Doing(e, inc, s0, x, s, done) && |done| + n <= |x|
    requires run == Ctr(e, inc, s, x[|done|..|done| + n]) && Norm(inc, t) == Advance(inc, s, n)
    ensures Doing(e, inc, s0, x, t, done + run)
  {
    hide Ctr, Advance, Norm;
    var more := x[|done|..|done| + n];
    assert x[..|done| + n] == x[..|done|] + more;
    CtrSplit(e, inc, s0, x[..|done|], more);
    NormSame(e, inc, s, more);
    AdvanceTwice(inc, s0, |done|, n);
  }

  lemma DoByte(e: Cipher, inc: Cipher, s0: Counter, x: seq<Byte>, s: Counter, done: seq<Byte>)
    requires Doing(e, inc, s0, x, s, done) && |done| < |x| && s.pos < BLOCK
    ensures Doing(e, inc, s0, x, Counter(s.block, s.pos + 1), done + [Xor(x[|done|], e(s.block)[s.pos])])
  {
    hide Xor, Doing;
    var more := x[|done|..|done| + 1];
    assert Iterate(inc, s.block, 0) == s.block;
    assert KeyByte(e, inc, s.block, s.pos) == e(s.block)[s.pos];
    assert Ctr(e, inc, s, more) == [Xor(x[|done|], e(s.block)[s.pos])];
    DoRun(e, inc, s0, x, s, done, 1, Counter(s.block, s.pos + 1), Ctr(e, inc, s, more));
  }

  /** Block j of the batch. */
  predicate Holds(buf: seq<Byte>, j: nat, b: Block) {
    BLOCK * j + BLOCK <= |buf| && buf[BLOCK * j..BLOCK * j + BLOCK] == b
  }

  lemma PutHolds(s: seq<Byte>, j: nat, b: Block)
    requires BLOCK * j + BLOCK <= |s|
    ensures Holds(Put(s, BLOCK * j, b), j, b)
    ensures forall i: nat, c | i != j && Holds(s, i, c) :: Holds(Put(s, BLOCK * j, b), i, c)
  {
    PutSlices(s, BLOCK * j, b);
  }

  /** The encrypted batch is the key stream. */
  lemma BatchIsKeyStream(e: Cipher, inc: Cipher, c: Block, buf: seq<Byte>, blocks: nat, x: seq<Byte>)
    requires |x| <= BLOCK * blocks <= |buf|
    requires forall j: nat | j < blocks :: Holds(buf, j, e(Iterate(inc, c, j)))
    ensures XorBytes(x, buf[..|x|]) == Ctr(e, inc, Counter(c, 0), x)
  {
    hide Xor;
    forall k | 0 <= k < |x| ensures buf[k] == KeyByte(e, inc, c, k) {
      var j := k / BLOCK;
      assert Holds(buf, j, e(Iterate(inc, c, j)));
      assert buf[BLOCK * j..BLOCK * j + BLOCK][k % BLOCK] == buf[k];
    }
  }

  /** The input may be the output buffer itself. */
  ghost predicate Buffers(ibuf: array<Byte>, obuf: array<Byte>, len: nat, cbuf: array<Byte>) {
    len <= ibuf.Length && len <= obuf.Length && cbuf.Length == BLOCK && cbuf != ibuf && cbuf != obuf
  }

  /** Input xored with the buffer, from `from` on. */
  method XorRun(ibuf: array<Byte>, obuf: array<Byte>, cnt: nat, buf: array<Byte>, from: nat, n: nat)
    requires cnt + n <= ibuf.Length && cnt + n <= obuf.Length && from + n <= buf.Length && buf != obuf
    modifies obuf
    ensures obuf[..] == Put(old(obuf[..]), cnt, XorBytes(old(ibuf[cnt..cnt + n]), buf[from..from + n]))
  {
    hide Put, Partly, XorBytes, Xor;
    ghost var s, x, z, k := obuf[..], obuf[cnt..cnt + n], ibuf[cnt..cnt + n], buf[from..from + n];
    ghost var y := XorBytes(z, k);
    PartlyEnds(s, cnt, y);
    var i := 0;
    while i < n
      invariant 0 <= i <= n && obuf[..] == Put(s, cnt, Partly(x, y, i))
    {
      ghost var t := obuf[..];
      PartlyStep(x, y, i);
      PutAt(s, cnt, Partly(x, y, i), i, y[i]);
      XorAt(z, k, i);
      if ibuf == obuf {
        assert ibuf[cnt + i] == t[cnt + i];
      }
      obuf[cnt + i] := Xor(ibuf[cnt + i], buf[from + i]);
      assert obuf[..] == t[cnt + i := y[i]];
      i := i + 1;
    }
  }

  /** Counter blocks for blen bytes; the counter of a partial last block is not counted on. */
  method FillBatch(inc: Cipher, cbuf: array<Byte>, buf: array<Byte>, blen: nat) returns (blocks: nat)
    requires cbuf.Length == BLOCK && buf.Length == BATCH && buf != cbuf && blen <= BATCH
    modifies cbuf, buf
    ensures blocks == (blen + BLOCK - 1) / BLOCK && BLOCK * blocks <= BATCH
    ensures forall j: nat | j < blocks :: Holds(buf[..], j, Iterate(inc, old(cbuf[..]), j))
    ensures cbuf[..] == Iterate(inc, old(cbuf[..]), blen / BLOCK)
  {
    hide Holds, Put;
    ghost var c: Block := cbuf[..];
    blocks := 0;
    while blocks < blen / BLOCK
      invariant blocks <= blen / BLOCK && cbuf[..] == Iterate(inc, c, blocks)
      invariant forall j: nat | j < blocks :: Holds(buf[..], j, Iterate(inc, c, j))
    {
      CopyCounter(cbuf, buf, blocks);
      Bump(inc, cbuf);
      blocks := blocks + 1;
    }
    if blen % BLOCK != 0 {
      CopyCounter(cbuf, buf, blocks);
      blocks := blocks + 1;
    }
  }

  method CopyCounter(cbuf: array<Byte>, buf: array<Byte>, j: nat)
    requires cbuf.Length == BLOCK && BLOCK * j + BLOCK <= buf.Length && buf != cbuf
    modifies buf
    ensures Holds(buf[..], j, cbuf[..])
    ensures forall i: nat, c | i != j && Holds(old(buf[..]), i, c) :: Holds(buf[..], i, c)
  {
    ghost var s := buf[..];
    assert cbuf[0..BLOCK] == cbuf[..];
    Copy(buf, BLOCK * j, cbuf, 0, BLOCK);
    PutHolds(s, j, cbuf[..]);
  }

  /** `ctr_inc(cbuf)` */
  method Bump(inc: Cipher, cbuf: array<Byte>)
    requires cbuf.Length == BLOCK
    modifies cbuf
    ensures cbuf[..] == inc(old(cbuf[..]))
  {
    ghost var c := cbuf[..];
    assert cbuf[0..BLOCK] == c;
    CryptBlock(inc, cbuf, 0, cbuf, 0);
    PutSlices(c, 0, inc(c));
    assert cbuf[..] == cbuf[..][0..BLOCK];
  }

  /** `aes_ecb_encrypt` in place */
  method EcbEncrypt(e: Cipher, buf: array<Byte>, blocks: nat, ghost plain: seq<Block>)
    requires BLOCK * blocks <= buf.Length && |plain| == blocks
    requires forall j: nat | j < blocks :: Holds(buf[..], j, plain[j])
    modifies buf
    ensures forall j: nat | j < blocks :: Holds(buf[..], j, e(plain[j]))
  {
    hide Put;
    var i: nat := 0;
    while i < blocks
      invariant i <= blocks
      invariant forall j: nat | j < i :: Holds(buf[..], j, e(plain[j]))
      invariant forall j: nat | i <= j < blocks :: Holds(buf[..], j, plain[j])
    {
      ghost var s := buf[..];
      assert Holds(s, i, plain[i]);
      assert buf[BLOCK * i..BLOCK * i + BLOCK] == s[BLOCK * i..BLOCK * i + BLOCK];
      CryptBlock(e, buf, BLOCK * i, buf, BLOCK * i);
      PutHolds(s, i, e(plain[i]));
      i := i + 1;
    }
  }

  /** What is left of a block begun by an earlier call; the counter moves on only if there is more input. */
  method FinishBlock(e: Cipher, inc: Cipher, ibuf: array<Byte>, obuf: array<Byte>, len: nat, cbuf: array<Byte>, buf: array<Byte>,
                     pos: nat, ghost s0: Counter, ghost x: seq<Byte>)
    returns (pos': nat, cnt: nat)
    requires Buffers(ibuf, obuf, len, cbuf) && buf.Length == BATCH && buf != ibuf && buf != obuf && buf != cbuf
    requires 0 < pos <= BLOCK && len == |x| && ibuf[..len] == x && s0 == Counter(cbuf[..], pos)
    modifies obuf, cbuf, buf
    ensures cnt <= len && pos' <= BLOCK && (cnt == len || pos' == 0)
    ensures Doing(e, inc, s0, x, Counter(cbuf[..], pos'), obuf[..cnt]) && ibuf[cnt..len] == x[cnt..]
    ensures obuf[len..] == old(obuf[len..])
  {
    hide Put, Holds, Doing;
    CopyCounter(cbuf, buf, 0);
    ghost var one: seq<Block> := [s0.block];
    EcbEncrypt(e, buf, 1, one);
    assert Holds(buf[..], 0, e(one[0]));
    HoldsFirst(buf[..], e(s0.block));
    pos', cnt := pos, 0;
    StartsDoing(e, inc, s0, x);
    assert obuf[..0] == [] && x[0..] == x && ibuf[0..len] == ibuf[..len];
    while pos' < BLOCK && cnt < len
      invariant cnt <= len && pos' <= BLOCK && buf[..BLOCK] == e(s0.block) && cbuf[..] == s0.block
      invariant Doing(e, inc, s0, x, Counter(s0.block, pos'), obuf[..cnt]) && ibuf[cnt..len] == x[cnt..]
      invariant obuf[len..] == old(obuf[len..])
    {
      ghost var done, rest := obuf[..cnt], ibuf[cnt..len];
      DoByte(e, inc, s0, x, Counter(s0.block, pos'), done);
      assert buf[pos'] == buf[..BLOCK][pos'] && rest[0] == x[cnt] && rest[1..] == x[cnt + 1..];
      obuf[cnt] := Xor(ibuf[cnt], buf[pos']);
      assert obuf[..cnt + 1] == done + [Xor(x[cnt], e(s0.block)[pos'])] && ibuf[cnt + 1..len] == rest[1..];
      pos', cnt := pos' + 1, cnt + 1;
    }
    if cnt < len {
      Bump(inc, cbuf);
      pos' := 0;
      NextBlock(e, inc, s0, x, Counter(s0.block, BLOCK), obuf[..cnt]);
    }
  }

  lemma HoldsFirst(buf: seq<Byte>, b: Block)
    requires Holds(buf, 0, b)
    ensures |buf| >= BLOCK && buf[..BLOCK] == b
  {
  }

  lemma StartsDoing(e: Cipher, inc: Cipher, s: Counter, x: seq<Byte>)
    ensures Doing(e, inc, s, x, s, [])
  {
    assert x[..0] == [];
  }

  lemma NextBlock(e: Cipher, inc: Cipher, s0: Counter, x: seq<Byte>, s: Counter, done: seq<Byte>)
    requires Doing(e, inc, s0, x, s, done) && s.pos == BLOCK
    ensures Doing(e, inc, s0, x, Counter(inc(s.block), 0), done)
  {
    SavedSixteen(e, inc, s.block, []);
    assert Norm(inc, Counter(inc(s.block), 0)) == Counter(inc(s.block), 0);
  }

  /** Fill and encrypt a batch: blen bytes of key stream. */
  method KeyBatch(e: Cipher, inc: Cipher, cbuf: array<Byte>, buf: array<Byte>, blen: nat, ghost x: seq<Byte>)
    requires cbuf.Length == BLOCK && buf.Length == BATCH && buf != cbuf && blen == |x| <= BATCH
    modifies cbuf, buf
    ensures XorBytes(x, buf[0..blen]) == Ctr(e, inc, Counter(old(cbuf[..]), 0), x)
    ensures cbuf[..] == Iterate(inc, old(cbuf[..]), blen / BLOCK)
  {
    hide Holds, XorBytes, Ctr;
    ghost var c: Block := cbuf[..];
    var blocks := FillBatch(inc, cbuf, buf, blen);
    ghost var plain: seq<Block> := seq(blocks, j requires 0 <= j => Iterate(inc, c, j));
    EcbEncrypt(e, buf, blocks, plain);
    forall j: nat | j < blocks ensures Holds(buf[..], j, e(Iterate(inc, c, j))) {
      assert Holds(buf[..], j, e(plain[j]));
    }
    BatchIsKeyStream(e, inc, c, buf[..], blocks, x);
    assert buf[0..blen] == buf[..][..blen];
  }

  /** One pass of the main loop: up to eight counter blocks encrypted together. */
  method CryptBatch(e: Cipher, inc: Cipher, ibuf: array<Byte>, obuf: array<Byte>, len: nat, cbuf: array<Byte>, buf: array<Byte>,
                    cnt: nat, ghost s0: Counter, ghost x: seq<Byte>)
    returns (pos': nat, cnt': nat)
    requires Buffers(ibuf, obuf, len, cbuf) && buf.Length == BATCH && buf != ibuf && buf != obuf && buf != cbuf
    requires cnt < len == |x| && ibuf[cnt..len] == x[cnt..]
    requires Doing(e, inc, s0, x, Counter(cbuf[..], 0), obuf[..cnt])
    modifies obuf, cbuf, buf
    ensures cnt < cnt' <= len && pos' < BLOCK && (cnt' == len || pos' == 0)
    ensures Doing(e, inc, s0, x, Counter(cbuf[..], pos'), obuf[..cnt']) && ibuf[cnt'..len] == x[cnt'..]
    ensures obuf[len..] == old(obuf[len..])
  {
    hide Put, Holds, Doing, XorBytes;
    ghost var c: Block, done := cbuf[..], obuf[..cnt];
    var blen: nat := if len - cnt > BATCH then BATCH else len - cnt;
    ghost var more := x[cnt..cnt + blen];
    KeyBatch(e, inc, cbuf, buf, blen, more);
    EmitRun(ibuf, obuf, len, cnt, buf, blen, x);
    pos', cnt' := blen % BLOCK, cnt + blen;
    ghost var t := Counter(cbuf[..], pos');
    assert Norm(inc, t) == Advance(inc, Counter(c, 0), blen);
    DoRun(e, inc, s0, x, Counter(c, 0), done, blen, t, Ctr(e, inc, Counter(c, 0), more));
  }

  /** The xor of a batch with the input. */
  method EmitRun(ibuf: array<Byte>, obuf: array<Byte>, len: nat, cnt: nat, buf: array<Byte>, n: nat, ghost x: seq<Byte>)
    requires len <= ibuf.Length && len <= obuf.Length && buf != ibuf && buf != obuf
    requires cnt + n <= len == |x| && n <= buf.Length && ibuf[cnt..len] == x[cnt..]
    modifies obuf
    ensures obuf[..cnt + n] == old(obuf[..cnt]) + XorBytes(x[cnt..cnt + n], buf[0..n])
    ensures ibuf[cnt + n..len] == x[cnt + n..] && obuf[len..] == old(obuf[len..])
  {
    hide Put, XorBytes;
    ghost var rest, s := ibuf[cnt..len], obuf[..];
    assert rest[..n] == x[cnt..cnt + n] && rest[n..] == x[cnt + n..];
    assert ibuf[cnt..cnt + n] == rest[..n];
    XorRun(ibuf, obuf, cnt, buf, 0, n);
    ghost var run := XorBytes(x[cnt..cnt + n], buf[0..n]);
    PutRun(s, cnt, run, len);
    assert obuf[..][..cnt + n] == s[..cnt] + run && obuf[..][len..] == s[len..];
    assert obuf[..][cnt + n..len] == s[cnt + n..len];
    assert ibuf[cnt + n..len] == rest[n..];
  }

  lemma PutRun(s: seq<Byte>, at: nat, run: seq<Byte>, len: nat)
    requires at + |run| <= len <= |s|
    ensures var t := Put(s, at, run);
      t[..at + |run|] == s[..at] + run && t[at + |run|..len] == s[at + |run|..len] && t[len..] == s[len..]
  {
  }

  /** `bPos` is `inf.b[2]`; 16 says that the block is used up and the counter not yet moved on. */
  class CtrContext {
    const cipher: Cipher
    var bPos: nat

    constructor (cipher: Cipher)
      ensures this.cipher == cipher && bPos == 0
    {
      this.cipher, bPos := cipher, 0;
    }

    ghost predicate Valid()
      reads this
    {
      bPos <= BLOCK
    }

    /** `aes_ctr_crypt` */
    method Crypt(ibuf: array<Byte>, obuf: array<Byte>, len: nat, cbuf: array<Byte>, inc: Cipher)
      requires Valid() && Buffers(ibuf, obuf, len, cbuf)
      modifies this, obuf, cbuf
      ensures Valid()
      ensures obuf[..len] == Ctr(cipher, inc, old(Counter(cbuf[..], bPos)), old(ibuf[..len]))
      ensures Norm(inc, Counter(cbuf[..], bPos)) == Advance(inc, old(Counter(cbuf[..], bPos)), len)
      ensures obuf[len..] == old(obuf[len..])
    {
      hide Ctr, Norm, Advance;
      ghost var x, s0, tail := ibuf[..len], Counter(cbuf[..], bPos), obuf[len..];
      var pos: int, cnt: int := bPos, 0;
      var buf := new Byte[BATCH](_ => 0);
      StartsDoing(cipher, inc, s0, x);
      assert obuf[..0] == [] && x[0..] == x && ibuf[0..len] == ibuf[..len];
      if pos != 0 {
        pos, cnt := FinishBlock(cipher, inc, ibuf, obuf, len, cbuf, buf, pos, s0, x);
      }
      while cnt < len
        invariant 0 <= cnt <= len && 0 <= pos <= BLOCK && (cnt == len || pos == 0)
        invariant Doing(cipher, inc, s0, x, Counter(cbuf[..], pos), obuf[..cnt]) && ibuf[cnt..len] == x[cnt..]
        invariant obuf[len..] == tail
      {
        pos, cnt := CryptBatch(cipher, inc, ibuf, obuf, len, cbuf, buf, cnt, s0, x);
      }
      assert x[..len] == x;
      bPos := pos;
    }
  }
}
