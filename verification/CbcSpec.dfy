/** CBC with ciphertext stealing: the standard's definition, the recursion the code follows, and the round trip. */
module CbcSpec {
  import opened AesBlocks

  // ----- the standard

  /** CBC over whole blocks: section 6.2 of NIST SP 800-38A. */
  function Cbc(e: Cipher, iv: Block, p: seq<Byte>): (c: seq<Byte>)
    requires |p| % BLOCK == 0
    ensures |c| == |p|
    decreases |p|
  {
    if p == [] then []
    else
      var x := e(XorBytes(iv, p[..BLOCK]));
      x + Cbc(e, x, p[BLOCK..])
  }

  function Zeros(n: nat): (z: seq<Byte>)
    ensures |z| == n
  {
    seq(n, _ => 0)
  }

  /**
   * CBC-CS2 of the Addendum to NIST SP 800-38A: pad with zeros, apply CBC, and if the last block was partial
   * swap the last two ciphertext blocks and shorten the one that now comes last.
   */
  function Cs2(e: Cipher, iv: Block, p: seq<Byte>): (c: seq<Byte>)
    requires |p| >= BLOCK
    ensures |c| == |p|
  {
    var d := |p| % BLOCK;
    if d == 0 then Cbc(e, iv, p)
    else
      Steal(Cbc(e, iv, p + Zeros(BLOCK - d)), d)
  }

  /** Swap the last two blocks and keep d bytes of the one that is now last. */
  function Steal(c: seq<Byte>, d: nat): (r: seq<Byte>)
    requires |c| >= 2 * BLOCK && d <= BLOCK
    ensures |r| == |c| - BLOCK + d
  {
    var n := |c| - BLOCK;
    c[..n - BLOCK] + c[n..] + c[n - BLOCK..n - BLOCK + d]
  }

  lemma StealBehind(x: Block, c: seq<Byte>, d: nat)
    requires |c| >= 2 * BLOCK && d <= BLOCK
    ensures Steal(x + c, d) == x + Steal(c, d)
  {
    var n := |c|;
    assert (x + c)[..n - BLOCK] == x + c[..n - 2 * BLOCK];
    assert (x + c)[n..] == c[n - BLOCK..];
    assert (x + c)[n - BLOCK..n - BLOCK + d] == c[n - 2 * BLOCK..n - 2 * BLOCK + d];
  }

  // ----- block by block

  /** The last block is filled up with the ciphertext before it, xored by what there is of it. */
  function Fill(x: Block, p: seq<Byte>): (b: Block)
    requires |p| <= BLOCK
  {
    XorBytes(p, x[..|p|]) + x[|p|..]
  }

  function Encrypt(e: Cipher, prev: Block, p: seq<Byte>): (c: seq<Byte>)
    requires |p| >= BLOCK
    ensures |c| == |p|
    decreases |p|
  {
    var x := e(XorBytes(prev, p[..BLOCK]));
    if |p| == BLOCK then x
    else if |p| < 2 * BLOCK then e(Fill(x, p[BLOCK..])) + x[..|p| - BLOCK]
    else x + Encrypt(e, x, p[BLOCK..])
  }

  function Decrypt(d: Cipher, prev: Block, c: seq<Byte>): (p: seq<Byte>)
    requires |c| >= BLOCK
    ensures |p| == |c|
    decreases |c|
  {
    var z := d(c[..BLOCK]);
    if |c| == BLOCK then XorBytes(z, prev)
    else if |c| < 2 * BLOCK then
      var last := XorBytes(z[..|c| - BLOCK], c[BLOCK..]);
      XorBytes(d(c[BLOCK..] + z[|c| - BLOCK..]), prev) + last
    else XorBytes(z, prev) + Decrypt(d, c[..BLOCK], c[BLOCK..])
  }

  lemma FillIsPadding(x: Block, p: seq<Byte>)
    requires |p| <= BLOCK
    ensures Fill(x, p) == XorBytes(x, p + Zeros(BLOCK - |p|))
  {
    var q := p + Zeros(BLOCK - |p|);
    XorTake(x, q, |p|);
    XorTwice(p, x[..|p|]);
    XorZero(x[|p|..]);
    assert q[..|p|] == p && q[|p|..] == Zeros(BLOCK - |p|);
    assert XorBytes(x, q) == XorBytes(x, q)[..|p|] + XorBytes(x, q)[|p|..];
  }

  /** The recursion is the standard's mode. */
  lemma {:induction false} EncryptIsCs2(e: Cipher, iv: Block, p: seq<Byte>)
    requires |p| >= BLOCK
    ensures Encrypt(e, iv, p) == Cs2(e, iv, p)
    decreases |p|
  {
    var x := e(XorBytes(iv, p[..BLOCK]));
    if |p| == BLOCK {
      assert p[BLOCK..] == [];
    } else if |p| < 2 * BLOCK {
      LastTwo(e, iv, p);
    } else {
      EncryptIsCs2(e, x, p[BLOCK..]);
      Cs2Unfolds(e, iv, p);
    }
  }

  lemma CbcUnfolds(e: Cipher, iv: Block, p: seq<Byte>, d: nat)
    requires |p| >= BLOCK && d < BLOCK && (|p| + d) % BLOCK == 0
    ensures var x := e(XorBytes(iv, p[..BLOCK]));
      Cbc(e, iv, p + Zeros(d)) == x + Cbc(e, x, p[BLOCK..] + Zeros(d))
  {
    var q := p + Zeros(d);
    assert q[..BLOCK] == p[..BLOCK] && q[BLOCK..] == p[BLOCK..] + Zeros(d);
  }

  lemma OneBlock(e: Cipher, x: Block, q: seq<Byte>)
    requires |q| == BLOCK
    ensures Cbc(e, x, q) == e(XorBytes(x, q))
  {
    assert q[..BLOCK] == q && q[BLOCK..] == [];
  }

  lemma StealTwo(x: Block, y: Block, d: nat)
    requires d <= BLOCK
    ensures Steal(x + y, d) == y + x[..d]
  {
    assert (x + y)[BLOCK..] == y && (x + y)[0..d] == x[..d] && (x + y)[..0] == [];
  }

  lemma LastTwo(e: Cipher, iv: Block, p: seq<Byte>)
    requires BLOCK < |p| < 2 * BLOCK
    ensures Encrypt(e, iv, p) == Cs2(e, iv, p)
  {
    hide Cbc, Steal, XorBytes, Fill, Zeros;
    var d, tail := |p| - BLOCK, p[BLOCK..];
    var x := e(XorBytes(iv, p[..BLOCK]));
    CbcUnfolds(e, iv, p, BLOCK - d);
    OneBlock(e, x, tail + Zeros(BLOCK - d));
    FillIsPadding(x, tail);
    StealTwo(x, e(Fill(x, tail)), d);
  }

  lemma Cs2Unfolds(e: Cipher, iv: Block, p: seq<Byte>)
    requires |p| >= 2 * BLOCK
    ensures var x := e(XorBytes(iv, p[..BLOCK])); Cs2(e, iv, p) == x + Cs2(e, x, p[BLOCK..])
  {
    hide Cbc, Steal, XorBytes, Zeros;
    var x, rest := e(XorBytes(iv, p[..BLOCK])), p[BLOCK..];
    var d := |p| % BLOCK;
    assert |rest| % BLOCK == d;
    if d == 0 {
      CbcUnfolds(e, iv, p, 0);
      NoZeros(p);
      NoZeros(rest);
    } else {
      CbcUnfolds(e, iv, p, BLOCK - d);
      StealBehind(x, Cbc(e, x, rest + Zeros(BLOCK - d)), d);
    }
  }

  lemma NoZeros(p: seq<Byte>)
    ensures p + Zeros(0) == p
  {
  }

  /** Decryption undoes encryption, whatever the length. */
  lemma {:induction false} DecryptUndoesEncrypt(e: Cipher, d: Cipher, prev: Block, p: seq<Byte>)
    requires Inverse(e, d) && |p| >= BLOCK
    ensures Decrypt(d, prev, Encrypt(e, prev, p)) == p
    decreases |p|
  {
    var head := p[..BLOCK];
    var x := e(XorBytes(prev, head));
    var c := Encrypt(e, prev, p);
    XorTwice(prev, head);
    XorTwice(head, prev);
    if |p| == BLOCK {
      assert c[..BLOCK] == x && p == head;
    } else if |p| < 2 * BLOCK {
      StolenBack(e, d, prev, p);
    } else {
      assert c[..BLOCK] == x && c[BLOCK..] == Encrypt(e, x, p[BLOCK..]);
      DecryptUndoesEncrypt(e, d, x, p[BLOCK..]);
    }
  }

  lemma StolenBack(e: Cipher, d: Cipher, prev: Block, p: seq<Byte>)
    requires Inverse(e, d) && BLOCK < |p| < 2 * BLOCK
    ensures Decrypt(d, prev, Encrypt(e, prev, p)) == p
  {
    var n, head, tail := |p| - BLOCK, p[..BLOCK], p[BLOCK..];
    var x := e(XorBytes(prev, head));
    var c := Encrypt(e, prev, p);
    var f := Fill(x, tail);
    assert c[..BLOCK] == e(f) && c[BLOCK..] == x[..n];
    assert d(c[..BLOCK]) == f;
    assert f[..n] == XorBytes(tail, x[..n]) && f[n..] == x[n..];
    XorTwice(tail, x[..n]);
    assert c[BLOCK..] + f[n..] == x;
    XorTwice(prev, head);
    XorTwice(head, prev);
  }

  // ----- messages shorter than a block

  /** The last 16 bytes of initialisation vector and chained message are encrypted together. */
  function ShortEncrypt(e: Cipher, iv: Block, p: seq<Byte>): (c: seq<Byte>)
    requires |p| < BLOCK
    ensures |c| == BLOCK + |p|
  {
    iv[..|p|] + e(iv[|p|..] + XorBytes(p, iv[..|p|]))
  }

  function ShortDecrypt(d: Cipher, c: seq<Byte>, n: nat): (p: seq<Byte>)
    requires n < BLOCK && |c| == BLOCK + n
    ensures |p| == n
  {
    XorBytes(c[..n], d(c[n..])[BLOCK - n..])
  }

  // ----- whole files

  /** What `encfile` writes. */
  function EncryptFile(e: Cipher, iv: Block, p: seq<Byte>): (c: seq<Byte>)
    ensures |c| == BLOCK + |p|
  {
    if |p| < BLOCK then ShortEncrypt(e, iv, p) else iv + Encrypt(e, iv, p)
  }

  /** What `decfile` writes, given the length of the plaintext. */
  function DecryptFile(d: Cipher, c: seq<Byte>, n: nat): (p: seq<Byte>)
    requires |c| == BLOCK + n
    ensures |p| == n
  {
    if n < BLOCK then ShortDecrypt(d, c, n) else Decrypt(d, c[..BLOCK], c[BLOCK..])
  }

  lemma FileRoundTrip(e: Cipher, d: Cipher, iv: Block, p: seq<Byte>)
    requires Inverse(e, d)
    ensures DecryptFile(d, EncryptFile(e, iv, p), |p|) == p
  {
    var n, c := |p|, EncryptFile(e, iv, p);
    if n < BLOCK {
      var b := iv[n..] + XorBytes(p, iv[..n]);
      assert c[..n] == iv[..n] && c[n..] == e(b);
      assert b[BLOCK - n..] == XorBytes(p, iv[..n]);
      XorTwice(p, iv[..n]);
      XorTwice(XorBytes(p, iv[..n]), iv[..n]);
    } else {
      assert c[..BLOCK] == iv && c[BLOCK..] == Encrypt(e, iv, p);
      DecryptUndoesEncrypt(e, d, iv, p);
    }
  }

  /**
   * A message under a block: the initialisation vector, followed by the message chained to it, with the last 16 bytes
   * of that encrypted in place.
   */
  lemma ShortFile(e: Cipher, d: Cipher, iv: Block, p: seq<Byte>)
    requires |p| < BLOCK && Inverse(e, d)
    ensures var n, c, chained := |p|, EncryptFile(e, iv, p), iv + XorBytes(p, iv[..|p|]);
      c[..n] == iv[..n] && c[n..] == e(chained[n..]) && d(c[n..]) == chained[n..]
  {
    var n := |p|;
    assert (iv + XorBytes(p, iv[..n]))[n..] == iv[n..] + XorBytes(p, iv[..n]);
  }

  /** Byte by byte, whatever was written in the file. */
  lemma ShortPlaintext(d: Cipher, c: seq<Byte>, n: nat, i: nat)
    requires i < n < BLOCK && |c| == BLOCK + n
    ensures DecryptFile(d, c, n)[i] == Xor(c[i], d(c[n..])[BLOCK - n + i])
  {
  }

  /** A longer message: the initialisation vector, followed by CBC-CS2. */
  lemma LongFile(e: Cipher, iv: Block, p: seq<Byte>)
    requires |p| >= BLOCK
    ensures EncryptFile(e, iv, p)[..BLOCK] == iv && EncryptFile(e, iv, p)[BLOCK..] == Cs2(e, iv, p)
  {
    EncryptIsCs2(e, iv, p);
  }

  /** The chaining: block j is the encryption of plaintext block j and ciphertext block j - 1. */
  lemma {:induction false} CbcChain(e: Cipher, iv: Block, p: seq<Byte>, j: nat)
    requires |p| % BLOCK == 0 && BLOCK * (j + 1) <= |p|
    ensures var c := iv + Cbc(e, iv, p);
      c[BLOCK * (j + 1)..BLOCK * (j + 2)] == e(XorBytes(c[BLOCK * j..BLOCK * (j + 1)], p[BLOCK * j..BLOCK * (j + 1)]))
    decreases j
  {
    var x := e(XorBytes(iv, p[..BLOCK]));
    var c, rest := iv + Cbc(e, iv, p), x + Cbc(e, x, p[BLOCK..]);
    assert c == iv + rest;
    if j > 0 {
      CbcChain(e, x, p[BLOCK..], j - 1);
      assert c[BLOCK * (j + 1)..BLOCK * (j + 2)] == rest[BLOCK * j..BLOCK * (j + 1)];
      assert c[BLOCK * j..BLOCK * (j + 1)] == rest[BLOCK * (j - 1)..BLOCK * j];
      assert p[BLOCK * j..BLOCK * (j + 1)] == p[BLOCK..][BLOCK * (j - 1)..BLOCK * j];
    } else {
      assert rest[..BLOCK] == x;
    }
  }
}
