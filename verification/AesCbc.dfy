/** `encfile` and `decfile`: CBC with ciphertext stealing over three rotating buffers. */
module AesCbc {
  import opened AesBlocks
  import opened CbcSpec

  /** The block at offset b of a buffer. */
  function At(s: seq<Byte>, b: nat): (x: Block)
    requires b + BLOCK <= |s|
  {
    s[b..b + BLOCK]
  }

  /** b1, b2 and b3 are the three blocks of the buffer, in some order. */
  predicate Rotation(b1: nat, b2: nat, b3: nat) {
    && Slot(b1) && Slot(b2) && Slot(b3) && b1 != b2 && b2 != b3 && b1 != b3
  }

  predicate Slot(b: nat) {
    b == 0 || b == BLOCK || b == 2 * BLOCK
  }

  lemma PutElsewhere(s: seq<Byte>, at: nat, x: seq<Byte>, b: nat)
    requires at + |x| <= |s| && b + BLOCK <= |s| && (b + BLOCK <= at || at + |x| <= b)
    ensures At(Put(s, at, x), b) == At(s, b)
  {
  }

  /** Bytes put into a block: they come first, what was behind them stays. */
  lemma PutInside(s: seq<Byte>, b: nat, i: nat, x: seq<Byte>)
    requires b + BLOCK <= |s| && i + |x| <= BLOCK
    ensures At(Put(s, b + i, x), b) == At(s, b)[..i] + x + At(s, b)[i + |x|..]
  {
    var t, j := Put(s, b + i, x), i + |x|;
    PutSlices(s, b + i, x);
    assert t[b..b + BLOCK] == t[b..b + i] + t[b + i..b + j] + t[b + j..b + BLOCK];
    AtParts(s, b, i);
    AtParts(s, b, j);
  }

  lemma AtParts(s: seq<Byte>, b: nat, n: nat)
    requires b + BLOCK <= |s| && n <= BLOCK
    ensures s[b..b + n] == At(s, b)[..n] && s[b + n..b + BLOCK] == At(s, b)[n..]
  {
  }

  lemma TakeSlice(s: seq<Byte>, n: nat, from: nat, len: nat)
    requires from + len <= n <= |s|
    ensures s[..n][from..from + len] == s[from..from + len]
  {
  }

  lemma PutBehind(s: seq<Byte>, at: nat, x: seq<Byte>)
    requires at + |x| <= |s|
    ensures Put(s, at, x)[..at + |x|] == s[..at] + x && Put(s, at, x)[at + |x|..] == s[at + |x|..]
  {
  }

  /** Write the first n bytes of a block of the buffer behind what has been written. */
  method Emit(out: array<Byte>, write: nat, buf: array<Byte>, b: nat, n: nat)
    requires out != buf && b + BLOCK <= buf.Length && n <= BLOCK && write + n <= out.Length
    modifies out
    ensures out[..write + n] == old(out[..write]) + At(buf[..], b)[..n]
    ensures forall k | write + n <= k <= out.Length :: out[k..] == old(out[k..])
  {
    hide At, Put;
    ghost var s, x := out[..], buf[b..b + n];
    AtParts(buf[..], b, n);
    assert buf[..][b..b + n] == x;
    Copy(out, write, buf, b, n);
    PutBehind(s, write, x);
    assert out[..][..write + n] == s[..write] + x;
    forall k | write + n <= k <= out.Length ensures out[k..] == s[k..] {
      assert out[..][k..] == s[write + n..][k - write - n..];
    }
  }

  /** Read a block, or what is left of the message. */
  method ReadBlock(buf: array<Byte>, b: nat, src: array<Byte>, from: nat, n: nat)
    requires buf != src && b + BLOCK <= buf.Length && n <= BLOCK && from + n <= src.Length
    modifies buf
    ensures At(buf[..], b)[..n] == src[..][from..from + n]
    ensures forall c: nat | c + BLOCK <= buf.Length && (c + BLOCK <= b || b + BLOCK <= c) :: At(buf[..], c) == old(At(buf[..], c))
  {
    ghost var s, x := buf[..], src[from..from + n];
    Copy(buf, b, src, from, n);
    PutInside(s, b, 0, x);
    forall c: nat | c + BLOCK <= |s| && (c + BLOCK <= b || b + BLOCK <= c) ensures At(Put(s, b, x), c) == At(s, c) {
      PutElsewhere(s, b, x, c);
    }
  }

  /** A block xored into another. */
  method XorBlock(dst: array<Byte>, at: nat, src: array<Byte>, from: nat)
    requires at + BLOCK <= dst.Length && from + BLOCK <= src.Length
    requires dst != src || at + BLOCK <= from || from + BLOCK <= at
    modifies dst
    ensures At(dst[..], at) == XorBytes(old(At(dst[..], at)), old(At(src[..], from)))
    ensures forall c: nat | c + BLOCK <= dst.Length && (c + BLOCK <= at || at + BLOCK <= c) :: At(dst[..], c) == old(At(dst[..], c))
  {
    hide XorBytes, Put;
    ghost var s, y := dst[..], XorBytes(At(dst[..], at), At(src[..], from));
    assert dst[at..at + BLOCK] == At(s, at) && src[from..from + BLOCK] == At(src[..], from);
    XorInto(dst, at, src, from, BLOCK);
    PutBlock(s, at, y);
  }

  /** The cipher applied to a block. */
  method CryptAt(f: Cipher, src: array<Byte>, from: nat, dst: array<Byte>, at: nat)
    requires at + BLOCK <= dst.Length && from + BLOCK <= src.Length
    modifies dst
    ensures At(dst[..], at) == f(old(At(src[..], from)))
    ensures forall c: nat | c + BLOCK <= dst.Length && (c + BLOCK <= at || at + BLOCK <= c) :: At(dst[..], c) == old(At(dst[..], c))
  {
    hide Put;
    ghost var s, y := dst[..], f(At(src[..], from));
    assert src[from..from + BLOCK] == At(src[..], from);
    CryptBlock(f, src, from, dst, at);
    PutBlock(s, at, y);
  }

  lemma PutBlock(s: seq<Byte>, at: nat, y: Block)
    requires at + BLOCK <= |s|
    ensures At(Put(s, at, y), at) == y
    ensures forall c: nat | c + BLOCK <= |s| && (c + BLOCK <= at || at + BLOCK <= c) :: At(Put(s, at, y), c) == At(s, c)
  {
    PutInside(s, at, 0, y);
    forall c: nat | c + BLOCK <= |s| && (c + BLOCK <= at || at + BLOCK <= c) ensures At(Put(s, at, y), c) == At(s, c) {
      PutElsewhere(s, at, y, c);
    }
  }

  /** Fill the partial block b3 up with ciphertext stolen from b1, and encrypt it. */
  method StealBlock(e: Cipher, buf: array<Byte>, b1: nat, ghost b2: nat, b3: nat, n: nat)
    requires buf.Length == 3 * BLOCK && Rotation(b1, b2, b3) && n <= BLOCK
    modifies buf
    ensures At(buf[..], b1) == old(At(buf[..], b1))
    ensures At(buf[..], b3) == e(Fill(old(At(buf[..], b1)), old(At(buf[..], b3)[..n])))
  {
    hide At, Fill;
    FillBlock(buf, b1, b2, b3, n);
    CryptAt(e, buf, b3, buf, b3);
  }

  method FillBlock(buf: array<Byte>, b1: nat, ghost b2: nat, b3: nat, n: nat)
    requires buf.Length == 3 * BLOCK && Rotation(b1, b2, b3) && n <= BLOCK
    modifies buf
    ensures At(buf[..], b1) == old(At(buf[..], b1))
    ensures At(buf[..], b3) == Fill(old(At(buf[..], b1)), old(At(buf[..], b3)[..n]))
  {
    hide At, Put, XorBytes, Fill;
    ghost var s := buf[..];
    XorInto(buf, b3, buf, b1, n);
    ghost var t := buf[..];
    assert t == Put(s, b3, XorBytes(s[b3..b3 + n], s[b1..b1 + n]));
    Copy(buf, b3 + n, buf, b1 + n, BLOCK - n);
    assert buf[..] == Put(t, b3 + n, t[b1 + n..b1 + BLOCK]);
    Filled(s, t, b1, b3, n);
  }

  lemma Filled(s: seq<Byte>, t: seq<Byte>, b1: nat, b3: nat, n: nat)
    requires |s| == 3 * BLOCK && Slot(b1) && Slot(b3) && b1 != b3 && n <= BLOCK
    requires t == Put(s, b3, XorBytes(s[b3..b3 + n], s[b1..b1 + n]))
    ensures var u := Put(t, b3 + n, t[b1 + n..b1 + BLOCK]);
      At(u, b1) == At(s, b1) && At(u, b3) == Fill(At(s, b1), At(s, b3)[..n])
  {
    assert b1 + BLOCK <= b3 || b3 + BLOCK <= b1;
    hide At, Put, XorBytes, Slot;
    var x, y := At(s, b1), XorBytes(s[b3..b3 + n], s[b1..b1 + n]);
    AtParts(s, b1, n);
    AtParts(s, b3, n);
    PutInside(s, b3, 0, y);
    PutElsewhere(s, b3, y, b1);
    AtParts(t, b1, n);
    PutInside(t, b3, n, x[n..]);
    PutElsewhere(t, b3 + n, x[n..], b1);
    assert At(t, b3)[..n] == y;
  }

  // ----- encryption

  /** `encfile`; the random initialisation vector is a parameter. */
  method Encfile(e: Cipher, iv: Block, message: array<Byte>, encrypted: array<Byte>, nbytes: nat)
    requires nbytes <= message.Length && BLOCK + nbytes <= encrypted.Length && message != encrypted
    modifies encrypted
    ensures encrypted[..BLOCK + nbytes] == EncryptFile(e, iv, message[..nbytes])
    ensures encrypted[BLOCK + nbytes..] == old(encrypted[BLOCK + nbytes..])
  {
    var dbuf := new Byte[3 * BLOCK](i requires 0 <= i => if i < BLOCK then iv[i] else 0);
    assert At(dbuf[..], 0) == iv;
    if nbytes < BLOCK {
      EncryptShort(e, iv, message, encrypted, nbytes, dbuf);
    } else {
      EncryptLong(e, iv, message, encrypted, nbytes, dbuf);
    }
  }

  method EncryptShort(e: Cipher, ghost iv: Block, message: array<Byte>, encrypted: array<Byte>, n: nat, dbuf: array<Byte>)
    requires n < BLOCK && n <= message.Length && BLOCK + n <= encrypted.Length
    requires dbuf.Length == 3 * BLOCK && At(dbuf[..], 0) == iv && dbuf != message && dbuf != encrypted && message != encrypted
    modifies encrypted, dbuf
    ensures encrypted[..BLOCK + n] == EncryptFile(e, iv, message[..n])
    ensures encrypted[BLOCK + n..] == old(encrypted[BLOCK + n..])
  {
    hide At, Put, XorBytes;
    ghost var p := message[..n];
    ReadBlock(dbuf, BLOCK, message, 0, n);
    ghost var s := dbuf[..];
    AtParts(s, 0, n);
    AtParts(s, BLOCK, n);
    assert dbuf[BLOCK..BLOCK + n] == s[BLOCK..BLOCK + n] && dbuf[0..n] == s[0..n];
    ghost var x := XorBytes(p, iv[..n]);
    XorInto(dbuf, BLOCK, dbuf, 0, n);
    ghost var t := dbuf[..];
    ShortChained(s, iv, x);
    assert dbuf[n..n + BLOCK] == t[n..n + BLOCK];
    CryptBlock(e, dbuf, n, dbuf, n);
    PutBehind(t, n, e(iv[n..] + x));
    ghost var u := encrypted[..];
    assert dbuf[0..BLOCK + n] == dbuf[..][..BLOCK + n];
    Copy(encrypted, 0, dbuf, 0, BLOCK + n);
    PutBehind(u, 0, iv[..n] + e(iv[n..] + x));
    assert encrypted[..][..BLOCK + n] == iv[..n] + e(iv[n..] + x);
    assert encrypted[..][BLOCK + n..] == u[BLOCK + n..];
  }

  /** The short message behind the initialisation vector, chained. */
  lemma ShortChained(s: seq<Byte>, iv: Block, x: seq<Byte>)
    requires |s| == 3 * BLOCK && At(s, 0) == iv && |x| < BLOCK
    ensures var t := Put(s, BLOCK, x); t[..|x|] == iv[..|x|] && t[|x|..|x| + BLOCK] == iv[|x|..] + x
  {
    var n, t := |x|, Put(s, BLOCK, x);
    PutSlices(s, BLOCK, x);
    assert t[n..n + BLOCK] == t[n..BLOCK] + t[BLOCK..BLOCK + n];
    AtParts(s, 0, n);
    assert t[0..n] == s[0..n];
  }

  /** What has been written and what is still to come make up the ciphertext; b1 and b2 hold the next block. */
  ghost predicate Encrypting(e: Cipher, iv: Block, p: seq<Byte>, prev: Block, read: nat, b1: Block, b2: Block, written: seq<Byte>) {
    && BLOCK <= read <= |p|
    && XorBytes(b1, b2) == XorBytes(prev, p[read - BLOCK..read])
    && written + Encrypt(e, prev, p[read - BLOCK..]) == EncryptFile(e, iv, p)
  }

  lemma EncryptStart(e: Cipher, iv: Block, p: seq<Byte>, b: Block)
    requires |p| >= BLOCK && b == p[..BLOCK]
    ensures Encrypting(e, iv, p, iv, BLOCK, iv, b, iv)
  {
    assert p[0..] == p && p[0..BLOCK] == p[..BLOCK];
  }

  /** The next block of ciphertext, when it is the last one, the last but one, or another. */
  lemma EncryptNext(e: Cipher, iv: Block, p: seq<Byte>, prev: Block, read: nat, b1: Block, b2: Block, written: seq<Byte>)
    requires Encrypting(e, iv, p, prev, read, b1, b2, written)
    ensures var x, c := e(XorBytes(b1, b2)), EncryptFile(e, iv, p);
      && (read == |p| ==> written + x[..BLOCK] == c)
      && (read < |p| < read + BLOCK ==> written + e(Fill(x, p[read..]))[..BLOCK] + x[..|p| - read] == c)
      && (read + BLOCK <= |p| ==>
            Encrypting(e, iv, p, x, read + BLOCK, p[read..read + BLOCK], x, written + x[..BLOCK]))
  {
    var rest := p[read - BLOCK..];
    var x := e(XorBytes(b1, b2));
    assert rest[..BLOCK] == p[read - BLOCK..read] && rest[BLOCK..] == p[read..] && x[..BLOCK] == x;
    if read < |p| < read + BLOCK {
      var y := e(Fill(x, p[read..]));
      assert y[..BLOCK] == y && written + (y + x[..|p| - read]) == written + y + x[..|p| - read];
    } else if read + BLOCK <= |p| {
      XorTwice(p[read..read + BLOCK], x);
      assert written + (x + Encrypt(e, x, p[read..])) == (written + x) + Encrypt(e, x, p[read..]);
    }
  }

  /** The loop over whole blocks, one block read ahead to see whether ciphertext stealing is needed. */
  method EncryptLong(e: Cipher, iv: Block, message: array<Byte>, encrypted: array<Byte>, nbytes: nat, dbuf: array<Byte>)
    requires BLOCK <= nbytes <= message.Length && BLOCK + nbytes <= encrypted.Length
    requires dbuf.Length == 3 * BLOCK && At(dbuf[..], 0) == iv && dbuf != message && dbuf != encrypted && message != encrypted
    modifies encrypted, dbuf
    ensures encrypted[..BLOCK + nbytes] == EncryptFile(e, iv, message[..nbytes])
    ensures encrypted[BLOCK + nbytes..] == old(encrypted[BLOCK + nbytes..])
  {
    hide At, XorBytes, EncryptFile, Encrypting, Fill;
    ghost var p := message[..][..nbytes];
    assert p == message[..nbytes];
    ReadBlock(dbuf, BLOCK, message, 0, BLOCK);
    TakeSlice(message[..], nbytes, 0, BLOCK);
    var b1: nat, b2: nat, b3: nat := 0, BLOCK, 2 * BLOCK;
    Emit(encrypted, 0, dbuf, b1, BLOCK);
    var read, write := BLOCK, BLOCK;
    ghost var prev := iv;
    assert At(dbuf[..], b2) == p[..BLOCK] && encrypted[..write] == iv;
    EncryptStart(e, iv, p, At(dbuf[..], b2));
    while true
      invariant Rotation(b1, b2, b3) && read == write <= nbytes
      invariant Encrypting(e, iv, p, prev, read, At(dbuf[..], b1), At(dbuf[..], b2), encrypted[..write])
      invariant encrypted[BLOCK + nbytes..] == old(encrypted[BLOCK + nbytes..])
      decreases nbytes - read
    {
      var len := if BLOCK > nbytes - read then nbytes - read else BLOCK;
      EncryptNext(e, iv, p, prev, read, At(dbuf[..], b1), At(dbuf[..], b2), encrypted[..write]);
      ReadBlock(dbuf, b3, message, read, len);
      TakeSlice(message[..], nbytes, read, len);
      XorBlock(dbuf, b1, dbuf, b2);
      CryptAt(e, dbuf, b1, dbuf, b1);
      ghost var x := At(dbuf[..], b1);
      var wlen := BLOCK;
      if len != 0 && len != BLOCK {
        wlen := len;
        StealBlock(e, dbuf, b1, b2, b3, len);
        assert p[read..read + len] == p[read..];
        Emit(encrypted, write, dbuf, b3, BLOCK);
        write := write + BLOCK;
      }
      Emit(encrypted, write, dbuf, b1, wlen);
      if len != BLOCK {
        assert encrypted[..write + wlen] == EncryptFile(e, iv, p);
        return;
      }
      read := read + BLOCK;
      write := write + BLOCK;
      assert At(dbuf[..], b3)[..BLOCK] == At(dbuf[..], b3);
      b1, b2, b3 := b3, b1, b2;
      prev := x;
    }
  }

  // ----- decryption

  /** `decfile`, given the length of the plaintext */
  method Decfile(d: Cipher, encrypted: array<Byte>, decrypted: array<Byte>, nbytes: nat)
    requires BLOCK + nbytes <= encrypted.Length && nbytes <= decrypted.Length && encrypted != decrypted
    modifies decrypted
    ensures decrypted[..nbytes] == DecryptFile(d, encrypted[..BLOCK + nbytes], nbytes)
    ensures decrypted[nbytes..] == old(decrypted[nbytes..])
  {
    var dbuf := new Byte[3 * BLOCK](_ => 0);
    if nbytes < BLOCK {
      DecryptShort(d, encrypted, decrypted, nbytes, dbuf);
    } else {
      DecryptLong(d, encrypted, decrypted, nbytes, dbuf);
    }
  }

  method DecryptShort(d: Cipher, encrypted: array<Byte>, decrypted: array<Byte>, n: nat, dbuf: array<Byte>)
    requires n < BLOCK && BLOCK + n <= encrypted.Length && n <= decrypted.Length
    requires dbuf.Length == 3 * BLOCK && dbuf != encrypted && dbuf != decrypted && encrypted != decrypted
    modifies decrypted, dbuf
    ensures decrypted[..n] == DecryptFile(d, encrypted[..BLOCK + n], n)
    ensures decrypted[n..] == old(decrypted[n..])
  {
    hide Put, XorBytes;
    ghost var c, s := encrypted[0..BLOCK + n], dbuf[..];
    Copy(dbuf, 0, encrypted, 0, BLOCK + n);
    ghost var t := dbuf[..];
    PutSlices(s, 0, c);
    assert t[n..n + BLOCK] == c[n..] && t[0..n] == c[..n];
    assert dbuf[n..n + BLOCK] == t[n..n + BLOCK];
    CryptBlock(d, dbuf, n, dbuf, n);
    ghost var u := dbuf[..];
    PutSlices(t, n, d(c[n..]));
    assert u[BLOCK..BLOCK + n] == u[n..n + BLOCK][BLOCK - n..];
    assert u[0..n] == t[0..n];
    assert dbuf[0..n] == u[0..n] && dbuf[BLOCK..BLOCK + n] == u[BLOCK..BLOCK + n];
    XorInto(dbuf, 0, dbuf, BLOCK, n);
    ghost var p := XorBytes(c[..n], d(c[n..])[BLOCK - n..]);
    PutSlices(u, 0, p);
    assert dbuf[0..n] == dbuf[..][0..n];
    ghost var v := decrypted[..];
    Copy(decrypted, 0, dbuf, 0, n);
    PutBehind(v, 0, p);
    assert decrypted[..][..n] == p && decrypted[..][n..] == v[n..];
  }

  /** What has been written and what is still to come make up the plaintext; b1 and b2 hold two blocks of ciphertext. */
  ghost predicate Decrypting(d: Cipher, c: seq<Byte>, read: nat, b1: Block, b2: Block, written: seq<Byte>) {
    && 2 * BLOCK <= read <= |c|
    && b1 == c[read - 2 * BLOCK..read - BLOCK] && b2 == c[read - BLOCK..read]
    && written + Decrypt(d, b1, c[read - BLOCK..]) == DecryptFile(d, c, |c| - BLOCK)
  }

  lemma DecryptNext(d: Cipher, c: seq<Byte>, read: nat, b1: Block, b2: Block, written: seq<Byte>)
    requires Decrypting(d, c, read, b1, b2, written)
    ensures var z, p := d(b2), DecryptFile(d, c, |c| - BLOCK);
      && (read == |c| ==> written + XorBytes(z, b1)[..BLOCK] == p)
      && (read < |c| < read + BLOCK ==>
            var n := |c| - read;
            written + XorBytes(d(c[read..] + z[n..]), b1)[..BLOCK] + XorBytes(z[..n], c[read..]) == p)
      && (read + BLOCK <= |c| ==>
            Decrypting(d, c, read + BLOCK, b2, c[read..read + BLOCK], written + XorBytes(z, b1)[..BLOCK]))
  {
    hide XorBytes;
    var rest, z := c[read - BLOCK..], d(b2);
    assert rest[..BLOCK] == b2 && rest[BLOCK..] == c[read..] && XorBytes(z, b1)[..BLOCK] == XorBytes(z, b1);
    if read < |c| < read + BLOCK {
      var n := |c| - read;
      var y, last := XorBytes(d(c[read..] + z[n..]), b1), XorBytes(z[..n], c[read..]);
      assert y[..BLOCK] == y && written + (y + last) == written + y + last;
    } else if read + BLOCK <= |c| {
      assert written + (XorBytes(z, b1) + Decrypt(d, b2, c[read..])) == (written + XorBytes(z, b1)) + Decrypt(d, b2, c[read..]);
    }
  }

  lemma DecryptStart(d: Cipher, c: seq<Byte>, b1: Block, b2: Block, written: seq<Byte>)
    requires |c| >= 2 * BLOCK && written == []
    requires b1[..BLOCK] == c[0..BLOCK] && b2[..BLOCK] == c[BLOCK..2 * BLOCK]
    ensures Decrypting(d, c, 2 * BLOCK, b1, b2, written)
  {
    assert b1[..BLOCK] == b1 && b2[..BLOCK] == b2 && c[0..BLOCK] == c[..BLOCK];
    assert written + Decrypt(d, b1, c[BLOCK..]) == Decrypt(d, b1, c[BLOCK..]);
  }

  /** Take the partial last block out of z, and the block before it out of what z holds of the stolen ciphertext. */
  method Unsteal(d: Cipher, dbuf: array<Byte>, b1: nat, ghost b2: nat, b3: nat, buf: array<Byte>, n: nat)
    requires dbuf.Length == 3 * BLOCK && Rotation(b1, b2, b3) && buf.Length == BLOCK && buf != dbuf && n <= BLOCK
    modifies dbuf, buf
    ensures At(buf[..], 0)[..n] == XorBytes(old(At(buf[..], 0)[..n]), old(At(dbuf[..], b3)[..n]))
    ensures At(dbuf[..], b3) == XorBytes(d(old(At(dbuf[..], b3)[..n]) + old(At(buf[..], 0)[n..])), old(At(dbuf[..], b1)))
  {
    hide At, Put, XorBytes;
    ghost var s, z := dbuf[..], buf[..];
    ghost var y := XorBytes(At(z, 0)[..n], At(s, b3)[..n]);
    AtParts(z, 0, n);
    AtParts(s, b3, n);
    assert buf[0..n] == z[0..n] && dbuf[b3..b3 + n] == s[b3..b3 + n];
    XorInto(buf, 0, dbuf, b3, n);
    ghost var w := buf[..];
    PutInside(z, 0, 0, y);
    AtParts(w, 0, n);
    assert buf[n..BLOCK] == w[n..BLOCK];
    Copy(dbuf, b3 + n, buf, n, BLOCK - n);
    PutInside(s, b3, n, At(z, 0)[n..]);
    PutElsewhere(s, b3 + n, At(z, 0)[n..], b1);
    assert At(w, 0)[..n] == y && At(w, 0)[n..] == At(z, 0)[n..];
    assert At(dbuf[..], b3) == At(s, b3)[..n] + At(z, 0)[n..];
    CryptAt(d, dbuf, b3, dbuf, b3);
    XorBlock(dbuf, b3, dbuf, b1);
  }

  method EmitStolen(d: Cipher, dbuf: array<Byte>, b1: nat, ghost b2: nat, b3: nat, buf: array<Byte>, n: nat, out: array<Byte>, write: nat)
    requires dbuf.Length == 3 * BLOCK && Rotation(b1, b2, b3) && buf.Length == BLOCK && buf != dbuf && n <= BLOCK
    requires out != dbuf && out != buf && write + BLOCK <= out.Length
    modifies dbuf, buf, out
    ensures At(buf[..], 0)[..n] == XorBytes(old(At(buf[..], 0)[..n]), old(At(dbuf[..], b3)[..n]))
    ensures var y := XorBytes(d(old(At(dbuf[..], b3)[..n]) + old(At(buf[..], 0)[n..])), old(At(dbuf[..], b1)));
      out[..write + BLOCK] == old(out[..write]) + y[..BLOCK]
    ensures forall k | write + BLOCK <= k <= out.Length :: out[k..] == old(out[k..])
  {
    hide At, XorBytes, Put;
    Unsteal(d, dbuf, b1, b2, b3, buf, n);
    Emit(out, write, dbuf, b3, BLOCK);
  }

  /** The loop over ciphertext blocks, one block read ahead to see whether ciphertext stealing was used. */
  method DecryptLong(d: Cipher, encrypted: array<Byte>, decrypted: array<Byte>, nbytes: nat, dbuf: array<Byte>)
    requires BLOCK <= nbytes <= decrypted.Length && BLOCK + nbytes <= encrypted.Length
    requires dbuf.Length == 3 * BLOCK && dbuf != encrypted && dbuf != decrypted && encrypted != decrypted
    modifies decrypted, dbuf
    ensures decrypted[..nbytes] == DecryptFile(d, encrypted[..BLOCK + nbytes], nbytes)
    ensures decrypted[nbytes..] == old(decrypted[nbytes..])
  {
    hide At, XorBytes, DecryptFile, Decrypting, Put;
    ghost var c := encrypted[..][..BLOCK + nbytes];
    assert c == encrypted[..BLOCK + nbytes];
    ReadBlock(dbuf, 0, encrypted, 0, BLOCK);
    ReadBlock(dbuf, BLOCK, encrypted, BLOCK, BLOCK);
    var b1: nat, b2: nat, b3: nat := 0, BLOCK, 2 * BLOCK;
    var read, write := 2 * BLOCK, 0;
    DecryptStart(d, c, At(dbuf[..], b1), At(dbuf[..], b2), decrypted[..write]);
    var buf := new Byte[BLOCK](_ => 0);
    while true
      invariant Rotation(b1, b2, b3) && read == write + 2 * BLOCK <= nbytes + BLOCK
      invariant Decrypting(d, c, read, At(dbuf[..], b1), At(dbuf[..], b2), decrypted[..write])
      invariant decrypted[nbytes..] == old(decrypted[nbytes..])
      decreases nbytes + BLOCK - read
    {
      var left := nbytes + BLOCK - read;
      var len := if left < BLOCK then left else BLOCK;
      ghost var z := d(At(dbuf[..], b2));
      DecryptNext(d, c, read, At(dbuf[..], b1), At(dbuf[..], b2), decrypted[..write]);
      ReadBlock(dbuf, b3, encrypted, read, len);
      TakeSlice(encrypted[..], nbytes + BLOCK, read, len);
      var wlen := BLOCK;
      CryptAt(d, dbuf, b2, buf, 0);
      assert At(buf[..], 0) == z;
      if len == 0 || len == BLOCK {
        XorBlock(buf, 0, dbuf, b1);
        assert len == 0 ==> decrypted[..write] + At(buf[..], 0)[..wlen] == DecryptFile(d, c, nbytes);
      } else {
        wlen := len;
        assert At(dbuf[..], b3)[..len] == c[read..read + len] == c[read..];
        EmitStolen(d, dbuf, b1, b2, b3, buf, len, decrypted, write);
        write := write + BLOCK;
        assert decrypted[..write] + At(buf[..], 0)[..wlen] == DecryptFile(d, c, nbytes);
      }
      Emit(decrypted, write, buf, 0, wlen);
      if len != BLOCK {
        return;
      }
      read := read + BLOCK;
      write := write + BLOCK;
      assert At(dbuf[..], b3)[..BLOCK] == At(dbuf[..], b3);
      b1, b2, b3 := b2, b3, b1;
    }
  }
}
