/** `aes_cfb_encrypt`, `aes_cfb_decrypt` and `aes_ofb_crypt`, which stop and resume anywhere in a block. */
module AesModes {
  import opened AesBlocks
  import opened StreamSpec

  /** `bPos` is `inf.b[2]`, the bytes of the feedback block already used, with 0 for none or all. */
  class StreamContext {
    const cipher: Cipher
    var bPos: nat

    constructor (cipher: Cipher)
      ensures this.cipher == cipher && bPos == 0
    {
      this.cipher, bPos := cipher, 0;
    }

    ghost predicate Valid()
      reads this
    {
      bPos < BLOCK
    }

    ghost function Resume(iv: seq<Byte>): State
      requires |iv| == BLOCK
      reads this
    {
      State(iv, if bPos == 0 then BLOCK else bPos)
    }

    method CfbEncrypt(ibuf: array<Byte>, obuf: array<Byte>, len: nat, iv: array<Byte>)
      requires Valid() && Buffers(ibuf, obuf, len, iv)
      modifies this, obuf, iv
      ensures Valid() && Resume(iv[..]) == After(cipher, StreamSpec.CfbEncrypt, old(Resume(iv[..])), old(ibuf[..len]))
      ensures obuf[..len] == Out(cipher, StreamSpec.CfbEncrypt, old(Resume(iv[..])), old(ibuf[..len]))
      ensures obuf[len..] == old(obuf[len..])
    {
      Crypt(StreamSpec.CfbEncrypt, ibuf, obuf, len, iv);
    }

    method CfbDecrypt(ibuf: array<Byte>, obuf: array<Byte>, len: nat, iv: array<Byte>)
      requires Valid() && Buffers(ibuf, obuf, len, iv)
      modifies this, obuf, iv
      ensures Valid() && Resume(iv[..]) == After(cipher, StreamSpec.CfbDecrypt, old(Resume(iv[..])), old(ibuf[..len]))
      ensures obuf[..len] == Out(cipher, StreamSpec.CfbDecrypt, old(Resume(iv[..])), old(ibuf[..len]))
      ensures obuf[len..] == old(obuf[len..])
    {
      Crypt(StreamSpec.CfbDecrypt, ibuf, obuf, len, iv);
    }

    method OfbCrypt(ibuf: array<Byte>, obuf: array<Byte>, len: nat, iv: array<Byte>)
      requires Valid() && Buffers(ibuf, obuf, len, iv)
      modifies this, obuf, iv
      ensures Valid() && Resume(iv[..]) == After(cipher, Ofb, old(Resume(iv[..])), old(ibuf[..len]))
      ensures obuf[..len] == Out(cipher, Ofb, old(Resume(iv[..])), old(ibuf[..len]))
      ensures obuf[len..] == old(obuf[len..])
    {
      Crypt(Ofb, ibuf, obuf, len, iv);
    }

    /** The three functions differ only in which byte goes back into the feedback block. */
    method Crypt(mode: Mode, ibuf: array<Byte>, obuf: array<Byte>, len: nat, iv: array<Byte>)
      requires Valid() && Buffers(ibuf, obuf, len, iv)
      modifies this, obuf, iv
      ensures Valid() && Resume(iv[..]) == After(cipher, mode, old(Resume(iv[..])), old(ibuf[..len]))
      ensures obuf[..len] == Out(cipher, mode, old(Resume(iv[..])), old(ibuf[..len]))
      ensures obuf[len..] == old(obuf[len..])
    {
      ghost var x, s0, tail := ibuf[..len], Resume(iv[..]), obuf[len..];
      hide Doing;
      var cnt: int, pos: int := 0, bPos;
      StartsDoing(cipher, mode, s0, x);
      assert ibuf[0..len] == x && obuf[..0] == [];
      if pos != 0 {
        pos, cnt := CryptBytes(cipher, mode, ibuf, obuf, len, iv, pos, cnt, s0, x);
        if pos == BLOCK {
          pos := 0;
        }
      }
      assert cnt == len || pos == 0;
      if (len - cnt) / 16 != 0 {
        cnt := CryptBlocks(cipher, mode, ibuf, obuf, len, iv, cnt, s0, x);
      }
      while cnt < len
        invariant 0 <= cnt <= len && 0 <= pos < BLOCK && (cnt == len || pos == 0)
        invariant Doing(cipher, mode, s0, x, State(iv[..], if pos == 0 then BLOCK else pos), obuf[..cnt])
        invariant ibuf[cnt..len] == x[cnt..] && obuf[len..] == tail
      {
        if pos == 0 {
          NewBlock(cipher, mode, iv, s0, x, obuf[..cnt]);
        }
        pos, cnt := CryptBytes(cipher, mode, ibuf, obuf, len, iv, pos, cnt, s0, x);
        if pos == BLOCK {
          pos := 0;
        }
      }
      bPos := pos;
      EndsDoing(cipher, mode, s0, x, Resume(iv[..]), obuf[..len]);
    }
  }

  /** The input may be the output buffer itself. */
  ghost predicate Buffers(ibuf: array<Byte>, obuf: array<Byte>, len: nat, iv: array<Byte>) {
    len <= ibuf.Length && len <= obuf.Length && iv.Length == BLOCK && iv != ibuf && iv != obuf
  }

  /** s and done are where the work on x from s0 has got to. */
  ghost predicate Doing(e: Cipher, mode: Mode, s0: State, x: seq<Byte>, s: State, done: seq<Byte>) {
    && |done| <= |x|
    && done + Out(e, mode, s, x[|done|..]) == Out(e, mode, s0, x)
    && After(e, mode, s, x[|done|..]) == After(e, mode, s0, x)
  }

  lemma StartsDoing(e: Cipher, mode: Mode, s: State, x: seq<Byte>)
    ensures Doing(e, mode, s, x, s, [])
  {
    assert x[0..] == x;
  }

  lemma EndsDoing(e: Cipher, mode: Mode, s0: State, x: seq<Byte>, s: State, done: seq<Byte>)
    requires Doing(e, mode, s0, x, s, done) && |done| == |x|
    ensures done == Out(e, mode, s0, x) && s == After(e, mode, s0, x)
  {
  }

  lemma DoByte(e: Cipher, mode: Mode, s0: State, x: seq<Byte>, s: State, done: seq<Byte>)
    requires Doing(e, mode, s0, x, s, done) && |done| < |x| && s.pos < BLOCK
    ensures var n, k := |done|, s.iv[s.pos];
      Doing(e, mode, s0, x, State(s.iv[s.pos := Fed(mode, k, x[n])], s.pos + 1), done + [Xor(k, x[n])])
  {
    var rest := x[|done|..];
    assert rest[1..] == x[|done| + 1..];
    assert done + ([OutByte(e, s, rest[0])] + Out(e, mode, Next(e, mode, s, rest[0]), rest[1..]))
        == done + [OutByte(e, s, rest[0])] + Out(e, mode, Next(e, mode, s, rest[0]), rest[1..]);
  }

  /** `aes_encrypt(iv, iv, ctx)` */
  method NewBlock(e: Cipher, ghost mode: Mode, iv: array<Byte>, ghost s0: State, ghost x: seq<Byte>, ghost done: seq<Byte>)
    requires iv.Length == BLOCK && Doing(e, mode, s0, x, State(iv[..], BLOCK), done) && |done| < |x|
    modifies iv
    ensures Doing(e, mode, s0, x, State(iv[..], 0), done)
  {
    ghost var b := iv[..];
    assert iv[0..BLOCK] == b;
    CryptBlock(e, iv, 0, iv, 0);
    PutSlices(b, 0, e(b));
    assert iv[..] == iv[..][0..BLOCK] == e(b);
    PrimedSame(e, mode, State(b, BLOCK), x[|done|..]);
  }

  /** The loop over the rest of a block, or of the input. */
  method CryptBytes(e: Cipher, mode: Mode, ibuf: array<Byte>, obuf: array<Byte>, len: nat, iv: array<Byte>, pos: nat, cnt: nat,
                    ghost s0: State, ghost x: seq<Byte>)
    returns (pos': nat, cnt': nat)
    requires Buffers(ibuf, obuf, len, iv) && pos < BLOCK && cnt <= len == |x|
    requires Doing(e, mode, s0, x, State(iv[..], pos), obuf[..cnt]) && ibuf[cnt..len] == x[cnt..]
    modifies obuf, iv
    ensures cnt <= cnt' <= len && pos' == pos + (cnt' - cnt) <= BLOCK && (cnt' == len || pos' == BLOCK)
    ensures Doing(e, mode, s0, x, State(iv[..], pos'), obuf[..cnt']) && ibuf[cnt'..len] == x[cnt'..]
    ensures obuf[len..] == old(obuf[len..])
  {
    hide Doing;
    pos', cnt' := pos, cnt;
    while pos' < BLOCK && cnt' < len
      invariant cnt <= cnt' <= len && pos' == pos + (cnt' - cnt) <= BLOCK
      invariant Doing(e, mode, s0, x, State(iv[..], pos'), obuf[..cnt']) && ibuf[cnt'..len] == x[cnt'..]
      invariant obuf[len..] == old(obuf[len..])
    {
      ghost var rest := ibuf[cnt'..len];
      assert rest[0] == x[cnt'] && rest[1..] == x[cnt' + 1..];
      DoByte(e, mode, s0, x, State(iv[..], pos'), obuf[..cnt']);
      ghost var done, b := obuf[..cnt'], iv[..];
      var t, k := ibuf[cnt'], iv[pos'];
      obuf[cnt'] := Xor(k, t);
      iv[pos'] := Fed(mode, k, t);
      assert ibuf[cnt' + 1..len] == rest[1..];
      assert obuf[..cnt' + 1] == done + [Xor(k, t)] && iv[..] == b[pos' := Fed(mode, k, t)];
      pos', cnt' := pos' + 1, cnt' + 1;
    }
  }

  /** The loop over whole blocks; its sixteen statements are the byte loop run to the end of a fresh block. */
  method CryptBlocks(e: Cipher, mode: Mode, ibuf: array<Byte>, obuf: array<Byte>, len: nat, iv: array<Byte>, cnt: nat,
                     ghost s0: State, ghost x: seq<Byte>)
    returns (cnt': nat)
    requires Buffers(ibuf, obuf, len, iv) && cnt <= len == |x|
    requires Doing(e, mode, s0, x, State(iv[..], BLOCK), obuf[..cnt]) && ibuf[cnt..len] == x[cnt..]
    modifies obuf, iv
    ensures cnt <= cnt' <= len < cnt' + BLOCK
    ensures Doing(e, mode, s0, x, State(iv[..], BLOCK), obuf[..cnt']) && ibuf[cnt'..len] == x[cnt'..]
    ensures obuf[len..] == old(obuf[len..])
  {
    hide Doing;
    cnt' := cnt;
    while cnt' + BLOCK <= len
      invariant cnt <= cnt' <= len
      invariant Doing(e, mode, s0, x, State(iv[..], BLOCK), obuf[..cnt']) && ibuf[cnt'..len] == x[cnt'..]
      invariant obuf[len..] == old(obuf[len..])
    {
      NewBlock(e, mode, iv, s0, x, obuf[..cnt']);
      var _, next := CryptBytes(e, mode, ibuf, obuf, len, iv, 0, cnt', s0, x);
      cnt' := next;
    }
  }
}
