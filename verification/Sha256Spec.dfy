/** SHA-256 as FIPS 180-4 defines it. */
module Sha256Spec {
  import opened Arith
  import AesBlocks
  import Bits

  type Byte = AesBlocks.Byte

  const WORD_MOD := 0x1_0000_0000

  type Word = x: int | 0 <= x < 0x1_0000_0000

  /** Addition modulo 2^32, applied to a whole sum. */
  function W(x: int): Word {
    x % WORD_MOD
  }

  lemma Sum(x: int, y: int)
    ensures W(W(x) as int + y) == W(x + y)
  {
  }

  // ----- sections 3.2 and 4.1.2: operations and functions on words

  lemma WordBits()
    ensures Pow2(32) == WORD_MOD
  {
    assert Pow2(8) == 256 by { assert Pow2(4) == 16; }
    Pow2Add(8, 8);
    Pow2Add(16, 16);
  }

  function And(x: Word, y: Word): Word {
    WordBits();
    Bits.And(x, y, 32)
  }

  function Or(x: Word, y: Word): Word {
    WordBits();
    Bits.Or(x, y, 32)
  }

  function Xor(x: Word, y: Word): Word {
    WordBits();
    Bits.Xor(x, y, 32)
  }

  function Not(x: Word): Word {
    WordBits();
    Bits.Not(x, 32)
  }

  function Shr(x: Word, n: nat): Word {
    ShrRange(x, Pow2(n));
    x / Pow2(n)
  }

  lemma ShrRange(x: int, p: int)
    requires 0 <= x && p >= 1
    ensures 0 <= x / p <= x
  {
    QuotientRange(x, p);
    MulMono(1, p, x / p);
  }

  function Shl(x: Word, n: nat): Word {
    W(x * Pow2(n))
  }

  function Rotr(x: Word, n: nat): Word
    requires n <= 32
  {
    Or(Shr(x, n), Shl(x, 32 - n))
  }

  function Ch(x: Word, y: Word, z: Word): Word {
    Xor(And(x, y), And(Not(x), z))
  }

  function Maj(x: Word, y: Word, z: Word): Word {
    Xor(Xor(And(x, y), And(x, z)), And(y, z))
  }

  function BigSigma0(x: Word): Word {
    Xor(Xor(Rotr(x, 2), Rotr(x, 13)), Rotr(x, 22))
  }

  function BigSigma1(x: Word): Word {
    Xor(Xor(Rotr(x, 6), Rotr(x, 11)), Rotr(x, 25))
  }

  function SmallSigma0(x: Word): Word {
    Xor(Xor(Rotr(x, 7), Rotr(x, 18)), Shr(x, 3))
  }

  function SmallSigma1(x: Word): Word {
    Xor(Xor(Rotr(x, 17), Rotr(x, 19)), Shr(x, 10))
  }

  // ----- sections 4.2.2 and 5.3.3: constants

  /** The constants, sixteen at a time. */
  function K(): (k: seq<Word>)
    ensures |k| == 64
  {
    hide K0, K1, K2, K3;
    K0() + K1() + K2() + K3()
  }

  function K0(): (k: seq<Word>)
    ensures |k| == 16
  {
    [0x428a_2f98, 0x7137_4491, 0xb5c0_fbcf, 0xe9b5_dba5, 0x3956_c25b, 0x59f1_11f1, 0x923f_82a4, 0xab1c_5ed5,
      0xd807_aa98, 0x1283_5b01, 0x2431_85be, 0x550c_7dc3, 0x72be_5d74, 0x80de_b1fe, 0x9bdc_06a7, 0xc19b_f174]
  }

  function K1(): (k: seq<Word>)
    ensures |k| == 16
  {
    [0xe49b_69c1, 0xefbe_4786, 0x0fc1_9dc6, 0x240c_a1cc, 0x2de9_2c6f, 0x4a74_84aa, 0x5cb0_a9dc, 0x76f9_88da,
      0x983e_5152, 0xa831_c66d, 0xb003_27c8, 0xbf59_7fc7, 0xc6e0_0bf3, 0xd5a7_9147, 0x06ca_6351, 0x1429_2967]
  }

  function K2(): (k: seq<Word>)
    ensures |k| == 16
  {
    [0x27b7_0a85, 0x2e1b_2138, 0x4d2c_6dfc, 0x5338_0d13, 0x650a_7354, 0x766a_0abb, 0x81c2_c92e, 0x9272_2c85,
      0xa2bf_e8a1, 0xa81a_664b, 0xc24b_8b70, 0xc76c_51a3, 0xd192_e819, 0xd699_0624, 0xf40e_3585, 0x106a_a070]
  }

  function K3(): (k: seq<Word>)
    ensures |k| == 16
  {
    [0x19a4_c116, 0x1e37_6c08, 0x2748_774c, 0x34b0_bcb5, 0x391c_0cb3, 0x4ed8_aa4a, 0x5b9c_ca4f, 0x682e_6ff3,
      0x748f_82ee, 0x78a5_636f, 0x84c8_7814, 0x8cc7_0208, 0x90be_fffa, 0xa450_6ceb, 0xbef9_a3f7, 0xc671_78f2]
  }

  type Digest = h: seq<Word> | |h| == 8 witness seq(8, _ => 0)

  function H0(): Digest {
    [0x6a09_e667, 0xbb67_ae85, 0x3c6e_f372, 0xa54f_f53a, 0x510e_527f, 0x9b05_688c, 0x1f83_d9ab, 0x5be0_cd19]
  }

  // ----- section 6.2.2: one block

  type MessageBlock = m: seq<Word> | |m| == 16 witness seq(16, _ => 0)

  function Schedule(m: MessageBlock, t: nat): Word {
    hide SmallSigma0, SmallSigma1;
    if t < 16 then m[t]
    else W(SmallSigma1(Schedule(m, t - 2)) as int + Schedule(m, t - 7) as int
         + SmallSigma0(Schedule(m, t - 15)) as int + Schedule(m, t - 16) as int)
  }

  /** One round on the working variables a to h. */
  function Round(s: Digest, k: Word, w: Word): Digest {
    hide BigSigma0, BigSigma1, Ch, Maj;
    var t1 := W(s[7] as int + BigSigma1(s[4]) as int + Ch(s[4], s[5], s[6]) as int + k as int + w as int);
    var t2 := W(BigSigma0(s[0]) as int + Maj(s[0], s[1], s[2]) as int);
    [W(t1 as int + t2 as int), s[0], s[1], s[2], W(s[3] as int + t1 as int), s[4], s[5], s[6]]
  }

  function Rounds(h: Digest, m: MessageBlock, t: nat): Digest
    requires t <= |K()|
  {
    hide Round, Schedule, K;
    if t == 0 then h else Round(Rounds(h, m, t - 1), K()[t - 1], Schedule(m, t - 1))
  }

  function Compress(h: Digest, m: MessageBlock): Digest {
    hide Rounds, K;
    var s := Rounds(h, m, |K()|);
    seq(8, i requires 0 <= i < 8 => W(h[i] as int + s[i] as int))
  }

  // ----- words and bytes, section 5.2.1

  function BigEndian(b: seq<Byte>): Word
    requires |b| == 4
  {
    b[0] as int * 0x100_0000 + b[1] as int * 0x1_0000 + b[2] as int * 0x100 + b[3] as int
  }

  function WordsOf(b: seq<Byte>): MessageBlock
    requires |b| == 64
  {
    seq(16, i requires 0 <= i < 16 => BigEndian(b[4 * i..4 * i + 4]))
  }

  /** All whole blocks, one after the other. */
  function HashBlocks(h: Digest, b: seq<Byte>): Digest
    decreases |b|
  {
    hide Compress, WordsOf;
    if |b| < 64 then h else HashBlocks(Compress(h, WordsOf(b[..64])), b[64..])
  }

  // ----- section 5.1.1: padding

  function Zeros(n: nat): (z: seq<Byte>)
    ensures |z| == n
  {
    seq(n, _ => 0)
  }

  /** A number in n bytes, most significant first; what does not fit is dropped. */
  function BigEndianBytes(x: nat, n: nat): (b: seq<Byte>)
    ensures |b| == n
  {
    if n == 0 then [] else BigEndianBytes(x / 256, n - 1) + [x % 256]
  }

  /** The number of zero bytes between the byte 0x80 and the length. */
  function Gap(n: nat): (k: nat)
    ensures k < 64 && (n + 1 + k + 8) % 64 == 0
  {
    (119 - n % 64) % 64
  }

  /** The padded message; the standard allows fewer than 2^64 bits, so that the length fits. */
  function Pad(m: seq<Byte>): (p: seq<Byte>)
    ensures |p| % 64 == 0
  {
    m + [0x80] + Zeros(Gap(|m|)) + BigEndianBytes(8 * |m|, 8)
  }

  function Sha256(m: seq<Byte>): seq<Byte> {
    DigestBytes(HashBlocks(H0(), Pad(m)))
  }

  /** The words of the digest, most significant byte first. */
  function DigestBytes(h: Digest): (b: seq<Byte>)
    ensures |b| == 32
  {
    seq(32, i requires 0 <= i < 32 => BigEndianBytes(h[i / 4], 4)[i % 4])
  }
}
