/** SHA-1 as FIPS 180-4 states it: an 80-word message schedule, and padding computed in one piece. */
module Fips180 {
  import opened Bytes

  // ----- words

  /** Addition modulo 2^32. */
  function Plus(a: bv32, b: bv32): bv32 {
    a + b
  }

  /** ROTL^n, for 0 < n < 32. */
  function Rotl(x: bv32, n: nat): bv32
    requires 0 < n < 32
  {
    (x << n) | (x >> (32 - n))
  }

  function Ch(x: bv32, y: bv32, z: bv32): bv32 {
    (x & y) ^ (!x & z)
  }

  function Parity(x: bv32, y: bv32, z: bv32): bv32 {
    x ^ y ^ z
  }

  function Maj(x: bv32, y: bv32, z: bv32): bv32 {
    (x & y) ^ (x & z) ^ (y & z)
  }

  /** The function of step t (section 4.1.1). */
  function F(t: nat, x: bv32, y: bv32, z: bv32): bv32 {
    if t < 20 then Ch(x, y, z) else if t < 40 then Parity(x, y, z) else if t < 60 then Maj(x, y, z) else Parity(x, y, z)
  }

  /** The constant of step t (section 4.2.1). */
  function K(t: nat): bv32 {
    if t < 20 then 0x5a827999 else if t < 40 then 0x6ed9eba1 else if t < 60 then 0x8f1bbcdc else 0xca62c1d6
  }

  // ----- the compression function (section 6.1.2)

  function Xor4(a: bv32, b: bv32, c: bv32, d: bv32): bv32 {
    a ^ b ^ c ^ d
  }

  /** Word t of the message schedule of a block. */
  function W(block: seq<bv8>, t: nat): bv32
    requires |block| == 64
  {
    if t < 16 then WordAt(block, 4 * t)
    else Rotl(Xor4(W(block, t - 3), W(block, t - 8), W(block, t - 14), W(block, t - 16)), 1)
  }

  datatype Regs = Regs(a: bv32, b: bv32, c: bv32, d: bv32, e: bv32)

  function Step(r: Regs, t: nat, w: bv32): Regs {
    var temp := Plus(Plus(Plus(Plus(Rotl(r.a, 5), F(t, r.b, r.c, r.d)), r.e), K(t)), w);
    Regs(temp, r.a, Rotl(r.b, 30), r.c, r.d)
  }

  function Steps(h: Regs, block: seq<bv8>, t: nat): Regs
    requires |block| == 64
  {
    if t == 0 then h else Step(Steps(h, block, t - 1), t - 1, W(block, t - 1))
  }

  function AddRegs(h: Regs, r: Regs): Regs {
    Regs(Plus(h.a, r.a), Plus(h.b, r.b), Plus(h.c, r.c), Plus(h.d, r.d), Plus(h.e, r.e))
  }

  function Compress(h: Regs, block: seq<bv8>): Regs
    requires |block| == 64
  {
    AddRegs(h, Steps(h, block, 80))
  }

  /** The initial hash value (section 5.3.1). */
  const H0 := Regs(0x67452301, 0xefcdab89, 0x98badcfe, 0x10325476, 0xc3d2e1f0)

  /** n blocks, one after the other. */
  function HashBlocks(h: Regs, b: seq<bv8>, n: nat): Regs
    requires |b| == 64 * n
    decreases n
  {
    if n == 0 then h else HashBlocks(Compress(h, b[..64]), b[64..], n - 1)
  }

  lemma {:induction false} HashNothing(h: Regs)
    ensures HashBlocks(h, [], 0) == h
  {
  }

  /** Hashing one more block compresses it into the value reached so far. */
  lemma {:induction false} HashBlocksSnoc(h: Regs, b: seq<bv8>, n: nat, block: seq<bv8>)
    requires |b| == 64 * n && |block| == 64
    ensures HashBlocks(h, b + block, n + 1) == Compress(HashBlocks(h, b, n), block)
    decreases n
  {
    hide Compress;
    if n == 0 {
      assert b + block == block && (b + block)[..64] == block && (b + block)[64..] == [];
      assert HashBlocks(Compress(h, block), [], 0) == Compress(h, block);
    } else {
      assert (b + block)[..64] == b[..64] && (b + block)[64..] == b[64..] + block;
      HashBlocksSnoc(Compress(h, b[..64]), b[64..], n - 1, block);
    }
  }

  // ----- padding (section 5.1.1), for messages of whole bytes

  /** The number of zero bytes: 0x80, the zeros and eight length bytes complete the last block. */
  function ZeroBytes(len: nat): (k: nat)
    ensures (len + 1 + k + 8) % 64 == 0 && k < 64
  {
    (64 - (len + 9) % 64) % 64
  }

  function Zeros(n: nat): (z: seq<bv8>)
    ensures |z| == n
  {
    Fill(0, n)
  }

  function Padding(len: nat): (p: seq<bv8>)
    ensures |p| == 9 + ZeroBytes(len)
  {
    [0x80] + Zeros(ZeroBytes(len)) + BigEndian(8 * len, 8)
  }

  function PaddedBlocks(len: nat): (n: nat)
    ensures 64 * n == len + 9 + ZeroBytes(len)
  {
    (len + 9 + ZeroBytes(len)) / 64
  }

  function RegsBytes(r: Regs): (b: seq<bv8>)
    ensures |b| == 20
  {
    WordBytes(r.a) + WordBytes(r.b) + WordBytes(r.c) + WordBytes(r.d) + WordBytes(r.e)
  }

  /** The registers after the whole padded message. */
  function Final(msg: seq<bv8>): Regs {
    HashBlocks(H0, msg + Padding(|msg|), PaddedBlocks(|msg|))
  }

  /** The digest of a message. */
  function Sha1(msg: seq<bv8>): (d: seq<bv8>)
    ensures |d| == 20
  {
    RegsBytes(Final(msg))
  }

  lemma {:induction false} Sha1OfFinal(msg: seq<bv8>)
    ensures RegsBytes(Final(msg)) == Sha1(msg)
  {
    hide RegsBytes, Final;
  }

  // ----- the padded message, block by block

  /** A rest of at most 55 bytes is padded within its own block. */
  lemma {:induction false} PaddingInOneBlock(m: seq<bv8>, n: nat, r: seq<bv8>)
    requires |m| == 64 * n && |r| < 56
    ensures PaddedBlocks(|m + r|) == n + 1
    ensures (m + r) + Padding(|m + r|) == m + (r + [0x80] + Zeros(55 - |r|) + BigEndian(8 * |m + r|, 8))
  {
  }

  /** A longer rest leaves no room for the length: the padding fills that block and one more. */
  lemma {:induction false} PaddingInTwoBlocks(m: seq<bv8>, n: nat, r: seq<bv8>)
    requires |m| == 64 * n && 56 <= |r| < 64
    ensures PaddedBlocks(|m + r|) == n + 2
    ensures (m + r) + Padding(|m + r|)
         == (m + (r + [0x80] + Zeros(63 - |r|))) + (Zeros(56) + BigEndian(8 * |m + r|, 8))
  {
  }
}
