/** HMAC with SHA-1: the definition of RFC 2104, the one-shot function and the streaming form. */
module Hmac {
  import opened Bytes
  import opened Fips180
  import opened OtpSha1

  const IPAD: bv8 := 0x36
  const OPAD: bv8 := 0x5C

  // ----- section 2 of RFC 2104

  /** K: keys longer than a block are hashed first; then zeros fill the block. */
  function KeyBlock(key: seq<bv8>): (k: seq<bv8>)
    ensures |k| == 64
  {
    var k := if |key| > 64 then Sha1(key) else key;
    k + Zeros(64 - |k|)
  }

  /** Every byte of a block XORed with c. */
  function Pad(block: seq<bv8>, c: bv8): (r: seq<bv8>)
    ensures |r| == |block|
  {
    seq(|block|, i requires 0 <= i < |block| => XorByte(block[i], c))
  }

  function HmacSha1(key: seq<bv8>, msg: seq<bv8>): (d: seq<bv8>)
    ensures |d| == 20
  {
    Sha1(Pad(KeyBlock(key), 0x5C) + Sha1(Pad(KeyBlock(key), 0x36) + msg))
  }

  // ----- the key buffer

  /** The buffer still holds the key XOR ipad, so one more XOR turns it into the key XOR opad. */
  lemma {:induction false} RePad(k: seq<bv8>)
    ensures Pad(Pad(k, 0x36), XorByte(IPAD, OPAD)) == Pad(k, 0x5C)
  {
  }

  method LoadKey(buffer: array<bv8>, key: seq<bv8>, keyBits: nat)
    requires buffer.Length == SHA1_BLOCK_BYTES && keyBits == 8 * |key| && keyBits < 0x10000
    modifies buffer
    ensures buffer[..] == KeyBlock(key)
  {
    hide Sha1;
    Clear(buffer);
    if keyBits > SHA1_BLOCK_BITS {
      OtpSha1.OtpSha1(buffer, key, keyBits);
    } else {
      for i := 0 to |key|
        invariant forall j: nat :: j < 64 ==> buffer[j] == if j < i then key[j] else 0
      {
        buffer[i] := key[i];
      }
    }
  }

  method XorBuffer(buffer: array<bv8>, c: bv8)
    requires buffer.Length == SHA1_BLOCK_BYTES
    modifies buffer
    ensures buffer[..] == Pad(old(buffer[..]), c)
  {
    hide XorByte;
    for i := 0 to SHA1_BLOCK_BYTES
      invariant forall j: nat :: j < 64 ==> buffer[j] == if j < i then XorByte(old(buffer[j]), c) else old(buffer[j])
    {
      buffer[i] := XorByte(buffer[i], c);
    }
  }

  /** sha1_init and the first block. */
  method Start(s: Context, block: seq<bv8>)
    requires s.h.Length == 5 && |block| == 64
    modifies s, s.h
    ensures Absorbed(s, block, 1)
  {
    hide Compress, HashBlocks;
    s.Init();
    HashNothing(H0);
    Absorb(s, block, [], 0);
    assert [] + block == block;
  }

  /** The outer hash: the digest that lies in dest is the last block. */
  method Outer(dest: array<bv8>, s: Context, ghost opad: seq<bv8>)
    requires dest.Length >= 20 && Absorbed(s, opad, 1)
    modifies dest, s, s.h
    ensures dest[..] == Splice(old(dest[..]), 0, Sha1(opad + old(dest[..20])))
  {
    hide Compress, HashBlocks, Final, RegsBytes, Splice;
    ghost var inner := dest[..20];
    LastBlock(s, dest[..20], SHA1_HASH_BITS, opad, 1);
    assert dest[..] == old(dest[..]);
    Ctx2Hash(dest, s);
  }

  // ----- hmac_sha1

  method Sha1Hmac(dest: array<bv8>, key: seq<bv8>, keyBits: nat, msg: seq<bv8>, msgBits: nat)
    requires dest.Length >= 20 && keyBits == 8 * |key| && keyBits < 0x10000
    requires msgBits == 8 * |msg| && msgBits < 0x1_0000_0000
    modifies dest
    ensures dest[..] == Splice(old(dest[..]), 0, HmacSha1(key, msg))
  {
    hide Sha1, Final, RegsBytes, Pad, KeyBlock, HashBlocks, Splice, XorByte;
    var s := new Context();
    var buffer := new bv8[SHA1_BLOCK_BYTES];
    LoadKey(buffer, key, keyBits);
    XorBuffer(buffer, IPAD);
    ghost var ipad := buffer[..];
    Start(s, buffer[..]);
    Inner(s, ipad, msg, msgBits);
    XorBuffer(buffer, XorByte(IPAD, OPAD));
    RePad(KeyBlock(key));
    assert buffer[..] == Pad(KeyBlock(key), OPAD);
    assert dest[..] == old(dest[..]);
    Ctx2Hash(dest, s);
    ghost var inner := Sha1(ipad + msg);
    Sha1OfFinal(ipad + msg);
    SpliceRange(old(dest[..]), 0, inner);
    assert dest[..20] == dest[..][0..20];
    Start(s, buffer[..]);
    Outer(dest, s, buffer[..]);
    SpliceOver(old(dest[..]), 0, inner, HmacSha1(key, msg));
  }

  /** The blocks of the message, then its rest. */
  method Inner(s: Context, ghost ipad: seq<bv8>, msg: seq<bv8>, msgBits: nat)
    requires Absorbed(s, ipad, 1) && msgBits == 8 * |msg| && msgBits < 0x1_0000_0000
    modifies s, s.h
    ensures s.Valid() && s.Value() == Final(ipad + msg)
  {
    hide Final, HashBlocks;
    var rest, left := msg, msgBits;
    ghost var m, n := ipad, 1;
    while left >= SHA1_BLOCK_BITS
      invariant Absorbed(s, m, n) && left == 8 * |rest| && left < 0x1_0000_0000
      invariant m + rest == ipad + msg && |m| + |rest| == 64 + |msg|
    {
      Absorb(s, rest[..64], m, n);
      assert (m + rest[..64]) + rest[64..] == m + rest;
      m, n := m + rest[..64], n + 1;
      rest := rest[64..];
      left := left - SHA1_BLOCK_BITS;
    }
    LastBlock(s, rest, left, m, n);
  }

  // ----- the streaming form

  class HmacContext {
    const a: Context
    const b: Context

    ghost predicate Separate()
      reads a, b
    {
      a != b && a.h != b.h && a.h.Length == 5 && b.h.Length == 5
    }

    /** After the blocks m, n of them, under this key. */
    ghost predicate Streaming(key: seq<bv8>, m: seq<bv8>, n: nat)
      reads a, b, a.h, b.h
    {
      && Separate()
      && |m| == 64 * n
      && Absorbed(a, Pad(KeyBlock(key), IPAD) + m, n + 1)
      && Absorbed(b, Pad(KeyBlock(key), OPAD), 1)
    }

    /** After the last block of the message. */
    ghost predicate Ended(key: seq<bv8>, msg: seq<bv8>)
      reads a, b, a.h, b.h
    {
      && Separate()
      && a.Valid() && a.Value() == Final(Pad(KeyBlock(key), IPAD) + msg)
      && Absorbed(b, Pad(KeyBlock(key), OPAD), 1)
    }

    constructor ()
      ensures Separate() && fresh(a) && fresh(b) && fresh(a.h) && fresh(b.h)
    {
      a := new Context();
      b := new Context();
    }

    /** hmac_sha1_init */
    method Init(key: seq<bv8>, keyBits: nat)
      requires Separate() && keyBits == 8 * |key| && keyBits < 0x10000
      modifies a, b, a.h, b.h
      ensures Streaming(key, [], 0)
    {
      hide Pad, KeyBlock, HashBlocks, XorByte;
      var buffer := new bv8[SHA1_BLOCK_BYTES];
      LoadKey(buffer, key, keyBits);
      XorBuffer(buffer, IPAD);
      Start(a, buffer[..]);
      assert buffer[..] + [] == buffer[..];
      XorBuffer(buffer, XorByte(IPAD, OPAD));
      RePad(KeyBlock(key));
      Start(b, buffer[..]);
    }

    /** hmac_sha1_nextBlock */
    method NextBlock(block: seq<bv8>, ghost key: seq<bv8>, ghost m: seq<bv8>, ghost n: nat)
      requires Streaming(key, m, n) && |block| == SHA1_BLOCK_BYTES
      modifies a, a.h
      ensures Streaming(key, m + block, n + 1)
    {
      hide Pad, KeyBlock, HashBlocks;
      ghost var ipad := Pad(KeyBlock(key), IPAD);
      Absorb(a, block, ipad + m, n + 1);
      assert (ipad + m) + block == ipad + (m + block);
    }

    /** hmac_sha1_lastBlock: takes any rest whose bit length fits sixteen bits. */
    method LastBlock(block: seq<bv8>, bits: nat, ghost key: seq<bv8>, ghost m: seq<bv8>, ghost n: nat)
      requires Streaming(key, m, n)
      requires bits == 8 * |block| && bits < 0x10000 && 8 * (64 + |m| + |block|) < TWO64
      modifies a, a.h
      ensures Ended(key, m + block)
    {
      hide Pad, KeyBlock, HashBlocks, Final;
      var rest, left := block, bits;
      ghost var m', n' := m, n;
      while left >= SHA1_BLOCK_BITS
        invariant Streaming(key, m', n') && left == 8 * |rest| && left < 0x10000
        invariant m' + rest == m + block && |m'| + |rest| == |m| + |block|
      {
        NextBlock(rest[..64], key, m', n');
        assert (m' + rest[..64]) + rest[64..] == m' + rest;
        m', n' := m' + rest[..64], n' + 1;
        rest := rest[64..];
        left := left - SHA1_BLOCK_BITS;
      }
      ghost var ipad := Pad(KeyBlock(key), IPAD);
      OtpSha1.LastBlock(a, rest, left, ipad + m', n' + 1);
      assert (ipad + m') + rest == ipad + (m + block);
    }

    /** hmac_sha1_final */
    method Finish(dest: array<bv8>, ghost key: seq<bv8>, ghost msg: seq<bv8>)
      requires dest.Length >= 20 && Ended(key, msg)
      modifies dest, b, b.h
      ensures dest[..] == Splice(old(dest[..]), 0, HmacSha1(key, msg))
    {
      hide Sha1, Final, RegsBytes, Pad, KeyBlock, HashBlocks, Splice;
      Ctx2Hash(dest, a);
      ghost var inner := Sha1(Pad(KeyBlock(key), IPAD) + msg);
      Sha1OfFinal(Pad(KeyBlock(key), IPAD) + msg);
      SpliceRange(old(dest[..]), 0, inner);
      assert dest[..20] == dest[..][0..20];
      Outer(dest, b, Pad(KeyBlock(key), OPAD));
      SpliceOver(old(dest[..]), 0, inner, HmacSha1(key, msg));
    }
  }

  function Concat(blocks: seq<seq<bv8>>): (m: seq<bv8>) {
    if blocks == [] then [] else Concat(blocks[..|blocks| - 1]) + blocks[|blocks| - 1]
  }

  /** Any run of the streaming interface leaves in dest what one call on the whole message would. */
  method Streamed(dest: array<bv8>, key: seq<bv8>, blocks: seq<seq<bv8>>, rest: seq<bv8>)
    requires dest.Length >= 20 && 8 * |key| < 0x10000 && 8 * |rest| < 0x10000
    requires forall i :: 0 <= i < |blocks| ==> |blocks[i]| == SHA1_BLOCK_BYTES
    requires 8 * (64 + 64 * |blocks| + |rest|) < TWO64
    modifies dest
    ensures dest[..] == Splice(old(dest[..]), 0, HmacSha1(key, Concat(blocks) + rest))
  {
    hide HmacSha1, Splice, Absorbed;
    var s := new HmacContext();
    s.Init(key, 8 * |key|);
    for i := 0 to |blocks|
      invariant s.Streaming(key, Concat(blocks[..i]), i)
      modifies s.a, s.b, s.a.h, s.b.h
    {
      s.NextBlock(blocks[i], key, Concat(blocks[..i]), i);
      assert blocks[..i + 1][..i] == blocks[..i];
    }
    assert blocks[..|blocks|] == blocks;
    s.LastBlock(rest, 8 * |rest|, key, Concat(blocks), |blocks|);
    assert dest[..] == old(dest[..]);
    s.Finish(dest, key, Concat(blocks) + rest);
  }
}
