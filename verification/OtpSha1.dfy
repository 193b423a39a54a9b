/** The firmware's SHA-1: a sixteen-word ring for the message schedule, registers updated in place,
    and padding written block by block. */
module OtpSha1 {
  import opened Bytes
  import opened Fips180

  const SHA1_BLOCK_BYTES := 64
  const SHA1_BLOCK_BITS := 512
  const SHA1_HASH_BITS := 160

  class Context {
    const h: array<bv32>
    var length: nat

    ghost predicate Valid()
      reads this
    {
      h.Length == 5 && length < TWO64
    }

    ghost function Value(): Regs
      requires h.Length == 5
      reads h
    {
      Regs(h[0], h[1], h[2], h[3], h[4])
    }

    constructor ()
      ensures h.Length == 5 && fresh(h) && Valid()
    {
      h := new bv32[5];
      length := 0;
    }

    /** sha1_init */
    method Init()
      requires h.Length == 5
      modifies this, h
      ensures Valid() && Value() == H0 && length == 0
    {
      h[0] := 0x67452301;
      h[1] := 0xefcdab89;
      h[2] := 0x98badcfe;
      h[3] := 0x10325476;
      h[4] := 0xc3d2e1f0;
      length := 0;
    }
  }

  // ----- the message schedule in a ring of sixteen words

  /** When step t is about to run, the ring holds the sixteen newest words of the schedule. */
  ghost predicate Ring(w: array<bv32>, block: seq<bv8>, t: nat)
    reads w
  {
    && w.Length == 16 && |block| == 64
    && forall i: nat :: (t <= 16 && i < 16) || (t > 16 && t - 16 <= i < t) ==> w[i % 16] == W(block, i)
  }

  /** Going k words back in the ring. */
  lemma {:induction false} RingIndex(t: nat, k: nat)
    requires t >= 16 && k <= 16
    ensures (t % 16 + (16 - k)) % 16 == (t - k) % 16
  {
  }

  lemma {:induction false} RingIndices(t: nat)
    requires t >= 16
    ensures (t % 16 + 13) % 16 == (t - 3) % 16 && (t % 16 + 8) % 16 == (t - 8) % 16
    ensures (t % 16 + 2) % 16 == (t - 14) % 16 && t % 16 == (t - 16) % 16
  {
    RingIndex(t, 3);
    RingIndex(t, 8);
    RingIndex(t, 14);
    RingIndex(t, 16);
  }

  lemma {:induction false} RingSlot(t: nat, i: nat)
    requires t - 16 < i < t
    ensures i % 16 != t % 16
  {
  }

  /** The schedule word of step t; from step 16 on it replaces the oldest word of the ring. */
  method ScheduleWord(w: array<bv32>, ghost block: seq<bv8>, t: nat) returns (v: bv32)
    requires Ring(w, block, t) && t < 80
    modifies w
    ensures Ring(w, block, t + 1) && v == W(block, t)
  {
    hide Rotl, Xor4, WordAt;
    var s := t % 16;
    if t >= 16 {
      RingIndices(t);
      assert w[(s + 13) % 16] == W(block, t - 3) && w[(s + 8) % 16] == W(block, t - 8);
      assert w[(s + 2) % 16] == W(block, t - 14) && w[s] == W(block, t - 16);
      w[s] := Rotl(Xor4(w[(s + 13) % 16], w[(s + 8) % 16], w[(s + 2) % 16], w[s]), 1);
      forall i: nat | t - 16 < i < t
        ensures w[i % 16] == W(block, i)
      {
        RingSlot(t, i);
      }
    }
    v := w[s];
    assert t < 16 ==> s == t;
  }

  // ----- sha1_nextBlock

  ghost function RegsOf(a: array<bv32>): Regs
    requires a.Length == 5
    reads a
  {
    Regs(a[0], a[1], a[2], a[3], a[4])
  }

  /** The call f[fi] (x, y, z). */
  function Selected(fi: nat, x: bv32, y: bv32, z: bv32): bv32 {
    if fi == 0 then Ch(x, y, z) else if fi == 1 then Parity(x, y, z) else if fi == 2 then Maj(x, y, z) else Parity(x, y, z)
  }

  method RoundStep(a: array<bv32>, w: array<bv32>, ghost h: Regs, ghost block: seq<bv8>, t: nat, fi: nat)
    requires a.Length == 5 && a != w && Ring(w, block, t) && t < 80 && fi == t / 20
    requires RegsOf(a) == Steps(h, block, t)
    modifies a, w
    ensures Ring(w, block, t + 1) && RegsOf(a) == Steps(h, block, t + 1)
  {
    hide Plus, Rotl, Ch, Parity, Maj, W;
    var k := [0x5a827999, 0x6ed9eba1, 0x8f1bbcdc, 0xca62c1d6];
    var word := ScheduleWord(w, block, t);
    var temp := Plus(Plus(Plus(Plus(Rotl(a[0], 5), Selected(fi, a[1], a[2], a[3])), a[4]), k[fi]), word);
    // memmove of a[0..4] to a[1..5]
    a[4] := a[3];
    a[3] := a[2];
    a[2] := a[1];
    a[1] := a[0];
    a[0] := temp;
    a[2] := Rotl(a[2], 30);
  }

  method NextBlock(ctx: Context, block: seq<bv8>)
    requires ctx.Valid() && |block| == SHA1_BLOCK_BYTES
    modifies ctx, ctx.h
    ensures ctx.Valid() && ctx.Value() == Compress(old(ctx.Value()), block)
    ensures ctx.length == (old(ctx.length) + SHA1_BLOCK_BITS) % TWO64
  {
    ghost var h0 := ctx.Value();
    var a := new bv32[5];
    var w := new bv32[16];
    LoadBlock(w, block);
    for t := 0 to 5
      invariant forall j: nat :: j < t ==> a[j] == ctx.h[j]
      modifies a
    {
      a[t] := ctx.h[t];
    }
    Mix(a, w, h0, block);
    AddInto(ctx, a);
    ctx.length := (ctx.length + SHA1_BLOCK_BITS) % TWO64;
  }

  method LoadBlock(w: array<bv32>, block: seq<bv8>)
    requires w.Length == 16 && |block| == SHA1_BLOCK_BYTES
    modifies w
    ensures Ring(w, block, 0)
  {
    hide WordAt;
    for t := 0 to 16
      invariant forall j: nat :: j < t ==> w[j] == WordAt(block, 4 * j)
    {
      w[t] := WordAt(block, 4 * t);
    }
  }

  method Mix(a: array<bv32>, w: array<bv32>, ghost h: Regs, ghost block: seq<bv8>)
    requires a.Length == 5 && a != w && Ring(w, block, 0) && RegsOf(a) == h
    modifies a, w
    ensures RegsOf(a) == Steps(h, block, 80)
  {
    hide Step, W;
    var fi, fib := 0, 0;
    for t := 0 to 80
      invariant Ring(w, block, t) && RegsOf(a) == Steps(h, block, t)
      invariant fib < 20 && fi == t / 20 % 4 && fib == t % 20
    {
      RoundStep(a, w, h, block, t, fi);
      fib := fib + 1;
      if fib == 20 {
        fib := 0;
        fi := (fi + 1) % 4;
      }
    }
  }

  method AddInto(ctx: Context, a: array<bv32>)
    requires ctx.h.Length == 5 && a.Length == 5 && a != ctx.h
    modifies ctx.h
    ensures ctx.Value() == AddRegs(old(ctx.Value()), RegsOf(a))
  {
    hide Plus;
    for t := 0 to 5
      invariant forall j: nat :: j < 5 ==> ctx.h[j] == if j < t then Plus(old(ctx.h[j]), a[j]) else old(ctx.h[j])
    {
      ctx.h[t] := Plus(ctx.h[t], a[t]);
    }
  }

  // ----- sha1_lastBlock

  /** The context has absorbed m, which is n whole blocks. */
  ghost predicate Absorbed(ctx: Context, m: seq<bv8>, n: nat)
    reads ctx, ctx.h
  {
    ctx.Valid() && |m| == 64 * n && ctx.Value() == HashBlocks(H0, m, n) && ctx.length == 512 * n % TWO64
  }

  method Absorb(ctx: Context, block: seq<bv8>, ghost m: seq<bv8>, ghost n: nat)
    requires Absorbed(ctx, m, n) && |block| == SHA1_BLOCK_BYTES
    modifies ctx, ctx.h
    ensures Absorbed(ctx, m + block, n + 1)
  {
    hide Compress, HashBlocks;
    NextBlock(ctx, block);
    HashBlocksSnoc(H0, m, n, block);
    assert (512 * n % TWO64 + 512) % TWO64 == 512 * (n + 1) % TWO64;
  }

  /** lb holds the rest, the byte with the final one bit, and zeros. */
  method LoadRest(lb: array<bv8>, rest: seq<bv8>, length: nat)
    requires lb.Length == SHA1_BLOCK_BYTES && length == 8 * |rest| && length < SHA1_BLOCK_BITS
    modifies lb
    ensures lb[..] == rest + [0x80] + Zeros(63 - |rest|)
  {
    Clear(lb);
    for i := 0 to |rest|
      invariant forall j: nat :: j < 64 ==> lb[j] == if j < i then rest[j] else 0
    {
      lb[i] := rest[i];
    }
    lb[length / 8] := SetBit(lb[length / 8], length % 8);
    assert SetBit(0, 0) == 0x80;
  }

  function SetBit(b: bv8, n: nat): bv8
    requires n < 8
  {
    b | (0x80 >> n)
  }

  method Clear(lb: array<bv8>)
    requires lb.Length == SHA1_BLOCK_BYTES
    modifies lb
    ensures lb[..] == Zeros(64)
  {
    for i := 0 to 64
      invariant forall j: nat :: j < i ==> lb[j] == 0
    {
      lb[i] := 0;
    }
  }

  /** The length counter, big-endian as it lies in memory, copied to the end of the block. */
  method StoreLength(lb: array<bv8>, length: nat)
    requires lb.Length == SHA1_BLOCK_BYTES
    modifies lb
    ensures lb[..] == old(lb[..56]) + BigEndian(length, 8)
  {
    hide BigEndian;
    var bytes := BigEndian(length, 8);
    for i := 0 to 8
      invariant forall j: nat :: j < 64 ==> lb[j] == if 56 <= j < 56 + i then bytes[j - 56] else old(lb[j])
    {
      lb[56 + i] := bytes[i];
    }
  }

  method Finish(ctx: Context, rest: seq<bv8>, length: nat, ghost m: seq<bv8>, ghost n: nat)
    requires Absorbed(ctx, m, n)
    requires length == 8 * |rest| && length < SHA1_BLOCK_BITS && 8 * (|m| + |rest|) < TWO64
    modifies ctx, ctx.h
    ensures ctx.Valid() && ctx.Value() == Final(m + rest)
  {
    hide Compress, HashBlocks, BigEndian, Zeros, Padding, PaddedBlocks, ZeroBytes;
    var before := ctx.length;
    ctx.length := (ctx.length + length) % TWO64;
    var total := ctx.length;
    assert total == 8 * |m + rest|;
    var lb := new bv8[SHA1_BLOCK_BYTES];
    LoadRest(lb, rest, length);
    if length > 512 - 64 - 1 {
      PaddingInTwoBlocks(m, n, rest);
      NextBlock(ctx, lb[..]);
      HashBlocksSnoc(H0, m, n, lb[..]);
      ctx.length := (ctx.length + TWO64 - 512) % TWO64;
      assert ctx.length == total;
      ghost var m1 := m + lb[..];
      Clear(lb);
      StoreLength(lb, ctx.length);
      ZerosPrefix(64, 56);
      HashBlocksSnoc(H0, m1, n + 1, lb[..]);
    } else {
      PaddingInOneBlock(m, n, rest);
      ZerosAfter(rest);
      StoreLength(lb, ctx.length);
      HashBlocksSnoc(H0, m, n, lb[..]);
    }
    NextBlock(ctx, lb[..]);
  }

  lemma {:induction false} ZerosPrefix(n: nat, k: nat)
    requires k <= n
    ensures Zeros(n)[..k] == Zeros(k)
  {
  }

  lemma {:induction false} ZerosAfter(rest: seq<bv8>)
    requires |rest| < 56
    ensures (rest + [0x80] + Zeros(63 - |rest|))[..56] == rest + [0x80] + Zeros(55 - |rest|)
  {
  }

  method LastBlock(ctx: Context, block: seq<bv8>, length: nat, ghost m: seq<bv8>, ghost n: nat)
    requires Absorbed(ctx, m, n)
    requires length == 8 * |block| && length < 0x10000 && 8 * (|m| + |block|) < TWO64
    modifies ctx, ctx.h
    ensures ctx.Valid() && ctx.Value() == Final(m + block)
  {
    hide Compress, HashBlocks, Final;
    var rest, left := block, length;
    ghost var m', n' := m, n;
    while left >= SHA1_BLOCK_BITS
      invariant Absorbed(ctx, m', n') && left == 8 * |rest| && m' + rest == m + block
      invariant |m'| + |rest| == |m| + |block|
    {
      Absorb(ctx, rest[..64], m', n');
      assert (m' + rest[..64]) + rest[64..] == m' + rest;
      m', n' := m' + rest[..64], n' + 1;
      left := left - SHA1_BLOCK_BITS;
      rest := rest[64..];
    }
    Finish(ctx, rest, left, m', n');
  }

  // ----- digests

  /** sha1_ctx2hash: the five words as they lie in memory. */
  method Ctx2Hash(dest: array<bv8>, ctx: Context)
    requires ctx.h.Length == 5 && dest.Length >= 20
    modifies dest
    ensures dest[..] == Splice(old(dest[..]), 0, RegsBytes(ctx.Value()))
  {
    hide WordBytes;
    var bytes := WordBytes(ctx.h[0]) + WordBytes(ctx.h[1]) + WordBytes(ctx.h[2]) + WordBytes(ctx.h[3]) + WordBytes(ctx.h[4]);
    assert bytes == RegsBytes(ctx.Value());
    for i := 0 to 20
      invariant forall j: nat :: j < dest.Length ==> dest[j] == if j < i then bytes[j] else old(dest[j])
    {
      dest[i] := bytes[i];
    }
  }

  /** otp_sha1 computes the SHA-1 digest of every message of whole bytes. */
  method OtpSha1(dest: array<bv8>, msg: seq<bv8>, length: nat)
    requires dest.Length >= 20 && length == 8 * |msg| && length < 0x1_0000_0000
    modifies dest
    ensures dest[..] == Splice(old(dest[..]), 0, Sha1(msg))
  {
    hide Compress, HashBlocks, Final, RegsBytes, Splice;
    var s := new Context();
    s.Init();
    var rest, left := msg, length;
    ghost var m, n := [], 0;
    HashNothing(H0);
    while left / SHA1_BLOCK_BITS != 0
      invariant Absorbed(s, m, n) && left == 8 * |rest| && left < 0x1_0000_0000 && m + rest == msg
      modifies s, s.h
    {
      Absorb(s, rest[..64], m, n);
      assert (m + rest[..64]) + rest[64..] == m + rest;
      m, n := m + rest[..64], n + 1;
      rest := rest[64..];
      left := left - SHA1_BLOCK_BITS;
    }
    LastBlock(s, rest, left, m, n);
    assert dest[..] == old(dest[..]);
    Ctx2Hash(dest, s);
  }
}
