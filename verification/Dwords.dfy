/** 64-bit words as they lie in memory, and endian_swap. */
module Dwords {
  import opened Bytes

  function Join8(a: bv8, b: bv8, c: bv8, d: bv8, e: bv8, f: bv8, g: bv8, h: bv8): bv64 {
    ((a as bv64) << 56) | ((b as bv64) << 48) | ((c as bv64) << 40) | ((d as bv64) << 32)
    | ((e as bv64) << 24) | ((f as bv64) << 16) | ((g as bv64) << 8) | (h as bv64)
  }

  function Byte7(x: bv64): bv8 {
    ((x >> 56) & 0xFF) as bv8
  }

  function Byte6(x: bv64): bv8 {
    ((x >> 48) & 0xFF) as bv8
  }

  function Byte5(x: bv64): bv8 {
    ((x >> 40) & 0xFF) as bv8
  }

  function Byte4(x: bv64): bv8 {
    ((x >> 32) & 0xFF) as bv8
  }

  function Byte3(x: bv64): bv8 {
    ((x >> 24) & 0xFF) as bv8
  }

  function Byte2(x: bv64): bv8 {
    ((x >> 16) & 0xFF) as bv8
  }

  function Byte1(x: bv64): bv8 {
    ((x >> 8) & 0xFF) as bv8
  }

  function Byte0(x: bv64): bv8 {
    ((x >> 0) & 0xFF) as bv8
  }

  /** The bytes of a 64-bit variable, most significant first. */
  function DwordBytes(x: bv64): (b: seq<bv8>)
    ensures |b| == 8
  {
    [Byte7(x), Byte6(x), Byte5(x), Byte4(x), Byte3(x), Byte2(x), Byte1(x), Byte0(x)]
  }

  function Dword(b: seq<bv8>): bv64
    requires |b| == 8
  {
    Join8(b[0], b[1], b[2], b[3], b[4], b[5], b[6], b[7])
  }

  lemma {:induction false} ByteOfJoin(a: bv8, b: bv8, c: bv8, d: bv8, e: bv8, f: bv8, g: bv8, h: bv8)
    ensures DwordBytes(Join8(a, b, c, d, e, f, g, h)) == [a, b, c, d, e, f, g, h]
  {
  }

  lemma {:induction false} JoinOfBytes(x: bv64)
    ensures Join8(Byte7(x), Byte6(x), Byte5(x), Byte4(x), Byte3(x), Byte2(x), Byte1(x), Byte0(x)) == x
  {
  }

  lemma {:induction false} DwordRoundTrip(x: bv64, b: seq<bv8>)
    ensures Dword(DwordBytes(x)) == x
    ensures |b| == 8 ==> DwordBytes(Dword(b)) == b
  {
    hide Join8, Byte7, Byte6, Byte5, Byte4, Byte3, Byte2, Byte1, Byte0;
    JoinOfBytes(x);
    if |b| == 8 {
      hide DwordBytes;
      ByteOfJoin(b[0], b[1], b[2], b[3], b[4], b[5], b[6], b[7]);
    }
  }

  // ----- endian_swap

  function SwapBytes(v: bv64): bv64 {
    ((v << 8) & 0xFF00FF00FF00FF00) | ((v >> 8) & 0x00FF00FF00FF00FF)
  }

  function SwapPairs(v: bv64): bv64 {
    ((v << 16) & 0xFFFF0000FFFF0000) | ((v >> 16) & 0x0000FFFF0000FFFF)
  }

  function SwapHalves(v: bv64): bv64 {
    (v << 32) | (v >> 32)
  }

  function EndianSwap(v: bv64): bv64 {
    SwapHalves(SwapPairs(SwapBytes(v)))
  }

  function Reverse(b: seq<bv8>): (r: seq<bv8>)
    ensures |r| == |b|
  {
    seq(|b|, i requires 0 <= i < |b| => b[|b| - 1 - i])
  }

  lemma {:induction false} SwapBytesOf(a: bv8, b: bv8, c: bv8, d: bv8, e: bv8, f: bv8, g: bv8, h: bv8)
    ensures SwapBytes(Join8(a, b, c, d, e, f, g, h)) == Join8(b, a, d, c, f, e, h, g)
  {
  }

  lemma {:induction false} SwapPairsOf(a: bv8, b: bv8, c: bv8, d: bv8, e: bv8, f: bv8, g: bv8, h: bv8)
    ensures SwapPairs(Join8(a, b, c, d, e, f, g, h)) == Join8(c, d, a, b, g, h, e, f)
  {
  }

  lemma {:induction false} SwapHalvesOf(a: bv8, b: bv8, c: bv8, d: bv8, e: bv8, f: bv8, g: bv8, h: bv8)
    ensures SwapHalves(Join8(a, b, c, d, e, f, g, h)) == Join8(e, f, g, h, a, b, c, d)
  {
  }

  /** Swapping reverses the bytes in memory. */
  lemma {:induction false} EndianSwapReverses(v: bv64)
    ensures DwordBytes(EndianSwap(v)) == Reverse(DwordBytes(v))
  {
    hide Join8, Byte7, Byte6, Byte5, Byte4, Byte3, Byte2, Byte1, Byte0, SwapBytes, SwapPairs, SwapHalves;
    var (a, b, c, d) := (Byte7(v), Byte6(v), Byte5(v), Byte4(v));
    var (e, f, g, h) := (Byte3(v), Byte2(v), Byte1(v), Byte0(v));
    JoinOfBytes(v);
    SwapBytesOf(a, b, c, d, e, f, g, h);
    SwapPairsOf(b, a, d, c, f, e, h, g);
    SwapHalvesOf(d, c, b, a, h, g, f, e);
    ByteOfJoin(h, g, f, e, d, c, b, a);
  }

  /** Two swaps cancel. */
  lemma {:induction false} EndianSwapTwice(v: bv64)
    ensures EndianSwap(EndianSwap(v)) == v
  {
  }

  // ----- the number in a 64-bit variable

  function ToNumber(v: bv64): (n: nat) {
    Number(DwordBytes(v))
  }

  function FromNumber(n: nat): bv64 {
    Dword(BigEndian(n, 8))
  }

  lemma {:induction false} BigEndianOfNumber(b: seq<bv8>)
    ensures BigEndian(Number(b), |b|) == b
    ensures Number(b) < Radix(|b|)
  {
    hide Octet, ToByte;
    if b != [] {
      var n := |b| - 1;
      BigEndianOfNumber(b[..n]);
      assert Number(b) / 256 == Number(b[..n]) && Number(b) % 256 == Octet(b[n]);
      OctetRoundTrip(b[n]);
    }
  }

  lemma {:induction false} NumberRoundTrip(v: bv64)
    ensures FromNumber(ToNumber(v)) == v && ToNumber(v) < TWO64
  {
    hide Number, DwordBytes, Dword, BigEndian;
    BigEndianOfNumber(DwordBytes(v));
    DwordRoundTrip(v, []);
    RadixEight();
  }
}
