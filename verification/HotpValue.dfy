/** One-time passwords: RFC 4226, and the firmware's get_hotp_value. */
module HotpValue {
  import opened Bytes
  import opened Fips180
  import opened Hmac

  // ----- section 5.3 of RFC 4226

  /** The low-order four bits of the last byte. */
  function OffsetBits(hs: seq<bv8>): (o: nat)
    requires |hs| == 20
    ensures o < 16
  {
    LowNibble(hs[19])
  }

  function LowNibble(b: bv8): (n: nat)
    ensures n < 16
  {
    NibbleBound(b);
    (b & 0xf) as nat
  }

  lemma {:induction false} NibbleBound(b: bv8)
    ensures (b & 0xf) as nat < 16
  {
  }

  /** DT: the last 31 bits of the big-endian word at the offset. */
  function Truncated(hs: seq<bv8>): bv32
    requires |hs| == 20
  {
    WordAt(hs, OffsetBits(hs)) & 0x7fffffff
  }

  /** The 31-bit word as a number. */
  function StToNum(snum: bv32): (n: nat) {
    snum as nat
  }

  /** The decimal digits taken from the number. */
  function Reduced(snum: bv32, digits: nat): (d: nat)
    requires digits == 6 || digits == 8
    ensures d < if digits == 6 then 1000000 else 100000000
  {
    if digits == 6 then StToNum(snum) % 1000000 else StToNum(snum) % 100000000
  }

  function Hotp(secret: seq<bv8>, counter: nat, digits: nat): (d: nat)
    requires digits == 6 || digits == 8
    ensures d < if digits == 6 then 1000000 else 100000000
  {
    Reduced(Truncated(HmacSha1(secret, BigEndian(counter, 8))), digits)
  }

  /** A secret shorter than its field is stored with zeros behind it, which does not change its codes. */
  lemma {:induction false} ZeroPaddedSecret(secret: seq<bv8>, k: nat, counter: nat, digits: nat)
    requires |secret| + k <= 64 && (digits == 6 || digits == 8)
    ensures Hotp(secret + Zeros(k), counter, digits) == Hotp(secret, counter, digits)
  {
    hide Reduced, Truncated, Sha1, Pad, BigEndian;
    assert Zeros(k) + Zeros(64 - |secret| - k) == Zeros(64 - |secret|);
    assert KeyBlock(secret + Zeros(k)) == KeyBlock(secret);
  }

  // ----- dynamic_truncate and get_hotp_value

  function DynamicTruncate(hmacResult: seq<bv8>): bv32
    requires |hmacResult| == 20
  {
    var offset := LowNibble(hmacResult[19]);
    Join(hmacResult[offset] & 0x7f, hmacResult[offset + 1], hmacResult[offset + 2], hmacResult[offset + 3])
  }

  /** Clearing the top bit of the first byte keeps the last 31 bits of the word. */
  lemma {:induction false} TruncationAgrees(hs: seq<bv8>)
    requires |hs| == 20
    ensures DynamicTruncate(hs) == Truncated(hs)
  {
  }

  method GetHotpValue(counter: nat, secret: seq<bv8>, len: nat) returns (code: nat)
    requires counter < TWO64 && |secret| < 256
    ensures len == 6 || len == 8 ==> code == Hotp(secret, counter, len)
    ensures len != 6 && len != 8 ==> code == 0
  {
    hide HmacSha1, Splice, DynamicTruncate, Truncated, StToNum, BigEndian;
    var hmacResult := new bv8[20];
    // the counter as it lies in memory is big-endian
    var c := BigEndian(counter, 8);
    ghost var before := hmacResult[..];
    Sha1Hmac(hmacResult, secret, |secret| * 8, c, 64);
    SpliceWhole(before, HmacSha1(secret, c));
    TruncationAgrees(hmacResult[..]);
    code := StToNum(DynamicTruncate(hmacResult[..]));
    if len == 6 {
      code := code % 1000000;
    } else if len == 8 {
      code := code % 100000000;
    } else {
      return 0;
    }
  }
}
