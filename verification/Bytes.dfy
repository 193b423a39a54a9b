/** Byte sequences: splicing a range into a buffer, and XOR. */
module Bytes {

  /** The buffer b with the range that starts at o overwritten by x. */
  function Splice<T>(b: seq<T>, o: nat, x: seq<T>): (r: seq<T>)
    requires o + |x| <= |b|
    ensures |r| == |b|
  {
    b[..o] + x + b[o + |x|..]
  }

  lemma {:induction false} SpliceRange<T>(b: seq<T>, o: nat, x: seq<T>)
    requires o + |x| <= |b|
    ensures Splice(b, o, x)[o..o + |x|] == x
  {
  }

  lemma {:induction false} SpliceTwice<T>(b: seq<T>, o: nat, x: seq<T>, y: seq<T>)
    requires o + |x| + |y| <= |b|
    ensures Splice(Splice(b, o, x), o + |x|, y) == Splice(b, o, x + y)
  {
  }

  lemma {:induction false} SpliceOver<T>(b: seq<T>, o: nat, x: seq<T>, y: seq<T>)
    requires o + |x| <= |b| && |x| == |y|
    ensures Splice(Splice(b, o, x), o, y) == Splice(b, o, y)
  {
  }

  lemma {:induction false} SpliceNothing<T>(b: seq<T>, o: nat)
    requires o <= |b|
    ensures Splice(b, o, []) == b
  {
  }

  lemma {:induction false} SpliceSuffix<T>(b: seq<T>, o: nat, x: seq<T>)
    requires o + |x| <= |b|
    ensures Splice(b, o, x)[o + |x|..] == b[o + |x|..]
  {
  }

  lemma {:induction false} SpliceWhole<T>(b: seq<T>, x: seq<T>)
    requires |x| == |b|
    ensures Splice(b, 0, x) == x
  {
  }

  lemma {:induction false} SpliceOutside<T>(b: seq<T>, o: nat, x: seq<T>, a: nat, n: nat)
    requires o + |x| <= |b| && a + n <= |b| && (o + |x| <= a || a + n <= o)
    ensures Splice(b, o, x)[a..a + n] == b[a..a + n]
  {
  }

  /** Splicing within a range of b is splicing that range. */
  lemma {:induction false} SpliceInside<T>(b: seq<T>, a: nat, n: nat, o: nat, x: seq<T>)
    requires a + n <= |b| && o + |x| <= n
    ensures Splice(b, a + o, x)[a..a + n] == Splice(b[a..a + n], o, x)
  {
    var (whole, part) := (Splice(b, a + o, x), Splice(b[a..a + n], o, x));
    forall k: nat | k < n
      ensures whole[a..a + n][k] == part[k]
    {
      assert whole[a..a + n][k] == whole[a + k];
    }
  }

  lemma {:induction false} SliceOfPrefix<T>(b: seq<T>, n: nat, i: nat, j: nat)
    requires i <= j <= n <= |b|
    ensures b[..n][i..j] == b[i..j]
  {
  }

  lemma {:induction false} SliceOfSuffix<T>(b: seq<T>, n: nat, i: nat, j: nat)
    requires i <= j && n + j <= |b|
    ensures b[n..][i..j] == b[n + i..n + j]
  {
  }

  lemma {:induction false} SliceOfSlice<T>(b: seq<T>, lo: nat, hi: nat, i: nat, j: nat)
    requires i <= j && lo + j <= hi <= |b|
    ensures b[lo..hi][i..j] == b[lo + i..lo + j]
  {
    forall k: nat | k < j - i
      ensures b[lo..hi][i..j][k] == b[lo + i..lo + j][k]
    {
      assert b[lo..hi][i + k] == b[lo + i + k];
    }
  }

  /** Appending one element to a spliced range is one assignment. */
  lemma {:induction false} SpliceOne<T>(b: seq<T>, o: nat, x: seq<T>, y: T)
    requires o + |x| < |b|
    ensures Splice(b, o, x + [y]) == Splice(b, o, x)[o + |x| := y]
  {
  }

  lemma {:induction false} Associate<T>(a: seq<T>, b: seq<T>, c: seq<T>)
    ensures (a + b) + c == a + (b + c)
  {
  }

  function XorByte(a: bv8, b: bv8): bv8 {
    a ^ b
  }

  lemma {:induction false} XorByteTwice(a: bv8, b: bv8)
    ensures XorByte(XorByte(a, b), b) == a
    ensures XorByte(a, b) == XorByte(b, a)
  {
  }

  /** The bytewise XOR of a with the start of b. */
  function XorBytes(a: seq<bv8>, b: seq<bv8>): (r: seq<bv8>)
    requires |a| <= |b|
    ensures |r| == |a|
  {
    seq(|a|, i requires 0 <= i < |a| => XorByte(a[i], b[i]))
  }

  // ----- bytes and numbers

  function Octet(b: bv8): (n: nat)
    ensures n < 256
  {
    b as nat
  }

  function ToByte(x: nat): bv8
    requires x < 256
  {
    x as bv8
  }

  lemma {:induction false} ByteRoundTrip(x: nat)
    requires x < 256
    ensures Octet(ToByte(x)) == x
  {
    assert x % 256 == x;
  }

  lemma {:induction false} OctetRoundTrip(b: bv8)
    ensures ToByte(Octet(b)) == b
  {
  }

  // ----- runs of one byte

  function Fill(v: bv8, n: nat): (z: seq<bv8>)
    ensures |z| == n
  {
    seq(n, i => v)
  }

  // ----- big-endian numbers, the byte order of the processor

  /** The n lowest bytes of x, most significant first. */
  function BigEndian(x: nat, n: nat): (b: seq<bv8>)
    ensures |b| == n
  {
    if n == 0 then [] else BigEndian(x / 256, n - 1) + [ToByte(x % 256)]
  }

  function Number(b: seq<bv8>): nat {
    if b == [] then 0 else Number(b[..|b| - 1]) * 256 + Octet(b[|b| - 1])
  }

  function Radix(n: nat): (r: nat)
    ensures r > 0
  {
    if n == 0 then 1 else 256 * Radix(n - 1)
  }

  const TWO64 := 0x1_0000_0000_0000_0000

  /** The value a 64-bit variable keeps of x. */
  function Wrapped(x: nat): (w: nat)
    ensures w < TWO64
  {
    x % TWO64
  }

  lemma {:induction false} WrappedStep(x: nat, y: nat)
    ensures Wrapped(Wrapped(x) + y) == Wrapped(x + y)
  {
  }

  lemma {:induction false} RadixEight()
    ensures Radix(8) == TWO64 && Radix(4) == 0x1_0000_0000
  {
  }

  /** Reading a stored number gives it back, reduced to its width. */
  lemma {:induction false} NumberOfBigEndian(x: nat, n: nat)
    ensures Number(BigEndian(x, n)) == x % Radix(n)
  {
    hide Octet, ToByte;
    if n > 0 {
      var hi := BigEndian(x / 256, n - 1);
      var lo := x % 256;
      assert BigEndian(x, n) == hi + [ToByte(lo)] && BigEndian(x, n)[..n - 1] == hi;
      NumberOfBigEndian(x / 256, n - 1);
      ByteRoundTrip(lo);
      SplitRemainder(x, Radix(n - 1));
    }
  }

  lemma {:induction false} SplitRemainder(x: nat, r: nat)
    requires r > 0
    ensures (x / 256 % r) * 256 + x % 256 == x % (256 * r)
  {
    var q := x / 256 / r;
    assert x == (256 * r) * q + ((x / 256 % r) * 256 + x % 256) by {
      assert x / 256 == r * q + x / 256 % r;
      assert 256 * (r * q) == (256 * r) * q;
    }
    RemainderUnique(x, 256 * r, q, (x / 256 % r) * 256 + x % 256);
  }

  lemma {:induction false} MulAtLeast(d: nat, k: nat)
    requires k >= 1
    ensures d * k >= d
    decreases k
  {
  }

  lemma {:induction false} MulSplit(d: nat, a: int, k: int)
    ensures d * (a + k) == d * a + d * k
  {
  }

  lemma {:induction false} MulGap(d: nat, a: int, b: int)
    ensures a < b ==> d * a + d <= d * b
  {
    if a < b {
      MulAtLeast(d, b - a);
      MulSplit(d, a, b - a);
    }
  }

  lemma {:induction false} RemainderUnique(x: nat, d: nat, q: nat, rest: nat)
    requires d > 0 && x == d * q + rest && rest < d
    ensures x % d == rest
  {
    MulGap(d, x / d, q);
    MulGap(d, q, x / d);
  }

  lemma {:induction false} QuotientUnique(x: nat, d: nat, q: nat, rest: nat)
    requires d > 0 && x == d * q + rest && rest < d
    ensures x / d == q
  {
    MulGap(d, x / d, q);
    MulGap(d, q, x / d);
  }

  // ----- 32-bit words

  function Join(a: bv8, b: bv8, c: bv8, d: bv8): bv32 {
    ((a as bv32) << 24) | ((b as bv32) << 16) | ((c as bv32) << 8) | (d as bv32)
  }

  /** Big-endian word at byte offset i. */
  function WordAt(b: seq<bv8>, i: nat): bv32
    requires i + 4 <= |b|
  {
    Join(b[i], b[i + 1], b[i + 2], b[i + 3])
  }

  function WordBytes(w: bv32): (b: seq<bv8>)
    ensures |b| == 4
  {
    [((w >> 24) & 0xFF) as bv8, ((w >> 16) & 0xFF) as bv8, ((w >> 8) & 0xFF) as bv8, (w & 0xFF) as bv8]
  }

  /** The unsigned number that a word stands for. */
  function Unsigned(w: bv32): nat {
    w as nat
  }

  lemma {:induction false} WordRoundTrip(w: bv32)
    ensures WordAt(WordBytes(w), 0) == w
  {
  }

  /** change_endian_u32 */
  function ChangeEndian(w: bv32): bv32 {
    (w << 24) | (w >> 24) | ((w & 0x0000ff00) << 8) | ((w & 0x00ff0000) >> 8)
  }

  // ----- little-endian reads, the byte order of the reports

  /** getu32 */
  function LittleWord(b: seq<bv8>): bv32
    requires |b| == 4
  {
    Join(b[3], b[2], b[1], b[0])
  }

  function Shifted(r: bv32, b: bv8): bv32 {
    (r << 8) + (b as bv32)
  }

  lemma {:induction false} ShiftedFour(a: bv8, b: bv8, c: bv8, d: bv8)
    ensures Shifted(Shifted(Shifted(Shifted(0, a), b), c), d) == Join(a, b, c, d)
  {
  }

  /** The bytes read from i on, most significant last. */
  function ReadFrom(b: seq<bv8>, i: nat): bv32
    requires |b| == 4 && i <= 4
    decreases 4 - i
  {
    if i == 4 then 0 else Shifted(ReadFrom(b, i + 1), b[i])
  }

  method Getu32(b: seq<bv8>) returns (result: bv32)
    requires |b| == 4
    ensures result == LittleWord(b)
  {
    hide Shifted, Join;
    result := 0;
    var i := 3;
    while i >= 0
      invariant -1 <= i <= 3 && result == ReadFrom(b, i + 1)
    {
      result := Shifted(result, b[i]);
      i := i - 1;
    }
    assert ReadFrom(b, 2) == Shifted(Shifted(0, b[3]), b[2]);
    ShiftedFour(b[3], b[2], b[1], b[0]);
  }

  lemma {:induction false} ShiftedNumber(v: bv32, c: bv8)
    requires v < 0x1000000
    ensures Unsigned(Shifted(v, c)) == Unsigned(v) * 256 + Octet(c)
  {
  }

  lemma {:induction false} ShiftedBounds(a: bv8, b: bv8, c: bv8)
    ensures Shifted(0, a) < 0x1000000 && Shifted(Shifted(0, a), b) < 0x1000000
    ensures Shifted(Shifted(Shifted(0, a), b), c) < 0x1000000
  {
  }

  /** getu32 reads the number that the bytes stand for, least significant first. */
  lemma {:induction false} LittleWordNumber(b: seq<bv8>)
    requires |b| == 4
    ensures Unsigned(LittleWord(b)) == LittleNumber(b)
  {
    ShiftedFour(b[3], b[2], b[1], b[0]);
    hide Shifted, Join, Octet, Unsigned;
    ShiftedBounds(b[3], b[2], b[1]);
    ShiftedNumber(0, b[3]);
    ShiftedNumber(Shifted(0, b[3]), b[2]);
    ShiftedNumber(Shifted(Shifted(0, b[3]), b[2]), b[1]);
    ShiftedNumber(Shifted(Shifted(Shifted(0, b[3]), b[2]), b[1]), b[0]);
    UnsignedZero();
    assert LittleFrom(b, 3) == Octet(b[3]);
    assert LittleFrom(b, 2) == Octet(b[3]) * 256 + Octet(b[2]);
    assert LittleFrom(b, 1) == (Octet(b[3]) * 256 + Octet(b[2])) * 256 + Octet(b[1]);
  }

  lemma {:induction false} UnsignedZero()
    ensures Unsigned(0) == 0
  {
  }

  /** A word of ones reads the same in both byte orders. */
  lemma {:induction false} FreeWord(b: seq<bv8>)
    requires |b| == 4
    ensures LittleWord(b) == 0xffffffff <==> b == Fill(0xFF, 4)
    ensures WordAt(b, 0) == 0xffffffff <==> b == Fill(0xFF, 4)
  {
  }

  /** The number that the bytes from i on stand for, least significant first. */
  function LittleFrom(b: seq<bv8>, i: nat): (n: nat)
    requires i <= |b|
    decreases |b| - i
  {
    if i == |b| then 0 else LittleFrom(b, i + 1) * 256 + Octet(b[i])
  }

  /** getu64 */
  function LittleNumber(b: seq<bv8>): (n: nat) {
    LittleFrom(b, 0)
  }

  method Getu64(b: seq<bv8>) returns (result: nat)
    requires |b| == 8
    ensures result == LittleNumber(b)
  {
    hide Octet;
    result := 0;
    var i := 7;
    while i >= 0
      invariant -1 <= i <= 7 && result == LittleFrom(b, i + 1)
    {
      result := result * 256 + Octet(b[i]);
      i := i - 1;
    }
  }

  lemma {:induction false} LittleFromBound(b: seq<bv8>, i: nat)
    requires i <= |b|
    ensures LittleFrom(b, i) < Radix(|b| - i)
    decreases |b| - i
  {
    hide Octet;
    if i < |b| {
      LittleFromBound(b, i + 1);
    }
  }

  /** The 32-bit variable that a number is assigned to. */
  function ToWord(x: nat): bv32 {
    Join(ToByte(x / 0x100_0000 % 256), ToByte(x / 0x1_0000 % 256), ToByte(x / 256 % 256), ToByte(x % 256))
  }

  // ----- memcpy into an array

  method Put(output: array<bv8>, o: nat, x: seq<bv8>)
    requires o + |x| <= output.Length
    modifies output
    ensures output[..] == Splice(old(output[..]), o, x)
  {
    for i := 0 to |x|
      invariant forall j: nat :: j < output.Length ==> output[j] == if o <= j < o + i then x[j - o] else old(output[j])
    {
      output[o + i] := x[i];
    }
  }
}
