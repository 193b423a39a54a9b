/** The two CRC-32 registers: the word-wise one that guards reports and records, and the reflected one. */
module Crc {
  import opened Bytes

  // ----- one bit of the word-wise CRC

  function Xor(a: bv32, b: bv32): bv32 {
    a ^ b
  }

  predicate Top(c: bv32) {
    c & 0x80000000 != 0
  }

  function Left(c: bv32): bv32 {
    c << 1
  }

  const POLYNOMIAL: bv32 := 0x04C11DB7

  function Shift(c: bv32): bv32 {
    if Top(c) then Xor(Left(c), POLYNOMIAL) else Left(c)
  }

  predicate Odd(d: bv32) {
    d & 1 != 0
  }

  function Right(d: bv32): bv32 {
    d >> 1
  }

  function WithTop(d: bv32): bv32 {
    d | 0x80000000
  }

  /** The polynomial is odd, so the last bit says which case a shift took. */
  function Unshift(d: bv32): bv32 {
    if Odd(d) then WithTop(Right(Xor(d, POLYNOMIAL))) else Right(d)
  }

  lemma {:induction false} LeftIsEven(c: bv32)
    ensures !Odd(Left(c))
  {
  }

  lemma {:induction false} LeftReducedIsOdd(c: bv32)
    ensures Odd(Xor(Left(c), POLYNOMIAL))
  {
  }

  lemma {:induction false} LeftThenRight(c: bv32)
    ensures !Top(c) ==> Right(Left(c)) == c
  {
  }

  lemma {:induction false} LeftThenRightTop(c: bv32)
    ensures Top(c) ==> WithTop(Right(Left(c))) == c
  {
  }

  lemma {:induction false} LeftBits(c: bv32)
    ensures !Odd(Left(c)) && Odd(Xor(Left(c), POLYNOMIAL))
    ensures !Top(c) ==> Right(Left(c)) == c
    ensures Top(c) ==> WithTop(Right(Left(c))) == c
  {
    hide *;
    LeftIsEven(c);
    LeftReducedIsOdd(c);
    LeftThenRight(c);
    LeftThenRightTop(c);
  }

  lemma {:induction false} RightBits(d: bv32)
    ensures !Odd(d) ==> Left(Right(d)) == d && !Top(Right(d))
    ensures Left(WithTop(Right(d))) == Left(Right(d)) && Top(WithTop(Right(d)))
    ensures Odd(d) ==> !Odd(Xor(d, POLYNOMIAL))
  {
  }

  lemma {:induction false} XorCancels(a: bv32, b: bv32)
    ensures Xor(Xor(a, b), b) == a && Xor(a, b) == Xor(b, a)
  {
  }

  lemma {:induction false} XorAssoc(a: bv32, b: bv32, c: bv32)
    ensures Xor(Xor(a, b), c) == Xor(a, Xor(b, c))
  {
  }

  lemma {:induction false} XorSwap(a: bv32, b: bv32, c: bv32, d: bv32)
    ensures Xor(Xor(a, b), Xor(c, d)) == Xor(Xor(a, c), Xor(b, d))
  {
    hide Xor;
    XorAssoc(a, b, Xor(c, d));
    XorAssoc(b, c, d);
    XorCancels(b, c);
    XorAssoc(c, b, d);
    XorAssoc(a, c, Xor(b, d));
  }

  lemma {:induction false} ShiftInvertible(c: bv32)
    ensures Unshift(Shift(c)) == c
    ensures Shift(Unshift(c)) == c
  {
    hide Top, Left, Odd, Right, WithTop, Xor;
    LeftBits(c);
    XorCancels(Left(c), POLYNOMIAL);
    RightBits(c);
    RightBits(Xor(c, POLYNOMIAL));
    XorCancels(c, POLYNOMIAL);
  }

  lemma {:induction false} LeftAdds(a: bv32, b: bv32)
    ensures Left(Xor(a, b)) == Xor(Left(a), Left(b))
    ensures Top(Xor(a, b)) == (Top(a) != Top(b))
  {
    LeftXor(a, b);
    TopXor(a, b);
  }

  lemma {:induction false} LeftXor(a: bv32, b: bv32)
    ensures Left(Xor(a, b)) == Xor(Left(a), Left(b))
  {
  }

  lemma {:induction false} TopXor(a: bv32, b: bv32)
    ensures Top(Xor(a, b)) == (Top(a) != Top(b))
  {
  }

  lemma {:induction false} XorReduce(a: bv32, b: bv32, p: bv32)
    ensures Xor(Xor(a, p), Xor(b, p)) == Xor(a, b)
    ensures Xor(Xor(a, p), b) == Xor(Xor(a, b), p) && Xor(a, Xor(b, p)) == Xor(Xor(a, b), p)
  {
    hide Xor;
    XorAssoc(a, b, p);
    XorAssoc(a, p, b);
    XorCancels(p, b);
    XorAssoc(Xor(a, p), b, p);
    XorCancels(Xor(a, b), p);
  }

  lemma {:induction false} ShiftAdds(a: bv32, b: bv32)
    ensures Shift(Xor(a, b)) == Xor(Shift(a), Shift(b))
  {
    hide Top, Left, Xor;
    LeftAdds(a, b);
    XorReduce(Left(a), Left(b), POLYNOMIAL);
  }

  // ----- one word

  function Shifts(c: bv32, n: nat): bv32 {
    if n == 0 then c else Shift(Shifts(c, n - 1))
  }

  function Unshifts(d: bv32, n: nat): bv32
    decreases n
  {
    if n == 0 then d else Unshifts(Unshift(d), n - 1)
  }

  lemma {:induction false} ShiftsInvertible(c: bv32, n: nat)
    ensures Unshifts(Shifts(c, n), n) == c
    ensures Shifts(Unshifts(c, n), n) == c
    decreases n
  {
    hide Shift, Unshift;
    if n > 0 {
      ShiftInvertible(Shifts(c, n - 1));
      ShiftsInvertible(c, n - 1);
      ShiftsInvertible(Unshift(c), n - 1);
      ShiftInvertible(c);
    }
  }

  lemma {:induction false} ShiftsAdd(a: bv32, b: bv32, n: nat)
    ensures Shifts(Xor(a, b), n) == Xor(Shifts(a, n), Shifts(b, n))
  {
    hide Shift, Xor;
    if n > 0 {
      ShiftsAdd(a, b, n - 1);
      ShiftAdds(Shifts(a, n - 1), Shifts(b, n - 1));
    }
  }

  function WordCrc(crc: bv32, data: bv32): bv32 {
    Shifts(Xor(crc, data), 32)
  }

  /** A word step is a bijection of the register for a given word, and of the word for a given register. */
  lemma {:induction false} WordCrcBijective(crc: bv32, data: bv32, target: bv32)
    ensures WordCrc(crc, data) == target <==> crc == Xor(Unshifts(target, 32), data)
    ensures WordCrc(crc, data) == target <==> data == Xor(Unshifts(target, 32), crc)
  {
    hide Xor, Shifts, Unshifts;
    ShiftsInvertible(Xor(crc, data), 32);
    ShiftsInvertible(target, 32);
    XorCancels(crc, data);
    XorCancels(data, crc);
    XorCancels(Unshifts(target, 32), data);
    XorCancels(Unshifts(target, 32), crc);
  }

  method Crc32(crc: bv32, data: bv32) returns (c: bv32)
    ensures c == WordCrc(crc, data)
  {
    hide Shift, Xor;
    c := Xor(crc, data);
    for i := 0 to 32
      invariant c == Shifts(Xor(crc, data), i)
    {
      c := Shift(c);
    }
  }

  // ----- whole records

  function WordOf(data: seq<bv8>, i: nat): bv32
    requires 4 * i + 4 <= |data|
  {
    LittleWord(data[4 * i..4 * i + 4])
  }

  /** The register after the first n words. */
  function CrcOf(data: seq<bv8>, n: nat): bv32
    requires 4 * n <= |data|
  {
    if n == 0 then 0xffffffff else WordCrc(CrcOf(data, n - 1), WordOf(data, n - 1))
  }

  /** generateCRC_len, over n words; generateCRC is the call with 15. */
  method GenerateCrcLen(data: seq<bv8>, n: nat) returns (crc: bv32)
    requires 4 * n <= |data|
    ensures crc == CrcOf(data, n)
  {
    hide WordCrc, LittleWord;
    crc := 0xffffffff;
    for i := 0 to n
      invariant crc == CrcOf(data, i)
    {
      var value := Getu32(data[i * 4..i * 4 + 4]);
      crc := Crc32(crc, value);
    }
  }

  function Xor3(a: bv32, b: bv32, c: bv32): bv32 {
    Xor(Xor(a, b), c)
  }

  function XorByte3(a: bv8, b: bv8, c: bv8): bv8 {
    XorByte(XorByte(a, b), c)
  }

  lemma {:induction false} Xor3Swap(a: bv32, b: bv32, c: bv32, d: bv32, e: bv32, f: bv32)
    ensures Xor3(Xor(a, d), Xor(b, e), Xor(c, f)) == Xor(Xor3(a, b, c), Xor3(d, e, f))
  {
    hide Xor;
    XorSwap(a, d, b, e);
    XorSwap(Xor(a, b), Xor(d, e), c, f);
  }

  lemma {:induction false} Shifts3(a: bv32, b: bv32, c: bv32, n: nat)
    ensures Shifts(Xor3(a, b, c), n) == Xor3(Shifts(a, n), Shifts(b, n), Shifts(c, n))
  {
    hide Xor, Shifts;
    ShiftsAdd(Xor(a, b), c, n);
    ShiftsAdd(a, b, n);
  }

  lemma {:induction false} WordCrcAffine(a: bv32, b: bv32, c: bv32, d: bv32, e: bv32, f: bv32)
    ensures Xor3(WordCrc(a, d), WordCrc(b, e), WordCrc(c, f)) == WordCrc(Xor3(a, b, c), Xor3(d, e, f))
  {
    hide Xor, Xor3, Shifts;
    Shifts3(Xor(a, d), Xor(b, e), Xor(c, f), 32);
    Xor3Swap(a, b, c, d, e, f);
  }

  function XorSeq3(a: seq<bv8>, b: seq<bv8>, c: seq<bv8>): (r: seq<bv8>)
    requires |a| == |b| == |c|
    ensures |r| == |a|
  {
    seq(|a|, i requires 0 <= i < |a| => XorByte3(a[i], b[i], c[i]))
  }

  lemma {:induction false} JoinXor(a: bv8, b: bv8, c: bv8, d: bv8, e: bv8, f: bv8, g: bv8, h: bv8)
    ensures Join(XorByte(a, e), XorByte(b, f), XorByte(c, g), XorByte(d, h)) == Xor(Join(a, b, c, d), Join(e, f, g, h))
  {
  }

  lemma {:induction false} WordOfXor3(a: seq<bv8>, b: seq<bv8>, c: seq<bv8>, i: nat)
    requires |a| == |b| == |c| && 4 * i + 4 <= |a|
    ensures WordOf(XorSeq3(a, b, c), i) == Xor3(WordOf(a, i), WordOf(b, i), WordOf(c, i))
  {
    hide Join, XorByte, Xor;
    var k := 4 * i;
    JoinXor(a[k + 3], a[k + 2], a[k + 1], a[k], b[k + 3], b[k + 2], b[k + 1], b[k]);
    JoinXor(XorByte(a[k + 3], b[k + 3]), XorByte(a[k + 2], b[k + 2]), XorByte(a[k + 1], b[k + 1]), XorByte(a[k], b[k]),
            c[k + 3], c[k + 2], c[k + 1], c[k]);
  }

  lemma {:induction false} OnesTwice()
    ensures Xor3(0xffffffff, 0xffffffff, 0xffffffff) == 0xffffffff
  {
  }

  /** The CRC is affine over XOR. */
  lemma {:induction false} CrcAffine(a: seq<bv8>, b: seq<bv8>, c: seq<bv8>, n: nat)
    requires |a| == |b| == |c| && 4 * n <= |a|
    ensures Xor3(CrcOf(a, n), CrcOf(b, n), CrcOf(c, n)) == CrcOf(XorSeq3(a, b, c), n)
    decreases n
  {
    hide WordCrc, WordOf, Xor3, XorByte3;
    if n == 0 {
      OnesTwice();
    } else {
      CrcAffine(a, b, c, n - 1);
      WordOfXor3(a, b, c, n - 1);
      WordCrcAffine(CrcOf(a, n - 1), CrcOf(b, n - 1), CrcOf(c, n - 1), WordOf(a, n - 1), WordOf(b, n - 1), WordOf(c, n - 1));
    }
  }

  /** The records agree outside word k. */
  ghost predicate DifferOnlyIn(a: seq<bv8>, b: seq<bv8>, k: nat)
    requires |a| == |b|
  {
    forall i: nat :: i < |a| && (i < 4 * k || 4 * k + 4 <= i) ==> a[i] == b[i]
  }

  lemma {:induction false} WordOfInjective(a: seq<bv8>, b: seq<bv8>, k: nat)
    requires |a| == |b| && 4 * k + 4 <= |a| && WordOf(a, k) == WordOf(b, k) && DifferOnlyIn(a, b, k)
    ensures a == b
  {
  }

  /** A change within one word always changes the CRC. */
  lemma {:induction false} SingleWordDetected(a: seq<bv8>, b: seq<bv8>, n: nat, k: nat)
    requires |a| == |b| && 4 * n <= |a| && k < n && DifferOnlyIn(a, b, k) && a != b
    ensures CrcOf(a, n) != CrcOf(b, n)
    decreases n
  {
    hide WordCrc, LittleWord, Unshifts, Xor;
    var x, y := CrcOf(a, n - 1), CrcOf(b, n - 1);
    WordCrcBijective(x, WordOf(a, n - 1), CrcOf(b, n));
    WordCrcBijective(y, WordOf(b, n - 1), CrcOf(b, n));
    if k == n - 1 {
      SameBefore(a, b, n - 1, k);
      if WordOf(a, k) == WordOf(b, k) {
        WordOfInjective(a, b, k);
      }
    } else {
      SingleWordDetected(a, b, n - 1, k);
      assert a[4 * (n - 1)..4 * (n - 1) + 4] == b[4 * (n - 1)..4 * (n - 1) + 4];
    }
  }

  lemma {:induction false} SameBefore(a: seq<bv8>, b: seq<bv8>, n: nat, k: nat)
    requires |a| == |b| && 4 * n <= |a| && n <= k && DifferOnlyIn(a, b, k)
    ensures CrcOf(a, n) == CrcOf(b, n)
  {
    hide WordCrc, LittleWord;
    if n > 0 {
      SameBefore(a, b, n - 1, k);
      assert a[4 * (n - 1)..4 * (n - 1) + 4] == b[4 * (n - 1)..4 * (n - 1) + 4];
    }
  }

  // ----- the reflected CRC register

  const CRC_POLYNOM_32_REV: bv32 := 0xEDB88320

  function BitAt(b: bv8, n: nat): bv8
    requires n < 8
  {
    (b >> n) & 1
  }

  function BitStep(reg: bv32, bit: bv8): bv32 {
    if reg & 1 != bit as bv32 then (reg >> 1) ^ CRC_POLYNOM_32_REV else reg >> 1
  }

  function BitSteps(reg: bv32, b: bv8, n: nat): bv32
    requires n <= 8
  {
    if n == 0 then reg else BitStep(BitSteps(reg, b, n - 1), BitAt(b, n - 1))
  }

  /** The register after the first n bytes. */
  function Fed(reg: bv32, data: seq<bv8>, n: nat): bv32
    requires n <= |data|
  {
    if n == 0 then reg else BitSteps(Fed(reg, data, n - 1), data[n - 1], 8)
  }

  function LittleBytes(w: bv32): (b: seq<bv8>)
    ensures |b| == 4
  {
    [(w & 0xFF) as bv8, ((w >> 8) & 0xFF) as bv8, ((w >> 16) & 0xFF) as bv8, ((w >> 24) & 0xFF) as bv8]
  }

  lemma {:induction false} JoinBytes(a: bv8, b: bv8, c: bv8, d: bv8)
    ensures LittleBytes(Join(d, c, b, a)) == [a, b, c, d]
  {
  }

  lemma {:induction false} LittleBytesOfWord(b: seq<bv8>)
    requires |b| == 4
    ensures LittleBytes(LittleWord(b)) == b
  {
  }

  class Register {
    var reg: bv32

    constructor ()
      ensures reg == 0xffffffff
    {
      reg := 0xffffffff;
    }

    method FeedByte(b: bv8)
      modifies this
      ensures reg == BitSteps(old(reg), b, 8)
    {
      hide BitStep, BitAt;
      for n := 0 to 8
        invariant reg == BitSteps(old(reg), b, n)
      {
        reg := BitStep(reg, BitAt(b, n));
      }
    }

    /** CRC_CalcBlockCRC32 */
    method CalcBlock(data: seq<bv8>, len: nat)
      requires len <= |data|
      modifies this
      ensures reg == Fed(old(reg), data, len)
    {
      hide BitSteps;
      for i := 0 to len
        invariant reg == Fed(old(reg), data, i)
      {
        FeedByte(data[i]);
      }
    }

    /** CRC_CalcBlockCRC32_1 takes words, which it splits into the bytes they came from. */
    method CalcBlockWords(data: seq<bv8>, len: nat)
      requires 4 * len <= |data|
      modifies this
      ensures reg == Fed(old(reg), data, 4 * len)
    {
      hide BitSteps, LittleBytes, LittleWord;
      for i := 0 to len
        invariant reg == Fed(old(reg), data, 4 * i)
      {
        var word := data[i * 4..i * 4 + 4];
        var k := Getu32(word);
        var output := LittleBytes(k);
        LittleBytesOfWord(word);
        for j := 0 to 4
          invariant reg == Fed(old(reg), data, 4 * i + j)
        {
          FeedByte(output[j]);
        }
      }
    }
  }
}
