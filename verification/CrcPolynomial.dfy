/** What the CRC registers compute: the remainder modulo the CRC-32 polynomial, given by its exponents, and the same
    remainder with all bits mirrored. */
module CrcPolynomial {
  import opened Bytes
  import opened Crc

  // ----- polynomials over GF(2) of degree below 64

  /** Bit i of low stands for the power i, bit i of high for the power 32 + i. */
  datatype Poly = Poly(high: bv32, low: bv32)

  /** x^32 + x^26 + x^23 + x^22 + x^16 + x^12 + x^11 + x^10 + x^8 + x^7 + x^5 + x^4 + x^2 + x + 1, the generator of
      CRC-32. */
  const GENERATOR :=
    Poly(1 << 0, (1 << 26) | (1 << 23) | (1 << 22) | (1 << 16) | (1 << 12) | (1 << 11) | (1 << 10) | (1 << 8) | (1 << 7)
                 | (1 << 5) | (1 << 4) | (1 << 2) | (1 << 1) | (1 << 0))

  function Bit(b: bool): bv32 {
    if b then 1 else 0
  }

  function Plus(a: Poly, b: Poly): Poly {
    Poly(Xor(a.high, b.high), Xor(a.low, b.low))
  }

  function TimesX(a: Poly): Poly {
    Poly(Xor(Left(a.high), Bit(Top(a.low))), Left(a.low))
  }

  /** Multiplication by the n-th power of x. */
  function TimesPower(a: Poly, n: nat): Poly {
    if n == 0 then a else TimesX(TimesPower(a, n - 1))
  }

  function Scaled(g: Poly, b: bool): Poly {
    if b then g else Poly(0, 0)
  }

  /** The product of a generator and a quotient, whose coefficients are given from the highest down. */
  function Multiple(g: Poly, q: seq<bool>): Poly {
    if q == [] then Poly(0, 0) else Plus(TimesX(Multiple(g, q[..|q| - 1])), Scaled(g, q[|q| - 1]))
  }

  // ----- the word-wise register divides

  lemma {:induction false} XorZero(a: bv32)
    ensures Xor(0, a) == a && Xor(a, 0) == a && Xor(a, a) == 0
  {
  }

  lemma {:induction false} LowIsPolynomial()
    ensures GENERATOR.high == 1 && GENERATOR.low == POLYNOMIAL && Left(0) == 0
  {
  }

  /** One bit of the register subtracts the generator when the degree reaches 32. */
  lemma {:induction false} ShiftReduces(c: bv32)
    ensures TimesX(Poly(0, c)) == Plus(Scaled(GENERATOR, Top(c)), Poly(0, Shift(c)))
  {
    hide Xor, Left, Top;
    LowIsPolynomial();
    XorZero(Bit(Top(c)));
    XorZero(Left(c));
    XorCancels(Left(c), POLYNOMIAL);
    XorCancels(POLYNOMIAL, Xor(Left(c), POLYNOMIAL));
  }

  lemma {:induction false} PlusAssoc(a: Poly, b: Poly, c: Poly)
    ensures Plus(Plus(a, b), c) == Plus(a, Plus(b, c))
  {
    hide Xor;
    XorAssoc(a.high, b.high, c.high);
    XorAssoc(a.low, b.low, c.low);
  }

  lemma {:induction false} BitXor(a: bool, b: bool)
    ensures Bit(a != b) == Xor(Bit(a), Bit(b))
  {
  }

  lemma {:induction false} TimesXAdds(a: Poly, b: Poly)
    ensures TimesX(Plus(a, b)) == Plus(TimesX(a), TimesX(b))
  {
    hide Xor, Left, Top, Bit;
    LeftXor(a.high, b.high);
    LeftXor(a.low, b.low);
    TopXor(a.low, b.low);
    BitXor(Top(a.low), Top(b.low));
    XorSwap(Left(a.high), Left(b.high), Bit(Top(a.low)), Bit(Top(b.low)));
  }

  /** The bits shifted out in n shifts. */
  function Quotient(c: bv32, n: nat): (q: seq<bool>)
    ensures |q| == n
  {
    if n == 0 then [] else Quotient(c, n - 1) + [Top(Shifts(c, n - 1))]
  }

  lemma {:induction false} ShiftsDivide(c: bv32, n: nat)
    ensures TimesPower(Poly(0, c), n) == Plus(Multiple(GENERATOR, Quotient(c, n)), Poly(0, Shifts(c, n)))
  {
    hide Plus, TimesX, Shift, Top, Scaled;
    if n == 0 {
      PlusNothing(Poly(0, c));
    } else {
      ShiftsDivide(c, n - 1);
      var (q, s) := (Quotient(c, n - 1), Shifts(c, n - 1));
      assert Quotient(c, n)[..n - 1] == q;
      ShiftReduces(s);
      TimesXAdds(Multiple(GENERATOR, q), Poly(0, s));
      PlusAssoc(TimesX(Multiple(GENERATOR, q)), Scaled(GENERATOR, Top(s)), Poly(0, Shift(s)));
    }
  }

  lemma {:induction false} PlusNothing(a: Poly)
    ensures Plus(Poly(0, 0), a) == a
  {
    hide Xor;
    XorZero(a.high);
    XorZero(a.low);
  }

  /** A word step is division with remainder: the sum of register and word, times x^32, is a multiple of the generator
      plus the new register. */
  lemma {:induction false} WordCrcIsRemainder(crc: bv32, data: bv32)
    ensures exists q: seq<bool> :: |q| == 32
              && TimesPower(Poly(0, crc ^ data), 32) == Plus(Multiple(GENERATOR, q), Poly(0, WordCrc(crc, data)))
  {
    hide Plus, TimesX, Shifts, Multiple, Quotient, TimesPower;
    var c := Xor(crc, data);
    ShiftsDivide(c, 32);
    assert |Quotient(c, 32)| == 32;
  }

  // ----- mirrored bits

  /** The word with bit i in place of bit 31 - i. */
  function Mirror(d: bv32): bv32 {
    var halves := (d << 16) | (d >> 16);
    var quarters := ((halves & 0x00FF00FF) << 8) | ((halves >> 8) & 0x00FF00FF);
    var nibbles := ((quarters & 0x0F0F0F0F) << 4) | ((quarters >> 4) & 0x0F0F0F0F);
    var pairs := ((nibbles & 0x33333333) << 2) | ((nibbles >> 2) & 0x33333333);
    ((pairs & 0x55555555) << 1) | ((pairs >> 1) & 0x55555555)
  }

  function MirrorByte(b: bv8): bv8 {
    var nibbles := ((b & 0x0F) << 4) | ((b >> 4) & 0x0F);
    var pairs := ((nibbles & 0x33) << 2) | ((nibbles >> 2) & 0x33);
    ((pairs & 0x55) << 1) | ((pairs >> 1) & 0x55)
  }

  lemma {:induction false} MirrorLeft(c: bv32)
    ensures Mirror(c << 1) == Mirror(c) >> 1
  {
  }

  lemma {:induction false} MirrorXor(a: bv32, b: bv32)
    ensures Mirror(Xor(a, b)) == Xor(Mirror(a), Mirror(b))
  {
  }

  lemma {:induction false} MirrorTop(c: bv32)
    ensures Odd(Mirror(c)) == Top(c)
  {
  }

  lemma {:induction false} MirrorConstants()
    ensures Mirror(POLYNOMIAL) == CRC_POLYNOM_32_REV && Mirror(0xffffffff) == 0xffffffff
  {
  }

  // ----- the bits of a word, one after the other

  /** The register that takes the bits of a word singly, the highest first. */
  function Serial(c: bv32, w: bv32): bv32 {
    if Top(c) != Top(w) then Xor(Left(c), POLYNOMIAL) else Left(c)
  }

  function Lefts(w: bv32, n: nat): bv32 {
    if n == 0 then w else Left(Lefts(w, n - 1))
  }

  /** The register after the first n bits of w. */
  function Serials(c: bv32, w: bv32, n: nat): bv32 {
    if n == 0 then c else Serial(Serials(c, w, n - 1), Lefts(w, n - 1))
  }

  /** Adding the whole word first, as Crc32 does, makes no difference once all its bits have been taken. */
  lemma {:induction false} SerialIsShift(s: bv32, u: bv32)
    ensures Serial(Xor(s, u), u) == Xor(Shift(s), Left(u))
  {
    hide Xor, Left, Top;
    TopXor(s, u);
    LeftXor(s, u);
    XorReduce(Left(s), Left(u), POLYNOMIAL);
  }

  lemma {:induction false} SerialsAreShifts(c: bv32, w: bv32, n: nat)
    ensures Serials(c, w, n) == Xor(Shifts(Xor(c, w), n), Lefts(w, n))
  {
    hide Xor, Left, Shift, Serial;
    if n == 0 {
      XorCancels(c, w);
    } else {
      SerialsAreShifts(c, w, n - 1);
      SerialIsShift(Shifts(Xor(c, w), n - 1), Lefts(w, n - 1));
    }
  }

  function LeftByte(w: bv32): bv32 {
    w << 8
  }

  lemma {:induction false} LeftEight(v: bv32)
    ensures Left(Left(Left(Left(Left(Left(Left(Left(v)))))))) == LeftByte(v)
  {
  }

  lemma {:induction false} EightLefts(w: bv32, n: nat)
    ensures Lefts(w, n + 8) == LeftByte(Lefts(w, n))
  {
    LeftEight(Lefts(w, n));
    hide Left, LeftByte;
    assert Lefts(w, n + 4) == Left(Left(Left(Left(Lefts(w, n))))) by {
      assert Lefts(w, n + 2) == Left(Left(Lefts(w, n)));
    }
    assert Lefts(w, n + 6) == Left(Left(Lefts(w, n + 4)));
  }

  lemma {:induction false} FourBytesOut(w: bv32)
    ensures LeftByte(LeftByte(LeftByte(LeftByte(w)))) == 0
  {
  }

  lemma {:induction false} BytesOut(w: bv32)
    ensures Lefts(w, 8) == LeftByte(w) && Lefts(w, 16) == LeftByte(LeftByte(w))
    ensures Lefts(w, 24) == LeftByte(LeftByte(LeftByte(w))) && Lefts(w, 32) == 0
  {
    EightLefts(w, 0);
    assert Lefts(w, 0) == w;
    hide Lefts, Left, LeftByte;
    EightLefts(w, 8);
    EightLefts(w, 16);
    EightLefts(w, 24);
    FourBytesOut(w);
  }

  lemma {:induction false} SerialsAreWord(c: bv32, w: bv32)
    ensures Serials(c, w, 32) == WordCrc(c, w)
  {
    hide Xor, Shifts, Serials, Lefts;
    SerialsAreShifts(c, w, 32);
    BytesOut(w);
    XorZero(Shifts(Xor(c, w), 32));
  }

  // ----- the reflected register

  function TopBit(u: bv32): bv8 {
    if Top(u) then 1 else 0
  }

  function TopByte(u: bv32): bv8 {
    ((u >> 24) & 0xFF) as bv8
  }

  lemma {:induction false} BitStepCases(reg: bv32, u: bv32)
    ensures BitStep(reg, TopBit(u)) == if Odd(reg) != Top(u) then Xor(Right(reg), CRC_POLYNOM_32_REV) else Right(reg)
  {
    hide Top;
  }

  lemma {:induction false} MirrorBitStep(c: bv32, u: bv32)
    ensures BitStep(Mirror(c), TopBit(u)) == Mirror(Serial(c, u))
  {
    BitStepCases(Mirror(c), u);
    MirrorTop(c);
    MirrorIsRight(c);
    MirrorXor(Left(c), POLYNOMIAL);
    MirrorConstants();
    hide Mirror, Xor, Left, Right, Top, Odd, BitStep, TopBit;
  }

  lemma {:induction false} MirrorIsRight(c: bv32)
    ensures Mirror(Left(c)) == Right(Mirror(c))
  {
    MirrorLeft(c);
    hide Mirror;
  }

  lemma {:induction false} LeftsAdd(w: bv32, m: nat, n: nat)
    ensures Lefts(w, m + n) == Lefts(Lefts(w, m), n)
  {
    hide Left;
    if n > 0 {
      LeftsAdd(w, m, n - 1);
    }
  }

  lemma {:induction false} SerialsAdd(c: bv32, w: bv32, m: nat, n: nat)
    ensures Serials(c, w, m + n) == Serials(Serials(c, w, m), Lefts(w, m), n)
  {
    hide Serial, Lefts;
    if n > 0 {
      SerialsAdd(c, w, m, n - 1);
      LeftsAdd(w, m, n - 1);
    }
  }

  lemma {:induction false} NextBitOut(u: bv32, n: nat)
    requires n < 7
    ensures BitAt(MirrorByte(TopByte(u)), n + 1) == BitAt(MirrorByte(TopByte(Left(u))), n)
  {
    var b, d := MirrorByte(TopByte(u)), MirrorByte(TopByte(Left(u)));
    assert (b >> 1) & 0x7F == d & 0x7F;
    ShiftedBits(b, d, n);
  }

  lemma {:induction false} ShiftedBits(b: bv8, d: bv8, n: nat)
    requires n < 7 && (b >> 1) & 0x7F == d & 0x7F
    ensures BitAt(b, n + 1) == BitAt(d, n)
  {
    if n == 0 {
    } else if n == 1 {
    } else if n == 2 {
    } else if n == 3 {
    } else if n == 4 {
    } else if n == 5 {
    } else {
    }
  }

  lemma {:induction false} FirstBitOut(u: bv32)
    ensures BitAt(MirrorByte(TopByte(u)), 0) == TopBit(u)
  {
  }

  /** Bit n of the mirrored top byte is the bit that n shifts bring to the top. */
  lemma {:induction false} BitsOut(u: bv32, n: nat)
    requires n < 8
    ensures BitAt(MirrorByte(TopByte(u)), n) == TopBit(Lefts(u, n))
    decreases n
  {
    hide BitAt, MirrorByte, TopByte, TopBit, Left;
    if n == 0 {
      FirstBitOut(u);
    } else {
      NextBitOut(u, n - 1);
      BitsOut(Left(u), n - 1);
      LeftsAdd(u, 1, n - 1);
      assert Lefts(u, 1) == Left(Lefts(u, 0)) == Left(u);
    }
  }

  lemma {:induction false} ByteMirrors(c: bv32, u: bv32, n: nat)
    requires n <= 8
    ensures BitSteps(Mirror(c), MirrorByte(TopByte(u)), n) == Mirror(Serials(c, u, n))
  {
    hide BitStep, BitAt, Mirror, MirrorByte, TopByte, TopBit, Lefts, Serial;
    if n > 0 {
      ByteMirrors(c, u, n - 1);
      BitsOut(u, n - 1);
      MirrorBitStep(Serials(c, u, n - 1), Lefts(u, n - 1));
    }
  }

  /** The four bytes of a word, most significant first, each mirrored. */
  function MirroredBytes(w: bv32): (b: seq<bv8>)
    ensures |b| == 4
  {
    [MirrorByte(WordBytes(w)[0]), MirrorByte(WordBytes(w)[1]), MirrorByte(WordBytes(w)[2]), MirrorByte(WordBytes(w)[3])]
  }

  lemma {:induction false} BytesOnTop(w: bv32)
    ensures WordBytes(w) == [TopByte(w), TopByte(LeftByte(w)), TopByte(LeftByte(LeftByte(w))),
                             TopByte(LeftByte(LeftByte(LeftByte(w))))]
  {
  }

  lemma {:induction false} FedByByte(reg: bv32, data: seq<bv8>)
    requires |data| == 4
    ensures Fed(reg, data, 4) == BitSteps(BitSteps(BitSteps(BitSteps(reg, data[0], 8), data[1], 8), data[2], 8), data[3], 8)
  {
    hide BitSteps;
    assert Fed(reg, data, 1) == BitSteps(Fed(reg, data, 0), data[0], 8);
    assert Fed(reg, data, 2) == BitSteps(Fed(reg, data, 1), data[1], 8);
    assert Fed(reg, data, 3) == BitSteps(Fed(reg, data, 2), data[2], 8);
  }

  /** The reflected register takes the mirrored bytes of a word to the mirror image of what the word step makes of the
      word. */
  lemma {:induction false} RegistersMirror(c: bv32, w: bv32)
    ensures Fed(Mirror(c), MirroredBytes(w), 4) == Mirror(WordCrc(c, w))
  {
    hide BitSteps, Mirror, MirrorByte, TopByte, Lefts, LeftByte, Serials, WordBytes, WordCrc;
    var (u1, u2) := (LeftByte(w), LeftByte(LeftByte(w)));
    var u3 := LeftByte(u2);
    BytesOnTop(w);
    BytesOut(w);
    FedByByte(Mirror(c), MirroredBytes(w));
    ByteMirrors(c, w, 8);
    ByteMirrors(Serials(c, w, 8), u1, 8);
    SerialsAdd(c, w, 8, 8);
    ByteMirrors(Serials(c, w, 16), u2, 8);
    SerialsAdd(c, w, 16, 8);
    ByteMirrors(Serials(c, w, 24), u3, 8);
    SerialsAdd(c, w, 24, 8);
    SerialsAreWord(c, w);
  }

  // ----- whole records

  /** The bytes of n little-endian words, each word most significant byte first and each byte mirrored. */
  function Mirrored(data: seq<bv8>, n: nat): (b: seq<bv8>)
    requires 4 * n <= |data|
    ensures |b| == 4 * n
  {
    if n == 0 then [] else Mirrored(data, n - 1) + MirroredBytes(WordOf(data, n - 1))
  }

  lemma {:induction false} FedAppends(reg: bv32, a: seq<bv8>, b: seq<bv8>, n: nat)
    requires n <= |b|
    ensures Fed(reg, a + b, |a| + n) == Fed(Fed(reg, a, |a|), b, n)
  {
    hide BitSteps;
    if n == 0 {
      FedPrefix(reg, a, b, |a|);
    } else {
      FedAppends(reg, a, b, n - 1);
    }
  }

  lemma {:induction false} FedPrefix(reg: bv32, a: seq<bv8>, b: seq<bv8>, n: nat)
    requires n <= |a|
    ensures Fed(reg, a + b, n) == Fed(reg, a, n)
  {
    hide BitSteps;
    if n > 0 {
      FedPrefix(reg, a, b, n - 1);
    }
  }

  /** So the CRC of a record is the mirror image of the reflected CRC of its mirrored bytes. */
  lemma {:induction false} CrcsMirror(data: seq<bv8>, n: nat)
    requires 4 * n <= |data|
    ensures Fed(0xffffffff, Mirrored(data, n), 4 * n) == Mirror(CrcOf(data, n))
  {
    hide Mirror, MirroredBytes, WordCrc, BitSteps, WordOf;
    if n == 0 {
      MirrorConstants();
    } else {
      CrcsMirror(data, n - 1);
      var b := MirroredBytes(WordOf(data, n - 1));
      FedAppends(0xffffffff, Mirrored(data, n - 1), b, 4);
      RegistersMirror(CrcOf(data, n - 1), WordOf(data, n - 1));
    }
  }
}
