/** The AES block cipher as FIPS 197 states it: a state of four columns of four bytes, transformed
    byte by byte and column by column. Nothing here knows about tables or 32-bit words. */
module Fips197 {
  import opened Gf256
  import opened Gf256Powers

  // ----- the S-box (section 5.1.1)

  ghost function Log(x: bv8): (i: nat)
    requires x != 0
    ensures i < 255 && Pow3(i) == x
  {
    LogExists(x);
    var i: nat :| i < 255 && Pow3(i) == x;
    i
  }

  /** The multiplicative inverse, with 0 mapped to itself. */
  ghost function Inverse(x: bv8): bv8 {
    if x == 0 then 0 else Pow3(if Log(x) == 0 then 0 else 255 - Log(x))
  }

  lemma {:induction false} MulZero(a: bv8)
    ensures Mul(a, 0) == 0 && Mul(0, a) == 0
  {
  }

  lemma {:induction false} PowWrap(i: nat)
    ensures Pow3(i + 255) == Pow3(i)
  {
    hide *;
    Period(255);
    PowAdd(255, i);
    MulLaws(0, 0, Pow3(i), 0);
  }

  function Complement(l: nat): (c: nat)
    requires l < 255
    ensures c < 255
  {
    if l == 0 then 0 else 255 - l
  }

  lemma {:induction false} InverseWorks(x: bv8)
    requires x != 0
    ensures Inverse(x) == Pow3(Complement(Log(x))) && Inverse(x) != 0 && Mul(x, Inverse(x)) == 1
  {
    hide Pow3, Mul;
    Period(0);
    Period(255);
    PowNonzero(Complement(Log(x)));
    PowAdd(Log(x), Complement(Log(x)));
  }

  /** Inverse(x) is the one y with x * y = 1. */
  lemma {:induction false} InverseIsInverse(x: bv8, y: bv8)
    requires x != 0
    ensures Mul(x, y) == 1 <==> y == Inverse(x)
    ensures Inverse(x) != 0
  {
    hide Pow3, Mul, Inverse;
    InverseWorks(x);
    MulZero(x);
    if Mul(x, y) == 1 {
      PowAdd(Log(x), Log(y));
      InverseUnique(Log(x), Log(y));
    }
  }

  lemma {:induction false} InverseUnique(i: nat, j: nat)
    requires i < 255 && j < 255 && Pow3(i + j) == 1
    ensures j == if i == 0 then 0 else 255 - i
  {
    if i + j <= 255 {
      Period(i + j);
    } else {
      PowWrap(i + j - 255);
      Period(i + j - 255);
    }
  }

  lemma {:induction false} InverseInvolutive(x: bv8)
    ensures Inverse(Inverse(x)) == x
  {
    if x != 0 {
      InverseIsInverse(x, 0);
      var y, e := Inverse(x), if Log(x) == 0 then 0 else 255 - Log(x);
      hide Pow3;
      PowInjective(Log(y), e);
    }
  }

  function Bit(b: bv8, i: nat): bv8
    requires i < 8
  {
    (b >> i) & 1
  }

  /** Bit i of the affine transformation, equation (5.1). */
  function AffineBit(b: bv8, i: nat): bv8
    requires i < 8
  {
    Bit(b, i) ^ Bit(b, (i + 4) % 8) ^ Bit(b, (i + 5) % 8) ^ Bit(b, (i + 6) % 8) ^ Bit(b, (i + 7) % 8) ^ Bit(0x63, i)
  }

  function Affine(b: bv8): bv8 {
    AffineBit(b, 0) | (AffineBit(b, 1) << 1) | (AffineBit(b, 2) << 2) | (AffineBit(b, 3) << 3)
    | (AffineBit(b, 4) << 4) | (AffineBit(b, 5) << 5) | (AffineBit(b, 6) << 6) | (AffineBit(b, 7) << 7)
  }

  function Rotl1(b: bv8): bv8 {
    (b << 1) | (b >> 7)
  }

  function InvAffine(b: bv8): bv8 {
    Rotl1(b) ^ Rotl1(Rotl1(Rotl1(b))) ^ Rotl1(Rotl1(Rotl1(Rotl1(Rotl1(Rotl1(b)))))) ^ 0x05
  }

  /** The affine transformation as a sum of rotations. */
  function RotatedSum(b: bv8): bv8 {
    b ^ Rotl1(b) ^ Rotl1(Rotl1(b)) ^ Rotl1(Rotl1(Rotl1(b))) ^ Rotl1(Rotl1(Rotl1(Rotl1(b)))) ^ 0x63
  }

  lemma {:induction false} BitZero(b: bv8)
    ensures AffineBit(b, 0) == Bit(RotatedSum(b), 0)
  {
  }

  lemma {:induction false} BitOne(b: bv8)
    ensures AffineBit(b, 1) == Bit(RotatedSum(b), 1)
  {
  }

  lemma {:induction false} BitTwo(b: bv8)
    ensures AffineBit(b, 2) == Bit(RotatedSum(b), 2)
  {
  }

  lemma {:induction false} BitThree(b: bv8)
    ensures AffineBit(b, 3) == Bit(RotatedSum(b), 3)
  {
  }

  lemma {:induction false} BitFour(b: bv8)
    ensures AffineBit(b, 4) == Bit(RotatedSum(b), 4)
  {
  }

  lemma {:induction false} BitFive(b: bv8)
    ensures AffineBit(b, 5) == Bit(RotatedSum(b), 5)
  {
  }

  lemma {:induction false} BitSix(b: bv8)
    ensures AffineBit(b, 6) == Bit(RotatedSum(b), 6)
  {
  }

  lemma {:induction false} BitSeven(b: bv8)
    ensures AffineBit(b, 7) == Bit(RotatedSum(b), 7)
  {
  }

  lemma {:induction false} EightBits(c: bv8)
    ensures Bit(c, 0) | (Bit(c, 1) << 1) | (Bit(c, 2) << 2) | (Bit(c, 3) << 3)
            | (Bit(c, 4) << 4) | (Bit(c, 5) << 5) | (Bit(c, 6) << 6) | (Bit(c, 7) << 7) == c
  {
  }

  lemma {:induction false} AffineRotates(b: bv8)
    ensures Affine(b) == RotatedSum(b)
  {
    hide AffineBit, Bit, RotatedSum;
    EightBits(RotatedSum(b));
    BitZero(b);
    BitOne(b);
    BitTwo(b);
    BitThree(b);
    BitFour(b);
    BitFive(b);
    BitSix(b);
    BitSeven(b);
  }

  lemma {:induction false} AffineInverts(b: bv8)
    ensures InvAffine(RotatedSum(b)) == b && RotatedSum(InvAffine(b)) == b
  {
  }

  ghost function SBox(x: bv8): bv8 {
    Affine(Inverse(x))
  }

  ghost function InvSBox(y: bv8): bv8 {
    Inverse(InvAffine(y))
  }

  lemma {:induction false} SBoxInverts(x: bv8)
    ensures InvSBox(SBox(x)) == x && SBox(InvSBox(x)) == x
  {
    hide Affine, InvAffine, RotatedSum, Inverse;
    AffineRotates(Inverse(x));
    AffineInverts(Inverse(x));
    InverseInvolutive(x);
    AffineRotates(Inverse(Inverse(InvAffine(x))));
    InverseInvolutive(InvAffine(x));
    AffineInverts(x);
  }

  // ----- the state and its transformations (sections 5.1 and 5.3)

  datatype Column = Column(b0: bv8, b1: bv8, b2: bv8, b3: bv8)

  datatype State = State(c0: Column, c1: Column, c2: Column, c3: Column)

  function AddColumn(a: Column, b: Column): Column {
    Column(Add(a.b0, b.b0), Add(a.b1, b.b1), Add(a.b2, b.b2), Add(a.b3, b.b3))
  }

  function AddState(s: State, k: State): State {
    State(AddColumn(s.c0, k.c0), AddColumn(s.c1, k.c1), AddColumn(s.c2, k.c2), AddColumn(s.c3, k.c3))
  }

  ghost function SubColumn(c: Column): Column {
    Column(SBox(c.b0), SBox(c.b1), SBox(c.b2), SBox(c.b3))
  }

  ghost function SubBytes(s: State): State {
    State(SubColumn(s.c0), SubColumn(s.c1), SubColumn(s.c2), SubColumn(s.c3))
  }

  ghost function InvSubColumn(c: Column): Column {
    Column(InvSBox(c.b0), InvSBox(c.b1), InvSBox(c.b2), InvSBox(c.b3))
  }

  ghost function InvSubBytes(s: State): State {
    State(InvSubColumn(s.c0), InvSubColumn(s.c1), InvSubColumn(s.c2), InvSubColumn(s.c3))
  }

  /** Row r moves r places to the left. */
  function ShiftRows(s: State): State {
    State(Column(s.c0.b0, s.c1.b1, s.c2.b2, s.c3.b3), Column(s.c1.b0, s.c2.b1, s.c3.b2, s.c0.b3),
          Column(s.c2.b0, s.c3.b1, s.c0.b2, s.c1.b3), Column(s.c3.b0, s.c0.b1, s.c1.b2, s.c2.b3))
  }

  function InvShiftRows(s: State): State {
    State(Column(s.c0.b0, s.c3.b1, s.c2.b2, s.c1.b3), Column(s.c1.b0, s.c0.b1, s.c3.b2, s.c2.b3),
          Column(s.c2.b0, s.c1.b1, s.c0.b2, s.c3.b3), Column(s.c3.b0, s.c2.b1, s.c1.b2, s.c0.b3))
  }

  /** One row of a matrix times a column. */
  function Dot(k0: bv8, k1: bv8, k2: bv8, k3: bv8, c: Column): bv8 {
    Add(Add(Mul(k0, c.b0), Mul(k1, c.b1)), Add(Mul(k2, c.b2), Mul(k3, c.b3)))
  }

  function MixColumn(c: Column): Column {
    Column(Dot(2, 3, 1, 1, c), Dot(1, 2, 3, 1, c), Dot(1, 1, 2, 3, c), Dot(3, 1, 1, 2, c))
  }

  function InvMixColumn(c: Column): Column {
    Column(Dot(14, 11, 13, 9, c), Dot(9, 14, 11, 13, c), Dot(13, 9, 14, 11, c), Dot(11, 13, 9, 14, c))
  }

  function MixColumns(s: State): State {
    State(MixColumn(s.c0), MixColumn(s.c1), MixColumn(s.c2), MixColumn(s.c3))
  }

  function InvMixColumns(s: State): State {
    State(InvMixColumn(s.c0), InvMixColumn(s.c1), InvMixColumn(s.c2), InvMixColumn(s.c3))
  }

  // ----- key expansion (section 5.2)

  function RotWord(w: Column): Column {
    Column(w.b1, w.b2, w.b3, w.b0)
  }

  /** The round constant x^(i-1), for i at least 1. */
  function Rcon(i: nat): bv8 {
    if i <= 1 then 1 else Xtime(Rcon(i - 1))
  }

  /** Word i of the expansion of a key of nk words. */
  ghost function KeyWord(key: seq<Column>, i: nat): Column
    requires |key| > 0
  {
    var nk := |key|;
    if i < nk then key[i] else
      var temp := KeyWord(key, i - 1);
      var t := if i % nk == 0 then AddColumn(SubColumn(RotWord(temp)), Column(Rcon(i / nk), 0, 0, 0))
               else if nk > 6 && i % nk == 4 then SubColumn(temp)
               else temp;
      AddColumn(KeyWord(key, i - nk), t)
  }

  ghost function RoundKey(key: seq<Column>, r: nat): State
    requires |key| > 0
  {
    State(KeyWord(key, 4 * r), KeyWord(key, 4 * r + 1), KeyWord(key, 4 * r + 2), KeyWord(key, 4 * r + 3))
  }

  // ----- the cipher (section 5.1) and the inverse cipher (section 5.3)

  /** The state after r full rounds. */
  ghost function Rounds(key: seq<Column>, s: State, r: nat): State
    requires |key| > 0
  {
    if r == 0 then AddState(s, RoundKey(key, 0))
    else AddState(MixColumns(ShiftRows(SubBytes(Rounds(key, s, r - 1)))), RoundKey(key, r))
  }

  /** A key of nk words uses nk + 6 rounds. */
  ghost function Cipher(key: seq<Column>, s: State): State
    requires |key| > 0
  {
    var nr := |key| + 6;
    AddState(ShiftRows(SubBytes(Rounds(key, s, nr - 1))), RoundKey(key, nr))
  }

  /** The state after k inverse rounds. */
  ghost function InvRounds(key: seq<Column>, s: State, k: nat): State
    requires |key| > 0 && k <= |key| + 6
  {
    var nr := |key| + 6;
    if k == 0 then AddState(s, RoundKey(key, nr))
    else InvMixColumns(AddState(InvSubBytes(InvShiftRows(InvRounds(key, s, k - 1))), RoundKey(key, nr - k)))
  }

  ghost function InvCipher(key: seq<Column>, s: State): State
    requires |key| > 0
  {
    AddState(InvSubBytes(InvShiftRows(InvRounds(key, s, |key| + 5))), RoundKey(key, 0))
  }

  // ----- each transformation undoes its inverse

  lemma {:induction false} AddStateTwice(s: State, k: State)
    ensures AddState(AddState(s, k), k) == s
  {
    AddColumnTwice(s.c0, k.c0);
    AddColumnTwice(s.c1, k.c1);
    AddColumnTwice(s.c2, k.c2);
    AddColumnTwice(s.c3, k.c3);
  }

  lemma {:induction false} AddColumnTwice(a: Column, b: Column)
    ensures AddColumn(AddColumn(a, b), b) == a
  {
  }

  lemma {:induction false} SubBytesInverts(s: State)
    ensures InvSubBytes(SubBytes(s)) == s && SubBytes(InvSubBytes(s)) == s
  {
    hide SBox, InvSBox;
    SubColumnInverts(s.c0);
    SubColumnInverts(s.c1);
    SubColumnInverts(s.c2);
    SubColumnInverts(s.c3);
  }

  lemma {:induction false} SubColumnInverts(c: Column)
    ensures InvSubColumn(SubColumn(c)) == c && SubColumn(InvSubColumn(c)) == c
  {
    hide SBox, InvSBox;
    SBoxInverts(c.b0);
    SBoxInverts(c.b1);
    SBoxInverts(c.b2);
    SBoxInverts(c.b3);
  }

  lemma {:induction false} MulMix(s: bv8)
    ensures Mul(1, s) == s && Mul(2, s) == Xtime(s) && Mul(3, s) == Add(Xtime(s), s)
  {
    assert Xtime(1) == 2 && Add(2, 1) == 3;
    hide *;
    MulLaws(1, 1, s, s);
    MulLaws(2, 1, s, s);
  }

  /** Products with the coefficients of the two matrices, written with Xtime. */
  lemma {:induction false} MulSmall(s: bv8)
    ensures Mul(1, s) == s && Mul(2, s) == Xtime(s) && Mul(3, s) == Add(Xtime(s), s)
    ensures Mul(9, s) == Add(Xtime(Xtime(Xtime(s))), s)
    ensures Mul(11, s) == Add(Xtime(Xtime(Xtime(s))), Add(Xtime(s), s))
    ensures Mul(13, s) == Add(Add(Xtime(Xtime(Xtime(s))), Xtime(Xtime(s))), s)
    ensures Mul(14, s) == Add(Add(Xtime(Xtime(Xtime(s))), Xtime(Xtime(s))), Xtime(s))
  {
    assert Xtime(1) == 2 && Xtime(2) == 4 && Xtime(4) == 8;
    assert Add(2, 1) == 3 && Add(8, 1) == 9 && Add(8, 3) == 11 && Add(8, 4) == 12 && Add(12, 1) == 13 && Add(12, 2) == 14;
    hide *;
    MulLaws(1, 1, s, s);
    MulLaws(2, 1, s, s);
    MulLaws(4, 1, s, s);
    MulLaws(8, 1, s, s);
    MulLaws(8, 3, s, s);
    MulLaws(8, 4, s, s);
    MulLaws(12, 1, s, s);
    MulLaws(12, 2, s, s);
  }

  /** The first column of the product of the two matrices, taken in both orders. */
  lemma {:induction false} MatrixProduct(s: bv8)
    ensures InvMixColumn(Column(Mul(2, s), s, s, Mul(3, s))) == Column(s, 0, 0, 0)
  {
    MulSmall(s);
    MulSmall(Mul(2, s));
    MulSmall(Mul(3, s));
    hide Mul;
  }

  lemma {:induction false} MatrixProductReversed(s: bv8)
    ensures MixColumn(Column(Mul(14, s), Mul(9, s), Mul(13, s), Mul(11, s))) == Column(s, 0, 0, 0)
  {
    MulSmall(s);
    MulMix(Mul(14, s));
    MulMix(Mul(9, s));
    MulMix(Mul(13, s));
    MulMix(Mul(11, s));
    hide Mul;
  }

  lemma {:induction false} AddRotate(a: bv8, b: bv8, c: bv8, d: bv8)
    ensures Add(Add(a, b), Add(c, d)) == Add(Add(b, c), Add(d, a))
  {
    hide Add;
    AddAssoc(a, b, Add(c, d));
    AddLaws(a, Add(b, Add(c, d)));
    AddAssoc(b, c, d);
    AddAssoc(Add(b, c), d, a);
  }

  lemma {:induction false} DotRotate(k0: bv8, k1: bv8, k2: bv8, k3: bv8, c: Column)
    ensures Dot(k0, k1, k2, k3, c) == Dot(k1, k2, k3, k0, RotWord(c))
  {
    hide Add, Mul;
    AddRotate(Mul(k0, c.b0), Mul(k1, c.b1), Mul(k2, c.b2), Mul(k3, c.b3));
  }

  /** The matrices are circulant, so rotating a column commutes with them. */
  lemma {:induction false} MixRotate(c: Column)
    ensures MixColumn(RotWord(c)) == RotWord(MixColumn(c))
    ensures InvMixColumn(RotWord(c)) == RotWord(InvMixColumn(c))
  {
    hide Dot;
    DotRotate(2, 3, 1, 1, c);
    DotRotate(1, 2, 3, 1, c);
    DotRotate(1, 1, 2, 3, c);
    DotRotate(3, 1, 1, 2, c);
    DotRotate(14, 11, 13, 9, c);
    DotRotate(9, 14, 11, 13, c);
    DotRotate(13, 9, 14, 11, c);
    DotRotate(11, 13, 9, 14, c);
  }

  lemma {:induction false} DotAdd(k0: bv8, k1: bv8, k2: bv8, k3: bv8, a: Column, b: Column)
    ensures Dot(k0, k1, k2, k3, AddColumn(a, b)) == Add(Dot(k0, k1, k2, k3, a), Dot(k0, k1, k2, k3, b))
  {
    hide Add, Mul;
    MulLaws(k0, k0, a.b0, b.b0);
    MulLaws(k1, k1, a.b1, b.b1);
    MulLaws(k2, k2, a.b2, b.b2);
    MulLaws(k3, k3, a.b3, b.b3);
    var a0, a1, a2, a3 := Mul(k0, a.b0), Mul(k1, a.b1), Mul(k2, a.b2), Mul(k3, a.b3);
    var b0, b1, b2, b3 := Mul(k0, b.b0), Mul(k1, b.b1), Mul(k2, b.b2), Mul(k3, b.b3);
    AddSwap(a0, b0, a1, b1);
    AddSwap(a2, b2, a3, b3);
    AddSwap(Add(a0, a1), Add(b0, b1), Add(a2, a3), Add(b2, b3));
  }

  /** Both mixing transformations are additive; the equivalent inverse cipher rests on this. */
  lemma {:induction false} MixAdd(a: Column, b: Column)
    ensures MixColumn(AddColumn(a, b)) == AddColumn(MixColumn(a), MixColumn(b))
    ensures InvMixColumn(AddColumn(a, b)) == AddColumn(InvMixColumn(a), InvMixColumn(b))
  {
    hide Add, Dot;
    DotAdd(2, 3, 1, 1, a, b);
    DotAdd(1, 2, 3, 1, a, b);
    DotAdd(1, 1, 2, 3, a, b);
    DotAdd(3, 1, 1, 2, a, b);
    DotAdd(14, 11, 13, 9, a, b);
    DotAdd(9, 14, 11, 13, a, b);
    DotAdd(13, 9, 14, 11, a, b);
    DotAdd(11, 13, 9, 14, a, b);
  }

  predicate MixInvertsAt(c: Column) {
    InvMixColumn(MixColumn(c)) == c && MixColumn(InvMixColumn(c)) == c
  }

  lemma {:induction false} MixFirst(s: bv8)
    ensures MixColumn(Column(s, 0, 0, 0)) == Column(Mul(2, s), s, s, Mul(3, s))
    ensures InvMixColumn(Column(s, 0, 0, 0)) == Column(Mul(14, s), Mul(9, s), Mul(13, s), Mul(11, s))
  {
    MulSmall(s);
    MulZero(1);
    MulZero(2);
    MulZero(3);
    MulZero(9);
    MulZero(11);
    MulZero(13);
    MulZero(14);
    hide Mul;
  }

  lemma {:induction false} MixUnit(s: bv8)
    ensures MixInvertsAt(Column(s, 0, 0, 0)) && MixInvertsAt(Column(0, s, 0, 0))
    ensures MixInvertsAt(Column(0, 0, s, 0)) && MixInvertsAt(Column(0, 0, 0, s))
  {
    hide MixColumn, InvMixColumn, Mul;
    MixFirst(s);
    MatrixProduct(s);
    MatrixProductReversed(s);
    MixInvertsRotated(Column(s, 0, 0, 0));
    MixInvertsRotated(Column(0, 0, 0, s));
    MixInvertsRotated(Column(0, 0, s, 0));
  }

  lemma {:induction false} MixInvertsRotated(c: Column)
    requires MixInvertsAt(c)
    ensures MixInvertsAt(RotWord(c))
  {
    hide MixColumn, InvMixColumn;
    MixRotate(c);
    MixRotate(MixColumn(c));
    MixRotate(InvMixColumn(c));
  }

  lemma {:induction false} MixInvertsSum(a: Column, b: Column)
    requires MixInvertsAt(a) && MixInvertsAt(b)
    ensures MixInvertsAt(AddColumn(a, b))
  {
    hide MixColumn, InvMixColumn, AddColumn;
    MixAdd(a, b);
    MixAdd(MixColumn(a), MixColumn(b));
    MixAdd(InvMixColumn(a), InvMixColumn(b));
  }

  lemma {:induction false} MixInverts(c: Column)
    ensures InvMixColumn(MixColumn(c)) == c && MixColumn(InvMixColumn(c)) == c
  {
    var e0, e1, e2, e3 := Column(c.b0, 0, 0, 0), Column(0, c.b1, 0, 0), Column(0, 0, c.b2, 0), Column(0, 0, 0, c.b3);
    assert c == AddColumn(AddColumn(e0, e1), AddColumn(e2, e3));
    hide MixColumn, InvMixColumn, AddColumn;
    MixUnit(c.b0);
    MixUnit(c.b1);
    MixUnit(c.b2);
    MixUnit(c.b3);
    MixInvertsSum(e0, e1);
    MixInvertsSum(e2, e3);
    MixInvertsSum(AddColumn(e0, e1), AddColumn(e2, e3));
  }

  lemma {:induction false} MixColumnsInverts(s: State)
    ensures InvMixColumns(MixColumns(s)) == s && MixColumns(InvMixColumns(s)) == s
  {
    hide MixColumn, InvMixColumn;
    MixInverts(s.c0);
    MixInverts(s.c1);
    MixInverts(s.c2);
    MixInverts(s.c3);
  }

  // ----- the inverse cipher undoes the cipher, and the cipher undoes the inverse cipher

  lemma {:induction false} InvRoundsUndo(key: seq<Column>, s: State, k: nat)
    requires |key| > 0 && k <= |key| + 5
    ensures InvRounds(key, Cipher(key, s), k) == ShiftRows(SubBytes(Rounds(key, s, |key| + 5 - k)))
  {
    hide AddState, SubBytes, InvSubBytes, MixColumns, InvMixColumns, RoundKey;
    var nr := |key| + 6;
    if k == 0 {
      AddStateTwice(ShiftRows(SubBytes(Rounds(key, s, nr - 1))), RoundKey(key, nr));
    } else {
      InvRoundsUndo(key, s, k - 1);
      var r := nr - k;
      SubBytesInverts(Rounds(key, s, r));
      AddStateTwice(MixColumns(ShiftRows(SubBytes(Rounds(key, s, r - 1)))), RoundKey(key, r));
      MixColumnsInverts(ShiftRows(SubBytes(Rounds(key, s, r - 1))));
    }
  }

  lemma {:induction false} InvCipherUndoesCipher(key: seq<Column>, s: State)
    requires |key| > 0
    ensures InvCipher(key, Cipher(key, s)) == s
  {
    hide AddState, SubBytes, InvSubBytes, MixColumns, InvMixColumns, RoundKey, Cipher;
    InvRoundsUndo(key, s, |key| + 5);
    SubBytesInverts(Rounds(key, s, 0));
    AddStateTwice(s, RoundKey(key, 0));
  }

  lemma {:induction false} RoundsUndo(key: seq<Column>, s: State, r: nat)
    requires |key| > 0 && r <= |key| + 5
    ensures Rounds(key, InvCipher(key, s), r) == InvSubBytes(InvShiftRows(InvRounds(key, s, |key| + 5 - r)))
  {
    hide AddState, SubBytes, InvSubBytes, MixColumns, InvMixColumns, RoundKey;
    var nr := |key| + 6;
    if r == 0 {
      AddStateTwice(InvSubBytes(InvShiftRows(InvRounds(key, s, nr - 1))), RoundKey(key, 0));
    } else {
      RoundsUndo(key, s, r - 1);
      var k := nr - r;
      var t := InvSubBytes(InvShiftRows(InvRounds(key, s, k - 1)));
      SubBytesInverts(InvShiftRows(InvRounds(key, s, k)));
      MixColumnsInverts(AddState(t, RoundKey(key, r)));
      AddStateTwice(t, RoundKey(key, r));
    }
  }

  lemma {:induction false} CipherUndoesInvCipher(key: seq<Column>, s: State)
    requires |key| > 0
    ensures Cipher(key, InvCipher(key, s)) == s
  {
    hide AddState, SubBytes, InvSubBytes, MixColumns, InvMixColumns, RoundKey, InvCipher;
    var nr := |key| + 6;
    RoundsUndo(key, s, nr - 1);
    SubBytesInverts(InvShiftRows(InvRounds(key, s, 0)));
    AddStateTwice(s, RoundKey(key, nr));
  }
}
