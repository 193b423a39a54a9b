/** The field GF(2^8) of section 4 of FIPS 197, and the generator 3 of its multiplicative group. */
module Gf256 {

  /** Addition (section 4.1). */
  function Add(a: bv8, b: bv8): bv8 {
    a ^ b
  }

  /** Multiplication by x (section 4.2.1): a left shift, corrected by 0x1B when bit 7 falls out. */
  function Xtime(x: bv8): bv8 {
    (x << 1) ^ ((x >> 7) * 0x1B)
  }

  /** b_0 * a, where b_0 is the lowest bit of b. */
  function Scale(a: bv8, b: bv8): bv8 {
    if b & 1 == 0 then 0 else a
  }

  /** The sum of b_i * a * x^i over the lowest n bits b_i of b, by Horner's rule. */
  function MulBits(a: bv8, b: bv8, n: nat): bv8
    decreases n
  {
    if n == 0 then 0 else Add(Scale(a, b), Xtime(MulBits(a, b >> 1, n - 1)))
  }

  /** Multiplication (section 4.2). */
  function Mul(a: bv8, b: bv8): bv8 {
    MulBits(a, b, 8)
  }

  // ----- addition

  lemma {:induction false} AddLaws(a: bv8, b: bv8)
    ensures Add(a, b) == Add(b, a)
    ensures Add(a, 0) == a && Add(a, a) == 0
  {
  }

  lemma {:induction false} AddAssoc(a: bv8, b: bv8, c: bv8)
    ensures Add(Add(a, b), c) == Add(a, Add(b, c))
  {
  }

  lemma {:induction false} AddSwap(a: bv8, b: bv8, c: bv8, d: bv8)
    ensures Add(Add(a, b), Add(c, d)) == Add(Add(a, c), Add(b, d))
  {
    hide Add;
    AddAssoc(a, b, Add(c, d));
    AddAssoc(b, c, d);
    AddLaws(b, c);
    AddAssoc(c, b, d);
    AddAssoc(a, c, Add(b, d));
  }

  // ----- linearity of the product in both arguments

  lemma {:induction false} XtimeAdd(a: bv8, c: bv8)
    ensures Xtime(Add(a, c)) == Add(Xtime(a), Xtime(c))
  {
  }

  lemma {:induction false} ScaleAdd(a: bv8, c: bv8, b: bv8)
    ensures Scale(Add(a, c), b) == Add(Scale(a, b), Scale(c, b))
    ensures Scale(Xtime(a), b) == Xtime(Scale(a, b))
  {
  }

  lemma {:induction false} ScaleAddRight(a: bv8, b: bv8, d: bv8)
    ensures Scale(a, Add(b, d)) == Add(Scale(a, b), Scale(a, d))
    ensures Add(b, d) >> 1 == Add(b >> 1, d >> 1)
  {
  }

  lemma {:induction false} MulBitsAddLeft(a: bv8, c: bv8, b: bv8, n: nat)
    ensures MulBits(Add(a, c), b, n) == Add(MulBits(a, b, n), MulBits(c, b, n))
    decreases n
  {
    if n == 0 {
    } else {
      var p, q := MulBits(a, b >> 1, n - 1), MulBits(c, b >> 1, n - 1);
      ScaleAdd(a, c, b);
      XtimeAdd(p, q);
      hide Add, Xtime, Scale;
      MulBitsAddLeft(a, c, b >> 1, n - 1);
      AddSwap(Scale(a, b), Scale(c, b), Xtime(p), Xtime(q));
    }
  }

  lemma {:induction false} MulBitsAddRight(a: bv8, b: bv8, d: bv8, n: nat)
    ensures MulBits(a, Add(b, d), n) == Add(MulBits(a, b, n), MulBits(a, d, n))
    decreases n
  {
    if n == 0 {
    } else {
      var p, q := MulBits(a, b >> 1, n - 1), MulBits(a, d >> 1, n - 1);
      ScaleAddRight(a, b, d);
      XtimeAdd(p, q);
      hide Add, Xtime, Scale;
      MulBitsAddRight(a, b >> 1, d >> 1, n - 1);
      AddSwap(Scale(a, b), Scale(a, d), Xtime(p), Xtime(q));
    }
  }

  lemma {:induction false} MulBitsXtime(a: bv8, b: bv8, n: nat)
    ensures MulBits(Xtime(a), b, n) == Xtime(MulBits(a, b, n))
    decreases n
  {
    if n == 0 {
    } else {
      ScaleAdd(a, a, b);
      XtimeAdd(Scale(a, b), Xtime(MulBits(a, b >> 1, n - 1)));
      hide Add, Xtime, Scale;
      MulBitsXtime(a, b >> 1, n - 1);
    }
  }

  /** True when only the lowest n bits of b may be set. */
  predicate Fits(b: bv8, n: nat)
    decreases n
  {
    if n == 0 then b == 0 else Fits(b >> 1, n - 1)
  }

  lemma {:induction false} MulBitsOne(b: bv8, n: nat)
    requires n <= 8 && Fits(b, n)
    ensures MulBits(1, b, n) == b
    decreases n
  {
    if n == 0 {
    } else {
      MulBitsOne(b >> 1, n - 1);
      assert Add(Scale(1, b), Xtime(b >> 1)) == b;
    }
  }

  lemma {:induction false} AllFit(b: bv8)
    ensures Fits(b, 8)
  {
  }

  /** The product is bilinear, 1 is its unit, and it commutes with multiplication by x. */
  lemma {:induction false} MulLaws(a: bv8, c: bv8, b: bv8, d: bv8)
    ensures Mul(Add(a, c), b) == Add(Mul(a, b), Mul(c, b))
    ensures Mul(a, Add(b, d)) == Add(Mul(a, b), Mul(a, d))
    ensures Mul(Xtime(a), b) == Xtime(Mul(a, b))
    ensures Mul(1, b) == b
  {
    hide Add, Xtime, Scale, MulBits, Fits;
    MulBitsAddLeft(a, c, b, 8);
    MulBitsAddRight(a, b, d, 8);
    MulBitsXtime(a, b, 8);
    AllFit(b);
    MulBitsOne(b, 8);
  }
}
