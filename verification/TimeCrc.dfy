/** What the CRC of a stored time computes, and which damage it notices. */
module TimeCrc {
  import opened Crc
  import opened CrcPolynomial
  import opened FlashMemory
  import opened TimeLog

  /** x^24 times x^8 + x^5 + x^4 + 1: the generator, where the highest eight bits of a word meet it. */
  const TIME_GENERATOR := Poly(1 << 0, (1 << 29) | (1 << 28) | (1 << 24))

  lemma {:induction false} StepCases(v: bv32)
    ensures CrcStep(v) == if Top(v) then Xor(Left(v), TIME_GENERATOR.low) else Left(v)
    ensures TIME_GENERATOR.high == 1 && Left(0) == 0
  {
  }

  // ----- division with remainder

  lemma {:induction false} StepReduces(v: bv32)
    ensures TimesX(Poly(0, v)) == Plus(Scaled(TIME_GENERATOR, Top(v)), Poly(0, CrcStep(v)))
  {
    StepCases(v);
    XorZero(Bit(Top(v)));
    XorZero(Left(v));
    hide Xor, Left, Top, CrcStep, TIME_GENERATOR;
    XorCancels(Left(v), TIME_GENERATOR.low);
    XorCancels(TIME_GENERATOR.low, Xor(Left(v), TIME_GENERATOR.low));
  }

  function TimeQuotient(v: bv32, n: nat): (q: seq<bool>)
    ensures |q| == n
  {
    if n == 0 then [] else TimeQuotient(v, n - 1) + [Top(CrcSteps(v, n - 1))]
  }

  lemma {:induction false} StepsDivide(v: bv32, n: nat)
    ensures TimesPower(Poly(0, v), n) == Plus(Multiple(TIME_GENERATOR, TimeQuotient(v, n)), Poly(0, CrcSteps(v, n)))
  {
    hide Plus, TimesX, CrcStep, Top, Scaled;
    if n == 0 {
      PlusNothing(Poly(0, v));
    } else {
      StepsDivide(v, n - 1);
      var (q, s) := (TimeQuotient(v, n - 1), CrcSteps(v, n - 1));
      assert TimeQuotient(v, n)[..n - 1] == q;
      StepReduces(s);
      TimesXAdds(Multiple(TIME_GENERATOR, q), Poly(0, s));
      PlusAssoc(TimesX(Multiple(TIME_GENERATOR, q)), Scaled(TIME_GENERATOR, Top(s)), Poly(0, CrcStep(s)));
    }
  }

  // ----- only the highest byte is left

  predicate TopOnly(v: bv32) {
    v & 0xffffff == 0
  }

  lemma {:induction false} StepDiffers(c: bv32, l: bv32)
    requires TopOnly(Xor(c, l))
    ensures TopOnly(Xor(CrcStep(c), Left(l)))
  {
    StepCases(c);
    LeftXor(c, l);
    TopOnlyLeft(Xor(c, l));
    XorReduce(Left(c), Left(l), TIME_GENERATOR.low);
    hide Xor, Left, Top, CrcStep, TopOnly, TIME_GENERATOR;
  }

  lemma {:induction false} TopOnlyLeft(x: bv32)
    requires TopOnly(x)
    ensures TopOnly(Left(x)) && TopOnly(Xor(Left(x), TIME_GENERATOR.low))
  {
  }

  lemma {:induction false} StepsDiffer(v: bv32, n: nat)
    ensures TopOnly(Xor(CrcSteps(v, n), Lefts(v, n)))
  {
    hide CrcStep, Left, TopOnly, Xor;
    if n == 0 {
      XorZero(v);
      assert TopOnly(0) by {
        ZeroIsTopOnly();
      }
    } else {
      StepsDiffer(v, n - 1);
      StepDiffers(CrcSteps(v, n - 1), Lefts(v, n - 1));
    }
  }

  lemma {:induction false} ZeroIsTopOnly()
    ensures TopOnly(0)
  {
  }

  lemma {:induction false} ThreeBytesOut(v: bv32)
    ensures TopOnly(LeftByte(LeftByte(LeftByte(v))))
  {
  }

  lemma {:induction false} TopOnlyXor(a: bv32, b: bv32)
    requires TopOnly(Xor(a, b)) && TopOnly(b)
    ensures TopOnly(a)
  {
  }

  lemma {:induction false} RemainderIsByte(v: bv32)
    ensures TopOnly(CrcSteps(v, 24))
  {
    hide CrcSteps, Lefts, LeftByte, TopOnly, Xor;
    StepsDiffer(v, 24);
    BytesOut(v);
    ThreeBytesOut(v);
    TopOnlyXor(CrcSteps(v, 24), Lefts(v, 24));
  }

  /** The stored word is the time times x^8 plus the remainder of that modulo x^8 + x^5 + x^4 + 1; here both carry a
      factor x^24. */
  lemma {:induction false} TimeCrcIsRemainder(t: bv32)
    ensures exists q: seq<bool> :: |q| == 24
              && TimesPower(Poly(0, t << 8), 24) == Plus(Multiple(TIME_GENERATOR, q), Poly(0, (Encoded(t) & 0xff) << 24))
  {
    hide Plus, TimesX, CrcSteps, Multiple, TimeQuotient, TimesPower;
    var c := CrcSteps(Above(t), 24);
    StepsDivide(Above(t), 24);
    RemainderIsByte(Above(t));
    LowByte(t, c);
    assert |TimeQuotient(Above(t), 24)| == 24;
  }

  lemma {:induction false} LowByte(t: bv32, c: bv32)
    requires TopOnly(c)
    ensures (Join24(t, c) & 0xff) << 24 == c
  {
  }

  // ----- damage

  /** The check of get_time_value: encoding the minutes of the word again gives the word. */
  predicate Passes(e: bv32) {
    Encoded(Minutes(e)) == e
  }

  lemma {:induction false} StepAdds(a: bv32, b: bv32)
    ensures CrcStep(Xor(a, b)) == Xor(CrcStep(a), CrcStep(b))
  {
    StepCases(a);
    StepCases(b);
    StepCases(Xor(a, b));
    LeftXor(a, b);
    TopXor(a, b);
    XorReduce(Left(a), Left(b), TIME_GENERATOR.low);
    hide Xor, Left, Top, CrcStep, TIME_GENERATOR;
  }

  lemma {:induction false} StepsAdd(a: bv32, b: bv32, n: nat)
    ensures CrcSteps(Xor(a, b), n) == Xor(CrcSteps(a, n), CrcSteps(b, n))
  {
    hide CrcStep, Xor;
    if n > 0 {
      StepsAdd(a, b, n - 1);
      StepAdds(CrcSteps(a, n - 1), CrcSteps(b, n - 1));
    }
  }

  lemma {:induction false} StepsJoin(v: bv32, m: nat, n: nat)
    ensures CrcSteps(v, m + n) == CrcSteps(CrcSteps(v, m), n)
  {
    hide CrcStep;
    if n > 0 {
      StepsJoin(v, m, n - 1);
    }
  }

  /** Eight more shifts of a word with an empty top byte bring no bit to the top. */
  lemma {:induction false} EmptyByteOut(u: bv32, m: nat)
    requires TopByte(u) == 0 && m < 8
    ensures !Top(Lefts(u, m))
  {
    hide Lefts, BitAt, MirrorByte, TopByte, Top;
    BitsOut(u, m);
    NoBits(m);
  }

  /** The bits of a byte have not reached the top after fewer than 24 shifts. */
  lemma {:induction false} NotYetTop(p: bv32, k: nat)
    requires p < 256 && k < 24
    ensures !Top(Lefts(p, k))
  {
    hide Lefts, LeftByte, TopByte, Top;
    BytesOut(p);
    NoTopByte(p);
    if k < 8 {
      EmptyByteOut(p, k);
    } else if k < 16 {
      EmptyByteOut(LeftByte(p), k - 8);
      LeftsAdd(p, 8, k - 8);
    } else {
      EmptyByteOut(LeftByte(LeftByte(p)), k - 16);
      LeftsAdd(p, 16, k - 16);
    }
  }

  lemma {:induction false} NoTopByte(p: bv32)
    requires p < 256
    ensures TopByte(p) == 0 && TopByte(LeftByte(p)) == 0 && TopByte(LeftByte(LeftByte(p))) == 0
  {
  }

  lemma {:induction false} NoBits(m: nat)
    requires m < 8
    ensures BitAt(MirrorByte(0), m) == 0
  {
  }

  lemma {:induction false} OnlyShifted(p: bv32, k: nat)
    requires p < 256 && k <= 24
    ensures CrcSteps(p, k) == Lefts(p, k)
  {
    hide CrcStep, Left, Top;
    if k > 0 {
      OnlyShifted(p, k - 1);
      NotYetTop(p, k - 1);
      StepCases(Lefts(p, k - 1));
    }
  }

  lemma {:induction false} ByteInTop(p: bv32)
    requires p < 256
    ensures CrcSteps(p, 24) == LeftByte(LeftByte(LeftByte(p))) && TopOnly(LeftByte(LeftByte(LeftByte(p))))
    ensures p != 0 ==> LeftByte(LeftByte(LeftByte(p))) != 0
  {
    OnlyShifted(p, 24);
    BytesOut(p);
    hide CrcSteps, Lefts;
  }

  /** The generator has a constant term: a nonzero remainder stays nonzero. */
  lemma {:induction false} StepKeepsNonzero(v: bv32)
    requires TopOnly(v) && v != 0
    ensures TopOnly(CrcStep(v)) && CrcStep(v) != 0
  {
  }

  lemma {:induction false} StepsKeepNonzero(v: bv32, n: nat)
    requires TopOnly(v) && v != 0
    ensures TopOnly(CrcSteps(v, n)) && CrcSteps(v, n) != 0
  {
    hide CrcStep, TopOnly;
    if n > 0 {
      StepsKeepNonzero(v, n - 1);
      StepKeepsNonzero(CrcSteps(v, n - 1));
    }
  }

  lemma {:induction false} CheckIsXor(e: bv32, c: bv32)
    requires TopOnly(c)
    ensures Join24(Minutes(e), c) == e <==> Xor(c, LeftByte(LeftByte(LeftByte(e & 0xff)))) == 0
    ensures e == Xor(Above(Minutes(e)), e & 0xff) && e & 0xff < 256
  {
  }

  /** A word passes exactly when dividing all of it leaves nothing. */
  lemma {:induction false} PassesDivides(e: bv32)
    ensures Passes(e) <==> CrcSteps(e, 24) == 0
  {
    var (v, low) := (Above(Minutes(e)), e & 0xff);
    RemainderIsByte(v);
    CheckIsXor(e, CrcSteps(v, 24));
    hide CrcSteps, LeftByte, Xor, TopOnly, Above, Join24;
    ByteInTop(low);
    StepsAdd(v, low, 24);
  }

  /** A stored time changed within any eight adjacent bits no longer passes. */
  lemma {:induction false} BurstIsNoticed(e: bv32, p: bv32, i: nat)
    requires Passes(e) && 0 < p < 256 && i <= 24
    ensures !Passes(Xor(e, Lefts(p, i)))
  {
    hide Passes, CrcSteps, LeftByte, Xor, TopOnly, Lefts;
    PassesDivides(e);
    PassesDivides(Xor(e, Lefts(p, i)));
    StepsAdd(e, Lefts(p, i), 24);
    XorZero(CrcSteps(Lefts(p, i), 24));
    OnlyShifted(p, i);
    StepsJoin(p, i, 24);
    StepsJoin(p, 24, i);
    ByteInTop(p);
    StepsKeepNonzero(CrcSteps(p, 24), i);
  }

  /** A log whose newest word is damaged in this way reads as time zero, unless the word now looks free. */
  lemma {:induction false} DamagedTimeIsZero(pg: seq<bv8>, damaged: seq<bv8>, p: bv32, i: nat)
    requires |pg| == PAGE_SIZE && |damaged| == PAGE_SIZE && Passes(StoredWord(pg)) && 0 < p < 256 && i <= 24
    requires StoredWord(damaged) == Xor(StoredWord(pg), Lefts(p, i))
    ensures TimeValue(damaged) == if StoredWord(damaged) == 0xffffffff then 0xffffffff else 0
  {
    hide StoredWord, Encoded, Minutes, Xor, Lefts;
    BurstIsNoticed(StoredWord(pg), p, i);
  }
}
