/** The powers of 3 in GF(2^8): they have period 255, so they run through every nonzero
    element exactly once and give discrete logarithms and inverses. */
module Gf256Powers {
  import opened Bytes
  import opened Gf256

  /** Multiplication by 3. */
  function Gen(x: bv8): bv8 {
    Add(x, Xtime(x))
  }

  function Pow3(i: nat): bv8 {
    if i == 0 then 1 else Gen(Pow3(i - 1))
  }

  lemma {:induction false} GenAdd(a: bv8, b: bv8)
    ensures Mul(Gen(a), b) == Gen(Mul(a, b))
    ensures Gen(a) == Gen(b) ==> a == b
    ensures a != 0 ==> Gen(a) != 0
  {
    GenInjective(a, b);
    GenInjective(a, 0);
    hide Add, Xtime, Mul;
    MulLaws(a, Xtime(a), b, b);
  }

  lemma {:induction false} GenInjective(a: bv8, b: bv8)
    ensures Gen(a) == Gen(b) ==> a == b
    ensures Gen(0) == 0
  {
  }

  lemma {:induction false} PowAdd(i: nat, j: nat)
    ensures Mul(Pow3(i), Pow3(j)) == Pow3(i + j)
  {
    if i == 0 {
      MulLaws(0, 0, Pow3(j), 0);
    } else {
      PowAdd(i - 1, j);
      GenAdd(Pow3(i - 1), Pow3(j));
    }
  }

  // ----- the period of 3

  /** Multiplying x by 3 over and over, the first 1 comes after exactly n steps. */
  predicate FirstOneAfter(x: bv8, n: nat)
    decreases n
  {
    if n == 0 then x == 1 else x != 1 && FirstOneAfter(Gen(x), n - 1)
  }

  lemma {:induction false} FirstOneAt(i: nat, n: nat, d: nat)
    requires FirstOneAfter(Pow3(i), n) && d <= n
    ensures Pow3(i + d) == 1 <==> d == n
    decreases n
  {
    hide Gen;
    if d == 0 {
    } else {
      assert Pow3(i + 1) == Gen(Pow3(i));
      FirstOneAt(i + 1, n - 1, d - 1);
    }
  }

  function Gen4(x: bv8): bv8 {
    Gen(Gen(Gen(Gen(x))))
  }

  predicate NoOneWithin4(x: bv8) {
    x != 1 && Gen(x) != 1 && Gen(Gen(x)) != 1 && Gen(Gen(Gen(x))) != 1
  }

  /** y is eight steps after x, and no 1 comes on the way. */
  predicate Leads8(x: bv8, y: bv8) {
    NoOneWithin4(x) && NoOneWithin4(Gen4(x)) && Gen4(Gen4(x)) == y
  }

  lemma {:induction false} Back4(x: bv8, n: nat)
    requires FirstOneAfter(Gen4(x), n) && NoOneWithin4(x)
    ensures FirstOneAfter(x, n + 4)
  {
    hide Gen;
    assert FirstOneAfter(Gen(Gen(Gen(x))), n + 1);
    assert FirstOneAfter(Gen(Gen(x)), n + 2);
    assert FirstOneAfter(Gen(x), n + 3);
  }

  lemma {:induction false} Back8(x: bv8, y: bv8, n: nat)
    requires FirstOneAfter(y, n) && Leads8(x, y)
    ensures FirstOneAfter(x, n + 8)
  {
    hide Gen, FirstOneAfter;
    Back4(Gen4(x), n);
    Back4(x, n + 4);
  }

  lemma {:induction false} Walk70()
    ensures FirstOneAfter(0x25, 70)
  {
    assert FirstOneAfter(1, 0);
    Back4(0xB4, 0);
    assert FirstOneAfter(0x24, 6);
    hide FirstOneAfter;
    Back8(0x4B, 0x24, 6); Back8(0x8A, 0x4B, 14); Back8(0x36, 0x8A, 22); Back8(0xE3, 0x36, 30);
    Back8(0xCF, 0xE3, 38); Back8(0x2D, 0xCF, 46); Back8(0x1F, 0x2D, 54); Back8(0x25, 0x1F, 62);
  }

  lemma {:induction false} Walk134()
    ensures FirstOneAfter(0x71, 134)
  {
    Walk70();
    hide FirstOneAfter;
    Back8(0xB6, 0x25, 70); Back8(0x9D, 0xB6, 78); Back8(0xBA, 0x9D, 86); Back8(0xED, 0xBA, 94);
    Back8(0x5E, 0xED, 102); Back8(0xE7, 0x5E, 110); Back8(0x16, 0xE7, 118); Back8(0x71, 0x16, 126);
  }

  lemma {:induction false} Walk198()
    ensures FirstOneAfter(0xD1, 198)
  {
    Walk134();
    hide FirstOneAfter;
    Back8(0x19, 0x71, 134); Back8(0x1D, 0x19, 142); Back8(0xC4, 0x1D, 150); Back8(0x98, 0xC4, 158);
    Back8(0x9E, 0x98, 166); Back8(0xA6, 0x9E, 174); Back8(0xD4, 0xA6, 182); Back8(0xD1, 0xD4, 190);
  }

  lemma {:induction false} Walk254()
    ensures FirstOneAfter(0x03, 254)
  {
    Walk198();
    hide FirstOneAfter;
    Back8(0xF5, 0xD1, 198); Back8(0xBE, 0xF5, 206); Back8(0x34, 0xBE, 214); Back8(0x02, 0x34, 222);
    Back8(0xE1, 0x02, 230); Back8(0x2E, 0xE1, 238); Back8(0x03, 0x2E, 246);
  }

  // ----- logarithms and inverses

  /** 3 has order 255. */
  lemma {:induction false} Period(d: nat)
    requires d <= 255
    ensures Pow3(d) == 1 <==> d == 0 || d == 255
  {
    Walk254();
    assert Pow3(1) == 3;
    hide Gen;
    if d > 0 {
      FirstOneAt(1, 254, d - 1);
    }
  }

  lemma {:induction false} PowInjective(i: nat, j: nat)
    requires i < 255 && j < 255 && Pow3(i) == Pow3(j)
    ensures i == j
    decreases i + j
  {
    hide Gen;
    if i == 0 {
      Period(j);
    } else if j == 0 {
      Period(i);
    } else {
      GenAdd(Pow3(i - 1), Pow3(j - 1));
      PowInjective(i - 1, j - 1);
    }
  }

  lemma {:induction false} PowNonzero(i: nat)
    ensures Pow3(i) != 0
  {
    if i == 0 {
    } else {
      PowNonzero(i - 1);
      GenAdd(Pow3(i - 1), 0);
    }
  }

  ghost function AllBytes(n: nat): (s: set<bv8>)
    requires n <= 256
    ensures |s| <= n
    ensures forall x: bv8 :: Octet(x) < n ==> x in s
  {
    if n == 0 then {} else
      var s := AllBytes(n - 1) + {ToByte(n - 1)};
      assert forall x: bv8 :: Octet(x) < n ==> x in s by {
        forall x: bv8 | Octet(x) < n
          ensures x in s
        {
          OctetRoundTrip(x);
        }
      }
      s
  }

  ghost function Powers(n: nat): set<bv8> {
    set i: nat | i < n :: Pow3(i)
  }

  lemma {:induction false} PowersCount(n: nat)
    requires n <= 255
    ensures |Powers(n)| == n && 0 !in Powers(n)
  {
    hide Gen, Pow3;
    if n == 0 {
    } else {
      PowersCount(n - 1);
      PowNonzero(n - 1);
      var p := Pow3(n - 1);
      if p in Powers(n - 1) {
        var i: nat :| i < n - 1 && Pow3(i) == p;
        PowInjective(i, n - 1);
      }
      assert Powers(n) == Powers(n - 1) + {p};
    }
  }

  lemma {:induction false} SubsetCard<T>(s: set<T>, t: set<T>, x: T)
    requires s <= t && x in t && x !in s
    ensures |s| < |t|
  {
    assert t == s + (t - s);
    assert x in t - s;
  }

  /** Every nonzero element is a power of 3: 255 different nonzero values leave none out. */
  lemma {:induction false} LogExists(x: bv8)
    requires x != 0
    ensures exists i: nat :: i < 255 && Pow3(i) == x
  {
    PowersCount(255);
    var all, some := AllBytes(256), Powers(255) + {0};
    hide Gen, Pow3, AllBytes, Octet;
    forall y: bv8
      ensures y in all
    {
      assert Octet(y) < 256;
    }
    assert |some| == 256;
    if x !in some {
      SubsetCard(some, all, x);
    }
  }
}
