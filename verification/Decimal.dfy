/** Unsigned numbers as decimal text: itoa and reverse. */
module Decimal {
  import opened Bytes

  const TWO32 := 0x1_0000_0000

  function Digit(d: nat): bv8
    requires d < 10
  {
    ToByte(48 + d)
  }

  function Text(n: nat): (t: seq<bv8>)
    ensures |t| > 0
  {
    if n < 10 then [Digit(n)] else Text(n / 10) + [Digit(n % 10)]
  }

  /** The number that a text stands for. */
  function Value(t: seq<bv8>): int {
    if t == [] then 0 else Value(t[..|t| - 1]) * 10 + Octet(t[|t| - 1]) - 48
  }

  function Power(k: nat): (p: nat)
    ensures p > 0
  {
    if k == 0 then 1 else 10 * Power(k - 1)
  }

  lemma {:induction false} DigitRoundTrip(d: nat)
    requires d < 10
    ensures Octet(Digit(d)) == 48 + d && Digit(d) != 0
  {
    ByteRoundTrip(48 + d);
    assert Octet(0) == 0;
  }

  /** Without its last k digits a text reads as the quotient. */
  lemma {:induction false} LeadingDigits(n: nat, k: nat)
    requires k < |Text(n)|
    ensures Value(Text(n)[..|Text(n)| - k]) == n / Power(k)
    decreases n + k
  {
    hide Digit;
    var t := Text(n);
    if k > 0 {
      LeadingDigits(n / 10, k - 1);
      assert t[..|t| - k] == Text(n / 10)[..|t| - k];
      QuotientTwice(n, Power(k - 1));
    } else {
      assert t[..|t|] == t;
      DigitRoundTrip(n % 10);
      if n >= 10 {
        LeadingDigits(n / 10, 0);
        assert t[..|t| - 1] == Text(n / 10)[..|Text(n / 10)|];
      } else {
        assert t[..0] == [];
      }
    }
  }

  lemma {:induction false} QuotientTwice(n: nat, p: nat)
    requires p > 0
    ensures n / 10 / p == n / (10 * p)
  {
    var (t, q) := (n / 10, n / 10 / p);
    var rest := t % p * 10 + n % 10;
    assert n == (10 * p) * q + rest by {
      assert t == p * q + t % p;
      TimesTen(p, q);
    }
    QuotientUnique(n, 10 * p, q, rest);
  }

  lemma {:induction false} TimesTen(p: nat, q: nat)
    ensures 10 * (p * q) == (10 * p) * q
  {
  }

  /** A number has at most k digits exactly when it is below the k-th power of ten. */
  lemma {:induction false} TextLength(n: nat, k: nat)
    requires k > 0
    ensures |Text(n)| <= k <==> n < Power(k)
  {
    hide Digit;
    if k > 1 && n >= 10 {
      TextLength(n / 10, k - 1);
      assert Power(k) == 10 * Power(k - 1);
    } else if n < 10 {
      MulAtLeast(10, Power(k - 1));
    } else {
      assert Power(1) == 10 * Power(0);
    }
  }

  lemma {:induction false} NoZeroDigit(n: nat, i: nat)
    requires i < |Text(n)|
    ensures Text(n)[i] != 0
  {
    hide Digit;
    DigitRoundTrip(n % 10);
    if n >= 10 && i < |Text(n)| - 1 {
      NoZeroDigit(n / 10, i);
    }
  }

  /** The bytes before the terminator. */
  function Terminated(b: seq<bv8>): seq<bv8> {
    if b == [] || b[0] == 0 then [] else [b[0]] + Terminated(b[1..])
  }

  lemma {:induction false} TerminatedText(t: seq<bv8>, rest: seq<bv8>)
    requires forall i :: 0 <= i < |t| ==> t[i] != 0
    ensures Terminated(t + [0] + rest) == t
  {
    var b := t + [0] + rest;
    if t == [] {
      assert b[0] == 0;
    } else {
      TerminatedText(t[1..], rest);
      assert b[1..] == t[1..] + [0] + rest;
    }
  }

  // ----- sendNumberN

  /** The last len digits, with leading zeros. */
  function Padded(n: nat, len: nat): (t: seq<bv8>)
    ensures |t| == len
  {
    if len == 0 then [] else Padded(n / 10, len - 1) + [Digit(n % 10)]
  }

  lemma {:induction false} PaddedReads(n: nat, len: nat)
    ensures Value(Padded(n, len)) == n % Power(len)
  {
    hide Digit;
    if len > 0 {
      var t := Padded(n, len);
      PaddedReads(n / 10, len - 1);
      assert t[..len - 1] == Padded(n / 10, len - 1);
      DigitRoundTrip(n % 10);
      LastDigit(n, Power(len - 1));
    }
  }

  lemma {:induction false} LastDigit(n: nat, p: nat)
    requires p > 0
    ensures n / 10 % p * 10 + n % 10 == n % (10 * p)
  {
    var (t, q) := (n / 10, n / 10 / p);
    var rest := t % p * 10 + n % 10;
    assert n == (10 * p) * q + rest by {
      assert t == p * q + t % p;
      TimesTen(p, q);
    }
    RemainderUnique(n, 10 * p, q, rest);
  }

  /** The digits are computed last one first, and typed from the first on. */
  method SendNumberN(number: nat, len: nat) returns (typed: seq<bv8>)
    ensures typed == if len <= 10 then Padded(number, len) else []
  {
    hide Digit, Padded;
    typed := [];
    if len <= 10 {
      var result := new nat[10](_ => 0);
      var i, n := len, number;
      ghost var t: seq<bv8> := [];
      while i > 0
        invariant 0 <= i <= len && n >= 0 && |t| == len - i && Padded(number, len) == Padded(n, i) + t
        invariant forall k :: i <= k < len ==> result[k] < 10 && Digit(result[k]) == t[k - i]
      {
        result[i - 1] := n % 10;
        LastPadded(n, i);
        Associate(Padded(n / 10, i - 1), [Digit(n % 10)], t);
        t := [Digit(n % 10)] + t;
        i, n := i - 1, n / 10;
      }
      NonePadded(n);
      for j := 0 to len
        invariant typed == t[..j]
      {
        typed := typed + [Digit(result[j])];
      }
      assert t[..len] == t;
    }
  }

  lemma {:induction false} LastPadded(n: nat, i: nat)
    requires i > 0
    ensures Padded(n, i) == Padded(n / 10, i - 1) + [Digit(n % 10)]
  {
  }

  lemma {:induction false} NonePadded(n: nat)
    ensures Padded(n, 0) == []
  {
  }

  // ----- itoa

  function Reversed(s: seq<bv8>): (r: seq<bv8>)
    ensures |r| == |s|
  {
    seq(|s|, i requires 0 <= i < |s| => s[|s| - 1 - i])
  }

  lemma {:induction false} ReversedSnoc(s: seq<bv8>, x: bv8)
    ensures Reversed(s + [x]) == [x] + Reversed(s)
  {
  }

  method Strlen(s: array<bv8>) returns (n: nat)
    requires exists i :: 0 <= i < s.Length && s[i] == 0
    ensures n < s.Length && s[n] == 0 && forall i :: 0 <= i < n ==> s[i] != 0
  {
    n := 0;
    while s[n] != 0
      invariant n < s.Length && forall i :: 0 <= i < n ==> s[i] != 0
      decreases s.Length - n
    {
      n := n + 1;
    }
  }

  method Reverse(s: array<bv8>, ghost n: nat)
    requires n < s.Length && s[n] == 0 && forall i :: 0 <= i < n ==> s[i] != 0
    modifies s
    ensures s[..] == Reversed(old(s[..n])) + old(s[n..])
  {
    ghost var was := s[..];
    var length: int := Strlen(s);
    var i, j := 0, length - 1;
    while i < j
      invariant 0 <= i <= j + 2 && i + j == n - 1
      invariant forall k :: 0 <= k < i || n - i <= k < n ==> s[k] == was[n - 1 - k]
      invariant forall k :: i <= k < n - i || n <= k < s.Length ==> s[k] == was[k]
    {
      s[i], s[j] := s[j], s[i];
      i, j := i + 1, j - 1;
    }
    assert forall k :: 0 <= k < n ==> s[..][k] == was[n - 1 - k];
    assert s[..] == Reversed(was[..n]) + was[n..];
  }

  /** The digits still to be written. */
  function Rest(m: nat): seq<bv8> {
    if m == 0 then [] else Text(m)
  }

  lemma {:induction false} NoRest()
    ensures Rest(0) == []
  {
  }

  lemma {:induction false} FirstDigit(n: nat)
    ensures Text(n) == Rest(n / 10) + Reversed([Digit(n % 10)])
  {
  }

  lemma {:induction false} NextDigit(m: nat, t: seq<bv8>)
    requires m > 0
    ensures Rest(m) + Reversed(t) == Rest(m / 10) + Reversed(t + [Digit(m % 10)]) && |Rest(m)| > 0
  {
    hide Digit;
    ReversedSnoc(t, Digit(m % 10));
    Associate(Rest(m / 10), [Digit(m % 10)], Reversed(t));
  }

  lemma {:induction false} TenDigits(n: nat)
    ensures n < TWO32 ==> |Text(n)| <= 10
    ensures |Text(n)| <= 7 <==> n < 10_000_000
  {
    TextLength(n, 10);
    TextLength(n, 7);
    assert Power(5) == 100000;
  }

  /** The digits, last one first. */
  method WriteDigits(n: nat, s: array<bv8>) returns (i: nat)
    requires n < TWO32 && s.Length >= 11
    modifies s
    ensures i == |Text(n)| && i <= 10 && Reversed(s[..i]) == Text(n)
    ensures s[i..] == old(s[i..])
  {
    hide Digit, Text, Rest;
    TenDigits(n);
    FirstDigit(n);
    var m := n / 10;
    s[0] := Digit(n % 10);
    i := 1;
    assert s[..1] == [Digit(n % 10)];
    while m > 0
      invariant 1 <= i <= 10 && m >= 0
      invariant Text(n) == Rest(m) + Reversed(s[..i])
      invariant forall k :: i <= k < s.Length ==> s[k] == old(s[k])
      decreases m
    {
      ghost var t := s[..i];
      NextDigit(m, t);
      s[i] := Digit(m % 10);
      i, m := i + 1, m / 10;
      assert s[..i] == t + [s[i - 1]];
    }
    NoRest();
  }

  /** The text and its terminator; what lies behind is kept. */
  method Itoa(n: nat, s: array<bv8>)
    requires n < TWO32 && s.Length >= 11
    modifies s
    ensures |Text(n)| <= 10 && s[..] == Splice(old(s[..]), 0, Text(n) + [0])
  {
    hide Digit, Text;
    ghost var before := s[..];
    var i := WriteDigits(n, s);
    ghost var digits := s[..i];
    s[i] := 0;
    assert s[..i] == digits;
    assert s[i + 1..] == before[i..][1..] == before[i + 1..];
    forall k: nat | k < i
      ensures s[k] != 0
    {
      NoZeroDigit(n, i - 1 - k);
      assert Reversed(digits)[i - 1 - k] == s[k];
    }
    ghost var tail := s[i..];
    assert tail == [0] + before[i + 1..];
    Reverse(s, i);
  }
}
