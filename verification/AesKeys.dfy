/** Key schedules of the AES implementation, against the key expansion of FIPS 197. */
module AesKeys {
  import opened Bytes
  import opened Fips197
  import opened AesTables

  const AES_ENCRYPT := 1
  const AES_DECRYPT := 0
  const POLARSSL_ERR_AES_INVALID_KEY_LENGTH := -0x0800

  /** The word that GET_ULONG_LE reads at offset i. */
  function GetUlongLE(b: seq<bv8>, i: nat): bv32
    requires i + 4 <= |b|
  {
    Pack(Column(b[i], b[i + 1], b[i + 2], b[i + 3]))
  }

  /** The first nk words of a key. */
  function KeyColumns(key: seq<bv8>, nk: nat): (cs: seq<Column>)
    requires 4 * nk <= |key|
    ensures |cs| == nk
  {
    seq(nk, i requires 0 <= i < nk => Column(key[4 * i], key[4 * i + 1], key[4 * i + 2], key[4 * i + 3]))
  }

  // ----- table lookups

  method LookupFSb(t: Tables, x: bv8) returns (y: bv8)
    requires t.BoxesValid()
    ensures y == SBox(x)
  {
    hide SBox, InvSBox, Octet, ToByte;
    y := t.FSb[Octet(x)];
    OctetRoundTrip(x);
  }

  method LookupRSb(t: Tables, x: bv8) returns (y: bv8)
    requires t.BoxesValid()
    ensures y == InvSBox(x)
  {
    hide SBox, InvSBox, Octet, ToByte;
    y := t.RSb[Octet(x)];
    OctetRoundTrip(x);
  }

  method LookupFT(t: Tables, r: nat, x: bv8) returns (w: bv32)
    requires t.RowsValid(256) && r < 4
    ensures w == Forward(r, x)
  {
    hide Forward, Reverse, Octet, ToByte;
    w := t.FT[r, Octet(x)];
    OctetRoundTrip(x);
    assert t.RowValid(Octet(x));
  }

  method LookupRT(t: Tables, r: nat, x: bv8) returns (w: bv32)
    requires t.RowsValid(256) && r < 4
    ensures w == Reverse(r, x)
  {
    hide Forward, Reverse, Octet, ToByte;
    w := t.RT[r, Octet(x)];
    OctetRoundTrip(x);
    assert t.RowValid(Octet(x));
  }

  // ----- columns

  lemma {:induction false} AddColumnLaws(a: Column, b: Column, c: Column)
    ensures AddColumn(AddColumn(a, b), c) == AddColumn(a, AddColumn(c, b))
  {
  }

  lemma {:induction false} UnpackByte(x: bv8)
    ensures Unpack(x as bv32) == Column(x, 0, 0, 0)
  {
  }

  /** Four S-box outputs in the byte lanes of one word. */
  lemma {:induction false} Lanes(a: bv8, b: bv8, c: bv8, d: bv8)
    ensures Unpack((a as bv32) ^ ((b as bv32) << 8) ^ ((c as bv32) << 16) ^ ((d as bv32) << 24)) == Column(a, b, c, d)
  {
  }

  method SubLanes(t: Tables, c: Column) returns (w: bv32)
    requires t.BoxesValid()
    ensures Unpack(w) == SubColumn(c)
  {
    hide SBox, Unpack;
    var s0 := LookupFSb(t, c.b0);
    var s1 := LookupFSb(t, c.b1);
    var s2 := LookupFSb(t, c.b2);
    var s3 := LookupFSb(t, c.b3);
    Lanes(s0, s1, s2, s3);
    w := (s0 as bv32) ^ ((s1 as bv32) << 8) ^ ((s2 as bv32) << 16) ^ ((s3 as bv32) << 24);
  }

  class Context {
    var nr: nat
    const buf: array<bv32>

    constructor ()
      ensures buf.Length == 68 && fresh(buf)
    {
      nr := 0;
      buf := new bv32[68];
    }

    /** The first n words are those of the key expansion. */
    ghost predicate Expanded(key: seq<Column>, n: nat)
      reads buf
    {
      && |key| > 0 && n <= buf.Length
      && forall i: nat :: i < n ==> Unpack(buf[i]) == KeyWord(key, i)
    }

    ghost predicate Encrypts(key: seq<Column>)
      reads this, buf
    {
      |key| in {4, 6, 8} && nr == |key| + 6 && Expanded(key, 4 * nr + 4)
    }

    method Store(ghost key: seq<Column>, n: nat, v: bv32)
      requires n < buf.Length && Expanded(key, n) && Unpack(v) == KeyWord(key, n)
      modifies buf
      ensures Expanded(key, n + 1)
    {
      hide Unpack, Xor, KeyWord;
      buf[n] := v;
    }

    /** A word with no substitution: RK[n] = RK[n - nk] ^ RK[n - 1]. */
    method PlainWord(ghost key: seq<Column>, nk: nat, n: nat)
      requires nk == |key| && 0 < nk <= n < buf.Length && Expanded(key, n)
      requires IsPlain(nk, n)
      modifies buf
      ensures Expanded(key, n + 1)
    {
      hide Unpack, Xor, KeyWord, IsPlain;
      PlainKeyWord(key, n, buf[n - nk], buf[n - 1]);
      Store(key, n, Xor(buf[n - nk], buf[n - 1]));
    }

    /** The first word of a group: the previous word is rotated, substituted and gets a round constant. */
    method CoreWord(t: Tables, ghost key: seq<Column>, nk: nat, n: nat, i: nat)
      requires t.Valid() && i < 10
      requires nk == |key| && nk in {4, 6, 8} && nk <= n < buf.Length && Expanded(key, n)
      requires n == nk * (i + 1)
      modifies buf
      ensures Expanded(key, n + 1)
    {
      var s := SubLanes(t, RotWord(Unpack(buf[n - 1])));
      hide Unpack, Xor, KeyWord, Rcon;
      assert t.RconValid();
      CoreKeyWord(key, n, i, buf[n - nk], buf[n - 1], s);
      Store(key, n, Xor(Xor(buf[n - nk], t.RCON[i]), s));
    }

    /** The middle word of a 256-bit group: substituted, not rotated. */
    method MiddleWord(t: Tables, ghost key: seq<Column>, n: nat)
      requires t.Valid()
      requires |key| == 8 && 8 <= n < buf.Length && Expanded(key, n) && n % 8 == 4
      modifies buf
      ensures Expanded(key, n + 1)
    {
      var s := SubLanes(t, Unpack(buf[n - 1]));
      hide Unpack, Xor, KeyWord;
      MiddleKeyWord(key, n, buf[n - 8], buf[n - 1], s);
      Store(key, n, Xor(buf[n - 8], s));
    }
  
    method LoadKey(key: seq<bv8>, nk: nat)
      requires nk in {4, 6, 8} && 4 * nk <= |key| && buf.Length == 68
      modifies buf
      ensures Expanded(KeyColumns(key, nk), nk)
    {
      hide Unpack, Pack;
      for i := 0 to nk
        invariant forall j: nat :: j < i ==> Unpack(buf[j]) == KeyColumns(key, nk)[j]
      {
        buf[i] := GetUlongLE(key, 4 * i);
        UnpackPack(KeyColumns(key, nk)[i]);
      }
    }

    method Expand128(t: Tables, ghost key: seq<Column>)
      requires t.Valid() && buf !in t.Arrays() && buf.Length == 68 && |key| == 4 && Expanded(key, 4)
      modifies buf
      ensures Expanded(key, 44)
    {
      hide Expanded, IsPlain, KeyWord;
      for i := 0 to 10
        invariant Expanded(key, 4 * i + 4)
      {
        var p := 4 * i;
        PlainIn128(i);
        CoreWord(t, key, 4, p + 4, i);
        PlainWord(key, 4, p + 5);
        PlainWord(key, 4, p + 6);
        PlainWord(key, 4, p + 7);
      }
    }

    method Expand192(t: Tables, ghost key: seq<Column>)
      requires t.Valid() && buf !in t.Arrays() && buf.Length == 68 && |key| == 6 && Expanded(key, 6)
      modifies buf
      ensures Expanded(key, 54)
    {
      hide Expanded, IsPlain, KeyWord;
      for i := 0 to 8
        invariant Expanded(key, 6 * i + 6)
      {
        var p := 6 * i;
        PlainIn192(i);
        CoreWord(t, key, 6, p + 6, i);
        PlainWord(key, 6, p + 7);
        PlainWord(key, 6, p + 8);
        PlainWord(key, 6, p + 9);
        PlainWord(key, 6, p + 10);
        PlainWord(key, 6, p + 11);
      }
    }

    method Expand256(t: Tables, ghost key: seq<Column>)
      requires t.Valid() && buf !in t.Arrays() && buf.Length == 68 && |key| == 8 && Expanded(key, 8)
      modifies buf
      ensures Expanded(key, 64)
    {
      hide Expanded, IsPlain, KeyWord;
      for i := 0 to 7
        invariant Expanded(key, 8 * i + 8)
      {
        var p := 8 * i;
        PlainIn256(i);
        CoreWord(t, key, 8, p + 8, i);
        PlainWord(key, 8, p + 9);
        PlainWord(key, 8, p + 10);
        PlainWord(key, 8, p + 11);
        MiddleWord(t, key, p + 12);
        PlainWord(key, 8, p + 13);
        PlainWord(key, 8, p + 14);
        PlainWord(key, 8, p + 15);
      }
    }

    /** The tables are generated by the first key that is set. */
    static method GenerateOnce(t: Tables)
      requires t.Ready()
      modifies t, t.Arrays()
      ensures t.Ready() && t.initDone
    {
      hide Tables.Valid;
      if !t.initDone {
        t.Generate();
        t.initDone := true;
      }
    }

    /** aes_setkey_enc: the expansion of FIPS 197 for the three key sizes, an error for any other. */
    method SetKeyEnc(t: Tables, key: seq<bv8>, keysize: int) returns (ret: int)
      requires t.Ready() && buf !in t.Arrays() && buf.Length == 68
      requires keysize in {128, 192, 256} ==> |key| >= keysize / 8
      modifies this, buf, t, t.Arrays()
      ensures t.Ready() && t.initDone
      ensures keysize in {128, 192, 256} ==> ret == 0 && Encrypts(KeyColumns(key, keysize / 32))
      ensures keysize !in {128, 192, 256} ==> ret == -0x0800 && nr == old(nr) && buf[..] == old(buf[..])
    {
      hide KeyColumns, Expanded, Tables.Valid;
      GenerateOnce(t);
      if keysize == 128 {
        nr := 10;
        LoadKey(key, 4);
        Expand128(t, KeyColumns(key, 4));
      } else if keysize == 192 {
        nr := 12;
        LoadKey(key, 6);
        Expand192(t, KeyColumns(key, 6));
        Fewer(KeyColumns(key, 6), 54, 52);
      } else if keysize == 256 {
        nr := 14;
        LoadKey(key, 8);
        Expand256(t, KeyColumns(key, 8));
        Fewer(KeyColumns(key, 8), 64, 60);
      } else {
        return POLARSSL_ERR_AES_INVALID_KEY_LENGTH;
      }
      return 0;
    }

    lemma {:induction false} Fewer(key: seq<Column>, n: nat, m: nat)
      requires Expanded(key, n) && m <= n
      ensures Expanded(key, m)
    {
    }
  }

  lemma {:induction false} PlainIn128(i: nat)
    ensures IsPlain(4, 4 * i + 5) && IsPlain(4, 4 * i + 6) && IsPlain(4, 4 * i + 7)
  {
  }

  lemma {:induction false} PlainIn192(i: nat)
    ensures IsPlain(6, 6 * i + 7) && IsPlain(6, 6 * i + 8) && IsPlain(6, 6 * i + 9) && IsPlain(6, 6 * i + 10) && IsPlain(6, 6 * i + 11)
  {
  }

  lemma {:induction false} PlainIn256(i: nat)
    ensures IsPlain(8, 8 * i + 9) && IsPlain(8, 8 * i + 10) && IsPlain(8, 8 * i + 11)
    ensures (8 * i + 12) % 8 == 4
    ensures IsPlain(8, 8 * i + 13) && IsPlain(8, 8 * i + 14) && IsPlain(8, 8 * i + 15)
  {
  }

  // ----- the three forms of a word, on values

  predicate IsPlain(nk: nat, n: nat)
    requires nk > 0
  {
    n % nk != 0 && !(nk > 6 && n % nk == 4)
  }

  lemma {:induction false} PlainKeyWord(key: seq<Column>, n: nat, a: bv32, b: bv32)
    requires 0 < |key| <= n && IsPlain(|key|, n)
    requires Unpack(a) == KeyWord(key, n - |key|) && Unpack(b) == KeyWord(key, n - 1)
    ensures Unpack(Xor(a, b)) == KeyWord(key, n)
  {
  }

  lemma {:induction false} CoreUnfold(key: seq<Column>, n: nat, i: nat)
    requires |key| in {4, 6, 8} && n == |key| * (i + 1)
    ensures KeyWord(key, n)
         == AddColumn(KeyWord(key, n - |key|),
                      AddColumn(SubColumn(RotWord(KeyWord(key, n - 1))), Column(Rcon(i + 1), 0, 0, 0)))
  {
    hide AddColumn, SubColumn, Rcon;
    assert n % |key| == 0 && n / |key| == i + 1 by {
      GroupStart(|key|, i);
    }
  }

  lemma {:induction false} CoreKeyWord(key: seq<Column>, n: nat, i: nat, a: bv32, b: bv32, s: bv32)
    requires |key| in {4, 6, 8} && n == |key| * (i + 1)
    requires Unpack(a) == KeyWord(key, n - |key|) && Unpack(b) == KeyWord(key, n - 1)
    requires Unpack(s) == SubColumn(RotWord(Unpack(b)))
    ensures Unpack(Xor(Xor(a, Rcon(i + 1) as bv32), s)) == KeyWord(key, n)
  {
    CoreUnfold(key, n, i);
    hide Unpack, Xor, AddColumn, SubColumn, Rcon, KeyWord;
    var rc := Rcon(i + 1) as bv32;
    UnpackXor(Xor(a, rc), s);
    UnpackXor(a, rc);
    UnpackByte(Rcon(i + 1));
    AddColumnLaws(Unpack(a), Column(Rcon(i + 1), 0, 0, 0), Unpack(s));
  }

  lemma {:induction false} MiddleKeyWord(key: seq<Column>, n: nat, a: bv32, b: bv32, s: bv32)
    requires |key| == 8 && 8 <= n && n % 8 == 4
    requires Unpack(a) == KeyWord(key, n - 8) && Unpack(b) == KeyWord(key, n - 1)
    requires Unpack(s) == SubColumn(Unpack(b))
    ensures Unpack(Xor(a, s)) == KeyWord(key, n)
  {
    hide Unpack, Xor, AddColumn, SubColumn;
    UnpackXor(a, s);
  }

  lemma {:induction false} GroupStart(nk: nat, i: nat)
    requires nk in {4, 6, 8}
    ensures nk * (i + 1) % nk == 0 && nk * (i + 1) / nk == i + 1
  {
  }
}
