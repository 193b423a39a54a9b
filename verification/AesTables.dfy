/** The lookup tables of the AES implementation and the code that generates them. */
module AesTables {
  import opened Bytes
  import opened Gf256
  import opened Gf256Powers
  import opened Fips197

  // ----- 32-bit words hold a column, first byte lowest

  function Pack(c: Column): bv32 {
    (c.b0 as bv32) | ((c.b1 as bv32) << 8) | ((c.b2 as bv32) << 16) | ((c.b3 as bv32) << 24)
  }

  function Unpack(w: bv32): Column {
    Column((w & 0xFF) as bv8, ((w >> 8) & 0xFF) as bv8, ((w >> 16) & 0xFF) as bv8, ((w >> 24) & 0xFF) as bv8)
  }

  lemma {:induction false} UnpackPack(c: Column)
    ensures Unpack(Pack(c)) == c
  {
  }

  function Xor(a: bv32, b: bv32): bv32 {
    a ^ b
  }

  lemma {:induction false} UnpackXor(a: bv32, b: bv32)
    ensures Unpack(Xor(a, b)) == AddColumn(Unpack(a), Unpack(b))
  {
  }

  /** The table-generation step XTIME, kept to eight bits. */
  function XtimeByte(x: bv8): bv8 {
    (x << 1) ^ (if x & 0x80 != 0 then 0x1B else 0)
  }

  lemma {:induction false} XtimeByteIsXtime(x: bv8)
    ensures XtimeByte(x) == Xtime(x)
  {
  }

  function Rotl8(x: bv32): bv32 {
    (x << 8) | (x >> 24)
  }

  function RotDown(c: Column): Column {
    Column(c.b3, c.b0, c.b1, c.b2)
  }

  lemma {:induction false} Rotl8Pack(c: Column)
    ensures Rotl8(Pack(c)) == Pack(RotDown(c))
  {
  }

  lemma {:induction false} PackByXor(a: bv8, b: bv8, c: bv8, d: bv8)
    ensures Pack(Column(a, b, c, d)) == (a as bv32) ^ ((b as bv32) << 8) ^ ((c as bv32) << 16) ^ ((d as bv32) << 24)
  {
  }

  /** The column with s in row r and zeros elsewhere. */
  function Unit(r: nat, s: bv8): Column {
    if r == 0 then Column(s, 0, 0, 0) else RotDown(Unit(r - 1, s))
  }

  /** Entry x of forward table r: SubBytes of x, placed in row r, through MixColumns. */
  ghost function Forward(r: nat, x: bv8): bv32 {
    Pack(MixColumn(Unit(r, SBox(x))))
  }

  /** Entry x of reverse table r: InvSubBytes of x, placed in row r, through InvMixColumns. */
  ghost function Reverse(r: nat, x: bv8): bv32 {
    Pack(InvMixColumn(Unit(r, InvSBox(x))))
  }

  lemma {:induction false} MixRotDown(c: Column)
    ensures MixColumn(RotDown(c)) == RotDown(MixColumn(c))
    ensures InvMixColumn(RotDown(c)) == RotDown(InvMixColumn(c))
  {
    hide MixColumn, InvMixColumn;
    MixRotate(RotDown(c));
  }

  lemma {:induction false} NextRow(r: nat, x: bv8)
    ensures Forward(r + 1, x) == Rotl8(Forward(r, x))
    ensures Reverse(r + 1, x) == Rotl8(Reverse(r, x))
  {
    hide MixColumn, InvMixColumn, SBox, InvSBox, Rotl8, RotDown, Pack;
    MixRotDown(Unit(r, SBox(x)));
    MixRotDown(Unit(r, InvSBox(x)));
    Rotl8Pack(MixColumn(Unit(r, SBox(x))));
    Rotl8Pack(InvMixColumn(Unit(r, InvSBox(x))));
  }

  function Rotated(r: nat, w: bv32): bv32 {
    if r == 0 then w else Rotl8(Rotated(r - 1, w))
  }

  ghost predicate Rotates(r: nat, x: bv8) {
    Forward(r, x) == Rotated(r, Forward(0, x)) && Reverse(r, x) == Rotated(r, Reverse(0, x))
  }

  lemma {:induction false} RowsRotate(r: nat, x: bv8)
    ensures Rotates(r, x)
  {
    hide Forward, Reverse, Rotl8;
    if r == 0 {
    } else {
      NextRow(r - 1, x);
      RowsRotate(r - 1, x);
    }
  }

  ghost predicate PowTable(pow: array<bv8>, n: nat)
    reads pow
  {
    pow.Length == 256 && n <= 256 && forall j: nat :: j < n ==> pow[j] == Pow3(j)
  }

  ghost predicate LogAt(log: array<nat>, y: bv8)
    reads log
  {
    log.Length == 256 && log[Octet(y)] < 256 && Pow3(log[Octet(y)]) == y
  }

  lemma {:induction false} SameByte(x: bv8, y: bv8)
    ensures Octet(x) == Octet(y) ==> x == y
  {
  }

  lemma {:induction false} ZeroByte(i: nat)
    requires i < 256
    ensures ToByte(i) == 0 <==> i == 0
    ensures Octet(0) == 0 && Octet(0x63) == 0x63
  {
  }

  /** After the loop every nonzero byte has a logarithm; log[1] is 255 and not 0. */
  method PowLog(pow: array<bv8>, log: array<nat>)
    requires pow.Length == 256 && log.Length == 256 && pow as object != log
    modifies pow, log
    ensures PowTable(pow, 256)
    ensures forall y: bv8 :: y != 0 ==> LogAt(log, y)
  {
    hide Gen, Xtime, XtimeByte, Add, Octet;
    var x: bv8 := 1;
    for i := 0 to 256
      invariant x == Pow3(i)
      invariant PowTable(pow, i)
      invariant forall j: nat :: j < i ==> LogAt(log, Pow3(j))
    {
      pow[i] := x;
      log[Octet(x)] := i;
      forall j: nat | j < i + 1
        ensures LogAt(log, Pow3(j))
      {
        SameByte(Pow3(j), x);
      }
      x := NextPower(x, i);
    }
    forall y: bv8 | y != 0
      ensures LogAt(log, y)
    {
      LogExists(y);
    }
  }

  method NextPower(x: bv8, ghost i: nat) returns (y: bv8)
    requires x == Pow3(i)
    ensures y == Pow3(i + 1)
  {
    XtimeByteIsXtime(x);
    y := x ^ XtimeByte(x);
  }

  ghost predicate LogTables(pow: array<bv8>, log: array<nat>)
    reads pow, log
  {
    PowTable(pow, 256) && log.Length == 256 && forall y: bv8 :: y != 0 ==> LogAt(log, y)
  }

  lemma {:induction false} PowModulo(i: nat)
    requires i < 512
    ensures Pow3(i % 255) == Pow3(i)
  {
    hide Pow3;
    if i >= 255 {
      PowWrap(i - 255);
    }
    if i >= 510 {
      PowWrap(i - 510);
    }
  }

  /** The table-generation step MUL: field multiplication by adding logarithms. */
  method LogMul(pow: array<bv8>, log: array<nat>, x: bv8, y: bv8) returns (p: bv8)
    requires LogTables(pow, log)
    ensures p == Mul(x, y)
  {
    hide Mul, Pow3, Octet;
    MulZero(x);
    MulZero(y);
    if x != 0 && y != 0 {
      assert LogAt(log, x) && LogAt(log, y);
      p := pow[(log[Octet(x)] + log[Octet(y)]) % 255];
      PowModulo(log[Octet(x)] + log[Octet(y)]);
      PowAdd(log[Octet(x)], log[Octet(y)]);
    } else {
      p := 0;
    }
  }

  lemma {:induction false} InverseByLog(x: bv8, l: nat)
    requires x != 0 && l <= 255 && Pow3(l) == x
    ensures Pow3(255 - l) == Inverse(x)
  {
    hide Pow3, Mul;
    PowAdd(l, 255 - l);
    Period(255);
    InverseIsInverse(x, Pow3(255 - l));
  }

  /** One entry of the forward S-box. */
  method Substitute(pow: array<bv8>, log: array<nat>, i: nat) returns (x: bv8)
    requires LogTables(pow, log) && 1 <= i < 256
    ensures x == SBox(ToByte(i))
  {
    hide Pow3, Affine, Inverse, Octet, ToByte;
    ByteRoundTrip(i);
    ZeroByte(i);
    assert LogAt(log, ToByte(i));
    x := pow[255 - log[i]];
    InverseByLog(ToByte(i), log[i]);
    AffineRotates(x);
    x := RotateAndAdd(x);
  }

  method RotateAndAdd(v: bv8) returns (x: bv8)
    ensures x == RotatedSum(v)
  {
    x := v;
    var y := x;
    y := (y << 1) | (y >> 7);
    x := x ^ y;
    y := (y << 1) | (y >> 7);
    x := x ^ y;
    y := (y << 1) | (y >> 7);
    x := x ^ y;
    y := (y << 1) | (y >> 7);
    x := x ^ (y ^ 0x63);
  }

  class Tables {
    const FSb: array<bv8>
    const RSb: array<bv8>
    // FT[r, x] and RT[r, x] stand for FTr[x] and RTr[x]
    const FT: array2<bv32>
    const RT: array2<bv32>
    const RCON: array<bv32>
    var initDone: bool

    ghost function Arrays(): set<object> {
      {FSb, RSb, FT, RT, RCON}
    }

    ghost predicate Allocated() {
      && FSb.Length == RSb.Length == 256 && FSb != RSb
      && FT.Length0 == RT.Length0 == 4 && FT.Length1 == RT.Length1 == 256 && FT != RT
      && RCON.Length == 10
    }

    ghost predicate BoxesValid()
      reads FSb, RSb
    {
      && Allocated()
      && (forall i: nat :: i < 256 ==> FSb[i] == SBox(ToByte(i)))
      && (forall i: nat :: i < 256 ==> RSb[i] == InvSBox(ToByte(i)))
    }

    ghost predicate Holds(i: nat, x: bv8)
      requires Allocated() && i < 256
      reads FT, RT
    {
      && (forall r: nat :: r < 4 ==> FT[r, i] == Forward(r, x))
      && (forall r: nat :: r < 4 ==> RT[r, i] == Reverse(r, x))
    }

    ghost predicate RowValid(i: nat)
      requires Allocated() && i < 256
      reads FT, RT
    {
      Holds(i, ToByte(i))
    }

    ghost predicate RowsValid(n: nat)
      requires n <= 256
      reads FT, RT
    {
      Allocated() && forall i: nat :: i < n ==> RowValid(i)
    }

    ghost predicate RconValid()
      reads RCON
    {
      Allocated() && forall i: nat :: i < 10 ==> RCON[i] == Rcon(i + 1) as bv32
    }

    ghost predicate Valid()
      reads FSb, RSb, FT, RT, RCON
    {
      BoxesValid() && RowsValid(256) && RconValid()
    }

    /** Once generated, the tables stay right. */
    ghost predicate Ready()
      reads this, Arrays()
    {
      Allocated() && this !in Arrays() && (initDone ==> Valid())
    }

    constructor ()
      ensures Ready() && !initDone && fresh(Arrays())
    {
      FSb := new bv8[256];
      RSb := new bv8[256];
      FT := new bv32[4, 256];
      RT := new bv32[4, 256];
      RCON := new bv32[10];
      initDone := false;
    }

    /** aes_gen_tables: afterwards every table holds what FIPS 197 calls for. */
    method Generate()
      requires Allocated()
      modifies FSb, RSb, FT, RT, RCON
      ensures Valid()
    {
      hide Forward, Reverse, SBox, InvSBox, Pow3, Rcon, PowTable, LogAt, Octet, ToByte;
      var pow := new bv8[256];
      var log := new nat[256];
      PowLog(pow, log);
      RoundConstants();
      Boxes(pow, log);
      for i := 0 to 256
        invariant BoxesValid() && RowsValid(i) && RconValid() && LogTables(pow, log)
      {
        Row(pow, log, i);
      }
    }

    method RoundConstants()
      requires Allocated()
      modifies RCON
      ensures RconValid()
    {
      var x: bv8 := 1;
      for i := 0 to 10
        invariant x == Rcon(i + 1)
        invariant forall j: nat :: j < i ==> RCON[j] == Rcon(j + 1) as bv32
      {
        RCON[i] := x as bv32;
        XtimeByteIsXtime(x);
        x := XtimeByte(x);
      }
    }

    ghost predicate Reverses(b: bv8)
      requires Allocated()
      reads RSb
    {
      RSb[Octet(SBox(b))] == b
    }

    method SetReverse(i: nat, x: bv8)
      requires Allocated() && i < 256 && x == SBox(ToByte(i))
      requires forall c: bv8 :: Octet(c) < i ==> Reverses(c)
      modifies RSb
      ensures forall c: bv8 :: Octet(c) < i + 1 ==> Reverses(c)
    {
      hide SBox, InvSBox, Octet, ToByte;
      RSb[Octet(x)] := ToByte(i);
      forall c: bv8 | Octet(c) < i + 1
        ensures Reverses(c)
      {
        assert Octet(c) < i ==> old(Reverses(c));
        OctetRoundTrip(c);
        SBoxInverts(ToByte(i));
        SBoxInverts(c);
        SameByte(SBox(c), x);
      }
    }

    method Boxes(pow: array<bv8>, log: array<nat>)
      requires Allocated() && LogTables(pow, log) && pow != FSb && pow != RSb && log as object != FSb && log as object != RSb
      modifies FSb, RSb
      ensures BoxesValid()
    {
      hide SBox, InvSBox, LogTables, Octet, ToByte;
      FSb[0] := 0x63;
      RSb[0x63] := 0;
      SBoxOfZero();
      FirstReverse();
      hide Reverses;
      for i := 1 to 256
        invariant forall c: bv8 :: Octet(c) < i ==> Reverses(c)
        invariant LogTables(pow, log)
        invariant forall j: nat :: j < i ==> FSb[j] == SBox(ToByte(j))
      {
        var x := Substitute(pow, log, i);
        FSb[i] := x;
        SetReverse(i, x);
      }
      ReadReverses();
    }

    lemma {:induction false} ReadReverses()
      requires Allocated() && forall c: bv8 :: Reverses(c)
      ensures forall i: nat :: i < 256 ==> RSb[i] == InvSBox(ToByte(i))
    {
      hide SBox, InvSBox, Octet, ToByte;
      forall i: nat | i < 256
        ensures RSb[i] == InvSBox(ToByte(i))
      {
        ByteRoundTrip(i);
        SBoxInverts(ToByte(i));
        assert Reverses(InvSBox(ToByte(i)));
      }
    }

    lemma {:induction false} FirstReverse()
      requires Allocated() && RSb[0x63] == 0
      ensures forall c: bv8 :: Octet(c) < 1 ==> Reverses(c)
      ensures ToByte(0) == 0 && SBox(0) == 0x63
    {
    }

    /** Entry i of all eight round tables. */
    method Row(pow: array<bv8>, log: array<nat>, i: nat)
      requires i < 256 && BoxesValid() && RowsValid(i) && LogTables(pow, log)
      modifies FT, RT
      ensures RowsValid(i + 1)
    {
      hide Forward, Reverse, Octet, ToByte, SBox, InvSBox, LogTables;
      var f := ForwardWord(i);
      var r := ReverseWord(pow, log, i);
      StoreRow(i, f, r);
    }

    method StoreRow(i: nat, f: bv32, r: bv32)
      requires i < 256 && RowsValid(i)
      requires f == Forward(0, ToByte(i)) && r == Reverse(0, ToByte(i))
      modifies FT, RT
      ensures RowsValid(i + 1)
    {
      hide Forward, Reverse, Rotated, ToByte;
      StoreRotations(FT, i, f);
      StoreRotations(RT, i, r);
      forall r: nat | r < 4
        ensures FT[r, i] == Forward(r, ToByte(i)) && RT[r, i] == Reverse(r, ToByte(i))
      {
        RowsRotate(r, ToByte(i));
      }
      forall j: nat | j < i
        ensures RowValid(j)
      {
        assert old(RowValid(j));
      }
    }

    method ForwardWord(i: nat) returns (w: bv32)
      requires i < 256 && BoxesValid()
      ensures w == Forward(0, ToByte(i))
    {
      hide SBox, InvSBox, MixColumn, ToByte;
      var x := FSb[i];
      var y := XtimeByte(x);
      var z := y ^ x;
      w := (y as bv32) ^ ((x as bv32) << 8) ^ ((x as bv32) << 16) ^ ((z as bv32) << 24);
      MixFirst(x);
      MulMix(x);
      XtimeByteIsXtime(x);
      PackByXor(y, x, x, z);
    }

    method ReverseWord(pow: array<bv8>, log: array<nat>, i: nat) returns (w: bv32)
      requires i < 256 && BoxesValid() && LogTables(pow, log)
      ensures w == Reverse(0, ToByte(i))
    {
      var x := RSb[i];
      hide SBox, InvSBox, InvMixColumn, LogTables, BoxesValid, ToByte;
      var m14 := LogMul(pow, log, 0x0E, x);
      var m9 := LogMul(pow, log, 0x09, x);
      var m13 := LogMul(pow, log, 0x0D, x);
      var m11 := LogMul(pow, log, 0x0B, x);
      w := (m14 as bv32) ^ ((m9 as bv32) << 8) ^ ((m13 as bv32) << 16) ^ ((m11 as bv32) << 24);
      MixFirst(x);
      PackByXor(m14, m9, m13, m11);
    }
  }

  /** The four tables of one direction differ by rotations only. */
  method StoreRotations(t: array2<bv32>, i: nat, w: bv32)
    requires t.Length0 == 4 && t.Length1 == 256 && i < 256
    modifies t
    ensures forall r: nat :: r < 4 ==> t[r, i] == Rotated(r, w)
    ensures forall r: nat, j: nat :: r < 4 && j < 256 && j != i ==> t[r, j] == old(t[r, j])
  {
    hide Rotl8;
    t[0, i] := w;
    t[1, i] := Rotl8(t[0, i]);
    t[2, i] := Rotl8(t[1, i]);
    t[3, i] := Rotl8(t[2, i]);
    assert Rotated(1, w) == Rotl8(Rotated(0, w)) && Rotated(2, w) == Rotl8(Rotated(1, w)) && Rotated(3, w) == Rotl8(Rotated(2, w));
  }

  lemma {:induction false} SBoxOfZero()
    ensures SBox(0) == 0x63
  {
  }
}
