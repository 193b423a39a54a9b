/** aes_setkey_dec and aes_crypt_ecb: table-driven rounds against the cipher and inverse cipher of FIPS 197. */
module AesCipher {
  import opened Bytes
  import opened Gf256
  import opened Fips197
  import opened AesTables
  import opened AesKeys

  // ----- sums of table entries

  lemma {:induction false} AddColumnAssoc(a: Column, b: Column, c: Column)
    ensures AddColumn(AddColumn(a, b), c) == AddColumn(a, AddColumn(b, c))
    ensures AddColumn(a, b) == AddColumn(b, a)
  {
  }

  function Sum4(u0: Column, u1: Column, u2: Column, u3: Column): Column {
    AddColumn(AddColumn(AddColumn(u0, u1), u2), u3)
  }

  lemma {:induction false} KeyLast(k: Column, u0: Column, u1: Column, u2: Column, u3: Column)
    ensures AddColumn(AddColumn(AddColumn(AddColumn(k, u0), u1), u2), u3) == AddColumn(Sum4(u0, u1, u2, u3), k)
  {
    hide AddColumn;
    AddColumnAssoc(k, u0, u1);
    AddColumnAssoc(k, AddColumn(u0, u1), u2);
    AddColumnAssoc(k, AddColumn(AddColumn(u0, u1), u2), u3);
    AddColumnAssoc(k, Sum4(u0, u1, u2, u3), k);
  }

  lemma {:induction false} UnitSum(a: bv8, b: bv8, c: bv8, d: bv8)
    ensures Sum4(Unit(0, a), Unit(1, b), Unit(2, c), Unit(3, d)) == Column(a, b, c, d)
  {
    assert Unit(1, b) == Column(0, b, 0, 0);
    assert Unit(1, c) == Column(0, c, 0, 0) && Unit(2, c) == Column(0, 0, c, 0);
    assert Unit(1, d) == Column(0, d, 0, 0);
    assert Unit(2, d) == Column(0, 0, d, 0);
    assert Unit(3, d) == Column(0, 0, 0, d);
    hide Unit;
    AddLaws(a, 0);
    AddLaws(0, b);
    AddLaws(b, 0);
    AddLaws(0, c);
    AddLaws(c, 0);
    AddLaws(0, d);
    AddLaws(0, 0);
  }

  lemma {:induction false} MixSum4(u0: Column, u1: Column, u2: Column, u3: Column)
    ensures MixColumn(Sum4(u0, u1, u2, u3)) == Sum4(MixColumn(u0), MixColumn(u1), MixColumn(u2), MixColumn(u3))
    ensures InvMixColumn(Sum4(u0, u1, u2, u3)) == Sum4(InvMixColumn(u0), InvMixColumn(u1), InvMixColumn(u2), InvMixColumn(u3))
  {
    hide MixColumn, InvMixColumn, AddColumn;
    MixAdd(u0, u1);
    MixAdd(AddColumn(u0, u1), u2);
    MixAdd(AddColumn(AddColumn(u0, u1), u2), u3);
  }

  lemma {:induction false} UnpackSum(k: bv32, w0: bv32, w1: bv32, w2: bv32, w3: bv32)
    ensures Unpack(Xor(Xor(Xor(Xor(k, w0), w1), w2), w3))
         == AddColumn(Sum4(Unpack(w0), Unpack(w1), Unpack(w2), Unpack(w3)), Unpack(k))
  {
    hide Unpack, Xor, AddColumn, Sum4;
    UnpackXor(Xor(Xor(Xor(k, w0), w1), w2), w3);
    UnpackXor(Xor(Xor(k, w0), w1), w2);
    UnpackXor(Xor(k, w0), w1);
    UnpackXor(k, w0);
    KeyLast(Unpack(k), Unpack(w0), Unpack(w1), Unpack(w2), Unpack(w3));
  }

  lemma {:induction false} UnpackEntries(r: nat, x: bv8)
    ensures Unpack(Forward(r, x)) == MixColumn(Unit(r, SBox(x)))
    ensures Unpack(Reverse(r, x)) == InvMixColumn(Unit(r, InvSBox(x)))
  {
    hide MixColumn, InvMixColumn, SBox, InvSBox, Unpack, Pack, Unit;
    UnpackPack(MixColumn(Unit(r, SBox(x))));
    UnpackPack(InvMixColumn(Unit(r, InvSBox(x))));
  }

  /** A round key word and four forward table entries make one column of a round. */
  lemma {:induction false} ForwardSum(k: bv32, a: bv8, b: bv8, c: bv8, d: bv8)
    ensures Unpack(Xor(Xor(Xor(Xor(k, Forward(0, a)), Forward(1, b)), Forward(2, c)), Forward(3, d)))
         == AddColumn(MixColumn(SubColumn(Column(a, b, c, d))), Unpack(k))
  {
    hide MixColumn, SBox, Unpack, Xor, Unit, Forward, Reverse, Sum4, AddColumn;
    UnpackSum(k, Forward(0, a), Forward(1, b), Forward(2, c), Forward(3, d));
    UnpackEntries(0, a);
    UnpackEntries(1, b);
    UnpackEntries(2, c);
    UnpackEntries(3, d);
    MixSum4(Unit(0, SBox(a)), Unit(1, SBox(b)), Unit(2, SBox(c)), Unit(3, SBox(d)));
    UnitSum(SBox(a), SBox(b), SBox(c), SBox(d));
  }

  lemma {:induction false} ReverseSum(k: bv32, a: bv8, b: bv8, c: bv8, d: bv8)
    ensures Unpack(Xor(Xor(Xor(Xor(k, Reverse(0, a)), Reverse(1, b)), Reverse(2, c)), Reverse(3, d)))
         == AddColumn(InvMixColumn(InvSubColumn(Column(a, b, c, d))), Unpack(k))
  {
    hide InvMixColumn, InvSBox, Unpack, Xor, Unit, Forward, Reverse, Sum4, AddColumn;
    UnpackSum(k, Reverse(0, a), Reverse(1, b), Reverse(2, c), Reverse(3, d));
    UnpackEntries(0, a);
    UnpackEntries(1, b);
    UnpackEntries(2, c);
    UnpackEntries(3, d);
    MixSum4(Unit(0, InvSBox(a)), Unit(1, InvSBox(b)), Unit(2, InvSBox(c)), Unit(3, InvSBox(d)));
    UnitSum(InvSBox(a), InvSBox(b), InvSBox(c), InvSBox(d));
  }

  // ----- the decryption key schedule

  /** Word i of the decryption schedule: the rounds in reverse, the inner ones through InvMixColumns. */
  ghost function DecWord(key: seq<Column>, i: nat): Column
    requires |key| > 0 && i < 4 * (|key| + 7)
  {
    var nr := |key| + 6;
    var w := KeyWord(key, 4 * (nr - i / 4) + i % 4);
    if i < 4 || i >= 4 * nr then w else InvMixColumn(w)
  }

  ghost predicate DecFilled(ctx: Context, key: seq<Column>, n: nat)
    reads ctx.buf
  {
    && |key| in {4, 6, 8} && n <= 4 * (|key| + 7) && ctx.buf.Length == 68
    && forall i: nat :: i < n ==> Unpack(ctx.buf[i]) == DecWord(key, i)
  }

  ghost predicate Decrypts(ctx: Context, key: seq<Column>)
    reads ctx, ctx.buf
  {
    |key| in {4, 6, 8} && ctx.nr == |key| + 6 && DecFilled(ctx, key, 4 * ctx.nr + 4)
  }

  method StoreDec(ctx: Context, ghost key: seq<Column>, n: nat, v: bv32)
    requires DecFilled(ctx, key, n) && n < 4 * (|key| + 7) && Unpack(v) == DecWord(key, n)
    modifies ctx.buf
    ensures DecFilled(ctx, key, n + 1)
  {
    hide Unpack, DecWord;
    ctx.buf[n] := v;
  }

  /** RT0[FSb[.]] ^ RT1[FSb[.]] ^ RT2[FSb[.]] ^ RT3[FSb[.]]: InvMixColumns of one word. */
  method InvMixWord(t: Tables, w: bv32) returns (v: bv32)
    requires t.Valid()
    ensures Unpack(v) == InvMixColumn(Unpack(w))
  {
    var c := Unpack(w);
    hide SBox, InvSBox, Unpack, Xor, Reverse, InvMixColumn, Tables.BoxesValid, Tables.RowsValid;
    var s0 := LookupFSb(t, c.b0);
    var s1 := LookupFSb(t, c.b1);
    var s2 := LookupFSb(t, c.b2);
    var s3 := LookupFSb(t, c.b3);
    var r0 := LookupRT(t, 0, s0);
    var r1 := LookupRT(t, 1, s1);
    var r2 := LookupRT(t, 2, s2);
    var r3 := LookupRT(t, 3, s3);
    v := Xor(Xor(Xor(r0, r1), r2), r3);
    ReverseOfForward(c, r0, r1, r2, r3);
  }

  lemma {:induction false} ReverseOfForward(c: Column, r0: bv32, r1: bv32, r2: bv32, r3: bv32)
    requires r0 == Reverse(0, SBox(c.b0)) && r1 == Reverse(1, SBox(c.b1))
    requires r2 == Reverse(2, SBox(c.b2)) && r3 == Reverse(3, SBox(c.b3))
    ensures Unpack(Xor(Xor(Xor(r0, r1), r2), r3)) == InvMixColumn(c)
  {
    hide SBox, InvSBox, Unpack, Xor, Reverse, Forward, InvMixColumn, AddColumn;
    SubColumnInverts(c);
    UnpackXor(Xor(Xor(r0, r1), r2), r3);
    UnpackXor(Xor(r0, r1), r2);
    UnpackXor(r0, r1);
    UnpackEntries(0, SBox(c.b0));
    UnpackEntries(1, SBox(c.b1));
    UnpackEntries(2, SBox(c.b2));
    UnpackEntries(3, SBox(c.b3));
    MixSum4(Unit(0, c.b0), Unit(1, c.b1), Unit(2, c.b2), Unit(3, c.b3));
    UnitSum(c.b0, c.b1, c.b2, c.b3);
  }

  method CopyFour(ctx: Context, cty: Context, ghost key: seq<Column>, rk: nat, sk: nat)
    requires ctx.buf != cty.buf && cty.Encrypts(key) && cty.buf.Length == 68
    requires DecFilled(ctx, key, rk) && (rk == 0 || rk == 4 * cty.nr) && sk == 4 * cty.nr - rk
    modifies ctx.buf
    ensures DecFilled(ctx, key, rk + 4)
  {
    hide Unpack, KeyWord;
    for j := 0 to 4
      invariant DecFilled(ctx, key, rk + j)
    {
      StoreDec(ctx, key, rk + j, cty.buf[sk + j]);
    }
  }

  method MixFour(ctx: Context, cty: Context, t: Tables, ghost key: seq<Column>, rk: nat, sk: nat, ghost r: nat)
    requires t.Valid() && ctx.buf !in t.Arrays()
    requires ctx.buf != cty.buf && cty.Encrypts(key) && cty.buf.Length == 68
    requires DecFilled(ctx, key, rk) && 1 <= r < cty.nr && rk == 4 * r && sk == 4 * (cty.nr - r)
    modifies ctx.buf
    ensures DecFilled(ctx, key, rk + 4)
  {
    hide Unpack, KeyWord, InvMixColumn, Tables.Valid;
    for j := 0 to 4
      invariant DecFilled(ctx, key, rk + j) && t.Valid()
    {
      var v := InvMixWord(t, cty.buf[sk + j]);
      StoreDec(ctx, key, rk + j, v);
    }
  }

  /** Copies the encryption schedule backwards, with the write pointer rk and the read pointer sk. */
  method FillDec(ctx: Context, cty: Context, t: Tables, ghost key: seq<Column>)
    requires t.Valid() && ctx.buf !in t.Arrays()
    requires ctx.buf != cty.buf && cty.Encrypts(key) && cty.buf.Length == 68
    requires DecFilled(ctx, key, 0) && ctx.nr == cty.nr
    modifies ctx.buf
    ensures Decrypts(ctx, key)
  {
    hide Tables.Valid, DecFilled, Context.Expanded;
    var sk := cty.nr * 4;
    var rk := 0;
    CopyFour(ctx, cty, key, rk, sk);
    rk := rk + 4;
    sk := sk + 4;
    var i := ctx.nr - 1;
    sk := sk - 8;
    while i > 0
      invariant 0 <= i < ctx.nr && rk == 4 * (ctx.nr - i) && sk == 4 * i
      invariant cty.Encrypts(key) && DecFilled(ctx, key, rk) && t.Valid()
    {
      MixFour(ctx, cty, t, key, rk, sk, ctx.nr - i);
      rk := rk + 4;
      sk := sk + 4;
      i := i - 1;
      sk := sk - 8;
    }
    CopyFour(ctx, cty, key, rk, sk);
  }

  /** aes_setkey_dec */
  method SetKeyDec(ctx: Context, t: Tables, key: seq<bv8>, keysize: int) returns (ret: int)
    requires t.Ready() && ctx.buf !in t.Arrays() && ctx.buf.Length == 68
    requires keysize in {128, 192, 256} ==> |key| >= keysize / 8
    modifies ctx, ctx.buf, t, t.Arrays()
    ensures t.Ready()
    ensures keysize in {128, 192, 256} ==> t.initDone && ret == 0 && Decrypts(ctx, KeyColumns(key, keysize / 32))
    ensures keysize !in {128, 192, 256} ==> ret == -0x0800 && ctx.nr == old(ctx.nr) && ctx.buf[..] == old(ctx.buf[..])
  {
    if keysize == 128 {
      ctx.nr := 10;
    } else if keysize == 192 {
      ctx.nr := 12;
    } else if keysize == 256 {
      ctx.nr := 14;
    } else {
      return POLARSSL_ERR_AES_INVALID_KEY_LENGTH;
    }
    hide KeyColumns, Tables.Valid, DecFilled;
    var cty := new Context();
    ret := cty.SetKeyEnc(t, key, keysize);
    if ret != 0 {
      return;
    }
    StartDec(ctx, KeyColumns(key, keysize / 32));
    FillDec(ctx, cty, t, KeyColumns(key, keysize / 32));
  }

  lemma {:induction false} StartDec(ctx: Context, key: seq<Column>)
    requires |key| in {4, 6, 8} && ctx.buf.Length == 68
    ensures DecFilled(ctx, key, 0)
  {
  }

  // ----- blocks

  function BlockState(b: seq<bv8>): State
    requires |b| == 16
  {
    State(Column(b[0], b[1], b[2], b[3]), Column(b[4], b[5], b[6], b[7]),
          Column(b[8], b[9], b[10], b[11]), Column(b[12], b[13], b[14], b[15]))
  }

  function ColumnBytes(c: Column): (b: seq<bv8>)
    ensures |b| == 4
  {
    [c.b0, c.b1, c.b2, c.b3]
  }

  function StateBlock(s: State): (b: seq<bv8>)
    ensures |b| == 16
  {
    ColumnBytes(s.c0) + ColumnBytes(s.c1) + ColumnBytes(s.c2) + ColumnBytes(s.c3)
  }

  lemma {:induction false} BlocksAreStates(b: seq<bv8>, s: State)
    requires |b| == 16
    ensures StateBlock(BlockState(b)) == b && BlockState(StateBlock(s)) == s
  {
  }

  function StateOf(x0: bv32, x1: bv32, x2: bv32, x3: bv32): State {
    State(Unpack(x0), Unpack(x1), Unpack(x2), Unpack(x3))
  }

  ghost function ScheduleKey(ctx: Context, r: nat): State
    requires 4 * r + 4 <= ctx.buf.Length
    reads ctx.buf
  {
    StateOf(ctx.buf[4 * r], ctx.buf[4 * r + 1], ctx.buf[4 * r + 2], ctx.buf[4 * r + 3])
  }

  // ----- rounds

  method ForwardColumn(t: Tables, k: bv32, c: Column) returns (x: bv32)
    requires t.Valid()
    ensures Unpack(x) == AddColumn(MixColumn(SubColumn(c)), Unpack(k))
  {
    hide MixColumn, SBox, Unpack, Xor, Forward, Tables.RowsValid, Tables.BoxesValid;
    var f0 := LookupFT(t, 0, c.b0);
    var f1 := LookupFT(t, 1, c.b1);
    var f2 := LookupFT(t, 2, c.b2);
    var f3 := LookupFT(t, 3, c.b3);
    x := Xor(Xor(Xor(Xor(k, f0), f1), f2), f3);
    ForwardSum(k, c.b0, c.b1, c.b2, c.b3);
  }

  method ReverseColumn(t: Tables, k: bv32, c: Column) returns (x: bv32)
    requires t.Valid()
    ensures Unpack(x) == AddColumn(InvMixColumn(InvSubColumn(c)), Unpack(k))
  {
    hide InvMixColumn, InvSBox, Unpack, Xor, Reverse, Tables.RowsValid, Tables.BoxesValid;
    var r0 := LookupRT(t, 0, c.b0);
    var r1 := LookupRT(t, 1, c.b1);
    var r2 := LookupRT(t, 2, c.b2);
    var r3 := LookupRT(t, 3, c.b3);
    x := Xor(Xor(Xor(Xor(k, r0), r1), r2), r3);
    ReverseSum(k, c.b0, c.b1, c.b2, c.b3);
  }

  method LastForward(t: Tables, k: bv32, c: Column) returns (x: bv32)
    requires t.Valid()
    ensures Unpack(x) == AddColumn(SubColumn(c), Unpack(k))
  {
    hide SBox, Unpack, Xor, AddColumn, SubColumn, Tables.RowsValid, Tables.BoxesValid;
    var s := SubLanes(t, c);
    UnpackXor(k, s);
    AddColumnAssoc(Unpack(k), Unpack(s), Unpack(s));
    x := Xor(k, s);
  }

  method LastReverse(t: Tables, k: bv32, c: Column) returns (x: bv32)
    requires t.Valid()
    ensures Unpack(x) == AddColumn(InvSubColumn(c), Unpack(k))
  {
    hide InvSBox, Unpack, Xor, AddColumn, Tables.RowsValid, Tables.BoxesValid;
    var s0 := LookupRSb(t, c.b0);
    var s1 := LookupRSb(t, c.b1);
    var s2 := LookupRSb(t, c.b2);
    var s3 := LookupRSb(t, c.b3);
    var s := (s0 as bv32) ^ ((s1 as bv32) << 8) ^ ((s2 as bv32) << 16) ^ ((s3 as bv32) << 24);
    Lanes(s0, s1, s2, s3);
    UnpackXor(k, s);
    AddColumnAssoc(Unpack(k), Unpack(s), Unpack(s));
    x := Xor(k, s);
  }

  /** ForwardRound with round key r. */
  method ForwardRound(ctx: Context, t: Tables, r: nat, y0: bv32, y1: bv32, y2: bv32, y3: bv32)
      returns (x0: bv32, x1: bv32, x2: bv32, x3: bv32)
    requires t.Valid() && 4 * r + 4 <= ctx.buf.Length
    ensures StateOf(x0, x1, x2, x3)
         == AddState(MixColumns(ShiftRows(SubBytes(StateOf(y0, y1, y2, y3)))), ScheduleKey(ctx, r))
  {
    var c0, c1, c2, c3 := Unpack(y0), Unpack(y1), Unpack(y2), Unpack(y3);
    hide Unpack, MixColumn, SBox, AddColumn, Tables.Valid;
    x0 := ForwardColumn(t, ctx.buf[4 * r], Column(c0.b0, c1.b1, c2.b2, c3.b3));
    x1 := ForwardColumn(t, ctx.buf[4 * r + 1], Column(c1.b0, c2.b1, c3.b2, c0.b3));
    x2 := ForwardColumn(t, ctx.buf[4 * r + 2], Column(c2.b0, c3.b1, c0.b2, c1.b3));
    x3 := ForwardColumn(t, ctx.buf[4 * r + 3], Column(c3.b0, c0.b1, c1.b2, c2.b3));
  }

  /** ReverseRound with decryption round key r. */
  method ReverseRound(ctx: Context, t: Tables, r: nat, y0: bv32, y1: bv32, y2: bv32, y3: bv32)
      returns (x0: bv32, x1: bv32, x2: bv32, x3: bv32)
    requires t.Valid() && 4 * r + 4 <= ctx.buf.Length
    ensures StateOf(x0, x1, x2, x3)
         == AddState(InvMixColumns(InvSubBytes(InvShiftRows(StateOf(y0, y1, y2, y3)))), ScheduleKey(ctx, r))
  {
    var c0, c1, c2, c3 := Unpack(y0), Unpack(y1), Unpack(y2), Unpack(y3);
    hide Unpack, InvMixColumn, InvSBox, AddColumn, Tables.Valid;
    x0 := ReverseColumn(t, ctx.buf[4 * r], Column(c0.b0, c3.b1, c2.b2, c1.b3));
    x1 := ReverseColumn(t, ctx.buf[4 * r + 1], Column(c1.b0, c0.b1, c3.b2, c2.b3));
    x2 := ReverseColumn(t, ctx.buf[4 * r + 2], Column(c2.b0, c1.b1, c0.b2, c3.b3));
    x3 := ReverseColumn(t, ctx.buf[4 * r + 3], Column(c3.b0, c2.b1, c1.b2, c0.b3));
  }

  method LastForwardRound(ctx: Context, t: Tables, r: nat, y0: bv32, y1: bv32, y2: bv32, y3: bv32)
      returns (x0: bv32, x1: bv32, x2: bv32, x3: bv32)
    requires t.Valid() && 4 * r + 4 <= ctx.buf.Length
    ensures StateOf(x0, x1, x2, x3) == AddState(ShiftRows(SubBytes(StateOf(y0, y1, y2, y3))), ScheduleKey(ctx, r))
  {
    var c0, c1, c2, c3 := Unpack(y0), Unpack(y1), Unpack(y2), Unpack(y3);
    hide Unpack, SBox, AddColumn, Tables.Valid;
    x0 := LastForward(t, ctx.buf[4 * r], Column(c0.b0, c1.b1, c2.b2, c3.b3));
    x1 := LastForward(t, ctx.buf[4 * r + 1], Column(c1.b0, c2.b1, c3.b2, c0.b3));
    x2 := LastForward(t, ctx.buf[4 * r + 2], Column(c2.b0, c3.b1, c0.b2, c1.b3));
    x3 := LastForward(t, ctx.buf[4 * r + 3], Column(c3.b0, c0.b1, c1.b2, c2.b3));
  }

  method LastReverseRound(ctx: Context, t: Tables, r: nat, y0: bv32, y1: bv32, y2: bv32, y3: bv32)
      returns (x0: bv32, x1: bv32, x2: bv32, x3: bv32)
    requires t.Valid() && 4 * r + 4 <= ctx.buf.Length
    ensures StateOf(x0, x1, x2, x3) == AddState(InvSubBytes(InvShiftRows(StateOf(y0, y1, y2, y3))), ScheduleKey(ctx, r))
  {
    var c0, c1, c2, c3 := Unpack(y0), Unpack(y1), Unpack(y2), Unpack(y3);
    hide Unpack, InvSBox, AddColumn, Tables.Valid;
    x0 := LastReverse(t, ctx.buf[4 * r], Column(c0.b0, c3.b1, c2.b2, c1.b3));
    x1 := LastReverse(t, ctx.buf[4 * r + 1], Column(c1.b0, c0.b1, c3.b2, c2.b3));
    x2 := LastReverse(t, ctx.buf[4 * r + 2], Column(c2.b0, c1.b1, c0.b2, c3.b3));
    x3 := LastReverse(t, ctx.buf[4 * r + 3], Column(c3.b0, c2.b1, c1.b2, c0.b3));
  }

  // ----- the schedules are the round keys

  lemma {:induction false} EncScheduleKey(ctx: Context, key: seq<Column>, r: nat)
    requires ctx.Encrypts(key) && r <= ctx.nr
    ensures ScheduleKey(ctx, r) == RoundKey(key, r)
  {
    hide Unpack, KeyWord;
  }

  lemma {:induction false} DecScheduleKey(ctx: Context, key: seq<Column>, r: nat)
    requires Decrypts(ctx, key) && r <= ctx.nr
    ensures ScheduleKey(ctx, r)
         == if r == 0 || r == ctx.nr then RoundKey(key, ctx.nr - r) else InvMixColumns(RoundKey(key, ctx.nr - r))
  {
    hide Unpack, KeyWord, InvMixColumn;
    DecScheduleWord(ctx, key, r, 0);
    DecScheduleWord(ctx, key, r, 1);
    DecScheduleWord(ctx, key, r, 2);
    DecScheduleWord(ctx, key, r, 3);
  }

  lemma {:induction false} DecScheduleWord(ctx: Context, key: seq<Column>, r: nat, j: nat)
    requires Decrypts(ctx, key) && r <= ctx.nr && j < 4
    ensures var w := KeyWord(key, 4 * (ctx.nr - r) + j);
            Unpack(ctx.buf[4 * r + j]) == if r == 0 || r == ctx.nr then w else InvMixColumn(w)
  {
    hide Unpack, KeyWord, InvMixColumn;
    assert (4 * r + j) / 4 == r && (4 * r + j) % 4 == j;
  }

  /** The equivalent inverse cipher: a round key moves through InvMixColumns. */
  lemma {:induction false} InvRoundByColumns(key: seq<Column>, s: State, k: nat)
    requires |key| > 0 && 0 < k <= |key| + 6
    ensures InvRounds(key, s, k)
         == AddState(InvMixColumns(InvSubBytes(InvShiftRows(InvRounds(key, s, k - 1)))), InvMixColumns(RoundKey(key, |key| + 6 - k)))
  {
    var p, q := InvSubBytes(InvShiftRows(InvRounds(key, s, k - 1))), RoundKey(key, |key| + 6 - k);
    assert InvRounds(key, s, k) == InvMixColumns(AddState(p, q));
    hide InvMixColumn, AddColumn, InvRounds, RoundKey;
    MixAdd(p.c0, q.c0);
    MixAdd(p.c1, q.c1);
    MixAdd(p.c2, q.c2);
    MixAdd(p.c3, q.c3);
  }

  method EncryptRounds(ctx: Context, t: Tables, ghost key: seq<Column>, ghost s: State, w0: bv32, w1: bv32, w2: bv32,
          w3: bv32)
      returns (x0: bv32, x1: bv32, x2: bv32, x3: bv32)
    requires t.Valid() && ctx.Encrypts(key) && ctx.buf.Length == 68
    requires StateOf(w0, w1, w2, w3) == Rounds(key, s, 0)
    ensures StateOf(x0, x1, x2, x3) == Cipher(key, s)
  {
    hide StateOf, AddState, MixColumns, ShiftRows, SubBytes, ScheduleKey, RoundKey, Tables.Valid, Context.Encrypts;
    x0, x1, x2, x3 := w0, w1, w2, w3;
    var y0, y1, y2, y3;
    assert ctx.nr == |key| + 6 && |key| in {4, 6, 8} && 4 * ctx.nr + 4 <= 60 by {
      EncryptsSize(ctx, key);
    }
    var r := 0;
    var i := ctx.nr / 2 - 1;
    while i > 0
      invariant 0 <= i && r == ctx.nr - 2 - 2 * i
      invariant StateOf(x0, x1, x2, x3) == Rounds(key, s, r)
    {
      EncScheduleKey(ctx, key, r + 1);
      EncScheduleKey(ctx, key, r + 2);
      y0, y1, y2, y3 := ForwardRound(ctx, t, r + 1, x0, x1, x2, x3);
      assert StateOf(y0, y1, y2, y3) == Rounds(key, s, r + 1);
      x0, x1, x2, x3 := ForwardRound(ctx, t, r + 2, y0, y1, y2, y3);
      r := r + 2;
      i := i - 1;
    }
    EncScheduleKey(ctx, key, r + 1);
    EncScheduleKey(ctx, key, r + 2);
    y0, y1, y2, y3 := ForwardRound(ctx, t, r + 1, x0, x1, x2, x3);
    x0, x1, x2, x3 := LastForwardRound(ctx, t, r + 2, y0, y1, y2, y3);
  }

  lemma {:induction false} EncryptsSize(ctx: Context, key: seq<Column>)
    requires ctx.Encrypts(key)
    ensures ctx.nr == |key| + 6 && |key| in {4, 6, 8} && 4 * ctx.nr + 4 <= 60
  {
  }

  lemma {:induction false} DecryptsSize(ctx: Context, key: seq<Column>)
    requires Decrypts(ctx, key)
    ensures ctx.nr == |key| + 6 && |key| in {4, 6, 8} && 4 * ctx.nr + 4 <= 60
  {
  }

  method DecryptRounds(ctx: Context, t: Tables, ghost key: seq<Column>, ghost s: State, w0: bv32, w1: bv32, w2: bv32,
          w3: bv32)
      returns (x0: bv32, x1: bv32, x2: bv32, x3: bv32)
    requires t.Valid() && Decrypts(ctx, key) && ctx.buf.Length == 68
    requires StateOf(w0, w1, w2, w3) == InvRounds(key, s, 0)
    ensures StateOf(x0, x1, x2, x3) == InvCipher(key, s)
  {
    hide StateOf, AddState, InvMixColumns, InvShiftRows, InvSubBytes, ScheduleKey, RoundKey, Tables.Valid, Decrypts;
    x0, x1, x2, x3 := w0, w1, w2, w3;
    var y0, y1, y2, y3;
    assert ctx.nr == |key| + 6 && |key| in {4, 6, 8} && 4 * ctx.nr + 4 <= 60 by {
      DecryptsSize(ctx, key);
    }
    var r := 0;
    var i := ctx.nr / 2 - 1;
    while i > 0
      invariant 0 <= i && r == ctx.nr - 2 - 2 * i
      invariant StateOf(x0, x1, x2, x3) == InvRounds(key, s, r)
    {
      DecScheduleKey(ctx, key, r + 1);
      DecScheduleKey(ctx, key, r + 2);
      y0, y1, y2, y3 := ReverseRound(ctx, t, r + 1, x0, x1, x2, x3);
      InvRoundByColumns(key, s, r + 1);
      x0, x1, x2, x3 := ReverseRound(ctx, t, r + 2, y0, y1, y2, y3);
      InvRoundByColumns(key, s, r + 2);
      r := r + 2;
      i := i - 1;
    }
    DecScheduleKey(ctx, key, r + 1);
    DecScheduleKey(ctx, key, r + 2);
    y0, y1, y2, y3 := ReverseRound(ctx, t, r + 1, x0, x1, x2, x3);
    InvRoundByColumns(key, s, r + 1);
    x0, x1, x2, x3 := LastReverseRound(ctx, t, r + 2, y0, y1, y2, y3);
  }

  // ----- aes_crypt_ecb

  /** The block cipher on sixteen bytes, in the given direction. */
  ghost function Ecb(key: seq<Column>, mode: int, b: seq<bv8>): (c: seq<bv8>)
    requires |key| > 0 && |b| == 16
    ensures |c| == 16
  {
    StateBlock(if mode == AES_DECRYPT then InvCipher(key, BlockState(b)) else Cipher(key, BlockState(b)))
  }

  /** The context carries the schedule its mode needs. */
  ghost predicate Keyed(ctx: Context, key: seq<Column>, mode: int)
    reads ctx, ctx.buf
  {
    ctx.buf.Length == 68 && if mode == AES_DECRYPT then Decrypts(ctx, key) else ctx.Encrypts(key)
  }

  method PutUlongLE(w: bv32, b: array<bv8>, i: nat)
    requires i + 4 <= b.Length
    modifies b
    ensures b[..] == Splice(old(b[..]), i, ColumnBytes(Unpack(w)))
  {
    b[i] := (w & 0xFF) as bv8;
    b[i + 1] := ((w >> 8) & 0xFF) as bv8;
    b[i + 2] := ((w >> 16) & 0xFF) as bv8;
    b[i + 3] := ((w >> 24) & 0xFF) as bv8;
  }

  method PutBlock(x0: bv32, x1: bv32, x2: bv32, x3: bv32, b: array<bv8>, o: nat)
    requires o + 16 <= b.Length
    modifies b
    ensures b[..] == Splice(old(b[..]), o, StateBlock(StateOf(x0, x1, x2, x3)))
  {
    hide Unpack, Splice, ColumnBytes;
    ghost var c0, c1 := ColumnBytes(Unpack(x0)), ColumnBytes(Unpack(x1));
    ghost var c2, c3 := ColumnBytes(Unpack(x2)), ColumnBytes(Unpack(x3));
    PutUlongLE(x0, b, o);
    PutUlongLE(x1, b, o + 4);
    SpliceTwice(old(b[..]), o, c0, c1);
    PutUlongLE(x2, b, o + 8);
    SpliceTwice(old(b[..]), o, c0 + c1, c2);
    PutUlongLE(x3, b, o + 12);
    SpliceTwice(old(b[..]), o, c0 + c1 + c2, c3);
  }

  /** The first AddRoundKey, on words read by GET_ULONG_LE. */
  lemma {:induction false} Whitening(b: seq<bv8>, k0: bv32, k1: bv32, k2: bv32, k3: bv32)
    requires |b| == 16
    ensures StateOf(Xor(GetUlongLE(b, 0), k0), Xor(GetUlongLE(b, 4), k1), Xor(GetUlongLE(b, 8), k2), Xor(GetUlongLE(b, 12), k3))
         == AddState(BlockState(b), StateOf(k0, k1, k2, k3))
  {
    var s := BlockState(b);
    hide Unpack, Xor, Pack, AddColumn;
    UnpackPack(s.c0);
    UnpackPack(s.c1);
    UnpackPack(s.c2);
    UnpackPack(s.c3);
    UnpackXor(Pack(s.c0), k0);
    UnpackXor(Pack(s.c1), k1);
    UnpackXor(Pack(s.c2), k2);
    UnpackXor(Pack(s.c3), k3);
  }

  /** Encrypts or decrypts the block input[i..i + 16] into output[o..o + 16]; the two may overlap. */
  method CryptEcb(ctx: Context, t: Tables, ghost key: seq<Column>, mode: int, input: array<bv8>, i: nat,
          output: array<bv8>, o: nat)
    requires t.Valid() && Keyed(ctx, key, mode)
    requires i + 16 <= input.Length && o + 16 <= output.Length
    modifies output
    ensures output[..] == Splice(old(output[..]), o, Ecb(key, mode, old(input[i..i + 16])))
  {
    ghost var b := input[i..i + 16];
    var x0, x1, x2, x3 := StartBlock(ctx, input, i);
    hide StateOf, StateBlock, BlockState, Rounds, InvRounds, Cipher, InvCipher, RoundKey, ScheduleKey, AddState;
    if mode == AES_DECRYPT {
      assert StateOf(x0, x1, x2, x3) == InvRounds(key, BlockState(b), 0) by {
        DecryptsSize(ctx, key);
        DecScheduleKey(ctx, key, 0);
        FirstAdd(key, BlockState(b));
      }
      x0, x1, x2, x3 := DecryptRounds(ctx, t, key, BlockState(b), x0, x1, x2, x3);
    } else {
      assert StateOf(x0, x1, x2, x3) == Rounds(key, BlockState(b), 0) by {
        EncScheduleKey(ctx, key, 0);
        FirstAdd(key, BlockState(b));
      }
      x0, x1, x2, x3 := EncryptRounds(ctx, t, key, BlockState(b), x0, x1, x2, x3);
    }
    PutBlock(x0, x1, x2, x3, output, o);
  }

  lemma {:induction false} FirstAdd(key: seq<Column>, s: State)
    requires |key| > 0
    ensures Rounds(key, s, 0) == AddState(s, RoundKey(key, 0))
    ensures InvRounds(key, s, 0) == AddState(s, RoundKey(key, |key| + 6))
  {
  }

  method StartBlock(ctx: Context, input: array<bv8>, i: nat) returns (x0: bv32, x1: bv32, x2: bv32, x3: bv32)
    requires ctx.buf.Length == 68 && i + 16 <= input.Length
    ensures StateOf(x0, x1, x2, x3) == AddState(BlockState(input[i..i + 16]), ScheduleKey(ctx, 0))
  {
    var b := input[i..i + 16];
    hide Unpack, Xor, Pack, AddColumn;
    x0 := Xor(GetUlongLE(b, 0), ctx.buf[0]);
    x1 := Xor(GetUlongLE(b, 4), ctx.buf[1]);
    x2 := Xor(GetUlongLE(b, 8), ctx.buf[2]);
    x3 := Xor(GetUlongLE(b, 12), ctx.buf[3]);
    Whitening(b, ctx.buf[0], ctx.buf[1], ctx.buf[2], ctx.buf[3]);
  }

  /** Decryption undoes encryption and the other way round, for every key and every block. */
  lemma {:induction false} EcbInverts(key: seq<Column>, b: seq<bv8>)
    requires |key| > 0 && |b| == 16
    ensures Ecb(key, AES_DECRYPT, Ecb(key, AES_ENCRYPT, b)) == b
    ensures Ecb(key, AES_ENCRYPT, Ecb(key, AES_DECRYPT, b)) == b
  {
    EcbThroughCipher(key, b);
    EcbThroughInvCipher(key, b);
  }

  lemma {:induction false} EcbThroughCipher(key: seq<Column>, b: seq<bv8>)
    requires |key| > 0 && |b| == 16
    ensures Ecb(key, AES_DECRYPT, Ecb(key, AES_ENCRYPT, b)) == b
  {
    var s := BlockState(b);
    hide BlockState, StateBlock, Cipher, InvCipher;
    BlocksAreStates(b, Cipher(key, s));
    InvCipherUndoesCipher(key, s);
  }

  lemma {:induction false} EcbThroughInvCipher(key: seq<Column>, b: seq<bv8>)
    requires |key| > 0 && |b| == 16
    ensures Ecb(key, AES_ENCRYPT, Ecb(key, AES_DECRYPT, b)) == b
  {
    var s := BlockState(b);
    hide BlockState, StateBlock, Cipher, InvCipher;
    BlocksAreStates(b, InvCipher(key, s));
    CipherUndoesInvCipher(key, s);
  }
}
