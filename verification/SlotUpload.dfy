/** The upload round trip: chunks, a commit, and a read of the slot. */
module SlotUpload {
  import opened Bytes
  import opened Dwords
  import opened FlashMemory
  import opened CounterPage
  import opened CounterRuns
  import opened OtpSlots
  import opened HotpValidation
  import opened Output
  import opened ReportAnswers
  import opened ReportState
  import opened ReportRuns

  // ----- the chunks

  function Folded(s: Slot, cs: seq<Chunk>): (r: Slot)
    requires s.Valid() && forall i :: 0 <= i < |cs| ==> |cs[i].data| == CHUNK_SIZE
    ensures r.Valid()
  {
    if cs == [] then s else WithChunk(Folded(s, cs[..|cs| - 1]), cs[|cs| - 1])
  }

  /** An authorised chunk with a valid CRC. */
  predicate IsChunk(d: Device, e: Event)
    requires e.Valid()
  {
    IsCommand(e, CMD_SEND_OTP_DATA) && SendsData(d, e.report)
  }

  predicate AreReports(es: seq<Event>) {
    forall i :: 0 <= i < |es| ==> es[i].Report?
  }

  predicate AreChunks(d: Device, es: seq<Event>)
    requires Events(es)
  {
    forall i :: 0 <= i < |es| ==> IsChunk(d, es[i])
  }

  function ChunksOf(es: seq<Event>, n: nat): (cs: seq<Chunk>)
    requires Events(es) && AreReports(es) && n <= |es|
    ensures |cs| == n && forall i :: 0 <= i < n ==> |cs[i].data| == CHUNK_SIZE
  {
    seq(n, i requires 0 <= i < n => ChunkOf(es[i].report))
  }

  /** After any chunks the record under construction is the fold of their data, from an empty record. */
  lemma {:induction false} UploadFolds(d: Device, es: seq<Event>, n: nat)
    requires d.Valid() && !d.started && Events(es) && n <= |es| && AreReports(es) && AreChunks(d, es)
    ensures After(d, es, n) == if n == 0 then d else d.(started := true, slot := Folded(ZERO_SLOT, ChunksOf(es, n)))
  {
    hide CrcOk, WithChunk, ChunkOf, Step;
    if n > 0 {
      UploadFolds(d, es, n - 1);
      assert ChunksOf(es, n)[..n - 1] == ChunksOf(es, n - 1);
      assert SendsData(d, es[n - 1].report) == SendsData(After(d, es, n - 1), es[n - 1].report);
      ChunkStep(After(d, es, n - 1), es[n - 1]);
    }
  }

  lemma {:induction false} ChunkStep(d: Device, e: Event)
    requires d.Valid() && e.Valid() && IsChunk(d, e)
    ensures Step(d, e) == d.(started := true, slot := WithChunk(if d.started then d.slot else ZERO_SLOT, ChunkOf(e.report)))
  {
    hide CrcOk, WithChunk, ChunkOf, SendsData;
  }

  /** Two chunks with numbers 0 and 1 fill the secret: 30 bytes, then 10. */
  lemma {:induction false} TwoChunksFillSecret(s: Slot, a: seq<bv8>, b: seq<bv8>)
    requires s.Valid() && |a| == CHUNK_SIZE && |b| == CHUNK_SIZE
    ensures WithChunk(WithChunk(s, Chunk(TYPE_SECRET, 0, a)), Chunk(TYPE_SECRET, 1, b)).secret == a + b[..10]
  {
  }

  // ----- the commit

  /** A commit that the command accepts and does not ignore. */
  predicate Succeeds(d: Device, w: seq<bv8>)
    requires d.Valid() && |w| == REPORT_SIZE
  {
    PassesCommit(d, w) && Acceptable(Filled(d.slot, w)) && !Ignored(Filled(d.slot, w))
  }

  /** Status OK of a commit means that the record was stored, except in two cases: an authorise command silenced
      the refusal, or the slot is the last TOTP slot, which is ignored. */
  lemma {:induction false} OkWithoutStoring(d: Device, w: seq<bv8>, accepts: bool, totp: bv32)
    requires d.Valid() && |w| == REPORT_SIZE && CrcOk(w) && w[0] == CMD_WRITE_TO_SLOT
    ensures Body(d, w, accepts, totp)[OUTPUT_CMD_STATUS_OFFSET] == STATUS_OK && !Succeeds(d, w)
       <==> (!Commits(d, w) && d.silenced)
            || (Commits(d, w) && Acceptable(Filled(d.slot, w)) && Ignored(Filled(d.slot, w)))
    ensures Succeeds(d, w) ==> Body(d, w, accepts, totp)[OUTPUT_CMD_STATUS_OFFSET] == STATUS_OK
  {
    hide CrcOk, ValidPassword, Dword, EndianSwap, SlotIndex;
  }

  /** For instance, a commit without the password after an authorise command: nothing happens, status OK. */
  lemma {:induction false} SilencedRefusal(d: Device, w: seq<bv8>, accepts: bool, totp: bv32)
    requires d.Valid() && |w| == REPORT_SIZE && CrcOk(w) && w[0] == CMD_WRITE_TO_SLOT && d.silenced && !Commits(d, w)
    ensures Next(d, w, accepts) == d && Body(d, w, accepts, totp)[OUTPUT_CMD_STATUS_OFFSET] == STATUS_OK
  {
    hide CrcOk, Commits;
  }

  lemma {:induction false} CounterStoredKeepsSlots(f: Image, s: Slot, a: nat, n: nat)
    requires f.Valid() && s.Valid() && a + n <= SLOTS_SIZE
    ensures Region(CounterStored(f, s), SLOTS_ADDRESS + a, n) == Region(f, SLOTS_ADDRESS + a, n)
  {
    hide Region, CounterSet, ToNumber, SlotIndex;
    if IsHotp(s.number) {
      CounterSetElsewhere(f, CounterPageOf(SlotIndex(s.number)), ToNumber(s.interval), SLOTS_ADDRESS + a, n);
    }
  }

  /** What the flash holds after a commit. */
  function Record(d: Device, w: seq<bv8>): (s: Slot)
    requires d.Valid() && |w| == REPORT_SIZE
    ensures s.Valid()
  {
    Kept(Typed(Filled(d.slot, w)), SecretAt(d.flash, SlotOffset(RecordOf(w[26]))))
  }

  lemma {:induction false} CommitStores(d: Device, w: seq<bv8>, accepts: bool)
    requires d.Valid() && |w| == REPORT_SIZE && Succeeds(d, w)
    ensures Next(d, w, accepts).flash
         == SlotWritten(CounterStored(d.flash, Filled(d.slot, w)), SlotOffset(RecordOf(w[26])), Record(d, w))
  {
    hide CrcOk, Unpacked, SlotOffset, CounterStored, SlotWritten, Region, Kept, Typed, Acceptable, Ignored;
    CounterStoredKeepsSlots(d.flash, Filled(d.slot, w), SlotOffset(RecordOf(w[26])), SLOT_BYTES);
  }

  /** The record reads back as it was uploaded. */
  lemma {:induction false} CommitReadsBack(d: Device, w: seq<bv8>, accepts: bool)
    requires d.Valid() && |w| == REPORT_SIZE && Succeeds(d, w)
    ensures SlotAt(Next(d, w, accepts).flash, RecordOf(w[26])) == Record(d, w)
  {
    hide Next, CounterStored, SlotWritten, Record, Unpacked, SlotOffset, Region, Filled, Succeeds;
    CommitStores(d, w, accepts);
    SlotReadsBack(CounterStored(d.flash, Filled(d.slot, w)), SlotOffset(RecordOf(w[26])), Record(d, w));
  }

  /** Every other record, and the global configuration, keeps its bytes. */
  lemma {:induction false} CommitKeepsOthers(d: Device, w: seq<bv8>, accepts: bool, a: nat, n: nat)
    requires d.Valid() && |w| == REPORT_SIZE && Succeeds(d, w) && a + n <= SLOTS_SIZE
    requires a + n <= SlotOffset(RecordOf(w[26])) || SlotOffset(RecordOf(w[26])) + SLOT_BYTES <= a
    ensures Region(Next(d, w, accepts).flash, SLOTS_ADDRESS + a, n) == Region(d.flash, SLOTS_ADDRESS + a, n)
  {
    hide Next, CounterStored, SlotWritten, Record, SlotOffset, Region, Filled, Succeeds;
    CommitStores(d, w, accepts);
    var s := Filled(d.slot, w);
    SlotsElsewhere(CounterStored(d.flash, s), SlotOffset(RecordOf(w[26])), Record(d, w), a, n);
    CounterStoredKeepsSlots(d.flash, s, a, n);
  }

  lemma {:induction false} CommitKeepsOtherSlots(d: Device, w: seq<bv8>, accepts: bool, m: nat)
    requires d.Valid() && |w| == REPORT_SIZE && Succeeds(d, w) && m != RecordOf(w[26]) && m <= 17
    ensures SlotAt(Next(d, w, accepts).flash, m) == SlotAt(d.flash, m)
    ensures Region(Next(d, w, accepts).flash, SLOTS_ADDRESS, 64) == Region(d.flash, SLOTS_ADDRESS, 64)
  {
    hide Next, Succeeds, Region, Unpacked, SlotOffset, SlotIndex;
    RecordBound(d, w);
    SlotsOverlap(m, RecordOf(w[26]));
    CommitKeepsOthers(d, w, accepts, SlotOffset(m), SLOT_BYTES);
    CommitKeepsOthers(d, w, accepts, 0, 64);
  }

  lemma {:induction false} RecordBound(d: Device, w: seq<bv8>)
    requires d.Valid() && |w| == REPORT_SIZE && Succeeds(d, w)
    ensures RecordOf(w[26]) <= 17
  {
    hide CrcOk;
  }

  // ----- the counter of a HOTP slot

  lemma {:induction false} CommitSetsCounter(d: Device, w: seq<bv8>, accepts: bool)
    requires d.Valid() && |w| == REPORT_SIZE && Succeeds(d, w) && IsHotp(w[26])
    ensures SlotCounter(Next(d, w, accepts).flash, SlotIndex(w[26])) == ToNumber(EndianSwap(Dword(w[27..35])))
  {
    hide Next, SlotsRewritten, Record, Region, Succeeds, EndianSwap, Dword, ToNumber, CounterValue, CounterSet,
      Shaped, SlotIndex,
      SlotsWith;
    CommitStores(d, w, accepts);
    var s := Filled(d.slot, w);
    var p := CounterPageOf(SlotIndex(w[26]));
    var f := CounterStored(d.flash, s);
    CounterSetPage(d.flash, p, ToNumber(s.interval));
    RewrittenElsewhere(f, SlotsWith(f, SlotOffset(RecordOf(w[26])), Record(d, w)), PAGE_SIZE * p, PAGE_SIZE);
    NumberRoundTrip(s.interval);
    ValueOfShape(ToNumber(s.interval), 0);
    WrappedSmall(ToNumber(s.interval));
  }

  // ----- the round trip

  /** The eight bytes of a counter or interval come back in the order of the report. */
  lemma {:induction false} SwappedBytesReturn(b: seq<bv8>)
    requires |b| == 8
    ensures DwordBytes(EndianSwap(EndianSwap(Dword(b)))) == b
    ensures FromNumber(ToNumber(EndianSwap(Dword(b)))) == EndianSwap(Dword(b))
  {
    hide EndianSwap, DwordBytes, Dword, FromNumber, ToNumber;
    EndianSwapTwice(Dword(b));
    DwordRoundTrip(0, b);
    NumberRoundTrip(EndianSwap(Dword(b)));
  }

  /** Reading a committed slot returns the uploaded name, configuration, token id and counter or interval. */
  lemma {:induction false} CommitThenRead(d: Device, w: seq<bv8>, accepts: bool, r: seq<bv8>, totp: bv32)
    requires d.Valid() && |w| == REPORT_SIZE && Succeeds(d, w)
    requires |r| == REPORT_SIZE && CrcOk(r) && r[0] == CMD_READ_SLOT && r[1] == w[26] && r[2] == 1
    ensures Body(Next(d, w, accepts), r, accepts, totp)
         == WithResult(Header(r), d.slot.name + [w[35]] + w[36..49] + w[27..35])
  {
    hide Next, CrcOk, EndianSwap, Dword, DwordBytes, ToNumber, FromNumber, SlotIndex, SlotCounter, Unpacked, Region,
      Splice, Header,
      SecretAt;
    var e := Next(d, w, accepts);
    CommitReadsBack(d, w, accepts);
    SwappedBytesReturn(w[27..35]);
    if IsHotp(w[26]) {
      CommitSetsCounter(d, w, accepts);
    }
    assert Record(d, w).name == d.slot.name && Record(d, w).config == w[35] && Record(d, w).tokenId == w[36..49];
    assert CounterBytes(e.flash, r) == w[27..35];
    assert ReadBytes(e.flash, r) == d.slot.name + [w[35]] + w[36..49] + w[27..35];
    ReadBody(e, r, accepts, totp);
  }

  lemma {:induction false} ReadBody(e: Device, r: seq<bv8>, accepts: bool, totp: bv32)
    requires e.Valid() && |r| == REPORT_SIZE && CrcOk(r) && r[0] == CMD_READ_SLOT
    requires IsHotp(r[1]) || IsTotp(r[1])
    requires SlotProgrammed(e.flash, r[1])
    ensures Body(e, r, accepts, totp) == WithResult(Header(r), ReadBytes(e.flash, r))
  {
    hide CrcOk, ReadBytes, SlotProgrammed, Header, Splice, Region;
  }

  /** An upload from its first chunk to the read: the stored secret is the fold of the chunks, or the old one
      if that is all zero. */
  lemma {:induction false} UploadRoundTrip(d: Device, es: seq<Event>, w: seq<bv8>, accepts: bool, r: seq<bv8>,
          totp: bv32)
    requires d.Valid() && !d.started && Events(es) && |es| > 0 && AreReports(es) && AreChunks(d, es)
    requires |w| == REPORT_SIZE && Succeeds(After(d, es, |es|), w)
    requires |r| == REPORT_SIZE && CrcOk(r) && r[0] == CMD_READ_SLOT && r[1] == w[26] && r[2] == 1
    ensures var up := Folded(ZERO_SLOT, ChunksOf(es, |es|));
            var e := Next(After(d, es, |es|), w, accepts);
            && Body(e, r, accepts, totp) == WithResult(Header(r), up.name + [w[35]] + w[36..49] + w[27..35])
            && SlotAt(e.flash, RecordOf(w[26])).secret
               == if up.secret == Fill(0, SECRET_LENGTH) then SlotAt(d.flash, RecordOf(w[26])).secret else up.secret
  {
    hide Next, CrcOk, IsChunk, Succeeds, SlotIndex, Region, Unpacked, Header, WithResult, Body, EndianSwap, Dword;
    UploadFolds(d, es, |es|);
    var c := After(d, es, |es|);
    CommitThenRead(c, w, accepts, r, totp);
    CommitReadsBack(c, w, accepts);
  }
}
