/** Slot numbers, records and CMD_ERASE_SLOT, on the bytes of the reports. */
module ReportSlots {
  import opened Bytes
  import opened Dwords
  import opened FlashMemory
  import opened OtpSlots
  import opened HotpValidation
  import opened ReportAnswers
  import opened ReportState
  import opened ReportConfig
  import opened SlotUpload
  import Decimal

  /** The numbers 0x10 to 0x13 of the HOTP slots and 0x20 to 0x2E of the TOTP slots. */
  predicate IsSlotNumber(n: bv8) {
    (0x10 <= n && n <= 0x13) || (0x20 <= n && n <= 0x2E)
  }

  /** HOTP slots have records 0 to 3, TOTP slots 4 to 17; the last TOTP slot has the record of the first HOTP slot. */
  function RecordNumber(n: bv8): (r: nat)
    requires IsSlotNumber(n)
    ensures r < 18
  {
    OctetOrder(n);
    if n <= 0x13 then Octet(n) - 0x10 else if n == 0x2E then 0 else Octet(n) - 0x20 + 4
  }

  lemma {:induction false} OctetOrder(n: bv8)
    ensures IsSlotNumber(n) ==> (0x10 <= Octet(n) <= 0x13 || 0x20 <= Octet(n) <= 0x2E) && (n <= 0x13 <==> Octet(n) <= 0x13)
    ensures n == 0x2E <==> Octet(n) == 0x2E
  {
  }

  lemma {:induction false} LowBitsOf(n: bv8)
    ensures 0x10 <= n && n <= 0x13 ==> Octet(n & 0x0F) == Octet(n) - 0x10
    ensures 0x20 <= n && n <= 0x2E ==> Octet(n & 0x0F) == Octet(n) - 0x20
  {
  }

  /** The commands agree with this numbering. */
  lemma {:induction false} NumbersAreRecords(n: bv8)
    ensures IsSlotNumber(n) <==> IsHotp(n) || IsTotp(n)
    ensures IsSlotNumber(n) ==> SlotOffset(RecordOf(n)) == 64 + 79 * RecordNumber(n)
    ensures IsSlotNumber(n) ==> (IsHotp(n) <==> n <= 0x13)
  {
    LowBitsOf(n);
    OctetOrder(n);
  }

  predicate SameRecord(m: bv8, n: bv8)
    requires IsSlotNumber(m) && IsSlotNumber(n)
  {
    RecordNumber(m) == RecordNumber(n)
  }

  /** Two slot numbers share a record only when they are equal, or 0x10 and 0x2E. */
  lemma {:induction false} SharedRecords(m: bv8, n: bv8)
    requires IsSlotNumber(m) && IsSlotNumber(n)
    ensures SameRecord(m, n) <==> m == n || (m == 0x10 && n == 0x2E) || (m == 0x2E && n == 0x10)
  {
    OctetOrder(m);
    OctetOrder(n);
    OctetRoundTrip(m);
    OctetRoundTrip(n);
    SomeOctets();
  }

  lemma {:induction false} SomeOctets()
    ensures ToByte(0x10) == 0x10 && ToByte(0x2E) == 0x2E
  {
  }

  /** The 79 bytes of a slot's record, where they lie in the flash. */
  function RecordBytes(f: Image, n: bv8): (b: seq<bv8>)
    requires f.Valid() && IsSlotNumber(n)
    ensures |b| == 79
  {
    Region(f, 499 * 512 + 64 + 79 * RecordNumber(n), 79)
  }

  lemma {:induction false} RecordIsRead(f: Image, n: bv8)
    requires f.Valid() && IsSlotNumber(n)
    ensures SlotAt(f, RecordOf(n)) == Unpacked(RecordBytes(f, n)) && RecordBytes(f, n)[0] == SlotAt(f, RecordOf(n)).kind
  {
    hide RecordOf, RecordNumber, SlotOffset, Dword;
    NumbersAreRecords(n);
  }

  lemma {:induction false} RecordsApart(m: bv8, n: bv8)
    requires IsSlotNumber(m) && IsSlotNumber(n) && !SameRecord(m, n)
    ensures 79 * RecordNumber(m) + 79 <= 79 * RecordNumber(n) || 79 * RecordNumber(n) + 79 <= 79 * RecordNumber(m)
  {
    hide RecordNumber;
  }

  /** Writing a record changes the slots that share it, and no other. */
  lemma {:induction false} WrittenRecord(f: Image, n: bv8, s: Slot, m: bv8)
    requires f.Valid() && s.Valid() && IsSlotNumber(n) && IsSlotNumber(m)
    ensures RecordBytes(SlotWritten(f, SlotOffset(RecordOf(n)), s), m)
         == if SameRecord(m, n) then Packed(s) else RecordBytes(f, m)
  {
    hide RecordOf, RecordNumber, SlotOffset, SlotsRewritten, Packed, Region, Splice;
    NumbersAreRecords(n);
    var o := SlotOffset(RecordOf(n));
    if SameRecord(m, n) {
      var pages := SlotsWith(f, o, s);
      RewrittenSlots(f, pages);
      RegionInside(SlotWritten(f, o, s), SLOTS_ADDRESS, SLOTS_SIZE, o, SLOT_BYTES);
      SpliceRange(Region(f, SLOTS_ADDRESS, SLOTS_SIZE), o, Packed(s));
    } else {
      RecordsApart(m, n);
      SlotsElsewhere(f, o, s, 64 + 79 * RecordNumber(m), 79);
    }
  }

  // ----- CMD_ERASE_SLOT

  predicate ErasesSlot(d: Device, e: Event)
    requires e.Valid()
  {
    && e.Report? && CrcOk(e.report) && e.report[0] == 0x06 && d.adminSet && e.report[2..27] == d.adminPassword
    && IsSlotNumber(e.report[1])
  }

  lemma {:induction false} ErasingStep(d: Device, e: Event)
    requires d.Valid() && e.Valid() && ErasesSlot(d, e)
    ensures Step(d, e) == d.(flash := SlotWritten(d.flash, SlotOffset(RecordOf(e.report[1])), BLANK_SLOT))
  {
    hide CrcOk, SlotWritten, SlotOffset, RecordOf;
    NumbersAreRecords(e.report[1]);
  }

  lemma {:induction false} BlankBytes()
    ensures Packed(BLANK_SLOT) == Fill(0xFF, 79)
  {
    assert DwordBytes(0xFFFF_FFFF_FFFF_FFFF) == Fill(0xFF, 8);
  }

  /** An erased slot's record is all ones; every slot that does not share it keeps its record, and the configuration
      stays. */
  lemma {:induction false} ErasedExactly(d: Device, e: Event, m: bv8)
    requires d.Valid() && e.Valid() && ErasesSlot(d, e) && IsSlotNumber(m)
    ensures RecordBytes(Step(d, e).flash, m) == if SameRecord(m, e.report[1]) then Fill(0xFF, 79) else RecordBytes(d.flash, m)
    ensures ConfigOf(Step(d, e).flash) == ConfigOf(d.flash)
  {
    hide RecordOf, RecordNumber, SlotOffset, SlotWritten, Packed, CrcOk, Step, RecordBytes, ConfigOf;
    ErasingStep(d, e);
    BlankBytes();
    WrittenRecord(d.flash, e.report[1], BLANK_SLOT, m);
    RecordsKeepConfig(d.flash, SlotOffset(RecordOf(e.report[1])), BLANK_SLOT);
  }

  /** Its name and contents then read as not programmed. */
  lemma {:induction false} ErasedReadsEmpty(d: Device, e: Event, report: seq<bv8>, accepts: bool, totp: bv32)
    requires d.Valid() && e.Valid() && ErasesSlot(d, e)
    requires |report| == REPORT_SIZE && CrcOk(report) && (report[0] == 0x02 || report[0] == 0x03) && report[1] == e.report[1]
    ensures Answer(Step(d, e), report, accepts, totp)[6] == 3
  {
    hide RecordOf, RecordNumber, RecordBytes, CrcOk, Step, Answer, SlotAt;
    var after := Step(d, e);
    ErasedExactly(d, e, report[1]);
    RecordIsRead(after.flash, report[1]);
    NumbersAreRecords(report[1]);
    AnswerIsBody(after, report, accepts, totp);
  }

  /** The number of the last TOTP slot erases the first HOTP slot. */
  lemma {:induction false} LastTotpErasesFirstHotp(d: Device, e: Event)
    requires d.Valid() && e.Valid() && ErasesSlot(d, e) && e.report[1] == 0x2E
    ensures RecordBytes(Step(d, e).flash, 0x10) == Fill(0xFF, 79)
  {
    hide ErasesSlot, RecordBytes, Step;
    SharedRecords(0x10, 0x2E);
    ErasedExactly(d, e, 0x10);
  }

  // ----- CMD_WRITE_TO_SLOT

  /** The commit report w is accepted: password, started upload, a name, and any slot number but the last. */
  predicate CommitAccepted(d: Device, w: seq<bv8>)
    requires d.Valid() && |w| == REPORT_SIZE
  {
    && CrcOk(w) && w[0] == 0x01 && d.adminSet && w[1..26] == d.adminPassword && d.started && d.slot.name[0] != 0
    && IsSlotNumber(w[26]) && w[26] != 0x2E
  }

  lemma {:induction false} CommitsSucceed(d: Device, w: seq<bv8>)
    requires d.Valid() && |w| == REPORT_SIZE
    ensures CommitAccepted(d, w) <==> Succeeds(d, w)
  {
    hide CrcOk, EndianSwap, Dword;
    LastNumber(w[26]);
  }

  lemma {:induction false} LastNumber(n: bv8)
    ensures IsSlotNumber(n) <==> IsHotp(n) || IsTotp(n)
    ensures IsTotp(n) ==> (SlotIndex(n) == 14 <==> n == 0x2E)
  {
    LowBitsOf(n);
    OctetOrder(n);
    OctetRoundTrip(n);
    SomeOctets();
  }

  /** The secret that is stored: an all-zero one stands for the secret of the record before. */
  function SecretKept(secret: seq<bv8>, before: seq<bv8>): (r: seq<bv8>)
    requires |before| == 79
  {
    if secret == Fill(0, 40) then before[17..57] else secret
  }

  /** The record as it lies in the flash: type, index, name, secret, configuration, token id, and the eight counter or
      interval bytes of the report in opposite order. */
  function CommittedBytes(d: Device, w: seq<bv8>): (b: seq<bv8>)
    requires d.Valid() && |w| == REPORT_SIZE && IsSlotNumber(w[26])
  {
    [if w[26] <= 0x13 then 0x48 else 0x54, w[26] & 0x0F] + d.slot.name + SecretKept(d.slot.secret, RecordBytes(d.flash, w[26]))
    + [w[35]] + w[36..49] + Reverse(w[27..35])
  }

  lemma {:induction false} SwappedBytes(b: seq<bv8>)
    requires |b| == 8
    ensures DwordBytes(EndianSwap(Dword(b))) == Reverse(b)
  {
    hide EndianSwap, DwordBytes, Dword, Reverse;
    EndianSwapReverses(Dword(b));
    DwordRoundTrip(0, b);
  }

  lemma {:induction false} RecordPacked(d: Device, w: seq<bv8>)
    requires d.Valid() && |w| == REPORT_SIZE && CommitAccepted(d, w)
    ensures Packed(Record(d, w)) == CommittedBytes(d, w)
  {
    hide CrcOk, RecordOf, RecordNumber, EndianSwap, Dword, DwordBytes, Reverse, RecordBytes, Region, SlotOffset;
    NumbersAreRecords(w[26]);
    SwappedBytes(w[27..35]);
    assert SecretAt(d.flash, SlotOffset(RecordOf(w[26]))) == RecordBytes(d.flash, w[26])[17..57] by {
      RecordIsRead(d.flash, w[26]);
    }
  }

  /** An accepted commit stores the uploaded record for its slot, and every slot that does not share it keeps its own. */
  lemma {:induction false} CommittedExactly(d: Device, w: seq<bv8>, accepts: bool, m: bv8)
    requires d.Valid() && |w| == REPORT_SIZE && CommitAccepted(d, w) && IsSlotNumber(m)
    ensures RecordBytes(Next(d, w, accepts).flash, m)
         == if SameRecord(m, w[26]) then CommittedBytes(d, w) else RecordBytes(d.flash, m)
    ensures ConfigOf(Next(d, w, accepts).flash) == ConfigOf(d.flash)
  {
    hide CrcOk, RecordOf, RecordNumber, SlotOffset, SlotWritten, Packed, Next, RecordBytes, ConfigOf, CommittedBytes,
      Record,
      CounterStored, Filled, Succeeds;
    CommitsSucceed(d, w);
    CommitStores(d, w, accepts);
    RecordPacked(d, w);
    var f := CounterStored(d.flash, Filled(d.slot, w));
    WrittenRecord(f, w[26], Record(d, w), m);
    RecordsKeepConfig(f, SlotOffset(RecordOf(w[26])), Record(d, w));
    CounterKeepsRecords(d.flash, Filled(d.slot, w), m);
  }

  lemma {:induction false} CounterKeepsRecords(f: Image, s: Slot, m: bv8)
    requires f.Valid() && s.Valid() && IsSlotNumber(m)
    ensures RecordBytes(CounterStored(f, s), m) == RecordBytes(f, m) && ConfigOf(CounterStored(f, s)) == ConfigOf(f)
  {
    hide RecordNumber, CounterStored, Region;
    CounterStoredKeepsSlots(f, s, 64 + 79 * RecordNumber(m), 79);
    CounterStoredKeepsSlots(f, s, 0, 5);
    ConfigInPages(f);
    ConfigInPages(CounterStored(f, s));
  }

  lemma {:induction false} AnswerRange(d: Device, report: seq<bv8>, accepts: bool, totp: bv32, i: nat, j: nat)
    requires d.Valid() && |report| == REPORT_SIZE && i <= j <= 60
    ensures Answer(d, report, accepts, totp)[i..j] == Body(d, report, accepts, totp)[i..j]
  {
    hide Answer, Body;
    AnswerIsBody(d, report, accepts, totp);
    SliceOfPrefix(Answer(d, report, accepts, totp), 60, i, j);
    SliceOfPrefix(Body(d, report, accepts, totp), 60, i, j);
  }

  /** Reading the name of a committed slot answers with the uploaded name. */
  lemma {:induction false} CommitThenReadName(d: Device, w: seq<bv8>, report: seq<bv8>, accepts: bool, totp: bv32)
    requires d.Valid() && |w| == REPORT_SIZE && CommitAccepted(d, w)
    requires |report| == REPORT_SIZE && CrcOk(report) && report[0] == 0x02 && report[1] == w[26]
    ensures var answer := Answer(Next(d, w, accepts), report, accepts, totp);
            answer[6] == 0 && answer[7..22] == d.slot.name
  {
    hide CrcOk, Next, Answer, SlotAt, RecordOf, EndianSwap, Dword, SecretAt, SlotIndex;
    CommitsSucceed(d, w);
    CommitReadsBack(d, w, accepts);
    NumbersAreRecords(w[26]);
    var after := Next(d, w, accepts);
    AnswerIsBody(after, report, accepts, totp);
    AnswerRange(after, report, accepts, totp, 7, 22);
    NameBody(after, report, accepts, totp);
  }

  lemma {:induction false} NameBody(d: Device, report: seq<bv8>, accepts: bool, totp: bv32)
    requires d.Valid() && |report| == REPORT_SIZE && CrcOk(report) && report[0] == 0x02 && IsSlotNumber(report[1])
    requires SlotProgrammed(d.flash, report[1])
    ensures Body(d, report, accepts, totp)[6] == 0
    ensures Body(d, report, accepts, totp)[7..22] == SlotAt(d.flash, RecordOf(report[1])).name
  {
    hide CrcOk, SlotAt, RecordOf, SlotProgrammed;
    NumbersAreRecords(report[1]);
  }

  /** Reading a HOTP slot in any format but 1 gives its counter as text, which reads as the counter exactly when that is
      below ten million. */
  lemma {:induction false} ReadCounterText(d: Device, report: seq<bv8>, accepts: bool, totp: bv32)
    requires d.Valid() && |report| == REPORT_SIZE && CrcOk(report) && report[0] == 0x03 && 0x10 <= report[1] <= 0x13
    requires report[2] != 1 && SlotProgrammed(d.flash, report[1])
    ensures var counter := SlotCounter(d.flash, SlotIndex(report[1]));
            var text := Answer(d, report, accepts, totp)[36..44];
            Decimal.Value(Decimal.Terminated(text)) == counter <==> counter < 10_000_000
  {
    hide CrcOk, SlotAt, RecordOf, SlotProgrammed, CounterText, SlotCounter, Decimal.Terminated, Decimal.Value,
      SlotIndex, Answer;
    var counter := SlotCounter(d.flash, SlotIndex(report[1]));
    CounterTextReads(counter);
    AnswerRange(d, report, accepts, totp, 36, 44);
    var x := ReadBytes(d.flash, report);
    assert x[29..37] == CounterText(counter);
    assert Body(d, report, accepts, totp) == WithResult(Header(report), x);
    assert WithResult(Header(report), x)[36..44] == x[29..37];
  }
}
