/** From the bytes that the host uploads to the code that it gets back. */
module UploadToCode {
  import opened Bytes
  import opened Dwords
  import opened OtpSlots
  import opened HotpValue
  import opened HotpValidation
  import opened ReportAnswers
  import opened ReportState
  import opened ReportRuns
  import opened ReportConfig
  import opened ReportSlots
  import opened SlotUpload
  import CounterRuns
  import Crc
  import Decimal

  /** A chunk report under the temporary password. */
  predicate SendsChunk(d: Device, e: Event, kind: bv8)
    requires e.Valid()
  {
    && e.Report? && CrcOk(e.report) && e.report[0] == 0x17 && d.adminSet && e.report[1..26] == d.adminPassword
    && e.report[26] == kind
  }

  /** The name in one report, the secret in two. */
  predicate Uploads(d: Device, es: seq<Event>) {
    && |es| == 3 && Events(es) && SendsChunk(d, es[0], 0x4E)
    && SendsChunk(d, es[1], 0x53) && es[1].report[27] == 0
    && SendsChunk(d, es[2], 0x53) && es[2].report[27] == 1
  }

  function SecretSoFar(d: Device): (secret: seq<bv8>)
    requires d.Valid()
    ensures |secret| == 40
  {
    if d.started then d.slot.secret else Fill(0, 40)
  }

  /** The first chunk starts from a record of zeros. A name chunk replaces the name; a secret chunk numbered 1 replaces the
      last ten bytes of the secret, one with any other number the first thirty. */
  lemma {:induction false} ChunkIsCollected(d: Device, e: Event)
    requires d.Valid() && e.Valid()
    ensures SendsChunk(d, e, 0x4E) ==>
              Step(d, e).slot.name == e.report[28..43] && Step(d, e).slot.secret == SecretSoFar(d)
    ensures SendsChunk(d, e, 0x53) ==>
              Step(d, e).slot.name == if d.started then d.slot.name else Fill(0, 15)
    ensures SendsChunk(d, e, 0x53) ==>
              Step(d, e).slot.secret == if e.report[27] == 1 then SecretSoFar(d)[..30] + e.report[28..38]
                                        else e.report[28..58] + SecretSoFar(d)[30..]
  {
    hide CrcOk, WithChunk;
    if SendsChunk(d, e, 0x4E) || SendsChunk(d, e, 0x53) {
      assert Step(d, e) == Sent(d, e.report);
      ChunkTaken(if d.started then d.slot else ZERO_SLOT, e.report);
    }
  }

  lemma {:induction false} ChunkTaken(s: Slot, report: seq<bv8>)
    requires s.Valid() && |report| == REPORT_SIZE
    ensures var r := WithChunk(s, ChunkOf(report));
            && (report[26] == 0x4E ==> r == s.(name := report[28..43]))
            && (report[26] == 0x53 ==> r.name == s.name)
            && (report[26] == 0x53 ==>
                  r.secret == if report[27] == 1 then s.secret[..30] + report[28..38] else report[28..58] + s.secret[30..])
  {
    hide ChunkOffset;
    OffsetOfChunk(report[27]);
    assert report[28..58][..15] == report[28..43] && report[28..58][..10] == report[28..38];
  }

  lemma {:induction false} OffsetOfChunk(id: bv8)
    ensures ChunkOffset(id) == if id == 1 then 30 else 0
  {
  }

  /** An upload whose name begins with a zero byte, one without name chunk for instance, is refused with status 7. */
  lemma {:induction false} NamelessIsRefused(d: Device, report: seq<bv8>, accepts: bool, totp: bv32)
    requires d.Valid() && |report| == REPORT_SIZE && CrcOk(report) && report[0] == 0x01
    requires d.started && d.adminSet && report[1..26] == d.adminPassword && d.slot.name[0] == 0
    ensures Next(d, report, accepts).flash == d.flash && !Next(d, report, accepts).started
    ensures Answer(d, report, accepts, totp)[6] == 7
  {
    hide CrcOk, Answer;
    AnswerIsBody(d, report, accepts, totp);
  }

  /** After the three reports the record under construction has their bytes. */
  lemma {:induction false} ChunksCollected(d: Device, es: seq<Event>)
    requires d.Valid() && !d.started && Uploads(d, es)
    ensures var c := After(d, es, 3);
            && c.slot.name == es[0].report[28..43]
            && c.slot.secret == es[1].report[28..58] + es[2].report[28..38]
            && c == d.(started := true, slot := c.slot)
  {
    hide CrcOk, Step, Splice;
    assert AreReports(es) && AreChunks(d, es);
    UploadFolds(d, es, 3);
    var cs := ChunksOf(es, 3);
    assert cs[..2][..1] == cs[..1] && cs[..1][..0] == [];
    var s1 := Folded(ZERO_SLOT, cs[..1]);
    assert Folded(ZERO_SLOT, cs[..2]) == WithChunk(s1, cs[1]);
    assert Folded(ZERO_SLOT, cs) == WithChunk(WithChunk(s1, cs[1]), cs[2]) by {
      assert cs[..|cs| - 1] == cs[..2];
    }
    TwoChunksFillSecret(s1, cs[1].data, cs[2].data);
  }

  /** Each chunk is answered with all that has been collected of the name or of the secret. */
  lemma {:induction false} ChunkIsEchoed(d: Device, e: Event, totp: bv32)
    requires d.Valid() && e.Valid()
    ensures SendsChunk(d, e, 0x4E) ==> Answer(d, e.report, e.accepts, totp)[7..22] == Step(d, e).slot.name
    ensures SendsChunk(d, e, 0x53) ==> Answer(d, e.report, e.accepts, totp)[7..47] == Step(d, e).slot.secret
  {
    hide CrcOk, Answer, WithChunk;
    if SendsChunk(d, e, 0x4E) || SendsChunk(d, e, 0x53) {
      AnswerRange(d, e.report, e.accepts, totp, 7, 22);
      AnswerRange(d, e.report, e.accepts, totp, 7, 47);
      assert Body(d, e.report, e.accepts, totp) == SendAnswer(d, e.report, Header(e.report));
      assert Step(d, e) == Sent(d, e.report);
    }
  }

  // ----- the counter field

  lemma {:induction false} NumberOfReverse(b: seq<bv8>, i: nat)
    requires i <= |b|
    ensures Number(Reverse(b[i..])) == LittleFrom(b, i)
    decreases |b| - i
  {
    hide Octet;
    if i < |b| {
      NumberOfReverse(b, i + 1);
      assert Reverse(b[i..])[..|b| - i - 1] == Reverse(b[i + 1..]);
    }
  }

  /** The counter of a report is little-endian. */
  lemma {:induction false} CounterField(b: seq<bv8>)
    requires |b| == 8
    ensures ToNumber(EndianSwap(Dword(b))) == LittleNumber(b) && LittleNumber(b) < TWO64
  {
    hide EndianSwap, DwordBytes, Dword, Number, LittleFrom;
    SwappedBytes(b);
    NumberOfReverse(b, 0);
    assert b[0..] == b;
    LittleFromBound(b, 0);
    RadixEight();
  }

  // ----- the slot after the upload

  /** A commit of the upload to one of the three HOTP slots that give codes. */
  predicate CommitsUpload(d: Device, es: seq<Event>, w: Event)
    requires w.Valid() && Uploads(d, es)
  {
    && w.Report? && CrcOk(w.report) && w.report[0] == 0x01 && w.report[1..26] == d.adminPassword
    && 0x10 <= w.report[26] <= 0x12 && es[0].report[28] != 0
    && es[1].report[28..58] + es[2].report[28..38] != Fill(0, 40)
  }

  /** The code that RFC 4226 defines for the uploaded secret, counter and length. */
  function UploadedCode(es: seq<Event>, w: Event): (code: nat)
    requires Events(es) && |es| == 3 && es[1].Report? && es[2].Report? && w.Valid() && w.Report?
    ensures code < 100000000
  {
    Hotp(es[1].report[28..58] + es[2].report[28..38], LittleNumber(w.report[27..35]), if w.report[35] & 1 == 1 then 8 else 6)
  }

  lemma {:induction false} CommitsUploadAccepted(d: Device, es: seq<Event>, w: Event)
    requires d.Valid() && !d.started && Uploads(d, es) && w.Valid() && CommitsUpload(d, es, w)
    ensures CommitAccepted(After(d, es, 3), w.report)
  {
    hide CrcOk, After;
    ChunksCollected(d, es);
    assert es[0].report[28..43][0] == es[0].report[28];
  }

  /** The slot then holds the uploaded secret and counter. */
  lemma {:induction false} SlotGivesCode(d: Device, es: seq<Event>, w: Event)
    requires d.Valid() && !d.started && Uploads(d, es) && w.Valid() && CommitsUpload(d, es, w)
    ensures var after := Step(After(d, es, 3), w);
            var s := Octet(w.report[26]) - 0x10;
            && CodeAt(after.flash, s, 0) == UploadedCode(es, w)
            && SlotCounter(after.flash, s) == LittleNumber(w.report[27..35])
            && SlotAt(after.flash, s).kind == 0x48 && SlotAt(after.flash, s).config == w.report[35]
            && SlotAt(after.flash, s).tokenId == w.report[36..49]
  {
    hide CrcOk, After, Next, SlotAt, Hotp, EndianSwap, Dword, SlotCounter, RecordOf, ToNumber, LittleFrom, SecretAt,
      Wrapped, SlotIndex;
    var c := After(d, es, 3);
    ChunksCollected(d, es);
    CommitsUploadAccepted(d, es, w);
    CommitsSucceed(c, w.report);
    CommitReadsBack(c, w.report, w.accepts);
    CommitSetsCounter(c, w.report, w.accepts);
    CounterField(w.report[27..35]);
    CodeSlot(w.report[26]);
    CounterRuns.WrappedSmall(LittleNumber(w.report[27..35]));
  }

  lemma {:induction false} CodeSlot(n: bv8)
    requires 0x10 <= n <= 0x12
    ensures IsHotp(n) && !Reserved(n) && SlotIndex(n) == Octet(n) - 0x10 && RecordOf(n) == Octet(n) - 0x10 && Octet(n) - 0x10 < 3
  {
    LowBitsOf(n);
  }

  lemma {:induction false} UploadKeepsPasswords(d: Device, es: seq<Event>, w: Event)
    requires d.Valid() && !d.started && Uploads(d, es) && w.Valid() && CommitsUpload(d, es, w)
    ensures var after := Step(After(d, es, 3), w);
            SamePasswords(d, after) && ConfigOf(after.flash) == ConfigOf(d.flash)
  {
    hide CrcOk, After, ConfigOf, Committed;
    ChunksCollected(d, es);
    CommittingKeepsConfig(After(d, es, 3), w.report);
  }

  lemma {:induction false} CodeBody(d: Device, report: seq<bv8>, accepts: bool, totp: bv32)
    requires d.Valid() && |report| == REPORT_SIZE && CrcOk(report) && report[0] == 0x04 && GivesHotp(d, report)
    ensures var b := Body(d, report, accepts, totp);
            var s := SlotAt(d.flash, RecordOf(report[1]));
            b[6] == 0 && b[11] == s.config && b[12..25] == s.tokenId
  {
    hide CrcOk, SlotAt, CodeOf, Crc.LittleBytes, MayGetCode, SlotIndex;
    var s := SlotAt(d.flash, RecordOf(report[1]));
    var x := CodeBytes(CodeOf(d.flash, report[1], totp), s);
    assert x[4] == s.config && x[5..18] == s.tokenId;
    assert Body(d, report, accepts, totp) == WithResult(Header(report), x);
  }

  /** Uploading a secret and a counter and then asking for a code gives the HOTP value of that secret and counter, with
      the uploaded configuration and token id. */
  lemma {:induction false} UploadThenCode(d: Device, es: seq<Event>, w: Event, report: seq<bv8>, accepts: bool, totp: bv32)
    requires d.Valid() && !d.started && Uploads(d, es) && w.Valid() && CommitsUpload(d, es, w)
    requires |report| == REPORT_SIZE && CrcOk(report) && report[0] == 0x04 && report[1] == w.report[26]
    requires ConfigOf(d.flash)[3] != 1 || (d.userSet && report[19..44] == d.userPassword)
    ensures var a := Answer(Step(After(d, es, 3), w), report, accepts, totp);
            && a[6] == 0 && LittleNumber(a[7..11]) == UploadedCode(es, w)
            && a[11] == w.report[35] && a[12..25] == w.report[36..49]
  {
    hide CrcOk, After, Next, Step, SlotAt, CodeAt, Answer, Body, RecordOf, SlotIndex, LittleFrom, UploadedCode,
      SendsChunk, CommitsUpload,
      SlotCounter;
    var after := Step(After(d, es, 3), w);
    SlotGivesCode(d, es, w);
    UploadKeepsPasswords(d, es, w);
    CommitNumber(d, es, w);
    CodeSlot(report[1]);
    assert ConfigOf(after.flash)[3] == after.flash.cells[SLOTS_ADDRESS + 3];
    GivenCodeReads(after, report, accepts, totp);
    CodeBody(after, report, accepts, totp);
    AnswerIsBody(after, report, accepts, totp);
    AnswerRange(after, report, accepts, totp, 12, 25);
  }

  lemma {:induction false} CommitNumber(d: Device, es: seq<Event>, w: Event)
    requires Uploads(d, es) && w.Valid() && CommitsUpload(d, es, w)
    ensures w.Report? && 0x10 <= w.report[26] <= 0x12
  {
    hide CrcOk;
  }

  /** And so does a click of a lock key that the configuration assigns to the slot. */
  lemma {:induction false} UploadThenClick(d: Device, es: seq<Event>, w: Event, key: nat)
    requires d.Valid() && !d.started && Uploads(d, es) && w.Valid() && CommitsUpload(d, es, w)
    requires key < 3 && ConfigOf(d.flash)[key] <= 1 && w.report[26] == 0x10 + ConfigOf(d.flash)[key]
    ensures var t := TypedText(Step(After(d, es, 3), w).flash, key);
            |t| == (if w.report[35] & 1 == 1 then 8 else 6) && Decimal.Value(t) == UploadedCode(es, w)
  {
    hide CrcOk, After, Step, SlotAt, CodeAt, ConfigOf, UploadedCode, SendsChunk, CommitsUpload, SlotCounter,
      TypedText, LittleFrom;
    var after := Step(After(d, es, 3), w);
    SlotGivesCode(d, es, w);
    UploadKeepsPasswords(d, es, w);
    FirstSlots(ConfigOf(d.flash)[key]);
    ClickedSlot(after, key);
  }

  lemma {:induction false} FirstSlots(c: bv8)
    requires c <= 1
    ensures Octet(0x10 + c) - 0x10 == Octet(c) <= 1
  {
  }
}
