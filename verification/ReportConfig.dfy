/** The global configuration: what CMD_WRITE_CONFIG stores, how long it stays, and what its bytes decide. */
module ReportConfig {
  import opened Bytes
  import opened FlashMemory
  import opened CounterRuns
  import opened OtpSlots
  import opened HotpValidation
  import opened ReportAnswers
  import opened ReportState
  import opened ReportRuns
  import opened SlotUpload
  import Decimal
  import FactoryReset

  /** The five bytes at the start of the slot pages: the slots of the three lock keys, the protection of codes by the
      user password, and one byte that the firmware only stores. */
  function ConfigOf(f: Image): (c: seq<bv8>)
    requires f.Valid()
    ensures |c| == 5
  {
    f.cells[499 * 512..499 * 512 + 5]
  }

  /** A report that writes a valid configuration under the temporary password. */
  predicate WritesConfig(d: Device, e: Event)
    requires e.Valid()
  {
    && e.Report? && CrcOk(e.report) && e.report[0] == 0x05 && d.adminSet && e.report[6..31] == d.adminPassword
    && (e.report[1] <= 2 || e.report[1] == 0xFF) && (e.report[2] <= 2 || e.report[2] == 0xFF)
    && (e.report[3] <= 2 || e.report[3] == 0xFF) && e.report[4] <= 2 && e.report[5] <= 2
  }

  predicate IsReset(e: Event)
    requires e.Valid()
  {
    e.Report? && CrcOk(e.report) && e.report[0] == 0x13 && e.accepts
  }

  lemma {:induction false} ConfigInPages(f: Image)
    requires f.Valid()
    ensures ConfigOf(f) == SlotPages(f)[..5] == Region(f, SLOTS_ADDRESS, 5)
  {
    RegionInside(f, SLOTS_ADDRESS, SLOTS_SIZE, 0, 5);
  }

  lemma {:induction false} WritingStep(d: Device, e: Event)
    requires d.Valid() && e.Valid() && WritesConfig(d, e)
    ensures Step(d, e) == d.(flash := SlotsRewritten(d.flash, Splice(SlotPages(d.flash), 0, e.report[1..6])))
  {
    hide CrcOk, SlotsRewritten, Region, Splice;
  }

  /** An accepted configuration is stored as it was sent, and every byte of the slot records is kept. */
  lemma {:induction false} ConfigIsStored(d: Device, e: Event, n: nat)
    requires d.Valid() && e.Valid() && WritesConfig(d, e)
    ensures ConfigOf(Step(d, e).flash) == e.report[1..6]
    ensures SlotPages(Step(d, e).flash)[5..] == SlotPages(d.flash)[5..] && SlotAt(Step(d, e).flash, n) == SlotAt(d.flash, n)
  {
    hide CrcOk, SlotsRewritten, Region, Unpacked, SlotOffset, Step;
    WritingStep(d, e);
    var pages := Splice(SlotPages(d.flash), 0, e.report[1..6]);
    var g := SlotsRewritten(d.flash, pages);
    RewrittenSlots(d.flash, pages);
    ConfigInPages(g);
    RegionInside(g, SLOTS_ADDRESS, SLOTS_SIZE, SlotOffset(n), SLOT_BYTES);
    RegionInside(d.flash, SLOTS_ADDRESS, SLOTS_SIZE, SlotOffset(n), SLOT_BYTES);
    SpliceOutside(SlotPages(d.flash), 0, e.report[1..6], SlotOffset(n), SLOT_BYTES);
  }

  // ----- how long it stays

  lemma {:induction false} SamePagesSameConfig(f: Image, g: Image)
    requires f.Valid() && g.Valid() && SlotPages(f) == SlotPages(g)
    ensures ConfigOf(f) == ConfigOf(g)
  {
    hide SlotPages;
    ConfigInPages(f);
    ConfigInPages(g);
  }

  lemma {:induction false} RecordsKeepConfig(f: Image, o: nat, s: Slot)
    requires f.Valid() && s.Valid() && 64 <= o && o + SLOT_BYTES <= SLOTS_SIZE
    ensures ConfigOf(SlotWritten(f, o, s)) == ConfigOf(f)
  {
    hide SlotWritten, Region;
    SlotsElsewhere(f, o, s, 0, 5);
    ConfigInPages(f);
    ConfigInPages(SlotWritten(f, o, s));
  }

  lemma {:induction false} CommittingKeepsConfig(d: Device, report: seq<bv8>)
    requires d.Valid() && |report| == REPORT_SIZE
    ensures ConfigOf(Committed(d, report).flash) == ConfigOf(d.flash)
  {
    hide ConfigOf, Commits, Acceptable, Ignored, SlotIndex, SecretAt, Kept, Typed, CounterStored, SlotWritten,
      Filled, Region;
    var w := Filled(d.slot, report);
    if Commits(d, report) && Acceptable(w) && !Ignored(w) {
      var f := CounterStored(d.flash, w);
      var o := SlotOffset(RecordOf(w.number));
      RecordsKeepConfig(f, o, Kept(Typed(w), SecretAt(f, o)));
      CounterStoredKeepsSlots(d.flash, w, 0, 5);
      ConfigInPages(f);
      ConfigInPages(d.flash);
    }
  }

  lemma {:induction false} ErasingKeepsConfig(d: Device, report: seq<bv8>)
    requires d.Valid() && |report| == REPORT_SIZE
    ensures ConfigOf(SlotErased(d, report).flash) == ConfigOf(d.flash)
  {
    hide ConfigOf, ValidPassword, SlotIndex, SlotWritten, IsHotp, IsTotp;
    RecordsKeepConfig(d.flash, SlotOffset(RecordOf(report[1])), BLANK_SLOT);
  }

  lemma {:induction false} RefusedConfig(d: Device, e: Event)
    requires d.Valid() && e.Valid() && e.Report? && CrcOk(e.report) && e.report[0] == CMD_WRITE_CONFIG && !WritesConfig(d, e)
    ensures ConfigStored(d, e.report) == d
  {
    hide CrcOk, SlotsRewritten, Region, Splice;
    var c := e.report[1..6];
    assert c[0] == e.report[1] && c[1] == e.report[2] && c[2] == e.report[3] && c[3] == e.report[4] && c[4] == e.report[5];
  }

  /** No other event but a factory reset touches the configuration. */
  lemma {:induction false} ConfigStep(d: Device, e: Event)
    requires d.Valid() && e.Valid() && !WritesConfig(d, e) && !IsReset(e)
    ensures ConfigOf(Step(d, e).flash) == ConfigOf(d.flash)
  {
    hide ConfigOf, SlotPages, CrcOk, Committed, Sent, SlotErased, TimeServed, CodeVerified, CodeGiven, Clicked,
      FactoryReset.Reset,
      SlotsRewritten, Region, Slot.Valid, Image.Valid;
    if e.Click? {
      ClickingKeepsSlots(d, e.key);
      SamePagesSameConfig(d.flash, Clicked(d, e.key).flash);
    } else if e.report[0] == CMD_WRITE_TO_SLOT {
      CommittingKeepsConfig(d, e.report);
    } else if e.report[0] == CMD_ERASE_SLOT {
      ErasingKeepsConfig(d, e.report);
    } else if e.report[0] == CMD_GET_CODE {
      GivingCodeKeepsSlots(d, e.report);
      SamePagesSameConfig(d.flash, CodeGiven(d, e.report).flash);
    } else if e.report[0] == CMD_VERIFY_OTP_CODE {
      VerifyingKeepsSlots(d.flash, e.report);
      SamePagesSameConfig(d.flash, CodeVerified(d.flash, e.report));
    } else if e.report[0] == CMD_SET_TIME {
      ServingTimeKeepsSlots(d.flash, e.report);
      SamePagesSameConfig(d.flash, TimeServed(d.flash, e.report));
    } else if e.report[0] == CMD_SEND_OTP_DATA {
      SendingKeepsFlash(d, e.report);
    } else if CrcOk(e.report) && e.report[0] == CMD_WRITE_CONFIG {
      RefusedConfig(d, e);
    } else {
    }
  }

  ghost predicate ConfigUntouched(d: Device, es: seq<Event>, j: nat, n: nat)
    requires d.Valid() && Events(es) && n <= |es|
  {
    forall k :: j < k < n ==> !WritesConfig(After(d, es, k), es[k]) && !IsReset(es[k])
  }

  /** Over any run, the configuration is that of the last report that wrote one, until a factory reset. */
  lemma {:induction false} ConfigIsLatest(d: Device, es: seq<Event>, j: nat, n: nat)
    requires d.Valid() && Events(es) && j < n <= |es|
    requires WritesConfig(After(d, es, j), es[j]) && ConfigUntouched(d, es, j, n)
    ensures ConfigOf(After(d, es, n).flash) == es[j].report[1..6]
  {
    hide ConfigOf, WritesConfig, IsReset, Step;
    if n == j + 1 {
      assert es[j].Report? by {
        WritesIsReport(After(d, es, j), es[j]);
      }
      ConfigIsStored(After(d, es, j), es[j], 0);
    } else {
      assert ConfigUntouched(d, es, j, n - 1);
      ConfigIsLatest(d, es, j, n - 1);
      ConfigStep(After(d, es, n - 1), es[n - 1]);
    }
  }

  lemma {:induction false} WritesIsReport(d: Device, e: Event)
    requires e.Valid() && WritesConfig(d, e)
    ensures e.Report?
  {
    hide CrcOk;
  }

  // ----- what its bytes decide

  /** Byte 3 is 1: a code is refused without the granted user password, and nothing moves. Otherwise it is not
      asked for. */
  lemma {:induction false} ProtectedCodes(d: Device, report: seq<bv8>, accepts: bool, totp: bv32)
    requires d.Valid() && |report| == REPORT_SIZE && CrcOk(report) && report[0] == 0x04
    requires !(d.userSet && report[19..44] == d.userPassword)
    ensures ConfigOf(d.flash)[3] == 1 ==> Next(d, report, accepts) == d
    ensures ConfigOf(d.flash)[3] == 1 ==> Answer(d, report, accepts, totp)[6] == if d.silenced then 0 else 5
    ensures ConfigOf(d.flash)[3] != 1 ==> Answer(d, report, accepts, totp)[6] != 5
  {
    hide CrcOk, CodeOf, CodeBytes, Increments, SlotIndex, SlotProgrammed, Programmed, Answer;
    AnswerIsBody(d, report, accepts, totp);
  }

  /** Over any run: once a configuration with byte 4 of its report equal to 1 has been written, and until another one
      or a factory reset, a code without the granted user password is refused and moves nothing. With any other
      value of that byte it is never refused. */
  lemma {:induction false} ProtectionHolds(d: Device, es: seq<Event>, j: nat, n: nat, totp: bv32)
    requires d.Valid() && Events(es) && j < n < |es| && !d.userSet
    requires WritesConfig(After(d, es, j), es[j]) && es[j].Report? && ConfigUntouched(d, es, j, n)
    requires es[n].Report? && CrcOk(es[n].report) && es[n].report[0] == 0x04
    requires forall g: nat :: !Granted(UserPin, es, g, n, es[n].report[19..44])
    ensures var (c, before) := (es[j].report[4], After(d, es, n));
            var answer := Answer(before, es[n].report, es[n].accepts, totp);
            && (c == 1 ==> After(d, es, n + 1) == before && answer[6] == if before.silenced then 0 else 5)
            && (c != 1 ==> answer[6] != 5)
  {
    hide Next, Answer, ConfigOf, WritesConfig, ConfigUntouched, Granted, CrcOk;
    var before := After(d, es, n);
    ConfigIsLatest(d, es, j, n);
    PasswordWasGranted(UserPin, d, es, n);
    ProtectedCodes(before, es[n].report, es[n].accepts, totp);
    assert es[j].report[1..6][3] == es[j].report[4];
  }

  /** Bytes 0 to 2 name the slots of the lock keys: a click types the code of HOTP slot 0 or 1, when that is named
      and programmed, and counts one use; otherwise it does nothing. */
  lemma {:induction false} ClickedSlot(d: Device, key: nat)
    requires d.Valid() && key < 3
    ensures var s := Octet(ConfigOf(d.flash)[key]);
            if s <= 1 && SlotAt(d.flash, s).kind == 0x48 then
              && Step(d, Click(key)) == d.(flash := Increments(d.flash, 502 + s, 1))
              && |TypedText(d.flash, key)| == (if SlotAt(d.flash, s).config & 1 == 1 then 8 else 6)
              && Decimal.Value(TypedText(d.flash, key)) == CodeAt(d.flash, s, 0)
            else Step(d, Click(key)) == d && TypedText(d.flash, key) == []
  {
    hide SlotAt, CodeAt, Increments, Decimal.Value, Decimal.Padded, ToWord;
    assert ConfigOf(d.flash)[key] == d.flash.cells[SLOTS_ADDRESS + key];
    if Types(d.flash, key) {
      TypedReads(d.flash, key);
    }
  }

  /** So the slot that a click types is the one of the last configuration report. */
  lemma {:induction false} ClickFollowsConfig(d: Device, es: seq<Event>, j: nat, n: nat, key: nat)
    requires d.Valid() && Events(es) && j < n <= |es| && key < 3
    requires WritesConfig(After(d, es, j), es[j]) && es[j].Report? && ConfigUntouched(d, es, j, n)
    ensures SlotOfKey(After(d, es, n).flash, key) == Octet(es[j].report[1 + key])
  {
    hide After, WritesConfig, ConfigUntouched, Octet;
    ConfigIsLatest(d, es, j, n);
    assert es[j].report[1..6][key] == es[j].report[1 + key];
    assert ConfigOf(After(d, es, n).flash)[key] == After(d, es, n).flash.cells[SLOTS_ADDRESS + key];
  }
}
