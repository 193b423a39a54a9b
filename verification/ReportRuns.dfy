/** Safety over runs of the report protocol: who may change the slot pages, and what a commit consumes. */
module ReportRuns {
  import opened Bytes
  import opened FlashMemory
  import opened CounterRuns
  import opened OtpSlots
  import opened HotpValidation
  import opened ReportState
  import FactoryReset
  import TimeLog
  import SetTime

  // ----- what one report can do to the slot pages

  function SlotPages(f: Image): (b: seq<bv8>)
    requires f.Valid()
  {
    Region(f, SLOTS_ADDRESS, SLOTS_SIZE)
  }

  lemma {:induction false} VerifyingKeepsSlots(f: Image, report: seq<bv8>)
    requires f.Valid() && |report| == REPORT_SIZE
    ensures SlotPages(CodeVerified(f, report)) == SlotPages(f)
  {
    hide Region, Increments, FirstMatch, CodeIn, Programmed;
    if Programmed(f, HOTP_VERIFY_SLOT) {
      var m := FirstMatch(f, HOTP_VERIFY_SLOT, CodeIn(report), 0);
      IncrementsOutside(f, CounterPageOf(HOTP_VERIFY_SLOT), m + 1, SLOTS_ADDRESS, SLOTS_SIZE);
    }
  }

  lemma {:induction false} ServingTimeKeepsSlots(f: Image, report: seq<bv8>)
    requires f.Valid() && |report| == REPORT_SIZE
    ensures SlotPages(TimeServed(f, report)) == SlotPages(f)
  {
    hide Region, TimeLog.TimeSet, SetTime.MinutesSince, SetTime.Accepts, TimeLog.TimeValue;
    TimeLog.TimeSetElsewhere(f, SetTime.MinutesSince(LittleNumber(report[2..10])), SLOTS_ADDRESS, SLOTS_SIZE);
  }

  lemma {:induction false} GivingCodeKeepsSlots(d: Device, report: seq<bv8>)
    requires d.Valid() && |report| == REPORT_SIZE
    ensures SlotPages(CodeGiven(d, report).flash) == SlotPages(d.flash)
  {
    hide Region, Increments, SlotIndex;
    if GivesHotp(d, report) {
      IncrementsOutside(d.flash, CounterPageOf(SlotIndex(report[1])), 1, SLOTS_ADDRESS, SLOTS_SIZE);
    }
  }

  lemma {:induction false} ClickingKeepsSlots(d: Device, key: nat)
    requires d.Valid() && key < LOCK_KEYS
    ensures SlotPages(Clicked(d, key).flash) == SlotPages(d.flash)
  {
    hide Region, Increments, SlotOfKey;
    if Types(d.flash, key) {
      IncrementsOutside(d.flash, CounterPageOf(SlotOfKey(d.flash, key)), 1, SLOTS_ADDRESS, SLOTS_SIZE);
    }
  }

  lemma {:induction false} SendingKeepsFlash(d: Device, report: seq<bv8>)
    requires d.Valid() && |report| == REPORT_SIZE
    ensures Sent(d, report).flash == d.flash
  {
    hide WithChunk, SendsData;
  }

  /** The temporary password that a report shows, where its command expects it. */
  function Presented(report: seq<bv8>): (p: seq<bv8>)
    requires |report| == REPORT_SIZE
    ensures |p| == PASSWORD_SIZE
  {
    if report[0] == CMD_WRITE_CONFIG then report[6..31] else if report[0] == CMD_ERASE_SLOT then report[2..27] else report[1..26]
  }

  predicate ChangesSlots(report: seq<bv8>)
    requires |report| == REPORT_SIZE
  {
    report[0] == CMD_WRITE_TO_SLOT || report[0] == CMD_WRITE_CONFIG || report[0] == CMD_ERASE_SLOT
  }

  /** A factory reset, for which the card is asked the admin PIN. */
  predicate Resets(report: seq<bv8>)
    requires |report| == REPORT_SIZE
  {
    report[0] == CMD_FACTORY_RESET
  }

  predicate PassesCommit(d: Device, report: seq<bv8>)
    requires |report| == REPORT_SIZE
  {
    CrcOk(report) && report[0] == CMD_WRITE_TO_SLOT && Commits(d, report)
  }

  lemma {:induction false} OnlyWithPassword(d: Device, report: seq<bv8>, accepts: bool)
    requires d.Valid() && |report| == REPORT_SIZE
    requires SlotPages(Next(d, report, accepts).flash) != SlotPages(d.flash)
    ensures CrcOk(report)
    ensures (ChangesSlots(report) && ValidPassword(d, Presented(report))) || (Resets(report) && accepts)
    ensures report[0] == CMD_WRITE_TO_SLOT ==> d.started
  {
    hide SlotPages, CrcOk, SlotStored, TimeServed, CodeVerified, CodeGiven, FactoryReset.Reset, SlotWritten, SlotsRewritten,
      Region, WithChunk;
    GivingCodeKeepsSlots(d, report);
    VerifyingKeepsSlots(d.flash, report);
    ServingTimeKeepsSlots(d.flash, report);
  }

  // ----- runs

  predicate Events(es: seq<Event>) {
    forall i :: 0 <= i < |es| ==> es[i].Valid()
  }

  /** The state after the first n events. */
  function After(d: Device, es: seq<Event>, n: nat): (e: Device)
    requires d.Valid() && Events(es) && n <= |es|
    ensures e.Valid()
  {
    if n == 0 then d else Step(After(d, es, n - 1), es[n - 1])
  }

  /** The two PINs that the card knows; each has its temporary password. */
  datatype Pin = AdminPin | UserPin

  predicate HasPassword(d: Device, pin: Pin) {
    if pin.AdminPin? then d.adminSet else d.userSet
  }

  function PasswordOf(d: Device, pin: Pin): seq<bv8> {
    if pin.AdminPin? then d.adminPassword else d.userPassword
  }

  predicate IsCommand(e: Event, command: bv8)
    requires e.Valid()
  {
    e.Report? && CrcOk(e.report) && e.report[0] == command
  }

  predicate Authenticates(pin: Pin, e: Event)
    requires e.Valid()
  {
    IsCommand(e, if pin.AdminPin? then 0x07 else 0x0E)
  }

  predicate Locks(e: Event)
    requires e.Valid()
  {
    IsCommand(e, 0x12)
  }

  /** Event j is the latest authentication before i, the card accepted it, it set this password, and the
      device has not been locked since. */
  ghost predicate Granted(pin: Pin, es: seq<Event>, j: nat, i: nat, password: seq<bv8>)
    requires Events(es) && i <= |es|
  {
    && j < i && Authenticates(pin, es[j]) && es[j].accepts && es[j].report[26..51] == password
    && forall k :: j < k < i ==> !Authenticates(pin, es[k]) && !Locks(es[k])
  }

  lemma {:induction false} AuthenticatingStep(pin: Pin, d: Device, e: Event)
    requires d.Valid() && e.Valid() && Authenticates(pin, e)
    ensures e.Report?
    ensures HasPassword(Step(d, e), pin) == e.accepts
    ensures e.accepts ==> PasswordOf(Step(d, e), pin) == e.report[26..51]
  {
    hide CrcOk;
  }

  lemma {:induction false} LockingStep(pin: Pin, d: Device, e: Event)
    requires d.Valid() && e.Valid() && Locks(e)
    ensures !HasPassword(Step(d, e), pin)
  {
    hide CrcOk;
  }

  predicate KeepsPassword(pin: Pin, d: Device, e: Device) {
    HasPassword(e, pin) == HasPassword(d, pin) && PasswordOf(e, pin) == PasswordOf(d, pin)
  }

  lemma {:induction false} OtherStep(pin: Pin, d: Device, e: Event)
    requires d.Valid() && e.Valid() && !Authenticates(pin, e) && !Locks(e)
    ensures KeepsPassword(pin, d, Step(d, e))
  {
    hide CrcOk, TimeServed, CodeVerified, CodeGiven, FactoryReset.Reset, Committed, Sent, ConfigStored, SlotErased,
      Locked, Clicked,
      Slot.Valid, Image.Valid;
    if e.Click? {
    } else if e.report[0] == CMD_WRITE_TO_SLOT || e.report[0] == CMD_SEND_OTP_DATA || e.report[0] == CMD_WRITE_CONFIG {
    } else if e.report[0] == CMD_ERASE_SLOT || e.report[0] == CMD_GET_CODE {
    } else {
    }
  }

  /** A password is only ever set by the latest authentication, and only until a failed one or a lock. */
  lemma {:induction false} PasswordWasGranted(pin: Pin, d: Device, es: seq<Event>, n: nat)
    requires d.Valid() && Events(es) && n <= |es| && !HasPassword(d, pin)
    ensures HasPassword(After(d, es, n), pin) ==> exists j: nat :: Granted(pin, es, j, n, PasswordOf(After(d, es, n), pin))
  {
    hide Step, Authenticates, Locks, HasPassword, PasswordOf;
    if n > 0 {
      PasswordWasGranted(pin, d, es, n - 1);
      var before := After(d, es, n - 1);
      var e := es[n - 1];
      if Authenticates(pin, e) {
        AuthenticatingStep(pin, before, e);
        if e.accepts {
          assert Granted(pin, es, n - 1, n, PasswordOf(After(d, es, n), pin));
        }
      } else if Locks(e) {
        LockingStep(pin, before, e);
      } else {
        OtherStep(pin, before, e);
        if HasPassword(before, pin) {
          var j: nat :| Granted(pin, es, j, n - 1, PasswordOf(before, pin));
          assert Granted(pin, es, j, n, PasswordOf(After(d, es, n), pin));
        }
      }
    }
  }

  /** An event that changes the slot pages is a slot command with the password of the latest, successful,
      authentication, or a factory reset that the card accepted. */
  lemma {:induction false} SlotChangesAreAuthorised(d: Device, es: seq<Event>, i: nat)
    requires d.Valid() && Events(es) && i < |es| && !d.adminSet
    requires SlotPages(After(d, es, i + 1).flash) != SlotPages(After(d, es, i).flash)
    ensures es[i].Report? && CrcOk(es[i].report) && (ChangesSlots(es[i].report) || Resets(es[i].report))
    ensures ChangesSlots(es[i].report) ==> exists j: nat :: Granted(AdminPin, es, j, i, Presented(es[i].report))
    ensures Resets(es[i].report) ==> es[i].accepts
  {
    hide Next, Clicked, SlotPages, CrcOk, Granted, Presented;
    var before := After(d, es, i);
    if es[i].Click? {
      ClickingKeepsSlots(before, es[i].key);
      assert false;
    }
    OnlyWithPassword(before, es[i].report, es[i].accepts);
    PasswordWasGranted(AdminPin, d, es, i);
  }

  /** A factory reset leaves no slot programmed and no code protected, and keeps the time, both temporary
      passwords and an upload under way. */
  lemma {:induction false} ResetClears(d: Device, e: Event, m: nat)
    requires d.Valid() && e.Valid() && IsCommand(e, CMD_FACTORY_RESET) && e.accepts
    ensures SlotPages(Step(d, e).flash) == Fill(0xFF, SLOTS_SIZE)
    ensures SlotAt(Step(d, e).flash, m).kind == 0xFF && !PinProtected(Step(d, e).flash)
    ensures Page(Step(d, e).flash, TimeLog.TIME_PAGE) == Page(d.flash, TimeLog.TIME_PAGE)
    ensures SamePasswords(d, Step(d, e)) && Step(d, e).started == d.started && Step(d, e).slot == d.slot
  {
    hide CrcOk, FactoryReset.Reset, Region;
    ResetStep(d, e);
    FactoryReset.ResetPage(d.flash, TimeLog.TIME_PAGE);
    ErasedSlots(d.flash);
    ErasedRecord(FactoryReset.Reset(d.flash), m);
  }

  lemma {:induction false} ResetStep(d: Device, e: Event)
    requires d.Valid() && e.Valid() && IsCommand(e, CMD_FACTORY_RESET) && e.accepts
    ensures Step(d, e) == d.(flash := FactoryReset.Reset(d.flash))
  {
    hide CrcOk, FactoryReset.Reset;
  }

  lemma {:induction false} ErasedSlots(f: Image)
    requires f.Valid()
    ensures SlotPages(FactoryReset.Reset(f)) == Fill(0xFF, SLOTS_SIZE)
  {
    forall i: nat | i < SLOTS_SIZE
      ensures SlotPages(FactoryReset.Reset(f))[i] == 0xFF
    {
      assert FactoryReset.WipedPage((SLOTS_ADDRESS + i) / PAGE_SIZE);
    }
  }

  lemma {:induction false} ErasedRecord(f: Image, m: nat)
    requires f.Valid() && SlotPages(f) == Fill(0xFF, SLOTS_SIZE)
    ensures SlotAt(f, m).kind == 0xFF && f.cells[SLOTS_ADDRESS + PIN_PROTECTION_OFFSET] == 0xFF
  {
    assert f.cells[SLOTS_ADDRESS + SlotOffset(m)] == SlotPages(f)[SlotOffset(m)];
    assert f.cells[SLOTS_ADDRESS + PIN_PROTECTION_OFFSET] == SlotPages(f)[PIN_PROTECTION_OFFSET];
  }

  // ----- silence

  /** The two authorise commands, which check nothing. */
  predicate Authorizes(e: Event)
    requires e.Valid()
  {
    IsCommand(e, 0x08) || IsCommand(e, 0x10)
  }

  lemma {:induction false} SilenceStep(d: Device, e: Event)
    requires d.Valid() && e.Valid()
    ensures Step(d, e).silenced == (d.silenced || Authorizes(e))
  {
    hide CrcOk, TimeServed, CodeVerified, CodeGiven, FactoryReset.Reset, Committed, Sent, ConfigStored, SlotErased, Clicked,
      Slot.Valid, Image.Valid;
    if e.Report? {
      SlotCommandsKeepSilence(d, e.report);
    } else {
      ClickKeepsUpload(d, e.key);
    }
  }

  lemma {:induction false} SlotCommandsKeepSilence(d: Device, report: seq<bv8>)
    requires d.Valid() && |report| == REPORT_SIZE
    ensures Committed(d, report).silenced == d.silenced && Sent(d, report).silenced == d.silenced
    ensures ConfigStored(d, report).silenced == d.silenced && SlotErased(d, report).silenced == d.silenced
    ensures CodeGiven(d, report).silenced == d.silenced
  {
    hide SlotWritten, SlotsRewritten, Region, WithChunk, Kept, Typed, CounterStored, Filled, ValidPassword,
      GivesHotp, Increments,
      SlotIndex, Acceptable, Ignored;
  }

  /** Refusals are silenced from the first authorise command on, for good. */
  lemma {:induction false} SilencedSince(d: Device, es: seq<Event>, n: nat)
    requires d.Valid() && Events(es) && n <= |es|
    ensures After(d, es, n).silenced <==> d.silenced || exists i :: 0 <= i < n && Authorizes(es[i])
  {
    hide Step, Authorizes;
    if n > 0 {
      SilencedSince(d, es, n - 1);
      SilenceStep(After(d, es, n - 1), es[n - 1]);
    }
  }

  // ----- commits

  ghost predicate CommitsAt(d: Device, es: seq<Event>, i: nat)
    requires d.Valid() && Events(es) && i < |es|
  {
    es[i].Report? && PassesCommit(After(d, es, i), es[i].report)
  }

  /** Event u begins an upload: an authorised chunk while no upload was under way. */
  ghost predicate BeginsAt(d: Device, es: seq<Event>, u: nat)
    requires d.Valid() && Events(es) && u < |es|
  {
    IsCommand(es[u], CMD_SEND_OTP_DATA) && SendsData(After(d, es, u), es[u].report) && !After(d, es, u).started
  }

  lemma {:induction false} StartedStep(d: Device, report: seq<bv8>, accepts: bool)
    requires d.Valid() && |report| == REPORT_SIZE
    ensures PassesCommit(d, report) ==> !Next(d, report, accepts).started
    ensures d.started && !PassesCommit(d, report) ==> Next(d, report, accepts).started
    ensures !d.started && Next(d, report, accepts).started ==>
              CrcOk(report) && report[0] == CMD_SEND_OTP_DATA && SendsData(d, report)
  {
    hide CrcOk, TimeServed, CodeVerified, GivesHotp, Increments, SlotIndex, FactoryReset.Reset, SlotWritten,
      SlotsRewritten, Region,
      WithChunk, Kept, Typed, CounterStored, Filled, ValidPassword;
  }

  lemma {:induction false} ClickKeepsUpload(d: Device, key: nat)
    requires d.Valid() && key < LOCK_KEYS
    ensures Clicked(d, key).started == d.started && Clicked(d, key).silenced == d.silenced
  {
    hide Types, Increments, SlotOfKey;
  }

  ghost predicate OpenSince(d: Device, es: seq<Event>, u: nat, n: nat)
    requires d.Valid() && Events(es) && n <= |es|
  {
    u < n && BeginsAt(d, es, u) && forall k :: u < k < n ==> !CommitsAt(d, es, k)
  }

  lemma {:induction false} StartedByUpload(d: Device, es: seq<Event>, n: nat)
    requires d.Valid() && Events(es) && n <= |es| && !d.started
    ensures After(d, es, n).started ==> exists u: nat :: OpenSince(d, es, u, n)
  {
    hide Next, Clicked, CrcOk, SendsData, Commits;
    if n > 0 {
      StartedByUpload(d, es, n - 1);
      var before := After(d, es, n - 1);
      if es[n - 1].Report? {
        StartedStep(before, es[n - 1].report, es[n - 1].accepts);
      } else {
        ClickKeepsUpload(before, es[n - 1].key);
      }
      if After(d, es, n).started {
        if before.started {
          var u: nat :| OpenSince(d, es, u, n - 1);
          assert OpenSince(d, es, u, n);
        } else {
          assert OpenSince(d, es, n - 1, n);
        }
      }
    }
  }

  /** Every commit that passes consumes an upload, begun with a granted password after the last passing commit. */
  lemma {:induction false} CommitConsumesUpload(d: Device, es: seq<Event>, i: nat)
    requires d.Valid() && Events(es) && i < |es| && !d.started && !d.adminSet && CommitsAt(d, es, i)
    ensures exists u: nat, j: nat :: OpenSince(d, es, u, i) && Granted(AdminPin, es, j, u, es[u].report[1..26])
    ensures !After(d, es, i + 1).started
  {
    hide Next, CrcOk, Granted;
    StartedByUpload(d, es, i);
    StartedStep(After(d, es, i), es[i].report, es[i].accepts);
    var u: nat :| OpenSince(d, es, u, i);
    PasswordWasGranted(AdminPin, d, es, u);
  }
}
