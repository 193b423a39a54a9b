/** CMD_SET_TIME among all other events: the stored time is the last accepted one, and only moves forward. */
module ReportTime {
  import opened Bytes
  import opened Dwords
  import opened FlashMemory
  import opened CounterPage
  import opened CounterRuns
  import opened OtpSlots
  import opened HotpValidation
  import opened ReportAnswers
  import opened ReportState
  import opened ReportRuns
  import opened TimeLog
  import Crc
  import FactoryReset
  import SetTime

  // ----- numbers

  lemma {:induction false} WordOfNumber(m: nat)
    requires m < 0x1_0000_0000
    ensures Unsigned(ToWord(m)) == m
  {
    hide ToWord, Crc.LittleBytes, LittleWord, LittleFrom, Unsigned;
    NumberOfWord(m);
    WordOfBytes(ToWord(m));
    LittleWordNumber(Crc.LittleBytes(ToWord(m)));
  }

  /** The seconds that a report carries, since 1970. */
  function Seconds(report: seq<bv8>): (t: nat)
    requires |report| == REPORT_SIZE
  {
    LittleNumber(report[2..10])
  }

  /** A time from 2014 on, within the 24 bits of minutes that the flash keeps. */
  predicate InRange(t: nat) {
    1388534400 <= t < 1388534400 + 60 * 0x1000000
  }

  function MinutesOf(t: nat): (m: nat)
    requires InRange(t)
    ensures m < 0x1000000
  {
    (t - 1388534400) / 60
  }

  lemma {:induction false} MinutesAre(t: nat)
    requires InRange(t)
    ensures Unsigned(SetTime.MinutesSince(t)) == MinutesOf(t)
    ensures Low24(SetTime.MinutesSince(t)) == SetTime.MinutesSince(t)
  {
    hide ToWord, Low24, Unsigned;
    SetTime.OrdinaryMinutes(SetTime.Request(0, t));
    WordOfNumber(MinutesOf(t));
  }

  // ----- the time page over events

  ghost predicate HoldsTimes(f: Image)
    requires f.Valid()
  {
    exists es: seq<bv32> :: Holds(Page(f, 509), es)
  }

  /** The time that the flash holds, if any. */
  function StoredTime(f: Image): (t: bv32)
    requires f.Valid()
  {
    TimeValue(Page(f, 509))
  }

  /** A check (0) is refused while the time reads as zero; otherwise the time must not go back, unless there is none yet
      or the report forces it (1). */
  predicate Taken(f: Image, report: seq<bv8>)
    requires f.Valid() && |report| == REPORT_SIZE && InRange(Seconds(report))
  {
    && !(report[1] == 0 && StoredTime(f) == 0)
    && (Unsigned(StoredTime(f)) <= MinutesOf(Seconds(report)) || StoredTime(f) == 0xffffffff || report[1] == 1)
  }

  lemma {:induction false} ServingStep(d: Device, report: seq<bv8>, accepts: bool, totp: bv32)
    requires d.Valid() && |report| == REPORT_SIZE && CrcOk(report) && report[0] == 0x0B && InRange(Seconds(report))
    ensures Next(d, report, accepts)
         == if Taken(d.flash, report) then d.(flash := TimeSet(d.flash, SetTime.MinutesSince(Seconds(report)))) else d
    ensures Answer(d, report, accepts, totp)[6] == if Taken(d.flash, report) then 0 else 6
  {
    hide CrcOk, TimeSet, TimeValue, SetTime.MinutesSince, Unsigned, LittleFrom, Page, Answer, MinutesOf;
    MinutesAre(Seconds(report));
    AnswerIsBody(d, report, accepts, totp);
  }

  /** A report that is taken stores its minutes; one that is not changes nothing and answers status 6. */
  lemma {:induction false} TimeIsStored(d: Device, report: seq<bv8>, accepts: bool, totp: bv32)
    requires d.Valid() && |report| == REPORT_SIZE && CrcOk(report) && report[0] == 0x0B && InRange(Seconds(report))
    requires HoldsTimes(d.flash)
    ensures HoldsTimes(Next(d, report, accepts).flash)
    ensures Taken(d.flash, report) ==> Unsigned(StoredTime(Next(d, report, accepts).flash)) == MinutesOf(Seconds(report))
    ensures Taken(d.flash, report) ==> Answer(d, report, accepts, totp)[6] == 0
    ensures !Taken(d.flash, report) ==> Next(d, report, accepts) == d && Answer(d, report, accepts, totp)[6] == 6
  {
    hide CrcOk, TimeSet, TimeValue, SetTime.MinutesSince, Unsigned, LittleFrom, Page, Answer, MinutesOf, Next, Holds,
      Encoded, Minutes,
      Taken, Low24;
    ServingStep(d, report, accepts, totp);
    if Taken(d.flash, report) {
      var t := SetTime.MinutesSince(Seconds(report));
      var es: seq<bv32> :| Holds(Page(d.flash, 509), es);
      TimeSetLogs(d.flash, es, t);
      LogReads(Page(TimeSet(d.flash, t), 509), Logged(es, Encoded(t)));
      EncodedDecodes(t);
      MinutesAre(Seconds(report));
    }
  }

  // ----- no other event touches the time

  lemma {:induction false} RewritingKeepsTime(f: Image, pages: seq<bv8>)
    requires f.Valid() && |pages| == SLOTS_SIZE
    ensures Page(SlotsRewritten(f, pages), 509) == Page(f, 509)
  {
    hide Region, SlotsRewritten;
    RewrittenElsewhere(f, pages, 509 * 512, 512);
  }

  lemma {:induction false} UsingKeepsTime(f: Image, p: nat, n: nat)
    requires f.Valid() && IsCounterPage(p)
    ensures Page(Increments(f, p, n), 509) == Page(f, 509)
  {
    hide Region, Increments;
    IncrementsOutside(f, p, n, 509 * 512, 512);
  }

  lemma {:induction false} CommittingKeepsTime(d: Device, report: seq<bv8>)
    requires d.Valid() && |report| == REPORT_SIZE
    ensures Page(Committed(d, report).flash, 509) == Page(d.flash, 509)
  {
    hide Region, CounterSet, SlotsRewritten, SlotsWith, SlotOffset, SecretAt, SlotIndex, Kept, Typed, Commits,
      ToNumber, Acceptable,
      Ignored, Filled;
    var w := Filled(d.slot, report);
    if Commits(d, report) && Acceptable(w) && !Ignored(w) {
      var f := CounterStored(d.flash, w);
      var o := SlotOffset(RecordOf(w.number));
      if IsHotp(w.number) {
        CounterSetElsewhere(d.flash, CounterPageOf(SlotIndex(w.number)), ToNumber(w.interval), 509 * 512, 512);
      }
      RewritingKeepsTime(f, SlotsWith(f, o, Kept(Typed(w), SecretAt(f, o))));
    }
  }

  lemma {:induction false} WritingKeepsTime(d: Device, report: seq<bv8>)
    requires d.Valid() && |report| == REPORT_SIZE
    ensures Page(ConfigStored(d, report).flash, 509) == Page(d.flash, 509)
    ensures Page(SlotErased(d, report).flash, 509) == Page(d.flash, 509)
  {
    hide Page, SlotsRewritten, SlotsWith, SlotOffset, SlotIndex, ValidPassword, ConfigValid, Splice, Region;
    RewritingKeepsTime(d.flash, Splice(Region(d.flash, SLOTS_ADDRESS, SLOTS_SIZE), GLOBAL_CONFIG_OFFSET, report[1..6]));
    RewritingKeepsTime(d.flash, SlotsWith(d.flash, SlotOffset(RecordOf(report[1])), BLANK_SLOT));
  }

  lemma {:induction false} CodesKeepTime(d: Device, report: seq<bv8>)
    requires d.Valid() && |report| == REPORT_SIZE
    ensures Page(CodeGiven(d, report).flash, 509) == Page(d.flash, 509)
    ensures Page(CodeVerified(d.flash, report), 509) == Page(d.flash, 509)
  {
    hide Page, Increments, SlotIndex, FirstMatch, CodeIn, SlotAt, MayGetCode;
    if GivesHotp(d, report) {
      UsingKeepsTime(d.flash, CounterPageOf(SlotIndex(report[1])), 1);
    }
    if Programmed(d.flash, 3) {
      UsingKeepsTime(d.flash, 505, FirstMatch(d.flash, 3, CodeIn(report), 0) + 1);
    }
  }

  lemma {:induction false} ClickKeepsTime(d: Device, key: nat)
    requires d.Valid() && key < LOCK_KEYS
    ensures Page(Clicked(d, key).flash, 509) == Page(d.flash, 509)
  {
    hide Page, Increments, SlotOfKey, SlotAt;
    if Types(d.flash, key) {
      UsingKeepsTime(d.flash, CounterPageOf(SlotOfKey(d.flash, key)), 1);
    }
  }

  lemma {:induction false} OtherEventsKeepTime(d: Device, e: Event)
    requires d.Valid() && e.Valid() && !IsCommand(e, 0x0B)
    ensures Page(Step(d, e).flash, 509) == Page(d.flash, 509)
  {
    hide Page, CrcOk, Committed, Sent, ConfigStored, SlotErased, TimeServed, CodeVerified, CodeGiven, Clicked,
      FactoryReset.Reset,
      Slot.Valid, Image.Valid;
    if e.Click? {
      ClickKeepsTime(d, e.key);
    } else if e.report[0] == CMD_WRITE_TO_SLOT {
      CommittingKeepsTime(d, e.report);
    } else if e.report[0] == CMD_WRITE_CONFIG || e.report[0] == CMD_ERASE_SLOT {
      WritingKeepsTime(d, e.report);
    } else if e.report[0] == CMD_GET_CODE || e.report[0] == CMD_VERIFY_OTP_CODE {
      CodesKeepTime(d, e.report);
    } else if e.report[0] == CMD_SEND_OTP_DATA {
      SendingKeepsFlash(d, e.report);
    } else {
      FactoryReset.ResetPage(d.flash, 509);
    }
  }

  // ----- runs

  /** No report forces the time or carries one out of range. */
  ghost predicate OrdinaryTimes(es: seq<Event>)
    requires Events(es)
  {
    forall i :: 0 <= i < |es| && IsCommand(es[i], 0x0B) ==> OrdinaryTime(es[i])
  }

  predicate OrdinaryTime(e: Event)
    requires e.Valid()
  {
    e.Report? && e.report[1] != 1 && InRange(Seconds(e.report))
  }

  /** If f holds a time, so does g, and no earlier one. */
  predicate NotLater(f: Image, g: Image)
    requires f.Valid() && g.Valid()
  {
    StoredTime(f) == 0xffffffff
    || (StoredTime(g) != 0xffffffff && Unsigned(StoredTime(f)) <= Unsigned(StoredTime(g)))
  }

  lemma {:induction false} TimeStep(d: Device, e: Event)
    requires d.Valid() && e.Valid() && HoldsTimes(d.flash) && (IsCommand(e, 0x0B) ==> OrdinaryTime(e))
    ensures HoldsTimes(Step(d, e).flash) && NotLater(d.flash, Step(d, e).flash)
  {
    hide CrcOk, Next, Clicked, Holds, Unsigned, MinutesOf, Page, TimeValue, LittleFrom;
    if IsCommand(e, 0x0B) {
      TimeIsStored(d, e.report, e.accepts, 0);
      UnsignedMark(StoredTime(Step(d, e).flash));
    } else {
      OtherEventsKeepTime(d, e);
    }
  }

  lemma {:induction false} UnsignedMark(w: bv32)
    ensures w == 0xffffffff ==> Unsigned(w) >= 0x1000000
  {
  }

  /** Over any run of events without forced times, a stored time is never lost and never goes back. */
  lemma {:induction false} TimeNeverGoesBack(d: Device, es: seq<Event>, m: nat, n: nat)
    requires d.Valid() && Events(es) && m <= n <= |es| && HoldsTimes(d.flash) && OrdinaryTimes(es)
    ensures HoldsTimes(After(d, es, n).flash) && NotLater(After(d, es, m).flash, After(d, es, n).flash)
    decreases n
  {
    hide HoldsTimes, StoredTime, Unsigned, IsCommand, OrdinaryTime, Step;
    if n > 0 {
      TimeNeverGoesBack(d, es, if m < n then m else n - 1, n - 1);
      TimeStep(After(d, es, n - 1), es[n - 1]);
    }
  }
}
