/** Safety over runs of the report protocol: the counter pages keep their shape, and who may move a counter. */
module ReportCounters {
  import opened Bytes
  import opened Dwords
  import opened FlashMemory
  import opened CounterPage
  import opened CounterRuns
  import opened OtpSlots
  import opened HotpValidation
  import opened ReportState
  import opened ReportRuns
  import FactoryReset
  import TimeLog
  import SetTime

  /** A base and some used tokens, of which the values below are known. */
  ghost predicate IsShaped(pg: seq<bv8>) {
    exists b: nat, k: nat :: HasShape(pg, b, k)
  }

  predicate HasShape(pg: seq<bv8>, b: nat, k: nat) {
    k <= TOKENS && b < TWO64 && pg == Shaped(b, k)
  }

  function CounterOf(f: Image, s: nat): (pg: seq<bv8>)
    requires f.Valid() && s < NUMBER_OF_HOTP_SLOTS
    ensures |pg| == PAGE_SIZE
  {
    Page(f, CounterPageOf(s))
  }

  ghost predicate CountersShaped(f: Image)
    requires f.Valid()
  {
    forall s: nat :: s < NUMBER_OF_HOTP_SLOTS ==> IsShaped(CounterOf(f, s))
  }

  lemma {:induction false} ErasedShape()
    ensures Shaped(TWO64 - 1, 0) == Fill(0xFF, PAGE_SIZE)
  {
    AllOnes(8);
    RadixEight();
  }

  /** Erased flash counts as shaped: all ones, no token used. */
  lemma {:induction false} ErasedIsShaped()
    ensures IsShaped(Fill(0xFF, PAGE_SIZE))
  {
    hide Shaped;
    ErasedShape();
    assert HasShape(Fill(0xFF, PAGE_SIZE), TWO64 - 1, 0);
  }

  lemma {:induction false} AllOnes(n: nat)
    ensures BigEndian(Radix(n) - 1, n) == Fill(0xFF, n)
  {
    if n > 0 {
      AllOnes(n - 1);
      assert (Radix(n) - 1) / 256 == Radix(n - 1) - 1;
      assert (Radix(n) - 1) % 256 == 255;
      assert ToByte(255) == 0xFF;
    }
  }

  // ----- what each command does to one counter page

  lemma {:induction false} RewritingKeepsCounter(f: Image, pages: seq<bv8>, s: nat)
    requires f.Valid() && |pages| == SLOTS_SIZE && s < NUMBER_OF_HOTP_SLOTS
    ensures CounterOf(SlotsRewritten(f, pages), s) == CounterOf(f, s)
  {
    hide Region, SlotsRewritten;
    RewrittenElsewhere(f, pages, PAGE_SIZE * CounterPageOf(s), PAGE_SIZE);
  }

  lemma {:induction false} ServingTimeKeepsCounter(f: Image, report: seq<bv8>, s: nat)
    requires f.Valid() && |report| == REPORT_SIZE && s < NUMBER_OF_HOTP_SLOTS
    ensures CounterOf(TimeServed(f, report), s) == CounterOf(f, s)
  {
    hide Region, TimeLog.TimeSet, SetTime.MinutesSince, SetTime.Accepts, TimeLog.TimeValue;
    TimeLog.TimeSetElsewhere(f, SetTime.MinutesSince(LittleNumber(report[2..10])), PAGE_SIZE * CounterPageOf(s), PAGE_SIZE);
  }

  /** Incrementing one counter keeps the other pages, and the shape of its own. */
  lemma {:induction false} IncrementsKeepShape(f: Image, s: nat, n: nat, r: nat)
    requires f.Valid() && s < NUMBER_OF_HOTP_SLOTS && r < NUMBER_OF_HOTP_SLOTS && CountersShaped(f)
    ensures IsShaped(CounterOf(Increments(f, CounterPageOf(s), n), r))
    ensures r != s ==> CounterOf(Increments(f, CounterPageOf(s), n), r) == CounterOf(f, r)
  {
    hide Region, Increments, Shaped, BaseAfter;
    assert IsShaped(CounterOf(f, r));
    assert IsShaped(CounterOf(f, s));
    var b: nat, k: nat :| HasShape(CounterOf(f, s), b, k);
    if r != s {
      IncrementsElsewhere(f, CounterPageOf(s), b, k, n, PAGE_SIZE * CounterPageOf(r), PAGE_SIZE);
    } else {
      IncrementsShape(f, CounterPageOf(s), b, k, n);
      assert HasShape(CounterOf(Increments(f, CounterPageOf(s), n), s), BaseAfter(b, k + n), (k + n) % (TOKENS + 1));
    }
  }

  lemma {:induction false} CounterStoredShape(f: Image, w: Slot, s: nat)
    requires f.Valid() && w.Valid() && s < NUMBER_OF_HOTP_SLOTS && IsShaped(CounterOf(f, s))
    ensures IsShaped(CounterOf(CounterStored(f, w), s))
    ensures !(IsHotp(w.number) && SlotIndex(w.number) == s) ==> CounterOf(CounterStored(f, w), s) == CounterOf(f, s)
  {
    hide Region, CounterSet, ToNumber, SlotIndex, Shaped;
    if IsHotp(w.number) {
      var p := CounterPageOf(SlotIndex(w.number));
      NumberRoundTrip(w.interval);
      if SlotIndex(w.number) == s {
        CounterSetPage(f, p, ToNumber(w.interval));
        assert HasShape(CounterOf(CounterStored(f, w), s), ToNumber(w.interval), 0);
      } else {
        CounterSetElsewhere(f, p, ToNumber(w.interval), PAGE_SIZE * CounterPageOf(s), PAGE_SIZE);
      }
    }
  }

  lemma {:induction false} CommittedCounter(d: Device, report: seq<bv8>, s: nat)
    requires d.Valid() && |report| == REPORT_SIZE && s < NUMBER_OF_HOTP_SLOTS && IsShaped(CounterOf(d.flash, s))
    ensures IsShaped(CounterOf(Committed(d, report).flash, s))
    ensures CounterOf(Committed(d, report).flash, s) != CounterOf(d.flash, s) ==>
              Commits(d, report) && IsHotp(report[26]) && SlotIndex(report[26]) == s
  {
    hide CounterOf, IsShaped, CounterStored, SlotsRewritten, SlotsWith, SlotOffset, SecretAt, SlotIndex, Typed, Commits,
      EndianSwap, Dword;
    var w := Filled(d.slot, report);
    if Commits(d, report) && Acceptable(w) && !Ignored(w) {
      var f := CounterStored(d.flash, w);
      var o := SlotOffset(RecordOf(w.number));
      CounterStoredShape(d.flash, w, s);
      RewritingKeepsCounter(f, SlotsWith(f, o, Kept(Typed(w), SecretAt(f, o))), s);
    }
  }

  lemma {:induction false} ConfigKeepsCounter(d: Device, report: seq<bv8>, s: nat)
    requires d.Valid() && |report| == REPORT_SIZE && s < NUMBER_OF_HOTP_SLOTS
    ensures CounterOf(ConfigStored(d, report).flash, s) == CounterOf(d.flash, s)
  {
    hide CounterOf, SlotsRewritten, Region, Splice, ConfigValid, ValidPassword;
    RewritingKeepsCounter(d.flash, Splice(Region(d.flash, SLOTS_ADDRESS, SLOTS_SIZE), GLOBAL_CONFIG_OFFSET, report[1..6]), s);
  }

  lemma {:induction false} ErasingKeepsCounter(d: Device, report: seq<bv8>, s: nat)
    requires d.Valid() && |report| == REPORT_SIZE && s < NUMBER_OF_HOTP_SLOTS
    ensures CounterOf(SlotErased(d, report).flash, s) == CounterOf(d.flash, s)
  {
    hide CounterOf, SlotsRewritten, SlotsWith, SlotOffset, SlotIndex, ValidPassword;
    RewritingKeepsCounter(d.flash, SlotsWith(d.flash, SlotOffset(RecordOf(report[1])), BLANK_SLOT), s);
  }

  lemma {:induction false} GivenCounter(d: Device, report: seq<bv8>, s: nat)
    requires d.Valid() && |report| == REPORT_SIZE && s < NUMBER_OF_HOTP_SLOTS && CountersShaped(d.flash)
    ensures IsShaped(CounterOf(CodeGiven(d, report).flash, s))
    ensures CounterOf(CodeGiven(d, report).flash, s) != CounterOf(d.flash, s) ==>
              GivesHotp(d, report) && SlotIndex(report[1]) == s
  {
    hide CounterOf, IsShaped, Increments, SlotIndex;
    assert IsShaped(CounterOf(d.flash, s));
    if GivesHotp(d, report) {
      IncrementsKeepShape(d.flash, SlotIndex(report[1]), 1, s);
    }
  }

  /** A code that the verify command accepts. */
  predicate AcceptsCode(f: Image, report: seq<bv8>)
    requires f.Valid() && |report| == REPORT_SIZE
  {
    Programmed(f, HOTP_VERIFY_SLOT) && FirstMatch(f, HOTP_VERIFY_SLOT, CodeIn(report), 0) < LOOK_AHEAD
  }

  lemma {:induction false} VerifiedCounter(f: Image, report: seq<bv8>, s: nat)
    requires f.Valid() && |report| == REPORT_SIZE && s < NUMBER_OF_HOTP_SLOTS && CountersShaped(f)
    ensures IsShaped(CounterOf(CodeVerified(f, report), s))
    ensures CounterOf(CodeVerified(f, report), s) != CounterOf(f, s) ==> AcceptsCode(f, report) && s == HOTP_VERIFY_SLOT
  {
    hide CounterOf, IsShaped, Increments, FirstMatch, CodeIn, Programmed;
    assert IsShaped(CounterOf(f, s));
    if AcceptsCode(f, report) {
      IncrementsKeepShape(f, HOTP_VERIFY_SLOT, FirstMatch(f, HOTP_VERIFY_SLOT, CodeIn(report), 0) + 1, s);
    }
  }

  lemma {:induction false} ClickedCounter(d: Device, key: nat, s: nat)
    requires d.Valid() && key < LOCK_KEYS && s < NUMBER_OF_HOTP_SLOTS && CountersShaped(d.flash)
    ensures IsShaped(CounterOf(Clicked(d, key).flash, s))
    ensures CounterOf(Clicked(d, key).flash, s) != CounterOf(d.flash, s) ==> Types(d.flash, key) && SlotOfKey(d.flash, key) == s
  {
    hide CounterOf, IsShaped, Increments, SlotOfKey, SlotAt;
    assert IsShaped(CounterOf(d.flash, s));
    if Types(d.flash, key) {
      IncrementsKeepShape(d.flash, SlotOfKey(d.flash, key), 1, s);
    }
  }

  lemma {:induction false} ResetCounter(f: Image, s: nat)
    requires f.Valid() && s < NUMBER_OF_HOTP_SLOTS
    ensures IsShaped(CounterOf(FactoryReset.Reset(f), s))
  {
    hide FactoryReset.Reset, Region, IsShaped;
    FactoryReset.ResetPage(f, CounterPageOf(s));
    ErasedIsShaped();
  }

  // ----- one event

  /** The reports that use or set the counter of HOTP slot s: an upload to it, a code from it, a code that is
      accepted for the verification slot, or a factory reset that the card accepts. */
  predicate Moves(d: Device, report: seq<bv8>, accepts: bool, s: nat)
    requires d.Valid() && |report| == REPORT_SIZE
  {
    || (report[0] == CMD_WRITE_TO_SLOT && Commits(d, report) && IsHotp(report[26]) && SlotIndex(report[26]) == s)
    || (report[0] == CMD_GET_CODE && GivesHotp(d, report) && SlotIndex(report[1]) == s)
    || (report[0] == CMD_VERIFY_OTP_CODE && AcceptsCode(d.flash, report) && s == HOTP_VERIFY_SLOT)
    || (Resets(report) && accepts)
  }

  lemma {:induction false} ReportStep(d: Device, report: seq<bv8>, accepts: bool, s: nat)
    requires d.Valid() && |report| == REPORT_SIZE && s < NUMBER_OF_HOTP_SLOTS && CountersShaped(d.flash)
    ensures IsShaped(CounterOf(Next(d, report, accepts).flash, s))
    ensures CounterOf(Next(d, report, accepts).flash, s) != CounterOf(d.flash, s) ==>
              CrcOk(report) && Moves(d, report, accepts, s)
  {
    hide CounterOf, IsShaped, CrcOk, TimeServed, CodeVerified, CodeGiven, FactoryReset.Reset, Committed, Sent,
      ConfigStored, SlotErased,
      AcceptsCode, GivesHotp, SlotIndex, Commits, Slot.Valid, Image.Valid;
    assert IsShaped(CounterOf(d.flash, s));
    if report[0] == CMD_WRITE_TO_SLOT {
      CommittedCounter(d, report, s);
    } else if report[0] == CMD_WRITE_CONFIG {
      ConfigKeepsCounter(d, report, s);
    } else if report[0] == CMD_ERASE_SLOT {
      ErasingKeepsCounter(d, report, s);
    } else if report[0] == CMD_GET_CODE {
      GivenCounter(d, report, s);
    } else if report[0] == CMD_VERIFY_OTP_CODE {
      VerifiedCounter(d.flash, report, s);
    } else if report[0] == CMD_SET_TIME {
      ServingTimeKeepsCounter(d.flash, report, s);
    } else if report[0] == CMD_SEND_OTP_DATA {
      SendingKeepsFlash(d, report);
    } else {
      ResetCounter(d.flash, s);
    }
  }

  lemma {:induction false} CounterStep(d: Device, e: Event, s: nat)
    requires d.Valid() && e.Valid() && s < NUMBER_OF_HOTP_SLOTS && CountersShaped(d.flash)
    ensures IsShaped(CounterOf(Step(d, e).flash, s))
    ensures CounterOf(Step(d, e).flash, s) != CounterOf(d.flash, s) ==>
              if e.Report? then CrcOk(e.report) && Moves(d, e.report, e.accepts, s)
              else Types(d.flash, e.key) && SlotOfKey(d.flash, e.key) == s
  {
    hide Next, Clicked, CounterOf, IsShaped, CrcOk, Moves, Types, SlotOfKey, CountersShaped;
    if e.Report? {
      ReportStep(d, e.report, e.accepts, s);
    } else {
      ClickedCounter(d, e.key, s);
    }
  }

  // ----- runs

  /** Whatever the events, the counter pages keep their shape, so their values and wear are those of
      CounterRuns. */
  lemma {:induction false} CountersStayShaped(d: Device, es: seq<Event>, n: nat)
    requires d.Valid() && Events(es) && n <= |es| && CountersShaped(d.flash)
    ensures CountersShaped(After(d, es, n).flash)
  {
    hide Step, IsShaped, CounterOf;
    if n > 0 {
      CountersStayShaped(d, es, n - 1);
      forall s: nat | s < NUMBER_OF_HOTP_SLOTS
        ensures IsShaped(CounterOf(After(d, es, n).flash, s))
      {
        CounterStep(After(d, es, n - 1), es[n - 1], s);
      }
    }
  }

  /** A counter moves only by a click of a lock key that the configuration assigns to its slot, an upload with the
      granted admin password, a code from its slot, with the granted user password where the configuration asks
      for one, an accepted code, or a factory reset. */
  lemma {:induction false} CounterMovesAreAuthorised(d: Device, es: seq<Event>, i: nat, s: nat)
    requires d.Valid() && Events(es) && i < |es| && !d.adminSet && !d.userSet
    requires s < NUMBER_OF_HOTP_SLOTS && CountersShaped(d.flash)
    requires CounterOf(After(d, es, i + 1).flash, s) != CounterOf(After(d, es, i).flash, s)
    ensures es[i].Click? ==> Types(After(d, es, i).flash, es[i].key) && SlotOfKey(After(d, es, i).flash, es[i].key) == s
    ensures es[i].Report? ==> CrcOk(es[i].report) && Moves(After(d, es, i), es[i].report, es[i].accepts, s)
    ensures es[i].Report? && es[i].report[0] == CMD_WRITE_TO_SLOT ==>
              exists j: nat :: Granted(AdminPin, es, j, i, es[i].report[1..26])
    ensures es[i].Report? && es[i].report[0] == CMD_GET_CODE && PinProtected(After(d, es, i).flash) ==>
              exists j: nat :: Granted(UserPin, es, j, i, es[i].report[19..44])
  {
    hide Step, CounterOf, IsShaped, CrcOk, Granted, PinProtected, AcceptsCode, Programmed, SlotIndex, Types, SlotOfKey;
    CountersStayShaped(d, es, i);
    CounterStep(After(d, es, i), es[i], s);
    PasswordWasGranted(AdminPin, d, es, i);
    PasswordWasGranted(UserPin, d, es, i);
  }

  // ----- a counter counts its uses

  /** The events that give the counter of slot s a new start. */
  predicate Restarts(d: Device, e: Event, s: nat)
    requires e.Valid()
  {
    && e.Report? && CrcOk(e.report)
    && ((Resets(e.report) && e.accepts)
        || (e.report[0] == CMD_WRITE_TO_SLOT && Commits(d, e.report) && IsHotp(e.report[26]) && SlotIndex(e.report[26]) == s))
  }

  /** The increments that an event asks of the counter of slot s. */
  function UsesOf(d: Device, e: Event, s: nat): (n: nat)
    requires d.Valid() && e.Valid()
  {
    if e.Click? then (if Types(d.flash, e.key) && SlotOfKey(d.flash, e.key) == s then 1 else 0)
    else if IsCommand(e, CMD_GET_CODE) && GivesHotp(d, e.report) && SlotIndex(e.report[1]) == s then 1
    else if IsCommand(e, CMD_VERIFY_OTP_CODE) && AcceptsCode(d.flash, e.report) && s == HOTP_VERIFY_SLOT then
      FirstMatch(d.flash, HOTP_VERIFY_SLOT, CodeIn(e.report), 0) + 1
    else 0
  }

  lemma {:induction false} UsingStep(d: Device, e: Event, s: nat)
    requires d.Valid() && e.Valid() && s < NUMBER_OF_HOTP_SLOTS && CountersShaped(d.flash) && !Restarts(d, e, s)
    ensures CounterOf(Step(d, e).flash, s) == CounterOf(Increments(d.flash, CounterPageOf(s), UsesOf(d, e, s)), s)
  {
    hide CounterOf, IsShaped, Increments, CrcOk, GivesHotp, SlotIndex, FirstMatch, CodeIn, Programmed, Commits, Step,
      SlotOfKey;
    CounterStep(d, e, s);
    if UsesOf(d, e, s) == 0 {
      NoIncrements(d.flash, CounterPageOf(s));
    } else {
      UsedStep(d, e, s);
    }
  }

  lemma {:induction false} NoIncrements(f: Image, p: nat)
    requires f.Valid() && IsCounterPage(p)
    ensures Increments(f, p, 0) == f
  {
  }

  lemma {:induction false} UsedStep(d: Device, e: Event, s: nat)
    requires d.Valid() && e.Valid() && s < NUMBER_OF_HOTP_SLOTS && UsesOf(d, e, s) > 0
    ensures Step(d, e).flash == Increments(d.flash, CounterPageOf(s), UsesOf(d, e, s))
  {
    hide Increments, CrcOk, GivesHotp, SlotIndex, FirstMatch, CodeIn, Programmed, SlotOfKey;
    if e.Click? {
    } else if e.report[0] == CMD_GET_CODE {
    } else {
    }
  }

  /** All increments of the first n events. */
  function UsesIn(d: Device, es: seq<Event>, s: nat, n: nat): (u: nat)
    requires d.Valid() && Events(es) && n <= |es|
  {
    if n == 0 then 0 else UsesIn(d, es, s, n - 1) + UsesOf(After(d, es, n - 1), es[n - 1], s)
  }

  /** The page of slot s after m uses of a fresh page with base b. */
  predicate Counted(f: Image, s: nat, b: nat, m: nat)
    requires f.Valid() && s < NUMBER_OF_HOTP_SLOTS
  {
    HasShape(CounterOf(f, s), BaseAfter(b, m), m % (TOKENS + 1))
  }

  lemma {:induction false} CountedStep(d: Device, e: Event, s: nat, b: nat, m: nat)
    requires d.Valid() && e.Valid() && s < NUMBER_OF_HOTP_SLOTS && CountersShaped(d.flash)
    requires Counted(d.flash, s, b, m) && !Restarts(d, e, s)
    ensures Counted(Step(d, e).flash, s, b, m + UsesOf(d, e, s))
  {
    hide Step, Shaped, Region, Increments, UsesOf, CountersShaped, Restarts, BaseAfter;
    var u := UsesOf(d, e, s);
    UsingStep(d, e, s);
    IncrementsShape(d.flash, CounterPageOf(s), BaseAfter(b, m), m % (TOKENS + 1), u);
    UsesAdd(b, m, u);
  }

  ghost predicate NeverRestarts(d: Device, es: seq<Event>, s: nat, n: nat)
    requires d.Valid() && Events(es) && n <= |es|
  {
    forall i :: 0 <= i < n ==> !Restarts(After(d, es, i), es[i], s)
  }

  lemma {:induction false} NeverRestartsBefore(d: Device, es: seq<Event>, s: nat, n: nat)
    requires d.Valid() && Events(es) && n < |es| && NeverRestarts(d, es, s, n + 1)
    ensures NeverRestarts(d, es, s, n) && !Restarts(After(d, es, n), es[n], s)
  {
    hide Restarts, After;
  }

  lemma {:induction false} CountedAfter(d: Device, es: seq<Event>, n: nat, s: nat, b: nat, m: nat)
    requires d.Valid() && Events(es) && n <= |es| && s < NUMBER_OF_HOTP_SLOTS && CountersShaped(d.flash)
    requires Counted(d.flash, s, b, m) && NeverRestarts(d, es, s, n)
    ensures Counted(After(d, es, n).flash, s, b, m + UsesIn(d, es, s, n))
  {
    hide Step, UsesOf, CountersShaped, Restarts, Counted, NeverRestarts;
    if n > 0 {
      NeverRestartsBefore(d, es, s, n - 1);
      CountedAfter(d, es, n - 1, s, b, m);
      CountersStayShaped(d, es, n - 1);
      CountedStep(After(d, es, n - 1), es[n - 1], s, b, m + UsesIn(d, es, s, n - 1));
    }
  }

  /** In whatever order codes are given, typed, verified, slots written and times set: the counter of a slot has
      the shape, and so the value, of exactly the uses of that slot. */
  lemma {:induction false} CounterCountsUses(d: Device, es: seq<Event>, n: nat, s: nat, b: nat, k: nat)
    requires d.Valid() && Events(es) && n <= |es| && s < NUMBER_OF_HOTP_SLOTS && CountersShaped(d.flash)
    requires HasShape(CounterOf(d.flash, s), b, k) && NeverRestarts(d, es, s, n)
    ensures Counted(After(d, es, n).flash, s, b, k + UsesIn(d, es, s, n))
    ensures var m := k + UsesIn(d, es, s, n);
            SlotCounter(After(d, es, n).flash, s) == Wrapped(b + m - m / (TOKENS + 1))
  {
    hide After, Shaped, Region, UsesIn, CountersShaped, Restarts, CounterValue, BaseAfter;
    NoUses(b, k);
    CountedAfter(d, es, n, s, b, k);
    ValueOfUses(b, k + UsesIn(d, es, s, n));
  }

  lemma {:induction false} NoUses(b: nat, k: nat)
    requires b < TWO64 && k <= TOKENS
    ensures BaseAfter(b, k) == b && k % (TOKENS + 1) == k
  {
  }

  lemma {:induction false} UsesAdd(b: nat, m: nat, u: nat)
    ensures BaseAfter(BaseAfter(b, m), m % (TOKENS + 1) + u) == BaseAfter(b, m + u)
    ensures (m % (TOKENS + 1) + u) % (TOKENS + 1) == (m + u) % (TOKENS + 1)
  {
    hide Wrapped;
    var (q, r) := (m / (TOKENS + 1), m % (TOKENS + 1));
    assert (m + u) / (TOKENS + 1) == q + (r + u) / (TOKENS + 1);
    WrappedStep(b + TOKENS * q, TOKENS * ((r + u) / (TOKENS + 1)));
  }

  lemma {:induction false} ValueOfUses(b: nat, m: nat)
    ensures CounterValue(Shaped(BaseAfter(b, m), m % (TOKENS + 1))) == Wrapped(b + m - m / (TOKENS + 1))
  {
    hide Wrapped, Shaped, CounterValue;
    ValueOfShape(BaseAfter(b, m), m % (TOKENS + 1));
    WrappedStep(b + TOKENS * (m / (TOKENS + 1)), m % (TOKENS + 1));
  }
}
