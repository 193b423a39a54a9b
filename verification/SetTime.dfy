/** The set-time command: the stored time moves forward only. */
module SetTime {
  import opened Bytes
  import opened FlashMemory
  import opened Output
  import opened TimeLog

  const CMD_DATA_OFFSET := 1
  /** 1 January 2014 */
  const EPOCH := 1388534400

  /** The minutes since the epoch, as the 64-bit difference and the 32-bit variable leave them. */
  function MinutesSince(newTime: nat): bv32 {
    ToWord((newTime + TWO64 - EPOCH) % TWO64 / 60)
  }

  predicate Accepts(oldTime: bv32, flag: bv8, minutes: bv32) {
    !(flag == 0 && oldTime == 0) && (Unsigned(oldTime) <= Unsigned(minutes) || oldTime == NO_TIME || flag == 1)
  }

  lemma {:induction false} AcceptsWhen(oldTime: bv32, flag: bv8, minutes: bv32)
    ensures flag == 0 && oldTime == 0 ==> !Accepts(oldTime, flag, minutes)
    ensures !(flag == 0 && oldTime == 0) ==> Unsigned(oldTime) <= Unsigned(minutes) ==> Accepts(oldTime, flag, minutes)
    ensures !(flag == 0 && oldTime == 0) ==> oldTime == NO_TIME || flag == 1 ==> Accepts(oldTime, flag, minutes)
    ensures Accepts(oldTime, flag, minutes) ==> Unsigned(oldTime) <= Unsigned(minutes) || oldTime == NO_TIME || flag == 1
  {
    hide Unsigned;
  }

  method CmdSetTime(flash: Flash, report: seq<bv8>, output: array<bv8>) returns (failed: bool, currentTime: nat)
    requires flash.Valid() && |report| == 64 && output.Length == 64
    modifies flash, output
    ensures flash.Valid()
    ensures LittleNumber(report[2..10]) < TWO64
    ensures !failed <==> Accepts(TimeValue(Page(old(flash.State()), TIME_PAGE)), report[1], MinutesSince(LittleNumber(report[2..10])))
    ensures !failed ==> flash.State() == TimeSet(old(flash.State()), MinutesSince(LittleNumber(report[2..10])))
    ensures !failed ==> currentTime == LittleNumber(report[2..10]) && output[..] == old(output[..])
    ensures failed ==> flash.State() == old(flash.State())
    ensures failed ==> output[..] == old(output[..])[OUTPUT_CMD_STATUS_OFFSET := STATUS_TIMESTAMP_WARNING]
  {
    hide TimeValue, Page, LittleFrom, MinutesSince, TimeSet, Accepts, Radix, Unsigned;
    var newTime := Getu64(report[CMD_DATA_OFFSET + 1..CMD_DATA_OFFSET + 9]);
    LittleFromBound(report[2..10], 0);
    RadixEight();
    currentTime := 0;
    var oldTime := GetTimeValue(flash);
    var minutes := MinutesSince(newTime);
    AcceptsWhen(oldTime, report[1], minutes);
    if 0 == report[CMD_DATA_OFFSET] {
      if oldTime == 0 {
        output[OUTPUT_CMD_STATUS_OFFSET] := STATUS_TIMESTAMP_WARNING;
        return true, currentTime;
      }
    }
    if Unsigned(oldTime) <= Unsigned(minutes) || oldTime == NO_TIME || report[CMD_DATA_OFFSET] == 1 {
      currentTime := newTime;
      SetTimeValue(flash, minutes);
      return false, currentTime;
    } else {
      output[OUTPUT_CMD_STATUS_OFFSET] := STATUS_TIMESTAMP_WARNING;
      return true, currentTime;
    }
  }

  // ----- runs of requests

  datatype Request = Request(flag: bv8, time: nat)

  /** A check request, or any request that does not force the time, within the 24-bit minute range. */
  predicate Ordinary(r: Request) {
    r.flag != 1 && EPOCH <= r.time < EPOCH + 60 * 0x1000000
  }

  lemma {:induction false} OrdinaryMinutes(r: Request)
    requires Ordinary(r)
    ensures r.flag != 1 && Low24(MinutesSince(r.time)) == MinutesSince(r.time)
    ensures MinutesSince(r.time) == ToWord((r.time - EPOCH) / 60)
  {
    hide ToWord, Low24;
    var m := (r.time - EPOCH) / 60;
    assert (r.time + TWO64 - EPOCH) % TWO64 == r.time - EPOCH;
    SmallWord(m);
  }

  lemma {:induction false} SmallWord(m: nat)
    requires m < 0x1000000
    ensures Low24(ToWord(m)) == ToWord(m)
  {
  }

  function Served(f: Image, r: Request): (g: Image)
    requires f.Valid() && Ordinary(r)
    ensures g.Valid()
  {
    if Accepts(TimeValue(Page(f, TIME_PAGE)), r.flag, MinutesSince(r.time)) then TimeSet(f, MinutesSince(r.time)) else f
  }

  function AllServed(f: Image, rs: seq<Request>): (g: Image)
    requires f.Valid() && forall i :: 0 <= i < |rs| ==> Ordinary(rs[i])
    ensures g.Valid()
  {
    if rs == [] then f else Served(AllServed(f, rs[..|rs| - 1]), rs[|rs| - 1])
  }

  /** The accepted minute counts of a run, in order. */
  function AcceptedTimes(rs: seq<Request>): (ts: seq<bv32>)
    requires forall i :: 0 <= i < |rs| ==> Ordinary(rs[i])
  {
    if rs == [] then []
    else
      var ts := AcceptedTimes(rs[..|rs| - 1]);
      var r := rs[|rs| - 1];
      if Accepts(LastOf(ts), r.flag, MinutesSince(r.time)) then ts + [MinutesSince(r.time)] else ts
  }

  function LastOf(ts: seq<bv32>): bv32 {
    if ts == [] then NO_TIME else ts[|ts| - 1]
  }

  predicate Rising(ts: seq<bv32>) {
    forall i, j :: 0 <= i <= j < |ts| ==> Unsigned(ts[i]) <= Unsigned(ts[j])
  }

  lemma {:induction false} RisingSnoc(ts: seq<bv32>, m: bv32)
    requires Rising(ts) && (ts == [] || Unsigned(LastOf(ts)) <= Unsigned(m))
    ensures Rising(ts + [m])
  {
    hide Unsigned;
  }

  predicate AllLow(ts: seq<bv32>) {
    forall i :: 0 <= i < |ts| ==> Low24(ts[i]) == ts[i]
  }

  lemma {:induction false} AllLowSnoc(ts: seq<bv32>, m: bv32)
    requires AllLow(ts) && Low24(m) == m
    ensures AllLow(ts + [m]) && LastOf(ts + [m]) == m
    ensures ts != [] ==> LastOf(ts) != NO_TIME && Low24(LastOf(ts)) == LastOf(ts)
  {
  }

  lemma {:induction false} NoneAccepted()
    ensures AllLow([]) && Rising([]) && LastOf([]) == NO_TIME
  {
  }

  /** The accepted times rise, and each fits in 24 bits. */
  lemma {:induction false} AcceptedRise(rs: seq<Request>)
    requires forall i :: 0 <= i < |rs| ==> Ordinary(rs[i])
    ensures Rising(AcceptedTimes(rs)) && AllLow(AcceptedTimes(rs))
  {
    hide MinutesSince, Low24, Ordinary, Rising, AllLow, Unsigned, LastOf;
    NoneAccepted();
    if rs != [] {
      var r := rs[|rs| - 1];
      var ts := AcceptedTimes(rs[..|rs| - 1]);
      AcceptedRise(rs[..|rs| - 1]);
      OrdinaryMinutes(r);
      AllLowSnoc(ts, MinutesSince(r.time));
      if Accepts(LastOf(ts), r.flag, MinutesSince(r.time)) {
        RisingSnoc(ts, MinutesSince(r.time));
      }
    }
  }

  /** What the log reads after the accepted times is the last of them. */
  lemma {:induction false} LogReadsLast(f: Image, ts: seq<bv32>)
    requires f.Valid() && Page(f, TIME_PAGE) == Fill(0xFF, PAGE_SIZE) && AllLow(ts)
    ensures TimeValue(Page(TimesSet(f, ts), TIME_PAGE)) == LastOf(ts)
  {
    hide Page, TimeValue, TimesSet, Low24;
    LogIsRegister(f, ts);
  }

  lemma {:induction false} TimesSetSnoc(f: Image, ts: seq<bv32>, m: bv32)
    requires f.Valid()
    ensures TimesSet(f, ts + [m]) == TimeSet(TimesSet(f, ts), m)
  {
  }

  /** From an erased page, a run stores exactly the accepted times, and reads the last of them. */
  lemma {:induction false} RunStoresAccepted(f: Image, rs: seq<Request>)
    requires f.Valid() && Page(f, TIME_PAGE) == Fill(0xFF, PAGE_SIZE)
    requires forall i :: 0 <= i < |rs| ==> Ordinary(rs[i])
    ensures AllServed(f, rs) == TimesSet(f, AcceptedTimes(rs))
    ensures TimeValue(Page(AllServed(f, rs), TIME_PAGE)) == LastOf(AcceptedTimes(rs))
    ensures Rising(AcceptedTimes(rs))
  {
    hide Page, TimeValue, TimeSet, TimesSet, MinutesSince, Low24, Ordinary, Rising, AllLow, Unsigned, LastOf, Accepts;
    AcceptedRise(rs);
    LogReadsLast(f, AcceptedTimes(rs));
    if rs == [] {
      NoTimesSet(f);
    } else {
      var before := rs[..|rs| - 1];
      RunStoresAccepted(f, before);
      TimesSetSnoc(f, AcceptedTimes(before), MinutesSince(rs[|rs| - 1].time));
    }
  }

  lemma {:induction false} NoTimesSet(f: Image)
    requires f.Valid()
    ensures TimesSet(f, []) == f
  {
  }

  /** More requests never lower a stored time. */
  lemma {:induction false} StoredTimeNeverDecreases(f: Image, rs: seq<Request>, n: nat)
    requires f.Valid() && Page(f, TIME_PAGE) == Fill(0xFF, PAGE_SIZE) && n <= |rs|
    requires forall i :: 0 <= i < |rs| ==> Ordinary(rs[i])
    ensures TimeValue(Page(AllServed(f, rs[..n]), TIME_PAGE)) == NO_TIME
         || Unsigned(TimeValue(Page(AllServed(f, rs[..n]), TIME_PAGE))) <= Unsigned(TimeValue(Page(AllServed(f, rs), TIME_PAGE)))
  {
    hide Page, TimeValue, TimeSet, MinutesSince, Low24, Ordinary, AllServed, TimesSet, Unsigned;
    RunStoresAccepted(f, rs);
    RunStoresAccepted(f, rs[..n]);
    AcceptedGrow(rs, n);
  }

  lemma {:induction false} AcceptedGrow(rs: seq<Request>, n: nat)
    requires n <= |rs| && forall i :: 0 <= i < |rs| ==> Ordinary(rs[i])
    ensures AcceptedTimes(rs[..n]) <= AcceptedTimes(rs)
  {
    hide Ordinary, Accepts, MinutesSince;
    if n < |rs| {
      AcceptedGrow(rs[..|rs| - 1], n);
      assert rs[..|rs| - 1][..n] == rs[..n];
    } else {
      assert rs[..n] == rs;
    }
  }
}
