/** The time page: an append log of 32 words, each a 24-bit minute count and its CRC-8. */
module TimeLog {
  import opened Bytes
  import opened FlashMemory
  import opened CounterPage

  const TIME_PAGE := OTP_FLASH_START_PAGE + 10
  const TIME_ADDRESS := PAGE_SIZE * TIME_PAGE
  const TIME_OFFSET := 4
  const ENTRIES := 32
  const NO_TIME: bv32 := 0xffffffff

  // ----- crc_STM32

  /** One bit of the division by the CRC polynomial. */
  function CrcStep(v: bv32): bv32 {
    if v & 0x80000000 != 0 then (v ^ 0x98800000) << 1 else v << 1
  }

  function CrcSteps(v: bv32, n: nat): bv32 {
    if n == 0 then v else CrcStep(CrcSteps(v, n - 1))
  }

  function Above(t: bv32): bv32 {
    t << 8
  }

  function Join24(t: bv32, crc: bv32): bv32 {
    (t << 8) + (crc >> 24)
  }

  function Minutes(e: bv32): bv32 {
    e >> 8
  }

  /** The 24-bit part of a time. */
  function Low24(t: bv32): bv32 {
    t & 0xffffff
  }

  /** The word that stores a time. */
  function Encoded(t: bv32): bv32 {
    Join24(t, CrcSteps(Above(t), 24))
  }

  method CrcStm32(time: bv32) returns (r: bv32)
    ensures r == Encoded(time)
  {
    hide CrcStep;
    var value := Above(time);
    for i := 0 to 24
      invariant value == CrcSteps(Above(time), i)
    {
      value := CrcStep(value);
    }
    r := Join24(time, value);
  }

  lemma {:induction false} AboveLow(t: bv32)
    ensures Above(Low24(t)) == Above(t)
  {
  }

  lemma {:induction false} JoinMinutes(t: bv32, crc: bv32)
    ensures Minutes(Join24(t, crc)) == Low24(t)
  {
  }

  lemma {:induction false} JoinDecodes(t: bv32, crc: bv32)
    ensures Minutes(Join24(t, crc)) == Low24(t) && Above(Low24(t)) == Above(t) && Join24(Low24(t), crc) == Join24(t, crc)
  {
    hide Minutes, Low24;
    JoinMinutes(t, crc);
    AboveLow(t);
  }

  /** A stored time decodes to its low 24 bits, and its CRC passes. */
  lemma {:induction false} EncodedDecodes(t: bv32)
    ensures Minutes(Encoded(t)) == Low24(t)
    ensures Encoded(Minutes(Encoded(t))) == Encoded(t)
  {
    hide CrcSteps, Join24, Above, Minutes, Low24;
    JoinDecodes(t, CrcSteps(Above(t), 24));
  }

  lemma {:induction false} OnesBits(t: bv32, crc: bv32)
    requires Join24(t, crc) == 0xffffffff
    ensures Above(t) == 0xffffff00 && crc >> 24 == 0xff
  {
  }

  lemma {:induction false} CrcOfOnes()
    ensures CrcSteps(0xffffff00, 24) >> 24 == 0x66
  {
    var v: bv32 := 0xffffff00;
    assert CrcSteps(v, 4) == 0xd1fff000;
    assert CrcSteps(v, 8) == 0x53ff0000;
    assert CrcSteps(v, 12) == 0xcaf00000;
    assert CrcSteps(v, 16) == 0xd2000000;
    assert CrcSteps(v, 20) == 0x6c000000;
    assert CrcSteps(v, 24) == 0x66000000;
  }

  /** No time is stored as the mark of a free entry. */
  lemma {:induction false} EncodedIsNotFree(t: bv32)
    ensures Encoded(t) != NO_TIME
  {
    hide Join24, Above, CrcSteps;
    if Encoded(t) == NO_TIME {
      OnesBits(t, CrcSteps(Above(t), 24));
      CrcOfOnes();
    }
  }

  // ----- the page

  function Entry(pg: seq<bv8>, i: nat): (e: seq<bv8>)
    requires |pg| == PAGE_SIZE && i < ENTRIES
    ensures |e| == TIME_OFFSET
  {
    pg[TIME_OFFSET * i..TIME_OFFSET * (i + 1)]
  }

  predicate Free(e: seq<bv8>)
    requires |e| == TIME_OFFSET
  {
    LittleWord(e) == NO_TIME
  }

  /** The first free entry from i on, or the end of the log. */
  function FirstFreeEntry(pg: seq<bv8>, i: nat): (k: nat)
    requires |pg| == PAGE_SIZE && i <= ENTRIES
    ensures i <= k <= ENTRIES
    decreases ENTRIES - i
  {
    if i == ENTRIES || Free(Entry(pg, i)) then i else FirstFreeEntry(pg, i + 1)
  }

  /** get_flash_time_value: the word before the first free entry. */
  function StoredWord(pg: seq<bv8>): bv32
    requires |pg| == PAGE_SIZE
  {
    if Free(Entry(pg, 0)) then NO_TIME else WordAt(Entry(pg, FirstFreeEntry(pg, 1) - 1), 0)
  }

  /** get_time_value: a word whose CRC fails reads as time zero. */
  function TimeOf(word: bv32): bv32 {
    if word == NO_TIME then NO_TIME else if word != Encoded(Minutes(word)) then 0 else Minutes(word)
  }

  function TimeValue(pg: seq<bv8>): bv32
    requires |pg| == PAGE_SIZE
  {
    TimeOf(StoredWord(pg))
  }

  function TimeSet(f: Image, time: bv32): (g: Image)
    requires f.Valid()
    ensures g.Valid()
  {
    var i := FirstFreeEntry(Page(f, TIME_PAGE), 0);
    if i < ENTRIES then Store(f, TIME_ADDRESS + TIME_OFFSET * i, WordBytes(Encoded(time)), true)
    else Store(ErasedPage(f, TIME_PAGE), TIME_ADDRESS, WordBytes(Encoded(time)), true)
  }

  lemma {:induction false} EntryCells(f: Image, i: nat)
    requires f.Valid() && i < ENTRIES
    ensures f.cells[TIME_ADDRESS + TIME_OFFSET * i..TIME_ADDRESS + TIME_OFFSET * i + 4] == Entry(Page(f, TIME_PAGE), i)
  {
    SliceOfSlice(f.cells, TIME_ADDRESS, TIME_ADDRESS + PAGE_SIZE, TIME_OFFSET * i, TIME_OFFSET * i + 4);
  }

  method ReadEntry(flash: Flash, i: nat) returns (e: seq<bv8>)
    requires flash.Valid() && i < ENTRIES
    ensures e == Entry(Page(flash.State(), TIME_PAGE), i)
  {
    hide Region, Entry;
    EntryCells(flash.State(), i);
    e := flash.cells[TIME_ADDRESS + TIME_OFFSET * i..TIME_ADDRESS + TIME_OFFSET * i + 4];
  }

  method GetFlashTimeValue(flash: Flash) returns (time: bv32)
    requires flash.Valid()
    ensures time == StoredWord(Page(flash.State(), TIME_PAGE))
  {
    hide Region, Entry, LittleWord, WordAt;
    ghost var pg := Page(flash.State(), TIME_PAGE);
    var e := ReadEntry(flash, 0);
    var w := Getu32(e);
    if w == NO_TIME {
      return NO_TIME;
    }
    var i := 1;
    while i < ENTRIES
      invariant 1 <= i <= ENTRIES && FirstFreeEntry(pg, 1) == FirstFreeEntry(pg, i)
    {
      e := ReadEntry(flash, i);
      w := Getu32(e);
      if w == NO_TIME {
        e := ReadEntry(flash, i - 1);
        return WordAt(e, 0);
      }
      i := i + 1;
    }
    e := ReadEntry(flash, ENTRIES - 1);
    return WordAt(e, 0);
  }

  method GetTimeValue(flash: Flash) returns (time: bv32)
    requires flash.Valid()
    ensures time == TimeValue(Page(flash.State(), TIME_PAGE))
  {
    hide StoredWord, Encoded, Minutes, Page;
    time := GetFlashTimeValue(flash);
    if time == NO_TIME {
      return NO_TIME;
    }
    var check := CrcStm32(Minutes(time));
    if time != check {
      return 0;
    }
    return Minutes(time);
  }

  method SetTimeValue(flash: Flash, time: bv32)
    requires flash.Valid()
    modifies flash
    ensures flash.Valid() && flash.State() == TimeSet(old(flash.State()), time)
  {
    hide Region, Entry, LittleWord, WordBytes, Encoded, Store, ErasedPage;
    ghost var pg := Page(flash.State(), TIME_PAGE);
    var word := CrcStm32(time);
    var i := 0;
    while i < ENTRIES
      invariant i <= ENTRIES && flash.Valid() && flash.State() == old(flash.State())
      invariant FirstFreeEntry(pg, 0) == FirstFreeEntry(pg, i)
    {
      var e := ReadEntry(flash, i);
      var w := Getu32(e);
      if w == NO_TIME {
        flash.Memcpy(TIME_ADDRESS + TIME_OFFSET * i, WordBytes(word), true);
        return;
      }
      i := i + 1;
    }
    flash.ErasePage(TIME_PAGE);
    flash.Memcpy(TIME_ADDRESS, WordBytes(word), true);
  }

  // ----- the log refines one register

  /** The page holds these words, then free entries. */
  ghost predicate Holds(pg: seq<bv8>, es: seq<bv32>) {
    && |pg| == PAGE_SIZE && |es| <= ENTRIES
    && (forall i: nat :: i < |es| ==> Entry(pg, i) == WordBytes(es[i]) && Stored(es[i]))
    && (forall i: nat :: |es| <= i < ENTRIES ==> Entry(pg, i) == Fill(0xFF, TIME_OFFSET))
  }

  /** A word that is not the free mark and passes its CRC check. */
  predicate Stored(e: bv32) {
    e != NO_TIME && e == Encoded(Minutes(e))
  }

  function Logged(es: seq<bv32>, e: bv32): seq<bv32> {
    if |es| < ENTRIES then es + [e] else [e]
  }

  lemma {:induction false} EncodedIsStored(t: bv32)
    ensures Stored(Encoded(t))
  {
    hide Encoded, Minutes;
    EncodedIsNotFree(t);
    EncodedDecodes(t);
  }

  lemma {:induction false} StoredIsNotFree(e: bv32)
    requires Stored(e)
    ensures !Free(WordBytes(e))
  {
  }

  lemma {:induction false} FirstFreeOfLog(pg: seq<bv8>, es: seq<bv32>, i: nat)
    requires Holds(pg, es) && i <= |es|
    ensures FirstFreeEntry(pg, i) == |es|
    decreases |es| - i
  {
    hide Entry, LittleWord, WordBytes, Stored;
    if i < |es| {
      StoredIsNotFree(es[i]);
      FirstFreeOfLog(pg, es, i + 1);
    } else if i < ENTRIES {
      FreeWord(Entry(pg, i));
    }
  }

  /** What is read is the last word stored. */
  lemma {:induction false} LogReads(pg: seq<bv8>, es: seq<bv32>)
    requires Holds(pg, es)
    ensures TimeValue(pg) == if es == [] then NO_TIME else Minutes(es[|es| - 1])
  {
    hide Entry, LittleWord, WordBytes, WordAt, Encoded, Minutes, FirstFreeEntry;
    FreeWord(Entry(pg, 0));
    if es != [] {
      StoredIsNotFree(es[0]);
      FirstFreeOfLog(pg, es, 1);
      WordRoundTrip(es[|es| - 1]);
    }
  }

  lemma {:induction false} SpliceEntry(pg: seq<bv8>, k: nat, x: seq<bv8>, i: nat)
    requires |pg| == PAGE_SIZE && |x| == TIME_OFFSET && k < ENTRIES && i < ENTRIES
    ensures Entry(Splice(pg, TIME_OFFSET * k, x), i) == if i == k then x else Entry(pg, i)
  {
  }

  lemma {:induction false} HoldsOneMore(pg: seq<bv8>, es: seq<bv32>, t: bv32)
    requires Holds(pg, es) && |es| < ENTRIES
    ensures Holds(Splice(pg, TIME_OFFSET * |es|, WordBytes(Encoded(t))), es + [Encoded(t)])
  {
    hide Entry, WordBytes, Encoded, Splice, Stored;
    var x := WordBytes(Encoded(t));
    EncodedIsStored(t);
    forall i: nat | i < ENTRIES
      ensures Entry(Splice(pg, TIME_OFFSET * |es|, x), i) == if i == |es| then x else Entry(pg, i)
    {
      SpliceEntry(pg, |es|, x, i);
    }
  }

  lemma {:induction false} ErasedHoldsNothing()
    ensures Holds(Fill(0xFF, PAGE_SIZE), [])
  {
  }

  lemma {:induction false} HoldsFits(pg: seq<bv8>, es: seq<bv32>)
    requires Holds(pg, es)
    ensures |es| <= 32
  {
  }

  /** Setting the time appends a word, and starts over only when all entries are used. */
  lemma {:induction false} TimeSetLogs(f: Image, es: seq<bv32>, t: bv32)
    requires f.Valid() && Holds(Page(f, TIME_PAGE), es)
    ensures Holds(Page(TimeSet(f, t), TIME_PAGE), Logged(es, Encoded(t)))
    ensures TimeSet(f, t).wear == f.wear[TIME_PAGE := f.wear[TIME_PAGE] + if |es| < 32 then 1 else 2]
  {
    hide Region, Store, Holds, Encoded, WordBytes, FirstFreeEntry;
    var x := WordBytes(Encoded(t));
    HoldsFits(Page(f, TIME_PAGE), es);
    FirstFreeOfLog(Page(f, TIME_PAGE), es, 0);
    if |es| < ENTRIES {
      StoreInside(f, TIME_ADDRESS, PAGE_SIZE, TIME_OFFSET * |es|, x, true);
      StoreWear(f, TIME_PAGE, TIME_OFFSET * |es|, x, true);
      HoldsOneMore(Page(f, TIME_PAGE), es, t);
    } else {
      var g := ErasedPage(f, TIME_PAGE);
      ErasedInside(f, TIME_PAGE);
      StoreInside(g, TIME_ADDRESS, PAGE_SIZE, 0, x, true);
      StoreWear(g, TIME_PAGE, 0, x, true);
      ErasedHoldsNothing();
      HoldsOneMore(Fill(0xFF, PAGE_SIZE), [], t);
      assert [] + [Encoded(t)] == [Encoded(t)];
    }
  }

  lemma {:induction false} TimeSetElsewhere(f: Image, t: bv32, a: nat, n: nat)
    requires f.Valid() && a + n <= FLASH_SIZE && (a + n <= TIME_ADDRESS || TIME_ADDRESS + PAGE_SIZE <= a)
    ensures Region(TimeSet(f, t), a, n) == Region(f, a, n)
  {
    hide Region, Store, ErasedPage, Encoded, WordBytes, FirstFreeEntry;
    var x := WordBytes(Encoded(t));
    var i := FirstFreeEntry(Page(f, TIME_PAGE), 0);
    if i < ENTRIES {
      StoreOutside(f, a, n, TIME_ADDRESS + TIME_OFFSET * i, x, true);
    } else {
      ErasedOutside(f, TIME_PAGE, a, n);
      StoreOutside(ErasedPage(f, TIME_PAGE), a, n, TIME_ADDRESS, x, true);
    }
  }

  // ----- runs

  function TimesSet(f: Image, ts: seq<bv32>): (g: Image)
    requires f.Valid()
    ensures g.Valid()
  {
    if ts == [] then f else TimeSet(TimesSet(f, ts[..|ts| - 1]), ts[|ts| - 1])
  }

  /** The words the log holds after these calls. */
  function LogAfter(ts: seq<bv32>): (es: seq<bv32>)
    ensures |es| == if ts == [] then 0 else (|ts| - 1) % 32 + 1
    ensures ts != [] ==> es[|es| - 1] == Encoded(ts[|ts| - 1])
  {
    if ts == [] then [] else Logged(LogAfter(ts[..|ts| - 1]), Encoded(ts[|ts| - 1]))
  }

  lemma {:induction false} TimesSetLog(f: Image, ts: seq<bv32>)
    requires f.Valid() && Page(f, TIME_PAGE) == Fill(0xFF, PAGE_SIZE)
    ensures Holds(Page(TimesSet(f, ts), TIME_PAGE), LogAfter(ts))
    ensures TimesSet(f, ts).wear[TIME_PAGE] == f.wear[TIME_PAGE] + |ts| + (if ts == [] then 0 else (|ts| - 1) / 32)
  {
    hide Page, TimeSet, Holds, Encoded;
    if ts == [] {
      ErasedHoldsNothing();
    } else {
      var before := ts[..|ts| - 1];
      TimesSetLog(f, before);
      TimeSetLogs(TimesSet(f, before), LogAfter(before), ts[|ts| - 1]);
      if |ts| > 1 {
        WrapCount(|ts|);
      }
    }
  }

  lemma {:induction false} WrapCount(n: nat)
    requires n > 1
    ensures (n - 2) % 32 + 1 < 32 ==> (n - 1) / 32 == (n - 2) / 32
    ensures (n - 2) % 32 + 1 == 32 ==> (n - 1) / 32 == (n - 2) / 32 + 1
  {
  }

  /** The log behaves as one 24-bit register. */
  lemma {:induction false} LogIsRegister(f: Image, ts: seq<bv32>)
    requires f.Valid() && Page(f, TIME_PAGE) == Fill(0xFF, PAGE_SIZE)
    ensures TimeValue(Page(TimesSet(f, ts), TIME_PAGE)) == if ts == [] then NO_TIME else Low24(ts[|ts| - 1])
  {
    hide Page, Holds, Encoded, Minutes, Low24, TimeValue, TimesSet, LogAfter;
    TimesSetLog(f, ts);
    LogReads(Page(TimesSet(f, ts), TIME_PAGE), LogAfter(ts));
    if ts != [] {
      EncodedDecodes(ts[|ts| - 1]);
    }
  }
}
