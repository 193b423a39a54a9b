/** Using a HOTP slot: verifying a code against a look-ahead window, and producing the next code. */
module HotpValidation {
  import opened Bytes
  import opened FlashMemory
  import opened CounterPage
  import opened CounterRuns
  import opened OtpSlots
  import opened HotpValue

  const LOOK_AHEAD := 10
  const RET_GENERAL_ERROR := -1
  const RET_CODE_NOT_VALID := -2
  const TYPE_HOTP: bv8 := 0x48
  const TYPE_TOTP: bv8 := 0x54

  function CounterPageOf(slot: nat): (p: nat)
    requires slot < NUMBER_OF_HOTP_SLOTS
    ensures IsCounterPage(p)
  {
    FIRST_COUNTER_PAGE + slot
  }

  predicate Programmed(f: Image, slot: nat)
    requires f.Valid()
  {
    slot < NUMBER_OF_HOTP_SLOTS && SlotAt(f, slot).kind == TYPE_HOTP
  }

  function Digits(config: bv8): (d: nat)
    ensures d == 6 || d == 8
  {
    if config & 1 == 1 then 8 else 6
  }

  function SlotCounter(f: Image, slot: nat): (c: nat)
    requires f.Valid() && slot < NUMBER_OF_HOTP_SLOTS
    ensures c < TWO64
  {
    CounterValue(Page(f, CounterPageOf(slot)))
  }

  /** The code of a slot, offset steps after its counter. */
  function CodeAt(f: Image, slot: nat, offset: nat): (code: nat)
    requires f.Valid() && slot < NUMBER_OF_HOTP_SLOTS
    ensures code < 100000000
  {
    Hotp(SlotAt(f, slot).secret, Wrapped(SlotCounter(f, slot) + offset), Digits(SlotAt(f, slot).config))
  }

  /** The least matching offset from o on, or the end of the window. */
  function FirstMatch(f: Image, slot: nat, code: nat, o: nat): (m: nat)
    requires f.Valid() && slot < NUMBER_OF_HOTP_SLOTS && o <= LOOK_AHEAD
    ensures o <= m <= LOOK_AHEAD
    decreases LOOK_AHEAD - o
  {
    if o == LOOK_AHEAD || CodeAt(f, slot, o) == code then o else FirstMatch(f, slot, code, o + 1)
  }

  lemma {:induction false} FirstMatchIs(f: Image, slot: nat, code: nat, o: nat, m: nat)
    requires f.Valid() && slot < NUMBER_OF_HOTP_SLOTS && o <= m <= LOOK_AHEAD
    requires forall j: nat :: o <= j < m ==> CodeAt(f, slot, j) != code
    requires m < LOOK_AHEAD ==> CodeAt(f, slot, m) == code
    ensures FirstMatch(f, slot, code, o) == m
    decreases m - o
  {
    hide CodeAt;
    if o < m {
      FirstMatchIs(f, slot, code, o + 1, m);
    }
  }

  /** What verifying a code does to the flash. */
  function Validated(f: Image, slot: nat, code: nat): (g: Image)
    requires f.Valid() && slot < NUMBER_OF_HOTP_SLOTS
    ensures g.Valid()
  {
    var m := FirstMatch(f, slot, code, 0);
    if m < LOOK_AHEAD then Increments(f, CounterPageOf(slot), m + 1) else f
  }

  lemma {:induction false} ProgrammedMeans(f: Image, slot: nat)
    requires f.Valid()
    ensures Programmed(f, slot) <==> slot < NUMBER_OF_HOTP_SLOTS && SlotAt(f, slot).kind == TYPE_HOTP
  {
    hide SlotAt;
  }

  lemma {:induction false} ValidatedMeans(f: Image, slot: nat, code: nat)
    requires f.Valid() && slot < NUMBER_OF_HOTP_SLOTS
    ensures var m := FirstMatch(f, slot, code, 0);
            Validated(f, slot, code) == if m < LOOK_AHEAD then Increments(f, CounterPageOf(slot), m + 1) else f
  {
    hide FirstMatch, Increments;
  }

  /** validate_code_from_hotp_slot */
  method ValidateCode(flash: Flash, slot: nat, code: nat) returns (r: int)
    requires flash.Valid()
    modifies flash
    ensures flash.Valid()
    ensures r == -1 <==> !Programmed(old(flash.State()), slot)
    ensures r < 0 ==> flash.State() == old(flash.State())
    ensures r == -2 ==> forall o: nat :: o < 10 ==> CodeAt(old(flash.State()), slot, o) != code
    ensures r >= 0 ==> r < 10 && CodeAt(old(flash.State()), slot, r) == code
    ensures r >= 0 ==> forall o: nat :: o < r ==> CodeAt(old(flash.State()), slot, o) != code
    ensures r >= 0 ==> flash.State() == Increments(old(flash.State()), CounterPageOf(slot), r + 1)
    ensures -2 <= r
  {
    hide CodeAt, Region, Digits, SlotCounter, Increments, Incremented, Unpacked;
    ghost var f := flash.State();
    if slot >= NUMBER_OF_HOTP_SLOTS {
      return RET_GENERAL_ERROR;
    }
    var hotpSlot := ReadSlot(flash, slot);
    if hotpSlot.kind != TYPE_HOTP {
      return RET_GENERAL_ERROR;
    }
    var offset := FindOffset(flash, slot, hotpSlot, code);
    if offset < LOOK_AHEAD {
      ApplyIncrements(flash, CounterPageOf(slot), offset + 1);
      return offset;
    }
    return RET_CODE_NOT_VALID;
  }

  method ReadSlot(flash: Flash, slot: nat) returns (s: Slot)
    requires flash.Valid()
    ensures s == SlotAt(flash.State(), slot)
  {
    hide Unpacked;
    var at := SLOTS_ADDRESS + SlotOffset(slot);
    s := Unpacked(flash.cells[at..at + SLOT_BYTES]);
  }

  method FindOffset(flash: Flash, slot: nat, hotpSlot: Slot, code: nat) returns (offset: nat)
    requires flash.Valid() && slot < NUMBER_OF_HOTP_SLOTS && hotpSlot == SlotAt(flash.State(), slot)
    ensures offset <= LOOK_AHEAD
    ensures forall o: nat :: o < offset ==> CodeAt(flash.State(), slot, o) != code
    ensures offset < LOOK_AHEAD ==> CodeAt(flash.State(), slot, offset) == code
  {
    hide Hotp, Wrapped, CounterValue, Region, Unpacked;
    ghost var f := flash.State();
    var len := 6;
    if hotpSlot.config & 1 == 1 {
      len := 8;
    }
    var counter := GetCounterValue(flash, PAGE_SIZE * CounterPageOf(slot));
    offset := 0;
    while offset < LOOK_AHEAD
      invariant offset <= LOOK_AHEAD
      invariant forall o: nat :: o < offset ==> CodeAt(f, slot, o) != code
    {
      var calculated := GetHotpValue(Wrapped(counter + offset), hotpSlot.secret, len);
      if calculated == code {
        break;
      }
      offset := offset + 1;
    }
  }

  method ApplyIncrements(flash: Flash, p: nat, n: nat)
    requires flash.Valid() && IsCounterPage(p)
    modifies flash
    ensures flash.Valid() && flash.State() == Increments(old(flash.State()), p, n)
  {
    hide Incremented;
    for i := 0 to n
      invariant flash.Valid() && flash.State() == Increments(old(flash.State()), p, i)
    {
      IncrementCounterPage(flash, p);
    }
  }

  /** get_code_from_hotp_slot: the code of the present counter, which one increment follows. */
  method GetCode(flash: Flash, slot: nat) returns (code: nat)
    requires flash.Valid()
    modifies flash
    ensures flash.Valid()
    ensures !Programmed(old(flash.State()), slot) ==> code == 0 && flash.State() == old(flash.State())
    ensures Programmed(old(flash.State()), slot) ==>
              && code == CodeAt(old(flash.State()), slot, 0)
              && flash.State() == Increments(old(flash.State()), CounterPageOf(slot), 1)
  {
    hide Hotp, CounterValue, Region, Unpacked, Incremented, Wrapped;
    if slot >= NUMBER_OF_HOTP_SLOTS {
      return 0;
    }
    var hotpSlot := ReadSlot(flash, slot);
    var len := 6;
    if hotpSlot.config & 1 == 1 {
      len := 8;
    }
    if hotpSlot.kind != TYPE_HOTP {
      return 0;
    }
    var counter := GetCounterValue(flash, PAGE_SIZE * CounterPageOf(slot));
    code := GetHotpValue(counter, hotpSlot.secret, len);
    WrappedSmall(counter);
    ApplyIncrements(flash, CounterPageOf(slot), 1);
  }

  // ----- where an accepted code leaves the counter

  /** The counter ends one past the accepted one, or on it when a rollover falls inside. */
  lemma {:induction false} CounterAfterAccepting(f: Image, slot: nat, b: nat, k: nat, offset: nat)
    requires f.Valid() && slot < NUMBER_OF_HOTP_SLOTS && k <= TOKENS && b < TWO64 && offset < LOOK_AHEAD
    requires Page(f, CounterPageOf(slot)) == Shaped(b, k)
    ensures SlotCounter(Increments(f, CounterPageOf(slot), offset + 1), slot)
         == Wrapped(b + k + offset + (if k + offset < TOKENS then 1 else 0))
    ensures SlotCounter(f, slot) == Wrapped(b + k)
  {
    hide Shaped, Page, Increments, CounterValue, Wrapped;
    IncrementsValue(f, CounterPageOf(slot), b, k, offset + 1);
    ValueOfShape(b, k);
    assert (k + (offset + 1)) / (TOKENS + 1) == if k + offset < TOKENS then 0 else 1;
  }

  /** The accepted counter leaves the look-ahead window exactly when no rollover fell inside. */
  lemma {:induction false} AcceptedCodeIsSpent(f: Image, slot: nat, b: nat, k: nat, offset: nat)
    requires f.Valid() && slot < NUMBER_OF_HOTP_SLOTS && k <= TOKENS && offset < LOOK_AHEAD
    requires b + k + offset + 1 < TWO64 && Page(f, CounterPageOf(slot)) == Shaped(b, k)
    ensures SlotCounter(f, slot) + offset < SlotCounter(Increments(f, CounterPageOf(slot), offset + 1), slot)
       <==> k + offset < TOKENS
  {
    hide Shaped, Page, Increments, CounterValue, Wrapped;
    CounterAfterAccepting(f, slot, b, k, offset);
    WrappedSmall(b + k);
    WrappedSmall(b + k + offset + (if k + offset < TOKENS then 1 else 0));
  }

  /** After 504 uses of a fresh page the command accepts the code of the counter, and then the same code again. */
  lemma {:induction false} RolloverAcceptsTwice(f: Image, slot: nat, b: nat)
    requires f.Valid() && Programmed(f, slot) && b < TWO64 && Page(f, CounterPageOf(slot)) == Shaped(b, TOKENS)
    ensures var code := CodeAt(f, slot, 0);
            var g := Validated(f, slot, code);
            && FirstMatch(f, slot, code, 0) == 0
            && Programmed(g, slot) && FirstMatch(g, slot, code, 0) == 0
            && SlotCounter(g, slot) == SlotCounter(f, slot)
  {
    hide Shaped, Region, Increments, CounterValue, Wrapped, Hotp, Unpacked, Digits;
    CounterAfterAccepting(f, slot, b, TOKENS, 0);
    IncrementsElsewhere(f, CounterPageOf(slot), b, TOKENS, 1, SLOTS_ADDRESS + SlotOffset(slot), SLOT_BYTES);
  }
}
