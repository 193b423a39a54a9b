/** The HOTP counter pages: a 64-bit base followed by one token byte per use. */
module CounterPage {
  import opened Bytes
  import opened FlashMemory

  const FLASH_START := 0x80000000
  const OTP_FLASH_START_PAGE := 499
  const FIRST_COUNTER_PAGE := 502
  const BACKUP_PAGE := 506
  const BACKUP_ADDRESS := PAGE_SIZE * BACKUP_PAGE
  const BACKUP_ADDRESS_OFFSET := 3 * PAGE_SIZE - 12
  const BACKUP_LENGTH_OFFSET := 3 * PAGE_SIZE - 8
  const BACKUP_OK_OFFSET := 3 * PAGE_SIZE - 6
  const TOKENS := 504

  /** The pages of the four HOTP slots. */
  predicate IsCounterPage(p: nat) {
    FIRST_COUNTER_PAGE <= p < FIRST_COUNTER_PAGE + 4
  }

  predicate OutsideBackup(a: nat, n: nat) {
    a + n <= BACKUP_ADDRESS || BACKUP_ADDRESS + 3 * PAGE_SIZE <= a
  }

  // ----- reading a page

  /** The first free token from i on, or the end of the page. */
  function FirstFree(pg: seq<bv8>, i: nat): (k: nat)
    requires |pg| == PAGE_SIZE && i <= TOKENS
    ensures i <= k <= TOKENS
    decreases TOKENS - i
  {
    if i == TOKENS || pg[8 + i] == 0xFF then i else FirstFree(pg, i + 1)
  }

  function CounterValue(pg: seq<bv8>): (v: nat)
    requires |pg| == PAGE_SIZE
    ensures v < TWO64
  {
    Wrapped(Number(pg[..8]) + FirstFree(pg, 0))
  }

  /** A page with base b and k used tokens. */
  function Shaped(b: nat, k: nat): (pg: seq<bv8>)
    requires k <= TOKENS
    ensures |pg| == PAGE_SIZE
  {
    BigEndian(b, 8) + Fill(0, k) + Fill(0xFF, TOKENS - k)
  }

  lemma {:induction false} FirstFreeOfShape(b: nat, k: nat, i: nat)
    requires i <= k <= TOKENS
    ensures FirstFree(Shaped(b, k), i) == k
    decreases k - i
  {
    hide BigEndian;
    if i < k {
      assert Shaped(b, k)[8 + i] == 0;
      FirstFreeOfShape(b, k, i + 1);
    }
  }

  lemma {:induction false} ValueOfShape(b: nat, k: nat)
    requires k <= TOKENS && b < TWO64
    ensures CounterValue(Shaped(b, k)) == Wrapped(b + k)
  {
    hide BigEndian, Number, FirstFree;
    FirstFreeOfShape(b, k, 0);
    assert Shaped(b, k)[..8] == BigEndian(b, 8);
    NumberOfBigEndian(b, 8);
    RadixEight();
  }

  lemma {:induction false} FirstFreeStep(pg: seq<bv8>, i: nat)
    requires |pg| == PAGE_SIZE && i < TOKENS
    ensures FirstFree(pg, i) == if pg[8 + i] == 0xFF then i else FirstFree(pg, i + 1)
  {
  }

  lemma {:induction false} FirstFreeEnd(pg: seq<bv8>)
    requires |pg| == PAGE_SIZE
    ensures FirstFree(pg, TOKENS) == TOKENS
  {
  }

  method GetCounterValue(flash: Flash, addr: nat) returns (counter: nat)
    requires flash.Valid() && addr + PAGE_SIZE <= FLASH_SIZE
    ensures counter == CounterValue(Region(flash.State(), addr, PAGE_SIZE))
  {
    hide Number, FirstFree, Wrapped;
    ghost var pg := Region(flash.State(), addr, PAGE_SIZE);
    assert flash.cells[addr..addr + 8] == pg[..8];
    counter := Wrapped(Number(flash.cells[addr..addr + 8]));
    var ptr, i := addr + 8, 0;
    while i < TOKENS
      invariant i <= TOKENS && ptr == addr + 8 + i
      invariant counter == Wrapped(Number(pg[..8]) + i) && FirstFree(pg, 0) == FirstFree(pg, i)
    {
      FirstFreeStep(pg, i);
      assert pg[8 + i] == flash.cells[ptr];
      if flash.cells[ptr] == 0xff {
        break;
      }
      ptr := ptr + 1;
      WrappedStep(Number(pg[..8]) + i, 1);
      counter := Wrapped(counter + 1);
      i := i + 1;
    }
    FirstFreeEnd(pg);
  }

  // ----- set_counter_value

  function CounterSet(f: Image, p: nat, counter: nat): (g: Image)
    requires f.Valid() && p < PAGES
    ensures g.Valid()
  {
    Store(ErasedPage(f, p), PAGE_SIZE * p, BigEndian(counter, 8), true)
  }

  lemma {:induction false} CounterSetPage(f: Image, p: nat, counter: nat)
    requires f.Valid() && p < PAGES
    ensures Page(CounterSet(f, p, counter), p) == Shaped(counter, 0)
  {
  }

  method SetCounterValue(flash: Flash, p: nat, counter: nat)
    requires flash.Valid() && p < PAGES && counter < TWO64
    modifies flash
    ensures flash.Valid() && flash.State() == CounterSet(old(flash.State()), p, counter)
  {
    hide BigEndian, Store, ErasedPage;
    flash.ErasePage(p);
    flash.Memcpy(PAGE_SIZE * p, BigEndian(counter, 8), true);
  }

  // ----- increment_counter_page

  /** A full page: the value is saved to the backup page and becomes the new base. */
  function RolledOver(f: Image, p: nat): (g: Image)
    requires f.Valid() && IsCounterPage(p)
    ensures g.Valid()
  {
    var value := BigEndian(CounterValue(Page(f, p)), 8);
    Store(Rebased(Saved(f, value, p), value, p), BACKUP_ADDRESS + BACKUP_OK_OFFSET, [0x4F, 0x4B], false)
  }

  function Saved(f: Image, value: seq<bv8>, p: nat): (g: Image)
    requires f.Valid() && |value| == 8 && IsCounterPage(p)
    ensures g.Valid()
  {
    var f1 := Store(f, BACKUP_ADDRESS, Fill(0xFF, PAGE_SIZE), true);
    var f2 := Store(f1, BACKUP_ADDRESS, value, false);
    var f3 := Store(f2, BACKUP_ADDRESS + BACKUP_ADDRESS_OFFSET, BigEndian(FLASH_START + PAGE_SIZE * p, 4), false);
    Store(f3, BACKUP_ADDRESS + BACKUP_LENGTH_OFFSET, BigEndian(8, 4), false)
  }

  function Rebased(f: Image, value: seq<bv8>, p: nat): (g: Image)
    requires f.Valid() && |value| == 8 && IsCounterPage(p)
    ensures g.Valid()
  {
    Store(Store(f, PAGE_SIZE * p, Fill(0xFF, PAGE_SIZE), true), PAGE_SIZE * p, value, false)
  }

  /** Marking the token at an address; a token that does not read back as zero is stored again with erase. */
  function Marked(f: Image, at: nat): (g: Image)
    requires f.Valid() && at < FLASH_SIZE
    ensures g.Valid()
  {
    var m := Store(f, at, [0], false);
    Retried(m, at, m.cells[at])
  }

  function Retried(f: Image, at: nat, n: bv8): (g: Image)
    requires f.Valid() && at < FLASH_SIZE
    ensures g.Valid()
  {
    if n != 0 then Store(f, at, [0], true) else f
  }

  function Incremented(f: Image, p: nat): (g: Image)
    requires f.Valid() && IsCounterPage(p)
    ensures g.Valid()
  {
    var pg := Page(f, p);
    if pg[PAGE_SIZE - 1] == 0 then RolledOver(f, p)
    else Marked(f, PAGE_SIZE * p + 8 + FirstFree(pg, 0))
  }

  /** Clearing a byte always succeeds without erase, so the second store never happens. */
  lemma {:induction false} FallbackNeverFires(f: Image, at: nat)
    requires f.Valid() && at < FLASH_SIZE
    ensures Store(f, at, [0], false).cells[at] == 0
    ensures Marked(f, at) == Store(f, at, [0], false)
  {
  }

  method IncrementCounterPage(flash: Flash, p: nat)
    requires flash.Valid() && IsCounterPage(p)
    modifies flash
    ensures flash.Valid() && flash.State() == Incremented(old(flash.State()), p)
  {
    hide Number, CounterValue, BigEndian, Store, Saved, Rebased, Retried, FirstFree;
    var addr := PAGE_SIZE * p;
    ghost var pg := Page(flash.State(), p);
    if flash.cells[addr + PAGE_SIZE - 1] == 0x00 {
      RollOver(flash, p);
    } else {
      var ptr := FindFree(flash, addr);
      flash.Memset8(ptr, 0x00, 1, false);
      assert Fill(0, 1) == [0];
      Retry(flash, ptr);
    }
  }

  method FindFree(flash: Flash, addr: nat) returns (ptr: nat)
    requires flash.Valid() && addr + PAGE_SIZE <= FLASH_SIZE
    ensures ptr == addr + 8 + FirstFree(Region(flash.State(), addr, PAGE_SIZE), 0)
  {
    ghost var pg := Region(flash.State(), addr, PAGE_SIZE);
    ptr := addr + 8;
    var i := 0;
    while i < TOKENS
      invariant i <= TOKENS && ptr == addr + 8 + i && FirstFree(pg, 0) == FirstFree(pg, i)
    {
      var n := flash.cells[ptr];
      assert n == pg[8 + i];
      if n == 0xff {
        break;
      }
      ptr := ptr + 1;
      i := i + 1;
    }
  }

  method Retry(flash: Flash, ptr: nat)
    requires flash.Valid() && ptr < FLASH_SIZE
    modifies flash
    ensures flash.Valid() && flash.State() == Retried(old(flash.State()), ptr, old(flash.cells[ptr]))
  {
    hide Store;
    var n := flash.cells[ptr];
    if 0 != n {
      flash.Memset8(ptr, 0x00, 1, true);
      assert Fill(0, 1) == [0];
    }
  }

  method RollOver(flash: Flash, p: nat)
    requires flash.Valid() && IsCounterPage(p)
    modifies flash
    ensures flash.Valid() && flash.State() == RolledOver(old(flash.State()), p)
  {
    hide Number, CounterValue, BigEndian, Store;
    var addr := PAGE_SIZE * p;
    var counter := GetCounterValue(flash, addr);
    var value := BigEndian(counter, 8);
    Backup(flash, value, p);
    flash.Memset8(addr, 0xFF, PAGE_SIZE, true);
    flash.Memcpy(addr, value, false);
    flash.Memcpy(BACKUP_ADDRESS + BACKUP_OK_OFFSET, [0x4F, 0x4B], false);
  }

  method Backup(flash: Flash, value: seq<bv8>, p: nat)
    requires flash.Valid() && |value| == 8 && IsCounterPage(p)
    modifies flash
    ensures flash.Valid() && flash.State() == Saved(old(flash.State()), value, p)
  {
    hide BigEndian, Store;
    flash.Memset8(BACKUP_ADDRESS, 0xFF, PAGE_SIZE, true);
    flash.Memcpy(BACKUP_ADDRESS, value, false);
    flash.Memcpy(BACKUP_ADDRESS + BACKUP_ADDRESS_OFFSET, BigEndian(FLASH_START + PAGE_SIZE * p, 4), false);
    flash.Memcpy(BACKUP_ADDRESS + BACKUP_LENGTH_OFFSET, BigEndian(8, 4), false);
  }
}
