/** What any number of increments does to a counter page, to its value, and to the rest of the flash. */
module CounterRuns {
  import opened Bytes
  import opened FlashMemory
  import opened CounterPage

  // ----- one increment

  lemma {:induction false} SavedElsewhere(f: Image, value: seq<bv8>, p: nat, a: nat, n: nat)
    requires f.Valid() && |value| == 8 && IsCounterPage(p) && a + n <= FLASH_SIZE && OutsideBackup(a, n)
    ensures Region(Saved(f, value, p), a, n) == Region(f, a, n)
  {
    hide Store, Region, BigEndian;
    var f1 := Store(f, BACKUP_ADDRESS, Fill(0xFF, PAGE_SIZE), true);
    StoreOutside(f, a, n, BACKUP_ADDRESS, Fill(0xFF, PAGE_SIZE), true);
    var f2 := Store(f1, BACKUP_ADDRESS, value, false);
    StoreOutside(f1, a, n, BACKUP_ADDRESS, value, false);
    var at := BigEndian(FLASH_START + PAGE_SIZE * p, 4);
    var f3 := Store(f2, BACKUP_ADDRESS + BACKUP_ADDRESS_OFFSET, at, false);
    StoreOutside(f2, a, n, BACKUP_ADDRESS + BACKUP_ADDRESS_OFFSET, at, false);
    StoreOutside(f3, a, n, BACKUP_ADDRESS + BACKUP_LENGTH_OFFSET, BigEndian(8, 4), false);
  }

  lemma {:induction false} SavedWear(f: Image, value: seq<bv8>, p: nat)
    requires f.Valid() && |value| == 8 && IsCounterPage(p)
    ensures Saved(f, value, p).wear == f.wear[BACKUP_PAGE := f.wear[BACKUP_PAGE] + 1]
  {
  }

  predicate OutsidePage(p: nat, a: nat, n: nat) {
    a + n <= PAGE_SIZE * p || PAGE_SIZE * (p + 1) <= a
  }

  lemma {:induction false} RebasedPage(f: Image, value: seq<bv8>, p: nat)
    requires f.Valid() && |value| == 8 && IsCounterPage(p)
    ensures Page(Rebased(f, value, p), p) == value + Fill(0xFF, TOKENS)
    ensures Rebased(f, value, p).wear == f.wear[p := f.wear[p] + 1]
  {
  }

  lemma {:induction false} RolledOverPage(f: Image, p: nat)
    requires f.Valid() && IsCounterPage(p)
    ensures Page(RolledOver(f, p), p) == Shaped(CounterValue(Page(f, p)), 0)
    ensures RolledOver(f, p).wear == f.wear[BACKUP_PAGE := f.wear[BACKUP_PAGE] + 1][p := f.wear[p] + 1]
  {
    hide Store, Saved, Rebased, CounterValue, BigEndian;
    var value := BigEndian(CounterValue(Page(f, p)), 8);
    var s := Saved(f, value, p);
    SavedWear(f, value, p);
    RebasedPage(s, value, p);
    StoreOutside(Rebased(s, value, p), PAGE_SIZE * p, PAGE_SIZE, BACKUP_ADDRESS + BACKUP_OK_OFFSET, [0x4F, 0x4B], false);
    StoreWear(Rebased(s, value, p), BACKUP_PAGE + 2, BACKUP_OK_OFFSET - 2 * PAGE_SIZE, [0x4F, 0x4B], false);
    assert value + Fill(0xFF, TOKENS) == value + Fill(0, 0) + Fill(0xFF, TOKENS);
  }

  lemma {:induction false} RolledOverElsewhere(f: Image, p: nat, a: nat, n: nat)
    requires f.Valid() && IsCounterPage(p) && a + n <= FLASH_SIZE && OutsideBackup(a, n) && OutsidePage(p, a, n)
    ensures Region(RolledOver(f, p), a, n) == Region(f, a, n)
  {
    hide Store, Saved, CounterValue, BigEndian, Region;
    var value := BigEndian(CounterValue(Page(f, p)), 8);
    var s := Saved(f, value, p);
    SavedElsewhere(f, value, p, a, n);
    var f1 := Store(s, PAGE_SIZE * p, Fill(0xFF, PAGE_SIZE), true);
    StoreOutside(s, a, n, PAGE_SIZE * p, Fill(0xFF, PAGE_SIZE), true);
    StoreOutside(f1, a, n, PAGE_SIZE * p, value, false);
    StoreOutside(Rebased(s, value, p), a, n, BACKUP_ADDRESS + BACKUP_OK_OFFSET, [0x4F, 0x4B], false);
  }

  lemma {:induction false} LastToken(b: nat, k: nat)
    requires k <= TOKENS
    ensures Shaped(b, k)[PAGE_SIZE - 1] == 0 <==> k == TOKENS
  {
    hide BigEndian;
  }

  lemma {:induction false} MarkedShape(b: nat, k: nat)
    requires k < TOKENS
    ensures Splice(Shaped(b, k), 8 + k, [0]) == Shaped(b, k + 1)
    ensures Shaped(b, k)[8 + k..9 + k] == Fill(0xFF, 1)
  {
    hide BigEndian;
  }

  /** One increment marks the next token, or turns a full page into a fresh one of the same value. */
  lemma {:induction false} IncrementOnce(f: Image, p: nat, b: nat, k: nat)
    requires f.Valid() && IsCounterPage(p) && k <= TOKENS && b < TWO64 && Page(f, p) == Shaped(b, k)
    ensures k < TOKENS ==> Page(Incremented(f, p), p) == Shaped(b, k + 1) && Incremented(f, p).wear == f.wear
    ensures k == TOKENS ==> Page(Incremented(f, p), p) == Shaped(Wrapped(b + TOKENS), 0)
    ensures k == TOKENS ==> Incremented(f, p).wear == f.wear[BACKUP_PAGE := f.wear[BACKUP_PAGE] + 1][p := f.wear[p] + 1]
  {
    hide Store, Shaped, CounterValue, RolledOver, Marked, FirstFree, AndBytes, Wrapped;
    LastToken(b, k);
    if k == TOKENS {
      ValueOfShape(b, k);
      RolledOverPage(f, p);
    } else {
      var at := PAGE_SIZE * p + 8 + k;
      FirstFreeOfShape(b, k, 0);
      FallbackNeverFires(f, at);
      assert Incremented(f, p) == Store(f, at, [0], false);
      StoreInside(f, PAGE_SIZE * p, PAGE_SIZE, 8 + k, [0], false);
      MarkedShape(b, k);
      AndErased([0]);
      StoreWear(f, p, 8 + k, [0], false);
    }
  }

  lemma {:induction false} IncrementElsewhere(f: Image, p: nat, b: nat, k: nat, a: nat, n: nat)
    requires f.Valid() && IsCounterPage(p) && k <= TOKENS && b < TWO64 && Page(f, p) == Shaped(b, k)
    requires a + n <= FLASH_SIZE && OutsideBackup(a, n) && OutsidePage(p, a, n)
    ensures Region(Incremented(f, p), a, n) == Region(f, a, n)
  {
    hide Store, Shaped, CounterValue, RolledOver, Marked, FirstFree;
    LastToken(b, k);
    if k == TOKENS {
      RolledOverElsewhere(f, p, a, n);
    } else {
      FirstFreeOfShape(b, k, 0);
      FallbackNeverFires(f, PAGE_SIZE * p + 8 + k);
      StoreOutside(f, a, n, PAGE_SIZE * p + 8 + k, [0], false);
    }
  }

  // ----- runs

  function Increments(f: Image, p: nat, n: nat): (g: Image)
    requires f.Valid() && IsCounterPage(p)
    ensures g.Valid()
  {
    if n == 0 then f else Incremented(Increments(f, p, n - 1), p)
  }

  function BaseAfter(b: nat, m: nat): (base: nat)
    ensures base < TWO64
  {
    Wrapped(b + TOKENS * (m / (TOKENS + 1)))
  }

  lemma {:induction false} IncrementsShape(f: Image, p: nat, b: nat, k: nat, n: nat)
    requires f.Valid() && IsCounterPage(p) && k <= TOKENS && b < TWO64 && Page(f, p) == Shaped(b, k)
    ensures Page(Increments(f, p, n), p) == Shaped(BaseAfter(b, k + n), (k + n) % (TOKENS + 1))
    ensures Increments(f, p, n).wear[p] == f.wear[p] + (k + n) / (TOKENS + 1)
  {
    hide Incremented, Shaped, Wrapped, Page;
    if n == 0 {
      WrappedSmall(b);
    } else {
      IncrementsShape(f, p, b, k, n - 1);
      var m := k + n - 1;
      var (q, r) := (m / (TOKENS + 1), m % (TOKENS + 1));
      IncrementOnce(Increments(f, p, n - 1), p, BaseAfter(b, m), r);
      NextQuotient(m);
      if r == TOKENS {
        WrappedStep(b + TOKENS * q, TOKENS);
        assert b + TOKENS * q + TOKENS == b + TOKENS * (q + 1);
      }
    }
  }

  lemma {:induction false} WrappedSmall(x: nat)
    requires x < TWO64
    ensures Wrapped(x) == x
  {
  }

  lemma {:induction false} NextQuotient(m: nat)
    ensures m % 505 < 504 ==> (m + 1) / 505 == m / 505 && (m + 1) % 505 == m % 505 + 1
    ensures m % 505 == 504 ==> (m + 1) / 505 == m / 505 + 1 && (m + 1) % 505 == 0
  {
  }

  /** The value read after n increments: every increment counts one, except one in 505. */
  lemma {:induction false} IncrementsValue(f: Image, p: nat, b: nat, k: nat, n: nat)
    requires f.Valid() && IsCounterPage(p) && k <= TOKENS && b < TWO64 && Page(f, p) == Shaped(b, k)
    ensures CounterValue(Page(Increments(f, p, n), p)) == Wrapped(b + (k + n) - (k + n) / (TOKENS + 1))
  {
    hide Shaped, Wrapped, Page, Increments, CounterValue;
    IncrementsShape(f, p, b, k, n);
    var m := k + n;
    ValueOfShape(BaseAfter(b, m), m % (TOKENS + 1));
    WrappedStep(b + TOKENS * (m / (TOKENS + 1)), m % (TOKENS + 1));
  }

  /** As long as 64 bits suffice, more increments never read a smaller value. */
  lemma {:induction false} NeverDecreases(f: Image, p: nat, b: nat, k: nat, n: nat, n': nat)
    requires f.Valid() && IsCounterPage(p) && k <= TOKENS && b < TWO64 && Page(f, p) == Shaped(b, k)
    requires n <= n' && b + k + n' - (k + n') / (TOKENS + 1) < TWO64
    ensures CounterValue(Page(Increments(f, p, n), p)) <= CounterValue(Page(Increments(f, p, n'), p))
    ensures n' > n + 1 ==> CounterValue(Page(Increments(f, p, n), p)) < CounterValue(Page(Increments(f, p, n'), p))
  {
    hide Shaped, Wrapped, Page, Increments, CounterValue;
    IncrementsValue(f, p, b, k, n);
    IncrementsValue(f, p, b, k, n');
    SlowQuotient(k + n, k + n');
    WrappedSmall(b + (k + n) - (k + n) / (TOKENS + 1));
    WrappedSmall(b + (k + n') - (k + n') / (TOKENS + 1));
  }

  lemma {:induction false} SlowQuotient(m: nat, m': nat)
    requires m <= m'
    ensures m - m / 505 <= m' - m' / 505
    ensures m' > m + 1 ==> m - m / 505 < m' - m' / 505
  {
  }

  /** No other slot, counter or time page changes. */
  lemma {:induction false} IncrementsElsewhere(f: Image, p: nat, b: nat, k: nat, n: nat, a: nat, len: nat)
    requires f.Valid() && IsCounterPage(p) && k <= TOKENS && b < TWO64 && Page(f, p) == Shaped(b, k)
    requires a + len <= FLASH_SIZE && OutsideBackup(a, len) && OutsidePage(p, a, len)
    ensures Region(Increments(f, p, n), a, len) == Region(f, a, len)
  {
    hide Incremented, Shaped, Wrapped, Page, Region;
    if n > 0 {
      IncrementsElsewhere(f, p, b, k, n - 1, a, len);
      IncrementsShape(f, p, b, k, n - 1);
      var m := k + n - 1;
      IncrementElsewhere(Increments(f, p, n - 1), p, BaseAfter(b, m), m % (TOKENS + 1), a, len);
    }
  }

  /** Nor is any other page erased, except the backup page, once for each rollover. */
  lemma {:induction false} IncrementsWear(f: Image, p: nat, b: nat, k: nat, n: nat)
    requires f.Valid() && IsCounterPage(p) && k <= TOKENS && b < TWO64 && Page(f, p) == Shaped(b, k)
    ensures Increments(f, p, n).wear
         == f.wear[BACKUP_PAGE := f.wear[BACKUP_PAGE] + (k + n) / (TOKENS + 1)][p := f.wear[p] + (k + n) / (TOKENS + 1)]
  {
    hide Incremented, Shaped, Wrapped, Page;
    if n > 0 {
      IncrementsWear(f, p, b, k, n - 1);
      IncrementsShape(f, p, b, k, n - 1);
      var m := k + n - 1;
      IncrementOnce(Increments(f, p, n - 1), p, BaseAfter(b, m), m % (TOKENS + 1));
      NextQuotient(m);
    }
  }

  /** Whatever a counter page holds, incrementing it touches nothing but that page, the byte behind it and the backup
      pages. */
  lemma {:induction false} IncrementsOutside(f: Image, p: nat, n: nat, a: nat, len: nat)
    requires f.Valid() && IsCounterPage(p) && a + len <= FLASH_SIZE && OutsideBackup(a, len)
    requires a + len <= PAGE_SIZE * p || PAGE_SIZE * (p + 1) < a
    ensures Region(Increments(f, p, n), a, len) == Region(f, a, len)
  {
    hide Region, RolledOver, Marked, Store, FirstFree;
    if n > 0 {
      var g := Increments(f, p, n - 1);
      IncrementsOutside(f, p, n - 1, a, len);
      var at := PAGE_SIZE * p + 8 + FirstFree(Page(g, p), 0);
      if Page(g, p)[PAGE_SIZE - 1] == 0 {
        RolledOverElsewhere(g, p, a, len);
      } else {
        FallbackNeverFires(g, at);
        StoreOutside(g, a, len, at, [0], false);
      }
    }
  }

  lemma {:induction false} CounterSetElsewhere(f: Image, p: nat, counter: nat, a: nat, n: nat)
    requires f.Valid() && p < PAGES && a + n <= FLASH_SIZE && OutsidePage(p, a, n)
    ensures Region(CounterSet(f, p, counter), a, n) == Region(f, a, n)
  {
    hide Region, Store, ErasedPage, BigEndian;
    ErasedOutside(f, p, a, n);
    StoreOutside(ErasedPage(f, p), a, n, PAGE_SIZE * p, BigEndian(counter, 8), true);
  }
}
