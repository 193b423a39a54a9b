/** EraseLocalFlashKeyValues_u32: what a factory reset does to the pages of passwords, slots and volumes. */
module FactoryReset {
  import opened Bytes
  import opened FlashMemory
  import opened CounterPage

  const SAFE_PAGE := 510
  const VOLUME_PAGE := 497
  const ROUNDS := 5
  const NOISE_SIZE := 256

  /** The first page of the password safe, the ten OTP pages from the slots on, and the two volume pages before. */
  predicate WipedPage(p: nat) {
    VOLUME_PAGE <= p < OTP_FLASH_START_PAGE + 10 || p == SAFE_PAGE
  }

  /** Five rounds of two erasing stores, then one erase; pages 499 to 506 are erased a second time. */
  function Erases(p: nat): nat {
    if !WipedPage(p) then 0 else if OTP_FLASH_START_PAGE <= p < VOLUME_PAGE + 10 then 12 else 11
  }

  function Reset(f: Image): (g: Image)
    requires f.Valid()
    ensures g.Valid()
  {
    Image(seq(FLASH_SIZE, a requires 0 <= a < FLASH_SIZE => if WipedPage(a / PAGE_SIZE) then 0xFF else f.cells[a]),
          seq(PAGES, p requires 0 <= p < PAGES => f.wear[p] + Erases(p)))
  }

  /** Pages 497 to 508 and 510 read as erased, every other page is kept. */
  lemma {:induction false} ResetPage(f: Image, p: nat)
    requires f.Valid() && p < PAGES
    ensures Page(Reset(f), p) == if 497 <= p <= 508 || p == 510 then Fill(0xFF, PAGE_SIZE) else Page(f, p)
    ensures Reset(f).wear[p] == f.wear[p] + if 499 <= p <= 506 then 12 else if 497 <= p <= 508 || p == 510 then 11 else 0
  {
    forall i: nat | i < PAGE_SIZE
      ensures Page(Reset(f), p)[i] == if 497 <= p <= 508 || p == 510 then 0xFF else Page(f, p)[i]
    {
      assert (PAGE_SIZE * p + i) / PAGE_SIZE == p;
    }
  }

  // ----- the routine

  /** One round on one page. */
  method Overwrite(flash: Flash, p: nat, noise: seq<bv8>)
    requires flash.Valid() && p < PAGES && |noise| == NOISE_SIZE
    modifies flash
    ensures flash.Valid() && flash.wear == old(flash.wear)[p := old(flash.wear)[p] + 2]
    ensures forall a :: 0 <= a < FLASH_SIZE && a / PAGE_SIZE != p ==> flash.cells[a] == old(flash.cells[a])
  {
    hide Store;
    ghost var f := flash.State();
    flash.Memcpy(PAGE_SIZE * p, noise, true);
    flash.Memcpy(PAGE_SIZE * p + NOISE_SIZE, noise, true);
    StoreWear(f, p, 0, noise, true);
    StoreCells(f, p, 0, noise);
    var g := Store(f, PAGE_SIZE * p, noise, true);
    StoreWear(g, p, NOISE_SIZE, noise, true);
    StoreCells(g, p, NOISE_SIZE, noise);
  }

  lemma {:induction false} StoreCells(f: Image, p: nat, o: nat, x: seq<bv8>)
    requires f.Valid() && p < PAGES && o + |x| <= PAGE_SIZE
    ensures forall a :: 0 <= a < FLASH_SIZE && a / PAGE_SIZE != p ==>
              Store(f, PAGE_SIZE * p + o, x, true).cells[a] == f.cells[a]
  {
    hide Worn;
    forall a: nat | a < FLASH_SIZE && a / PAGE_SIZE != p
      ensures Store(f, PAGE_SIZE * p + o, x, true).cells[a] == f.cells[a]
    {
      assert a < PAGE_SIZE * p || PAGE_SIZE * p + PAGE_SIZE <= a;
    }
  }

  method Erase(flash: Flash, p: nat)
    requires flash.Valid() && p < PAGES
    modifies flash
    ensures flash.Valid() && flash.wear == old(flash.wear)[p := old(flash.wear)[p] + 1]
    ensures forall a :: 0 <= a < FLASH_SIZE ==> flash.cells[a] == if a / PAGE_SIZE == p then 0xFF else old(flash.cells[a])
  {
    ghost var f := flash.State();
    flash.ErasePage(p);
    forall a: nat | a < FLASH_SIZE
      ensures flash.cells[a] == if a / PAGE_SIZE == p then 0xFF else f.cells[a]
    {
      assert a / PAGE_SIZE == p <==> PAGE_SIZE * p <= a < PAGE_SIZE * p + PAGE_SIZE;
    }
  }

  /** Five rounds over n pages, then an erase of m pages; noise holds the five blocks of random bytes. */
  method Clear(flash: Flash, first: nat, n: nat, m: nat, noise: seq<seq<bv8>>)
    requires flash.Valid() && n <= m && first + m <= PAGES
    requires |noise| == ROUNDS && forall i :: 0 <= i < ROUNDS ==> |noise[i]| == NOISE_SIZE
    modifies flash
    ensures flash.Valid()
    ensures forall a :: 0 <= a < FLASH_SIZE ==>
              flash.cells[a] == if first <= a / PAGE_SIZE < first + m then 0xFF else old(flash.cells[a])
    ensures forall p :: 0 <= p < PAGES ==>
              flash.wear[p] == old(flash.wear)[p] + if first <= p < first + n then 11 else if first <= p < first + m then 1 else 0
  {
    for i1 := 0 to ROUNDS
      invariant flash.Valid()
      invariant forall a :: 0 <= a < FLASH_SIZE && !(first <= a / PAGE_SIZE < first + n) ==>
        flash.cells[a] == old(flash.cells[a])
      invariant forall p :: 0 <= p < PAGES ==>
        flash.wear[p] == old(flash.wear)[p] + if first <= p < first + n then 2 * i1 else 0
    {
      for i := 0 to n
        invariant flash.Valid()
        invariant forall a :: 0 <= a < FLASH_SIZE && !(first <= a / PAGE_SIZE < first + n) ==>
          flash.cells[a] == old(flash.cells[a])
        invariant forall p :: 0 <= p < PAGES ==>
          flash.wear[p] == old(flash.wear)[p]
                           + if first <= p < first + i then 2 * i1 + 2 else if first <= p < first + n then 2 * i1 else 0
      {
        Overwrite(flash, first + i, noise[i1]);
      }
    }
    for i := 0 to m
      invariant flash.Valid()
      invariant forall a :: 0 <= a < FLASH_SIZE && first <= a / PAGE_SIZE < first + i ==> flash.cells[a] == 0xFF
      invariant forall a :: 0 <= a < FLASH_SIZE && !(first <= a / PAGE_SIZE < first + m) ==>
        flash.cells[a] == old(flash.cells[a])
      invariant forall p :: 0 <= p < PAGES ==>
        flash.wear[p] == old(flash.wear)[p] + (if first <= p < first + n then 10 else 0) + if first <= p < first + i then 1 else 0
    {
      Erase(flash, first + i);
    }
  }

  /** Five blocks of random bytes for each of the three areas. */
  predicate IsNoise(noise: seq<seq<bv8>>) {
    |noise| == 3 * ROUNDS && forall i :: 0 <= i < |noise| ==> |noise[i]| == NOISE_SIZE
  }

  /** EraseLocalFlashKeyValues_u32 without its part on the user page. */
  method EraseLocalFlashKeyValues(flash: Flash, noise: seq<seq<bv8>>)
    requires flash.Valid() && IsNoise(noise)
    modifies flash
    ensures flash.Valid() && flash.State() == Reset(old(flash.State()))
  {
    Clear(flash, SAFE_PAGE, 1, 1, noise[..5]);
    Clear(flash, OTP_FLASH_START_PAGE, 10, 10, noise[5..10]);
    Clear(flash, VOLUME_PAGE, 2, 10, noise[10..]);
    assert flash.cells == Reset(old(flash.State())).cells;
    assert flash.wear == Reset(old(flash.State())).wear;
  }
}
