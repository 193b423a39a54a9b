/** The internal flash: 512 pages of 512 bytes, at addresses relative to its start. The two laws of the
    driver are contracts here: a store without erase can only clear bits, and a store with erase replaces
    the range and keeps the rest of every page it touches. */
module FlashMemory {
  import opened Bytes

  const PAGE_SIZE := 512
  const PAGES := 512
  const FLASH_SIZE := 0x40000

  function And(a: bv8, b: bv8): bv8 {
    a & b
  }

  function AndBytes(a: seq<bv8>, b: seq<bv8>): (r: seq<bv8>)
    requires |a| == |b|
    ensures |r| == |a|
  {
    seq(|a|, i requires 0 <= i < |a| => And(a[i], b[i]))
  }

  /** Storing into erased cells works without erasing. */
  lemma {:induction false} AndErased(x: seq<bv8>)
    ensures AndBytes(Fill(0xFF, |x|), x) == x
  {
  }

  /** The cells, and how often each page has been erased. */
  datatype Image = Image(cells: seq<bv8>, wear: seq<nat>) {
    ghost predicate Valid() {
      |cells| == FLASH_SIZE && |wear| == PAGES
    }
  }

  /** The n bytes at address a. */
  function Region(f: Image, a: nat, n: nat): (r: seq<bv8>)
    requires a + n <= |f.cells|
    ensures |r| == n
  {
    f.cells[a..a + n]
  }

  function Page(f: Image, p: nat): (r: seq<bv8>)
    requires f.Valid() && p < PAGES
    ensures |r| == PAGE_SIZE
  {
    Region(f, PAGE_SIZE * p, PAGE_SIZE)
  }

  /** Whether a store of n bytes at a touches page p. */
  predicate Touches(a: nat, n: nat, p: nat) {
    a < PAGE_SIZE * (p + 1) && PAGE_SIZE * p < a + n
  }

  function Worn(wear: seq<nat>, a: nat, n: nat): (w: seq<nat>)
    ensures |w| == |wear|
  {
    seq(|wear|, p requires 0 <= p < |wear| => if n > 0 && Touches(a, n, p) then wear[p] + 1 else wear[p])
  }

  /** One store, with or without erasing the pages it touches. */
  function Store(f: Image, a: nat, x: seq<bv8>, erase: bool): (g: Image)
    requires f.Valid() && a + |x| <= FLASH_SIZE
    ensures g.Valid()
  {
    if erase then Image(Splice(f.cells, a, x), Worn(f.wear, a, |x|))
    else Image(Splice(f.cells, a, AndBytes(f.cells[a..a + |x|], x)), f.wear)
  }

  function ErasedPage(f: Image, p: nat): (g: Image)
    requires f.Valid() && p < PAGES
    ensures g.Valid()
  {
    Image(Splice(f.cells, PAGE_SIZE * p, Fill(0xFF, PAGE_SIZE)), f.wear[p := f.wear[p] + 1])
  }

  // ----- what a store does to a region

  function Written(was: seq<bv8>, x: seq<bv8>, erase: bool): (r: seq<bv8>)
    requires |was| == |x|
    ensures |r| == |x|
  {
    if erase then x else AndBytes(was, x)
  }

  lemma {:induction false} StoreInside(f: Image, a: nat, n: nat, o: nat, x: seq<bv8>, erase: bool)
    requires f.Valid() && a + n <= FLASH_SIZE && o + |x| <= n
    ensures Region(Store(f, a + o, x, erase), a, n)
         == Splice(Region(f, a, n), o, Written(Region(f, a, n)[o..o + |x|], x, erase))
  {
    hide And, AndBytes, Worn, Splice;
    SliceOfSlice(f.cells, a, a + n, o, o + |x|);
    SpliceInside(f.cells, a, n, o, Written(Region(f, a, n)[o..o + |x|], x, erase));
  }

  lemma {:induction false} StoreOutside(f: Image, a: nat, n: nat, at: nat, x: seq<bv8>, erase: bool)
    requires f.Valid() && a + n <= FLASH_SIZE && at + |x| <= FLASH_SIZE && (at + |x| <= a || a + n <= at)
    ensures Region(Store(f, at, x, erase), a, n) == Region(f, a, n)
  {
    hide And, AndBytes, Worn;
  }

  lemma {:induction false} ErasedInside(f: Image, p: nat)
    requires f.Valid() && p < PAGES
    ensures Page(ErasedPage(f, p), p) == Fill(0xFF, PAGE_SIZE)
  {
  }

  lemma {:induction false} ErasedOutside(f: Image, p: nat, a: nat, n: nat)
    requires f.Valid() && p < PAGES && a + n <= FLASH_SIZE && (PAGE_SIZE * (p + 1) <= a || a + n <= PAGE_SIZE * p)
    ensures Region(ErasedPage(f, p), a, n) == Region(f, a, n)
  {
    SpliceOutside(f.cells, PAGE_SIZE * p, Fill(0xFF, PAGE_SIZE), a, n);
  }

  /** A store within one page wears that page alone, and only when it erases. */
  lemma {:induction false} StoreWear(f: Image, p: nat, o: nat, x: seq<bv8>, erase: bool)
    requires f.Valid() && p < PAGES && 0 < |x| && o + |x| <= PAGE_SIZE
    ensures Store(f, PAGE_SIZE * p + o, x, erase).wear == if erase then f.wear[p := f.wear[p] + 1] else f.wear
  {
    hide And, AndBytes, Splice;
  }

  // ----- the driver

  class Flash {
    var cells: seq<bv8>
    ghost var wear: seq<nat>

    ghost predicate Valid()
      reads this
    {
      |cells| == FLASH_SIZE && |wear| == PAGES
    }

    ghost function State(): (f: Image)
      requires Valid()
      reads this
      ensures f.Valid()
    {
      Image(cells, wear)
    }

    constructor ()
      ensures Valid()
    {
      cells := Fill(0xFF, FLASH_SIZE);
      wear := seq(PAGES, i => 0);
    }

    /** flashc_memcpy */
    method Memcpy(a: nat, x: seq<bv8>, erase: bool)
      requires Valid() && a + |x| <= FLASH_SIZE
      modifies this
      ensures Valid() && State() == Store(old(State()), a, x, erase)
    {
      hide And, AndBytes, Splice, Worn;
      if erase {
        cells := Splice(cells, a, x);
        wear := Worn(wear, a, |x|);
      } else {
        cells := Splice(cells, a, AndBytes(cells[a..a + |x|], x));
      }
    }

    /** flashc_memset8 */
    method Memset8(a: nat, v: bv8, n: nat, erase: bool)
      requires Valid() && a + n <= FLASH_SIZE
      modifies this
      ensures Valid() && State() == Store(old(State()), a, Fill(v, n), erase)
    {
      Memcpy(a, Fill(v, n), erase);
    }

    /** flashc_erase_page */
    method ErasePage(p: nat)
      requires Valid() && p < PAGES
      modifies this
      ensures Valid() && State() == ErasedPage(old(State()), p)
    {
      hide Splice;
      cells := Splice(cells, PAGE_SIZE * p, Fill(0xFF, PAGE_SIZE));
      wear := wear[p := wear[p] + 1];
    }
  }
}
