/** What the backup pages hold once the slot pages or a full counter page have been rewritten. */
module BackupPages {
  import opened Bytes
  import opened FlashMemory
  import opened CounterPage
  import opened OtpSlots

  /** The n bytes at offset o of the backup pages, which begin at page 506. */
  function Saving(f: Image, o: nat, n: nat): (r: seq<bv8>)
    requires f.Valid() && o + n <= 1536
    ensures |r| == n
  {
    Region(f, 506 * 512 + o, n)
  }

  lemma {:induction false} SaveInside(f: Image, at: nat, x: seq<bv8>, erase: bool, o: nat, n: nat)
    requires f.Valid() && o + n <= 1536 && o <= at && at + |x| <= o + n
    ensures Saving(Store(f, 506 * 512 + at, x, erase), o, n)
         == Splice(Saving(f, o, n), at - o, Written(Saving(f, o, n)[at - o..at - o + |x|], x, erase))
  {
    hide Store, Region, Written, Splice;
    StoreInside(f, 506 * 512 + o, n, at - o, x, erase);
  }

  lemma {:induction false} SaveOutside(f: Image, at: nat, x: seq<bv8>, erase: bool, o: nat, n: nat)
    requires f.Valid() && o + n <= 1536 && at + |x| <= FLASH_SIZE && (506 * 512 + o + n <= at || at + |x| <= 506 * 512 + o)
    ensures Saving(Store(f, at, x, erase), o, n) == Saving(f, o, n)
  {
    StoreOutside(f, 506 * 512 + o, n, at, x, erase);
  }

  lemma {:induction false} AddressBytes()
    ensures BigEndian(FLASH_START + SLOTS_ADDRESS, 4) == [0x80, 0x03, 0xE6, 0x00] && BigEndian(SLOTS_SIZE, 2) == [0x06, 0x00]
  {
    var x := 0x8003E600;
    assert BigEndian(x / 256 / 256 / 256, 1) == [0x80];
    assert BigEndian(x / 256 / 256, 2) == [0x80, 0x03];
    assert BigEndian(x / 256, 3) == [0x80, 0x03, 0xE6];
    assert BigEndian(6, 1) == [0x06];
  }

  /** The pages as they were before the trailer is stored over their last bytes. */
  lemma {:induction false} PagesSaved(f: Image, pages: seq<bv8>)
    requires f.Valid() && |pages| == SLOTS_SIZE
    ensures var f2 := Store(Store(f, BACKUP_ADDRESS, Fill(0xFF, PAGE_SIZE), true), BACKUP_ADDRESS, pages, true);
            Saving(f2, 0, 1536) == pages
  {
    hide Store, Region, Splice;
    var f1 := Store(f, BACKUP_ADDRESS, Fill(0xFF, PAGE_SIZE), true);
    SaveInside(f1, 0, pages, true, 0, 1536);
    SpliceWhole(Saving(f1, 0, 1536), pages);
  }

  lemma {:induction false} Trailer(pages: seq<bv8>, l: seq<bv8>, a: seq<bv8>, m: seq<bv8>)
    requires |pages| == 1536 && |l| == 2 && |a| == 4 && |m| == 2
    ensures Splice(pages, 1528, l)[1524..1528] == pages[1524..1528]
    ensures Splice(Splice(Splice(pages, 1528, l), 1524, a), 1530, m) == pages[..1524] + a + l + m + pages[1532..]
  {
  }

  /** After the slot pages have been rewritten, the backup pages hold the same bytes but for a trailer behind the last
      record: the address 0x8003E600 and the length 0x0600, each where the pages were erased, and the mark. */
  lemma {:induction false} SlotsAreSaved(f: Image, pages: seq<bv8>)
    requires f.Valid() && |pages| == 1536
    ensures Saving(SlotsRewritten(f, pages), 0, 1536)
         == pages[..1524] + AndBytes(pages[1524..1528], [0x80, 0x03, 0xE6, 0x00]) + AndBytes(pages[1528..1530], [0x06, 0x00])
              + [0x4F, 0x4B] + pages[1532..]
  {
    hide Store, Region, Splice, AndBytes, BigEndian, Saving;
    var f2 := Store(Store(f, BACKUP_ADDRESS, Fill(0xFF, PAGE_SIZE), true), BACKUP_ADDRESS, pages, true);
    var f3 := Store(f2, BACKUP_ADDRESS + BACKUP_LENGTH_OFFSET, [0x06, 0x00], false);
    var f4 := Store(f3, BACKUP_ADDRESS + BACKUP_ADDRESS_OFFSET, [0x80, 0x03, 0xE6, 0x00], false);
    var f5 := Store(f4, SLOTS_ADDRESS, pages, true);
    AddressBytes();
    PagesSaved(f, pages);
    SaveInside(f2, 1528, [0x06, 0x00], false, 0, 1536);
    SaveInside(f3, 1524, [0x80, 0x03, 0xE6, 0x00], false, 0, 1536);
    SaveOutside(f4, SLOTS_ADDRESS, pages, true, 0, 1536);
    SaveInside(f5, 1530, [0x4F, 0x4B], true, 0, 1536);
    Trailer(pages, AndBytes(pages[1528..1530], [0x06, 0x00]), AndBytes(pages[1524..1528], [0x80, 0x03, 0xE6, 0x00]),
            [0x4F, 0x4B]);
  }

  /** Rewriting the slots erases each of their pages once, and the backup pages twice, once and twice. */
  lemma {:induction false} RewritingWears(f: Image, pages: seq<bv8>, p: nat)
    requires f.Valid() && |pages| == 1536 && p < 512
    ensures SlotsRewritten(f, pages).wear[p]
         == f.wear[p] + if p == 506 || p == 508 then 2 else if 499 <= p <= 501 || p == 507 then 1 else 0
  {
    hide Splice, AndBytes, BigEndian;
  }

  /** So every record and the configuration can be read from the backup as well. */
  lemma {:induction false} RecordsAreSaved(f: Image, o: nat, s: Slot, n: nat)
    requires f.Valid() && s.Valid() && o + SLOT_BYTES <= SLOTS_SIZE
    ensures var g := SlotWritten(f, o, s);
            Unpacked(Saving(g, SlotOffset(n), 79)) == SlotAt(g, n) && Saving(g, 0, 5) == Region(g, SLOTS_ADDRESS, 5)
  {
    hide SlotsRewritten, Region, Unpacked, AndBytes, SlotsWith, Saving;
    var (pages, g) := (SlotsWith(f, o, s), SlotWritten(f, o, s));
    SlotsAreSaved(f, pages);
    RewrittenSlots(f, pages);
    PartsSaved(g, pages, 0, 5);
    PartsSaved(g, pages, SlotOffset(n), 79);
    RegionInside(g, SLOTS_ADDRESS, SLOTS_SIZE, 0, 5);
    RegionInside(g, SLOTS_ADDRESS, SLOTS_SIZE, SlotOffset(n), 79);
  }

  lemma {:induction false} PartsSaved(g: Image, pages: seq<bv8>, o: nat, n: nat)
    requires g.Valid() && |pages| == 1536 && o + n <= 1524 && Saving(g, 0, 1536)[..1524] == pages[..1524]
    ensures Saving(g, o, n) == pages[o..o + n]
  {
    SliceOfPrefix(Saving(g, 0, 1536), 1524, o, o + n);
    SliceOfPrefix(pages, 1524, o, o + n);
    RegionInside(g, 506 * 512, 1536, o, n);
  }

  // ----- a full counter page

  /** A rollover leaves the counter value, and nothing else, on the first backup page. */
  lemma {:induction false} CounterIsSaved(f: Image, p: nat)
    requires f.Valid() && IsCounterPage(p)
    ensures Saving(RolledOver(f, p), 0, 512) == BigEndian(CounterValue(Page(f, p)), 8) + Fill(0xFF, 504)
  {
    hide Store, Region, Splice, AndBytes, BigEndian, Saving, CounterValue;
    var value := BigEndian(CounterValue(Page(f, p)), 8);
    var f1 := Store(f, BACKUP_ADDRESS, Fill(0xFF, PAGE_SIZE), true);
    var f2 := Store(f1, BACKUP_ADDRESS, value, false);
    var at := BigEndian(FLASH_START + PAGE_SIZE * p, 4);
    var f3 := Store(f2, BACKUP_ADDRESS + BACKUP_ADDRESS_OFFSET, at, false);
    var f4 := Saved(f, value, p);
    var f5 := Store(f4, PAGE_SIZE * p, Fill(0xFF, PAGE_SIZE), true);
    SaveInside(f, 0, Fill(0xFF, PAGE_SIZE), true, 0, 512);
    SpliceWhole(Saving(f, 0, 512), Fill(0xFF, 512));
    SaveInside(f1, 0, value, false, 0, 512);
    ValueOverErased(value);
    SaveOutside(f2, BACKUP_ADDRESS + BACKUP_ADDRESS_OFFSET, at, false, 0, 512);
    SaveOutside(f3, BACKUP_ADDRESS + BACKUP_LENGTH_OFFSET, BigEndian(8, 4), false, 0, 512);
    SaveOutside(f4, PAGE_SIZE * p, Fill(0xFF, PAGE_SIZE), true, 0, 512);
    SaveOutside(f5, PAGE_SIZE * p, value, false, 0, 512);
    SaveOutside(Rebased(f4, value, p), BACKUP_ADDRESS + BACKUP_OK_OFFSET, [0x4F, 0x4B], false, 0, 512);
  }

  lemma {:induction false} ValueOverErased(value: seq<bv8>)
    requires |value| == 8
    ensures Splice(Fill(0xFF, 512), 0, Written(Fill(0xFF, 512)[0..8], value, false)) == value + Fill(0xFF, 504)
  {
    assert Fill(0xFF, 512)[0..8] == Fill(0xFF, 8);
    AndErased(value);
  }

  lemma {:induction false} EightBytes()
    ensures BigEndian(8, 4) == [0, 0, 0, 8]
  {
    assert BigEndian(0, 1) == [0];
    assert BigEndian(0, 2) == [0, 0];
    assert BigEndian(0, 3) == [0, 0, 0];
  }

  lemma {:induction false} LengthOverMark(was: seq<bv8>)
    requires |was| == 4
    ensures var length := AndBytes(was, [0, 0, 0, 8]);
            Splice(length, 2, AndBytes(length[2..4], [0x4F, 0x4B])) == [0, 0, 0, And(was[3], 8)]
  {
    MarkOverLength(was[0], was[3]);
    MarkOverLength(was[1], was[3]);
    MarkOverLength(was[2], was[3]);
    hide And;
    var length := AndBytes(was, [0, 0, 0, 8]);
    assert length == [0, 0, 0, And(was[3], 8)];
    assert AndBytes(length[2..4], [0x4F, 0x4B]) == [And(0, 0x4F), And(And(was[3], 8), 0x4B)];
  }

  lemma {:induction false} MarkOverLength(a: bv8, b: bv8)
    ensures And(a, 0) == 0 && And(0, 0x4F) == 0 && And(And(b, 8), 0x4B) == And(b, 8)
  {
  }

  /** Its length is stored as four bytes, over the mark, and the mark can no longer clear them to its own value: a
      rollover never leaves the mark that a rewriting of the slots leaves. */
  lemma {:induction false} RolloverIsNotMarked(f: Image, p: nat)
    requires f.Valid() && IsCounterPage(p)
    ensures Saving(RolledOver(f, p), 1528, 4) == [0, 0, 0, And(Saving(f, 1528, 4)[3], 8)]
    ensures Saving(RolledOver(f, p), 1528, 4)[2..4] != [0x4F, 0x4B]
  {
    hide Store, Region, Splice, AndBytes, BigEndian, Saving, CounterValue, And;
    var value := BigEndian(CounterValue(Page(f, p)), 8);
    var f1 := Store(f, BACKUP_ADDRESS, Fill(0xFF, PAGE_SIZE), true);
    var f2 := Store(f1, BACKUP_ADDRESS, value, false);
    var at := BigEndian(FLASH_START + PAGE_SIZE * p, 4);
    var f3 := Store(f2, BACKUP_ADDRESS + BACKUP_ADDRESS_OFFSET, at, false);
    var f4 := Saved(f, value, p);
    var f5 := Store(f4, PAGE_SIZE * p, Fill(0xFF, PAGE_SIZE), true);
    SaveOutside(f, BACKUP_ADDRESS, Fill(0xFF, PAGE_SIZE), true, 1528, 4);
    SaveOutside(f1, BACKUP_ADDRESS, value, false, 1528, 4);
    SaveOutside(f2, BACKUP_ADDRESS + BACKUP_ADDRESS_OFFSET, at, false, 1528, 4);
    EightBytes();
    SaveInside(f3, 1528, [0, 0, 0, 8], false, 1528, 4);
    SaveOutside(f4, PAGE_SIZE * p, Fill(0xFF, PAGE_SIZE), true, 1528, 4);
    SaveOutside(f5, PAGE_SIZE * p, value, false, 1528, 4);
    SaveInside(Rebased(f4, value, p), 1530, [0x4F, 0x4B], false, 1528, 4);
    WholeSlice(Saving(f, 1528, 4), [0, 0, 0, 8]);
    LengthOverMark(Saving(f, 1528, 4));
    assert [0, 0, 0, And(Saving(f, 1528, 4)[3], 8)][2] == 0;
  }

  lemma {:induction false} WholeSlice(was: seq<bv8>, x: seq<bv8>)
    requires |was| == |x| == 4
    ensures Splice(was, 0, Written(was[0..4], x, false)) == AndBytes(was, x)
  {
    assert was[0..4] == was;
  }
}
