/** The slot pages: the packed slot records behind the global configuration, and their rewriting. */
module OtpSlots {
  import opened Bytes
  import opened Dwords
  import opened FlashMemory
  import opened CounterPage

  const SLOTS_ADDRESS := PAGE_SIZE * OTP_FLASH_START_PAGE
  const SLOTS_SIZE := 3 * PAGE_SIZE
  const SLOT_PAGE_SIZE := 500
  const GLOBAL_CONFIG_OFFSET := 0
  const SLOT_BYTES := 79
  const SECRET_LENGTH := 40
  const NUMBER_OF_HOTP_SLOTS := 4
  const NUMBER_OF_TOTP_SLOTS := 15

  // ----- the packed record

  datatype Slot = Slot(kind: bv8, number: bv8, name: seq<bv8>, secret: seq<bv8>, config: bv8, tokenId: seq<bv8>,
          interval: bv64) {
    predicate Valid() {
      |name| == 15 && |secret| == SECRET_LENGTH && |tokenId| == 13
    }
  }

  function Packed(s: Slot): (b: seq<bv8>)
    requires s.Valid()
    ensures |b| == SLOT_BYTES
  {
    [s.kind, s.number] + s.name + s.secret + [s.config] + s.tokenId + DwordBytes(s.interval)
  }

  function Unpacked(b: seq<bv8>): (s: Slot)
    requires |b| == SLOT_BYTES
    ensures s.Valid()
  {
    Slot(b[0], b[1], b[2..17], b[17..57], b[57], b[58..71], Dword(b[71..79]))
  }

  lemma {:induction false} UnpackedPacked(s: Slot)
    requires s.Valid()
    ensures Unpacked(Packed(s)) == s
  {
  }

  // ----- where the records lie

  /** get_slot_offset: numbers whose record would not fit fall back to the first record. */
  function SlotOffset(n: nat): (o: nat)
    ensures o + SLOT_BYTES <= SLOTS_SIZE && 64 <= o
  {
    var o := SLOT_BYTES * n + 64;
    if o > 2 * PAGE_SIZE + SLOT_PAGE_SIZE - SLOT_BYTES then 64 else o
  }

  /** Two numbers share bytes exactly when they are equal, or both fall to the first record. */
  lemma {:induction false} SlotsOverlap(m: nat, n: nat)
    ensures (SlotOffset(m) + SLOT_BYTES <= SlotOffset(n) || SlotOffset(n) + SLOT_BYTES <= SlotOffset(m))
       <==> !(m == n || ((m == 0 || m > 17) && (n == 0 || n > 17)))
  {
  }

  function SlotAt(f: Image, n: nat): (s: Slot)
    requires f.Valid()
    ensures s.Valid()
  {
    Unpacked(Region(f, SLOTS_ADDRESS + SlotOffset(n), SLOT_BYTES))
  }

  // ----- rewriting the slot pages

  /** The three pages are saved to the backup pages, written, and the save is marked as done. */
  function SlotsRewritten(f: Image, pages: seq<bv8>): (g: Image)
    requires f.Valid() && |pages| == SLOTS_SIZE
    ensures g.Valid()
  {
    Store(Store(BackedUp(f, pages), SLOTS_ADDRESS, pages, true), BACKUP_ADDRESS + BACKUP_OK_OFFSET, [0x4F, 0x4B], true)
  }

  function BackedUp(f: Image, pages: seq<bv8>): (g: Image)
    requires f.Valid() && |pages| == SLOTS_SIZE
    ensures g.Valid()
  {
    var f1 := Store(f, BACKUP_ADDRESS, Fill(0xFF, PAGE_SIZE), true);
    var f2 := Store(f1, BACKUP_ADDRESS, pages, true);
    var f3 := Store(f2, BACKUP_ADDRESS + BACKUP_LENGTH_OFFSET, BigEndian(SLOTS_SIZE, 2), false);
    Store(f3, BACKUP_ADDRESS + BACKUP_ADDRESS_OFFSET, BigEndian(FLASH_START + SLOTS_ADDRESS, 4), false)
  }


  lemma {:induction false} BackedUpElsewhere(f: Image, pages: seq<bv8>, a: nat, n: nat)
    requires f.Valid() && |pages| == SLOTS_SIZE && a + n <= FLASH_SIZE && OutsideBackup(a, n)
    ensures Region(BackedUp(f, pages), a, n) == Region(f, a, n)
  {
    hide Store, Region, BigEndian;
    var f1 := Store(f, BACKUP_ADDRESS, Fill(0xFF, PAGE_SIZE), true);
    StoreOutside(f, a, n, BACKUP_ADDRESS, Fill(0xFF, PAGE_SIZE), true);
    var f2 := Store(f1, BACKUP_ADDRESS, pages, true);
    StoreOutside(f1, a, n, BACKUP_ADDRESS, pages, true);
    var len := BigEndian(SLOTS_SIZE, 2);
    var f3 := Store(f2, BACKUP_ADDRESS + BACKUP_LENGTH_OFFSET, len, false);
    StoreOutside(f2, a, n, BACKUP_ADDRESS + BACKUP_LENGTH_OFFSET, len, false);
    StoreOutside(f3, a, n, BACKUP_ADDRESS + BACKUP_ADDRESS_OFFSET, BigEndian(FLASH_START + SLOTS_ADDRESS, 4), false);
  }

  lemma {:induction false} RewrittenSlots(f: Image, pages: seq<bv8>)
    requires f.Valid() && |pages| == SLOTS_SIZE
    ensures Region(SlotsRewritten(f, pages), SLOTS_ADDRESS, SLOTS_SIZE) == pages
  {
    hide Store, Region, BackedUp;
    var f1 := BackedUp(f, pages);
    StoreInside(f1, SLOTS_ADDRESS, SLOTS_SIZE, 0, pages, true);
    SpliceWhole(Region(f1, SLOTS_ADDRESS, SLOTS_SIZE), pages);
    StoreOutside(Store(f1, SLOTS_ADDRESS, pages, true), SLOTS_ADDRESS, SLOTS_SIZE,
                 BACKUP_ADDRESS + BACKUP_OK_OFFSET, [0x4F, 0x4B], true);
  }

  lemma {:induction false} RewrittenElsewhere(f: Image, pages: seq<bv8>, a: nat, n: nat)
    requires f.Valid() && |pages| == SLOTS_SIZE && a + n <= FLASH_SIZE && OutsideBackup(a, n)
    requires a + n <= SLOTS_ADDRESS || SLOTS_ADDRESS + SLOTS_SIZE <= a
    ensures Region(SlotsRewritten(f, pages), a, n) == Region(f, a, n)
  {
    hide Store, Region, BackedUp;
    var f1 := BackedUp(f, pages);
    BackedUpElsewhere(f, pages, a, n);
    StoreOutside(f1, a, n, SLOTS_ADDRESS, pages, true);
    StoreOutside(Store(f1, SLOTS_ADDRESS, pages, true), a, n, BACKUP_ADDRESS + BACKUP_OK_OFFSET, [0x4F, 0x4B], true);
  }

  method BackupData(flash: Flash, pages: seq<bv8>)
    requires flash.Valid() && |pages| == SLOTS_SIZE
    modifies flash
    ensures flash.Valid() && flash.State() == BackedUp(old(flash.State()), pages)
  {
    hide BigEndian, Store;
    flash.Memset8(BACKUP_ADDRESS, 0xFF, PAGE_SIZE, true);
    flash.Memcpy(BACKUP_ADDRESS, pages, true);
    flash.Memcpy(BACKUP_ADDRESS + BACKUP_LENGTH_OFFSET, BigEndian(SLOTS_SIZE, 2), false);
    flash.Memcpy(BACKUP_ADDRESS + BACKUP_ADDRESS_OFFSET, BigEndian(FLASH_START + SLOTS_ADDRESS, 4), false);
  }

  method RewriteSlots(flash: Flash, pages: seq<bv8>)
    requires flash.Valid() && |pages| == SLOTS_SIZE
    modifies flash
    ensures flash.Valid() && flash.State() == SlotsRewritten(old(flash.State()), pages)
  {
    hide Store, BackedUp;
    BackupData(flash, pages);
    flash.Memcpy(SLOTS_ADDRESS, pages, true);
    flash.Memcpy(BACKUP_ADDRESS + BACKUP_OK_OFFSET, [0x4F, 0x4B], true);
  }

  // ----- write_to_slot

  /** An all-zero secret stands for the old one. */
  function Kept(s: Slot, oldSecret: seq<bv8>): (r: Slot)
    requires s.Valid() && |oldSecret| == SECRET_LENGTH
    ensures r.Valid()
  {
    if s.secret == Fill(0, SECRET_LENGTH) then s.(secret := oldSecret) else s
  }

  function SlotsWith(f: Image, o: nat, s: Slot): (pages: seq<bv8>)
    requires f.Valid() && s.Valid() && o + SLOT_BYTES <= SLOTS_SIZE
    ensures |pages| == SLOTS_SIZE
  {
    Splice(Region(f, SLOTS_ADDRESS, SLOTS_SIZE), o, Packed(s))
  }

  function SlotWritten(f: Image, o: nat, s: Slot): (g: Image)
    requires f.Valid() && s.Valid() && o + SLOT_BYTES <= SLOTS_SIZE
    ensures g.Valid()
  {
    SlotsRewritten(f, SlotsWith(f, o, s))
  }

  lemma {:induction false} RegionInside(f: Image, a: nat, n: nat, o: nat, k: nat)
    requires a + n <= |f.cells| && o + k <= n
    ensures Region(f, a + o, k) == Region(f, a, n)[o..o + k]
  {
  }

  lemma {:induction false} SecretInPages(f: Image, o: nat)
    requires f.Valid() && o + SLOT_BYTES <= SLOTS_SIZE
    ensures Region(f, SLOTS_ADDRESS, SLOTS_SIZE)[o + 17..o + 57]
         == Unpacked(Region(f, SLOTS_ADDRESS + o, SLOT_BYTES)).secret
  {
    hide Region, Dword;
    RegionInside(f, SLOTS_ADDRESS, SLOTS_SIZE, o, SLOT_BYTES);
    var pages := Region(f, SLOTS_ADDRESS, SLOTS_SIZE);
    assert pages[o..o + SLOT_BYTES][17..57] == pages[o + 17..o + 57];
  }

  method IsEmptySecret(secret: seq<bv8>) returns (empty: bool)
    requires |secret| == SECRET_LENGTH
    ensures empty == (secret == Fill(0, SECRET_LENGTH))
  {
    for i := 0 to SECRET_LENGTH
      invariant secret[..i] == Fill(0, i)
    {
      if 0 != secret[i] {
        assert secret[i] != Fill(0, SECRET_LENGTH)[i];
        return false;
      }
    }
    assert secret[..SECRET_LENGTH] == secret;
    return true;
  }

  /** write_to_slot: the record that was written is also what the caller's buffer holds afterwards. */
  method WriteToSlot(flash: Flash, data: Slot, o: nat) returns (written: Slot)
    requires flash.Valid() && data.Valid() && o + SLOT_BYTES <= SLOTS_SIZE
    modifies flash
    ensures written == Kept(data, Unpacked(Region(old(flash.State()), SLOTS_ADDRESS + o, SLOT_BYTES)).secret)
    ensures flash.Valid() && written.Valid() && flash.State() == SlotWritten(old(flash.State()), o, written)
  {
    hide Packed, Dword, SlotsRewritten, Splice;
    var pageBuffer := flash.cells[SLOTS_ADDRESS..SLOTS_ADDRESS + SLOTS_SIZE];
    var bufferSecret := pageBuffer[o + 17..o + 57];
    SecretInPages(flash.State(), o);
    written := data;
    var empty := IsEmptySecret(data.secret);
    if empty {
      written := written.(secret := bufferSecret);
    }
    pageBuffer := Splice(pageBuffer, o, Packed(written));
    RewriteSlots(flash, pageBuffer);
  }

  /** The record reads back, the other records and the global configuration keep their bytes. */
  lemma {:induction false} SlotReadsBack(f: Image, o: nat, s: Slot)
    requires f.Valid() && s.Valid() && o + SLOT_BYTES <= SLOTS_SIZE
    ensures Unpacked(Region(SlotWritten(f, o, s), SLOTS_ADDRESS + o, SLOT_BYTES)) == s
  {
    hide SlotsRewritten, Region, Packed, Unpacked, Splice;
    var pages := SlotsWith(f, o, s);
    RewrittenSlots(f, pages);
    RegionInside(SlotWritten(f, o, s), SLOTS_ADDRESS, SLOTS_SIZE, o, SLOT_BYTES);
    SpliceRange(Region(f, SLOTS_ADDRESS, SLOTS_SIZE), o, Packed(s));
    UnpackedPacked(s);
  }

  lemma {:induction false} SlotsElsewhere(f: Image, o: nat, s: Slot, a: nat, n: nat)
    requires f.Valid() && s.Valid() && o + SLOT_BYTES <= SLOTS_SIZE
    requires a + n <= SLOTS_SIZE && (a + n <= o || o + SLOT_BYTES <= a)
    ensures Region(SlotWritten(f, o, s), SLOTS_ADDRESS + a, n) == Region(f, SLOTS_ADDRESS + a, n)
  {
    hide SlotsRewritten, Region, Packed, Splice;
    var pages := SlotsWith(f, o, s);
    RewrittenSlots(f, pages);
    RegionInside(SlotWritten(f, o, s), SLOTS_ADDRESS, SLOTS_SIZE, a, n);
    RegionInside(f, SLOTS_ADDRESS, SLOTS_SIZE, a, n);
    SpliceOutside(Region(f, SLOTS_ADDRESS, SLOTS_SIZE), o, Packed(s), a, n);
  }
}
