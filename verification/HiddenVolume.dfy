/** The hidden-volume slots: four records behind a per-slot cipher, a checksum, and one cipher over all of them. */
module HiddenVolume {
  import opened Bytes
  import opened FlashMemory
  import Crc

  const HV_FLASH_START_PAGE := 497
  const HV_SALT_START := PAGE_SIZE * HV_FLASH_START_PAGE + 4
  const HV_SALT_SIZE := 32
  const HV_SLOT_START := HV_SALT_START + HV_SALT_SIZE
  const HV_SLOT_SIZE := 64
  const HV_SLOT_COUNT := 4
  const HV_SLOTS_SIZE := HV_SLOT_SIZE * HV_SLOT_COUNT
  const KEY_SIZE := 32
  const RECORD_SIZE := 44
  const STATUS_OK := 1
  const STATUS_WRONG_PASSWORD := 2
  const STATUS_NO_USER_PASSWORD_UNLOCK := 3

  // ----- ciphers, card and key derivation

  /** The foreign code: the cipher over the slot area, the cipher of one slot, the card's decryption of the
      slots key, and the key derivation from a password and the salt. */
  datatype Foreign = Foreign(
    encryptArea: (seq<bv8>, seq<bv8>) -> seq<bv8>,
    decryptArea: (seq<bv8>, seq<bv8>) -> seq<bv8>,
    encryptSlot: (seq<bv8>, nat, seq<bv8>) -> seq<bv8>,
    decryptSlot: (seq<bv8>, nat, seq<bv8>) -> seq<bv8>,
    cardDecrypt: seq<bv8> -> seq<bv8>,
    deriveKey: (seq<bv8>, seq<bv8>) -> seq<bv8>)
  {
    /** All that is asked of the ciphers: on whole blocks, lengths are kept and decryption undoes encryption. */
    ghost predicate Valid() {
      && (forall k, x :: |x| % 16 == 0 ==> |encryptArea(k, x)| == |x| && |decryptArea(k, x)| == |x|)
      && (forall k, x :: |x| % 16 == 0 ==> decryptArea(k, encryptArea(k, x)) == x)
      && (forall k, n, x :: |x| == HV_SLOT_SIZE ==> |encryptSlot(k, n, x)| == |x| && |decryptSlot(k, n, x)| == |x|)
      && (forall k, n, x :: |x| == HV_SLOT_SIZE ==> decryptSlot(k, n, encryptSlot(k, n, x)) == x)
    }
  }

  lemma {:induction false} AreaCipher(e: Foreign, key: seq<bv8>, x: seq<bv8>)
    requires e.Valid() && (|x| == HV_SALT_SIZE || |x| == HV_SLOTS_SIZE)
    ensures |e.encryptArea(key, x)| == |x| && |e.decryptArea(key, x)| == |x|
    ensures e.decryptArea(key, e.encryptArea(key, x)) == x
  {
  }

  lemma {:induction false} SlotCipher(e: Foreign, key: seq<bv8>, n: nat, x: seq<bv8>)
    requires e.Valid() && |x| == HV_SLOT_SIZE
    ensures |e.encryptSlot(key, n, x)| == |x| && |e.decryptSlot(key, n, x)| == |x|
    ensures e.decryptSlot(key, n, e.encryptSlot(key, n, x)) == x
  {
  }

  // ----- records

  datatype Record = Record(aesKey: seq<bv8>, startBlock: bv32, endBlock: bv32, crc: bv32) {
    predicate Valid() {
      |aesKey| == KEY_SIZE
    }
  }

  /** The record as it lies in memory. */
  function RecordBytes(r: Record): (b: seq<bv8>)
    requires r.Valid()
    ensures |b| == RECORD_SIZE
  {
    r.aesKey + WordBytes(r.startBlock) + WordBytes(r.endBlock) + WordBytes(r.crc)
  }

  function RecordIn(b: seq<bv8>): (r: Record)
    requires |b| >= RECORD_SIZE
    ensures r.Valid()
  {
    Record(b[..32], WordAt(b, 32), WordAt(b, 36), WordAt(b, 40))
  }

  lemma {:induction false} RecordRoundTrip(r: Record, pad: seq<bv8>)
    requires r.Valid()
    ensures RecordIn(RecordBytes(r) + pad) == r
  {
  }

  /** The 44 bytes: key, start block, end block, checksum. */
  lemma {:induction false} RecordLayout(r: Record)
    requires r.Valid()
    ensures var b := RecordBytes(r);
            b[..32] == r.aesKey && b[32..36] == WordBytes(r.startBlock) && b[36..40] == WordBytes(r.endBlock)
            && b[40..] == WordBytes(r.crc)
  {
    hide WordBytes;
  }

  /** The checksum covers everything but itself. */
  function Checksum(r: Record): bv32
    requires r.Valid()
  {
    Crc.CrcOf(RecordBytes(r), 10)
  }

  function WithChecksum(r: Record): (s: Record)
    requires r.Valid()
    ensures s.Valid()
  {
    r.(crc := Checksum(r))
  }

  lemma {:induction false} ChecksumIgnoresItself(r: Record, crc: bv32)
    requires r.Valid()
    ensures Checksum(r.(crc := crc)) == Checksum(r)
  {
    hide WordBytes;
    SameWords(RecordBytes(r.(crc := crc)), RecordBytes(r), 10);
  }

  lemma {:induction false} SameWords(a: seq<bv8>, b: seq<bv8>, n: nat)
    requires |a| == |b| == RECORD_SIZE && n <= 10 && a[..40] == b[..40]
    ensures Crc.CrcOf(a, n) == Crc.CrcOf(b, n)
  {
    hide Crc.WordCrc, LittleWord;
    if n > 0 {
      SameWords(a, b, n - 1);
      var k := 4 * (n - 1);
      SliceOfPrefix(a, 40, k, k + 4);
      SliceOfPrefix(b, 40, k, k + 4);
    }
  }

  /** The records have the same checksum field and differ within exactly one of the ten words before it: one of the
      eight words of the key, the start block or the end block. */
  ghost predicate DifferInWord(r: Record, s: Record, k: nat)
    requires r.Valid() && s.Valid()
  {
    k < 10 && r != s && r.crc == s.crc && Crc.DifferOnlyIn(RecordBytes(r), RecordBytes(s), k)
  }

  /** Such records cannot both pass their checksum. */
  lemma {:induction false} OneWordIsDetected(r: Record, s: Record, k: nat)
    requires r.Valid() && s.Valid() && DifferInWord(r, s, k) && r.crc == Checksum(r)
    ensures s.crc != Checksum(s)
  {
    hide Crc.CrcOf, RecordIn, RecordBytes, Crc.DifferOnlyIn;
    RecordRoundTrip(r, []);
    RecordRoundTrip(s, []);
    assert RecordBytes(r) + [] == RecordBytes(r) && RecordBytes(s) + [] == RecordBytes(s);
    Crc.SingleWordDetected(RecordBytes(r), RecordBytes(s), 10, k);
  }

  /** A changed start block or end block is a change of one word, and so is a change within an aligned word of the
      key. */
  lemma {:induction false} BlocksAreWords(r: Record, block: bv32)
    requires r.Valid()
    ensures block != r.startBlock ==> DifferInWord(r, r.(startBlock := block), 8)
    ensures block != r.endBlock ==> DifferInWord(r, r.(endBlock := block), 9)
  {
    hide WordBytes;
  }

  lemma {:induction false} KeyWordsAreWords(r: Record, k: nat, word: seq<bv8>)
    requires r.Valid() && k < 8 && |word| == 4 && word != r.aesKey[4 * k..4 * k + 4]
    ensures DifferInWord(r, r.(aesKey := Splice(r.aesKey, 4 * k, word)), k)
  {
    hide WordBytes;
    var (was, now) := (RecordBytes(r), RecordBytes(r.(aesKey := Splice(r.aesKey, 4 * k, word))));
    SpliceRange(r.aesKey, 4 * k, word);
    forall i: nat | i < |was| && (i < 4 * k || 4 * k + 4 <= i)
      ensures was[i] == now[i]
    {
      if i < 32 {
        assert was[i] == r.aesKey[i] && now[i] == Splice(r.aesKey, 4 * k, word)[i];
      } else {
        assert was[i] == was[32..][i - 32] && now[i] == now[32..][i - 32];
      }
    }
  }

  // ----- what the flash says

  function Salt(e: Foreign, key: seq<bv8>, f: Image): (s: seq<bv8>)
    requires f.Valid()
  {
    e.decryptArea(key, Region(f, HV_SALT_START, HV_SALT_SIZE))
  }

  function Slots(e: Foreign, key: seq<bv8>, f: Image): (s: seq<bv8>)
    requires e.Valid() && f.Valid()
    ensures |s| == HV_SLOTS_SIZE
  {
    e.decryptArea(key, Region(f, HV_SLOT_START, HV_SLOTS_SIZE))
  }

  function SlotOf(slots: seq<bv8>, n: nat): (s: seq<bv8>)
    requires |slots| == HV_SLOTS_SIZE && n < HV_SLOT_COUNT
    ensures |s| == HV_SLOT_SIZE
  {
    slots[HV_SLOT_SIZE * n..HV_SLOT_SIZE * (n + 1)]
  }

  /** The record that slot n holds under a slot key. */
  ghost function Opened(e: Foreign, key: seq<bv8>, f: Image, n: nat, slotKey: seq<bv8>): (r: Record)
    requires e.Valid() && f.Valid() && n < HV_SLOT_COUNT
    ensures r.Valid()
  {
    RecordIn(e.decryptSlot(slotKey, n, SlotOf(Slots(e, key, f), n)))
  }

  ghost predicate Passes(e: Foreign, key: seq<bv8>, f: Image, n: nat, slotKey: seq<bv8>)
    requires e.Valid() && f.Valid() && n < HV_SLOT_COUNT
  {
    Opened(e, key, f, n, slotKey).crc == Checksum(Opened(e, key, f, n, slotKey))
  }

  /** The slot area after a write. */
  ghost function Rewritten(e: Foreign, key: seq<bv8>, f: Image, slots: seq<bv8>, n: nat, r: Record,
          slotKey: seq<bv8>, noise: seq<bv8>): (g: Image)
    requires e.Valid() && f.Valid() && |slots| == HV_SLOTS_SIZE && n < HV_SLOT_COUNT && r.Valid() && |noise| == HV_SLOT_SIZE
    ensures g.Valid()
  {
    var sealed := e.encryptSlot(slotKey, n, RecordBytes(WithChecksum(r)) + noise[RECORD_SIZE..]);
    Store(f, HV_SLOT_START, e.encryptArea(key, Splice(slots, HV_SLOT_SIZE * n, sealed)), true)
  }

  /** A slot that passed is refused after any change of one word of its key, start block or end block. */
  lemma {:induction false} DamageIsRefused(e: Foreign, key: seq<bv8>, f: Image, g: Image, n: nat, slotKey: seq<bv8>, k: nat)
    requires e.Valid() && f.Valid() && g.Valid() && n < HV_SLOT_COUNT && Passes(e, key, f, n, slotKey)
    requires DifferInWord(Opened(e, key, f, n, slotKey), Opened(e, key, g, n, slotKey), k)
    ensures !Passes(e, key, g, n, slotKey)
    ensures forall keys: seq<seq<bv8>>, r :: |keys| == 4 && keys[n] == key ==> !Found(e, keys, g, slotKey, n, r)
  {
    hide Opened, Checksum, DifferInWord, NonePasses;
    OneWordIsDetected(Opened(e, key, f, n, slotKey), Opened(e, key, g, n, slotKey), k);
  }

  // ----- write, then read

  lemma {:induction false} SlotsAfterWrite(e: Foreign, key: seq<bv8>, f: Image, n: nat, r: Record, slotKey: seq<bv8>,
          noise: seq<bv8>)
    requires e.Valid() && f.Valid() && n < HV_SLOT_COUNT && r.Valid() && |noise| == HV_SLOT_SIZE
    ensures var g := Rewritten(e, key, f, Slots(e, key, f), n, r, slotKey, noise);
            var sealed := e.encryptSlot(slotKey, n, RecordBytes(WithChecksum(r)) + noise[RECORD_SIZE..]);
            |sealed| == HV_SLOT_SIZE && Slots(e, key, g) == Splice(Slots(e, key, f), HV_SLOT_SIZE * n, sealed)
  {
  }

  lemma {:induction false} SaltAfterWrite(e: Foreign, key: seq<bv8>, f: Image, n: nat, r: Record, slotKey: seq<bv8>,
          noise: seq<bv8>)
    requires e.Valid() && f.Valid() && n < HV_SLOT_COUNT && r.Valid() && |noise| == HV_SLOT_SIZE
    ensures Salt(e, key, Rewritten(e, key, f, Slots(e, key, f), n, r, slotKey, noise)) == Salt(e, key, f)
  {
    hide Slots, RecordBytes, Checksum, Splice, Region, Store;
    var sealed := e.encryptSlot(slotKey, n, RecordBytes(WithChecksum(r)) + noise[RECORD_SIZE..]);
    var cipher := e.encryptArea(key, Splice(Slots(e, key, f), HV_SLOT_SIZE * n, sealed));
    StoreOutside(f, HV_SALT_START, HV_SALT_SIZE, HV_SLOT_START, cipher, true);
  }

  /** A write touches the 256 bytes of the slot area alone. */
  lemma {:induction false} RewrittenElsewhere(e: Foreign, key: seq<bv8>, f: Image, slots: seq<bv8>, n: nat, r: Record,
          slotKey: seq<bv8>, noise: seq<bv8>, a: nat, len: nat)
    requires e.Valid() && f.Valid() && |slots| == HV_SLOTS_SIZE && n < HV_SLOT_COUNT && r.Valid() && |noise| == HV_SLOT_SIZE
    requires a + len <= FLASH_SIZE && (a + len <= 497 * 512 + 36 || 497 * 512 + 292 <= a)
    ensures Region(Rewritten(e, key, f, slots, n, r, slotKey, noise), a, len) == Region(f, a, len)
  {
    hide RecordBytes, Checksum, Splice, Region, Store;
    var sealed := e.encryptSlot(slotKey, n, RecordBytes(WithChecksum(r)) + noise[RECORD_SIZE..]);
    StoreOutside(f, a, len, HV_SLOT_START, e.encryptArea(key, Splice(slots, HV_SLOT_SIZE * n, sealed)), true);
  }

  /** Reading a written slot with the same number and key returns the record, and its checksum passes. */
  lemma {:induction false} WrittenReadsBack(e: Foreign, key: seq<bv8>, f: Image, n: nat, r: Record,
          slotKey: seq<bv8>, noise: seq<bv8>)
    requires e.Valid() && f.Valid() && n < HV_SLOT_COUNT && r.Valid() && |noise| == HV_SLOT_SIZE
    ensures var g := Rewritten(e, key, f, Slots(e, key, f), n, r, slotKey, noise);
            Opened(e, key, g, n, slotKey) == WithChecksum(r) && Passes(e, key, g, n, slotKey)
  {
    hide Slots, Rewritten, RecordBytes, Checksum, Splice;
    SlotsAfterWrite(e, key, f, n, r, slotKey, noise);
    SpliceRange(Slots(e, key, f), HV_SLOT_SIZE * n,
                e.encryptSlot(slotKey, n, RecordBytes(WithChecksum(r)) + noise[RECORD_SIZE..]));
    RecordRoundTrip(WithChecksum(r), noise[RECORD_SIZE..]);
    ChecksumIgnoresItself(r, Checksum(r));
  }

  lemma {:induction false} OtherSlotStays(slots: seq<bv8>, n: nat, x: seq<bv8>, m: nat)
    requires |slots| == HV_SLOTS_SIZE && |x| == HV_SLOT_SIZE && n < HV_SLOT_COUNT && m < HV_SLOT_COUNT && m != n
    ensures SlotOf(Splice(slots, HV_SLOT_SIZE * n, x), m) == SlotOf(slots, m)
  {
  }

  /** The decrypted contents of the other slots, and the salt, are unchanged. */
  lemma {:induction false} WriteKeepsOthers(e: Foreign, key: seq<bv8>, f: Image, n: nat, r: Record,
          slotKey: seq<bv8>, noise: seq<bv8>, m: nat)
    requires e.Valid() && f.Valid() && n < HV_SLOT_COUNT && r.Valid() && |noise| == HV_SLOT_SIZE
    requires m < HV_SLOT_COUNT && m != n
    ensures var g := Rewritten(e, key, f, Slots(e, key, f), n, r, slotKey, noise);
            && SlotOf(Slots(e, key, g), m) == SlotOf(Slots(e, key, f), m)
            && Salt(e, key, g) == Salt(e, key, f)
  {
    hide Slots, Rewritten, Salt, SlotOf, Splice, RecordBytes, WithChecksum, Foreign.Valid;
    SlotsAfterWrite(e, key, f, n, r, slotKey, noise);
    SaltAfterWrite(e, key, f, n, r, slotKey, noise);
    OtherSlotStays(Slots(e, key, f), n, e.encryptSlot(slotKey, n, RecordBytes(WithChecksum(r)) + noise[RECORD_SIZE..]), m);
  }

  // ----- any number of writes

  datatype Write = Write(n: nat, r: Record, slotKey: seq<bv8>, noise: seq<bv8>) {
    predicate Valid() {
      n < HV_SLOT_COUNT && r.Valid() && |noise| == HV_SLOT_SIZE
    }
  }

  ghost function AfterWrites(e: Foreign, key: seq<bv8>, f: Image, ws: seq<Write>): (g: Image)
    requires e.Valid() && f.Valid() && forall i :: 0 <= i < |ws| ==> ws[i].Valid()
    ensures g.Valid()
  {
    if ws == [] then f else
      var g := AfterWrites(e, key, f, ws[..|ws| - 1]);
      var w := ws[|ws| - 1];
      assert w.Valid();
      Rewritten(e, key, g, Slots(e, key, g), w.n, w.r, w.slotKey, w.noise)
  }

  /** After any writes, each slot opens, under the key of its last write, to the record of that write. */
  lemma {:induction false} LastWriteStays(e: Foreign, key: seq<bv8>, f: Image, ws: seq<Write>, i: nat)
    requires e.Valid() && f.Valid() && i < |ws| && forall j :: 0 <= j < |ws| ==> ws[j].Valid()
    requires forall j :: i < j < |ws| ==> ws[j].n != ws[i].n
    ensures var g := AfterWrites(e, key, f, ws);
            && Opened(e, key, g, ws[i].n, ws[i].slotKey) == WithChecksum(ws[i].r)
            && Passes(e, key, g, ws[i].n, ws[i].slotKey)
            && Salt(e, key, g) == Salt(e, key, f)
    decreases |ws|
  {
    hide Slots, Rewritten, Checksum, Salt, SlotOf, RecordIn, WithChecksum, Foreign.Valid;
    var before := ws[..|ws| - 1];
    var g := AfterWrites(e, key, f, before);
    var w := ws[|ws| - 1];
    assert w.Valid();
    SaltStays(e, key, f, ws);
    if i == |ws| - 1 {
      WrittenReadsBack(e, key, g, w.n, w.r, w.slotKey, w.noise);
    } else {
      LastWriteStays(e, key, f, before, i);
      WriteKeepsOthers(e, key, g, w.n, w.r, w.slotKey, w.noise, ws[i].n);
    }
  }

  lemma {:induction false} SaltStays(e: Foreign, key: seq<bv8>, f: Image, ws: seq<Write>)
    requires e.Valid() && f.Valid() && forall j :: 0 <= j < |ws| ==> ws[j].Valid()
    ensures Salt(e, key, AfterWrites(e, key, f, ws)) == Salt(e, key, f)
    decreases |ws|
  {
    hide Slots, Rewritten, Salt;
    if ws != [] {
      var before := ws[..|ws| - 1];
      var w := ws[|ws| - 1];
      assert w.Valid();
      SaltStays(e, key, f, before);
      SaltAfterWrite(e, key, AfterWrites(e, key, f, before), w.n, w.r, w.slotKey, w.noise);
    }
  }

  // ----- the static state and its operations

  class HiddenVolumes {
    const flash: Flash
    const foreign: Foreign
    /** The slots key as the flash keeps it, encrypted for the card. */
    const storedKey: seq<bv8>
    var active: bool
    var slotsKey: seq<bv8>
    var slotsData: seq<bv8>
    var buffer: seq<bv8>

    ghost predicate Valid()
      reads this, flash
    {
      && flash.Valid() && foreign.Valid()
      && |slotsData| == HV_SALT_SIZE + HV_SLOTS_SIZE && |buffer| == HV_SLOT_SIZE
    }

    /** The area keys under which the four slots are read, one after the other. */
    function KeysAfter(answers: seq<bool>): (keys: seq<seq<bv8>>)
      requires |answers| == 4
      ensures |keys| == 4
    {
      [KeyAfter(answers[0]), KeyAfter(answers[1]), KeyAfter(answers[2]), KeyAfter(answers[3])]
    }

    /** The area key after asking the card; an unanswered request leaves the encrypted key in its place. */
    function KeyAfter(answers: bool): seq<bv8> {
      if answers then foreign.cardDecrypt(storedKey) else storedKey
    }

    constructor (flash: Flash, foreign: Foreign, storedKey: seq<bv8>)
      requires flash.Valid() && foreign.Valid()
      ensures Valid() && !active && this.flash == flash && this.foreign == foreign && this.storedKey == storedKey
    {
      this.flash := flash;
      this.foreign := foreign;
      this.storedKey := storedKey;
      active := false;
      slotsKey := Fill(0, KEY_SIZE);
      slotsData := Fill(0, HV_SALT_SIZE + HV_SLOTS_SIZE);
      buffer := Fill(0, HV_SLOT_SIZE);
    }

    /** DecryptedHiddenVolumeSlotsData; answers says whether the card is present and decrypts the key. */
    method DecryptSlotsData(answers: bool) returns (ok: bool)
      requires Valid()
      modifies `active, `slotsKey, `slotsData
      ensures Valid() && ok == active
      ensures old(active) ==> active && slotsKey == old(slotsKey) && slotsData == old(slotsData)
      ensures !old(active) ==> active == answers && slotsKey == KeyAfter(answers)
      ensures !old(active) && answers ==>
                slotsData == Salt(foreign, slotsKey, flash.State()) + Slots(foreign, slotsKey, flash.State())
      ensures !old(active) && !answers ==> slotsData == old(slotsData)
    {
      if active {
        return true;
      }
      slotsKey := storedKey;
      if !answers {
        return false;
      }
      hide Foreign.Valid;
      slotsKey := foreign.cardDecrypt(slotsKey);
      slotsData := flash.cells[HV_SALT_START..HV_SALT_START + HV_SALT_SIZE + HV_SLOTS_SIZE];
      var salt := foreign.decryptArea(slotsKey, slotsData[..HV_SALT_SIZE]);
      assert slotsData[..HV_SALT_SIZE] == Region(flash.State(), HV_SALT_START, HV_SALT_SIZE);
      AreaCipher(foreign, slotsKey, slotsData[..HV_SALT_SIZE]);
      AreaCipher(foreign, slotsKey, slotsData[HV_SALT_SIZE..]);
      var slots := foreign.decryptArea(slotsKey, slotsData[HV_SALT_SIZE..]);
      assert slotsData[HV_SALT_SIZE..] == Region(flash.State(), HV_SLOT_START, HV_SLOTS_SIZE);
      slotsData := salt + slots;
      active := true;
      return true;
    }

    /** HV_ReadSlot_u8 */
    method ReadSlot(n: nat, slotKey: seq<bv8>, answers: bool) returns (ok: bool, r: Record)
      requires Valid() && n < HV_SLOT_COUNT
      modifies this
      ensures Valid()
      ensures !old(active) ==> !ok && !active
      ensures old(active) ==> active == answers && slotsKey == KeyAfter(answers)
      ensures old(active) ==> r == Opened(foreign, slotsKey, flash.State(), n, slotKey)
      ensures old(active) ==> ok == Passes(foreign, slotsKey, flash.State(), n, slotKey)
      ensures old(active) && answers ==> slotsData[..HV_SALT_SIZE] == Salt(foreign, slotsKey, flash.State())
    {
      hide Checksum, RecordBytes, RecordIn, Region, Salt, Slots, SlotOf, Foreign.Valid;
      r := Record(Fill(0, KEY_SIZE), 0, 0, 0);
      if !active {
        return false, r;
      }
      active := false;
      var decrypted := DecryptSlotsData(answers);
      ReloadSlots();
      r := OpenSlot(n, slotKey);
      var crc := RecordCrc(r);
      return crc == r.crc, r;
    }

    /** One of the decrypted slots, decrypted in the buffer. */
    method OpenSlot(n: nat, slotKey: seq<bv8>) returns (r: Record)
      requires Valid() && n < HV_SLOT_COUNT
      modifies `buffer
      ensures Valid() && r.Valid() && r == RecordIn(foreign.decryptSlot(slotKey, n, SlotOf(slotsData[HV_SALT_SIZE..], n)))
    {
      hide RecordIn, Foreign.Valid;
      buffer := slotsData[HV_SALT_SIZE + n * HV_SLOT_SIZE..HV_SALT_SIZE + (n + 1) * HV_SLOT_SIZE];
      SliceOfSuffix(slotsData, HV_SALT_SIZE, HV_SLOT_SIZE * n, HV_SLOT_SIZE * (n + 1));
      SlotCipher(foreign, slotKey, n, buffer);
      buffer := foreign.decryptSlot(slotKey, n, buffer);
      r := RecordIn(buffer);
    }

    /** The slots are copied from the flash once more and decrypted in place. */
    method ReloadSlots()
      requires Valid()
      modifies `slotsData
      ensures Valid()
      ensures slotsData[HV_SALT_SIZE..] == Slots(foreign, slotsKey, flash.State())
      ensures slotsData[..HV_SALT_SIZE] == old(slotsData[..HV_SALT_SIZE])
    {
      hide Foreign.Valid;
      var cipher := flash.cells[HV_SLOT_START..HV_SLOT_START + HV_SLOTS_SIZE];
      assert cipher == Region(flash.State(), HV_SLOT_START, HV_SLOTS_SIZE);
      AreaCipher(foreign, slotsKey, cipher);
      slotsData := slotsData[..HV_SALT_SIZE] + foreign.decryptArea(slotsKey, cipher);
    }

    static method RecordCrc(r: Record) returns (crc: bv32)
      requires r.Valid()
      ensures crc == Checksum(r)
    {
      hide RecordBytes;
      crc := Crc.GenerateCrcLen(RecordBytes(r), 10);
    }

    /** HV_WriteSlot_u8; noise is what the random generator leaves in the buffer. */
    method WriteSlot(n: nat, r: Record, slotKey: seq<bv8>, noise: seq<bv8>, answers: bool)
        returns (ok: bool, written: Record)
      requires Valid() && n < HV_SLOT_COUNT && r.Valid() && |noise| == HV_SLOT_SIZE
      modifies this, flash
      ensures Valid() && ok == old(active)
      ensures !ok ==> flash.State() == old(flash.State()) && !active && written == r
      ensures ok ==> active == answers && slotsKey == KeyAfter(answers) && written == WithChecksum(r)
      ensures ok && answers ==>
                flash.State() == Rewritten(foreign, slotsKey, old(flash.State()),
                                           Slots(foreign, slotsKey, old(flash.State())), n, r, slotKey, noise)
      ensures ok && answers ==> slotsData[..HV_SALT_SIZE] == Salt(foreign, slotsKey, flash.State())
      ensures ok && !answers ==>
                flash.State() == Rewritten(foreign, slotsKey, old(flash.State()),
                                           old(slotsData[HV_SALT_SIZE..]), n, r, slotKey, noise)
    {
      hide Checksum, RecordBytes, Region, Store, Splice, Salt, Slots, Foreign.Valid;
      written := r;
      if !active {
        return false, written;
      }
      buffer := noise;
      active := false;
      var decrypted := DecryptSlotsData(answers);
      ghost var f := flash.State();
      ghost var slots := slotsData[HV_SALT_SIZE..];
      var crc := RecordCrc(r);
      written := r.(crc := crc);
      PlaceSlot(n, written, slotKey);
      EncryptAll();
      flash.Memcpy(HV_SLOT_START, slotsData[HV_SALT_SIZE..], true);
      StoreKeepsSalt(f, slotsData[HV_SALT_SIZE..]);
      return true, written;
    }

    /** The record over the noise in the buffer, encrypted, into its place among the decrypted slots. */
    method PlaceSlot(n: nat, r: Record, slotKey: seq<bv8>)
      requires Valid() && n < HV_SLOT_COUNT && r.Valid()
      modifies `buffer, `slotsData
      ensures Valid() && slotsData[..HV_SALT_SIZE] == old(slotsData[..HV_SALT_SIZE])
      ensures slotsData[HV_SALT_SIZE..] == Splice(old(slotsData[HV_SALT_SIZE..]), HV_SLOT_SIZE * n,
                foreign.encryptSlot(slotKey, n, RecordBytes(r) + old(buffer)[RECORD_SIZE..]))
    {
      hide RecordBytes, Splice, Foreign.Valid;
      buffer := RecordBytes(r) + buffer[RECORD_SIZE..];
      SlotCipher(foreign, slotKey, n, buffer);
      buffer := foreign.encryptSlot(slotKey, n, buffer);
      InnerSplice(slotsData, HV_SLOT_SIZE * n, buffer);
      slotsData := Splice(slotsData, HV_SALT_SIZE + HV_SLOT_SIZE * n, buffer);
    }

    static lemma {:induction false} InnerSplice(data: seq<bv8>, o: nat, x: seq<bv8>)
      requires |data| == HV_SALT_SIZE + HV_SLOTS_SIZE && o + |x| <= HV_SLOTS_SIZE
      ensures Splice(data, HV_SALT_SIZE + o, x)[HV_SALT_SIZE..] == Splice(data[HV_SALT_SIZE..], o, x)
      ensures Splice(data, HV_SALT_SIZE + o, x)[..HV_SALT_SIZE] == data[..HV_SALT_SIZE]
    {
    }

    lemma {:induction false} StoreKeepsSalt(f: Image, x: seq<bv8>)
      requires f.Valid() && |x| == HV_SLOTS_SIZE
      ensures Salt(foreign, slotsKey, Store(f, HV_SLOT_START, x, true)) == Salt(foreign, slotsKey, f)
    {
      hide Region, Store;
      StoreOutside(f, HV_SALT_START, HV_SALT_SIZE, HV_SLOT_START, x, true);
    }

    method EncryptAll()
      requires Valid()
      modifies `slotsData
      ensures Valid()
      ensures slotsData[HV_SALT_SIZE..] == foreign.encryptArea(slotsKey, old(slotsData[HV_SALT_SIZE..]))
      ensures slotsData[..HV_SALT_SIZE] == old(slotsData[..HV_SALT_SIZE])
    {
      hide Foreign.Valid;
      AreaCipher(foreign, slotsKey, slotsData[HV_SALT_SIZE..]);
      slotsData := slotsData[..HV_SALT_SIZE] + foreign.encryptArea(slotsKey, slotsData[HV_SALT_SIZE..]);
    }

    /** GetHiddenVolumeDataKeyFromUserpassword; answers[i] is the card's behaviour while slot i is read. */
    method GetDataKey(password: seq<bv8>, answers: seq<bool>) returns (status: int, r: Record)
      requires Valid() && |answers| == HV_SLOT_COUNT
      modifies this
      ensures Valid()
      ensures status in {1, 2, 3} && (status == 3 <==> !old(active))
      ensures old(active) && status == 2 ==> active == Answered(answers, 4)
      ensures var (keys, slotKey) := (KeysAfter(answers), foreign.deriveKey(password, old(slotsData[..HV_SALT_SIZE])));
              && (status == 1 ==> exists n: nat :: Found(foreign, keys, flash.State(), slotKey, n, r) && Answered(answers, n))
              && (status == 2 ==> forall n: nat :: n < 4 && Answered(answers, n) ==>
                                    !Passes(foreign, keys[n], flash.State(), n, slotKey))
    {
      hide Passes, Opened, Salt, Foreign.Valid;
      r := Record(Fill(0, KEY_SIZE), 0, 0, 0);
      if !active {
        return STATUS_NO_USER_PASSWORD_UNLOCK, r;
      }
      var slotKey := foreign.deriveKey(password, slotsData[..HV_SALT_SIZE]);
      ghost var (f, keys) := (flash.State(), KeysAfter(answers));
      for i := 0 to HV_SLOT_COUNT
        invariant Valid() && flash.State() == f
        invariant active == Answered(answers, i)
        invariant forall n: nat :: n < i && Answered(answers, n) ==> !Passes(foreign, keys[n], f, n, slotKey)
      {
        var ok;
        ok, r := ReadSlot(i, slotKey, answers[i]);
        if ok {
          assert Answered(answers, i) && forall m: nat :: m < i ==> Answered(answers, m);
          assert Found(foreign, keys, flash.State(), slotKey, i, r);
          return STATUS_OK, r;
        }
      }
      return STATUS_WRONG_PASSWORD, r;
    }
  }

  /** The card kept answering for the first n slots. */
  predicate Answered(answers: seq<bool>, n: nat)
    requires n <= |answers|
  {
    forall i :: 0 <= i < n ==> answers[i]
  }

  ghost predicate NonePasses(e: Foreign, keys: seq<seq<bv8>>, f: Image, slotKey: seq<bv8>, n: nat)
    requires e.Valid() && f.Valid() && n <= |keys| == 4
  {
    forall m: nat :: m < n ==> !Passes(e, keys[m], f, m, slotKey)
  }

  /** Slot n is the lowest one whose checksum passes under its key, and r is its record. */
  ghost predicate Found(e: Foreign, keys: seq<seq<bv8>>, f: Image, slotKey: seq<bv8>, n: nat, r: Record)
    requires e.Valid() && f.Valid() && |keys| == 4
  {
    && n < 4 && Passes(e, keys[n], f, n, slotKey) && NonePasses(e, keys, f, slotKey, n)
    && r == Opened(e, keys[n], f, n, slotKey)
  }
}
