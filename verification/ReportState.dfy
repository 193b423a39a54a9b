/** The commands of the report protocol that concern OTP slots, as one state machine. */
module ReportState {
  import opened Bytes
  import opened Dwords
  import opened FlashMemory
  import opened CounterPage
  import opened CounterRuns
  import opened OtpSlots
  import opened HotpValidation
  import FactoryReset
  import TimeLog
  import SetTime
  import Crc

  const REPORT_SIZE := 64
  const PASSWORD_SIZE := 25
  const CMD_WRITE_TO_SLOT: bv8 := 0x01
  const CMD_READ_SLOT_NAME: bv8 := 0x02
  const CMD_READ_SLOT: bv8 := 0x03
  const CMD_GET_CODE: bv8 := 0x04
  const CMD_WRITE_CONFIG: bv8 := 0x05
  const CMD_ERASE_SLOT: bv8 := 0x06
  const CMD_FIRST_AUTHENTICATE: bv8 := 0x07
  const CMD_AUTHORIZE: bv8 := 0x08
  const CMD_SET_TIME: bv8 := 0x0B
  const CMD_USER_AUTHENTICATE: bv8 := 0x0E
  const CMD_USER_AUTHORIZE: bv8 := 0x10
  const CMD_UNLOCK_USER_PASSWORD: bv8 := 0x11
  const CMD_LOCK_DEVICE: bv8 := 0x12
  const CMD_FACTORY_RESET: bv8 := 0x13
  const CMD_SEND_OTP_DATA: bv8 := 0x17
  const CMD_VERIFY_OTP_CODE: bv8 := 0x18
  const TYPE_NAME: bv8 := 0x4E
  const TYPE_SECRET: bv8 := 0x53
  const CHUNK_SIZE := 30

  /** The flash and the static variables of the protocol. */
  datatype Device = Device(flash: Image, adminSet: bool, adminPassword: seq<bv8>, userSet: bool,
          userPassword: seq<bv8>, started: bool, slot: Slot, silenced: bool) {
    ghost predicate Valid() {
      flash.Valid() && |adminPassword| == PASSWORD_SIZE && |userPassword| == PASSWORD_SIZE && slot.Valid()
    }
  }

  predicate ValidPassword(d: Device, password: seq<bv8>) {
    d.adminSet && password == d.adminPassword
  }

  predicate ValidUserPassword(d: Device, password: seq<bv8>) {
    d.userSet && password == d.userPassword
  }

  /** Both temporary passwords are as before. */
  predicate SamePasswords(d: Device, e: Device) {
    e.adminSet == d.adminSet && e.adminPassword == d.adminPassword && e.userSet == d.userSet && e.userPassword == d.userPassword
  }

  predicate CrcOk(report: seq<bv8>)
    requires |report| == REPORT_SIZE
  {
    Crc.CrcOf(report, 15) == LittleWord(report[60..64])
  }

  // ----- slot numbers

  predicate IsHotp(n: bv8) {
    n >= 0x10 && n < 0x14
  }

  predicate IsTotp(n: bv8) {
    n >= 0x20 && n < 0x2F
  }

  /** The low four bits. */
  function SlotIndex(n: bv8): (i: nat)
    ensures i < 16
    ensures IsHotp(n) ==> i < NUMBER_OF_HOTP_SLOTS
    ensures IsTotp(n) ==> i < NUMBER_OF_TOTP_SLOTS
  {
    IndexBound(n);
    (n & 0x0F) as nat
  }

  lemma {:induction false} IndexBound(n: bv8)
    ensures (n & 0x0F) as nat < 16
    ensures IsHotp(n) ==> (n & 0x0F) as nat < 4
    ensures IsTotp(n) ==> (n & 0x0F) as nat < 15
  {
  }

  /** The record number of a command's slot number: TOTP slots follow the HOTP slots. */
  function RecordOf(n: bv8): nat {
    if IsHotp(n) then SlotIndex(n) else NUMBER_OF_HOTP_SLOTS + SlotIndex(n)
  }

  // ----- CMD_SEND_OTP_DATA

  const ZERO_SLOT := Slot(0, 0, Fill(0, 15), Fill(0, SECRET_LENGTH), 0, Fill(0, 13), 0)

  /** Where a secret chunk goes; an offset behind the secret falls back to its start. */
  function ChunkOffset(id: bv8): (o: nat)
    ensures o == 0 || o == CHUNK_SIZE
  {
    var o := Octet(id) * CHUNK_SIZE;
    if o > SECRET_LENGTH then 0 else o
  }

  function ChunkCount(o: nat): (n: nat)
    requires o <= SECRET_LENGTH
    ensures o + n <= SECRET_LENGTH && n <= CHUNK_SIZE
  {
    if CHUNK_SIZE < SECRET_LENGTH - o then CHUNK_SIZE else SECRET_LENGTH - o
  }

  datatype Chunk = Chunk(kind: bv8, id: bv8, data: seq<bv8>)

  function ChunkOf(report: seq<bv8>): (c: Chunk)
    requires |report| == REPORT_SIZE
    ensures |c.data| == CHUNK_SIZE
  {
    Chunk(report[26], report[27], report[28..58])
  }

  function WithChunk(s: Slot, c: Chunk): (r: Slot)
    requires s.Valid() && |c.data| == CHUNK_SIZE
    ensures r.Valid()
  {
    if c.kind == TYPE_NAME then s.(name := c.data[..15])
    else
      var o := ChunkOffset(c.id);
      s.(secret := Splice(s.secret, o, c.data[..ChunkCount(o)]))
  }

  predicate SendsData(d: Device, report: seq<bv8>)
    requires |report| == REPORT_SIZE
  {
    ValidPassword(d, report[1..26]) && (report[26] == TYPE_NAME || report[26] == TYPE_SECRET)
  }

  /** The first chunk of an upload starts from an empty record. */
  function Sent(d: Device, report: seq<bv8>): (e: Device)
    requires d.Valid() && |report| == REPORT_SIZE
    ensures e.Valid() && SamePasswords(d, e)
  {
    if SendsData(d, report) then
      d.(started := true, slot := WithChunk(if d.started then d.slot else ZERO_SLOT, ChunkOf(report)))
    else d
  }

  // ----- CMD_WRITE_TO_SLOT

  predicate Commits(d: Device, report: seq<bv8>)
    requires |report| == REPORT_SIZE
  {
    ValidPassword(d, report[1..26]) && d.started
  }

  function Filled(s: Slot, report: seq<bv8>): (r: Slot)
    requires s.Valid() && |report| == REPORT_SIZE
    ensures r.Valid()
  {
    s.(number := report[26], config := report[35], interval := EndianSwap(Dword(report[27..35])), tokenId := report[36..49])
  }

  predicate Acceptable(s: Slot)
    requires s.Valid()
  {
    s.name[0] != 0 && (IsHotp(s.number) || IsTotp(s.number))
  }

  /** The commands ignore the last TOTP slot, whose record would not fit. */
  predicate Ignored(s: Slot) {
    IsTotp(s.number) && SlotIndex(s.number) == NUMBER_OF_TOTP_SLOTS - 1
  }

  function Typed(s: Slot): (t: Slot)
    requires s.Valid()
    ensures t.Valid()
  {
    s.(number := s.number & 0x0F, kind := if IsHotp(s.number) then TYPE_HOTP else TYPE_TOTP)
  }

  /** A HOTP slot starts a fresh counter page. */
  function CounterStored(f: Image, s: Slot): (g: Image)
    requires f.Valid() && s.Valid()
    ensures g.Valid()
  {
    if IsHotp(s.number) then CounterSet(f, CounterPageOf(SlotIndex(s.number)), ToNumber(s.interval)) else f
  }

  function SecretAt(f: Image, o: nat): (b: seq<bv8>)
    requires f.Valid() && o + SLOT_BYTES <= SLOTS_SIZE
    ensures |b| == SECRET_LENGTH
  {
    Unpacked(Region(f, SLOTS_ADDRESS + o, SLOT_BYTES)).secret
  }

  function SlotStored(d: Device, s: Slot): (e: Device)
    requires d.Valid() && s.Valid()
    ensures e.Valid() && SamePasswords(d, e)
  {
    if !Acceptable(s) || Ignored(s) then d.(slot := s)
    else
      var f := CounterStored(d.flash, s);
      var o := SlotOffset(RecordOf(s.number));
      var w := Kept(Typed(s), SecretAt(f, o));
      d.(slot := w, flash := SlotWritten(f, o, w))
  }

  function Committed(d: Device, report: seq<bv8>): (e: Device)
    requires d.Valid() && |report| == REPORT_SIZE
    ensures e.Valid() && SamePasswords(d, e)
  {
    if Commits(d, report) then
      var s := Filled(d.slot, report);
      SlotStored(d.(started := false, slot := s), s)
    else d
  }

  // ----- the other commands

  predicate SlotChoice(v: bv8) {
    v <= 2 || v == 0xFF
  }

  predicate ConfigValid(c: seq<bv8>)
    requires |c| == 5
  {
    SlotChoice(c[0]) && SlotChoice(c[1]) && SlotChoice(c[2]) && c[3] <= 2 && c[4] <= 2
  }

  function ConfigStored(d: Device, report: seq<bv8>): (e: Device)
    requires d.Valid() && |report| == REPORT_SIZE
    ensures e.Valid() && SamePasswords(d, e)
  {
    if ValidPassword(d, report[6..31]) && ConfigValid(report[1..6]) then
      d.(flash := SlotsRewritten(d.flash, Splice(Region(d.flash, SLOTS_ADDRESS, SLOTS_SIZE), GLOBAL_CONFIG_OFFSET, report[1..6])))
    else d
  }

  const BLANK_SLOT :=
    Slot(0xFF, 0xFF, Fill(0xFF, 15), Fill(0xFF, SECRET_LENGTH), 0xFF, Fill(0xFF, 13), 0xFFFF_FFFF_FFFF_FFFF)

  function SlotErased(d: Device, report: seq<bv8>): (e: Device)
    requires d.Valid() && |report| == REPORT_SIZE
    ensures e.Valid() && SamePasswords(d, e)
  {
    if ValidPassword(d, report[2..27]) && (IsHotp(report[1]) || IsTotp(report[1])) then
      d.(flash := SlotWritten(d.flash, SlotOffset(RecordOf(report[1])), BLANK_SLOT))
    else d
  }

  /** cmd_first_authenticate: the card's answer decides. */
  function Authenticated(d: Device, report: seq<bv8>, accepts: bool): (e: Device)
    requires d.Valid() && |report| == REPORT_SIZE
    ensures e.Valid()
  {
    if accepts then d.(adminSet := true, adminPassword := report[26..51])
    else d.(adminSet := false, adminPassword := Fill(0, PASSWORD_SIZE))
  }

  /** cmd_user_authenticate */
  function UserAuthenticated(d: Device, report: seq<bv8>, accepts: bool): (e: Device)
    requires d.Valid() && |report| == REPORT_SIZE
    ensures e.Valid()
  {
    if accepts then d.(userSet := true, userPassword := report[26..51])
    else d.(userSet := false, userPassword := Fill(0, PASSWORD_SIZE))
  }

  function Locked(d: Device): (e: Device)
    requires d.Valid()
    ensures e.Valid()
  {
    d.(adminSet := false, adminPassword := Fill(0, PASSWORD_SIZE), userSet := false, userPassword := Fill(0, PASSWORD_SIZE))
  }

  function TimeServed(f: Image, report: seq<bv8>): (g: Image)
    requires f.Valid() && |report| == REPORT_SIZE
    ensures g.Valid()
  {
    var minutes := SetTime.MinutesSince(LittleNumber(report[2..10]));
    if SetTime.Accepts(TimeLog.TimeValue(Page(f, TimeLog.TIME_PAGE)), report[1], minutes) then TimeLog.TimeSet(f, minutes) else f
  }

  const HOTP_VERIFY_SLOT := 3

  function CodeIn(report: seq<bv8>): nat
    requires |report| == REPORT_SIZE
  {
    Unsigned(LittleWord(report[1..5]))
  }

  function CodeVerified(f: Image, report: seq<bv8>): (g: Image)
    requires f.Valid() && |report| == REPORT_SIZE
    ensures g.Valid()
  {
    if Programmed(f, HOTP_VERIFY_SLOT) then Validated(f, HOTP_VERIFY_SLOT, CodeIn(report)) else f
  }

  // ----- CMD_GET_CODE

  const PIN_PROTECTION_OFFSET := GLOBAL_CONFIG_OFFSET + 3

  /** is_user_PIN_protection_enabled */
  predicate PinProtected(f: Image)
    requires f.Valid()
  {
    f.cells[SLOTS_ADDRESS + PIN_PROTECTION_OFFSET] == 1
  }

  predicate MayGetCode(d: Device, report: seq<bv8>)
    requires d.Valid() && |report| == REPORT_SIZE
  {
    !PinProtected(d.flash) || ValidUserPassword(d, report[19..44])
  }

  /** The last HOTP slot is kept for verification. */
  predicate Reserved(n: bv8) {
    IsHotp(n) && SlotIndex(n) == NUMBER_OF_HOTP_SLOTS - 1
  }

  predicate GivesHotp(d: Device, report: seq<bv8>)
    requires d.Valid() && |report| == REPORT_SIZE
  {
    MayGetCode(d, report) && IsHotp(report[1]) && !Reserved(report[1]) && Programmed(d.flash, SlotIndex(report[1]))
  }

  /** A HOTP code counts one use. */
  function CodeGiven(d: Device, report: seq<bv8>): (e: Device)
    requires d.Valid() && |report| == REPORT_SIZE
    ensures e.Valid() && SamePasswords(d, e)
  {
    if GivesHotp(d, report) then d.(flash := Increments(d.flash, CounterPageOf(SlotIndex(report[1])), 1)) else d
  }

  // ----- parse_report

  /** One report; the card answers the password it is asked about. */
  function Next(d: Device, report: seq<bv8>, accepts: bool): (e: Device)
    requires d.Valid() && |report| == REPORT_SIZE
    ensures e.Valid()
  {
    if !CrcOk(report) then d
    else if report[0] == CMD_WRITE_TO_SLOT then Committed(d, report)
    else if report[0] == CMD_SEND_OTP_DATA then Sent(d, report)
    else if report[0] == CMD_WRITE_CONFIG then ConfigStored(d, report)
    else if report[0] == CMD_ERASE_SLOT then SlotErased(d, report)
    else if report[0] == CMD_FIRST_AUTHENTICATE then Authenticated(d, report, accepts)
    else if report[0] == CMD_USER_AUTHENTICATE then UserAuthenticated(d, report, accepts)
    else if report[0] == CMD_GET_CODE then CodeGiven(d, report)
    else if report[0] == CMD_FACTORY_RESET then (if accepts then d.(flash := FactoryReset.Reset(d.flash)) else d)
    else if report[0] == CMD_AUTHORIZE || report[0] == CMD_USER_AUTHORIZE then d.(silenced := true)
    else if report[0] == CMD_LOCK_DEVICE then Locked(d)
    else if report[0] == CMD_SET_TIME then d.(flash := TimeServed(d.flash, report))
    else if report[0] == CMD_VERIFY_OTP_CODE then d.(flash := CodeVerified(d.flash, report))
    else d
  }

  // ----- the events of OTP_main

  const LOCK_KEYS := 3

  /** A report with the card's answer, or a click of the num, caps or scroll lock key. */
  datatype Event = Report(report: seq<bv8>, accepts: bool) | Click(key: nat) {
    predicate Valid() {
      if Report? then |report| == REPORT_SIZE else key < LOCK_KEYS
    }
  }

  /** The slot that the global configuration assigns to a lock key. */
  function SlotOfKey(f: Image, key: nat): (slot: nat)
    requires f.Valid() && key < LOCK_KEYS
  {
    Octet(f.cells[SLOTS_ADDRESS + GLOBAL_CONFIG_OFFSET + key])
  }

  /** Only the first two HOTP slots are typed. */
  predicate Types(f: Image, key: nat)
    requires f.Valid() && key < LOCK_KEYS
  {
    SlotOfKey(f, key) <= 1 && Programmed(f, SlotOfKey(f, key))
  }

  function Clicked(d: Device, key: nat): (e: Device)
    requires d.Valid() && key < LOCK_KEYS
    ensures e.Valid() && SamePasswords(d, e)
  {
    if Types(d.flash, key) then d.(flash := Increments(d.flash, CounterPageOf(SlotOfKey(d.flash, key)), 1)) else d
  }

  function Step(d: Device, e: Event): (r: Device)
    requires d.Valid() && e.Valid()
    ensures r.Valid()
  {
    if e.Report? then Next(d, e.report, e.accepts) else Clicked(d, e.key)
  }
}
