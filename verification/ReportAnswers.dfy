/** The output report that answers each command. */
module ReportAnswers {
  import opened Bytes
  import opened Dwords
  import opened FlashMemory
  import opened OtpSlots
  import opened HotpValidation
  import opened HotpValue
  import opened Output
  import opened ReportState
  import Crc
  import Decimal
  import SetTime
  import TimeLog

  // ----- the answer to a report

  /** The output block once the command and the received CRC have been copied into it. */
  function Header(report: seq<bv8>): (b: seq<bv8>)
    requires |report| == REPORT_SIZE
    ensures |b| == REPORT_SIZE
  {
    [0, report[0]] + report[60..64] + Fill(0, 58)
  }

  function WithStatus(b: seq<bv8>, status: bv8): (r: seq<bv8>)
    requires |b| == REPORT_SIZE
    ensures |r| == REPORT_SIZE
  {
    b[OUTPUT_CMD_STATUS_OFFSET := status]
  }

  function WithResult(b: seq<bv8>, x: seq<bv8>): (r: seq<bv8>)
    requires |b| == REPORT_SIZE && |x| <= 53
    ensures |r| == REPORT_SIZE
  {
    Splice(b, OUTPUT_CMD_RESULT_OFFSET, x)
  }

  /** A refused command reports an error, unless an authorise command has silenced it. */
  function Refused(d: Device, b: seq<bv8>): (r: seq<bv8>)
    requires |b| == REPORT_SIZE
    ensures |r| == REPORT_SIZE
  {
    WithStatus(b, if d.silenced then STATUS_OK else STATUS_NOT_AUTHORIZED)
  }

  function CommitAnswer(d: Device, report: seq<bv8>, b: seq<bv8>): (r: seq<bv8>)
    requires d.Valid() && |report| == REPORT_SIZE && |b| == REPORT_SIZE
    ensures |r| == REPORT_SIZE
  {
    if !Commits(d, report) then Refused(d, b)
    else if d.slot.name[0] == 0 then WithStatus(b, STATUS_NO_NAME_ERROR)
    else if !IsHotp(report[26]) && !IsTotp(report[26]) then WithStatus(b, STATUS_WRONG_SLOT)
    else if Ignored(Filled(d.slot, report)) then WithStatus(b, STATUS_OK)
    else b
  }

  function SendAnswer(d: Device, report: seq<bv8>, b: seq<bv8>): (r: seq<bv8>)
    requires d.Valid() && |report| == REPORT_SIZE && |b| == REPORT_SIZE
    ensures |r| == REPORT_SIZE
  {
    if !ValidPassword(d, report[1..26]) then Refused(d, b)
    else if !SendsData(d, report) then WithStatus(b, STATUS_UNKNOWN_ERROR)
    else if report[26] == TYPE_NAME then WithResult(b, Sent(d, report).slot.name)
    else WithResult(b, Sent(d, report).slot.secret)
  }

  predicate SlotProgrammed(f: Image, n: bv8)
    requires f.Valid()
  {
    SlotAt(f, RecordOf(n)).kind == if IsHotp(n) then TYPE_HOTP else TYPE_TOTP
  }

  /** The decimal text of the low 32 bits of a counter, cut after seven digits, in eight bytes. */
  function CounterText(counter: nat): (b: seq<bv8>)
    ensures |b| == 8
  {
    var t := Decimal.Text(counter % Decimal.TWO32);
    if |t| < 8 then t + Fill(0, 8 - |t|) else t[..7] + [0]
  }

  /** The text reads as the counter exactly when seven digits suffice. */
  lemma {:induction false} CounterTextReads(counter: nat)
    ensures Decimal.Value(Decimal.Terminated(CounterText(counter))) == counter <==> counter < 10_000_000
  {
    hide Decimal.Text, Decimal.Value, Decimal.Terminated;
    var n := counter % Decimal.TWO32;
    var t := Decimal.Text(n);
    Decimal.TenDigits(n);
    var k := if |t| < 8 then 0 else |t| - 7;
    Decimal.LeadingDigits(n, k);
    forall i: nat | i < |t| - k
      ensures t[i] != 0
    {
      Decimal.NoZeroDigit(n, i);
    }
    var rest := if |t| < 8 then Fill(0, 7 - |t|) else [];
    assert CounterText(counter) == t[..|t| - k] + [0] + rest;
    Decimal.TerminatedText(t[..|t| - k], rest);
    if k == 0 {
      assert n / Decimal.Power(0) == n;
    } else {
      SevenDigits(n, k);
    }
  }

  /** What is left of a longer number is shorter than it. */
  lemma {:induction false} SevenDigits(n: nat, k: nat)
    requires 0 < k < |Decimal.Text(n)|
    ensures n / Decimal.Power(k) < n
  {
    hide Decimal.Text;
    Decimal.TextLength(n, k);
    MulAtLeast(10, Decimal.Power(k - 1));
    QuotientShrinks(n, Decimal.Power(k));
  }

  lemma {:induction false} QuotientShrinks(n: nat, d: nat)
    requires 2 <= d <= n
    ensures n / d < n
  {
    MulAtLeast(n / d, d);
    MulGap(n / d, 1, d);
  }

  /** The last eight bytes of a read: the counter or interval in report byte order, or a counter's decimal text. */
  function CounterBytes(f: Image, report: seq<bv8>): (b: seq<bv8>)
    requires f.Valid() && |report| == REPORT_SIZE
    ensures |b| == 8
  {
    var n := report[1];
    if !IsHotp(n) then DwordBytes(EndianSwap(SlotAt(f, RecordOf(n)).interval))
    else if report[2] == 1 then DwordBytes(EndianSwap(FromNumber(SlotCounter(f, SlotIndex(n)))))
    else CounterText(SlotCounter(f, SlotIndex(n)))
  }

  function ReadBytes(f: Image, report: seq<bv8>): (b: seq<bv8>)
    requires f.Valid() && |report| == REPORT_SIZE
    ensures |b| == 37
  {
    var s := SlotAt(f, RecordOf(report[1]));
    s.name + [s.config] + s.tokenId + CounterBytes(f, report)
  }

  function ReadAnswer(d: Device, report: seq<bv8>, b: seq<bv8>): (r: seq<bv8>)
    requires d.Valid() && |report| == REPORT_SIZE && |b| == REPORT_SIZE
    ensures |r| == REPORT_SIZE
  {
    if !IsHotp(report[1]) && !IsTotp(report[1]) then WithStatus(b, STATUS_WRONG_SLOT)
    else if !SlotProgrammed(d.flash, report[1]) then WithStatus(b, STATUS_SLOT_NOT_PROGRAMMED)
    else WithResult(b, ReadBytes(d.flash, report))
  }

  function NameAnswer(d: Device, report: seq<bv8>, b: seq<bv8>): (r: seq<bv8>)
    requires d.Valid() && |report| == REPORT_SIZE && |b| == REPORT_SIZE
    ensures |r| == REPORT_SIZE
  {
    if !IsHotp(report[1]) && !IsTotp(report[1]) then WithStatus(b, STATUS_WRONG_SLOT)
    else if !SlotProgrammed(d.flash, report[1]) then WithStatus(b, STATUS_SLOT_NOT_PROGRAMMED)
    else WithResult(b, SlotAt(d.flash, RecordOf(report[1])).name)
  }

  /** A code, least significant byte first, with the configuration and token id of its slot. */
  function CodeBytes(code: bv32, s: Slot): (b: seq<bv8>)
    requires s.Valid()
    ensures |b| == 18
  {
    Crc.LittleBytes(code) + [s.config] + s.tokenId
  }

  /** The code that a slot gives; the one of a TOTP slot depends on the clock. */
  function CodeOf(f: Image, n: bv8, totp: bv32): bv32
    requires f.Valid()
  {
    if IsHotp(n) then ToWord(CodeAt(f, SlotIndex(n), 0)) else totp
  }

  function CodeAnswer(d: Device, report: seq<bv8>, totp: bv32, b: seq<bv8>): (r: seq<bv8>)
    requires d.Valid() && |report| == REPORT_SIZE && |b| == REPORT_SIZE
    ensures |r| == REPORT_SIZE
  {
    var n := report[1];
    if !MayGetCode(d, report) then Refused(d, b)
    else if !IsHotp(n) && !IsTotp(n) then WithStatus(b, STATUS_WRONG_SLOT)
    else if Reserved(n) then b
    else if !SlotProgrammed(d.flash, n) then WithStatus(b, STATUS_SLOT_NOT_PROGRAMMED)
    else WithResult(b, CodeBytes(CodeOf(d.flash, n, totp), SlotAt(d.flash, RecordOf(n))))
  }

  function ConfigAnswer(d: Device, report: seq<bv8>, b: seq<bv8>): (r: seq<bv8>)
    requires |report| == REPORT_SIZE && |b| == REPORT_SIZE
    ensures |r| == REPORT_SIZE
  {
    if !ValidPassword(d, report[6..31]) then Refused(d, b)
    else if !ConfigValid(report[1..6]) then WithStatus(b, STATUS_UNKNOWN_ERROR)
    else b
  }

  function EraseAnswer(d: Device, report: seq<bv8>, b: seq<bv8>): (r: seq<bv8>)
    requires |report| == REPORT_SIZE && |b| == REPORT_SIZE
    ensures |r| == REPORT_SIZE
  {
    if !ValidPassword(d, report[2..27]) then Refused(d, b)
    else if !IsHotp(report[1]) && !IsTotp(report[1]) then WithStatus(b, STATUS_WRONG_SLOT)
    else b
  }

  function TimeAnswer(f: Image, report: seq<bv8>, b: seq<bv8>): (r: seq<bv8>)
    requires f.Valid() && |report| == REPORT_SIZE && |b| == REPORT_SIZE
    ensures |r| == REPORT_SIZE
  {
    var minutes := SetTime.MinutesSince(LittleNumber(report[2..10]));
    if SetTime.Accepts(TimeLog.TimeValue(Page(f, TimeLog.TIME_PAGE)), report[1], minutes) then b
    else WithStatus(b, STATUS_TIMESTAMP_WARNING)
  }

  function ResultByte(r: int): bv8
    requires -2 <= r < LOOK_AHEAD
  {
    if r == -2 then 0xFE else if r == -1 then 0xFF else r as bv8
  }

  function VerifyAnswer(f: Image, report: seq<bv8>, b: seq<bv8>): (r: seq<bv8>)
    requires f.Valid() && |report| == REPORT_SIZE && |b| == REPORT_SIZE
    ensures |r| == REPORT_SIZE
  {
    if !Programmed(f, HOTP_VERIFY_SLOT) then WithStatus(b, STATUS_SLOT_NOT_PROGRAMMED)
    else
      var m := FirstMatch(f, HOTP_VERIFY_SLOT, CodeIn(report), 0);
      if m < LOOK_AHEAD then WithResult(b, [1, ResultByte(m)]) else WithResult(b, [0, ResultByte(-2)])
  }

  /** The commands that the card decides. */
  predicate AsksCard(command: bv8) {
    || command == CMD_FIRST_AUTHENTICATE || command == CMD_USER_AUTHENTICATE
    || command == CMD_UNLOCK_USER_PASSWORD || command == CMD_FACTORY_RESET
  }

  /** The output before its own CRC is put in. */
  function Body(d: Device, report: seq<bv8>, accepts: bool, totp: bv32): (r: seq<bv8>)
    requires d.Valid() && |report| == REPORT_SIZE
    ensures |r| == REPORT_SIZE
  {
    var b := Header(report);
    if !CrcOk(report) then WithStatus(b, STATUS_WRONG_CRC)
    else if report[0] == CMD_WRITE_TO_SLOT then CommitAnswer(d, report, b)
    else if report[0] == CMD_SEND_OTP_DATA then SendAnswer(d, report, b)
    else if report[0] == CMD_READ_SLOT_NAME then NameAnswer(d, report, b)
    else if report[0] == CMD_READ_SLOT then ReadAnswer(d, report, b)
    else if report[0] == CMD_GET_CODE then CodeAnswer(d, report, totp, b)
    else if report[0] == CMD_WRITE_CONFIG then ConfigAnswer(d, report, b)
    else if report[0] == CMD_ERASE_SLOT then EraseAnswer(d, report, b)
    else if AsksCard(report[0]) then (if accepts then b else WithStatus(b, STATUS_WRONG_PASSWORD))
    else if report[0] == CMD_AUTHORIZE || report[0] == CMD_USER_AUTHORIZE then WithStatus(b, STATUS_OK)
    else if report[0] == CMD_SET_TIME then TimeAnswer(d.flash, report, b)
    else if report[0] == CMD_VERIFY_OTP_CODE then VerifyAnswer(d.flash, report, b)
    else b
  }

  function Sealed(b: seq<bv8>): (r: seq<bv8>)
    requires |b| == REPORT_SIZE
    ensures |r| == REPORT_SIZE
  {
    Splice(b, OUTPUT_CRC_OFFSET, Crc.LittleBytes(Crc.CrcOf(b, 15)))
  }

  function Answer(d: Device, report: seq<bv8>, accepts: bool, totp: bv32): (r: seq<bv8>)
    requires d.Valid() && |report| == REPORT_SIZE
    ensures |r| == REPORT_SIZE
  {
    Sealed(Body(d, report, accepts, totp))
  }

  /** Sealing fills the last four bytes alone. */
  lemma {:induction false} AnswerIsBody(d: Device, report: seq<bv8>, accepts: bool, totp: bv32)
    requires d.Valid() && |report| == REPORT_SIZE
    ensures Answer(d, report, accepts, totp)[..60] == Body(d, report, accepts, totp)[..60]
    ensures forall i :: 0 <= i < 60 ==> Answer(d, report, accepts, totp)[i] == Body(d, report, accepts, totp)[i]
  {
    hide Body, Crc.CrcOf, Crc.LittleBytes;
    var (a, b) := (Answer(d, report, accepts, totp), Body(d, report, accepts, totp));
    SpliceOutside(b, OUTPUT_CRC_OFFSET, Crc.LittleBytes(Crc.CrcOf(b, 15)), 0, 60);
    assert forall i :: 0 <= i < 60 ==> a[i] == a[0..60][i] == b[0..60][i] == b[i];
  }

  lemma {:induction false} CrcOkMeans(report: seq<bv8>)
    requires |report| == REPORT_SIZE
    ensures CrcOk(report) <==> Crc.CrcOf(report, 15) == LittleWord(report[60..64])
  {
    hide LittleWord, Crc.CrcOf;
  }

  lemma {:induction false} WrongCrc(d: Device, report: seq<bv8>, accepts: bool, totp: bv32)
    requires d.Valid() && |report| == REPORT_SIZE && !CrcOk(report)
    ensures Next(d, report, accepts) == d && Body(d, report, accepts, totp) == WithStatus(Header(report), STATUS_WRONG_CRC)
  {
    hide CrcOk;
  }

  /** Every answer carries a CRC that its receiver can check the same way. */
  lemma {:induction false} AnswerCrcOk(d: Device, report: seq<bv8>, accepts: bool, totp: bv32)
    requires d.Valid() && |report| == REPORT_SIZE
    ensures CrcOk(Answer(d, report, accepts, totp))
  {
    hide Body, Crc.CrcOf, Crc.LittleBytes, LittleWord;
    var b := Body(d, report, accepts, totp);
    var crc := Crc.CrcOf(b, 15);
    SpliceRange(b, OUTPUT_CRC_OFFSET, Crc.LittleBytes(crc));
    WordOfBytes(crc);
    SamePrefix(b, Sealed(b), 15);
  }

  lemma {:induction false} WordOfBytes(w: bv32)
    ensures LittleWord(Crc.LittleBytes(w)) == w
  {
  }

  lemma {:induction false} SamePrefix(a: seq<bv8>, b: seq<bv8>, n: nat)
    requires |a| == |b| == REPORT_SIZE && n <= 15 && a[..60] == b[..60]
    ensures Crc.CrcOf(a, n) == Crc.CrcOf(b, n)
  {
    hide Crc.WordCrc, LittleWord;
    if n > 0 {
      SamePrefix(a, b, n - 1);
      SliceOfPrefix(a, 60, 4 * (n - 1), 4 * (n - 1) + 4);
      SliceOfPrefix(b, 60, 4 * (n - 1), 4 * (n - 1) + 4);
    }
  }

  /** A number below 2 to the 32 goes through a word and its bytes unchanged. */
  lemma {:induction false} NumberOfWord(x: nat)
    requires x < Decimal.TWO32
    ensures LittleNumber(Crc.LittleBytes(ToWord(x))) == x
  {
    hide Join, Crc.LittleBytes, ToByte, LittleFrom;
    var (a, b, c, d) := (x % 256, x / 256 % 256, x / 0x1_0000 % 256, x / 0x100_0000 % 256);
    Crc.JoinBytes(ToByte(a), ToByte(b), ToByte(c), ToByte(d));
    LittleOfFour(a, b, c, d);
    FourDigits(x);
  }

  lemma {:induction false} LittleOfFour(a: nat, b: nat, c: nat, d: nat)
    requires a < 256 && b < 256 && c < 256 && d < 256
    ensures LittleNumber([ToByte(a), ToByte(b), ToByte(c), ToByte(d)]) == ((d * 256 + c) * 256 + b) * 256 + a
  {
    hide Octet, ToByte;
    ByteRoundTrip(a);
    ByteRoundTrip(b);
    ByteRoundTrip(c);
    ByteRoundTrip(d);
    var bytes := [ToByte(a), ToByte(b), ToByte(c), ToByte(d)];
    assert LittleFrom(bytes, 3) == d;
    assert LittleFrom(bytes, 2) == d * 256 + c;
    assert LittleFrom(bytes, 1) == (d * 256 + c) * 256 + b;
  }

  lemma {:induction false} FourDigits(x: nat)
    requires x < Decimal.TWO32
    ensures x == ((x / 0x100_0000 % 256 * 256 + x / 0x1_0000 % 256) * 256 + x / 256 % 256) * 256 + x % 256
  {
    var (p, q, r) := (x / 256, x / 256 / 256, x / 256 / 256 / 256);
    assert x == p * 256 + x % 256 && p == q * 256 + p % 256 && q == r * 256 + q % 256 && r < 256;
    assert x / 0x1_0000 == q && x / 0x100_0000 == r;
  }

  /** The host that reads the four code bytes has the HOTP code of the slot's counter before the command. */
  lemma {:induction false} GivenCodeReads(d: Device, report: seq<bv8>, accepts: bool, totp: bv32)
    requires d.Valid() && |report| == REPORT_SIZE && CrcOk(report) && report[0] == CMD_GET_CODE && GivesHotp(d, report)
    ensures LittleNumber(Answer(d, report, accepts, totp)[7..11]) == CodeAt(d.flash, SlotIndex(report[1]), 0)
  {
    hide CrcOk, CodeAt, Crc.LittleBytes, Crc.CrcOf, ToWord, LittleFrom, MayGetCode, SlotAt, Header, SlotIndex;
    var code := CodeAt(d.flash, SlotIndex(report[1]), 0);
    NumberOfWord(code);
    var x := CodeBytes(ToWord(code), SlotAt(d.flash, RecordOf(report[1])));
    var b := Body(d, report, accepts, totp);
    assert b == WithResult(Header(report), x);
    SpliceOutside(b, OUTPUT_CRC_OFFSET, Crc.LittleBytes(Crc.CrcOf(b, 15)), 7, 4);
    assert b[7..11] == Crc.LittleBytes(ToWord(code));
  }

  // ----- what a click of a lock key types

  function TypedText(f: Image, key: nat): seq<bv8>
    requires f.Valid() && key < LOCK_KEYS
  {
    if Types(f, key) then Decimal.Padded(CodeAt(f, SlotOfKey(f, key), 0), Digits(SlotAt(f, SlotOfKey(f, key)).config)) else []
  }

  /** The text has the configured number of digits and reads as the code of the slot's counter. */
  lemma {:induction false} TypedReads(f: Image, key: nat)
    requires f.Valid() && key < LOCK_KEYS && Types(f, key)
    ensures |TypedText(f, key)| == Digits(SlotAt(f, SlotOfKey(f, key)).config)
    ensures Decimal.Value(TypedText(f, key)) == CodeAt(f, SlotOfKey(f, key), 0)
  {
    hide SlotAt, SlotOfKey, Decimal.Value, Decimal.Padded, Hotp, SlotCounter;
    var digits := Digits(SlotAt(f, SlotOfKey(f, key)).config);
    var code := CodeAt(f, SlotOfKey(f, key), 0);
    Decimal.PaddedReads(code, digits);
    assert Decimal.Power(4) == 10000;
    assert Decimal.Power(6) == 1000000;
  }
}
