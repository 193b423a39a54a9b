/** What every answer tells the host: its frame, its status for each command, and that damage is noticed. */
module ReportStatus {
  import opened Bytes
  import opened Dwords
  import opened FlashMemory
  import opened OtpSlots
  import opened HotpValidation
  import opened ReportAnswers
  import opened ReportState
  import opened ReportConfig
  import opened ReportSlots
  import Crc
  import SetTime
  import TimeLog

  // ----- the frame

  /** Byte 1 echoes the command and bytes 2 to 5 the CRC of the report; bytes 60 to 63 are a CRC over the rest. */
  lemma {:induction false} AnswerFrame(d: Device, report: seq<bv8>, accepts: bool, totp: bv32)
    requires d.Valid() && |report| == REPORT_SIZE
    ensures var a := Answer(d, report, accepts, totp);
            && a[0] == 0 && a[1] == report[0] && a[2..6] == report[60..64]
            && LittleWord(a[60..64]) == Crc.CrcOf(a, 15)
  {
    hide Body, Answer, CrcOk, Crc.CrcOf, LittleWord;
    AnswerIsBody(d, report, accepts, totp);
    AnswerRange(d, report, accepts, totp, 2, 6);
    AnswerCrcOk(d, report, accepts, totp);
    CrcOkMeans(Answer(d, report, accepts, totp));
    BodyFrame(d, report, accepts, totp);
  }

  predicate Framed(b: seq<bv8>, report: seq<bv8>)
    requires |b| == REPORT_SIZE && |report| == REPORT_SIZE
  {
    b[0] == 0 && b[1] == report[0] && b[2..6] == report[60..64]
  }

  lemma {:induction false} WithKeepsFrame(report: seq<bv8>, status: bv8, x: seq<bv8>)
    requires |report| == REPORT_SIZE && |x| <= 53
    ensures Framed(Header(report), report) && Framed(WithStatus(Header(report), status), report)
    ensures Framed(WithResult(Header(report), x), report)
  {
    var b := Header(report);
    assert b[2..6] == report[60..64];
    assert WithStatus(b, status)[2..6] == b[2..6];
    assert WithResult(b, x)[2..6] == b[2..6];
  }

  lemma {:induction false} BodyFrame(d: Device, report: seq<bv8>, accepts: bool, totp: bv32)
    requires d.Valid() && |report| == REPORT_SIZE
    ensures Framed(Body(d, report, accepts, totp), report)
  {
    hide Framed, Header, WithStatus, WithResult, CrcOk, ValidPassword, MayGetCode, SlotProgrammed, Sent, ReadBytes,
      CodeBytes,
      SetTime.Accepts, TimeLog.TimeValue, SetTime.MinutesSince, FirstMatch, Programmed, CodeIn, ConfigValid, Filled,
      SlotAt, CodeOf;
    forall status: bv8
      ensures Framed(WithStatus(Header(report), status), report)
    {
      WithKeepsFrame(report, status, []);
    }
    forall x: seq<bv8> | |x| <= 53
      ensures Framed(WithResult(Header(report), x), report)
    {
      WithKeepsFrame(report, 0, x);
    }
    WithKeepsFrame(report, 0, []);
  }

  /** Of two reports that differ within one of their sixteen words at most one is taken for undamaged; the other is
      answered with status 1 and changes nothing. */
  lemma {:induction false} DamageIsNoticed(d: Device, report: seq<bv8>, damaged: seq<bv8>, k: nat, accepts: bool, totp: bv32)
    requires d.Valid() && |report| == REPORT_SIZE && |damaged| == REPORT_SIZE && k < 16
    requires CrcOk(report) && damaged != report && Crc.DifferOnlyIn(report, damaged, k)
    ensures Next(d, damaged, accepts) == d && Answer(d, damaged, accepts, totp)[6] == 1
  {
    hide Answer, Body, Crc.CrcOf, LittleWord, CrcOk;
    CrcOkMeans(report);
    CrcOkMeans(damaged);
    if k < 15 {
      Crc.SingleWordDetected(report, damaged, 15, k);
      assert report[60..64] == damaged[60..64];
    } else {
      Crc.SameBefore(report, damaged, 15, 15);
      assert LittleWord(report[60..64]) == Crc.WordOf(report, 15) && LittleWord(damaged[60..64]) == Crc.WordOf(damaged, 15);
      if LittleWord(report[60..64]) == LittleWord(damaged[60..64]) {
        Crc.WordOfInjective(report, damaged, 15);
      }
    }
    WrongCrc(d, damaged, accepts, totp);
    AnswerIsBody(d, damaged, accepts, totp);
  }

  // ----- the status

  /** The password that a command asks for, and where it lies in the report. */
  predicate ShowsPassword(d: Device, report: seq<bv8>)
    requires |report| == REPORT_SIZE
  {
    if report[0] == 0x04 then d.userSet && report[19..44] == d.userPassword
    else d.adminSet && d.adminPassword
                       == if report[0] == 0x05 then report[6..31] else if report[0] == 0x06 then report[2..27] else report[1..26]
  }

  /** The commands that are refused without a password. */
  predicate Refusable(d: Device, report: seq<bv8>)
    requires d.Valid() && |report| == REPORT_SIZE
  {
    || report[0] == 0x01 || report[0] == 0x17 || report[0] == 0x05 || report[0] == 0x06
    || (report[0] == 0x04 && ConfigOf(d.flash)[3] == 1)
  }

  /** A programmed slot has the letter H or T in front of its record. */
  predicate IsProgrammed(f: Image, n: bv8)
    requires f.Valid() && IsSlotNumber(n)
  {
    RecordBytes(f, n)[0] == if n <= 0x13 then 0x48 else 0x54
  }

  predicate ChoosesSlots(report: seq<bv8>)
    requires |report| == REPORT_SIZE
  {
    && (report[1] <= 2 || report[1] == 0xFF) && (report[2] <= 2 || report[2] == 0xFF)
    && (report[3] <= 2 || report[3] == 0xFF) && report[4] <= 2 && report[5] <= 2
  }

  /** The status of every command: 0 is fine, 1 a wrong CRC, 2 a wrong slot, 3 an empty slot, 4 a PIN the card
      refuses, 5 a missing password, 6 a time that would go back, 7 a record without a name, 100 nonsense. */
  function Status(d: Device, report: seq<bv8>, accepts: bool): bv8
    requires d.Valid() && |report| == REPORT_SIZE
  {
    if !CrcOk(report) then 1
    else if Refusable(d, report) && !(ShowsPassword(d, report) && (report[0] == 0x01 ==> d.started)) then
      (if d.silenced then 0 else 5)
    else if report[0] == 0x01 then (if d.slot.name[0] == 0 then 7 else if !IsSlotNumber(report[26]) then 2 else 0)
    else if report[0] == 0x17 then (if report[26] == 0x4E || report[26] == 0x53 then 0 else 100)
    else if report[0] == 0x02 || report[0] == 0x03 then
      (if !IsSlotNumber(report[1]) then 2 else if !IsProgrammed(d.flash, report[1]) then 3 else 0)
    else if report[0] == 0x04 then
      (if !IsSlotNumber(report[1]) then 2 else if report[1] != 0x13 && !IsProgrammed(d.flash, report[1]) then 3 else 0)
    else if report[0] == 0x05 then (if ChoosesSlots(report) then 0 else 100)
    else if report[0] == 0x06 then (if IsSlotNumber(report[1]) then 0 else 2)
    else if report[0] == 0x07 || report[0] == 0x0E || report[0] == 0x11 || report[0] == 0x13 then (if accepts then 0 else 4)
    else if report[0] == 0x0B then (if TakesTime(d.flash, report) then 0 else 6)
    else if report[0] == 0x18 then (if SlotAt(d.flash, 3).kind == 0x48 then 0 else 3)
    else 0
  }

  predicate TakesTime(f: Image, report: seq<bv8>)
    requires f.Valid() && |report| == REPORT_SIZE
  {
    SetTime.Accepts(TimeLog.TimeValue(Page(f, 509)), report[1], SetTime.MinutesSince(LittleNumber(report[2..10])))
  }

  lemma {:induction false} ProgrammedIs(f: Image, n: bv8)
    requires f.Valid() && IsSlotNumber(n)
    ensures SlotProgrammed(f, n) == IsProgrammed(f, n)
  {
    hide RecordOf, RecordNumber, RecordBytes, SlotAt;
    RecordIsRead(f, n);
    NumbersAreRecords(n);
  }

  lemma {:induction false} ReservedIs(n: bv8)
    ensures Reserved(n) <==> n == 0x13
  {
    if IsHotp(n) {
      LowBitsOf(n);
      OctetRoundTrip(n);
      assert ToByte(0x13) == 0x13;
    }
  }

  lemma {:induction false} HeaderStatus(report: seq<bv8>, status: bv8, x: seq<bv8>)
    requires |report| == REPORT_SIZE && |x| <= 53
    ensures Header(report)[6] == 0 && WithStatus(Header(report), status)[6] == status && WithResult(Header(report), x)[6] == 0
  {
  }

  lemma {:induction false} HeaderStatuses(report: seq<bv8>)
    requires |report| == REPORT_SIZE
    ensures Header(report)[6] == 0
    ensures forall status: bv8 :: WithStatus(Header(report), status)[6] == status
    ensures forall x: seq<bv8> :: |x| <= 53 ==> WithResult(Header(report), x)[6] == 0
  {
    hide Header, WithStatus, WithResult;
    forall status: bv8
      ensures WithStatus(Header(report), status)[6] == status
    {
      HeaderStatus(report, status, []);
    }
    forall x: seq<bv8> | |x| <= 53
      ensures WithResult(Header(report), x)[6] == 0
    {
      HeaderStatus(report, 0, x);
    }
    HeaderStatus(report, 0, []);
  }

  lemma {:induction false} CommitStatus(d: Device, report: seq<bv8>, accepts: bool)
    requires d.Valid() && |report| == REPORT_SIZE && CrcOk(report) && report[0] == 0x01
    ensures CommitAnswer(d, report, Header(report))[6] == Status(d, report, accepts)
  {
    hide CrcOk, Header, WithStatus, WithResult, IsSlotNumber, IsHotp, IsTotp, SlotIndex, EndianSwap, Dword, ConfigOf;
    HeaderStatuses(report);
    NumbersAreRecords(report[26]);
  }

  lemma {:induction false} SendStatus(d: Device, report: seq<bv8>, accepts: bool)
    requires d.Valid() && |report| == REPORT_SIZE && CrcOk(report) && report[0] == 0x17
    ensures SendAnswer(d, report, Header(report))[6] == Status(d, report, accepts)
  {
    hide CrcOk, Header, WithStatus, WithResult, Sent, ConfigOf;
    HeaderStatuses(report);
  }

  lemma {:induction false} ConfigStatus(d: Device, report: seq<bv8>, accepts: bool)
    requires d.Valid() && |report| == REPORT_SIZE && CrcOk(report) && report[0] == 0x05
    ensures ConfigAnswer(d, report, Header(report))[6] == Status(d, report, accepts)
  {
    hide CrcOk, Header, WithStatus, WithResult, ConfigOf;
    HeaderStatuses(report);
    var c := report[1..6];
    assert c[0] == report[1] && c[1] == report[2] && c[2] == report[3] && c[3] == report[4] && c[4] == report[5];
  }

  lemma {:induction false} EraseStatus(d: Device, report: seq<bv8>, accepts: bool)
    requires d.Valid() && |report| == REPORT_SIZE && CrcOk(report) && report[0] == 0x06
    ensures EraseAnswer(d, report, Header(report))[6] == Status(d, report, accepts)
  {
    hide CrcOk, Header, WithStatus, WithResult, IsSlotNumber, IsHotp, IsTotp, ConfigOf;
    HeaderStatuses(report);
    NumbersAreRecords(report[1]);
  }

  lemma {:induction false} CodeStatus(d: Device, report: seq<bv8>, accepts: bool, totp: bv32)
    requires d.Valid() && |report| == REPORT_SIZE && CrcOk(report) && report[0] == 0x04
    ensures CodeAnswer(d, report, totp, Header(report))[6] == Status(d, report, accepts)
  {
    hide CrcOk, Header, WithStatus, WithResult, IsHotp, IsTotp, Reserved, SlotProgrammed, IsProgrammed, CodeOf,
      CodeBytes, SlotAt,
      RecordOf;
    HeaderStatuses(report);
    NumbersAreRecords(report[1]);
    ReservedIs(report[1]);
    if IsSlotNumber(report[1]) {
      ProgrammedIs(d.flash, report[1]);
    }
    assert ConfigOf(d.flash)[3] == d.flash.cells[SLOTS_ADDRESS + 3];
  }

  lemma {:induction false} ReadStatus(d: Device, report: seq<bv8>, accepts: bool)
    requires d.Valid() && |report| == REPORT_SIZE && CrcOk(report) && (report[0] == 0x02 || report[0] == 0x03)
    ensures ReadAnswer(d, report, Header(report))[6] == Status(d, report, accepts)
    ensures NameAnswer(d, report, Header(report))[6] == Status(d, report, accepts)
  {
    hide CrcOk, Header, WithStatus, WithResult, IsHotp, IsTotp, IsSlotNumber, SlotProgrammed, IsProgrammed,
      ReadBytes, SlotAt, RecordOf,
      ConfigOf;
    HeaderStatuses(report);
    NumbersAreRecords(report[1]);
    if IsSlotNumber(report[1]) {
      ProgrammedIs(d.flash, report[1]);
    }
  }

  lemma {:induction false} VerifyStatus(d: Device, report: seq<bv8>, accepts: bool)
    requires d.Valid() && |report| == REPORT_SIZE && CrcOk(report) && report[0] == 0x18
    ensures VerifyAnswer(d.flash, report, Header(report))[6] == Status(d, report, accepts)
  {
    hide CrcOk, Header, WithStatus, WithResult, FirstMatch, CodeIn, SlotAt, ConfigOf;
    HeaderStatuses(report);
  }

  lemma {:induction false} TimeStatus(d: Device, report: seq<bv8>, accepts: bool)
    requires d.Valid() && |report| == REPORT_SIZE && CrcOk(report) && report[0] == 0x0B
    ensures TimeAnswer(d.flash, report, Header(report))[6] == Status(d, report, accepts)
  {
    hide CrcOk, Header, WithStatus, WithResult, SetTime.Accepts, SetTime.MinutesSince, TimeLog.TimeValue, ConfigOf, Page;
    HeaderStatuses(report);
  }

  /** The commands that check more than their CRC and the card. */
  predicate HasChecks(c: bv8) {
    c == 0x01 || c == 0x17 || c == 0x05 || c == 0x06 || c == 0x04 || c == 0x02 || c == 0x03 || c == 0x18 || c == 0x0B
  }

  /** Every answer of a command in the state machine has that status. */
  lemma {:induction false} StatusIs(d: Device, report: seq<bv8>, accepts: bool, totp: bv32)
    requires d.Valid() && |report| == REPORT_SIZE
    ensures Answer(d, report, accepts, totp)[6] == Status(d, report, accepts)
  {
    hide Answer, CrcOk, Header, WithStatus, CommitAnswer, SendAnswer, ConfigAnswer, EraseAnswer, CodeAnswer,
      ReadAnswer, NameAnswer,
      VerifyAnswer, TimeAnswer, Status, ConfigOf;
    AnswerIsBody(d, report, accepts, totp);
    if !CrcOk(report) || !HasChecks(report[0]) {
      OtherStatus(d, report, accepts, totp);
    } else if report[0] == 0x01 {
      CommitStatus(d, report, accepts);
    } else if report[0] == 0x17 {
      SendStatus(d, report, accepts);
    } else if report[0] == 0x05 {
      ConfigStatus(d, report, accepts);
    } else if report[0] == 0x06 {
      EraseStatus(d, report, accepts);
    } else if report[0] == 0x04 {
      CodeStatus(d, report, accepts, totp);
    } else if report[0] == 0x18 {
      VerifyStatus(d, report, accepts);
    } else if report[0] == 0x0B {
      TimeStatus(d, report, accepts);
    } else {
      ReadStatus(d, report, accepts);
    }
  }

  lemma {:induction false} OtherStatus(d: Device, report: seq<bv8>, accepts: bool, totp: bv32)
    requires d.Valid() && |report| == REPORT_SIZE
    requires !CrcOk(report) || !HasChecks(report[0])
    ensures Body(d, report, accepts, totp)[6] == Status(d, report, accepts)
  {
    hide CrcOk, Header, WithStatus, CommitAnswer, SendAnswer, ConfigAnswer, EraseAnswer, CodeAnswer, ReadAnswer, NameAnswer,
      VerifyAnswer, TimeAnswer, ConfigOf;
    HeaderStatuses(report);
  }
}
