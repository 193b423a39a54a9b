/** parse_report for the OTP commands: static variables, the flash, and the output report filled in place. */
module ReportProtocol {
  import opened Bytes
  import opened Dwords
  import opened FlashMemory
  import opened CounterPage
  import opened CounterRuns
  import opened OtpSlots
  import opened HotpValidation
  import opened Output
  import opened ReportAnswers
  import opened ReportState
  import Decimal
  import FactoryReset
  import TimeLog
  import SetTime
  import Crc

  /** A swapped word lies in memory with its least significant byte first. */
  lemma {:induction false} SwappedWordBytes(w: bv32)
    ensures WordBytes(ChangeEndian(w)) == Crc.LittleBytes(w)
  {
  }

  const SLOT_CONFIG_DIGITS := 0
  const SLOT_CONFIG_ENTER := 1
  const SLOT_CONFIG_TOKENID := 2
  /** What sendEnter types. */
  const ENTER: bv8 := 0x0A

  /** How send_hotp_slot tests a bit of the configuration: the masked value is compared with 1. */
  predicate HasFlag(config: bv8, bit: nat)
    requires bit < 3
  {
    config & (1 << bit) == 1
  }

  /** So only the lowest bit can be seen set; the token id and Enter are never typed. */
  lemma {:induction false} OnlyDigitsFlag(config: bv8)
    ensures !HasFlag(config, SLOT_CONFIG_TOKENID) && !HasFlag(config, SLOT_CONFIG_ENTER)
    ensures HasFlag(config, SLOT_CONFIG_DIGITS) <==> Digits(config) == 8
  {
  }

  class Protocol {
    const flash: Flash
    var adminSet: bool
    var adminPassword: seq<bv8>
    var userSet: bool
    var userPassword: seq<bv8>
    var started: bool
    var slot: Slot
    var silenced: bool

    ghost predicate Valid()
      reads this, flash
    {
      flash.Valid() && |adminPassword| == PASSWORD_SIZE && |userPassword| == PASSWORD_SIZE && slot.Valid()
    }

    ghost function State(): (d: Device)
      requires Valid()
      reads this, flash
      ensures d.Valid()
    {
      Device(flash.State(), adminSet, adminPassword, userSet, userPassword, started, slot, silenced)
    }

    constructor (flash: Flash)
      requires flash.Valid()
      ensures Valid() && this.flash == flash && !adminSet && !userSet && !started
    {
      this.flash := flash;
      adminSet := false;
      adminPassword := Fill(0, PASSWORD_SIZE);
      userSet := false;
      userPassword := Fill(0, PASSWORD_SIZE);
      started := false;
      slot := ZERO_SLOT;
      silenced := false;
    }

    method IsValidAdminTempPassword(password: seq<bv8>) returns (ok: bool)
      requires Valid()
      ensures ok == ValidPassword(State(), password)
    {
      ok := adminSet && password == adminPassword;
    }

    method IsValidTempUserPassword(password: seq<bv8>) returns (ok: bool)
      requires Valid()
      ensures ok == ValidUserPassword(State(), password)
    {
      ok := userSet && password == userPassword;
    }

    /** CMD_SEND_OTP_DATA */
    method SendOtpData(report: seq<bv8>, output: array<bv8>) returns (authorized: bool)
      requires Valid() && |report| == REPORT_SIZE && output.Length == REPORT_SIZE
      modifies this, output
      ensures Valid() && State() == Sent(old(State()), report) && silenced == old(silenced)
      ensures authorized == ValidPassword(old(State()), report[1..26])
      ensures output[..] == if authorized then SendAnswer(old(State()), report, old(output[..])) else old(output[..])
    {
      hide Splice, Region, WithChunk, ValidPassword;
      authorized := IsValidAdminTempPassword(report[1..26]);
      if !authorized {
        return;
      }
      var kind := report[26];
      if kind != TYPE_NAME && kind != TYPE_SECRET {
        output[OUTPUT_CMD_STATUS_OFFSET] := STATUS_UNKNOWN_ERROR;
        return;
      }
      if !started {
        slot := ZERO_SLOT;
      }
      started := true;
      StoreChunk(kind, report[27], report[28..58]);
      if kind == TYPE_NAME {
        Put(output, OUTPUT_CMD_RESULT_OFFSET, slot.name);
      } else {
        Put(output, OUTPUT_CMD_RESULT_OFFSET, slot.secret);
      }
    }

    /** The memcpy of a chunk into the record under construction. */
    method StoreChunk(kind: bv8, id: bv8, data: seq<bv8>)
      requires slot.Valid() && |data| == CHUNK_SIZE
      modifies `slot
      ensures slot == WithChunk(old(slot), Chunk(kind, id, data))
    {
      hide Splice;
      if kind == TYPE_NAME {
        slot := slot.(name := data[..15]);
      } else {
        var offset := Octet(id) * CHUNK_SIZE;
        if offset > SECRET_LENGTH {
          offset := 0;
        }
        slot := slot.(secret := Splice(slot.secret, offset, data[..ChunkCount(offset)]));
      }
    }

    /** CMD_WRITE_TO_SLOT */
    method WriteToSlotCommand(report: seq<bv8>, output: array<bv8>) returns (authorized: bool)
      requires Valid() && |report| == REPORT_SIZE && output.Length == REPORT_SIZE
      modifies this, flash, output
      ensures Valid() && State() == Committed(old(State()), report) && silenced == old(silenced)
      ensures authorized == Commits(old(State()), report)
      ensures output[..] == if authorized then CommitAnswer(old(State()), report, old(output[..])) else old(output[..])
    {
      hide SlotStored, Dword, EndianSwap, Region;
      authorized := IsValidAdminTempPassword(report[1..26]);
      authorized := authorized && started;
      if !authorized {
        return;
      }
      ghost var d := State();
      started := false;
      slot := Filled(slot, report);
      assert State() == d.(started := false, slot := Filled(d.slot, report));
      CmdWriteToSlot(output);
      assert Acceptable(Filled(d.slot, report)) <==> d.slot.name[0] != 0 && (IsHotp(report[26]) || IsTotp(report[26]));
    }

    /** cmd_write_to_slot */
    method CmdWriteToSlot(output: array<bv8>)
      requires Valid() && output.Length == REPORT_SIZE
      modifies this, flash, output
      ensures Valid() && State() == SlotStored(old(State()), old(slot)) && silenced == old(silenced)
      ensures output[..] == if old(slot.name[0]) == 0 then WithStatus(old(output[..]), STATUS_NO_NAME_ERROR)
                            else if !Acceptable(old(slot)) then WithStatus(old(output[..]), STATUS_WRONG_SLOT)
                            else if Ignored(old(slot)) then WithStatus(old(output[..]), STATUS_OK)
                            else old(output[..])
    {
      hide Region, CounterSet, SlotWritten, ToNumber, Unpacked, SlotIndex;
      if slot.name[0] == 0 {
        output[OUTPUT_CMD_STATUS_OFFSET] := STATUS_NO_NAME_ERROR;
        return;
      }
      if !IsHotp(slot.number) && !IsTotp(slot.number) {
        output[OUTPUT_CMD_STATUS_OFFSET] := STATUS_WRONG_SLOT;
        return;
      }
      if IsHotp(slot.number) {
        StoreHotp();
      } else if SlotIndex(slot.number) == NUMBER_OF_TOTP_SLOTS - 1 {
        output[OUTPUT_CMD_STATUS_OFFSET] := STATUS_OK;
      } else {
        StoreTotp();
      }
    }

    method StoreHotp()
      requires Valid() && Acceptable(slot) && IsHotp(slot.number)
      modifies this, flash
      ensures Valid() && State() == SlotStored(old(State()), old(slot)) && silenced == old(silenced)
    {
      hide Region, CounterSet, SlotWritten, ToNumber, Unpacked, SlotOffset, Kept;
      var n := SlotIndex(slot.number);
      NumberRoundTrip(slot.interval);
      SetCounterValue(flash, CounterPageOf(n), ToNumber(slot.interval));
      slot := slot.(number := slot.number & 0x0F, kind := TYPE_HOTP);
      slot := WriteToSlot(flash, slot, SlotOffset(n));
    }

    method StoreTotp()
      requires Valid() && Acceptable(slot) && !IsHotp(slot.number) && !Ignored(slot)
      modifies this, flash
      ensures Valid() && State() == SlotStored(old(State()), old(slot)) && silenced == old(silenced)
    {
      hide Region, CounterSet, SlotWritten, ToNumber, Unpacked, SlotOffset, Kept;
      var n := SlotIndex(slot.number);
      slot := slot.(number := slot.number & 0x0F, kind := TYPE_TOTP);
      slot := WriteToSlot(flash, slot, SlotOffset(NUMBER_OF_HOTP_SLOTS + n));
    }

    /** cmd_read_slot */
    method CmdReadSlot(report: seq<bv8>, output: array<bv8>)
      requires Valid() && |report| == REPORT_SIZE && output.Length == REPORT_SIZE
      modifies output
      ensures output[..] == ReadAnswer(State(), report, old(output[..]))
    {
      hide Region, Unpacked, CounterValue, Splice, DwordBytes, Dword, BigEndian, EndianSwap, SlotIndex;
      var n := report[1];
      if !IsHotp(n) && !IsTotp(n) {
        output[OUTPUT_CMD_STATUS_OFFSET] := STATUS_WRONG_SLOT;
        return;
      }
      var r := ReadSlot(flash, RecordOf(n));
      if r.kind != (if IsHotp(n) then TYPE_HOTP else TYPE_TOTP) {
        output[OUTPUT_CMD_STATUS_OFFSET] := STATUS_SLOT_NOT_PROGRAMMED;
        return;
      }
      var last;
      if IsHotp(n) {
        var counter := GetCounterValue(flash, PAGE_SIZE * CounterPageOf(SlotIndex(n)));
        if report[2] == 1 {
          last := DwordBytes(EndianSwap(FromNumber(counter)));
        } else {
          last := WriteCounter(counter);
        }
      } else {
        last := DwordBytes(EndianSwap(r.interval));
      }
      PutRecord(output, r, last);
    }

    static method WriteCounter(counter: nat) returns (b: seq<bv8>)
      ensures b == CounterText(counter)
    {
      hide Decimal.Text;
      var buf := new bv8[20](_ => 0);
      Decimal.Itoa(counter % Decimal.TWO32, buf);
      buf[7] := 0;
      b := buf[..8];
    }

    /** cmd_read_slot_name */
    method CmdReadSlotName(report: seq<bv8>, output: array<bv8>)
      requires Valid() && |report| == REPORT_SIZE && output.Length == REPORT_SIZE
      modifies output
      ensures output[..] == NameAnswer(State(), report, old(output[..]))
    {
      hide Region, Unpacked, Splice, SlotIndex;
      var n := report[1];
      if !IsHotp(n) && !IsTotp(n) {
        output[OUTPUT_CMD_STATUS_OFFSET] := STATUS_WRONG_SLOT;
        return;
      }
      var r := ReadSlot(flash, RecordOf(n));
      if r.kind != (if IsHotp(n) then TYPE_HOTP else TYPE_TOTP) {
        output[OUTPUT_CMD_STATUS_OFFSET] := STATUS_SLOT_NOT_PROGRAMMED;
        return;
      }
      Put(output, OUTPUT_CMD_RESULT_OFFSET, r.name);
    }

    /** CMD_GET_CODE; totp is what get_code_from_totp_slot computes from the clock. */
    method GetCodeCommand(report: seq<bv8>, totp: bv32, output: array<bv8>) returns (authorized: bool)
      requires Valid() && |report| == REPORT_SIZE && output.Length == REPORT_SIZE
      modifies flash, output
      ensures Valid() && State() == CodeGiven(old(State()), report)
      ensures authorized == MayGetCode(old(State()), report)
      ensures output[..] == if authorized then CodeAnswer(old(State()), report, totp, old(output[..])) else old(output[..])
    {
      hide CodeGiven, CodeAnswer, ValidUserPassword;
      authorized := flash.cells[SLOTS_ADDRESS + PIN_PROTECTION_OFFSET] != 1;
      if !authorized {
        authorized := IsValidTempUserPassword(report[19..44]);
      }
      if authorized {
        CmdGetCode(report, totp, output);
      } else {
        NoCodeGiven(State(), report);
      }
    }

    static lemma {:induction false} NoCodeGiven(d: Device, report: seq<bv8>)
      requires d.Valid() && |report| == REPORT_SIZE && !MayGetCode(d, report)
      ensures CodeGiven(d, report) == d
    {
      hide MayGetCode, Programmed;
    }

    /** cmd_get_code */
    method CmdGetCode(report: seq<bv8>, totp: bv32, output: array<bv8>)
      requires Valid() && |report| == REPORT_SIZE && output.Length == REPORT_SIZE && MayGetCode(State(), report)
      modifies flash, output
      ensures Valid() && State() == CodeGiven(old(State()), report)
      ensures output[..] == CodeAnswer(old(State()), report, totp, old(output[..]))
    {
      hide SlotAt, Splice, SlotIndex, Increments, MayGetCode, CodeOf, CodeBytes;
      var n := report[1];
      if !IsHotp(n) && !IsTotp(n) {
        output[OUTPUT_CMD_STATUS_OFFSET] := STATUS_WRONG_SLOT;
        return;
      }
      if Reserved(n) {
        return;
      }
      var r := ReadSlot(flash, RecordOf(n));
      if r.kind != (if IsHotp(n) then TYPE_HOTP else TYPE_TOTP) {
        output[OUTPUT_CMD_STATUS_OFFSET] := STATUS_SLOT_NOT_PROGRAMMED;
        return;
      }
      var result := TakeCode(n, totp);
      r := ReadSlot(flash, RecordOf(n));
      PutCode(output, result, r);
    }

    /** The code of a programmed slot; taking it leaves the record alone. */
    method TakeCode(n: bv8, totp: bv32) returns (result: bv32)
      requires Valid() && SlotProgrammed(flash.State(), n)
      modifies flash
      ensures Valid() && result == CodeOf(old(flash.State()), n, totp)
      ensures flash.State() == if IsHotp(n) then Increments(old(flash.State()), CounterPageOf(SlotIndex(n)), 1) else old(flash.State())
      ensures SlotAt(flash.State(), RecordOf(n)) == SlotAt(old(flash.State()), RecordOf(n))
    {
      hide Region, Unpacked, SlotIndex, Increments, CodeAt, ToWord, SlotOffset;
      result := totp;
      if IsHotp(n) {
        ghost var f := flash.State();
        var code := GetCode(flash, SlotIndex(n));
        result := ToWord(code);
        IncrementsOutside(f, CounterPageOf(SlotIndex(n)), 1, SLOTS_ADDRESS + SlotOffset(RecordOf(n)), SLOT_BYTES);
      }
    }

    static method PutCode(output: array<bv8>, result: bv32, s: Slot)
      requires output.Length == REPORT_SIZE && s.Valid()
      modifies output
      ensures output[..] == WithResult(old(output[..]), CodeBytes(result, s))
    {
      hide Splice, ChangeEndian, WordBytes, Crc.LittleBytes;
      ghost var b := output[..];
      SwappedWordBytes(result);
      Put(output, OUTPUT_CMD_RESULT_OFFSET, WordBytes(ChangeEndian(result)));
      Put(output, OUTPUT_CMD_RESULT_OFFSET + 4, [s.config]);
      SpliceTwice(b, OUTPUT_CMD_RESULT_OFFSET, Crc.LittleBytes(result), [s.config]);
      Put(output, OUTPUT_CMD_RESULT_OFFSET + 5, s.tokenId);
      SpliceTwice(b, OUTPUT_CMD_RESULT_OFFSET, Crc.LittleBytes(result) + [s.config], s.tokenId);
    }

    static method PutRecord(output: array<bv8>, r: Slot, last: seq<bv8>)
      requires output.Length == REPORT_SIZE && |r.name| == 15 && |r.tokenId| == 13 && |last| == 8
      modifies output
      ensures output[..] == WithResult(old(output[..]), r.name + [r.config] + r.tokenId + last)
    {
      hide Splice;
      ghost var b := output[..];
      Put(output, OUTPUT_CMD_RESULT_OFFSET, r.name);
      Put(output, OUTPUT_CMD_RESULT_OFFSET + 15, [r.config]);
      SpliceTwice(b, OUTPUT_CMD_RESULT_OFFSET, r.name, [r.config]);
      Put(output, OUTPUT_CMD_RESULT_OFFSET + 16, r.tokenId);
      SpliceTwice(b, OUTPUT_CMD_RESULT_OFFSET, r.name + [r.config], r.tokenId);
      Put(output, OUTPUT_CMD_RESULT_OFFSET + 29, last);
      SpliceTwice(b, OUTPUT_CMD_RESULT_OFFSET, r.name + [r.config] + r.tokenId, last);
    }

    /** CMD_WRITE_CONFIG and write_to_config */
    method WriteConfig(report: seq<bv8>, output: array<bv8>) returns (authorized: bool)
      requires Valid() && |report| == REPORT_SIZE && output.Length == REPORT_SIZE
      modifies this, flash, output
      ensures Valid() && State() == ConfigStored(old(State()), report) && silenced == old(silenced)
      ensures authorized == ValidPassword(old(State()), report[6..31])
      ensures output[..] == if authorized then ConfigAnswer(old(State()), report, old(output[..])) else old(output[..])
    {
      hide Splice, SlotsRewritten, SlotChoice;
      authorized := IsValidAdminTempPassword(report[6..31]);
      if !authorized {
        return;
      }
      var config := report[1..6];
      if !(SlotChoice(config[0]) && SlotChoice(config[1]) && SlotChoice(config[2]) && config[3] <= 2 && config[4] <= 2) {
        output[OUTPUT_CMD_STATUS_OFFSET] := STATUS_UNKNOWN_ERROR;
        return;
      }
      var pageBuffer := flash.cells[SLOTS_ADDRESS..SLOTS_ADDRESS + SLOTS_SIZE];
      pageBuffer := Splice(pageBuffer, GLOBAL_CONFIG_OFFSET, config);
      RewriteSlots(flash, pageBuffer);
    }

    /** CMD_ERASE_SLOT, the record part of cmd_erase_slot */
    method EraseSlot(report: seq<bv8>, output: array<bv8>) returns (authorized: bool)
      requires Valid() && |report| == REPORT_SIZE && output.Length == REPORT_SIZE
      modifies this, flash, output
      ensures Valid() && State() == SlotErased(old(State()), report) && silenced == old(silenced)
      ensures authorized == ValidPassword(old(State()), report[2..27])
      ensures output[..] == if authorized then EraseAnswer(old(State()), report, old(output[..])) else old(output[..])
    {
      hide SlotWritten, SlotOffset, SlotIndex, Unpacked, Region;
      authorized := IsValidAdminTempPassword(report[2..27]);
      if !authorized {
        return;
      }
      var n := report[1];
      if !IsHotp(n) && !IsTotp(n) {
        output[OUTPUT_CMD_STATUS_OFFSET] := STATUS_WRONG_SLOT;
        return;
      }
      BlankSecretIsNotEmpty();
      var written := WriteToSlot(flash, BLANK_SLOT, SlotOffset(RecordOf(n)));
    }

    static lemma {:induction false} BlankSecretIsNotEmpty()
      ensures BLANK_SLOT.Valid() && BLANK_SLOT.secret != Fill(0, SECRET_LENGTH)
    {
      assert BLANK_SLOT.secret[0] != Fill(0, SECRET_LENGTH)[0];
    }

    /** cmd_first_authenticate */
    method FirstAuthenticate(report: seq<bv8>, accepts: bool, output: array<bv8>)
      requires Valid() && |report| == REPORT_SIZE && output.Length == REPORT_SIZE
      modifies this, output
      ensures Valid() && State() == Authenticated(old(State()), report, accepts)
      ensures output[..] == if accepts then old(output[..]) else WithStatus(old(output[..]), STATUS_WRONG_PASSWORD)
    {
      adminPassword := Fill(0, PASSWORD_SIZE);
      adminSet := false;
      if accepts {
        adminPassword := report[26..51];
        adminSet := true;
      } else {
        output[OUTPUT_CMD_STATUS_OFFSET] := STATUS_WRONG_PASSWORD;
      }
    }

    /** cmd_user_authenticate */
    method UserAuthenticate(report: seq<bv8>, accepts: bool, output: array<bv8>)
      requires Valid() && |report| == REPORT_SIZE && output.Length == REPORT_SIZE
      modifies this, output
      ensures Valid() && State() == UserAuthenticated(old(State()), report, accepts)
      ensures output[..] == if accepts then old(output[..]) else WithStatus(old(output[..]), STATUS_WRONG_PASSWORD)
    {
      userPassword := Fill(0, PASSWORD_SIZE);
      userSet := false;
      if accepts {
        userPassword := report[26..51];
        userSet := true;
      } else {
        output[OUTPUT_CMD_STATUS_OFFSET] := STATUS_WRONG_PASSWORD;
      }
    }

    /** cmd_getFactoryReset; noise is what rand yields. */
    method FactoryResetCommand(accepts: bool, noise: seq<seq<bv8>>, output: array<bv8>)
      requires Valid() && output.Length == REPORT_SIZE && FactoryReset.IsNoise(noise)
      modifies flash, output
      ensures Valid() && State() == if accepts then old(State()).(flash := FactoryReset.Reset(old(flash.State()))) else old(State())
      ensures output[..] == if accepts then old(output[..]) else WithStatus(old(output[..]), STATUS_WRONG_PASSWORD)
    {
      hide FactoryReset.Reset;
      if !accepts {
        output[OUTPUT_CMD_STATUS_OFFSET] := STATUS_WRONG_PASSWORD;
        return;
      }
      FactoryReset.EraseLocalFlashKeyValues(flash, noise);
    }

    /** cmd_lock_device */
    method LockDevice()
      requires Valid()
      modifies this
      ensures Valid() && State() == Locked(old(State()))
    {
      adminSet := false;
      userSet := false;
      adminPassword := Fill(0, PASSWORD_SIZE);
      userPassword := Fill(0, PASSWORD_SIZE);
    }

    /** cmd_verify_code */
    method VerifyCode(report: seq<bv8>, output: array<bv8>)
      requires Valid() && |report| == REPORT_SIZE && output.Length == REPORT_SIZE
      modifies flash, output
      ensures Valid() && State() == old(State()).(flash := CodeVerified(old(flash.State()), report))
      ensures output[..] == VerifyAnswer(old(flash.State()), report, old(output[..]))
    {
      hide Region, Unpacked, CodeAt, Splice, Validated, Programmed, FirstMatch;
      ghost var f := flash.State();
      var hotpSlot := ReadSlot(flash, HOTP_VERIFY_SLOT);
      ProgrammedMeans(f, HOTP_VERIFY_SLOT);
      if hotpSlot.kind != TYPE_HOTP {
        output[OUTPUT_CMD_STATUS_OFFSET] := STATUS_SLOT_NOT_PROGRAMMED;
        return;
      }
      var word := Getu32(report[1..5]);
      var result := ValidateCode(flash, HOTP_VERIFY_SLOT, Unsigned(word));
      FirstMatchIs(f, HOTP_VERIFY_SLOT, CodeIn(report), 0, if result >= 0 then result else LOOK_AHEAD);
      ValidatedMeans(f, HOTP_VERIFY_SLOT, CodeIn(report));
      Put(output, OUTPUT_CMD_RESULT_OFFSET, [if result >= 0 then 1 else 0, ResultByte(result)]);
    }

    /** CMD_SET_TIME */
    method SetTimeCommand(report: seq<bv8>, output: array<bv8>)
      requires Valid() && |report| == REPORT_SIZE && output.Length == REPORT_SIZE
      modifies flash, output
      ensures Valid() && State() == old(State()).(flash := TimeServed(old(flash.State()), report))
      ensures output[..] == TimeAnswer(old(flash.State()), report, old(output[..]))
    {
      hide Region, TimeLog.TimeValue, TimeLog.TimeSet, SetTime.Accepts, SetTime.MinutesSince, LittleNumber;
      var failed, currentTime := SetTime.CmdSetTime(flash, report, output);
    }

    /** The commands that may be refused. */
    method Guarded(report: seq<bv8>, ghost accepts: bool, totp: bv32, output: array<bv8>)
      requires Valid() && |report| == REPORT_SIZE && output.Length == REPORT_SIZE && CrcOk(report)
      requires report[0] == CMD_WRITE_TO_SLOT || report[0] == CMD_SEND_OTP_DATA
            || report[0] == CMD_WRITE_CONFIG || report[0] == CMD_ERASE_SLOT || report[0] == CMD_GET_CODE
      requires output[..] == Header(report)
      modifies this, flash, output
      ensures Valid() && State() == Next(old(State()), report, accepts)
      ensures output[..] == Body(old(State()), report, accepts, totp)
    {
      hide CrcOk, Committed, Sent, ConfigStored, SlotErased, Commits, ValidPassword, Header, Region, Splice, Filled,
        ConfigValid;
      var authorized;
      if report[0] == CMD_WRITE_TO_SLOT {
        authorized := WriteToSlotCommand(report, output);
      } else if report[0] == CMD_SEND_OTP_DATA {
        authorized := SendOtpData(report, output);
      } else if report[0] == CMD_WRITE_CONFIG {
        authorized := WriteConfig(report, output);
      } else if report[0] == CMD_ERASE_SLOT {
        authorized := EraseSlot(report, output);
      } else {
        authorized := GetCodeCommand(report, totp, output);
      }
      if !authorized {
        output[OUTPUT_CMD_STATUS_OFFSET] := if silenced then STATUS_OK else STATUS_NOT_AUTHORIZED;
      }
    }

    /** parse_report: check the CRC, run the command, and put a CRC on the answer. */
    method ParseReport(report: seq<bv8>, accepts: bool, totp: bv32, noise: seq<seq<bv8>>, output: array<bv8>)
      requires Valid() && |report| == REPORT_SIZE && FactoryReset.IsNoise(noise) && output.Length == REPORT_SIZE
      modifies this, flash, output
      ensures Valid() && State() == Next(old(State()), report, accepts)
      ensures output[..] == Answer(old(State()), report, accepts, totp)
    {
      hide CrcOk, Next, Body, Sealed, Splice, Region, Header, Fill;
      ghost var d := State();
      InitOutput(report, output);
      var received := Getu32(report[60..64]);
      var calculated := Crc.GenerateCrcLen(report, 15);
      CrcOkMeans(report);
      if calculated != received {
        output[OUTPUT_CMD_STATUS_OFFSET] := STATUS_WRONG_CRC;
        WrongCrc(d, report, accepts, totp);
      } else if report[0] == CMD_WRITE_TO_SLOT || report[0] == CMD_SEND_OTP_DATA
             || report[0] == CMD_WRITE_CONFIG || report[0] == CMD_ERASE_SLOT || report[0] == CMD_GET_CODE {
        Guarded(report, accepts, totp, output);
      } else {
        Unguarded(report, accepts, totp, noise, output);
      }
      Seal(output);
    }

    static method InitOutput(report: seq<bv8>, output: array<bv8>)
      requires |report| == REPORT_SIZE && output.Length == REPORT_SIZE
      modifies output
      ensures output[..] == Header(report)
    {
      hide LittleWord, Crc.LittleBytes;
      for i := 0 to REPORT_SIZE
        invariant forall j: nat :: j < i ==> output[j] == 0
      {
        output[i] := 0;
      }
      output[1] := report[0];
      var received := Getu32(report[60..64]);
      Crc.LittleBytesOfWord(report[60..64]);
      var bytes := Crc.LittleBytes(received);
      output[2] := bytes[0];
      output[3] := bytes[1];
      output[4] := bytes[2];
      output[5] := bytes[3];
    }

    static method Seal(output: array<bv8>)
      requires output.Length == REPORT_SIZE
      modifies output
      ensures output[..] == Sealed(old(output[..]))
    {
      hide Splice, Crc.CrcOf, Crc.LittleBytes;
      var crc := Crc.GenerateCrcLen(output[..], 15);
      Put(output, OUTPUT_CRC_OFFSET, Crc.LittleBytes(crc));
    }

    method Unguarded(report: seq<bv8>, accepts: bool, ghost totp: bv32, noise: seq<seq<bv8>>, output: array<bv8>)
      requires Valid() && |report| == REPORT_SIZE && FactoryReset.IsNoise(noise) && output.Length == REPORT_SIZE && CrcOk(report)
      requires report[0] != CMD_WRITE_TO_SLOT && report[0] != CMD_SEND_OTP_DATA
      requires report[0] != CMD_WRITE_CONFIG && report[0] != CMD_ERASE_SLOT && report[0] != CMD_GET_CODE
      requires output[..] == Header(report)
      modifies this, flash, output
      ensures Valid() && State() == Next(old(State()), report, accepts)
      ensures output[..] == Body(old(State()), report, accepts, totp)
    {
      hide CrcOk, Header, ReadAnswer, NameAnswer, UserAuthenticated, FactoryReset.Reset, TimeAnswer, VerifyAnswer,
        TimeServed,
        CodeVerified, Locked, Authenticated, Region;
      var command := report[0];
      if command == CMD_READ_SLOT {
        CmdReadSlot(report, output);
      } else if command == CMD_READ_SLOT_NAME {
        CmdReadSlotName(report, output);
      } else if command == CMD_USER_AUTHENTICATE {
        UserAuthenticate(report, accepts, output);
      } else if command == CMD_UNLOCK_USER_PASSWORD {
        if !accepts {
          output[OUTPUT_CMD_STATUS_OFFSET] := STATUS_WRONG_PASSWORD;
        }
      } else if command == CMD_FACTORY_RESET {
        FactoryResetCommand(accepts, noise, output);
      } else if command == CMD_FIRST_AUTHENTICATE {
        FirstAuthenticate(report, accepts, output);
      } else if command == CMD_AUTHORIZE || command == CMD_USER_AUTHORIZE {
        output[OUTPUT_CMD_STATUS_OFFSET] := STATUS_OK;
        silenced := true;
      } else if command == CMD_LOCK_DEVICE {
        LockDevice();
      } else if command == CMD_SET_TIME {
        SetTimeCommand(report, output);
      } else if command == CMD_VERIFY_OTP_CODE {
        VerifyCode(report, output);
      }
    }

    // ----- the lock keys

    /** A click of a lock key in OTP_main. */
    method ClickKey(key: nat) returns (typed: seq<bv8>)
      requires Valid() && key < LOCK_KEYS
      modifies flash
      ensures Valid() && State() == Clicked(old(State()), key)
      ensures typed == TypedText(old(flash.State()), key)
    {
      hide Programmed, Increments, CodeAt, SlotAt;
      var slotNumber := Octet(flash.cells[SLOTS_ADDRESS + GLOBAL_CONFIG_OFFSET + key]);
      typed := SendHotpSlot(slotNumber);
    }

    /** send_hotp_slot, with what it types. */
    method SendHotpSlot(slotNo: nat) returns (typed: seq<bv8>)
      requires Valid()
      modifies flash
      ensures Valid()
      ensures slotNo <= 1 && Programmed(old(flash.State()), slotNo) ==>
                && flash.State() == Increments(old(flash.State()), CounterPageOf(slotNo), 1)
                && typed == Decimal.Padded(CodeAt(old(flash.State()), slotNo, 0), Digits(SlotAt(old(flash.State()), slotNo).config))
      ensures !(slotNo <= 1 && Programmed(old(flash.State()), slotNo)) ==> flash.State() == old(flash.State()) && typed == []
    {
      hide Region, Unpacked, Increments, CodeAt, SlotOffset, HasFlag, Decimal.Padded;
      typed := [];
      if slotNo > 1 {
        return;
      }
      var slot := ReadSlot(flash, slotNo);
      if slot.kind != TYPE_HOTP {
        return;
      }
      ghost var f := flash.State();
      var code := GetCode(flash, slotNo);
      IncrementsOutside(f, CounterPageOf(slotNo), 1, SLOTS_ADDRESS + SlotOffset(slotNo), SLOT_BYTES);
      slot := ReadSlot(flash, slotNo);
      if HasFlag(slot.config, SLOT_CONFIG_TOKENID) {
        typed := slot.tokenId[..12];
      }
      var number := Decimal.SendNumberN(code, if HasFlag(slot.config, SLOT_CONFIG_DIGITS) then 8 else 6);
      typed := typed + number;
      if HasFlag(slot.config, SLOT_CONFIG_ENTER) {
        typed := typed + [ENTER];
      }
      OnlyDigitsFlag(slot.config);
    }
  }
}
