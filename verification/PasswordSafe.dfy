/** The password safe: sixteen encrypted records, written through one shared buffer. */
module PasswordSafe {
  import opened Bytes
  import opened FlashMemory
  import opened Output

  const PWS_FLASH_START_PAGE := 510
  const PWS_START := PAGE_SIZE * PWS_FLASH_START_PAGE
  const PWS_SLOT_COUNT := 16
  const PWS_SLOT_LENGTH := 64
  const PWS_SLOTNAME_START := 1
  const PWS_SLOTNAME_LENGTH := 11
  const PWS_PASSWORD_START := 12
  const PWS_PASSWORD_LENGTH := 20
  const PWS_LOGINNAME_START := 32
  const PWS_LOGINNAME_LENGTH := 32
  const PWS_SLOT_ACTIV_TOKEN: bv8 := 0xA5
  const PWS_SLOT_INACTIV_TOKEN: bv8 := 0x5A

  /** The hardware cipher of one slot under the safe's key; all that is asked of it is that decryption undoes
      encryption on records of the length of a slot. */
  datatype Cipher = Cipher(encrypt: (seq<bv8>, nat, seq<bv8>) -> seq<bv8>, decrypt: (seq<bv8>, nat,
          seq<bv8>) -> seq<bv8>) {
    ghost predicate Valid() {
      && (forall k, n, x :: |x| == PWS_SLOT_LENGTH ==> |encrypt(k, n, x)| == |x| && |decrypt(k, n, x)| == |x|)
      && (forall k, n, x :: |x| == PWS_SLOT_LENGTH ==> decrypt(k, n, encrypt(k, n, x)) == x)
    }
  }

  // ----- records

  function Entry(state: bv8, name: seq<bv8>, password: seq<bv8>, login: seq<bv8>): (b: seq<bv8>)
    requires |name| == PWS_SLOTNAME_LENGTH && |password| == PWS_PASSWORD_LENGTH && |login| == PWS_LOGINNAME_LENGTH
    ensures |b| == PWS_SLOT_LENGTH
  {
    [state] + name + password + login
  }

  /** Slot n as the key decrypts it. */
  function Decrypted(c: Cipher, key: seq<bv8>, f: Image, n: nat): (b: seq<bv8>)
    requires c.Valid() && f.Valid() && n < PWS_SLOT_COUNT
    ensures |b| == PWS_SLOT_LENGTH
  {
    c.decrypt(key, n, Region(f, PWS_START + PWS_SLOT_LENGTH * n, PWS_SLOT_LENGTH))
  }

  /** The safe as a map from slot numbers to decrypted records. */
  function Safe(c: Cipher, key: seq<bv8>, f: Image): (m: seq<seq<bv8>>)
    requires c.Valid() && f.Valid()
    ensures |m| == PWS_SLOT_COUNT
  {
    seq(PWS_SLOT_COUNT, n requires 0 <= n < PWS_SLOT_COUNT => Decrypted(c, key, f, n))
  }

  function Stored(c: Cipher, key: seq<bv8>, f: Image, n: nat, entry: seq<bv8>): (g: Image)
    requires c.Valid() && f.Valid() && n < PWS_SLOT_COUNT && |entry| == PWS_SLOT_LENGTH
    ensures g.Valid()
  {
    Store(f, PWS_START + PWS_SLOT_LENGTH * n, c.encrypt(key, n, entry), true)
  }

  lemma {:induction false} StoredDecrypts(c: Cipher, key: seq<bv8>, f: Image, n: nat, entry: seq<bv8>, m: nat)
    requires c.Valid() && f.Valid() && n < PWS_SLOT_COUNT && |entry| == PWS_SLOT_LENGTH && m < PWS_SLOT_COUNT
    ensures Decrypted(c, key, Stored(c, key, f, n, entry), m) == if m == n then entry else Decrypted(c, key, f, m)
  {
    hide Region, Store;
    var (a, x) := (PWS_START + PWS_SLOT_LENGTH * n, c.encrypt(key, n, entry));
    if m == n {
      StoreInside(f, a, PWS_SLOT_LENGTH, 0, x, true);
      SpliceWhole(Region(f, a, PWS_SLOT_LENGTH), x);
    } else {
      StoreOutside(f, PWS_START + PWS_SLOT_LENGTH * m, PWS_SLOT_LENGTH, a, x, true);
    }
  }

  /** Storing a record is one update of the map. */
  lemma {:induction false} StoredUpdatesSafe(c: Cipher, key: seq<bv8>, f: Image, n: nat, entry: seq<bv8>)
    requires c.Valid() && f.Valid() && n < PWS_SLOT_COUNT && |entry| == PWS_SLOT_LENGTH
    ensures Safe(c, key, Stored(c, key, f, n, entry)) == Safe(c, key, f)[n := entry]
  {
    hide Stored, Decrypted;
    var g := Stored(c, key, f, n, entry);
    forall m | 0 <= m < PWS_SLOT_COUNT
      ensures Safe(c, key, g)[m] == Safe(c, key, f)[n := entry][m]
    {
      StoredDecrypts(c, key, f, n, entry, m);
    }
  }

  /** Nothing outside the safe's two pages changes. */
  lemma {:induction false} StoredElsewhere(c: Cipher, key: seq<bv8>, f: Image, n: nat, entry: seq<bv8>, a: nat,
          len: nat)
    requires c.Valid() && f.Valid() && n < PWS_SLOT_COUNT && |entry| == PWS_SLOT_LENGTH && a + len <= PWS_START
    ensures Region(Stored(c, key, f, n, entry), a, len) == Region(f, a, len)
  {
  }

  // ----- the three parts that are read

  function NameOf(entry: seq<bv8>): (b: seq<bv8>)
    requires |entry| == PWS_SLOT_LENGTH
  {
    entry[PWS_SLOTNAME_START..PWS_SLOTNAME_START + PWS_SLOTNAME_LENGTH]
  }

  function PasswordOf(entry: seq<bv8>): (b: seq<bv8>)
    requires |entry| == PWS_SLOT_LENGTH
  {
    entry[PWS_PASSWORD_START..PWS_PASSWORD_START + PWS_PASSWORD_LENGTH]
  }

  function LoginOf(entry: seq<bv8>): (b: seq<bv8>)
    requires |entry| == PWS_SLOT_LENGTH
  {
    entry[PWS_LOGINNAME_START..]
  }

  /** The buffer after the first of the two set reports. */
  function FirstHalf(r1: seq<bv8>): (b: seq<bv8>)
    requires |r1| == 64
    ensures |b| == PWS_SLOT_LENGTH
  {
    Entry(0, r1[2..13], r1[13..33], [r1[33]] + Fill(0, 31))
  }

  /** The record that is encrypted after the second. */
  function BothHalves(buffer: seq<bv8>, r2: seq<bv8>): (b: seq<bv8>)
    requires |buffer| == PWS_SLOT_LENGTH && |r2| == 64
    ensures |b| == PWS_SLOT_LENGTH
  {
    Splice(buffer, PWS_LOGINNAME_START, r2[2..34])[0 := PWS_SLOT_ACTIV_TOKEN]
  }

  /** Name, password and login name are those of the two reports: the byte that overran into the login is rewritten. */
  lemma {:induction false} ReportsMakeEntry(r1: seq<bv8>, r2: seq<bv8>)
    requires |r1| == 64 && |r2| == 64
    ensures var e := BothHalves(FirstHalf(r1), r2);
            && e == Entry(PWS_SLOT_ACTIV_TOKEN, r1[2..13], r1[13..33], r2[2..34])
            && NameOf(e) == r1[2..13] && PasswordOf(e) == r1[13..33] && LoginOf(e) == r2[2..34]
  {
  }

  // ----- the static state and its operations

  class Safes {
    const flash: Flash
    const cipher: Cipher
    var unlocked: bool
    var key: seq<bv8>
    /** PWS_BufferSlot_st, which encryption happens in. */
    var buffer: seq<bv8>

    ghost predicate Valid()
      reads this, flash
    {
      flash.Valid() && cipher.Valid() && |buffer| == PWS_SLOT_LENGTH
    }

    ghost function Contents(): (m: seq<seq<bv8>>)
      requires Valid()
      reads this, flash
      ensures |m| == PWS_SLOT_COUNT
    {
      Safe(cipher, key, flash.State())
    }

    constructor (flash: Flash, cipher: Cipher)
      requires flash.Valid() && cipher.Valid()
      ensures Valid() && !unlocked && this.flash == flash && this.cipher == cipher
    {
      this.flash := flash;
      this.cipher := cipher;
      unlocked := false;
      key := [];
      buffer := Fill(0, PWS_SLOT_LENGTH);
    }

    /** PWS_WriteSlot on the shared buffer, which is left encrypted. */
    method WriteSlot(n: nat) returns (ok: bool)
      requires Valid()
      modifies flash, `buffer
      ensures Valid() && ok == (n < PWS_SLOT_COUNT && unlocked)
      ensures !ok ==> flash.State() == old(flash.State()) && buffer == old(buffer)
      ensures ok ==> flash.State() == Stored(cipher, key, old(flash.State()), n, old(buffer)[0 := PWS_SLOT_ACTIV_TOKEN])
      ensures ok ==> buffer == cipher.encrypt(key, n, old(buffer)[0 := PWS_SLOT_ACTIV_TOKEN])
    {
      hide Store;
      if PWS_SLOT_COUNT <= n {
        return false;
      }
      if !unlocked {
        return false;
      }
      buffer := buffer[0 := PWS_SLOT_ACTIV_TOKEN];
      buffer := cipher.encrypt(key, n, buffer);
      flash.Memcpy(PWS_START + PWS_SLOT_LENGTH * n, buffer, true);
      return true;
    }

    /** PWS_EraseSlot */
    method EraseSlot(n: nat) returns (ok: bool)
      requires Valid()
      modifies flash
      ensures Valid() && ok == (n < PWS_SLOT_COUNT && unlocked)
      ensures !ok ==> flash.State() == old(flash.State())
      ensures ok ==> Contents() == old(Contents())[n := [0x5A] + Fill(0, 63)]
    {
      hide Store, Safe;
      if PWS_SLOT_COUNT <= n {
        return false;
      }
      if !unlocked {
        return false;
      }
      var slot := Fill(0, PWS_SLOT_LENGTH)[0 := PWS_SLOT_INACTIV_TOKEN];
      assert slot == [0x5A] + Fill(0, 63);
      StoredUpdatesSafe(cipher, key, flash.State(), n, slot);
      flash.Memcpy(PWS_START + PWS_SLOT_LENGTH * n, cipher.encrypt(key, n, slot), true);
      return true;
    }

    /** PWS_ReadSlot */
    method ReadSlot(n: nat) returns (ok: bool, slot: seq<bv8>)
      requires Valid()
      ensures ok == (n < PWS_SLOT_COUNT && unlocked)
      ensures ok ==> slot == Contents()[n] && |slot| == PWS_SLOT_LENGTH
    {
      slot := [];
      if PWS_SLOT_COUNT <= n {
        return false, slot;
      }
      if !unlocked {
        return false, slot;
      }
      var at := PWS_START + PWS_SLOT_LENGTH * n;
      var bytes := flash.cells[at..at + PWS_SLOT_LENGTH];
      assert bytes == Region(flash.State(), at, PWS_SLOT_LENGTH);
      slot := cipher.decrypt(key, n, bytes);
      return true, slot;
    }

    /** PWS_GetAllSlotStatus */
    method GetAllSlotStatus() returns (ok: bool, status: seq<bool>)
      requires Valid()
      ensures ok == unlocked && |status| == PWS_SLOT_COUNT
      ensures !ok ==> forall i :: 0 <= i < PWS_SLOT_COUNT ==> !status[i]
      ensures ok ==> forall i :: 0 <= i < PWS_SLOT_COUNT ==>
                (status[i] <==> Decrypted(cipher, key, flash.State(), i)[0] == 0xA5)
    {
      hide Decrypted;
      status := seq(PWS_SLOT_COUNT, i => false);
      if !unlocked {
        return false, status;
      }
      for i := 0 to PWS_SLOT_COUNT
        invariant |status| == PWS_SLOT_COUNT
        invariant forall j :: i <= j < PWS_SLOT_COUNT ==> !status[j]
        invariant forall j :: 0 <= j < i ==>
                    (status[j] <==> Decrypted(cipher, key, flash.State(), j)[0] == PWS_SLOT_ACTIV_TOKEN)
      {
        var read, slot := ReadSlot(i);
        if read && slot[0] == PWS_SLOT_ACTIV_TOKEN {
          status := status[i := true];
        }
      }
      return true, status;
    }

    /** CMD_SET_PW_SAFE_SLOT_DATA_1 and PWS_WriteSlotData_1: the last copy runs over the name into the
        password and the first byte of the login name. */
    method SetSlotData1(report: seq<bv8>, output: array<bv8>)
      requires Valid() && |report| == 64 && output.Length == 64
      modifies `buffer, output
      ensures Valid() && buffer == FirstHalf(report)
      ensures output[..] == old(output[..])[OUTPUT_CMD_STATUS_OFFSET := STATUS_OK]
    {
      hide Splice;
      var name, password := report[2..], report[2 + PWS_SLOTNAME_LENGTH..];
      buffer := Fill(0, PWS_SLOT_LENGTH);
      buffer := Splice(buffer, PWS_SLOTNAME_START, name[..PWS_SLOTNAME_LENGTH]);
      buffer := Splice(buffer, PWS_PASSWORD_START, password[..PWS_PASSWORD_LENGTH]);
      buffer := Splice(buffer, PWS_SLOTNAME_START, name[..PWS_LOGINNAME_LENGTH]);
      Overrun(report);
      output[OUTPUT_CMD_STATUS_OFFSET] := STATUS_OK;
    }

    static lemma {:induction false} UntouchedEnds(x: seq<bv8>, y: seq<bv8>)
      requires |x| == 11 && |y| == 20
      ensures var b := Splice(Splice(Fill(0, 64), 1, x), 12, y); b[..1] == [0] && b[33..] == Fill(0, 31)
    {
      hide Splice;
      var a := Splice(Fill(0, 64), 1, x);
      var b := Splice(a, 12, y);
      SpliceOutside(Fill(0, 64), 1, x, 0, 1);
      SpliceOutside(a, 12, y, 0, 1);
      SpliceOutside(Fill(0, 64), 1, x, 33, 31);
      SpliceOutside(a, 12, y, 33, 31);
      assert b[33..] == b[33..64] && Fill(0, 64)[33..64] == Fill(0, 31);
      assert b[..1] == b[0..1] && Fill(0, 64)[0..1] == [0];
    }

    /** The fields lie next to each other in the report as in the record, so the overrun writes what is there. */
    static lemma {:induction false} Overrun(report: seq<bv8>)
      requires |report| == 64
      ensures var b := Splice(Splice(Fill(0, 64), 1, report[2..][..11]), 12, report[13..][..20]);
              Splice(b, 1, report[2..][..32]) == Entry(0, report[2..13], report[13..33], [report[33]] + Fill(0, 31))
    {
      var b := Splice(Splice(Fill(0, 64), 1, report[2..][..11]), 12, report[13..][..20]);
      UntouchedEnds(report[2..][..11], report[13..][..20]);
      assert report[2..][..32] == report[2..13] + report[13..33] + [report[33]];
      assert Splice(b, 1, report[2..][..32]) == [0] + report[2..][..32] + Fill(0, 31);
    }

    /** CMD_SET_PW_SAFE_SLOT_DATA_2 and PWS_WriteSlotData_2 */
    method SetSlotData2(report: seq<bv8>, output: array<bv8>)
      requires Valid() && |report| == 64 && output.Length == 64
      modifies flash, `buffer, output
      ensures Valid()
      ensures var n := Octet(report[1]); var ok := n < PWS_SLOT_COUNT && unlocked;
              && (ok ==> Contents() == old(Contents())[n := BothHalves(old(buffer), report)])
              && (!ok ==> flash.State() == old(flash.State()))
              && output[..] == old(output[..])[OUTPUT_CMD_STATUS_OFFSET := if ok then STATUS_OK else STATUS_NOT_AUTHORIZED]
    {
      hide Splice, Octet, Safe, Stored;
      buffer := Splice(buffer, PWS_LOGINNAME_START, report[2..2 + PWS_LOGINNAME_LENGTH]);
      ghost var entry := buffer[0 := PWS_SLOT_ACTIV_TOKEN];
      var n := Octet(report[1]);
      if n < PWS_SLOT_COUNT {
        StoredUpdatesSafe(cipher, key, flash.State(), n, entry);
      }
      var ok := WriteSlot(n);
      output[OUTPUT_CMD_STATUS_OFFSET] := if ok then STATUS_OK else STATUS_NOT_AUTHORIZED;
    }

    /** CMD_GET_PW_SAFE_SLOT_NAME and PWS_GetSlotName */
    method GetSlotName(report: seq<bv8>, output: array<bv8>)
      requires Valid() && |report| == 64 && output.Length == 64
      modifies output
      ensures var n := Octet(report[1]); var ok := n < PWS_SLOT_COUNT && unlocked;
              output[..] == Splice(old(output[..]), OUTPUT_CMD_RESULT_OFFSET,
                                   if ok then NameOf(Contents()[n]) else Fill(0, PWS_SLOTNAME_LENGTH))
                              [OUTPUT_CMD_STATUS_OFFSET := if ok then STATUS_OK else STATUS_NOT_AUTHORIZED]
    {
      hide Splice, Octet, Safe;
      ghost var out := output[..];
      Put(output, OUTPUT_CMD_RESULT_OFFSET, Fill(0, PWS_SLOTNAME_LENGTH));
      var ok, slot := ReadSlot(Octet(report[1]));
      if ok {
        Put(output, OUTPUT_CMD_RESULT_OFFSET, NameOf(slot));
        SpliceOver(out, OUTPUT_CMD_RESULT_OFFSET, Fill(0, PWS_SLOTNAME_LENGTH), NameOf(slot));
      }
      output[OUTPUT_CMD_STATUS_OFFSET] := if ok then STATUS_OK else STATUS_NOT_AUTHORIZED;
    }

    /** CMD_GET_PW_SAFE_SLOT_PASSWORD and PWS_GetSlotPassword, which clears only eleven bytes beforehand. */
    method GetSlotPassword(report: seq<bv8>, output: array<bv8>)
      requires Valid() && |report| == 64 && output.Length == 64
      modifies output
      ensures var n := Octet(report[1]); var ok := n < PWS_SLOT_COUNT && unlocked;
              output[..] == Splice(old(output[..]), OUTPUT_CMD_RESULT_OFFSET,
                                   if ok then PasswordOf(Contents()[n]) else Fill(0, PWS_SLOTNAME_LENGTH))
                              [OUTPUT_CMD_STATUS_OFFSET := if ok then STATUS_OK else STATUS_NOT_AUTHORIZED]
    {
      hide Octet, Safe;
      ghost var out := output[..];
      Put(output, OUTPUT_CMD_RESULT_OFFSET, Fill(0, PWS_SLOTNAME_LENGTH));
      var ok, slot := ReadSlot(Octet(report[1]));
      if ok {
        Put(output, OUTPUT_CMD_RESULT_OFFSET, PasswordOf(slot));
        assert output[..] == Splice(out, OUTPUT_CMD_RESULT_OFFSET, PasswordOf(slot));
      }
      output[OUTPUT_CMD_STATUS_OFFSET] := if ok then STATUS_OK else STATUS_NOT_AUTHORIZED;
    }

    /** CMD_GET_PW_SAFE_SLOT_LOGINNAME and PWS_GetSlotLoginName */
    method GetSlotLoginName(report: seq<bv8>, output: array<bv8>)
      requires Valid() && |report| == 64 && output.Length == 64
      modifies output
      ensures var n := Octet(report[1]); var ok := n < PWS_SLOT_COUNT && unlocked;
              output[..] == Splice(old(output[..]), OUTPUT_CMD_RESULT_OFFSET,
                                   if ok then LoginOf(Contents()[n]) else Fill(0, PWS_LOGINNAME_LENGTH))
                              [OUTPUT_CMD_STATUS_OFFSET := if ok then STATUS_OK else STATUS_NOT_AUTHORIZED]
    {
      hide Splice, Octet, Safe;
      ghost var out := output[..];
      Put(output, OUTPUT_CMD_RESULT_OFFSET, Fill(0, PWS_LOGINNAME_LENGTH));
      var ok, slot := ReadSlot(Octet(report[1]));
      if ok {
        Put(output, OUTPUT_CMD_RESULT_OFFSET, LoginOf(slot));
        SpliceOver(out, OUTPUT_CMD_RESULT_OFFSET, Fill(0, PWS_LOGINNAME_LENGTH), LoginOf(slot));
      }
      output[OUTPUT_CMD_STATUS_OFFSET] := if ok then STATUS_OK else STATUS_NOT_AUTHORIZED;
    }

    /** Erasing a slot takes it, and no other, out of the list of active slots. */
    method EraseThenList(n: nat) returns (before: seq<bool>, after: seq<bool>)
      requires Valid() && unlocked && n < PWS_SLOT_COUNT
      modifies flash
      ensures Valid() && |before| == 16 && after == before[n := false]
    {
      hide Decrypted;
      var ok;
      ok, before := GetAllSlotStatus();
      ok := EraseSlot(n);
      ok, after := GetAllSlotStatus();
      assert forall i :: 0 <= i < PWS_SLOT_COUNT ==> Decrypted(cipher, key, flash.State(), i) == Contents()[i];
      assert forall i :: 0 <= i < PWS_SLOT_COUNT ==> Decrypted(cipher, key, old(flash.State()), i) == old(Contents())[i];
    }

    /** Setting a slot puts it, and no other, on the list. */
    method SetThenList(r1: seq<bv8>, r2: seq<bv8>, output: array<bv8>) returns (before: seq<bool>, after: seq<bool>)
      requires Valid() && unlocked && |r1| == 64 && |r2| == 64 && Octet(r2[1]) < PWS_SLOT_COUNT && output.Length == 64
      modifies flash, `buffer, output
      ensures Valid() && |before| == 16 && after == before[Octet(r2[1]) := true]
    {
      hide Decrypted, Octet, BothHalves;
      var ok;
      ok, before := GetAllSlotStatus();
      SetSlotData1(r1, output);
      SetSlotData2(r2, output);
      ok, after := GetAllSlotStatus();
      ReportsMakeEntry(r1, r2);
      assert forall i :: 0 <= i < PWS_SLOT_COUNT ==> Decrypted(cipher, key, flash.State(), i) == Contents()[i];
      assert forall i :: 0 <= i < PWS_SLOT_COUNT ==> Decrypted(cipher, key, old(flash.State()), i) == old(Contents())[i];
    }

    /** The whole round trip: two set reports, then the three reads of the same slot. */
    method SetThenRead(r1: seq<bv8>, r2: seq<bv8>, output: array<bv8>, name: array<bv8>, password: array<bv8>,
            login: array<bv8>)
      requires Valid() && |r1| == 64 && |r2| == 64 && unlocked && Octet(r2[1]) < PWS_SLOT_COUNT
      requires output.Length == 64 && name.Length == 64 && password.Length == 64 && login.Length == 64
      requires name != password && name != login && password != login
      modifies flash, `buffer, output, name, password, login
      ensures Valid()
      ensures Contents() == old(Contents())[Octet(r2[1]) := Entry(PWS_SLOT_ACTIV_TOKEN, r1[2..13], r1[13..33], r2[2..34])]
      ensures name[7..18] == r1[2..13] && password[7..27] == r1[13..33] && login[7..39] == r2[2..34]
    {
      hide Octet, Safe, Entry, BothHalves, FirstHalf, NameOf, PasswordOf, LoginOf;
      SetSlotData1(r1, output);
      SetSlotData2(r2, output);
      ReportsMakeEntry(r1, r2);
      GetSlotName(r2, name);
      GetSlotPassword(r2, password);
      GetSlotLoginName(r2, login);
    }
  }
}
