/** What the host learns from CMD_VERIFY_OTP_CODE, and what the command does to the counter of slot 3. */
module ReportVerify {
  import opened Bytes
  import opened FlashMemory
  import opened CounterPage
  import opened CounterRuns
  import opened OtpSlots
  import opened HotpValidation
  import opened ReportAnswers
  import opened ReportState
  import opened ReportCounters

  /** The code of the report matches the slot's code o steps after its counter. */
  predicate Matches(d: Device, report: seq<bv8>, o: nat)
    requires d.Valid() && |report| == REPORT_SIZE
  {
    CodeAt(d.flash, 3, o) == LittleNumber(report[1..5])
  }

  /** The least matching offset below 10. */
  ghost predicate MatchesFirst(d: Device, report: seq<bv8>, o: nat)
    requires d.Valid() && |report| == REPORT_SIZE
  {
    o < 10 && Matches(d, report, o) && forall j: nat :: j < o ==> !Matches(d, report, j)
  }

  ghost predicate MatchesAny(d: Device, report: seq<bv8>)
    requires d.Valid() && |report| == REPORT_SIZE
  {
    exists o: nat :: o < 10 && Matches(d, report, o)
  }

  /** The search finds the least offset, and the end of the window when there is none. */
  lemma {:induction false} SearchIsLeast(d: Device, report: seq<bv8>, o: nat)
    requires d.Valid() && |report| == REPORT_SIZE && o <= LOOK_AHEAD
    ensures var m := FirstMatch(d.flash, 3, CodeIn(report), o);
            && (m < 10 ==> Matches(d, report, m))
            && forall j: nat :: o <= j < m ==> !Matches(d, report, j)
    decreases LOOK_AHEAD - o
  {
    hide CodeAt, LittleFrom, Unsigned, LittleWord;
    LittleWordNumber(report[1..5]);
    if o < LOOK_AHEAD && CodeAt(d.flash, 3, o) != CodeIn(report) {
      SearchIsLeast(d, report, o + 1);
    }
  }

  lemma {:induction false} VerifyBody(d: Device, report: seq<bv8>, accepts: bool, totp: bv32)
    requires d.Valid() && |report| == REPORT_SIZE && CrcOk(report) && report[0] == 0x18
    ensures var m := FirstMatch(d.flash, 3, CodeIn(report), 0);
            var a := Answer(d, report, accepts, totp);
            if SlotAt(d.flash, 3).kind != 0x48 then a[6] == 3 && a[7] == 0
            else a[6] == 0 && a[7] == (if m < 10 then 1 else 0) && Octet(a[8]) == if m < 10 then m else 0xFE
  {
    hide CrcOk, SlotAt, FirstMatch, CodeIn, Answer;
    AnswerIsBody(d, report, accepts, totp);
    var m := FirstMatch(d.flash, 3, CodeIn(report), 0);
    SmallByte(m);
  }

  lemma {:induction false} SmallByte(m: nat)
    requires m <= 10
    ensures m < 10 ==> Octet(ResultByte(m)) == m
    ensures Octet(ResultByte(-2)) == 0xFE
  {
  }

  /** With slot 3 programmed, byte 7 is 1 exactly when the code matches some offset below 10, and byte 8 is then the
      least such offset, else 0xFE. */
  lemma {:induction false} VerifyAnswers(d: Device, report: seq<bv8>, accepts: bool, totp: bv32)
    requires d.Valid() && |report| == REPORT_SIZE && CrcOk(report) && report[0] == 0x18
    requires SlotAt(d.flash, 3).kind == 0x48
    ensures var a := Answer(d, report, accepts, totp);
            && a[6] == 0 && (a[7] == 0 || a[7] == 1)
            && (a[7] == 1 <==> MatchesAny(d, report))
            && (a[7] == 1 ==> MatchesFirst(d, report, Octet(a[8])))
            && (a[7] == 0 ==> a[8] == 0xFE)
  {
    hide CrcOk, Answer, SlotAt, FirstMatch, Matches, CodeIn;
    VerifyBody(d, report, accepts, totp);
    SearchIsLeast(d, report, 0);
    OctetRoundTrip(Answer(d, report, accepts, totp)[8]);
    OctetRoundTrip(0xFE);
  }

  /** The counter of slot 3 then ends one past the accepted offset, or on it when the page rolled over on the way, and
      does not move for any other code. */
  lemma {:induction false} VerifyMovesCounter(d: Device, report: seq<bv8>, accepts: bool, totp: bv32, b: nat, k: nat)
    requires d.Valid() && |report| == REPORT_SIZE && CrcOk(report) && report[0] == 0x18
    requires SlotAt(d.flash, 3).kind == 0x48 && HasShape(CounterOf(d.flash, 3), b, k) && b + k + 10 < TWO64
    ensures var a := Answer(d, report, accepts, totp);
            var after := SlotCounter(Next(d, report, accepts).flash, 3);
            && SlotCounter(d.flash, 3) == b + k
            && (a[7] == 1 ==> after == b + k + Octet(a[8]) + if k + Octet(a[8]) < 504 then 1 else 0)
            && (a[7] == 0 ==> Next(d, report, accepts) == d)
            && (after != b + k <==> a[7] == 1 && !(a[8] == 0 && k == 504))
  {
    hide CrcOk, Answer, SlotAt, FirstMatch, Shaped, Page, Increments, SlotCounter, CodeIn;
    VerifyBody(d, report, accepts, totp);
    var m := FirstMatch(d.flash, 3, CodeIn(report), 0);
    CounterAfterAccepting(d.flash, 3, b, k, if m < 10 then m else 0);
    WrappedSmall(b + k);
    VerifyStep(d, report, accepts);
    if m < 10 {
      WrappedSmall(b + k + m + (if k + m < 504 then 1 else 0));
    }
    ZeroOctet(Answer(d, report, accepts, totp)[8]);
  }

  lemma {:induction false} ZeroOctet(b: bv8)
    ensures Octet(b) == 0 <==> b == 0
  {
  }

  lemma {:induction false} VerifyStep(d: Device, report: seq<bv8>, accepts: bool)
    requires d.Valid() && |report| == REPORT_SIZE && CrcOk(report) && report[0] == 0x18 && SlotAt(d.flash, 3).kind == 0x48
    ensures var m := FirstMatch(d.flash, 3, CodeIn(report), 0);
            Next(d, report, accepts) == d.(flash := if m < 10 then Increments(d.flash, 505, m + 1) else d.flash)
  {
    hide CrcOk, SlotAt, FirstMatch, Increments, CodeIn;
  }

  /** A slot 3 that is not programmed answers status 3, and nothing changes. */
  lemma {:induction false} NothingToVerify(d: Device, report: seq<bv8>, accepts: bool, totp: bv32)
    requires d.Valid() && |report| == REPORT_SIZE && CrcOk(report) && report[0] == 0x18 && SlotAt(d.flash, 3).kind != 0x48
    ensures Answer(d, report, accepts, totp)[6] == 3 && Next(d, report, accepts) == d
  {
    hide CrcOk, SlotAt, Answer, FirstMatch, CodeIn;
    VerifyBody(d, report, accepts, totp);
  }
}
