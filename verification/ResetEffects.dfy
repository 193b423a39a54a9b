/** What a factory reset that the card accepts leaves in the flash, page by page and record by record. */
module ResetEffects {
  import opened Bytes
  import opened FlashMemory
  import opened CounterPage
  import opened HotpValidation
  import opened ReportAnswers
  import opened ReportState
  import opened ReportCounters
  import CounterRuns
  import FactoryReset
  import HiddenVolume
  import PasswordSafe

  predicate AcceptedReset(e: Event)
    requires e.Valid()
  {
    e.Report? && CrcOk(e.report) && e.report[0] == 0x13 && e.accepts
  }

  lemma {:induction false} AcceptedIsReset(d: Device, e: Event)
    requires d.Valid() && e.Valid() && AcceptedReset(e)
    ensures Step(d, e) == d.(flash := FactoryReset.Reset(d.flash))
  {
    hide CrcOk, FactoryReset.Reset;
  }

  /** Pages 497 to 508 and 510 are erased, at eleven or twelve erases each; no other page is touched. */
  lemma {:induction false} ResetErasesPages(d: Device, e: Event, p: nat)
    requires d.Valid() && e.Valid() && AcceptedReset(e) && p < 512
    ensures 497 <= p <= 508 || p == 510 ==> Page(Step(d, e).flash, p) == Fill(0xFF, 512)
    ensures !(497 <= p <= 508 || p == 510) ==> Page(Step(d, e).flash, p) == Page(d.flash, p)
    ensures Step(d, e).flash.wear[p]
         == d.flash.wear[p] + if 499 <= p <= 506 then 12 else if 497 <= p <= 508 || p == 510 then 11 else 0
  {
    hide AcceptedReset, FactoryReset.Reset, Region, Step;
    AcceptedIsReset(d, e);
    FactoryReset.ResetPage(d.flash, p);
  }

  /** Part of a page is what the page says. */
  lemma {:induction false} PartOfPage(f: Image, p: nat, o: nat, n: nat)
    requires f.Valid() && p < 512 && o + n <= 512
    ensures Region(f, 512 * p + o, n) == Page(f, p)[o..o + n]
  {
    SliceOfSlice(f.cells, 512 * p, 512 * p + 512, o, o + n);
  }

  lemma {:induction false} PartOfErased(n: nat, o: nat, k: nat)
    requires o + k <= n
    ensures Fill(0xFF, n)[o..o + k] == Fill(0xFF, k)
  {
  }

  lemma {:induction false} ErasedPart(d: Device, e: Event, p: nat, o: nat, n: nat)
    requires d.Valid() && e.Valid() && AcceptedReset(e) && (497 <= p <= 508 || p == 510) && o + n <= 512
    ensures Region(Step(d, e).flash, 512 * p + o, n) == Fill(0xFF, n)
  {
    hide AcceptedReset, Region, Step;
    ResetErasesPages(d, e, p);
    PartOfPage(Step(d, e).flash, p, o, n);
    PartOfErased(512, o, n);
  }

  lemma {:induction false} KeptPart(d: Device, e: Event, p: nat, o: nat, n: nat)
    requires d.Valid() && e.Valid() && AcceptedReset(e) && (p == 509 || p == 511) && o + n <= 512
    ensures Region(Step(d, e).flash, 512 * p + o, n) == Region(d.flash, 512 * p + o, n)
  {
    hide AcceptedReset, Region, Step;
    ResetErasesPages(d, e, p);
    PartOfPage(Step(d, e).flash, p, o, n);
    PartOfPage(d.flash, p, o, n);
  }

  /** The records of safe slots 0 to 7 are gone; those of slots 8 to 15 decrypt to what they did. */
  lemma {:induction false} ResetHalvesSafe(d: Device, e: Event, c: PasswordSafe.Cipher, key: seq<bv8>, n: nat)
    requires d.Valid() && e.Valid() && AcceptedReset(e) && c.Valid() && n < 16
    ensures n < 8 ==> Region(Step(d, e).flash, 510 * 512 + 64 * n, 64) == Fill(0xFF, 64)
    ensures n >= 8 ==> PasswordSafe.Safe(c, key, Step(d, e).flash)[n] == PasswordSafe.Safe(c, key, d.flash)[n]
  {
    hide AcceptedReset, Region, Step, PasswordSafe.Cipher.Valid;
    if n < 8 {
      ErasedPart(d, e, 510, 64 * n, 64);
    } else {
      KeptPart(d, e, 511, 64 * (n - 8), 64);
    }
  }

  /** Salt and slots of the hidden volumes are gone. */
  lemma {:induction false} ResetClearsVolumes(d: Device, e: Event)
    requires d.Valid() && e.Valid() && AcceptedReset(e)
    ensures Region(Step(d, e).flash, HiddenVolume.HV_SALT_START, 32) == Fill(0xFF, 32)
    ensures Region(Step(d, e).flash, HiddenVolume.HV_SLOT_START, 256) == Fill(0xFF, 256)
    ensures Region(Step(d, e).flash, 497 * 512, 292) == Fill(0xFF, 292)
  {
    hide AcceptedReset, Region, Step;
    ErasedPart(d, e, 497, 4, 32);
    ErasedPart(d, e, 497, 36, 256);
    ErasedPart(d, e, 497, 0, 292);
  }

  /** Every counter page reads as erased, and the time page is kept. */
  lemma {:induction false} ResetCounters(d: Device, e: Event, s: nat)
    requires d.Valid() && e.Valid() && AcceptedReset(e) && s < 4
    ensures CounterOf(Step(d, e).flash, s) == Fill(0xFF, 512) && SlotCounter(Step(d, e).flash, s) == 0xFFFF_FFFF_FFFF_FFFF
    ensures Region(Step(d, e).flash, 509 * 512, 512) == Region(d.flash, 509 * 512, 512)
  {
    hide AcceptedReset, Region, Step, CounterValue, Shaped, Wrapped;
    ResetErasesPages(d, e, 502 + s);
    KeptPart(d, e, 509, 0, 512);
    ErasedShape();
    ValueOfShape(TWO64 - 1, 0);
    CounterRuns.WrappedSmall(TWO64 - 1);
  }

  /** A reset that the card refuses changes nothing and answers status 4. */
  lemma {:induction false} RefusedReset(d: Device, report: seq<bv8>, totp: bv32)
    requires d.Valid() && |report| == REPORT_SIZE && CrcOk(report) && report[0] == 0x13
    ensures Next(d, report, false) == d && Answer(d, report, false, totp)[6] == 4
    ensures Answer(d, report, true, totp)[6] == 0
  {
    hide CrcOk, Answer, FactoryReset.Reset;
    AnswerIsBody(d, report, false, totp);
    AnswerIsBody(d, report, true, totp);
  }
}
