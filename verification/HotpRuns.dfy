/** Verifying any run of codes against one slot: the accepted counters rise, and none is accepted three times. */
module HotpRuns {
  import opened Bytes
  import opened FlashMemory
  import opened CounterPage
  import opened CounterRuns
  import opened OtpSlots
  import opened HotpValidation

  /** The flash after the first n codes. */
  function Verified(f: Image, slot: nat, codes: seq<nat>, n: nat): (g: Image)
    requires f.Valid() && slot < NUMBER_OF_HOTP_SLOTS && n <= |codes|
    ensures g.Valid()
  {
    if n == 0 then f else Validated(Verified(f, slot, codes, n - 1), slot, codes[n - 1])
  }

  /** The offset at which code i matches. */
  function MatchAt(f: Image, slot: nat, codes: seq<nat>, i: nat): (m: nat)
    requires f.Valid() && slot < NUMBER_OF_HOTP_SLOTS && i < |codes|
    ensures m <= LOOK_AHEAD
  {
    FirstMatch(Verified(f, slot, codes, i), slot, codes[i], 0)
  }

  predicate AcceptedAt(f: Image, slot: nat, codes: seq<nat>, i: nat)
    requires f.Valid() && slot < NUMBER_OF_HOTP_SLOTS && i < |codes|
  {
    MatchAt(f, slot, codes, i) < LOOK_AHEAD
  }

  /** The counter whose code code i is. */
  function CounterAt(f: Image, slot: nat, codes: seq<nat>, i: nat): (c: nat)
    requires f.Valid() && slot < NUMBER_OF_HOTP_SLOTS && i < |codes|
  {
    SlotCounter(Verified(f, slot, codes, i), slot) + MatchAt(f, slot, codes, i)
  }

  /** The increments that the first n codes cause. */
  function Steps(f: Image, slot: nat, codes: seq<nat>, n: nat): (t: nat)
    requires f.Valid() && slot < NUMBER_OF_HOTP_SLOTS && n <= |codes|
    ensures t <= LOOK_AHEAD * n
  {
    if n == 0 then 0
    else Steps(f, slot, codes, n - 1) + if AcceptedAt(f, slot, codes, n - 1) then MatchAt(f, slot, codes, n - 1) + 1 else 0
  }

  lemma {:induction false} IncrementsAdd(f: Image, p: nat, m: nat, n: nat)
    requires f.Valid() && IsCounterPage(p)
    ensures Increments(Increments(f, p, m), p, n) == Increments(f, p, m + n)
  {
    hide Incremented;
    if n > 0 {
      IncrementsAdd(f, p, m, n - 1);
    }
  }

  lemma {:induction false} VerifiedIsIncrements(f: Image, slot: nat, codes: seq<nat>, n: nat)
    requires f.Valid() && slot < NUMBER_OF_HOTP_SLOTS && n <= |codes|
    ensures Verified(f, slot, codes, n) == Increments(f, CounterPageOf(slot), Steps(f, slot, codes, n))
  {
    hide Incremented, FirstMatch;
    if n > 0 {
      VerifiedIsIncrements(f, slot, codes, n - 1);
      if AcceptedAt(f, slot, codes, n - 1) {
        IncrementsAdd(f, CounterPageOf(slot), Steps(f, slot, codes, n - 1), MatchAt(f, slot, codes, n - 1) + 1);
      }
    }
  }

  /** A page of k used tokens on base b, far enough from the end of the 64 bits for n codes. */
  predicate Roomy(f: Image, slot: nat, b: nat, k: nat, n: nat)
    requires f.Valid() && slot < NUMBER_OF_HOTP_SLOTS
  {
    k <= TOKENS && Page(f, CounterPageOf(slot)) == Shaped(b, k) && b + k + LOOK_AHEAD * n < TWO64
  }

  /** The counter after m increments of a fresh page with base b. */
  function Reached(b: nat, m: nat): (c: nat)
  {
    b + m - m / (TOKENS + 1)
  }

  lemma {:induction false} CounterReached(f: Image, slot: nat, codes: seq<nat>, n: nat, b: nat, k: nat)
    requires f.Valid() && slot < NUMBER_OF_HOTP_SLOTS && n <= |codes| && Roomy(f, slot, b, k, |codes|)
    ensures SlotCounter(Verified(f, slot, codes, n), slot) == Reached(b, k + Steps(f, slot, codes, n))
  {
    hide Page, Shaped, Increments, CounterValue, Wrapped, Steps, Verified;
    VerifiedIsIncrements(f, slot, codes, n);
    IncrementsValue(f, CounterPageOf(slot), b, k, Steps(f, slot, codes, n));
    WrappedSmall(Reached(b, k + Steps(f, slot, codes, n)));
  }

  /** Accepting code i takes the page over its end. */
  predicate RollsOver(f: Image, slot: nat, codes: seq<nat>, k: nat, i: nat)
    requires f.Valid() && slot < NUMBER_OF_HOTP_SLOTS && i < |codes|
  {
    (k + Steps(f, slot, codes, i)) % (TOKENS + 1) + MatchAt(f, slot, codes, i) >= TOKENS
  }

  lemma {:induction false} StepsGrow(f: Image, slot: nat, codes: seq<nat>, i: nat, j: nat)
    requires f.Valid() && slot < NUMBER_OF_HOTP_SLOTS && i <= j <= |codes|
    ensures Steps(f, slot, codes, i) <= Steps(f, slot, codes, j)
    ensures (forall l :: i <= l < j ==> !AcceptedAt(f, slot, codes, l)) ==> Steps(f, slot, codes, i) == Steps(f, slot, codes, j)
  {
    hide MatchAt, AcceptedAt;
    if i < j {
      StepsGrow(f, slot, codes, i, j - 1);
    }
  }

  /** The counter moves past an accepted code, or onto it when its page rolled over. */
  lemma {:induction false} PassedCounter(b: nat, m: nat, o: nat)
    requires o < LOOK_AHEAD
    ensures Reached(b, m + o + 1) == Reached(b, m) + o + if m % (TOKENS + 1) + o >= TOKENS then 0 else 1
    ensures m % (TOKENS + 1) + o >= TOKENS ==> (m + o + 1) % (TOKENS + 1) < LOOK_AHEAD
  {
    var (q, r) := (m / 505, m % 505);
    assert m + o + 1 == 505 * q + (r + o + 1);
    assert (m + o + 1) / 505 == q + (r + o + 1) / 505;
  }

  lemma {:induction false} ReachedGrows(b: nat, m: nat, m': nat)
    requires m <= m'
    ensures Reached(b, m) <= Reached(b, m')
    ensures m < m' && m % (TOKENS + 1) < TOKENS ==> Reached(b, m) < Reached(b, m')
  {
  }

  /** Accepted counters rise, except that a counter whose acceptance rolled its page over may come back. */
  lemma {:induction false} AcceptedCountersRise(f: Image, slot: nat, codes: seq<nat>, i: nat, j: nat, b: nat, k: nat)
    requires f.Valid() && slot < NUMBER_OF_HOTP_SLOTS && i < j < |codes| && Roomy(f, slot, b, k, |codes|)
    requires AcceptedAt(f, slot, codes, i) && AcceptedAt(f, slot, codes, j)
    ensures CounterAt(f, slot, codes, i) <= CounterAt(f, slot, codes, j)
    ensures CounterAt(f, slot, codes, i) == CounterAt(f, slot, codes, j) ==> RollsOver(f, slot, codes, k, i)
  {
    hide Page, Shaped, CounterValue, FirstMatch, Verified, Reached;
    CounterReached(f, slot, codes, i, b, k);
    CounterReached(f, slot, codes, j, b, k);
    var (m, o) := (k + Steps(f, slot, codes, i), MatchAt(f, slot, codes, i));
    PassedCounter(b, m, o);
    StepsGrow(f, slot, codes, i + 1, j);
    ReachedGrows(b, m + o + 1, k + Steps(f, slot, codes, j));
  }

  /** Between two neighbouring accepted codes the counter rises by the second offset, and by one more unless
      the first rolled its page over. */
  lemma {:induction false} NextAccepted(f: Image, slot: nat, codes: seq<nat>, i: nat, j: nat, b: nat, k: nat)
    requires f.Valid() && slot < NUMBER_OF_HOTP_SLOTS && i < j < |codes| && Roomy(f, slot, b, k, |codes|)
    requires AcceptedAt(f, slot, codes, i) && forall l :: i < l < j ==> !AcceptedAt(f, slot, codes, l)
    ensures CounterAt(f, slot, codes, j) == CounterAt(f, slot, codes, i) + MatchAt(f, slot, codes, j)
                                            + if RollsOver(f, slot, codes, k, i) then 0 else 1
  {
    hide Page, Shaped, CounterValue, FirstMatch, Verified, Reached;
    CounterReached(f, slot, codes, i, b, k);
    CounterReached(f, slot, codes, j, b, k);
    PassedCounter(b, k + Steps(f, slot, codes, i), MatchAt(f, slot, codes, i));
    StepsGrow(f, slot, codes, i + 1, j);
  }

  /** No counter is accepted three times. */
  lemma {:induction false} NeverThrice(f: Image, slot: nat, codes: seq<nat>, i: nat, j: nat, l: nat, b: nat, k: nat)
    requires f.Valid() && slot < NUMBER_OF_HOTP_SLOTS && i < j < l < |codes| && Roomy(f, slot, b, k, |codes|)
    requires AcceptedAt(f, slot, codes, i) && AcceptedAt(f, slot, codes, j) && AcceptedAt(f, slot, codes, l)
    ensures CounterAt(f, slot, codes, i) < CounterAt(f, slot, codes, l)
  {
    hide Page, Shaped, CounterValue, FirstMatch, Verified, Reached;
    AcceptedCountersRise(f, slot, codes, i, j, b, k);
    AcceptedCountersRise(f, slot, codes, j, l, b, k);
    CounterReached(f, slot, codes, i, b, k);
    CounterReached(f, slot, codes, l, b, k);
    var (m, o) := (k + Steps(f, slot, codes, i), MatchAt(f, slot, codes, i));
    PassedCounter(b, m, o);
    StepsGrow(f, slot, codes, i + 1, j);
    StepsGrow(f, slot, codes, j + 1, l);
    ReachedGrows(b, m + o + 1, k + Steps(f, slot, codes, l));
  }
}
