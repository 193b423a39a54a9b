/** Ring buffers with one index behind the oldest unread byte and one on the newest, which hold one byte
    less than their size. */
module Rings {

  function After(n: nat, i: nat): (j: nat)
    requires i < n
    ensures j < n
  {
    if n <= i + 1 then 0 else i + 1
  }

  /** The place i steps behind base. */
  function Index(n: nat, base: nat, i: nat): (j: nat)
    requires base < n && i < n
    ensures j < n
  {
    if base + i < n then base + i else base + i - n
  }

  function Count(n: nat, base: nat, end: nat): (c: nat)
    requires base < n && end < n
    ensures c < n
  {
    if end >= base then end - base else end + n - base
  }

  /** The unread bytes, oldest first. */
  function Unread(buf: seq<bv8>, base: nat, end: nat): (q: seq<bv8>)
    requires base < |buf| && end < |buf|
    ensures |q| == Count(|buf|, base, end)
  {
    seq(Count(|buf|, base, end), i requires 0 <= i < Count(|buf|, base, end) => buf[Index(|buf|, base, i + 1)])
  }

  lemma {:induction false} FullMeans(n: nat, base: nat, end: nat)
    requires base < n && end < n
    ensures After(n, end) == base <==> Count(n, base, end) == n - 1
    ensures base == end <==> Count(n, base, end) == 0
  {
  }

  /** A byte put behind the unread ones is queued, and overwrites none of them. */
  lemma {:induction false} Enqueued(buf: seq<bv8>, base: nat, end: nat, b: bv8)
    requires base < |buf| && end < |buf| && Count(|buf|, base, end) < |buf| - 1
    ensures var e := After(|buf|, end); Unread(buf[e := b], base, e) == Unread(buf, base, end) + [b]
  {
  }

  /** Raising the first index removes the oldest byte. */
  lemma {:induction false} Dequeued(buf: seq<bv8>, base: nat, end: nat)
    requires base < |buf| && end < |buf| && base != end
    ensures var s := After(|buf|, base);
            Unread(buf, base, end) == [buf[s]] + Unread(buf, s, end)
  {
  }
}
