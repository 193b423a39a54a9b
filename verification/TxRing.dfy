/** The serial transmit ring: strings are queued with interrupts off, the interrupt sends one byte at a time. */
module TxRing {
  import Rings

  class Sio {
    const size: nat
    const buf: array<bv8>
    var start: nat
    var end: nat

    ghost predicate Valid()
      reads this
    {
      buf.Length == size && start < size && end < size
    }

    /** The bytes waiting to be sent. */
    ghost function Queue(): (q: seq<bv8>)
      requires Valid()
      reads this, buf
      ensures |q| < size
    {
      Rings.Unread(buf[..], start, end)
    }

    constructor (size: nat)
      requires size > 1
      ensures Valid() && this.size == size && fresh(buf) && Queue() == []
    {
      this.size := size;
      buf := new bv8[size];
      start := 0;
      end := 0;
    }

    /** BUFFERED_SIO_WriteString: queues the longest prefix that fits, and says whether that was everything. */
    method WriteString(s: seq<bv8>) returns (ok: bool)
      requires Valid()
      modifies `end, buf
      ensures Valid()
      ensures var room := size - 1 - |old(Queue())|;
              && ok == (|s| <= room)
              && Queue() == old(Queue()) + if ok then s else s[..room]
    {
      var value, i := end, 0;
      ghost var before := Queue();
      while i < |s|
        invariant Valid() && i <= |s| && value == end && Queue() == before + s[..i]
      {
        ghost var done := Queue();
        Rings.FullMeans(size, start, end);
        value := value + 1;
        if size <= value {
          value := 0;
        }
        if value == start {
          return false;
        }
        assert value == Rings.After(size, end) && Rings.Count(size, start, end) < size - 1;
        Rings.Enqueued(buf[..], start, end, s[i]);
        end := value;
        Set(value, s[i]);
        Longer(before, s, i);
        i := i + 1;
      }
      assert s[..i] == s;
      return true;
    }

    method Set(at: nat, b: bv8)
      requires at < buf.Length
      modifies buf
      ensures buf[..] == old(buf[..])[at := b]
    {
      buf[at] := b;
    }

    static lemma {:induction false} Longer(before: seq<bv8>, s: seq<bv8>, i: nat)
      requires i < |s|
      ensures (before + s[..i]) + [s[i]] == before + s[..i + 1]
    {
    }

    /** BUFFERED_SIO_SendHandler: sends the oldest byte, if there is one. */
    method SendHandler() returns (sent: seq<bv8>)
      requires Valid()
      modifies `start
      ensures Valid() && sent + Queue() == old(Queue())
      ensures sent == [] <==> old(Queue()) == []
      ensures |sent| <= 1
    {
      hide Rings.Unread;
      Rings.FullMeans(size, start, end);
      if start == end {
        return [];
      }
      Rings.Dequeued(buf[..], start, end);
      start := start + 1;
      if size <= start {
        start := 0;
      }
      return [buf[start]];
    }
  }
}
