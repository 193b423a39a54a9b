/** The serial receive ring: an interrupt handler that may run between any two statements of the reader. */
module RxRing {
  import Rings

  const SIZE := 200

  // ----- the statements of BUFFERED_SIO_GetByte, and the handler

  /** Which statement of GetByte comes next. */
  datatype Pc = Check | Fetch | Advance | Wrap

  datatype Ring = Ring(buf: seq<bv8>, start: nat, end: nat, pc: Pc, data: bv8) {
    predicate Valid() {
      |buf| == SIZE && start <= SIZE && end < SIZE && (start == SIZE ==> pc == Wrap)
    }
  }

  function After(end: nat): (v: nat)
    requires end < SIZE
    ensures v < SIZE
  {
    Rings.After(SIZE, end)
  }

  /** Whether the handler would keep a byte. */
  predicate Accepts(r: Ring)
    requires r.Valid()
  {
    After(r.end) != r.start
  }

  /** BUFFERED_SIO_RxIntHandler */
  function Received(r: Ring, b: bv8): (s: Ring)
    requires r.Valid()
    ensures s.Valid()
  {
    if Accepts(r) then r.(buf := r.buf[After(r.end) := b], end := After(r.end)) else r
  }

  /** One statement of BUFFERED_SIO_GetByte. */
  function Stepped(r: Ring): (s: Ring)
    requires r.Valid()
    ensures s.Valid()
  {
    match r.pc
    case Check => if r.start == r.end then r else r.(pc := Fetch)
    case Fetch => r.(pc := Advance, data := if SIZE - 1 >= r.start + 1 then r.buf[r.start + 1] else r.buf[0])
    case Advance => r.(pc := Wrap, start := r.start + 1)
    case Wrap => r.(pc := Check, start := if SIZE - 1 < r.start then 0 else r.start)
  }

  // ----- what the ring holds

  /** The start index, with the momentary value 200 read as the 0 it is about to become. */
  function Base(r: Ring): (i: nat)
    requires r.Valid()
    ensures i < SIZE
  {
    if r.start == SIZE then 0 else r.start
  }

  /** The unread bytes, oldest first. */
  function Unread(r: Ring): (q: seq<bv8>)
    requires r.Valid()
    ensures |q| < SIZE
  {
    Rings.Unread(r.buf, Base(r), r.end)
  }

  predicate InWindow(r: Ring) {
    r.start == SIZE
  }

  /** Outside the window the handler is a bounded queue's enqueue: it refuses a byte exactly when 199 wait. */
  lemma {:induction false} ReceiveEnqueues(r: Ring, b: bv8)
    requires r.Valid() && !InWindow(r)
    ensures Accepts(r) <==> |Unread(r)| < 199
    ensures Unread(Received(r, b)) == if Accepts(r) then Unread(r) + [b] else Unread(r)
  {
  }

  /** Inside the window it enqueues too, unless 199 bytes wait; then it makes the ring look empty. */
  lemma {:induction false} ReceiveInWindow(r: Ring, b: bv8)
    requires r.Valid() && InWindow(r)
    ensures |Unread(r)| < 199 ==> Unread(Received(r, b)) == Unread(r) + [b]
    ensures |Unread(r)| == 199 ==> Unread(Received(r, b)) == []
  {
  }

  /** A byte received in the window is queued behind the unread ones exactly when the ring is not full. */
  lemma {:induction false} WindowIsSafeUnlessFull(r: Ring, b: bv8)
    requires r.Valid() && InWindow(r)
    ensures Unread(Received(r, b)) == Unread(r) + [b] <==> |Unread(r)| < 199
  {
  }

  /** Two bytes received in one window can lose everything unread. */
  lemma {:induction false} TwiceInWindowLosesBytes(r: Ring, b: bv8, c: bv8)
    requires r.Valid() && InWindow(r) && r.end == 198
    ensures |Unread(r)| == 198 && Unread(Received(Received(r, b), c)) == []
  {
  }

  lemma {:induction false} StepKeepsOrConsumes(r: Ring)
    requires r.Valid()
    ensures r.pc != Advance ==> Unread(Stepped(r)) == Unread(r)
    ensures r.pc == Advance && Unread(r) != [] ==> Unread(Stepped(r)) == Unread(r)[1..]
    ensures r.pc == Fetch && Unread(r) != [] ==> Stepped(r).data == Unread(r)[0]
    ensures r.pc == Check ==> (Stepped(r).pc == Fetch <==> Unread(r) != [])
  {
  }

  // ----- interleaved runs

  datatype Event = Rx(b: bv8) | Task

  /** The ring, what the handler has kept, what GetByte has returned, and the bytes received in this window. */
  datatype Trace = Trace(ring: Ring, accepted: seq<bv8>, delivered: seq<bv8>, hits: nat)

  function Next(t: Trace, e: Event): (u: Trace)
    requires t.ring.Valid()
    ensures u.ring.Valid()
  {
    match e
    case Rx(b) =>
      Trace(Received(t.ring, b), if Accepts(t.ring) then t.accepted + [b] else t.accepted, t.delivered, t.hits + 1)
    case Task =>
      Trace(Stepped(t.ring), t.accepted, if t.ring.pc == Wrap then t.delivered + [t.ring.data] else t.delivered, 0)
  }

  function Run(t: Trace, es: seq<Event>): (u: Trace)
    requires t.ring.Valid()
    ensures u.ring.Valid()
  {
    if es == [] then t else Next(Run(t, es[..|es| - 1]), es[|es| - 1])
  }

  /** No second byte arrives while the start index is momentarily 200. */
  predicate OncePerWindow(t: Trace, es: seq<Event>)
    requires t.ring.Valid()
  {
    es != [] ==>
      && OncePerWindow(t, es[..|es| - 1])
      && (es[|es| - 1].Rx? && InWindow(Run(t, es[..|es| - 1]).ring) ==> Run(t, es[..|es| - 1]).hits == 0)
  }

  /** The byte that GetByte has fetched and removed but not yet returned. */
  function Pending(r: Ring): seq<bv8> {
    if r.pc == Wrap then [r.data] else []
  }

  /** Nothing is lost or out of order. */
  ghost predicate Queue(t: Trace) {
    && t.ring.Valid()
    && t.accepted == t.delivered + Pending(t.ring) + Unread(t.ring)
    && (t.ring.pc == Fetch || t.ring.pc == Advance ==> Unread(t.ring) != [])
    && (t.ring.pc == Advance ==> t.ring.data == Unread(t.ring)[0])
  }

  ghost predicate Fifo(t: Trace) {
    Queue(t) && (InWindow(t.ring) && t.hits == 0 ==> |Unread(t.ring)| < SIZE - 1)
  }

  /** The one event that breaks the queue: a byte that arrives in the window of a full ring. */
  predicate Overflows(t: Trace, e: Event)
    requires t.ring.Valid()
  {
    e.Rx? && InWindow(t.ring) && |Unread(t.ring)| == SIZE - 1
  }

  lemma {:induction false} QueueReceives(t: Trace, b: bv8)
    requires Queue(t)
    ensures Queue(Next(t, Rx(b))) <==> !Overflows(t, Rx(b))
  {
    hide Unread;
    if InWindow(t.ring) {
      ReceiveInWindow(t.ring, b);
      if Overflows(t, Rx(b)) {
        assert |t.accepted + [b]| != |t.delivered + Pending(t.ring)|;
      }
    } else {
      ReceiveEnqueues(t.ring, b);
    }
  }

  lemma {:induction false} QueueSteps(t: Trace)
    requires Queue(t)
    ensures Queue(Next(t, Task))
  {
    hide Unread;
    StepKeepsOrConsumes(t.ring);
    if t.ring.pc == Advance {
      assert t.accepted == t.delivered + [t.ring.data] + Unread(t.ring)[1..];
    }
  }

  /** One event keeps the queue exactly when it does not overflow. */
  lemma {:induction false} QueueStep(t: Trace, e: Event)
    requires Queue(t)
    ensures Queue(Next(t, e)) <==> !Overflows(t, e)
  {
    hide Queue, Next;
    match e {
      case Rx(b) => QueueReceives(t, b);
      case Task => QueueSteps(t);
    }
  }

  lemma {:induction false} FifoReceives(t: Trace, b: bv8)
    requires Fifo(t) && (InWindow(t.ring) ==> t.hits == 0)
    ensures Fifo(Next(t, Rx(b)))
  {
    QueueReceives(t, b);
    hide Unread;
    if InWindow(t.ring) {
      ReceiveInWindow(t.ring, b);
    }
  }

  lemma {:induction false} AdvanceShortens(r: Ring)
    requires r.Valid() && r.pc == Advance
    ensures |Unread(r)| < SIZE && (Unread(r) != [] ==> |Unread(Stepped(r))| < SIZE - 1)
  {
  }

  lemma {:induction false} FifoSteps(t: Trace)
    requires Fifo(t)
    ensures Fifo(Next(t, Task))
  {
    QueueSteps(t);
    hide Unread;
    if t.ring.pc == Advance {
      AdvanceShortens(t.ring);
    }
  }

  /** The bytes delivered are always a prefix of the bytes accepted, and every accepted byte is delivered,
      about to be returned, or still unread in the ring. */
  lemma {:induction false} RingIsFifo(t: Trace, es: seq<Event>)
    requires Fifo(t) && OncePerWindow(t, es)
    ensures Fifo(Run(t, es))
    ensures Run(t, es).delivered <= Run(t, es).accepted
    ensures |Run(t, es).accepted| - |Run(t, es).delivered| <= SIZE
  {
    hide Unread, Next;
    if es != [] {
      var u := Run(t, es[..|es| - 1]);
      RingIsFifo(t, es[..|es| - 1]);
      match es[|es| - 1] {
        case Rx(b) => FifoReceives(u, b);
        case Task => FifoSteps(u);
      }
    }
  }

  /** A ring as the static initialisers leave it. */
  predicate Fresh(t: Trace) {
    && t.ring.Valid() && t.ring.start == 0 && t.ring.end == 0 && t.ring.pc == Check
    && t.accepted == [] && t.delivered == [] && t.hits == 0
  }

  lemma {:induction false} FreshIsFifo(t: Trace)
    requires Fresh(t)
    ensures Fifo(t)
  {
  }

  // ----- the exact condition

  /** The bytes accepted but neither delivered nor still to be delivered. */
  function Lost(t: Trace): int
    requires t.ring.Valid()
  {
    |t.accepted| - |t.delivered| - |Pending(t.ring)| - |Unread(t.ring)|
  }

  predicate FetchesUnread(r: Ring)
    requires r.Valid()
  {
    r.pc == Fetch || r.pc == Advance ==> Unread(r) != []
  }

  /** An overflow loses 200 bytes, the unread ones and the new one; nothing else loses or regains any. */
  lemma {:induction false} LossStep(t: Trace, e: Event)
    requires t.ring.Valid() && FetchesUnread(t.ring)
    ensures FetchesUnread(Next(t, e).ring)
    ensures Lost(Next(t, e)) == Lost(t) + if Overflows(t, e) then SIZE else 0
  {
    hide Unread;
    match e {
      case Rx(b) =>
        if InWindow(t.ring) {
          ReceiveInWindow(t.ring, b);
        } else {
          ReceiveEnqueues(t.ring, b);
        }
      case Task => StepKeepsOrConsumes(t.ring);
    }
  }

  /** How many events of a run overflow. */
  function Overflowing(t: Trace, es: seq<Event>): (n: nat)
    requires t.ring.Valid()
  {
    if es == [] then 0
    else
      var before := es[..|es| - 1];
      Overflowing(t, before) + if Overflows(Run(t, before), es[|es| - 1]) then 1 else 0
  }

  lemma {:induction false} LossIsCounted(t: Trace, es: seq<Event>)
    requires t.ring.Valid() && FetchesUnread(t.ring)
    ensures FetchesUnread(Run(t, es).ring)
    ensures Lost(Run(t, es)) == Lost(t) + SIZE * Overflowing(t, es)
  {
    hide Unread, Next, Overflows, FetchesUnread, Lost;
    if es != [] {
      LossIsCounted(t, es[..|es| - 1]);
      LossStep(Run(t, es[..|es| - 1]), es[|es| - 1]);
    }
  }

  lemma {:induction false} QueueLosesNothing(t: Trace)
    requires Queue(t)
    ensures FetchesUnread(t.ring) && Lost(t) == 0
  {
    hide Unread;
  }

  /** After any run from a fresh ring the bytes form a queue if and only if no byte ever arrived in the window
      of a full ring. */
  lemma {:induction false} QueueUnlessOverflow(t: Trace, es: seq<Event>)
    requires Fresh(t)
    ensures Queue(Run(t, es)) <==> Overflowing(t, es) == 0
    ensures Lost(Run(t, es)) == 200 * Overflowing(t, es)
  {
    hide Unread, Queue, Next, Overflows, FetchesUnread, Lost;
    FreshIsQueue(t);
    LossIsCounted(t, es);
    if Overflowing(t, es) == 0 {
      StaysQueue(t, es);
    } else if Queue(Run(t, es)) {
      QueueLosesNothing(Run(t, es));
    }
  }

  lemma {:induction false} FreshIsQueue(t: Trace)
    requires Fresh(t)
    ensures Queue(t) && FetchesUnread(t.ring) && Lost(t) == 0
  {
  }

  /** At most one byte per window is enough. */
  lemma {:induction false} OncePerWindowIsSafe(t: Trace, es: seq<Event>)
    requires Fresh(t) && OncePerWindow(t, es)
    ensures Overflowing(t, es) == 0
  {
    hide Fresh, Overflowing, OncePerWindow, Queue;
    FreshIsFifo(t);
    RingIsFifo(t, es);
    QueueUnlessOverflow(t, es);
  }

  lemma {:induction false} StaysQueue(t: Trace, es: seq<Event>)
    requires Queue(t) && Overflowing(t, es) == 0
    ensures Queue(Run(t, es))
  {
    if es != [] {
      StaysQueue(t, es[..|es| - 1]);
      QueueStep(Run(t, es[..|es| - 1]), es[|es| - 1]);
    }
  }

  // ----- a run that overflows

  lemma {:induction false} RunAppends(t: Trace, a: seq<Event>, b: seq<Event>)
    requires t.ring.Valid()
    ensures Run(t, a + b) == Run(Run(t, a), b)
  {
    hide Next;
    if b == [] {
      assert a + b == a;
    } else {
      RunAppends(t, a, b[..|b| - 1]);
      assert (a + b)[..|a + b| - 1] == a + b[..|b| - 1];
    }
  }

  predicate Idle(t: Trace, start: nat, end: nat) {
    t.ring.Valid() && t.ring.pc == Check && t.ring.start == start && t.ring.end == end
  }

  /** A byte received and read. */
  const LAP := [Rx(0), Task, Task, Task, Task]

  function Laps(n: nat): seq<Event> {
    if n == 0 then [] else Laps(n - 1) + LAP
  }

  function Receipts(n: nat): seq<Event> {
    if n == 0 then [] else Receipts(n - 1) + [Rx(0)]
  }

  lemma {:induction false} OneLap(t: Trace, n: nat)
    requires n < SIZE - 1 && Idle(t, n, n)
    ensures Idle(Run(t, LAP), n + 1, n + 1)
  {
    assert LAP[..4] == [Rx(0), Task, Task, Task];
    assert LAP[..4][..3] == [Rx(0), Task, Task];
    assert [Rx(0), Task, Task][..2] == [Rx(0), Task];
    assert [Rx(0), Task][..1] == [Rx(0)];
    var received := Next(t, Rx(0));
    assert Run(t, [Rx(0)]) == received;
    assert Run(t, [Rx(0), Task]) == Next(received, Task);
    assert Run(t, [Rx(0), Task, Task]) == Next(Next(received, Task), Task);
    assert Run(t, [Rx(0), Task, Task, Task]) == Next(Next(Next(received, Task), Task), Task);
  }

  lemma {:induction false} LapsReach(t: Trace, n: nat)
    requires n < SIZE && t.ring.Valid() && Idle(t, 0, 0)
    ensures Idle(Run(t, Laps(n)), n, n)
  {
    hide Idle, Next, LAP;
    if n > 0 {
      LapsReach(t, n - 1);
      RunAppends(t, Laps(n - 1), LAP);
      OneLap(Run(t, Laps(n - 1)), n - 1);
    }
  }

  lemma {:induction false} FillReach(t: Trace, n: nat)
    requires n < SIZE && t.ring.Valid() && Idle(t, SIZE - 1, SIZE - 1)
    ensures Idle(Run(t, Receipts(n)), SIZE - 1, if n == 0 then SIZE - 1 else n - 1)
  {
    hide Idle, Next, Receipts;
    if n == 0 {
      assert Receipts(0) == [] by {
        ReceiptsLength(0);
      }
    } else {
      FillReach(t, n - 1);
      OneMoreReceipt(n);
      ReceivedIdle(Run(t, Receipts(n - 1)), if n == 1 then SIZE - 1 else n - 2);
    }
  }

  lemma {:induction false} OneMoreReceipt(n: nat)
    requires n > 0
    ensures |Receipts(n)| == n && Receipts(n)[..n - 1] == Receipts(n - 1) && Receipts(n)[n - 1] == Rx(0)
  {
    ReceiptsLength(n - 1);
  }

  /** A byte received by an idle ring that is not full moves the end index on. */
  lemma {:induction false} ReceivedIdle(t: Trace, end: nat)
    requires Idle(t, SIZE - 1, end) && (end == SIZE - 1 || end < SIZE - 2)
    ensures Idle(Next(t, Rx(0)), SIZE - 1, if end == SIZE - 1 then 0 else end + 1)
  {
  }

  lemma {:induction false} ReceiptsLength(n: nat)
    ensures |Receipts(n)| == n
  {
    if n > 0 {
      ReceiptsLength(n - 1);
    }
  }

  /** 199 bytes received and read, 199 more received, and one read up to the window. */
  const TO_WINDOW := Laps(SIZE - 1) + Receipts(SIZE - 1) + [Task, Task, Task]

  lemma {:induction false} WindowIsReached(t: Trace)
    requires Fresh(t)
    ensures InWindow(Run(t, TO_WINDOW).ring) && Run(t, TO_WINDOW).ring.end == SIZE - 2
  {
    hide Laps, Receipts;
    LapsReach(t, SIZE - 1);
    var u := Run(t, Laps(SIZE - 1));
    FillReach(u, SIZE - 1);
    var v := Run(u, Receipts(SIZE - 1));
    RunAppends(t, Laps(SIZE - 1), Receipts(SIZE - 1));
    RunAppends(t, Laps(SIZE - 1) + Receipts(SIZE - 1), [Task, Task, Task]);
    ThreeTasks(v);
  }

  lemma {:induction false} ThreeTasks(v: Trace)
    requires Idle(v, SIZE - 1, SIZE - 2)
    ensures InWindow(Run(v, [Task, Task, Task]).ring) && Run(v, [Task, Task, Task]).ring.end == SIZE - 2
  {
    assert [Task, Task, Task][..2] == [Task, Task];
    assert [Task, Task][..1] == [Task];
    assert Run(v, [Task]) == Next(v, Task);
    assert Run(v, [Task, Task]) == Next(Next(v, Task), Task);
  }

  /** So a fresh ring can reach a window in which two more bytes empty it. */
  lemma {:induction false} LossIsReached(t: Trace, b: bv8, c: bv8)
    requires Fresh(t)
    ensures |Unread(Run(t, TO_WINDOW).ring)| == SIZE - 2
    ensures Unread(Run(t, TO_WINDOW + [Rx(b), Rx(c)]).ring) == [] && !Queue(Run(t, TO_WINDOW + [Rx(b), Rx(c)]))
  {
    hide Unread, Run, TO_WINDOW, Queue;
    WindowIsReached(t);
    RunAppends(t, TO_WINDOW, [Rx(b), Rx(c)]);
    TwoReceipts(Run(t, TO_WINDOW), b, c);
    LossIsCounted(t, TO_WINDOW);
    FreshIsQueue(t);
    LossIsCounted(Run(t, TO_WINDOW), [Rx(b), Rx(c)]);
    if Queue(Run(t, TO_WINDOW + [Rx(b), Rx(c)])) {
      QueueLosesNothing(Run(t, TO_WINDOW + [Rx(b), Rx(c)]));
    }
  }

  lemma {:induction false} TwoReceipts(u: Trace, b: bv8, c: bv8)
    requires u.ring.Valid() && InWindow(u.ring) && u.ring.end == SIZE - 2
    ensures |Unread(u.ring)| == SIZE - 2 && Unread(Run(u, [Rx(b), Rx(c)]).ring) == []
    ensures Overflowing(u, [Rx(b), Rx(c)]) > 0
  {
    TwiceInWindowLosesBytes(u.ring, b, c);
    ReceiveInWindow(u.ring, b);
    hide Unread;
    assert [Rx(b), Rx(c)][..1] == [Rx(b)];
    assert Run(u, [Rx(b)]) == Next(u, Rx(b));
  }

  // ----- the two routines

  class Sio {
    var buf: array<bv8>
    var start: nat
    var end: nat

    ghost predicate Valid()
      reads this, buf
    {
      buf.Length == SIZE && start < SIZE && end < SIZE
    }

    ghost function State(): (r: Ring)
      requires Valid()
      reads this, buf
      ensures r.Valid()
    {
      Ring(buf[..], start, end, Check, 0)
    }

    constructor ()
      ensures Valid() && fresh(buf) && Unread(State()) == []
    {
      buf := new bv8[SIZE];
      start := 0;
      end := 0;
    }

    method RxIntHandler(data: bv8) returns (ghost kept: bool)
      requires Valid()
      modifies this, buf
      ensures Valid() && buf == old(buf) && State() == Received(old(State()), data)
      ensures kept == (|old(Unread(State()))| < SIZE - 1)
      ensures Unread(State()) == old(Unread(State())) + if kept then [data] else []
    {
      ReceiveEnqueues(State(), data);
      kept := Accepts(State());
      var value := end + 1;
      if SIZE <= value {
        value := 0;
      }
      if value == start {
        return;
      }
      buf[value] := data;
      end := value;
    }

    /** GetByte when no interrupt falls inside it: a dequeue. */
    method GetByte() returns (ok: bool, data: bv8)
      requires Valid()
      modifies this
      ensures Valid() && buf == old(buf)
      ensures ok == (old(Unread(State())) != [])
      ensures ok ==> [data] + Unread(State()) == old(Unread(State()))
      ensures !ok ==> Unread(State()) == old(Unread(State()))
    {
      hide Rings.Unread;
      data := 0;
      Rings.FullMeans(SIZE, start, end);
      if start == end {
        return false, data;
      }
      Rings.Dequeued(buf[..], start, end);
      if SIZE - 1 >= start + 1 {
        data := buf[start + 1];
      } else {
        data := buf[0];
      }
      start := start + 1;
      if SIZE - 1 < start {
        start := 0;
      }
      return true, data;
    }
  }
}
