/** The input manager: the list of input devices, the start-up pass that
    spawns one reader per successfully initialised device, the 20-slot ring
    buffer the readers fill, and the consumer call the UI loop drains it
    with. The mutex and condition variable only serialise these state
    transitions, so the model keeps the transitions and drops the locking;
    what the consumer sees after a wake-up is a parameter. */
module InputManager {
  import opened Common
  import opened Registry

  const INPUT_TYPE_TOUCH := 1
  const INPUT_TYPE_NET := 2

  /** Number of slots in the ring; one is always left free. */
  const BUFFER_LEN := 20

  datatype TimeVal = TimeVal(sec: int, usec: int)

  /** A reported input event. `kind` selects which of the touch fields
      (`x`, `y`, `pressure`) or the network text is meaningful. */
  datatype InputEvent = InputEvent(time: TimeVal, kind: int, x: int, y: int, pressure: int, text: string)

  /** The all-zero event a static slot holds before anything is written. */
  const ZeroEvent := InputEvent(TimeVal(0, 0), 0, 0, 0, 0, "")

  datatype RingBuffer = RingBuffer(slots: seq<InputEvent>, read: int, write: int) {
    predicate Valid() {
      |slots| == BUFFER_LEN && 0 <= read < BUFFER_LEN && 0 <= write < BUFFER_LEN
    }

    predicate IsEmpty() {
      read == write
    }

    predicate IsFull() {
      read == (write + 1) % BUFFER_LEN
    }
  }

  /** The buffer as the program starts: zeroed slots, both indices 0. */
  const Initial := RingBuffer(seq(BUFFER_LEN, _ => ZeroEvent), 0, 0)

  /** Number of events stored: the distance from `read` forward to `write`. */
  function Count(b: RingBuffer): (n: nat)
    requires b.Valid()
    ensures n < BUFFER_LEN
    ensures n == 0 <==> b.IsEmpty()
    ensures n == BUFFER_LEN - 1 <==> b.IsFull()
    ensures (b.read + n) % BUFFER_LEN == b.write
  {
    Wrap(b.write + 1);
    var n := if b.read <= b.write then b.write - b.read else b.write - b.read + BUFFER_LEN;
    Wrap(b.read + n);
    n
  }

  /** Position `k` places after `read`, going round the ring once at most. */
  function Slot(b: RingBuffer, k: nat): (i: nat)
    requires b.Valid() && k < BUFFER_LEN
    ensures i < BUFFER_LEN && i == (b.read + k) % BUFFER_LEN
  {
    Wrap(b.read + k);
    if b.read + k < BUFFER_LEN then b.read + k else b.read + k - BUFFER_LEN
  }

  /** The events stored, oldest first: the queue the ring represents. */
  function Contents(b: RingBuffer): (q: seq<InputEvent>)
    requires b.Valid()
    ensures |q| == Count(b)
  {
    seq(Count(b), k requires 0 <= k < Count(b) => b.slots[Slot(b, k)])
  }

  lemma InitialIsEmpty()
    ensures Initial.Valid() && Initial.IsEmpty() && Contents(Initial) == []
  {
  }

  /** put_inputevent_tobuffer: store at `write` and advance it, unless the
      ring is full, in which case the incoming event is dropped. */
  function Put(b: RingBuffer, e: InputEvent): (r: RingBuffer)
    requires b.Valid()
    ensures r.Valid()
    ensures b.IsFull() ==> r == b
    ensures !b.IsFull() ==> r.slots == b.slots[b.write := e]
                            && r.write == (b.write + 1) % BUFFER_LEN
                            && r.read == b.read
    ensures Contents(r) == if b.IsFull() then Contents(b) else Contents(b) + [e]
  {
    if b.IsFull() then b
    else
      var r := RingBuffer(b.slots[b.write := e], b.read, (b.write + 1) % BUFFER_LEN);
      PutContents(b, e, r);
      r
  }

  lemma PutContents(b: RingBuffer, e: InputEvent, r: RingBuffer)
    requires b.Valid() && !b.IsFull()
    requires r == RingBuffer(b.slots[b.write := e], b.read, (b.write + 1) % BUFFER_LEN)
    ensures r.Valid() && Contents(r) == Contents(b) + [e]
  {
    var n := Count(b);
    Wrap(b.write + 1);
    Wrap(b.write - b.read);
    Wrap(r.write - r.read);
    assert Count(r) == n + 1;
    forall k | 0 <= k < n + 1
      ensures Contents(r)[k] == (Contents(b) + [e])[k]
    {
      Wrap(b.read + k);
    }
  }

  /** Result of taking an event out: the status the C function returns, the
      event copied out (when there was one), and the buffer afterwards. */
  datatype Fetch = Fetch(rc: int, event: Option<InputEvent>, buffer: RingBuffer)

  /** get_inputevent_frombuffer: 0 and no change on an empty ring; otherwise
      1, the slot at `read`, and `read` advanced by one. */
  function Get(b: RingBuffer): (r: Fetch)
    requires b.Valid()
    ensures r.buffer.Valid()
    ensures b.IsEmpty() ==> r == Fetch(0, None, b)
    ensures !b.IsEmpty() ==> r.rc == 1 && r.event == Some(b.slots[b.read])
                             && r.buffer == b.(read := (b.read + 1) % BUFFER_LEN)
    ensures r.rc == 1 ==> r.event.Some? && Contents(b) == [r.event.value] + Contents(r.buffer)
  {
    if b.IsEmpty() then Fetch(0, None, b)
    else
      var r := Fetch(1, Some(b.slots[b.read]), b.(read := (b.read + 1) % BUFFER_LEN));
      GetContents(b, r.buffer);
      r
  }

  lemma GetContents(b: RingBuffer, r: RingBuffer)
    requires b.Valid() && !b.IsEmpty()
    requires r == b.(read := (b.read + 1) % BUFFER_LEN)
    ensures r.Valid() && Contents(b) == [b.slots[b.read]] + Contents(r)
  {
    Wrap(b.read + 1);
    Wrap(b.write - b.read);
    Wrap(r.write - r.read);
    assert Count(r) == Count(b) - 1;
    forall k | 0 <= k < Count(b)
      ensures Contents(b)[k] == ([b.slots[b.read]] + Contents(r))[k]
    {
      if k > 0 {
        Wrap(b.read + k);
        Wrap(r.read + (k - 1));
      }
    }
  }

  /** Indices into the ring stay within one turn of it either way, so the
      remainder is a single correction. */
  lemma Wrap(i: int)
    requires -BUFFER_LEN <= i < 2 * BUFFER_LEN
    ensures i % BUFFER_LEN == if i < 0 then i + BUFFER_LEN else if i < BUFFER_LEN then i else i - BUFFER_LEN
  {
  }

  /** get_inputevent, the consumer's call. On a non-empty ring it returns 0
      and the oldest event. Otherwise it waits once; `woken` is the ring as
      the consumer finds it after the wake-up, which it re-checks exactly
      once, returning -1 if that ring is still empty. */
  function GetInputEvent(b: RingBuffer, woken: RingBuffer): (r: Fetch)
    requires b.Valid() && woken.Valid()
    ensures r.buffer.Valid()
    ensures r.rc == 0 || r.rc == -1
    ensures r.rc == 0 <==> r.event.Some?
    ensures !b.IsEmpty() ==> r.rc == 0 && Contents(b) == [r.event.value] + Contents(r.buffer)
    ensures b.IsEmpty() && !woken.IsEmpty() ==>
              r.rc == 0 && Contents(woken) == [r.event.value] + Contents(r.buffer)
    ensures b.IsEmpty() && woken.IsEmpty() ==> r.rc == -1 && r.buffer == woken
  {
    var first := Get(b);
    if first.rc == 1 then Fetch(0, first.event, first.buffer)
    else
      var again := Get(woken);
      if again.rc == 1 then Fetch(0, again.event, again.buffer)
      else Fetch(-1, None, again.buffer)
  }

  /** A producer that enqueues `es` one after the other. */
  function PutAll(b: RingBuffer, es: seq<InputEvent>): (r: RingBuffer)
    requires b.Valid()
    ensures r.Valid()
    decreases |es|
  {
    if |es| == 0 then b else PutAll(Put(b, es[0]), es[1..])
  }

  /** A consumer that dequeues until the ring is empty. */
  function Drain(b: RingBuffer): seq<InputEvent>
    requires b.Valid()
    decreases Count(b)
  {
    var f := Get(b);
    if f.rc == 1 then [f.event.value] + Drain(f.buffer) else []
  }

  lemma {:induction false} DrainIsContents(b: RingBuffer)
    requires b.Valid()
    ensures Drain(b) == Contents(b)
    decreases Count(b)
  {
    var f := Get(b);
    if f.rc == 1 {
      DrainIsContents(f.buffer);
    }
  }

  function Min(a: int, b: int): int {
    if a < b then a else b
  }

  /** The queue a burst leaves behind, on queues alone: each event joins
      the end unless 19 are already waiting, in which case it is dropped. */
  function Enqueued(q: seq<InputEvent>, es: seq<InputEvent>): seq<InputEvent>
    decreases |es|
  {
    if |es| == 0 then q
    else Enqueued(if |q| == BUFFER_LEN - 1 then q else q + [es[0]], es[1..])
  }

  /** Enqueuing a burst into the ring does to its queue what `Enqueued` says. */
  lemma {:induction false} PutAllContents(b: RingBuffer, es: seq<InputEvent>)
    requires b.Valid()
    ensures Contents(PutAll(b, es)) == Enqueued(Contents(b), es)
    decreases |es|
  {
    if |es| > 0 {
      var b1 := Put(b, es[0]);
      assert PutAll(b, es) == PutAll(b1, es[1..]);
      PutAllContents(b1, es[1..]);
    }
  }

  /** A burst keeps the oldest events, in arrival order, up to 19. */
  lemma {:induction false} EnqueuedKeepsOldest(q: seq<InputEvent>, es: seq<InputEvent>)
    requires |q| <= BUFFER_LEN - 1
    ensures Enqueued(q, es) == (q + es)[..Min(BUFFER_LEN - 1, |q| + |es|)]
    decreases |es|
  {
    if |es| > 0 {
      var rest := es[1..];
      assert es == [es[0]] + rest;
      if |q| == BUFFER_LEN - 1 {
        EnqueuedKeepsOldest(q, rest);
        assert (q + rest)[..|q|] == q;
        assert (q + es)[..|q|] == q;
      } else {
        EnqueuedKeepsOldest(q + [es[0]], rest);
        assert q + [es[0]] + rest == q + es;
      }
    }
  }

  /** Drop-newest over a whole burst: after any run of enqueues the ring
      holds the oldest events, in arrival order, up to its 19-event
      capacity; everything that arrived after the ring filled is lost. */
  lemma PutAllKeepsOldest(b: RingBuffer, es: seq<InputEvent>)
    requires b.Valid()
    ensures Contents(PutAll(b, es)) == (Contents(b) + es)[..Min(BUFFER_LEN - 1, Count(b) + |es|)]
  {
    PutAllContents(b, es);
    EnqueuedKeepsOldest(Contents(b), es);
  }

  /** FIFO: fewer than 20 events enqueued into the initial ring come out in
      the order they went in, none lost. */
  lemma Fifo(es: seq<InputEvent>)
    requires |es| < BUFFER_LEN
    ensures Drain(PutAll(Initial, es)) == es
  {
    InitialIsEmpty();
    FifoFromEmpty(Initial, es);
  }

  /** The same from any empty ring, wherever its indices stand. */
  lemma FifoFromEmpty(b: RingBuffer, es: seq<InputEvent>)
    requires b.Valid() && b.IsEmpty() && |es| < BUFFER_LEN
    ensures Drain(PutAll(b, es)) == es
  {
    assert Contents(b) == [];
    PutAllContents(b, es);
    EnqueuedKeepsOldest([], es);
    assert Min(BUFFER_LEN - 1, |es|) == |es| && ([] + es)[..|es|] == es;
    DrainIsContents(PutAll(b, es));
  }

  /** input_deviceinit: walks the device list from the head, calling each
      device's `deviceinit` (its result for the i-th node is `initRc[i]`),
      and spawns a reader exactly for the devices whose init returned 0. A
      failure does not stop the walk. Returns the positions of the devices
      that got a reader, in list order. */
  method InputDeviceInit(devs: seq<Named<nat>>, initRc: seq<int>) returns (started: seq<nat>)
    requires |initRc| == |devs|
    ensures forall k :: 0 <= k < |started| ==> started[k] < |devs| && initRc[started[k]] == 0
    ensures forall i :: 0 <= i < |devs| && initRc[i] == 0 ==> i in started
    ensures forall k, l :: 0 <= k < l < |started| ==> started[k] < started[l]
  {
    started := [];
    var i := 0;
    while i < |devs|
      invariant 0 <= i <= |devs|
      invariant forall k :: 0 <= k < |started| ==> started[k] < i && initRc[started[k]] == 0
      invariant forall j :: 0 <= j < i && initRc[j] == 0 ==> j in started
      invariant forall k, l :: 0 <= k < l < |started| ==> started[k] < started[l]
    {
      if initRc[i] == 0 {
        started := started + [i];
      }
      i := i + 1;
    }
  }
}
