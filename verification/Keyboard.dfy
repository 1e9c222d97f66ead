/** src/keyboard/keyboard.c: the ring of characters that were typed and not yet read. */
module Keyboard {
  import opened Words

  const SIZE := 1024

  type Slot = i: int | 0 <= i < 1024

  datatype Ring = Ring(cells: seq<byte>, head: Slot, tail: Slot)
  {
    predicate Valid() {
      |cells| == 1024
    }
  }

  function Next(i: Slot): Slot {
    if i + 1 >= 1024 then 0 else i + 1
  }

  /** The number of steps from a slot to another, going up and around. */
  function Distance(from: Slot, to: Slot): Slot {
    if to >= from then to - from else to - from + 1024
  }

  // Specification ------------------------------------------------------------------------------

  /** The character 0 is never stored. */
  function Pushed(r: Ring, c: byte): (r': Ring)
    requires r.Valid()
    ensures r'.Valid()
  {
    if c == 0 then r else r.(cells := r.cells[r.tail := c], tail := Next(r.tail))
  }

  /** The head moves on even if nothing was stored. */
  function Popped(r: Ring): (r': Ring)
    requires r.Valid()
    ensures r'.Valid()
  {
    r.(cells := r.cells[r.head := 0], head := Next(r.head))
  }

  function Backspaced(r: Ring): (r': Ring)
    requires r.Valid()
    ensures r'.Valid()
  {
    var tail := if r.tail == 0 then 0 else r.tail - 1;
    r.(cells := r.cells[tail := 0], tail := tail)
  }

  // The keyboard of a process -----------------------------------------------------------------------

  class Buffer {
    const cells: array<byte>
    var tail: int
    var head: int

    predicate Valid()
      reads this
    {
      cells.Length == SIZE && 0 <= tail < SIZE && 0 <= head < SIZE
    }

    function Contents(): Ring
      reads this, cells
      requires Valid()
    {
      Ring(cells[..], head, tail)
    }

    constructor ()
      ensures Valid() && fresh(cells) && head == tail == 0
      ensures forall i | 0 <= i < SIZE :: cells[i] == 0
    {
      cells := new byte[SIZE](_ => 0);
      tail, head := 0, 0;
    }

    method Backspace()
      requires Valid()
      modifies this`tail, cells
      ensures Valid() && Contents() == Backspaced(old(Contents()))
    {
      tail := tail - 1;
      if tail < 0 {
        tail := 0;
      }
      cells[tail] := 0;
    }
  }

  /** Stores a character for the current process, if there is one. */
  method Push(current: Buffer?, c: byte)
    requires current != null ==> current.Valid()
    modifies if current != null then {current, current.cells} else {}
    ensures current != null ==>
              && current.Valid() && current.head == old(current.head)
              && current.Contents() == Pushed(old(current.Contents()), c)
  {
    if current == null {
      return;
    }
    if c == 0 {
      return;
    }
    current.cells[current.tail] := c;
    current.tail := current.tail + 1;
    if current.tail >= SIZE {
      current.tail := 0;
    }
  }

  /** Takes the character at the head for the current task, if there is one. */
  method Pop(current: Buffer?) returns (c: byte)
    requires current != null ==> current.Valid()
    modifies if current != null then {current, current.cells} else {}
    ensures current == null ==> c == 0
    ensures current != null ==>
              && current.Valid() && current.Contents() == Popped(old(current.Contents()))
              && c == old(current.cells[current.head])
  {
    if current == null {
      return 0;
    }
    c := current.cells[current.head];
    current.cells[current.head] := 0;
    current.head := current.head + 1;
    if current.head >= SIZE {
      current.head := 0;
    }
  }

  // Runs -------------------------------------------------------------------------------------------

  datatype Event = Type(c: byte) | Read

  function After(r: Ring, events: seq<Event>): (r': Ring)
    requires r.Valid()
    ensures r'.Valid()
    decreases |events|
  {
    if events == [] then r
    else After(if events[0].Type? then Pushed(r, events[0].c) else Popped(r), events[1..])
  }

  /** What the reads of a run return, in order. */
  function Outputs(r: Ring, events: seq<Event>): seq<byte>
    requires r.Valid()
    decreases |events|
  {
    if events == [] then []
    else if events[0].Type? then Outputs(Pushed(r, events[0].c), events[1..])
    else [r.cells[r.head]] + Outputs(Popped(r), events[1..])
  }

  /** The slots that the reads look at. */
  function Slots(r: Ring, events: seq<Event>): (slots: seq<Slot>)
    requires r.Valid()
    ensures |slots| == |Outputs(r, events)|
    decreases |events|
  {
    if events == [] then []
    else if events[0].Type? then Slots(Pushed(r, events[0].c), events[1..])
    else [r.head] + Slots(Popped(r), events[1..])
  }

  /** The number of characters stored before the k-th read, counted from 0. */
  function StoredBefore(events: seq<Event>, k: nat): nat {
    if events == [] then 0
    else if events[0].Type? then (if events[0].c == 0 then 0 else 1) + StoredBefore(events[1..], k)
    else if k == 0 then 0
    else StoredBefore(events[1..], k - 1)
  }

  /** Among 1024 reads in a row exactly one looks at a given slot: as many reads on as the slot is ahead. */
  lemma {:induction false} ReadsInTurn(r: Ring, events: seq<Event>, t: Slot, k: nat)
    requires r.Valid() && k < |Slots(r, events)| && k < 1024
    ensures Slots(r, events)[k] == t <==> k == Distance(r.head, t)
    decreases |events|
  {
    if events[0].Type? {
      ReadsInTurn(Pushed(r, events[0].c), events[1..], t, k);
    } else if k > 0 {
      ReadsInTurn(Popped(r), events[1..], t, k - 1);
    }
  }

  /**
    What a slot holds is returned by the first read that looks at it, whatever is stored and read in between, unless so
    much is stored before that read that the slot is overwritten.
  */
  lemma {:induction false} SlotIsReturned(r: Ring, events: seq<Event>, t: Slot)
    requires r.Valid() && Distance(r.head, t) < |Outputs(r, events)|
    requires StoredBefore(events, Distance(r.head, t)) <= Distance(r.tail, t)
    ensures Outputs(r, events)[Distance(r.head, t)] == r.cells[t]
    decreases |events|
  {
    if events[0].Type? {
      SlotIsReturned(Pushed(r, events[0].c), events[1..], t);
    } else if t != r.head {
      SlotIsReturned(Popped(r), events[1..], t);
    }
  }

  /**
    A character that is stored is returned by the read whose number is the distance from head to tail, if less than 1024
    others are stored before it.
  */
  lemma Delivered(r: Ring, c: byte, events: seq<Event>)
    requires r.Valid() && c != 0 && Distance(r.head, r.tail) < |Outputs(Pushed(r, c), events)|
    requires StoredBefore(events, Distance(r.head, r.tail)) < 1024
    ensures Outputs(Pushed(r, c), events)[Distance(r.head, r.tail)] == c
  {
    SlotIsReturned(Pushed(r, c), events, r.tail);
  }

  /** A slot that was read gives 0 the next time, 1024 reads later, unless something is stored in it. */
  lemma NotTwice(r: Ring, events: seq<Event>)
    requires r.Valid() && |Outputs(Popped(r), events)| > 1023
    requires StoredBefore(events, 1023) <= Distance(r.tail, r.head)
    ensures Outputs(Popped(r), events)[1023] == 0
  {
    SlotIsReturned(Popped(r), events, r.head);
  }

  // A queue ----------------------------------------------------------------------------------------

  /** The ring holds a queue: its characters from the head on. */
  ghost predicate Holds(r: Ring, queue: seq<byte>) {
    && r.Valid() && |queue| <= 1024
    && Advance(r.head, |queue|) == r.tail
    && forall i | 0 <= i < |queue| :: queue[i] == r.cells[Advance(r.head, i)]
  }

  function Advance(i: Slot, n: nat): Slot
    requires n <= 1024
  {
    if i + n >= 1024 then i + n - 1024 else i + n
  }

  /** The reads of a run on a queue, if it never reads from the empty queue nor stores in a full one. */
  datatype QueueRun = Broken | Ok(outputs: seq<byte>, queue: seq<byte>)

  function RunQueue(queue: seq<byte>, events: seq<Event>): QueueRun
    decreases |events|
  {
    if events == [] then Ok([], queue)
    else match events[0]
      case Type(c) =>
        if c == 0 then RunQueue(queue, events[1..])
        else if |queue| >= 1024 then Broken
        else RunQueue(queue + [c], events[1..])
      case Read =>
        if queue == [] then Broken
        else
          var rest := RunQueue(queue[1..], events[1..]);
          if rest.Broken? then Broken else Ok([queue[0]] + rest.outputs, rest.queue)
  }

  lemma PushedHolds(r: Ring, queue: seq<byte>, c: byte)
    requires Holds(r, queue) && c != 0 && |queue| < 1024
    ensures Holds(Pushed(r, c), queue + [c])
  {
  }

  lemma PoppedHolds(r: Ring, queue: seq<byte>)
    requires Holds(r, queue) && queue != []
    ensures r.cells[r.head] == queue[0] && Holds(Popped(r), queue[1..])
  {
    assert queue[0] == r.cells[Advance(r.head, 0)];
    forall i | 0 <= i < |queue[1..]|
      ensures queue[1..][i] == Popped(r).cells[Advance(Popped(r).head, i)]
    {
      assert queue[i + 1] == r.cells[Advance(r.head, i + 1)];
    }
  }

  /** Every run that keeps to that discipline behaves as a queue: the reads agree, and the ring holds what is left. */
  lemma {:induction false} RunsAsQueue(r: Ring, queue: seq<byte>, events: seq<Event>)
    requires Holds(r, queue) && RunQueue(queue, events).Ok?
    ensures Outputs(r, events) == RunQueue(queue, events).outputs
    ensures Holds(After(r, events), RunQueue(queue, events).queue)
    decreases |events|
  {
    if events != [] {
      match events[0]
      case Type(c) =>
        if c == 0 {
          RunsAsQueue(r, queue, events[1..]);
        } else {
          PushedHolds(r, queue, c);
          RunsAsQueue(Pushed(r, c), queue + [c], events[1..]);
        }
      case Read =>
        PoppedHolds(r, queue);
        RunsAsQueue(Popped(r), queue[1..], events[1..]);
    }
  }

  /** The plain queue: reading from the empty one leaves it empty, and storing always appends. */
  function QueueAfter(queue: seq<byte>, event: Event): seq<byte> {
    match event
    case Type(c) => if c == 0 then queue else queue + [c]
    case Read => if queue == [] then [] else queue[1..]
  }

  /** The ring holds the plain queue before the run and after each of its events. */
  ghost predicate HoldsThroughout(r: Ring, queue: seq<byte>, events: seq<Event>)
    decreases |events|
  {
    && Holds(r, queue)
    && (events != [] ==>
          HoldsThroughout(if events[0].Type? then Pushed(r, events[0].c) else Popped(r), QueueAfter(queue, events[0]),
                          events[1..]))
  }

  /** A character too many, or a read too many, and the ring holds the queue no longer. */
  lemma BrokenHolds(r: Ring, queue: seq<byte>, event: Event)
    requires Holds(r, queue) && event != Type(0)
    requires if event.Type? then |queue| == 1024 else queue == []
    ensures !Holds(if event.Type? then Pushed(r, event.c) else Popped(r), QueueAfter(queue, event))
  {
  }

  /**
    The ring holds the plain queue throughout a run exactly when the run never reads from the empty queue nor stores in
    a full one.
  */
  lemma {:induction false} HoldsThroughoutIff(r: Ring, queue: seq<byte>, events: seq<Event>)
    requires Holds(r, queue)
    ensures HoldsThroughout(r, queue, events) <==> RunQueue(queue, events).Ok?
    decreases |events|
  {
    if events != [] {
      match events[0]
      case Type(c) =>
        if c == 0 {
          HoldsThroughoutIff(r, queue, events[1..]);
        } else if |queue| >= 1024 {
          BrokenHolds(r, queue, events[0]);
        } else {
          PushedHolds(r, queue, c);
          HoldsThroughoutIff(Pushed(r, c), queue + [c], events[1..]);
        }
      case Read =>
        if queue == [] {
          BrokenHolds(r, queue, events[0]);
        } else {
          PoppedHolds(r, queue);
          HoldsThroughoutIff(Popped(r), queue[1..], events[1..]);
        }
    }
  }

  /** Without that discipline a character can be late: a read from the empty ring makes the next one wait for 1023. */
  lemma EmptyReadDelays(r: Ring, c: byte, events: seq<Event>)
    requires r.Valid() && r.head == r.tail && c != 0 && |Outputs(Pushed(Popped(r), c), events)| > 1023
    requires StoredBefore(events, 1023) < 1024
    ensures Outputs(Pushed(Popped(r), c), events)[1023] == c
    ensures forall k | 0 <= k < 1023 :: Slots(Pushed(Popped(r), c), events)[k] != r.tail
  {
    Delivered(Popped(r), c, events);
    forall k | 0 <= k < 1023
      ensures Slots(Pushed(Popped(r), c), events)[k] != r.tail
    {
      ReadsInTurn(Pushed(Popped(r), c), events, r.tail, k);
    }
  }

  /** Backspace undoes a character exactly when the tail did not wrap around and nothing was overwritten. */
  lemma BackspaceUndoesIff(r: Ring, c: byte)
    requires r.Valid() && c != 0
    ensures Backspaced(Pushed(r, c)) == r <==> r.tail != 1023 && r.cells[r.tail] == 0
  {
    var after := Backspaced(Pushed(r, c));
    if r.tail != 1023 {
      assert after.cells[r.tail] == 0;
      if r.cells[r.tail] == 0 {
        assert after.cells == r.cells;
      }
    }
  }
}
