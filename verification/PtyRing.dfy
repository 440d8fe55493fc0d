/** The pty pair of tests/ptspair.c: a start/end/full ring buffer per side, and the arming of
    EPOLLOUT for the side whose buffer holds bytes. */
module PtyRing {
  import opened Common

  const PTSPAIR_BUFFER_SIZE: int := 0x200

  datatype Ring = Ring(buf: seq<byte>, start: int, end: int, full: bool)

  /** The indices are in range; this holds for every ring, consistent or not. */
  predicate InRange(r: Ring) {
    |r.buf| == PTSPAIR_BUFFER_SIZE && 0 <= r.start < PTSPAIR_BUFFER_SIZE && 0 <= r.end < PTSPAIR_BUFFER_SIZE
  }

  /** full only ever disambiguates start == end. */
  predicate Consistent(r: Ring) {
    InRange(r) && (r.full ==> r.start == r.end)
  }

  /** The queued bytes, oldest first. */
  function Contents(r: Ring): seq<byte>
    requires InRange(r)
  {
    if r.start < r.end then r.buf[r.start..r.end]
    else if r.start == r.end && !r.full then []
    else r.buf[r.start..] + r.buf[..r.end]
  }

  function WriteLength(r: Ring): int {
    if r.end < r.start then r.start - r.end else PTSPAIR_BUFFER_SIZE - r.end
  }

  function ReadLength(r: Ring): int {
    if r.end < r.start then PTSPAIR_BUFFER_SIZE - r.start
    else if r.end == r.start then (if r.full then PTSPAIR_BUFFER_SIZE - r.start else 0)
    else r.end - r.start
  }

  /** read() into the ring at end, then written_update. */
  function Put(r: Ring, data: seq<byte>): (r': Ring)
    requires InRange(r) && |data| <= WriteLength(r)
    ensures InRange(r')
  {
    var end := (r.end + |data|) % PTSPAIR_BUFFER_SIZE;
    Ring(r.buf[..r.end] + data + r.buf[r.end + |data|..], r.start, end, r.full || end == r.start)
  }

  /** The bytes that write() takes out of the ring. */
  function Front(r: Ring, n: int): seq<byte>
    requires InRange(r) && 0 <= n <= ReadLength(r)
  {
    r.buf[r.start..r.start + n]
  }

  /** read_update */
  function Take(r: Ring, n: int): (r': Ring)
    requires InRange(r) && 0 <= n <= ReadLength(r)
    ensures InRange(r')
  {
    Ring(r.buf, (r.start + n) % PTSPAIR_BUFFER_SIZE, r.end, r.full && r.end != r.start)
  }

  // ------------------------------------------------------------- refinement

  lemma Lengths(r: Ring)
    requires Consistent(r)
    ensures ReadLength(r) == 0 <==> Contents(r) == []
    ensures 0 <= ReadLength(r) <= |Contents(r)| <= PTSPAIR_BUFFER_SIZE
    ensures Front(r, ReadLength(r)) == Contents(r)[..ReadLength(r)]
    ensures r.full <==> |Contents(r)| == PTSPAIR_BUFFER_SIZE
  {
  }

  /** The room check of process_in_event can never fail, so -ENOBUFS is never returned,
      not even for a full ring. */
  lemma RoomCheckNeverFails(r: Ring)
    requires InRange(r)
    ensures WriteLength(r) > 0
  {
  }

  /** When a transfer into the ring is harmless: bytes need a ring that is not full, and an
      empty transfer needs one that is not empty. */
  predicate PutAllowed(r: Ring, n: int) {
    if n > 0 then !r.full else r.full || r.start != r.end
  }

  /** Room between end and start. */
  lemma PutBehind(r: Ring, data: seq<byte>)
    requires Consistent(r) && r.end < r.start && 0 < |data| <= WriteLength(r)
    ensures Consistent(Put(r, data)) && Contents(Put(r, data)) == Contents(r) + data
  {
    var t := Put(r, data);
    assert t.end == r.end + |data|;
    assert t.buf[r.start..] == r.buf[r.start..];
    assert t.buf[..t.end] == r.buf[..r.end] + data;
    Assoc(r.buf[r.start..], r.buf[..r.end], data);
  }

  /** Room up to the end of the array. */
  lemma PutAhead(r: Ring, data: seq<byte>)
    requires Consistent(r) && !r.full && r.start <= r.end && 0 < |data| <= WriteLength(r)
    ensures Consistent(Put(r, data)) && Contents(Put(r, data)) == Contents(r) + data
  {
    var t := Put(r, data);
    assert Contents(r) == r.buf[r.start..r.end];
    if r.end + |data| < PTSPAIR_BUFFER_SIZE {
      assert t.end == r.end + |data|;
      assert t.buf[r.start..t.end] == r.buf[r.start..r.end] + data;
    } else {
      assert t.end == 0 && t.buf == r.buf[..r.end] + data;
      assert t.buf[r.start..] == r.buf[r.start..r.end] + data;
    }
  }

  /** An empty transfer in: harmless, except that it turns an empty ring into a full one. */
  lemma PutNothing(r: Ring)
    requires Consistent(r)
    ensures Consistent(Put(r, [])) && Contents(Put(r, [])) == Contents(r) + [] <==> r.full || r.start != r.end
  {
    assert Put(r, []).buf == r.buf;
    assert Contents(r) + [] == Contents(r);
    Lengths(r);
    Lengths(Put(r, []));
  }

  /** Bytes for a full ring cannot be queued. */
  lemma PutIntoFull(r: Ring, data: seq<byte>)
    requires Consistent(r) && r.full && 0 < |data| <= WriteLength(r)
    ensures !(Consistent(Put(r, data)) && Contents(Put(r, data)) == Contents(r) + data)
  {
    Lengths(r);
    if Consistent(Put(r, data)) {
      Lengths(Put(r, data));
    }
    assert |Contents(r) + data| > PTSPAIR_BUFFER_SIZE;
  }

  /** Writing into the ring appends to the queue, across the wrap-around, exactly then. */
  lemma PutAppendsIff(r: Ring, data: seq<byte>)
    requires Consistent(r) && |data| <= WriteLength(r)
    ensures PutAllowed(r, |data|) <==>
              Consistent(Put(r, data)) && Contents(Put(r, data)) == Contents(r) + data
  {
    if data == [] {
      PutNothing(r);
    } else if r.full {
      PutIntoFull(r, data);
    } else if r.end < r.start {
      PutBehind(r, data);
    } else {
      PutAhead(r, data);
    }
  }

  lemma Cut<T>(q: seq<T>, i: int, j: int, k: int)
    requires 0 <= i <= j <= k <= |q|
    ensures q[i..k] == q[i..j] + q[j..k]
  {
  }

  lemma Assoc<T>(x: seq<T>, y: seq<T>, z: seq<T>)
    ensures (x + y) + z == x + (y + z)
  {
  }

  /** Not wrapped: start < end. */
  lemma TakeStraight(r: Ring, n: int)
    requires Consistent(r) && r.start < r.end && 0 < n <= ReadLength(r)
    ensures Contents(r) == Front(r, n) + Contents(Take(r, n))
  {
    Cut(r.buf, r.start, r.start + n, r.end);
    assert Contents(Take(r, n)) == r.buf[r.start + n..r.end];
  }

  /** Wrapped around the end of the array, which is not reached. */
  lemma TakeWrapped(r: Ring, n: int)
    requires Consistent(r) && r.start >= r.end && 0 < n <= ReadLength(r) && r.start + n < PTSPAIR_BUFFER_SIZE
    ensures Contents(r) == Front(r, n) + Contents(Take(r, n))
  {
    var b, next := r.buf, r.start + n;
    var x, y, z := b[r.start..next], b[next..], b[..r.end];
    assert Take(r, n) == Ring(b, next, r.end, false);
    assert Contents(Take(r, n)) == y + z;
    Cut(b, r.start, next, PTSPAIR_BUFFER_SIZE);
    assert Contents(r) == (x + y) + z;
    Assoc(x, y, z);
  }

  /** Wrapped around the end of the array, which is reached. */
  lemma TakeToEnd(r: Ring, n: int)
    requires Consistent(r) && r.start >= r.end && 0 < n <= ReadLength(r) && r.start + n == PTSPAIR_BUFFER_SIZE
    ensures Contents(r) == Front(r, n) + Contents(Take(r, n))
  {
    var b := r.buf;
    assert Take(r, n) == Ring(b, 0, r.end, false);
    assert Contents(Take(r, n)) == b[..r.end];
    assert b[r.start..] == b[r.start..r.start + n];
  }

  /** An empty transfer out: harmless, except that it empties a full ring. */
  lemma TakeNothing(r: Ring)
    requires Consistent(r)
    ensures Consistent(Take(r, 0)) && Front(r, 0) == []
    ensures !r.full ==> Take(r, 0) == r
    ensures Contents(r) == Front(r, 0) + Contents(Take(r, 0)) <==> !r.full
  {
    assert Front(r, 0) + Contents(Take(r, 0)) == Contents(Take(r, 0));
    Lengths(r);
    Lengths(Take(r, 0));
  }

  /** Taking from the ring removes a prefix of the queue, unless nothing is taken from a
      full ring, which empties it. */
  lemma TakeRemovesIff(r: Ring, n: int)
    requires Consistent(r) && 0 <= n <= ReadLength(r)
    ensures (n > 0 || !r.full) <==>
              Consistent(Take(r, n)) && Contents(r) == Front(r, n) + Contents(Take(r, n))
  {
    if n > 0 {
      if r.start < r.end {
        TakeStraight(r, n);
      } else if r.start + n < PTSPAIR_BUFFER_SIZE {
        TakeWrapped(r, n);
      } else {
        TakeToEnd(r, n);
      }
    } else {
      TakeNothing(r);
    }
  }

  /** The condition of TakeRemovesIff. */
  predicate TakeAllowed(r: Ring, n: int) {
    n > 0 || !r.full
  }

  /** A ring seen from outside: FIFO, and armed exactly while bytes are queued, so that no
      wake-up is lost. ins and outs are all bytes that ever went in and came out. */
  predicate Queue(r: Ring, ins: seq<byte>, outs: seq<byte>, armed: bool) {
    && Consistent(r)
    && ins == outs + Contents(r)
    && (armed <==> Contents(r) != [])
  }

  lemma QueueAfterPut(r: Ring, data: seq<byte>, ins: seq<byte>, outs: seq<byte>, armed: bool)
    requires Queue(r, ins, outs, armed)
    requires |data| <= WriteLength(r) && PutAllowed(r, |data|)
    ensures Queue(Put(r, data), ins + data, outs, armed || ReadLength(r) == 0)
  {
    PutAppendsIff(r, data);
    Lengths(r);
    Assoc(outs, Contents(r), data);
  }

  lemma QueueAfterTake(r: Ring, n: int, ins: seq<byte>, outs: seq<byte>, armed: bool)
    requires Queue(r, ins, outs, armed)
    requires 0 <= n <= ReadLength(r) && TakeAllowed(r, n)
    ensures Queue(Take(r, n), ins, outs + Front(r, n), armed && ReadLength(Take(r, n)) != 0)
  {
    TakeRemovesIff(r, n);
    Lengths(Take(r, n));
    Assoc(outs, Front(r, n), Contents(Take(r, n)));
  }

  // ------------------------------------------------------------------ runs

  /** What the kernel can do: fail, or hand over or take up to so many bytes. */
  datatype Supply = ReadFails | Available(bytes: seq<byte>)
  datatype Demand = WriteFails | Room(n: nat)

  datatype Result = Fine | Enobufs | Eio | Errno

  function Min(a: int, b: int): int {
    if a < b then a else b
  }

  /** One side with its history: ins and outs as in Queue; clean says that every transfer so
      far met the conditions of PutAppendsIff and TakeRemovesIff. */
  datatype SideState = SideState(ring: Ring, armed: bool, ins: seq<byte>, outs: seq<byte>, clean: bool)

  ghost predicate SideInv(s: SideState) {
    InRange(s.ring) && (s.clean ==> Queue(s.ring, s.ins, s.outs, s.armed))
  }

  /** process_in_event, seen by the side whose ring receives the bytes. */
  function ReceiveStep(s: SideState, supply: Supply): (s': SideState)
    requires InRange(s.ring)
    ensures InRange(s'.ring)
  {
    match supply
    case ReadFails => s
    case Available(bytes) =>
      var data := bytes[..Min(|bytes|, WriteLength(s.ring))];
      SideState(Put(s.ring, data), s.armed || ReadLength(s.ring) == 0,
                s.ins + data, s.outs, s.clean && PutAllowed(s.ring, |data|))
  }

  /** process_out_event */
  function DrainStep(s: SideState, demand: Demand): (s': SideState)
    requires InRange(s.ring)
    ensures InRange(s'.ring)
  {
    match demand
    case WriteFails => s
    case Room(room) =>
      var n := Min(room, ReadLength(s.ring));
      var ring := Take(s.ring, n);
      SideState(ring, s.armed && ReadLength(ring) != 0,
                s.ins, s.outs + Front(s.ring, n), s.clean && TakeAllowed(s.ring, n))
  }

  lemma ReceiveKeeps(s: SideState, supply: Supply)
    requires SideInv(s)
    ensures SideInv(ReceiveStep(s, supply))
  {
    if supply.Available? {
      var data := supply.bytes[..Min(|supply.bytes|, WriteLength(s.ring))];
      if s.clean && PutAllowed(s.ring, |data|) {
        QueueAfterPut(s.ring, data, s.ins, s.outs, s.armed);
      }
    }
  }

  lemma DrainKeeps(s: SideState, demand: Demand)
    requires SideInv(s)
    ensures SideInv(DrainStep(s, demand))
  {
    if demand.Room? {
      var n := Min(demand.n, ReadLength(s.ring));
      if s.clean && TakeAllowed(s.ring, n) {
        QueueAfterTake(s.ring, n, s.ins, s.outs, s.armed);
      }
    }
  }

  datatype Side = Foo | Bar

  /** One entry of epoll_wait: the side, and what happens there. */
  datatype PollEvent = PollEvent(
    side: Side, readable: bool, supply: Supply, writable: bool, demand: Demand, broken: bool)

  /** Both sides, and the error that occurred last. */
  datatype Pair = Pair(foo: SideState, bar: SideState, error: Result)

  ghost predicate PairInv(p: Pair) {
    SideInv(p.foo) && SideInv(p.bar)
  }

  /** Bytes read from one side go into the other side's ring. */
  function InStep(p: Pair, side: Side, supply: Supply): Pair
    requires InRange(p.foo.ring) && InRange(p.bar.ring)
  {
    var q := if side.Foo? then p.(bar := ReceiveStep(p.bar, supply)) else p.(foo := ReceiveStep(p.foo, supply));
    if supply.ReadFails? then q.(error := Errno) else q
  }

  /** A side's ring is written to that side. */
  function OutStep(p: Pair, side: Side, demand: Demand): Pair
    requires InRange(p.foo.ring) && InRange(p.bar.ring)
  {
    var q := if side.Foo? then p.(foo := DrainStep(p.foo, demand)) else p.(bar := DrainStep(p.bar, demand));
    if demand.WriteFails? then q.(error := Errno) else q
  }

  function EventStep(p: Pair, e: PollEvent): (q: Pair)
    requires InRange(p.foo.ring) && InRange(p.bar.ring)
    ensures InRange(q.foo.ring) && InRange(q.bar.ring)
  {
    var p1 := if e.readable then InStep(p, e.side, e.supply) else p;
    if e.writable then OutStep(p1, e.side, e.demand) else p1
  }

  /** process_events: from the last entry to the first, until one is broken. */
  function RunEvents(p: Pair, events: seq<PollEvent>): Pair
    requires InRange(p.foo.ring) && InRange(p.bar.ring)
    decreases |events|
  {
    if events == [] then p
    else
      var last := events[|events| - 1];
      var q := EventStep(p, last);
      if last.broken then q.(error := Eio) else RunEvents(q, events[..|events| - 1])
  }

  /** Over any run of events: a side whose transfers all met the conditions is a FIFO queue
      with EPOLLOUT armed exactly while bytes are queued, whatever happens on the other side. */
  lemma {:induction false} EventsKeepQueues(p: Pair, events: seq<PollEvent>)
    requires PairInv(p)
    ensures PairInv(RunEvents(p, events))
    decreases |events|
  {
    if events != [] {
      var last := events[|events| - 1];
      EventKeepsQueues(p, last);
      if !last.broken {
        EventsKeepQueues(EventStep(p, last), events[..|events| - 1]);
      }
    }
  }

  lemma EventKeepsQueues(p: Pair, e: PollEvent)
    requires PairInv(p)
    ensures PairInv(EventStep(p, e))
  {
    ReceiveKeeps(p.foo, e.supply);
    ReceiveKeeps(p.bar, e.supply);
    var p1 := if e.readable then InStep(p, e.side, e.supply) else p;
    DrainKeeps(p1.foo, e.demand);
    DrainKeeps(p1.bar, e.demand);
  }

  /** A run that only transfers bytes into rings with room, and never nothing, stays clean. */
  ghost predicate Careful(p: Pair, events: seq<PollEvent>)
    requires InRange(p.foo.ring) && InRange(p.bar.ring)
    decreases |events|
  {
    events != [] ==>
      var e := events[|events| - 1];
      var target := if e.side.Foo? then p.bar.ring else p.foo.ring;
      var p1 := if e.readable then InStep(p, e.side, e.supply) else p;
      var source := if e.side.Foo? then p1.foo.ring else p1.bar.ring;
      && (e.readable && e.supply.Available? ==> |e.supply.bytes| > 0 && !target.full)
      && (e.writable && e.demand.Room? ==> e.demand.n > 0 && ReadLength(source) > 0)
      && (!e.broken ==> Careful(EventStep(p, e), events[..|events| - 1]))
  }

  lemma {:induction false} CarefulRunsAreQueues(p: Pair, events: seq<PollEvent>)
    requires PairInv(p) && p.foo.clean && p.bar.clean && Careful(p, events)
    ensures
      var q := RunEvents(p, events);
      && Queue(q.foo.ring, q.foo.ins, q.foo.outs, q.foo.armed)
      && Queue(q.bar.ring, q.bar.ins, q.bar.outs, q.bar.armed)
    decreases |events|
  {
    if events != [] {
      var e := events[|events| - 1];
      EventKeepsQueues(p, e);
      CarefulEventStaysClean(p, e);
      if !e.broken {
        CarefulRunsAreQueues(EventStep(p, e), events[..|events| - 1]);
      }
    }
  }

  lemma CarefulEventStaysClean(p: Pair, e: PollEvent)
    requires PairInv(p) && p.foo.clean && p.bar.clean
    requires
      var target := if e.side.Foo? then p.bar.ring else p.foo.ring;
      e.readable && e.supply.Available? ==> |e.supply.bytes| > 0 && !target.full
    requires
      var p1 := if e.readable then InStep(p, e.side, e.supply) else p;
      var source := if e.side.Foo? then p1.foo.ring else p1.bar.ring;
      e.writable && e.demand.Room? ==> e.demand.n > 0 && ReadLength(source) > 0
    ensures EventStep(p, e).foo.clean && EventStep(p, e).bar.clean
  {
    RoomCheckNeverFails(p.foo.ring);
    RoomCheckNeverFails(p.bar.ring);
  }

  // ------------------------------------------------------ bytes that move

  /** What a readable side hands over: as many bytes as fit in one piece into the other side's
      ring, which is then armed. */
  lemma ReceiveTransfers(s: SideState, bytes: seq<byte>)
    requires SideInv(s)
    ensures
      var t, k := ReceiveStep(s, Available(bytes)), Min(|bytes|, WriteLength(s.ring));
      && t.ins == s.ins + bytes[..k] && t.outs == s.outs
      && (bytes != [] ==> k > 0)
      && (s.clean && bytes != [] && !s.ring.full ==>
            t.clean && Contents(t.ring) == Contents(s.ring) + bytes[..k] && t.armed)
  {
    RoomCheckNeverFails(s.ring);
    var k := Min(|bytes|, WriteLength(s.ring));
    if s.clean && bytes != [] && !s.ring.full {
      ReceiveKeeps(s, Available(bytes));
      PutAppendsIff(s.ring, bytes[..k]);
    }
  }

  /** What a writable side is given: the oldest bytes of its ring, at least one if there are any
      and it has room; it stays armed exactly while some are left. */
  lemma DrainTransfers(s: SideState, n: nat)
    requires SideInv(s) && s.clean && n > 0
    ensures
      var t, k := DrainStep(s, Room(n)), Min(n, ReadLength(s.ring));
      && t.clean && t.ins == s.ins && t.outs == s.outs + Contents(s.ring)[..k]
      && Contents(t.ring) == Contents(s.ring)[k..]
      && (Contents(s.ring) != [] ==> k > 0)
      && (t.armed <==> Contents(t.ring) != [])
  {
    Lengths(s.ring);
    var k := Min(n, ReadLength(s.ring));
    TakeRemovesIff(s.ring, k);
    DrainKeeps(s, Room(n));
    assert Front(s.ring, k) == Contents(s.ring)[..k];
  }

  /** Two writable events with enough room deliver everything that was received, wherever the
      ring wraps around. */
  lemma TwoDrainsDeliverAll(s: SideState)
    requires SideInv(s) && s.clean
    ensures
      var t := DrainStep(DrainStep(s, Room(PTSPAIR_BUFFER_SIZE)), Room(PTSPAIR_BUFFER_SIZE));
      t.clean && t.outs == s.ins && t.ins == s.ins && Contents(t.ring) == [] && !t.armed
  {
    var one := DrainStep(s, Room(PTSPAIR_BUFFER_SIZE));
    DrainTransfers(s, PTSPAIR_BUFFER_SIZE);
    DrainKeeps(s, Room(PTSPAIR_BUFFER_SIZE));
    FirstDrainUnwraps(s.ring);
    DrainTransfers(one, PTSPAIR_BUFFER_SIZE);
    DrainKeeps(one, Room(PTSPAIR_BUFFER_SIZE));
    Lengths(one.ring);
  }

  /** After the first of them what is left is in one piece. */
  lemma FirstDrainUnwraps(r: Ring)
    requires Consistent(r)
    ensures ReadLength(Take(r, ReadLength(r))) == |Contents(Take(r, ReadLength(r)))|
  {
  }

  /** Which side's ring an event moves bytes into and out of: what is read on one side goes to the
      other one, what is written comes from the side's own; and both happen when both are
      announced. */
  lemma EventMovesBytes(p: Pair, e: PollEvent)
    requires PairInv(p)
    ensures
      var q := EventStep(p, e);
      var foo := if e.side == Bar && e.readable then ReceiveStep(p.foo, e.supply) else p.foo;
      var bar := if e.side == Foo && e.readable then ReceiveStep(p.bar, e.supply) else p.bar;
      && q.foo == (if e.side == Foo && e.writable then DrainStep(foo, e.demand) else foo)
      && q.bar == (if e.side == Bar && e.writable then DrainStep(bar, e.demand) else bar)
  {
  }

  /** An event at which a system call fails. */
  predicate Fails(e: PollEvent) {
    (e.readable && e.supply.ReadFails?) || (e.writable && e.demand.WriteFails?)
  }

  /** What process_events returns: -EIO exactly if some entry is broken, otherwise an error
      exactly if some call fails or one had before. */
  lemma {:induction false} ErrorsAreReturned(p: Pair, events: seq<PollEvent>)
    requires PairInv(p)
    ensures
      var broken := exists i :: 0 <= i < |events| && events[i].broken;
      var failed := exists i :: 0 <= i < |events| && Fails(events[i]);
      RunEvents(p, events).error == if broken then Eio else if failed then Errno else p.error
    decreases |events|
  {
    if events != [] {
      var n := |events| - 1;
      var e, front := events[n], events[..n];
      EventKeepsQueues(p, e);
      assert EventStep(p, e).error == if Fails(e) then Errno else p.error;
      if !e.broken {
        ErrorsAreReturned(EventStep(p, e), front);
        assert forall i :: 0 <= i < n ==> front[i] == events[i];
        if exists i :: 0 <= i < |events| && events[i].broken {
          var i :| 0 <= i < |events| && events[i].broken;
          assert front[i].broken;
        } else if exists i :: 0 <= i < |events| && Fails(events[i]) {
          var i :| 0 <= i < |events| && Fails(events[i]);
          assert i < n ==> Fails(front[i]);
        }
      }
    }
  }

  /** A broken entry ends the work: what stands before it in the list is not looked at. */
  lemma BrokenEntryEndsIt(p: Pair, before: seq<PollEvent>, e: PollEvent)
    requires PairInv(p) && e.broken
    ensures RunEvents(p, before + [e]).foo == EventStep(p, e).foo
    ensures RunEvents(p, before + [e]).bar == EventStep(p, e).bar
  {
  }

  // ---------------------------------------------------------------- objects

  /** One side; the ghost fields are the history of SideState. */
  class Pts {
    const buf: array<byte>
    var start: int
    var end: int
    var full: bool
    /** EPOLLOUT is registered for this side. */
    var armed: bool
    ghost var ins: seq<byte>
    ghost var outs: seq<byte>
    ghost var clean: bool

    function View(): Ring
      reads this, buf
    {
      Ring(buf[..], start, end, full)
    }

    ghost function Whole(): SideState
      reads this, buf
    {
      SideState(View(), armed, ins, outs, clean)
    }

    ghost predicate Valid()
      reads this, buf
    {
      SideInv(Whole())
    }

    constructor ()
      ensures Valid() && clean && ins == [] && outs == [] && !armed && fresh(buf)
    {
      buf := new byte[PTSPAIR_BUFFER_SIZE];
      start, end, full, armed := 0, 0, false, false;
      ins, outs, clean := [], [], true;
    }

    method GetWriteLength() returns (n: int)
      ensures n == WriteLength(View())
    {
      if end < start {
        return start - end;
      }
      return PTSPAIR_BUFFER_SIZE - end;
    }

    method GetReadLength() returns (n: int)
      ensures n == ReadLength(View())
    {
      if end < start {
        return PTSPAIR_BUFFER_SIZE - start;
      }
      if end == start {
        return if full then PTSPAIR_BUFFER_SIZE - start else 0;
      }
      return end - start;
    }

    /** written_update */
    method WrittenUpdate(added: int)
      requires InRange(View()) && 0 <= added
      modifies this`end, this`full
      ensures end == (old(end) + added) % PTSPAIR_BUFFER_SIZE
      ensures full == (old(full) || end == start)
    {
      end := end + added;
      end := end % PTSPAIR_BUFFER_SIZE;
      if end == start {
        full := true;
      }
    }

    /** read_update */
    method ReadUpdate(consumed: int)
      requires InRange(View()) && 0 <= consumed <= ReadLength(View())
      modifies this`start, this`full
      ensures View() == Take(old(View()), consumed)
    {
      if end == start {
        full := false;
      }
      start := start + consumed;
      start := start % PTSPAIR_BUFFER_SIZE;
    }

    /** read() of these bytes to write_start, and written_update. */
    method Fill(data: seq<byte>)
      requires InRange(View()) && |data| <= WriteLength(View())
      modifies this`end, this`full, buf
      ensures View() == Put(old(View()), data)
    {
      ghost var before := buf[..];
      forall i | 0 <= i < |data| {
        buf[end + i] := data[i];
      }
      assert buf[..] == before[..end] + data + before[end + |data|..];
      WrittenUpdate(|data|);
    }

    /** process_in_event for the side whose ring receives the bytes. */
    method Receive(supply: Supply) returns (r: Result)
      requires Valid()
      modifies this, buf
      ensures Valid()
      ensures Whole() == ReceiveStep(old(Whole()), supply)
      ensures r == if supply.ReadFails? then Errno else Fine
    {
      ReceiveKeeps(Whole(), supply);
      var len := GetWriteLength();
      if len == 0 {
        return Enobufs;
      }
      var queued := GetReadLength();
      var isRegistered := queued != 0;
      if supply.ReadFails? {
        return Errno;
      }
      var data := supply.bytes[..Min(|supply.bytes|, len)];
      ins, clean := ins + data, clean && PutAllowed(View(), |data|);
      Fill(data);
      if isRegistered {
        return Fine;
      }
      armed := true;
      return Fine;
    }

    /** process_out_event */
    method Drain(demand: Demand) returns (r: Result)
      requires Valid()
      modifies this
      ensures Valid()
      ensures Whole() == DrainStep(old(Whole()), demand)
      ensures r == if demand.WriteFails? then Errno else Fine
    {
      DrainKeeps(Whole(), demand);
      var len := GetReadLength();
      if demand.WriteFails? {
        return Errno;
      }
      var n := Min(demand.n, len);
      ghost var before := View();
      ReadUpdate(n);
      outs, clean := outs + Front(before, n), clean && TakeAllowed(before, n);
      var left := GetReadLength();
      if left == 0 {
        armed := false;
      }
      return Fine;
    }
  }

  class Ptspair {
    const foo: Pts
    const bar: Pts

    ghost predicate Valid()
      reads this, foo, bar, foo.buf, bar.buf
    {
      foo != bar && foo.buf != bar.buf && foo.Valid() && bar.Valid()
    }

    ghost function Whole(error: Result): Pair
      reads this, foo, bar, foo.buf, bar.buf
    {
      Pair(foo.Whole(), bar.Whole(), error)
    }

    constructor ()
      ensures Valid() && foo.clean && bar.clean && foo.ins == [] && bar.ins == []
      ensures fresh(foo) && fresh(bar) && fresh(foo.buf) && fresh(bar.buf)
    {
      foo := new Pts();
      bar := new Pts();
    }

    /** process_in_event; before is the last error so far. */
    method ProcessIn(side: Side, supply: Supply, before: Result) returns (error: Result)
      requires Valid()
      modifies foo, bar, foo.buf, bar.buf
      ensures Valid() && Whole(error) == InStep(old(Whole(before)), side, supply)
    {
      var other := if side.Foo? then bar else foo;
      var r := other.Receive(supply);
      error := if r != Fine then r else before;
    }

    /** process_out_event */
    method ProcessOut(side: Side, demand: Demand, before: Result) returns (error: Result)
      requires Valid()
      modifies foo, bar, foo.buf, bar.buf
      ensures Valid() && Whole(error) == OutStep(old(Whole(before)), side, demand)
    {
      var pts := if side.Foo? then foo else bar;
      var r := pts.Drain(demand);
      error := if r != Fine then r else before;
    }

    /** The body of the loop in process_events, up to the error flags. */
    method ProcessEvent(e: PollEvent, before: Result) returns (error: Result)
      requires Valid()
      modifies foo, bar, foo.buf, bar.buf
      ensures Valid() && Whole(error) == EventStep(old(Whole(before)), e)
    {
      error := before;
      if e.readable {
        error := ProcessIn(e.side, e.supply, error);
      }
      if e.writable {
        error := ProcessOut(e.side, e.demand, error);
      }
    }

    /** process_events */
    method ProcessEvents(events: seq<PollEvent>) returns (error: Result)
      requires Valid()
      modifies foo, bar, foo.buf, bar.buf
      ensures Valid() && Whole(error) == RunEvents(old(Whole(Fine)), events)
    {
      error := Fine;
      var n := |events|;
      ghost var result := RunEvents(Whole(Fine), events);
      assert events[..n] == events;
      while n > 0
        invariant 0 <= n <= |events| && Valid()
        invariant RunEvents(Whole(error), events[..n]) == result
      {
        assert events[..n][..n - 1] == events[..n - 1];
        n := n - 1;
        error := ProcessEvent(events[n], error);
        if events[n].broken {
          return Eio;
        }
      }
    }
  }
}
