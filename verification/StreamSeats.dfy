// The streams of an HTTP/2 connection: a stack of free seats, the active streams in their seats, and the
// admission of new ones (web_general_http2.go:151-194, web_server_http2.go:157-247).

module StreamSeats {
  import opened Bytes

  const SEATS: nat := 127

  type uint8 = x: int | 0 <= x < 0x100

  datatype State = Open | RemoteClosed

  datatype Stream = Stream(id: uint32, seat: uint8, state: State) {
    function Known(): Entry { Entry(id, state) }
  }

  datatype Slot = Empty | Taken(stream: Stream)

  // ----- What a connection knows about its streams -----

  datatype Entry = Entry(id: uint32, state: State)

  /** The active streams and the id of the last one that was admitted. */
  datatype Table = Table(active: set<Entry>, last: uint32) {
    ghost predicate Has(id: uint32) {
      exists e :: e in active && e.id == id
    }

    /** Ids are distinct, not zero, and no greater than the last. */
    ghost predicate Valid() {
      && |active| <= SEATS
      && (forall e | e in active :: 0 < e.id <= last)
      && (forall e, f | e in active && f in active && e.id == f.id :: e == f)
    }
  }

  datatype Reply = Fine | ProtocolError | CompressionError

  /** A FIELDS frame arrives, and its field block is decoded or not; or a stream ends. */
  datatype Event = Fields(id: uint32, endStream: bool, decodes: bool) | Ended(id: uint32)

  ghost function Step(t: Table, e: Event): Table {
    match e
    case Fields(id, endStream, decodes) =>
      if id <= t.last || |t.active| == SEATS then t
      else Table(if decodes then t.active + {Entry(id, if endStream then RemoteClosed else Open)} else t.active, id)
    case Ended(id) => t.(active := set x | x in t.active && x.id != id)
  }

  /** A known stream may only get trailers, which end it, and only while it is open. */
  ghost function ReplyTo(t: Table, e: Event): Reply {
    match e
    case Ended(_) => Fine
    case Fields(id, endStream, decodes) =>
      if id > t.last then
        if |t.active| == SEATS then ProtocolError else if decodes then Fine else CompressionError
      else if Entry(id, Open) in t.active && endStream then
        if decodes then Fine else CompressionError
      else ProtocolError
  }

  ghost function Run(t: Table, events: seq<Event>): Table
    decreases |events|
  {
    if events == [] then t else Run(Step(t, events[0]), events[1..])
  }

  lemma EndedIsLess(t: Table, id: uint32)
    ensures Step(t, Ended(id)).active <= t.active && |Step(t, Ended(id)).active| <= |t.active|
  {
    Smaller(Step(t, Ended(id)).active, t.active);
  }

  lemma {:induction false} Smaller<T>(a: set<T>, b: set<T>)
    requires a <= b
    ensures |a| <= |b|
    decreases |a|
  {
    if a != {} {
      var x :| x in a;
      Smaller(a - {x}, b - {x});
    }
  }

  /** Every event keeps the table valid, and the last id never gets smaller. */
  lemma StepValid(t: Table, e: Event)
    requires t.Valid()
    ensures Step(t, e).Valid() && t.last <= Step(t, e).last
  {
    if e.Ended? {
      EndedIsLess(t, e.id);
    }
  }

  /** An id that was used, or passed over, never becomes active again (section 5.1.1 of RFC 9113). */
  lemma {:induction false} NeverReused(t: Table, events: seq<Event>, id: uint32)
    requires t.Valid() && id <= t.last && !t.Has(id)
    ensures Run(t, events).Valid() && !Run(t, events).Has(id)
    decreases |events|
  {
    if events != [] {
      var u := Step(t, events[0]);
      StepValid(t, events[0]);
      forall e | e in u.active
        ensures e.id != id
      {
        if e in t.active {
        } else {
          assert e.id == u.last > t.last;
        }
      }
      NeverReused(u, events[1..], id);
    }
  }

  /** A stream stays as it was admitted until it ends, whatever frames it gets. */
  lemma {:induction false} KnownUntilEnded(t: Table, events: seq<Event>, e: Entry)
    requires t.Valid() && e in t.active
    ensures Run(t, events).Valid() && e.id <= Run(t, events).last
    ensures Ended(e.id) !in events ==> e in Run(t, events).active
    ensures Ended(e.id) in events ==> !Run(t, events).Has(e.id)
    decreases |events|
  {
    if events != [] {
      var u := Step(t, events[0]);
      StepValid(t, events[0]);
      assert events == [events[0]] + events[1..];
      if events[0] == Ended(e.id) {
        NeverReused(u, events[1..], e.id);
        LastKept(u, events[1..]);
      } else {
        KnownUntilEnded(u, events[1..], e);
      }
    }
  }

  lemma {:induction false} LastKept(t: Table, events: seq<Event>)
    requires t.Valid()
    ensures t.last <= Run(t, events).last
    decreases |events|
  {
    if events != [] {
      StepValid(t, events[0]);
      LastKept(Step(t, events[0]), events[1..]);
    }
  }

  /** From its admission on, and however many of its frames came in between, a frame of the stream is taken
      for its trailers if and only if it carries END_STREAM, the one that opened the stream did not, and
      the stream has not ended. */
  lemma TrailersAccepted(t: Table, id: uint32, opening: bool, events: seq<Event>, endStream: bool)
    requires t.Valid() && t.last < id && |t.active| < SEATS
    ensures
      var now := Run(Step(t, Fields(id, opening, true)), events);
      ReplyTo(now, Fields(id, endStream, true)) == Fine <==> endStream && !opening && Ended(id) !in events
  {
    var open := Fields(id, opening, true);
    var u, e := Step(t, open), Entry(id, if opening then RemoteClosed else Open);
    StepValid(t, open);
    KnownUntilEnded(u, events, e);
    var now := Run(u, events);
    if Entry(id, Open) in now.active {
      assert now.Has(id);
    }
  }

  /** So a frame behind one that carried END_STREAM, which ends what the peer may send, can be accepted:
      exactly when that was not the one that opened the stream, and the stream is still there. */
  lemma EndedTwice(t: Table, id: uint32, opening: bool, before: seq<Event>, behind: seq<Event>)
    requires t.Valid() && t.last < id && |t.active| < SEATS && Ended(id) !in before
    ensures
      var first, trailers := Step(t, Fields(id, opening, true)), Fields(id, true, true);
      var now := Run(first, before + [trailers] + behind);
      && (ReplyTo(Run(first, before), trailers) == Fine <==> !opening)
      && (ReplyTo(now, trailers) == Fine <==> !opening && Ended(id) !in behind)
  {
    TrailersAccepted(t, id, opening, before, true);
    TrailersAccepted(t, id, opening, before + [Fields(id, true, true)] + behind, true);
  }

  /** Two trailer sections in a row: both are accepted. */
  lemma SecondTrailersAccepted(t: Table, id: uint32)
    requires t.Valid() && Entry(id, Open) in t.active
    ensures var trailers := Fields(id, true, true);
      ReplyTo(t, trailers) == Fine && ReplyTo(Step(t, trailers), trailers) == Fine
  {
  }

  // ----- What a frame is answered -----

  /** A frame that opens a stream is answered Fine exactly if the stream is there afterwards: there is a place
      for it among the 127, and its field block decodes. */
  lemma NewStreamAnswered(t: Table, id: uint32, endStream: bool, decodes: bool)
    requires t.Valid() && id > t.last
    ensures
      var e := Fields(id, endStream, decodes);
      && (ReplyTo(t, e) == Fine <==> Step(t, e).Has(id)) && (ReplyTo(t, e) == Fine <==> |t.active| < 127 && decodes)
      && (ReplyTo(t, e) == Fine ==>
           Step(t, e).active == t.active + {Entry(id, if endStream then RemoteClosed else Open)})
  {
    var e := Fields(id, endStream, decodes);
    if |t.active| < SEATS && decodes {
      assert Entry(id, if endStream then RemoteClosed else Open) in Step(t, e).active;
    } else {
      assert Step(t, e).active == t.active;
    }
  }

  /** The answer is a compression error exactly if the field block does not decode, and that is all that is wrong. */
  lemma CompressionErrorMeans(t: Table, id: uint32, endStream: bool, decodes: bool)
    ensures ReplyTo(t, Fields(id, endStream, decodes)) == CompressionError <==>
      !decodes && ReplyTo(t, Fields(id, endStream, true)) == Fine
  {
  }

  /** Whatever is not answered Fine leaves the streams as they are. */
  lemma RefusedChangesNothing(t: Table, e: Event)
    requires ReplyTo(t, e) != Fine
    ensures Step(t, e).active == t.active
  {
  }

  /** At some time during the run, the stream is active. */
  ghost predicate Sometime(t: Table, events: seq<Event>, id: uint32)
    decreases |events|
  {
    t.Has(id) || (events != [] && Sometime(Step(t, events[0]), events[1..], id))
  }

  /** Some frame of the stream is answered Fine. */
  ghost predicate SomeFine(t: Table, events: seq<Event>, id: uint32)
    decreases |events|
  {
    events != [] && (
      || (events[0].Fields? && events[0].id == id && ReplyTo(t, events[0]) == Fine)
      || SomeFine(Step(t, events[0]), events[1..], id))
  }

  /** The first frame of the stream is. */
  ghost predicate FirstFine(t: Table, events: seq<Event>, id: uint32)
    decreases |events|
  {
    events != [] &&
    if events[0].Fields? && events[0].id == id then ReplyTo(t, events[0]) == Fine
    else FirstFine(Step(t, events[0]), events[1..], id)
  }

  /** The connection lasts: no frame but the last one is refused. */
  ghost predicate Lasts(t: Table, events: seq<Event>)
    decreases |events|
  {
    |events| <= 1 || (ReplyTo(t, events[0]) == Fine && Lasts(Step(t, events[0]), events[1..]))
  }

  /** Over any run: a stream that is not there yet becomes active exactly if some frame of it is answered Fine;
      as long as the connection lasts, exactly if the first one is. */
  lemma {:induction false} ActiveWhenAnswered(t: Table, events: seq<Event>, id: uint32)
    requires t.Valid() && !t.Has(id)
    ensures Sometime(t, events, id) <==> SomeFine(t, events, id)
    ensures Lasts(t, events) ==> (SomeFine(t, events, id) <==> FirstFine(t, events, id))
    decreases |events|
  {
    if events != [] {
      var e, u := events[0], Step(t, events[0]);
      StepValid(t, e);
      OldStreamThere(t, e);
      if e.Fields? && e.id == id && ReplyTo(t, e) == Fine {
        NewStreamAnswered(t, id, e.endStream, e.decodes);
      } else {
        StaysAway(t, e, id);
        ActiveWhenAnswered(u, events[1..], id);
      }
    }
  }

  lemma OldStreamThere(t: Table, e: Event)
    ensures e.Fields? && e.id <= t.last && ReplyTo(t, e) == Fine ==> t.Has(e.id)
  {
  }

  lemma StaysAway(t: Table, e: Event, id: uint32)
    requires t.Valid() && !t.Has(id) && !(e.Fields? && e.id == id && ReplyTo(t, e) == Fine)
    ensures !Step(t, e).Has(id)
  {
    forall x | x in Step(t, e).active
      ensures x.id != id
    {
      if x in t.active {
        assert t.Has(x.id);
      }
    }
  }

  // ----- The seats -----

  /** The active streams, wherever they sit. */
  ghost function ActiveIn(slots: seq<Slot>): set<Entry> {
    set k | 0 <= k < |slots| && slots[k].Taken? :: slots[k].stream.Known()
  }

  /** The free seats are those on the stack from n on, each once. */
  ghost predicate FreeFrom(free: seq<uint8>, slots: seq<Slot>, n: nat) {
    && |free| == |slots| == SEATS && n <= SEATS
    && (forall k | n <= k < SEATS :: free[k] < SEATS && slots[free[k]].Empty?)
    && (forall j, k | n <= j < k < SEATS :: free[j] != free[k])
    && (forall s | 0 <= s < SEATS && slots[s].Empty? :: exists k :: n <= k < SEATS && free[k] == s)
  }

  /** Every other seat holds a stream of its own, which knows its seat, with its id beside it. */
  ghost predicate InSeats(slots: seq<Slot>, ids: seq<uint32>, last: uint32) {
    && |slots| == SEATS && |ids| == SEATS + 1
    && (forall s | 0 <= s < SEATS :: ids[s] == if slots[s].Taken? then slots[s].stream.id else 0)
    && (forall s | 0 <= s < SEATS && slots[s].Taken? :: slots[s].stream.seat == s && 0 < slots[s].stream.id <= last)
    && (forall s, t | 0 <= s < t < SEATS && slots[s].Taken? && slots[t].Taken? ::
         slots[s].stream.id != slots[t].stream.id)
  }

  /** A stream takes the seat on the top of the stack. */
  lemma SeatTaken(free: seq<uint8>, slots: seq<Slot>, ids: seq<uint32>, n: nat, st: Stream, last: uint32)
    requires FreeFrom(free, slots, n) && n < SEATS && st.seat == free[n]
    requires InSeats(slots, ids, last) && 0 < st.id <= last && forall e | e in ActiveIn(slots) :: e.id != st.id
    ensures
      var slots', ids' := slots[st.seat := Taken(st)], ids[st.seat := st.id];
      && FreeFrom(free, slots', n + 1) && InSeats(slots', ids', last)
      && ActiveIn(slots') == ActiveIn(slots) + {st.Known()} && |ActiveIn(slots')| == |ActiveIn(slots)| + 1
  {
    var slots' := slots[st.seat := Taken(st)];
    forall k | 0 <= k < SEATS && slots[k].Taken?
      ensures slots[k].stream.id != st.id
    {
      assert slots[k].stream.Known() in ActiveIn(slots);
    }
    forall e
      ensures e in ActiveIn(slots') <==> e in ActiveIn(slots) + {st.Known()}
    {
      if e in ActiveIn(slots) {
        var k :| 0 <= k < SEATS && slots[k].Taken? && e == slots[k].stream.Known();
        assert slots'[k] == slots[k];
      }
      assert slots'[st.seat].stream.Known() == st.Known();
    }
    assert ActiveIn(slots') == ActiveIn(slots) + {st.Known()};
    assert st.Known() !in ActiveIn(slots);
  }

  /** A stream gives back its seat. */
  lemma SeatLeft(free: seq<uint8>, slots: seq<Slot>, ids: seq<uint32>, n: nat, st: Stream, last: uint32)
    requires FreeFrom(free, slots, n) && 0 < n && InSeats(slots, ids, last)
    requires st.seat < SEATS && slots[st.seat] == Taken(st)
    ensures
      var slots', ids' := slots[st.seat := Empty], ids[st.seat := 0];
      && FreeFrom(free[n - 1 := st.seat], slots', n - 1) && InSeats(slots', ids', last)
      && ActiveIn(slots') == (set e | e in ActiveIn(slots) && e.id != st.id) &&
           |ActiveIn(slots')| == |ActiveIn(slots)| - 1
  {
    hide FreeFrom, ActiveIn;
    SeatFreed(free, slots, n, st);
    OneLess(slots, ids, st, last);
  }

  lemma SeatFreed(free: seq<uint8>, slots: seq<Slot>, n: nat, st: Stream)
    requires FreeFrom(free, slots, n) && 0 < n && st.seat < SEATS && slots[st.seat] == Taken(st)
    ensures FreeFrom(free[n - 1 := st.seat], slots[st.seat := Empty], n - 1)
  {
    var free', slots' := free[n - 1 := st.seat], slots[st.seat := Empty];
    forall s | 0 <= s < SEATS && slots'[s].Empty?
      ensures exists k :: n - 1 <= k < SEATS && free'[k] == s
    {
      if s == st.seat {
        assert free'[n - 1] == s;
      } else {
        var k :| n <= k < SEATS && free[k] == s;
        assert free'[k] == s;
      }
    }
  }

  lemma OneLess(slots: seq<Slot>, ids: seq<uint32>, st: Stream, last: uint32)
    requires InSeats(slots, ids, last) && st.seat < SEATS && slots[st.seat] == Taken(st)
    ensures
      var slots' := slots[st.seat := Empty];
      && ActiveIn(slots') == (set e | e in ActiveIn(slots) && e.id != st.id) &&
           |ActiveIn(slots')| == |ActiveIn(slots)| - 1
  {
    var slots' := slots[st.seat := Empty];
    forall e
      ensures e in ActiveIn(slots') <==> e in ActiveIn(slots) && e.id != st.id
    {
      if e in ActiveIn(slots) && e.id != st.id {
        var k :| 0 <= k < SEATS && slots[k].Taken? && e == slots[k].stream.Known();
        assert slots'[k] == slots[k];
      }
    }
    assert slots[st.seat].stream.Known() == st.Known();
    forall e | e in ActiveIn(slots) && e.id == st.id
      ensures e == st.Known()
    {
    }
    assert ActiveIn(slots) == ActiveIn(slots') + {st.Known()};
  }

  class Connection {
    const freeSeats: array<uint8>
    var freeSeatsTop: uint8
    const activeStreams: array<Slot>
    const activeStreamIDs: array<uint32>
    var concurrentStreams: nat
    var lastStreamID: uint32

    constructor ()
      ensures Valid() && Abs() == Table({}, 0)
      ensures fresh(freeSeats) && fresh(activeStreams) && fresh(activeStreamIDs)
    {
      freeSeats := new uint8[SEATS](i requires 0 <= i < SEATS => i);
      freeSeatsTop := 255;
      activeStreams := new Slot[SEATS](_ => Empty);
      activeStreamIDs := new uint32[SEATS + 1](_ => 0);
      concurrentStreams, lastStreamID := 0, 0;
      new;
      AllFree(freeSeats[..], activeStreams[..]);
      assert ActiveIn(activeStreams[..]) == {};
    }

    ghost function Abs(): Table
      reads this, activeStreams
    {
      Table(ActiveIn(activeStreams[..]), lastStreamID)
    }

    /** n streams are seated. */
    ghost predicate Seated(n: nat)
      reads this, freeSeats, activeStreams, activeStreamIDs
    {
      && freeSeats.Length == SEATS && activeStreams.Length == SEATS && activeStreamIDs.Length == SEATS + 1 && n <= SEATS
      && FreeFrom(freeSeats[..], activeStreams[..], n) && (freeSeatsTop + 1) % 0x100 == n
      && InSeats(activeStreams[..], activeStreamIDs[..], lastStreamID)
      && |ActiveIn(activeStreams[..])| == n
    }

    ghost predicate Valid()
      reads this, freeSeats, activeStreams, activeStreamIDs
    {
      Seated(concurrentStreams)
    }

    /** _getFreeSeat */
    method GetFreeSeat(ghost n: nat) returns (seat: uint8)
      requires Seated(n) && n < SEATS
      modifies this`freeSeatsTop
      ensures freeSeatsTop == n && seat == freeSeats[..][n]
    {
      freeSeatsTop := (freeSeatsTop + 1) % 0x100;
      seat := freeSeats[freeSeatsTop];
    }

    /** _putFreeSeat: the top of the stack wraps below 0. */
    method PutFreeSeat(seat: uint8)
      requires freeSeats.Length == SEATS && freeSeatsTop < SEATS
      modifies this`freeSeatsTop, freeSeats
      ensures freeSeats[..] == old(freeSeats[..])[old(freeSeatsTop) := seat]
      ensures (freeSeatsTop + 1) % 0x100 == old(freeSeatsTop)
    {
      freeSeats[freeSeatsTop] := seat;
      freeSeatsTop := (freeSeatsTop - 1) % 0x100;
    }

    /** appendStream */
    method AppendStream(id: uint32, state: State, ghost n: nat)
      requires Seated(n) && n < SEATS && 0 < id <= lastStreamID
      requires forall e | e in Abs().active :: e.id != id
      modifies this`freeSeatsTop, activeStreams, activeStreamIDs
      ensures Seated(n + 1) && Abs().active == old(Abs().active) + {Entry(id, state)}
    {
      hide FreeFrom, InSeats, ActiveIn;
      var seat := GetFreeSeat(n);
      SeatFree(freeSeats[..], activeStreams[..], n);
      SeatTaken(freeSeats[..], activeStreams[..], activeStreamIDs[..], n, Stream(id, seat, state), lastStreamID);
      activeStreams[seat] := Taken(Stream(id, seat, state));
      activeStreamIDs[seat] := id;
    }

    /** searchStream: the id behind the last seat stops the search. */
    method SearchStream(id: uint32) returns (found: Slot)
      requires Valid()
      modifies activeStreamIDs
      ensures Valid() && Abs() == old(Abs())
      ensures found.Taken? <==> Abs().Has(id)
      ensures found.Taken? ==>
        found.stream.id == id && found.stream.seat < SEATS && activeStreams[found.stream.seat] == found
    {
      activeStreamIDs[SEATS] := id;
      var seat: nat := 0;
      while activeStreamIDs[seat] != id
        invariant seat <= SEATS && forall s | 0 <= s < seat :: activeStreamIDs[s] != id
        decreases SEATS - seat
      {
        seat := seat + 1;
      }
      ghost var slots := activeStreams[..];
      if seat != SEATS {
        found := activeStreams[seat];
        assert found == slots[seat];
        if found.Taken? {
          assert found.stream.Known() in ActiveIn(slots);
        } else {
          assert id == 0;
        }
      } else {
        found := Empty;
      }
      if Abs().Has(id) {
        var e :| e in Abs().active && e.id == id;
        var k :| 0 <= k < SEATS && slots[k].Taken? && e == slots[k].stream.Known();
        assert activeStreamIDs[k] == id;
      }
    }

    /** retireStream, and the count that goes with it. */
    method EndStream(st: Stream)
      requires Valid() && st.seat < SEATS && activeStreams.Length == SEATS && activeStreams[st.seat] == Taken(st)
      modifies this`freeSeatsTop, this`concurrentStreams, freeSeats, activeStreams, activeStreamIDs
      ensures Valid() && Abs() == Step(old(Abs()), Ended(st.id))
    {
      hide InSeats, ActiveIn;
      Occupied(activeStreams[..], st);
      hide FreeFrom;
      SeatLeft(freeSeats[..], activeStreams[..], activeStreamIDs[..], concurrentStreams, st, lastStreamID);
      activeStreams[st.seat] := Empty;
      activeStreamIDs[st.seat] := 0;
      PutFreeSeat(st.seat);
      concurrentStreams := concurrentStreams - 1;
    }

    /** processFieldsInFrame: admits a new stream, or takes the trailers of a known one. The field block
        decodes or not. */
    method ProcessFields(id: uint32, endStream: bool, decodes: bool) returns (reply: Reply)
      requires Valid()
      modifies this`freeSeatsTop, this`concurrentStreams, this`lastStreamID, activeStreams, activeStreamIDs
      ensures Valid() && Abs() == Step(old(Abs()), Fields(id, endStream, decodes))
      ensures reply == ReplyTo(old(Abs()), Fields(id, endStream, decodes))
    {
      hide FreeFrom, InSeats, ActiveIn;
      if id > lastStreamID {
        if concurrentStreams == SEATS {
          return ProtocolError;
        }
        NewId(activeStreams[..], activeStreamIDs[..], lastStreamID, id);
        lastStreamID := id;
        if !decodes {
          return CompressionError;
        }
        AppendStream(id, if endStream then RemoteClosed else Open, concurrentStreams);
        concurrentStreams := concurrentStreams + 1;
      } else {
        var found := SearchStream(id);
        OneEntry(activeStreams[..], activeStreamIDs[..], lastStreamID, id, found);
        if found.Empty? || found.stream.state != Open || !endStream {
          return ProtocolError;
        }
        if !decodes {
          return CompressionError;
        }
      }
      reply := Fine;
    }
  }

  lemma AllFree(free: seq<uint8>, slots: seq<Slot>)
    requires |free| == |slots| == SEATS
    requires forall s | 0 <= s < SEATS :: free[s] == s && slots[s].Empty?
    ensures FreeFrom(free, slots, 0)
  {
    forall s | 0 <= s < SEATS && slots[s].Empty?
      ensures exists k :: 0 <= k < SEATS && free[k] == s
    {
      assert free[s] == s;
    }
  }

  lemma SeatFree(free: seq<uint8>, slots: seq<Slot>, n: nat)
    requires FreeFrom(free, slots, n) && n < SEATS
    ensures free[n] < SEATS && slots[free[n]].Empty?
  {
  }

  lemma Occupied(slots: seq<Slot>, st: Stream)
    requires st.seat < |slots| && slots[st.seat] == Taken(st)
    ensures |ActiveIn(slots)| > 0
  {
    assert st.Known() in ActiveIn(slots);
  }

  /** An id beyond the last one is new, and the table stays in order. */
  lemma NewId(slots: seq<Slot>, ids: seq<uint32>, last: uint32, id: uint32)
    requires InSeats(slots, ids, last) && id > last
    ensures InSeats(slots, ids, id) && forall e | e in ActiveIn(slots) :: e.id != id
  {
  }

  /** A seat found for an id tells what is known about it. */
  lemma OneEntry(slots: seq<Slot>, ids: seq<uint32>, last: uint32, id: uint32, found: Slot)
    requires InSeats(slots, ids, last)
    requires found.Taken? <==> exists e :: e in ActiveIn(slots) && e.id == id
    requires found.Taken? ==> found.stream.id == id && found.stream.seat < SEATS && slots[found.stream.seat] == found
    ensures Entry(id, Open) in ActiveIn(slots) <==> found.Taken? && found.stream.state == Open
  {
    if found.Taken? {
      assert found.stream.Known() in ActiveIn(slots);
    }
  }

  /** In every reachable state the table that the seats stand for is valid. */
  lemma TableValid(c: Connection)
    requires c.Valid()
    ensures c.Abs().Valid() && |c.Abs().active| == c.concurrentStreams
  {
  }
}
