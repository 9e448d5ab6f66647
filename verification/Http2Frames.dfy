// HTTP/2 frames: their headers, the checks on a single frame, and what receiving one means.
// Everything here is about the wire alone; the receiver that works in a buffer is in Http2Receiver.dfy.

module Http2Frames {
  import opened Bytes

  const MAX_FRAME_SIZE: nat := 16384
  const BUFFER_SIZE: nat := 9 + MAX_FRAME_SIZE
  const MAX_CONTINUATIONS: nat := 4

  const DATA: byte := 0
  const FIELDS: byte := 1
  const PRIORITY: byte := 2
  const RESET_STREAM: byte := 3
  const SETTINGS: byte := 4
  const PUSH_PROMISE: byte := 5
  const PING: byte := 6
  const GOAWAY: byte := 7
  const WINDOW_UPDATE: byte := 8
  const CONTINUATION: byte := 9
  const NUM_FRAME_KINDS: byte := 10

  datatype Error = IoError | ProtocolError | FrameSizeError | SettingsTimeout | EnhanceYourCalm

  datatype Result<T> = Ok(value: T) | Err(error: Error)

  datatype Header = Header(
    length: uint16, kind: byte, streamID: nat,
    endFields: bool, endStream: bool, ack: bool, padded: bool, priority: bool)

  predicate Flag(flags: byte, mask: nat)
    requires mask > 0
  {
    (flags / mask) % 2 == 1
  }

  function DecodeHeader(h: seq<byte>): (r: Result<Header>)
    requires |h| == 9
    ensures r.Ok? ==> r.value.length <= MAX_FRAME_SIZE
  {
    var streamID := BigEndian([h[5] % 0x80] + h[6..9]);
    var length := BigEndian(h[..3]);
    var kind := h[3];
    var flags := h[4];
    if streamID != 0 && streamID % 2 == 0 then Err(ProtocolError)
    else if length > MAX_FRAME_SIZE then Err(FrameSizeError)
    else Ok(Header(
      length, kind, streamID,
      Flag(flags, 0x04) && (kind == FIELDS || kind == CONTINUATION),
      Flag(flags, 0x01) && (kind == DATA || kind == FIELDS),
      Flag(flags, 0x01) && (kind == SETTINGS || kind == PING),
      Flag(flags, 0x08) && (kind == DATA || kind == FIELDS),
      Flag(flags, 0x20) && kind == FIELDS))
  }

  /** What encodeHeader writes: the flags that mean something for the kind, and nothing else. */
  function Flags(h: Header): byte {
    (if h.endFields && h.kind == FIELDS then 0x04 else 0)
    + (if h.endStream && (h.kind == DATA || h.kind == FIELDS) then 0x01 else 0)
    + (if h.ack && (h.kind == SETTINGS || h.kind == PING) then 0x01 else 0)
    + (if h.padded && (h.kind == DATA || h.kind == FIELDS) then 0x08 else 0)
  }

  /** http2OutFrame.encodeHeader, for the frames it is meant for. */
  method EncodeHeader(h: Header, out: array<byte>)
    requires h.streamID <= 0x7fff_ffff && h.length <= MAX_FRAME_SIZE
    requires h.kind != PUSH_PROMISE && h.kind != CONTINUATION
    requires out.Length == 9
    modifies out
    ensures out[..] == PutUint32(h.length)[1..] + [h.kind, Flags(h)] + PutUint32(h.streamID)
  {
    out[0], out[1], out[2] := h.length / 0x1_0000, h.length / 0x100, h.length % 0x100;
    out[3] := h.kind;
    var flags := 0;
    if h.endFields && h.kind == FIELDS {
      flags := flags + 0x04;
    }
    if h.endStream && (h.kind == DATA || h.kind == FIELDS) {
      flags := flags + 0x01;
    }
    if h.ack && (h.kind == SETTINGS || h.kind == PING) {
      flags := flags + 0x01;
    }
    if h.padded && (h.kind == DATA || h.kind == FIELDS) {
      flags := flags + 0x08;
    }
    out[4] := flags;
    var id := PutUint32(h.streamID);
    out[5], out[6], out[7], out[8] := id[0], id[1], id[2], id[3];
  }

  /** An encoded header is decoded to what it says, if the stream is one a client may open or none; any
      other stream is refused. */
  lemma HeaderRoundTrip(h: Header)
    requires h.streamID <= 0x7fff_ffff && h.length <= MAX_FRAME_SIZE
    requires h.kind != PUSH_PROMISE && h.kind != CONTINUATION
    ensures
      var r := DecodeHeader(PutUint32(h.length)[1..] + [h.kind, Flags(h)] + PutUint32(h.streamID));
      if h.streamID != 0 && h.streamID % 2 == 0 then r == Err(ProtocolError)
      else r == Ok(h.(
        endFields := h.endFields && h.kind == FIELDS,
        endStream := h.endStream && (h.kind == DATA || h.kind == FIELDS),
        ack := h.ack && (h.kind == SETTINGS || h.kind == PING),
        padded := h.padded && (h.kind == DATA || h.kind == FIELDS),
        priority := false))
  {
    var out := PutUint32(h.length)[1..] + [h.kind, Flags(h)] + PutUint32(h.streamID);
    BigEndianPut(h.length);
    BigEndianPut(h.streamID);
    assert out[..3] == PutUint32(h.length)[1..];
    assert [out[5] % 0x80] + out[6..9] == PutUint32(h.streamID);
  }

  /** The reserved bit of the stream identifier plays no part (section 4.1 of RFC 9113). */
  lemma ReservedBitIgnored(h: seq<byte>)
    requires |h| == 9
    ensures DecodeHeader(h[5 := h[5] % 0x80]) == DecodeHeader(h)
  {
    var g := h[5 := h[5] % 0x80];
    assert [g[5] % 0x80] + g[6..9] == [h[5] % 0x80] + h[6..9];
    assert g[..3] == h[..3];
  }

  /** Where the effective part of a checked payload lies: payload[from..edge]. */
  datatype Span = Span(from: nat, edge: nat)

  /** Pad length (if padded), then `others` more prefix bytes, then content, then padding. */
  function StripPadding(h: Header, others: nat, payload: seq<byte>): Result<Span>
    requires |payload| == h.length
    requires h.length >= (if h.padded then 1 else 0) + others
  {
    var pad := if h.padded then payload[0] else 0;
    var from := (if h.padded then 1 else 0) + others;
    if pad > 0 && from + pad >= h.length then Err(ProtocolError)
    else Ok(Span(from, h.length - pad))
  }

  /** The check that recvInFrame applies to a frame; unknown kinds pass. */
  function Check(h: Header, payload: seq<byte>): Result<Span>
    requires |payload| == h.length
  {
    var whole := Span(0, h.length);
    if h.kind >= NUM_FRAME_KINDS then Ok(whole)
    else if h.kind == DATA then
      if h.length < (if h.padded then 1 else 0) then Err(FrameSizeError)
      else if h.streamID == 0 then Err(ProtocolError)
      else StripPadding(h, 0, payload)
    else if h.kind == FIELDS then
      var others := if h.priority then 5 else 0;
      if h.length < 1 + (if h.padded then 1 else 0) + others then Err(FrameSizeError)
      else if h.streamID == 0 then Err(ProtocolError)
      else StripPadding(h, others, payload)
    else if h.kind == PRIORITY then
      if h.length != 5 then Err(FrameSizeError)
      else if h.streamID == 0 then Err(ProtocolError) else Ok(whole)
    else if h.kind == RESET_STREAM then
      if h.length != 4 then Err(FrameSizeError)
      else if h.streamID == 0 then Err(ProtocolError) else Ok(whole)
    else if h.kind == SETTINGS then
      if h.length % 6 != 0 || h.length > 48 then Err(FrameSizeError)
      else if h.streamID != 0 then Err(ProtocolError)
      else if h.ack && h.length != 0 then Err(FrameSizeError) else Ok(whole)
    else if h.kind == PUSH_PROMISE then Err(ProtocolError)
    else if h.kind == PING then
      if h.length != 8 then Err(FrameSizeError)
      else if h.streamID != 0 then Err(ProtocolError) else Ok(whole)
    else if h.kind == GOAWAY then
      if h.length < 8 then Err(FrameSizeError)
      else if h.streamID != 0 then Err(ProtocolError) else Ok(whole)
    else if h.kind == WINDOW_UPDATE then
      if h.length != 4 then Err(FrameSizeError) else Ok(whole)
    else Err(ProtocolError)
  }

  // ----- Receiving, on the wire -----

  /** A frame as handed over: its header and its effective payload. */
  datatype Frame = Frame(header: Header, effective: seq<byte>)

  /** What one receive does: the frame, the bytes left on the wire and the buffer position reached. */
  datatype Outcome = Got(frame: Frame, rest: seq<byte>, fore: nat) | Failed(error: Error)

  /** A frame section (header or payload) in the buffer: buf[back..fore]. */
  datatype Section = Section(back: nat, fore: nat)

  /** Where a section of `size` bytes lands when the previous one ended at `fore`. */
  function Place(fore: nat, size: nat): Section {
    if fore + size > BUFFER_SIZE then Section(0, size) else Section(fore, fore + size)
  }

  /** Where a continuation section lands. The payload collected so far sits in [back, fore) and the
      previous continuation section ended at `cont`. One slide moves the payload to the front and the
      new section right behind it; a second slide is refused. */
  datatype Spot = Refused | Placed(back: nat, fore: nat, cont: nat)

  function PlaceContinuation(back: nat, fore: nat, cont: nat, size: nat): Spot
    requires back <= fore
  {
    if cont + size <= BUFFER_SIZE then Placed(back, fore, cont)
    else if back == 0 then Refused
    else Placed(0, fore - back, fore - back)
  }

  /** The receiver amid the CONTINUATION frames that follow a FIELDS frame. `head.length` counts the
      payloads collected so far, padding included; they lie in [back, fore). `effective` is the field
      block so far, `cont` is where the last continuation section ended, `wire` is what follows it. */
  datatype Progress = Progress(head: Header, effective: seq<byte>, back: nat, fore: nat, cont: nat, wire: seq<byte>)

  /** One more continuation: refused, or joined to what was collected. */
  datatype Round = Stopped(error: Error) | Joined(next: Progress, last: bool)

  function JoinContinuation(p: Progress): (r: Round)
    requires p.back <= p.fore
    ensures r.Joined? ==> r.next.back <= r.next.fore && |r.next.wire| <= |p.wire|
  {
    var spot := PlaceContinuation(p.back, p.fore, p.cont, 9);
    if spot.Refused? then Stopped(FrameSizeError)
    else if |p.wire| < 9 then Stopped(IoError)
    else match DecodeHeader(p.wire[..9]) {
      case Err(e) => Stopped(e)
      case Ok(ch) => JoinPayload(Progress(p.head, p.effective, spot.back, spot.fore, spot.cont + 9, p.wire[9..]), ch)
    }
  }

  /** The same, once the header `ch` of the continuation has been received. */
  function JoinPayload(p: Progress, ch: Header): (r: Round)
    requires p.back <= p.fore
    ensures r.Joined? ==> r.next.back <= r.next.fore && |r.next.wire| <= |p.wire|
  {
    if ch.length == 0 || p.head.length + ch.length > MAX_FRAME_SIZE then Stopped(FrameSizeError)
    else if ch.streamID != p.head.streamID || ch.kind != CONTINUATION then Stopped(ProtocolError) else
    var spot := PlaceContinuation(p.back, p.fore, p.cont, ch.length);
    if spot.Refused? then Stopped(FrameSizeError)
    else if |p.wire| < ch.length then Stopped(IoError)
    else Joined(AppendPayload(p, spot, ch.length), ch.endFields)
  }

  /** The progress made by appending a payload of `length` bytes placed at `spot`. */
  function AppendPayload(p: Progress, spot: Spot, length: uint16): Progress
    requires spot.Placed? && |p.wire| >= length && p.head.length + length <= MAX_FRAME_SIZE
  {
    Progress(p.head.(length := p.head.length + length), p.effective + p.wire[..length],
      spot.back, spot.fore + length, spot.cont + length, p.wire[length..])
  }

  /** At most four continuations in all; the one with END_HEADERS completes the frame. */
  function Coalesce(p: Progress, i: nat): (r: Outcome)
    requires p.back <= p.fore && i <= MAX_CONTINUATIONS
    ensures r.Got? ==> |r.rest| <= |p.wire|
    decreases MAX_CONTINUATIONS - i
  {
    if i == MAX_CONTINUATIONS then Failed(EnhanceYourCalm)
    else match JoinContinuation(p) {
      case Stopped(e) => Failed(e)
      case Joined(q, last) =>
        if last then Got(Frame(q.head.(endFields := true), q.effective), q.wire, q.cont) else Coalesce(q, i + 1)
    }
  }

  lemma NextRound(p: Progress, i: nat)
    requires p.back <= p.fore && i <= MAX_CONTINUATIONS
    ensures i == MAX_CONTINUATIONS ==> Coalesce(p, i) == Failed(EnhanceYourCalm)
    ensures i < MAX_CONTINUATIONS ==>
      match JoinContinuation(p)
      case Stopped(e) => Coalesce(p, i) == Failed(e)
      case Joined(q, last) =>
        Coalesce(p, i) ==
          if last then Got(Frame(q.head.(endFields := true), q.effective), q.wire, q.cont) else Coalesce(q, i + 1)
  {
  }

  /** A frame as it lies on the wire, and where its payload lands in the buffer. */
  datatype Arrival = Arrival(head: Header, payload: seq<byte>, section: Section, rest: seq<byte>) {
    ghost predicate Legal() {
      |payload| == head.length <= MAX_FRAME_SIZE && section.fore == section.back + head.length <= BUFFER_SIZE
    }
  }

  function Fetch(wire: seq<byte>, fore: nat): (r: Result<Arrival>)
    ensures r.Ok? ==> r.value.Legal() && |wire| == 9 + |r.value.payload| + |r.value.rest|
  {
    if |wire| < 9 then Err(IoError)
    else match DecodeHeader(wire[..9]) {
      case Err(e) => Err(e)
      case Ok(h) =>
        if |wire| < 9 + h.length then Err(IoError)
        else Ok(Arrival(h, wire[9..9 + h.length], Place(Place(fore, 9).fore, h.length), wire[9 + h.length..]))
    }
  }

  /** What becomes of a frame that has arrived: it is checked, counted and, if its field block is
      not complete, completed from the continuations that follow. */
  function Settle(a: Arrival, count: nat, acknowledged: bool): (r: Outcome)
    requires a.Legal()
    ensures r.Got? ==> |r.rest| <= |a.rest|
  {
    match Check(a.head, a.payload)
    case Err(e) => Failed(e)
    case Ok(span) =>
      if count + 1 == 10 && !acknowledged then Failed(SettingsTimeout) else
      var effective := a.payload[span.from..span.edge];
      if a.head.kind == FIELDS && !a.head.endFields then
        Coalesce(Progress(a.head, effective, a.section.back, a.section.fore, a.section.fore, a.rest), 0)
      else
        Got(Frame(a.head, effective), a.rest, a.section.fore)
  }

  /** What recvInFrame makes of the wire when its buffer position is `fore`, `count` frames came
      before, and `acknowledged` says whether the peer has acknowledged our settings. */
  function Receive(wire: seq<byte>, fore: nat, count: nat, acknowledged: bool): (r: Outcome)
    ensures r.Got? ==> |r.rest| < |wire|
  {
    match Fetch(wire, fore)
    case Err(e) => Failed(e)
    case Ok(a) => Settle(a, count, acknowledged)
  }

  /** The acknowledgement of our settings matters for the tenth frame only. */
  lemma AskedOnce(wire: seq<byte>, fore: nat, count: nat, a: bool, b: bool)
    requires count == 9 ==> a == b
    ensures Receive(wire, fore, count, a) == Receive(wire, fore, count, b)
  {
    hide Check, Coalesce, DecodeHeader;
  }

  /** The client connection preface (section 3.4 of RFC 9113): "PRI * HTTP/2.0", then "SM". */
  const PRISM: seq<byte> := [
    80, 82, 73, 32, 42, 32, 72, 84, 84, 80, 47, 50, 46, 48, 13, 10, 13, 10, 83, 77, 13, 10, 13, 10]

  /** Why receiving ended. */
  datatype End = Goaway | Broken(error: Error)

  /** All the frames of a connection, handed over in order, and the end. */
  datatype Session = Session(frames: seq<Frame>, end: End) {
    function Prepend(done: seq<Frame>): Session { Session(done + frames, end) }
  }

  /** `acknowledged` tells whether our settings have been acknowledged when the tenth frame comes. */
  function ReceiveAll(wire: seq<byte>, fore: nat, count: nat, acknowledged: bool): Session
    decreases |wire|
  {
    match Receive(wire, fore, count, acknowledged)
    case Failed(e) => Session([], Broken(e))
    case Got(frame, rest, next) =>
      if frame.header.kind == GOAWAY then Session([], Goaway) else
      var later := ReceiveAll(rest, next, count + 1, acknowledged);
      Session([frame] + later.frames, later.end)
  }

  lemma NothingYet(s: Session)
    ensures s.Prepend([]) == s
  {
    assert [] + s.frames == s.frames;
  }

  /** What the next receive means for the session. */
  lemma NextFrame(done: seq<Frame>, wire: seq<byte>, fore: nat, count: nat, acknowledged: bool)
    ensures
      var all := ReceiveAll(wire, fore, count, acknowledged).Prepend(done);
      match Receive(wire, fore, count, acknowledged)
      case Failed(e) => all == Session(done, Broken(e))
      case Got(frame, rest, next) =>
        && |rest| < |wire|
        && all == if frame.header.kind == GOAWAY then Session(done, Goaway)
                  else ReceiveAll(rest, next, count + 1, acknowledged).Prepend(done + [frame])
  {
    hide Receive;
    assert done + [] == done;
    match Receive(wire, fore, count, acknowledged)
    case Failed(e) =>
    case Got(frame, rest, next) =>
      var later := ReceiveAll(rest, next, count + 1, acknowledged).frames;
      assert done + ([frame] + later) == (done + [frame]) + later;
  }

  function ReceiveAsServer(wire: seq<byte>, acknowledged: bool): Session {
    if |wire| < 24 then Session([], Broken(IoError))
    else if wire[..24] != PRISM then Session([], Broken(ProtocolError))
    else ReceiveAll(wire[24..], 24, 0, acknowledged)
  }
}
