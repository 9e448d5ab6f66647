// What receiving an HTTP/2 field block means, in the terms of section 6.2 and section 6.10 of RFC 9113,
// and exactly when the receiver's single slide is enough.

module Http2Theorems {
  import opened Bytes
  import opened Http2Frames

  /** A frame as the sender laid it on the wire. */
  datatype RawFrame = RawFrame(header: seq<byte>, payload: seq<byte>)

  function Wire(raws: seq<RawFrame>): seq<byte> {
    if raws == [] then [] else raws[0].header + raws[0].payload + Wire(raws[1..])
  }

  function Payloads(raws: seq<RawFrame>): seq<byte> {
    if raws == [] then [] else raws[0].payload + Payloads(raws[1..])
  }

  ghost predicate Continues(raw: RawFrame, streamID: nat, last: bool) {
    && |raw.header| == 9
    && DecodeHeader(raw.header).Ok?
    && var h := DecodeHeader(raw.header).value;
    && h.kind == CONTINUATION && h.streamID == streamID
    && 0 < h.length == |raw.payload| && h.endFields == last
  }

  /** One or more continuations of a stream, with END_HEADERS on the last one and only there. */
  ghost predicate Block(raws: seq<RawFrame>, streamID: nat) {
    && raws != []
    && forall k | 0 <= k < |raws| :: Continues(raws[k], streamID, k == |raws| - 1)
  }

  /** Would these continuations need a second slide? The payload collected so far lies in
      [back, fore), the last continuation section ended at `cont`. */
  predicate SlidesTwice(back: nat, fore: nat, cont: nat, raws: seq<RawFrame>)
    requires back <= fore
    decreases |raws|
  {
    raws != [] &&
    var header := PlaceContinuation(back, fore, cont, 9);
    header.Refused? ||
    var payload := PlaceContinuation(header.back, header.fore, header.cont + 9, |raws[0].payload|);
    payload.Refused? ||
    SlidesTwice(payload.back, payload.fore + |raws[0].payload|, payload.cont + |raws[0].payload|, raws[1..])
  }

  /** Where the last section of these continuations ends in the buffer, if they need no second slide. */
  function ContinuationsEnd(back: nat, fore: nat, cont: nat, raws: seq<RawFrame>): nat
    requires back <= fore
    decreases |raws|
  {
    if raws == [] then cont else
    var header := PlaceContinuation(back, fore, cont, 9);
    if header.Refused? then 0 else
    var n := |raws[0].payload|;
    var payload := PlaceContinuation(header.back, header.fore, header.cont + 9, n);
    if payload.Refused? then 0 else ContinuationsEnd(payload.back, payload.fore + n, payload.cont + n, raws[1..])
  }

  /** What a finished field block looks like. */
  ghost predicate Finishes(out: Outcome, p: Progress, raws: seq<RawFrame>, rest: seq<byte>) {
    && out.Got?
    && out.rest == rest
    && out.frame.effective == p.effective + Payloads(raws)
    && p.head.length + |Payloads(raws)| <= MAX_FRAME_SIZE
    && out.frame.header == p.head.(length := p.head.length + |Payloads(raws)|, endFields := true)
  }

  /** One continuation taken: what the wire held. */
  lemma RoundSound(p: Progress) returns (raw: RawFrame)
    requires p.back <= p.fore && JoinContinuation(p).Joined?
    ensures var q := JoinContinuation(p).next;
      && Continues(raw, p.head.streamID, JoinContinuation(p).last)
      && p.wire == raw.header + raw.payload + q.wire
      && q.effective == p.effective + raw.payload
      && q.head.length <= MAX_FRAME_SIZE
      && q.head == p.head.(length := p.head.length + |raw.payload|)
  {
    hide DecodeHeader;
    var ch := DecodeHeader(p.wire[..9]).value;
    raw := RawFrame(p.wire[..9], p.wire[9..][..ch.length]);
    assert p.wire == raw.header + raw.payload + p.wire[9..][ch.length..];
  }

  /** A legal continuation on the wire is taken if it can be placed. */
  lemma RoundComplete(p: Progress, raw: RawFrame, last: bool, rest: seq<byte>)
    requires p.back <= p.fore && Continues(raw, p.head.streamID, last)
    requires p.head.length + |raw.payload| <= MAX_FRAME_SIZE && p.wire == raw.header + raw.payload + rest
    ensures
      var header := PlaceContinuation(p.back, p.fore, p.cont, 9);
      if header.Refused? then JoinContinuation(p) == Stopped(FrameSizeError) else
      var payload := PlaceContinuation(header.back, header.fore, header.cont + 9, |raw.payload|);
      if payload.Refused? then JoinContinuation(p) == Stopped(FrameSizeError) else
      var n := |raw.payload|;
      JoinContinuation(p) == Joined(Progress(p.head.(length := p.head.length + n), p.effective + raw.payload,
        payload.back, payload.fore + n, payload.cont + n, rest), last)
  {
    hide DecodeHeader;
    assert p.wire[..9] == raw.header;
    assert p.wire[9..] == raw.payload + rest;
    assert p.wire[9..][..|raw.payload|] == raw.payload;
    assert p.wire[9..][|raw.payload|..] == rest;
  }

  /** Soundness: a field block is only handed over when the wire holds continuations that are legal
      for it, and then it is what was there plus their payloads, in order, and nothing else is consumed. */
  lemma {:induction false} CoalesceSound(p: Progress, i: nat) returns (raws: seq<RawFrame>)
    requires p.back <= p.fore && i <= MAX_CONTINUATIONS && Coalesce(p, i).Got?
    requires p.head.length <= MAX_FRAME_SIZE
    ensures var out := Coalesce(p, i);
      && Block(raws, p.head.streamID) && |raws| <= MAX_CONTINUATIONS - i
      && p.wire == Wire(raws) + out.rest
      && Finishes(out, p, raws, out.rest)
    decreases MAX_CONTINUATIONS - i
  {
    hide JoinContinuation, DecodeHeader, Continues, Block, Wire, Payloads;
    var out := Coalesce(p, i);
    var q := JoinContinuation(p).next;
    var raw := RoundSound(p);
    if JoinContinuation(p).last {
      raws := [raw];
      BlockOfOne(raw, p.head.streamID);
    } else {
      var later := CoalesceSound(q, i + 1);
      raws := [raw] + later;
      BlockJoined(raw, later, p.head.streamID);
      Regroup(raw.header + raw.payload, Wire(later), out.rest);
      Regroup(p.effective, raw.payload, Payloads(later));
    }
  }

  lemma BlockOfOne(raw: RawFrame, streamID: nat)
    requires Continues(raw, streamID, true)
    ensures Block([raw], streamID) && Wire([raw]) == raw.header + raw.payload && Payloads([raw]) == raw.payload
  {
    hide Continues;
    assert [raw][1..] == [];
  }

  lemma BlockJoined(raw: RawFrame, later: seq<RawFrame>, streamID: nat)
    requires Continues(raw, streamID, false) && Block(later, streamID)
    ensures Block([raw] + later, streamID)
    ensures Wire([raw] + later) == raw.header + raw.payload + Wire(later) &&
      Payloads([raw] + later) == raw.payload + Payloads(later)
  {
    hide Continues;
    assert ([raw] + later)[1..] == later;
  }

  /** Completeness, with its exact condition: continuations that are legal, at most four, and within
      the frame size limit are coalesced if and only if they need no second slide. */
  lemma {:induction false} CoalesceComplete(p: Progress, i: nat, raws: seq<RawFrame>, rest: seq<byte>)
    requires p.back <= p.fore && Block(raws, p.head.streamID) && |raws| <= MAX_CONTINUATIONS - i
    requires p.head.length + |Payloads(raws)| <= MAX_FRAME_SIZE
    requires p.wire == Wire(raws) + rest
    ensures Finishes(Coalesce(p, i), p, raws, rest) <==> !SlidesTwice(p.back, p.fore, p.cont, raws)
    ensures SlidesTwice(p.back, p.fore, p.cont, raws) ==> Coalesce(p, i) == Failed(FrameSizeError)
    ensures Coalesce(p, i).Got? ==> Coalesce(p, i).fore == ContinuationsEnd(p.back, p.fore, p.cont, raws)
    decreases |raws|
  {
    hide JoinContinuation, DecodeHeader, Coalesce, Continues, Block, Wire, Payloads;
    NextRound(p, i);
    BlockSplit(raws, p.head.streamID, rest);
    var raw, later := raws[0], raws[1..];
    RoundComplete(p, raw, |raws| == 1, Wire(later) + rest);
    if JoinContinuation(p).Joined? && later != [] {
      CoalesceComplete(JoinContinuation(p).next, i + 1, later, rest);
      assert (p.effective + raw.payload) + Payloads(later) == p.effective + (raw.payload + Payloads(later));
    }
  }

  /** The first continuation of a block, and the others. */
  lemma BlockSplit(raws: seq<RawFrame>, streamID: nat, rest: seq<byte>)
    requires Block(raws, streamID)
    ensures raws != []
    ensures
      var later := raws[1..];
      && Continues(raws[0], streamID, |raws| == 1) && (later != [] ==> Block(later, streamID))
      && Payloads(raws) == raws[0].payload + Payloads(later)
      && Wire(raws) + rest == raws[0].header + raws[0].payload + (Wire(later) + rest)
      && (later == [] ==> Wire(later) + rest == rest && Payloads(raws) == raws[0].payload)
  {
    hide Continues;
    var raw, later := raws[0], raws[1..];
    assert forall k | 0 <= k < |later| :: later[k] == raws[k + 1];
    Regroup(raw.header + raw.payload, Wire(later), rest);
    assert later == [] ==> raw.payload + [] == raw.payload && [] + rest == rest;
  }

  lemma Regroup(a: seq<byte>, b: seq<byte>, c: seq<byte>)
    ensures (a + b) + c == a + (b + c)
  {
  }

  /** The bytes of these frames, headers included. */
  function RawSize(raws: seq<RawFrame>): nat {
    if raws == [] then 0 else 9 + |raws[0].payload| + RawSize(raws[1..])
  }

  /** A field block that fits behind what has been received already needs no slide at all. */
  lemma {:induction false} FitsWithoutSliding(back: nat, fore: nat, cont: nat, raws: seq<RawFrame>)
    requires back <= fore && cont + RawSize(raws) <= BUFFER_SIZE
    ensures !SlidesTwice(back, fore, cont, raws)
    decreases |raws|
  {
    if raws != [] {
      var n := |raws[0].payload|;
      FitsWithoutSliding(back, fore + n, cont + 9 + n, raws[1..]);
    }
  }

  /** When the payload is at the front of the buffer already, the block is refused exactly when its
      frames, with the holes their headers leave, run past the end of the buffer. */
  lemma {:induction false} NoRoomLeft(fore: nat, cont: nat, raws: seq<RawFrame>)
    requires cont <= BUFFER_SIZE
    ensures SlidesTwice(0, fore, cont, raws) <==> cont + RawSize(raws) > BUFFER_SIZE
    decreases |raws|
  {
    if raws != [] {
      var n := |raws[0].payload|;
      if cont + 9 + n <= BUFFER_SIZE {
        NoRoomLeft(fore + n, cont + 9 + n, raws[1..]);
      }
    }
  }

  lemma RawSizeStep(raws: seq<RawFrame>, k: nat)
    requires k + 1 < |raws|
    ensures RawSize(raws[..k + 1]) == 9 + |raws[0].payload| + RawSize(raws[1..][..k])
    ensures RawSize(raws[..k + 2]) == 9 + |raws[0].payload| + RawSize(raws[1..][..k + 1])
    ensures |Payloads(raws[..k + 1])| == |raws[0].payload| + |Payloads(raws[1..][..k])|
    ensures raws[k + 2..] == raws[1..][k + 1..] && raws[k + 1] == raws[1..][k]
  {
    assert raws[..k + 1][1..] == raws[1..][..k] && raws[..k + 2][1..] == raws[1..][..k + 1];
  }

  lemma RawSizeNone(raws: seq<RawFrame>)
    requires raws != []
    ensures RawSize(raws) == 9 + |raws[0].payload| + RawSize(raws[1..]) &&
      |Payloads(raws)| == |raws[0].payload| + |Payloads(raws[1..])|
    ensures RawSize(raws[..0]) == 0 && RawSize(raws[..1]) == 9 + |raws[0].payload| && Payloads(raws[..0]) == []
  {
    assert raws[..0] == [] && raws[..1] == [raws[0]] && raws[..1][1..] == [];
  }

  /** A block that does not fit behind what was received: when the header or the payload of continuation k
      is the first section that runs past the end, the payload collected by then moves to the front, and
      the block is refused exactly if that and all that is still to come, headers counted, exceed the buffer. */
  lemma {:induction false} RoomNeeded(back: nat, fore: nat, cont: nat, raws: seq<RawFrame>) returns (k: nat)
    requires 0 < back <= fore <= cont <= BUFFER_SIZE < cont + RawSize(raws)
    requires fore - back + |Payloads(raws)| <= MAX_FRAME_SIZE
    ensures k < |raws| && cont + RawSize(raws[..k]) <= BUFFER_SIZE < cont + RawSize(raws[..k + 1])
    ensures
      var collected := fore - back + |Payloads(raws[..k])|;
      var header := if cont + RawSize(raws[..k]) + 9 > BUFFER_SIZE then 9 else 0;
      SlidesTwice(back, fore, cont, raws) <==>
        collected + header + |raws[k].payload| + RawSize(raws[k + 1..]) > BUFFER_SIZE
    decreases |raws|
  {
    var n, later := |raws[0].payload|, raws[1..];
    hide RawSize, Payloads, SlidesTwice;
    RawSizeNone(raws);
    if cont + 9 + n <= BUFFER_SIZE {
      FirstFits(back, fore, cont, raws);
      k := RoomNeeded(back, fore + n, cont + 9 + n, later);
      RawSizeStep(raws, k);
      k := k + 1;
    } else {
      k := 0;
      RoomNeededNow(back, fore, cont, raws);
    }
  }

  lemma FirstFits(back: nat, fore: nat, cont: nat, raws: seq<RawFrame>)
    requires back <= fore && raws != [] && cont + 9 + |raws[0].payload| <= BUFFER_SIZE
    ensures
      var n := |raws[0].payload|;
      SlidesTwice(back, fore, cont, raws) <==> SlidesTwice(back, fore + n, cont + 9 + n, raws[1..])
  {
  }

  lemma RoomNeededNow(back: nat, fore: nat, cont: nat, raws: seq<RawFrame>)
    requires 0 < back <= fore <= cont <= BUFFER_SIZE && raws != [] && cont + 9 + |raws[0].payload| > BUFFER_SIZE
    requires fore - back + |Payloads(raws)| <= MAX_FRAME_SIZE
    ensures
      var header := if cont + 9 > BUFFER_SIZE then 9 else 0;
      SlidesTwice(back, fore, cont, raws) <==>
        fore - back + header + |raws[0].payload| + RawSize(raws[1..]) > BUFFER_SIZE
  {
    var n, later, size := |raws[0].payload|, raws[1..], fore - back;
    if cont + 9 > BUFFER_SIZE {
      NoRoomLeft(size + n, size + 9 + n, later);
    } else {
      NoRoomLeft(size + n, size + n, later);
    }
  }

  /** A FIELDS frame without END_HEADERS, as laid on the wire, that passes its own check. */
  ghost predicate OpensBlock(raw: RawFrame) {
    && |raw.header| == 9
    && DecodeHeader(raw.header).Ok?
    && var h := DecodeHeader(raw.header).value;
    && h.kind == FIELDS && !h.endFields && h.length == |raw.payload|
    && Check(h, raw.payload).Ok?
  }

  /** The fragment of a FIELDS frame: its payload without padding and priority fields. */
  function Fragment(raw: RawFrame): seq<byte>
    requires OpensBlock(raw)
  {
    var span := Check(DecodeHeader(raw.header).value, raw.payload).value;
    raw.payload[span.from..span.edge]
  }

  /** Section 6.10 of RFC 9113 for the whole receive: a FIELDS frame with its continuations arrives as
      one frame whose effective payload is the unpadded fragment followed by every continuation
      payload in order, the bytes after the last continuation are left alone, and this happens
      exactly when one slide is enough. Neither the split into reads nor the padding matters. */
  lemma FieldBlockReceived(first: RawFrame, raws: seq<RawFrame>, rest: seq<byte>, fore: nat, count: nat,
    acknowledged: bool)
    requires OpensBlock(first) && Block(raws, DecodeHeader(first.header).value.streamID)
    requires |raws| <= MAX_CONTINUATIONS && |first.payload| + |Payloads(raws)| <= MAX_FRAME_SIZE
    requires count + 1 == 10 ==> acknowledged
    ensures
      var section := Place(Place(fore, 9).fore, |first.payload|);
      var wire := first.header + first.payload + Wire(raws) + rest;
      var out := Receive(wire, fore, count, acknowledged);
      if SlidesTwice(section.back, section.fore, section.fore, raws) then out == Failed(FrameSizeError)
      else out.Got? && out.rest == rest && out.frame.effective == Fragment(first) + Payloads(raws)
  {
    var wire := first.header + first.payload + Wire(raws) + rest;
    var h := DecodeHeader(first.header).value;
    assert wire[..9] == first.header;
    assert wire[9..9 + h.length] == first.payload;
    assert wire[9 + h.length..] == Wire(raws) + rest;
    hide Check, JoinContinuation;
    var a := Fetch(wire, fore).value;
    assert a.payload == first.payload && a.rest == Wire(raws) + rest;
    var p := Progress(h, Fragment(first), a.section.back, a.section.fore, a.section.fore, a.rest);
    assert Receive(wire, fore, count, acknowledged) == Coalesce(p, 0);
    CoalesceComplete(p, 0, raws, rest);
  }

  /** Conversely, every multi-frame field block that is handed over was laid on the wire like that. */
  lemma FieldBlockSound(wire: seq<byte>, fore: nat, count: nat, acknowledged: bool)
    returns (first: RawFrame, raws: seq<RawFrame>)
    requires var out := Receive(wire, fore, count, acknowledged);
      out.Got? && out.frame.header.kind == FIELDS && !DecodeHeader(wire[..9]).value.endFields
    ensures var out := Receive(wire, fore, count, acknowledged);
      && OpensBlock(first) && Block(raws, DecodeHeader(first.header).value.streamID) && |raws| <= MAX_CONTINUATIONS
      && wire == first.header + first.payload + Wire(raws) + out.rest
      && out.frame.effective == Fragment(first) + Payloads(raws)
  {
    hide Check, JoinContinuation;
    var a := Fetch(wire, fore).value;
    first := RawFrame(wire[..9], a.payload);
    var p := Progress(a.head, Fragment(first), a.section.back, a.section.fore, a.section.fore, a.rest);
    raws := CoalesceSound(p, 0);
    assert wire == wire[..9] + a.payload + a.rest;
    assert wire == first.header + first.payload + (Wire(raws) + Receive(wire, fore, count, acknowledged).rest);
  }

  // ----- Padding, and a legal block that is refused -----

  /** A FIELDS payload built from a fragment, with its priority fields and padding. */
  function Padded(h: Header, pad: byte, priority: seq<byte>, fragment: seq<byte>): seq<byte>
    requires |priority| == if h.priority then 5 else 0
  {
    (if h.padded then [pad] else []) + priority + fragment + seq(if h.padded then pad else 0, _ => 0)
  }

  /** Unpadding undoes padding: any non-empty fragment is found again, whatever was put around it. */
  lemma FragmentFound(h: Header, pad: byte, priority: seq<byte>, fragment: seq<byte>)
    requires h.kind == FIELDS && h.streamID != 0 && fragment != []
    requires |priority| == if h.priority then 5 else 0
    requires h.length == |Padded(h, pad, priority, fragment)|
    ensures
      var payload := Padded(h, pad, priority, fragment);
      Check(h, payload).Ok? &&
      var span := Check(h, payload).value;
      span.from <= span.edge <= |payload| && payload[span.from..span.edge] == fragment
  {
    var payload := Padded(h, pad, priority, fragment);
    var head := (if h.padded then [pad] else []) + priority;
    assert payload == head + fragment + payload[|head| + |fragment|..];
  }

  /** A CONTINUATION frame of stream 1 with n zero bytes in it. */
  function Zeros(n: nat, last: bool): RawFrame
    requires 0 < n <= MAX_FRAME_SIZE
  {
    RawFrame(PutUint32(n)[1..] + [CONTINUATION, if last then 0x04 else 0] + PutUint32(1), seq(n, _ => 0))
  }

  lemma ZerosContinue(n: nat, last: bool)
    requires 0 < n <= MAX_FRAME_SIZE
    ensures Continues(Zeros(n, last), 1, last)
  {
    var h := Zeros(n, last).header;
    BigEndianPut(n);
    BigEndianPut(1);
    assert h[..3] == PutUint32(n)[1..];
    assert [h[5] % 0x80] + h[6..9] == PutUint32(1);
  }

  /** A frame whose header carries these fields, and n zero bytes. */
  function Plain(n: nat, kind: byte, streamID: nat): RawFrame
    requires n <= MAX_FRAME_SIZE && streamID <= 0x7fff_ffff
  {
    RawFrame(PutUint32(n)[1..] + [kind, 0] + PutUint32(streamID), seq(n, _ => 0))
  }

  lemma PlainDecoded(n: nat, kind: byte, streamID: nat)
    requires n <= MAX_FRAME_SIZE && (streamID == 0 || streamID == 1) && kind != PUSH_PROMISE && kind != CONTINUATION
    ensures |Plain(n, kind, streamID).header| == 9 && |Plain(n, kind, streamID).payload| == n
    ensures DecodeHeader(Plain(n, kind, streamID).header) ==
      Ok(Header(n, kind, streamID, false, false, false, false, false))
  {
    HeaderRoundTrip(Header(n, kind, streamID, false, false, false, false, false));
  }

  /** A frame that is complete is handed over as it is. */
  lemma PlainReceived(n: nat, kind: byte, rest: seq<byte>, fore: nat, count: nat, acknowledged: bool)
    requires n <= MAX_FRAME_SIZE && (kind == SETTINGS || kind >= NUM_FRAME_KINDS) && count != 9
    requires kind == SETTINGS ==> n == 0
    requires fore + 9 + n <= BUFFER_SIZE
    ensures
      var raw := Plain(n, kind, 0);
      Receive(raw.header + raw.payload + rest, fore, count, acknowledged) ==
        Got(Frame(Header(n, kind, 0, false, false, false, false, false), raw.payload), rest, fore + 9 + n)
  {
    PlainDecoded(n, kind, 0);
    var raw := Plain(n, kind, 0);
    var wire := raw.header + raw.payload + rest;
    assert wire[..9] == raw.header && wire[9..9 + n] == raw.payload && wire[9 + n..] == rest;
    hide DecodeHeader, Plain;
    assert raw.payload[0..n] == raw.payload;
  }

  /** Not every legal block is accepted. A client sends its preface with empty settings, a frame of a kind
      that has to be ignored, and a field block of 16384 bytes in three frames: the frames before are
      received, the block is refused, and that not while a header is looked for, but the last payload. */
  lemma LegalBlockRefused(acknowledged: bool) returns (before: seq<RawFrame>, first: RawFrame, raws: seq<RawFrame>)
    ensures before == [Plain(0, SETTINGS, 0), Plain(16338, NUM_FRAME_KINDS, 0)]
    ensures OpensBlock(first) && Block(raws, DecodeHeader(first.header).value.streamID)
    ensures |raws| <= MAX_CONTINUATIONS && |first.payload| + |Payloads(raws)| == MAX_FRAME_SIZE
    ensures
      var session := ReceiveAsServer(PRISM + (Wire(before) + (first.header + first.payload + Wire(raws))),
        acknowledged);
      && session.end == Broken(FrameSizeError) && |session.frames| == 2
      && session.frames[0].header.kind == SETTINGS && session.frames[1].header.kind == NUM_FRAME_KINDS
    ensures
      var reached := 24 + |Wire(before)|;
      var section := Place(Place(reached, 9).fore, |first.payload|);
      var last := |raws| - 1;
      && section.back == 0 && section.fore + RawSize(raws[..last]) + 9 <= BUFFER_SIZE < section.fore + RawSize(raws)
  {
    first := Plain(10, FIELDS, 1);
    PlainDecoded(10, FIELDS, 1);
    var one, two := Zeros(16000, false), Zeros(374, true);
    raws := [one, two];
    ZerosContinue(16000, false);
    ZerosContinue(374, true);
    assert raws[1..] == [two] && raws[1..][1..] == [] && raws[..1] == [one] && raws[..1][1..] == [];
    assert Payloads(raws) == one.payload + (two.payload + Payloads([]));
    assert RawSize(raws) == 9 + 16000 + RawSize([two]) && RawSize([two]) == 9 + 374 + RawSize([]);
    assert RawSize([one]) == 9 + 16000 + RawSize([]);
    var block := first.header + first.payload + Wire(raws);
    before := [Plain(0, SETTINGS, 0), Plain(16338, NUM_FRAME_KINDS, 0)];
    BlockRefused(first, raws, acknowledged);
    SessionUpTo(before, block, acknowledged);
  }

  lemma BlockRefused(first: RawFrame, raws: seq<RawFrame>, acknowledged: bool)
    requires OpensBlock(first) && Block(raws, DecodeHeader(first.header).value.streamID)
    requires |raws| <= MAX_CONTINUATIONS && |first.payload| + |Payloads(raws)| <= MAX_FRAME_SIZE
    requires |first.payload| == 10 && RawSize(raws) == 16392
    ensures Receive(first.header + first.payload + Wire(raws), 16380, 2, acknowledged) == Failed(FrameSizeError)
  {
    hide Receive;
    NoRoomLeft(10, 10, raws);
    FieldBlockReceived(first, raws, [], 16380, 2, acknowledged);
    assert first.header + first.payload + Wire(raws) + [] == first.header + first.payload + Wire(raws);
  }

  /** The session up to the block. */
  lemma SessionUpTo(before: seq<RawFrame>, block: seq<byte>, acknowledged: bool)
    requires before == [Plain(0, SETTINGS, 0), Plain(16338, NUM_FRAME_KINDS, 0)]
    requires Receive(block, 16380, 2, acknowledged) == Failed(FrameSizeError)
    ensures
      var session := ReceiveAsServer(PRISM + (Wire(before) + block), acknowledged);
      && session.end == Broken(FrameSizeError) && |session.frames| == 2
      && session.frames[0].header.kind == SETTINGS && session.frames[1].header.kind == NUM_FRAME_KINDS
    ensures |Wire(before)| == 16356
  {
    hide Receive, Plain, Wire, ReceiveAll, ReceiveAsServer;
    var settings, other := before[0], before[1];
    PlainDecoded(0, SETTINGS, 0);
    PlainDecoded(16338, NUM_FRAME_KINDS, 0);
    var later := other.header + other.payload + block;
    PlainReceived(0, SETTINGS, later, 24, 0, acknowledged);
    PlainReceived(16338, NUM_FRAME_KINDS, block, 33, 1, acknowledged);
    WireOfTwo(settings, other, block);
    var wire := Wire(before) + block;
    BehindPreface(wire, acknowledged);
    TwoFrames(wire, later, block, acknowledged);
  }

  lemma BehindPreface(wire: seq<byte>, acknowledged: bool)
    ensures ReceiveAsServer(PRISM + wire, acknowledged) == ReceiveAll(wire, 24, 0, acknowledged)
  {
    hide ReceiveAll;
    assert (PRISM + wire)[..24] == PRISM && (PRISM + wire)[24..] == wire;
  }

  lemma TwoFrames(wire: seq<byte>, later: seq<byte>, block: seq<byte>, acknowledged: bool)
    requires Receive(wire, 24, 0, acknowledged).Got? && Receive(later, 33, 1, acknowledged).Got?
    requires Receive(block, 16380, 2, acknowledged) == Failed(FrameSizeError)
    requires var got := Receive(wire, 24, 0, acknowledged);
      got.frame.header.kind == SETTINGS && got.rest == later && got.fore == 33
    requires var got := Receive(later, 33, 1, acknowledged);
      got.frame.header.kind == NUM_FRAME_KINDS && got.rest == block && got.fore == 16380
    ensures
      var session := ReceiveAll(wire, 24, 0, acknowledged);
      && session.end == Broken(FrameSizeError) && |session.frames| == 2
      && session.frames[0].header.kind == SETTINGS && session.frames[1].header.kind == NUM_FRAME_KINDS
  {
    hide Receive;
    assert ReceiveAll(block, 16380, 2, acknowledged) == Session([], Broken(FrameSizeError));
  }

  lemma WireOfTwo(a: RawFrame, b: RawFrame, rest: seq<byte>)
    ensures Wire([a, b]) + rest == a.header + a.payload + (b.header + b.payload + rest)
    ensures |Wire([a, b])| == |a.header| + |a.payload| + |b.header| + |b.payload|
  {
    assert [a, b][1..] == [b] && [b][1..] == [];
    assert Wire([b]) == b.header + b.payload + Wire([]);
    assert Wire([a, b]) == a.header + a.payload + Wire([b]);
  }
}
