// The frames of section 6 of RFC 9113, kind by kind, built from their own fields and written out byte for byte:
// what is handed over for them, and what is refused.

module Http2Kinds {
  import opened Bytes
  import opened Http2Frames
  import opened Http2Theorems

  /** A frame on the wire (section 4.1): length, type, flags, stream, payload. */
  function FrameText(kind: byte, flags: byte, streamID: nat, payload: seq<byte>): seq<byte>
    requires |payload| <= 16384 && streamID < 0x8000_0000
  {
    HeaderText(|payload|, kind, flags, streamID) + payload
  }

  function HeaderText(length: nat, kind: byte, flags: byte, streamID: nat): (h: seq<byte>)
    requires length <= 16384 && streamID < 0x8000_0000
    ensures |h| == 9
  {
    [length / 65536, length / 256 % 256, length % 256, kind, flags] +
    [streamID / 65536 / 256, streamID / 65536 % 256, streamID / 256 % 256, streamID % 256]
  }

  /** The flags of section 6: END_STREAM (or ACK), END_HEADERS, PADDED and PRIORITY. */
  function FlagBits(first: bool, endHeaders: bool, padded: bool, priority: bool): byte {
    (if first then 0x01 else 0) + (if endHeaders then 0x04 else 0) + (if padded then 0x08 else 0) +
      (if priority then 0x20 else 0)
  }

  /** A stream a client may name, or none. */
  predicate IsStream(streamID: nat) {
    streamID < 0x8000_0000 && (streamID == 0 || streamID % 2 == 1)
  }

  /** A frame of no kind in particular, handed over with that payload. */
  predicate HandedOver(o: Outcome, head: Header, effective: seq<byte>, rest: seq<byte>) {
    o.Got? && o.frame == Frame(head, effective) && o.rest == rest
  }

  function Word(x: nat): (b: seq<byte>)
    requires x < 0x1_0000_0000
    ensures |b| == 4
  {
    [x / 65536 / 256, x / 65536 % 256, x / 256 % 256, x % 256]
  }

  // ----- Any frame -----

  lemma FlagsRead(first: bool, endHeaders: bool, padded: bool, priority: bool)
    ensures
      var flags := FlagBits(first, endHeaders, padded, priority);
      && Flag(flags, 0x01) == first && Flag(flags, 0x04) == endHeaders
      && Flag(flags, 0x08) == padded && Flag(flags, 0x20) == priority
  {
  }

  lemma HeaderRead(length: nat, kind: byte, flags: byte, streamID: nat)
    requires length <= 16384 && IsStream(streamID)
    ensures
      DecodeHeader(HeaderText(length, kind, flags, streamID)) == Ok(Header(length, kind, streamID,
        Flag(flags, 0x04) && (kind == 1 || kind == 9), Flag(flags, 0x01) && (kind == 0 || kind == 1),
        Flag(flags, 0x01) && (kind == 4 || kind == 6), Flag(flags, 0x08) && (kind == 0 || kind == 1),
        Flag(flags, 0x20) && kind == 1))
  {
    var h := HeaderText(length, kind, flags, streamID);
    hide Flag;
    BigEndianPut(length);
    BigEndianPut(streamID);
    assert length / 256 / 256 == length / 65536 && streamID / 256 / 256 == streamID / 65536;
    assert h[..3] == PutUint32(length)[1..];
    assert [h[5] % 0x80] + h[6..9] == PutUint32(streamID);
  }

  /** What becomes of a frame that needs no continuation is decided by its check. */
  lemma Checked(kind: byte, flags: byte, streamID: nat, payload: seq<byte>, h: Header, rest: seq<byte>, fore: nat,
    count: nat, acked: bool)
    requires |payload| <= 16384 && IsStream(streamID) && (count == 9 ==> acked)
    requires DecodeHeader(HeaderText(|payload|, kind, flags, streamID)) == Ok(h) && h.length == |payload|
    requires h.kind == 1 ==> h.endFields
    ensures
      var o := Receive(FrameText(kind, flags, streamID, payload) + rest, fore, count, acked);
      && (Check(h, payload).Err? ==> o == Failed(Check(h, payload).error))
      && (Check(h, payload).Ok? ==>
           var span := Check(h, payload).value;
           span.from <= span.edge <= |payload| && HandedOver(o, h, payload[span.from..span.edge], rest))
  {
    hide Check, DecodeHeader, HeaderText;
    var header := HeaderText(|payload|, kind, flags, streamID);
    var w := FrameText(kind, flags, streamID, payload) + rest;
    assert w[..9] == header && w[9..9 + |payload|] == payload && w[9 + |payload|..] == rest;
    if Check(h, payload).Ok? {
      CheckedSpan(h, payload);
    }
  }

  lemma CheckedSpan(h: Header, payload: seq<byte>)
    requires |payload| == h.length && Check(h, payload).Ok?
    ensures Check(h, payload).value.from <= Check(h, payload).value.edge <= |payload|
  {
  }

  /** A frame without flags and padding: the payload as it is, or the error of its check. */
  lemma WholeFrame(kind: byte, ack: bool, streamID: nat, payload: seq<byte>, rest: seq<byte>, fore: nat, count: nat,
    acked: bool)
    returns (h: Header)
    requires |payload| <= 16384 && IsStream(streamID) && (count == 9 ==> acked) && kind >= 2
    ensures h == Header(|payload|, kind, streamID, false, false, ack && (kind == 4 || kind == 6), false, false)
    ensures
      var o := Receive(FrameText(kind, FlagBits(ack, false, false, false), streamID, payload) + rest, fore, count,
        acked);
      && (Check(h, payload).Err? ==> o == Failed(Check(h, payload).error))
      && (Check(h, payload) == Ok(Span(0, |payload|)) ==> HandedOver(o, h, payload, rest))
  {
    var flags := FlagBits(ack, false, false, false);
    FlagsRead(ack, false, false, false);
    HeaderRead(|payload|, kind, flags, streamID);
    h := Header(|payload|, kind, streamID, false, false, ack && (kind == 4 || kind == 6), false, false);
    hide Check, FlagBits, DecodeHeader, HeaderText, FrameText, Flag, Receive;
    Checked(kind, flags, streamID, payload, h, rest, fore, count, acked);
    assert payload[0..|payload|] == payload;
  }

  // ----- SETTINGS -----

  datatype Setting = Setting(id: uint16, value: uint32)

  function SettingsText(settings: seq<Setting>): seq<byte> {
    if settings == [] then []
    else [settings[0].id / 256, settings[0].id % 256] + Word(settings[0].value) + SettingsText(settings[1..])
  }

  /** A payload is a list of settings. */
  ghost predicate AreSettings(payload: seq<byte>, settings: seq<Setting>) {
    payload == SettingsText(settings)
  }

  lemma {:induction false} SettingsLength(settings: seq<Setting>)
    ensures |SettingsText(settings)| == 6 * |settings|
  {
    if settings != [] {
      SettingsLength(settings[1..]);
    }
  }

  /** Every payload of a multiple of six bytes is a list of settings. */
  lemma {:induction false} SettingsFound(payload: seq<byte>) returns (settings: seq<Setting>)
    requires |payload| % 6 == 0
    ensures AreSettings(payload, settings)
  {
    settings := [];
    if payload != [] {
      var later := SettingsFound(payload[6..]);
      var b := payload;
      var value := ((b[2] as int * 256 + b[3]) * 256 + b[4]) * 256 + b[5];
      var s := Setting(b[0] as int * 256 + b[1], value);
      WordOf(b[2], b[3], b[4], b[5]);
      settings := [s] + later;
      assert settings[1..] == later;
      assert payload == [b[0], b[1]] + [b[2], b[3], b[4], b[5]] + payload[6..];
    }
  }

  lemma WordOf(a: byte, b: byte, c: byte, d: byte)
    ensures Word(((a as int * 256 + b) * 256 + c) * 256 + d) == [a, b, c, d]
  {
    var x := ((a as int * 256 + b) * 256 + c) * 256 + d;
    assert x / 256 == (a as int * 256 + b) * 256 + c && x % 256 == d;
    assert x / 256 / 256 == a as int * 256 + b && x / 256 % 256 == c;
    assert x / 65536 == x / 256 / 256;
  }

  /** SETTINGS (section 6.5): up to eight settings on no stream are handed over, or an acknowledgement without any;
      everything else is refused, a payload that is no such list for its size. */
  lemma SettingsReceived(ack: bool, streamID: nat, payload: seq<byte>, rest: seq<byte>, fore: nat, count: nat,
    acked: bool)
    requires |payload| <= 16384 && IsStream(streamID) && (count == 9 ==> acked)
    ensures
      var o := Receive(FrameText(4, FlagBits(ack, false, false, false), streamID, payload) + rest, fore, count, acked);
      if !(exists settings :: AreSettings(payload, settings) && |settings| <= 8) then o == Failed(FrameSizeError)
      else if streamID != 0 then o == Failed(ProtocolError)
      else if ack && payload != [] then o == Failed(FrameSizeError)
      else HandedOver(o, Header(|payload|, 4, 0, false, false, ack, false, false), payload, rest)
  {
    hide Receive, FrameText, FlagBits, AreSettings;
    var h := WholeFrame(4, ack, streamID, payload, rest, fore, count, acked);
    SettingsShape(payload);
  }

  /** What eight settings or fewer look like. */
  lemma SettingsShape(payload: seq<byte>)
    ensures (exists settings :: AreSettings(payload, settings) && |settings| <= 8) <==>
      |payload| % 6 == 0 && |payload| <= 48
  {
    if |payload| % 6 == 0 {
      var settings := SettingsFound(payload);
      SettingsLength(settings);
    }
    if exists settings :: AreSettings(payload, settings) && |settings| <= 8 {
      var settings :| AreSettings(payload, settings) && |settings| <= 8;
      SettingsLength(settings);
    }
  }

  // ----- The kinds of one size -----

  /** PING (section 6.7): eight bytes on no stream. */
  lemma PingReceived(ack: bool, streamID: nat, payload: seq<byte>, rest: seq<byte>, fore: nat, count: nat, acked: bool)
    requires |payload| <= 16384 && IsStream(streamID) && (count == 9 ==> acked)
    ensures
      var o := Receive(FrameText(6, FlagBits(ack, false, false, false), streamID, payload) + rest, fore, count, acked);
      if |payload| != 8 then o == Failed(FrameSizeError)
      else if streamID != 0 then o == Failed(ProtocolError)
      else HandedOver(o, Header(8, 6, 0, false, false, ack, false, false), payload, rest)
  {
    var h := WholeFrame(6, ack, streamID, payload, rest, fore, count, acked);
    hide Receive, FrameText, FlagBits;
  }

  /** RST_STREAM (section 6.4): an error code, four bytes, on a stream. */
  lemma ResetReceived(streamID: nat, payload: seq<byte>, rest: seq<byte>, fore: nat, count: nat, acked: bool)
    requires |payload| <= 16384 && IsStream(streamID) && (count == 9 ==> acked)
    ensures
      var o := Receive(FrameText(3, 0, streamID, payload) + rest, fore, count, acked);
      if |payload| != 4 then o == Failed(FrameSizeError)
      else if streamID == 0 then o == Failed(ProtocolError)
      else HandedOver(o, Header(4, 3, streamID, false, false, false, false, false), payload, rest)
  {
    var h := WholeFrame(3, false, streamID, payload, rest, fore, count, acked);
    assert FlagBits(false, false, false, false) == 0;
    hide Receive, FrameText, FlagBits;
  }

  /** WINDOW_UPDATE (section 6.9): an increment, four bytes, on any stream or none. */
  lemma WindowUpdateReceived(streamID: nat, payload: seq<byte>, rest: seq<byte>, fore: nat, count: nat, acked: bool)
    requires |payload| <= 16384 && IsStream(streamID) && (count == 9 ==> acked)
    ensures
      var o := Receive(FrameText(8, 0, streamID, payload) + rest, fore, count, acked);
      if |payload| != 4 then o == Failed(FrameSizeError)
      else HandedOver(o, Header(4, 8, streamID, false, false, false, false, false), payload, rest)
  {
    var h := WholeFrame(8, false, streamID, payload, rest, fore, count, acked);
    assert FlagBits(false, false, false, false) == 0;
    hide Receive, FrameText, FlagBits;
  }

  /** PRIORITY (section 6.3): a dependency and a weight, five bytes, on a stream. */
  lemma PriorityReceived(streamID: nat, payload: seq<byte>, rest: seq<byte>, fore: nat, count: nat, acked: bool)
    requires |payload| <= 16384 && IsStream(streamID) && (count == 9 ==> acked)
    ensures
      var o := Receive(FrameText(2, 0, streamID, payload) + rest, fore, count, acked);
      if |payload| != 5 then o == Failed(FrameSizeError)
      else if streamID == 0 then o == Failed(ProtocolError)
      else HandedOver(o, Header(5, 2, streamID, false, false, false, false, false), payload, rest)
  {
    var h := WholeFrame(2, false, streamID, payload, rest, fore, count, acked);
    assert FlagBits(false, false, false, false) == 0;
    hide Receive, FrameText, FlagBits;
  }

  /** GOAWAY (section 6.8): the last stream, an error code, and any text, on no stream. */
  lemma GoawayReceived(streamID: nat, payload: seq<byte>, rest: seq<byte>, fore: nat, count: nat, acked: bool)
    requires |payload| <= 16384 && IsStream(streamID) && (count == 9 ==> acked)
    ensures
      var o := Receive(FrameText(7, 0, streamID, payload) + rest, fore, count, acked);
      if |payload| < 4 + 4 then o == Failed(FrameSizeError)
      else if streamID != 0 then o == Failed(ProtocolError)
      else HandedOver(o, Header(|payload|, 7, 0, false, false, false, false, false), payload, rest)
  {
    var h := WholeFrame(7, false, streamID, payload, rest, fore, count, acked);
    assert FlagBits(false, false, false, false) == 0;
    hide Receive, FrameText, FlagBits;
  }

  /** PUSH_PROMISE, which a client does not send (section 8.4), and CONTINUATION that continues nothing (section
      6.10) are refused; kinds that are not known are handed over as they are (section 4.1). */
  lemma OtherKinds(kind: byte, streamID: nat, payload: seq<byte>, rest: seq<byte>, fore: nat, count: nat, acked: bool)
    requires |payload| <= 16384 && IsStream(streamID) && (count == 9 ==> acked) && (kind == 5 || kind >= 9)
    ensures
      var o := Receive(FrameText(kind, 0, streamID, payload) + rest, fore, count, acked);
      if kind == 5 || kind == 9 then o == Failed(ProtocolError)
      else HandedOver(o, Header(|payload|, kind, streamID, false, false, false, false, false), payload, rest)
  {
    var h := WholeFrame(kind, false, streamID, payload, rest, fore, count, acked);
    assert FlagBits(false, false, false, false) == 0;
    hide Receive, FrameText, FlagBits;
  }

  // ----- DATA and HEADERS -----

  /** Pad Length if there is padding, what stands before the content, the content, and the padding. */
  function PaddedText(padding: seq<byte>, padded: bool, before: seq<byte>, content: seq<byte>): seq<byte>
    requires |padding| <= 255
  {
    (if padded then [|padding|] else []) + before + content + (if padded then padding else [])
  }

  lemma ContentInside(padding: seq<byte>, padded: bool, before: seq<byte>, content: seq<byte>)
    requires |padding| <= 255
    ensures
      var t, from := PaddedText(padding, padded, before, content), (if padded then 1 else 0) + |before|;
      && |t| == from + |content| + (if padded then |padding| else 0) && (padded ==> t[0] == |padding|)
      && t[from..from + |content|] == content
  {
  }

  /** DATA (section 6.1): the content is handed over without its padding. Content that is empty although there is
      padding is refused, which section 6.1 does not ask for. */
  lemma DataReceived(endStream: bool, padded: bool, padding: seq<byte>, streamID: nat, content: seq<byte>,
    rest: seq<byte>,
    fore: nat, count: nat, acked: bool)
    requires |padding| <= 255 && |PaddedText(padding, padded, [], content)| <= 16384
    requires IsStream(streamID) && (count == 9 ==> acked)
    ensures
      var payload := PaddedText(padding, padded, [], content);
      var o := Receive(FrameText(0, FlagBits(endStream, false, padded, false), streamID, payload) + rest, fore, count,
        acked);
      if streamID == 0 || (padded && padding != [] && content == []) then o == Failed(ProtocolError)
      else HandedOver(o, Header(|payload|, 0, streamID, false, endStream, false, padded, false), content, rest)
  {
    var payload, flags := PaddedText(padding, padded, [], content), FlagBits(endStream, false, padded, false);
    var h := Header(|payload|, 0, streamID, false, endStream, false, padded, false);
    ContentInside(padding, padded, [], content);
    FlagsRead(endStream, false, padded, false);
    HeaderRead(|payload|, 0, flags, streamID);
    hide FlagBits, DecodeHeader, HeaderText, FrameText, Flag, Receive, PaddedText;
    Checked(0, flags, streamID, payload, h, rest, fore, count, acked);
  }

  /** A padded frame that has no Pad Length, or padding that leaves no room, is refused. */
  lemma BadPaddingRefused(payload: seq<byte>, streamID: nat, rest: seq<byte>, fore: nat, count: nat, acked: bool)
    requires |payload| <= 16384 && IsStream(streamID) && streamID != 0 && (count == 9 ==> acked)
    ensures
      var o := Receive(FrameText(0, FlagBits(false, false, true, false), streamID, payload) + rest, fore, count, acked);
      && (payload == [] ==> o == Failed(FrameSizeError))
      && (payload != [] && 0 < payload[0] && |payload| <= 1 + payload[0] as int ==> o == Failed(ProtocolError))
  {
    var flags := FlagBits(false, false, true, false);
    var h := Header(|payload|, 0, streamID, false, false, false, true, false);
    FlagsRead(false, false, true, false);
    HeaderRead(|payload|, 0, flags, streamID);
    hide FlagBits, DecodeHeader, HeaderText, FrameText, Flag, Receive;
    Checked(0, flags, streamID, payload, h, rest, fore, count, acked);
  }

  /** HEADERS with END_HEADERS (section 6.2): the fragment is handed over without padding and priority fields. */
  lemma HeadersReceived(endStream: bool, padded: bool, padding: seq<byte>, priority: seq<byte>, streamID: nat,
    fragment: seq<byte>, rest: seq<byte>, fore: nat, count: nat, acked: bool)
    requires |padding| <= 255 && (|priority| == 0 || |priority| == 5) && fragment != []
    requires |PaddedText(padding, padded, priority, fragment)| <= 16384
    requires IsStream(streamID) && (count == 9 ==> acked)
    ensures
      var payload := PaddedText(padding, padded, priority, fragment);
      var flags := FlagBits(endStream, true, padded, priority != []);
      var o := Receive(FrameText(1, flags, streamID, payload) + rest, fore, count, acked);
      if streamID == 0 then o == Failed(ProtocolError)
      else HandedOver(o, Header(|payload|, 1, streamID, true, endStream, false, padded, priority != []), fragment, rest)
  {
    var payload, flags := PaddedText(padding, padded, priority, fragment),
      FlagBits(endStream, true, padded, priority != []);
    var h := Header(|payload|, 1, streamID, true, endStream, false, padded, priority != []);
    ContentInside(padding, padded, priority, fragment);
    FlagsRead(endStream, true, padded, priority != []);
    HeaderRead(|payload|, 1, flags, streamID);
    hide FlagBits, DecodeHeader, HeaderText, FrameText, Flag, Receive, PaddedText;
    Checked(1, flags, streamID, payload, h, rest, fore, count, acked);
  }

  /** HEADERS too short for what its flags announce, and one byte of fragment, is refused. */
  lemma ShortHeadersRefused(padded: bool, priority: bool, streamID: nat, payload: seq<byte>, rest: seq<byte>,
    fore: nat, count: nat, acked: bool)
    requires IsStream(streamID) && (count == 9 ==> acked)
    requires |payload| < (if padded then 1 else 0) + (if priority then 5 else 0) + 1
    ensures
      Receive(FrameText(1, FlagBits(false, true, padded, priority), streamID, payload) + rest, fore, count, acked) ==
        Failed(FrameSizeError)
  {
    var flags := FlagBits(false, true, padded, priority);
    var h := Header(|payload|, 1, streamID, true, false, false, padded, priority);
    FlagsRead(false, true, padded, priority);
    HeaderRead(|payload|, 1, flags, streamID);
    hide FlagBits, DecodeHeader, HeaderText, FrameText, Flag, Receive;
    Checked(1, flags, streamID, payload, h, rest, fore, count, acked);
  }

  // ----- What is refused of any kind -----

  /** A frame of more than 16384 bytes, or on a stream that a client cannot open. */
  lemma BadHeaderRefused(h: seq<byte>, rest: seq<byte>, fore: nat, count: nat, acked: bool)
    requires |h| == 9
    ensures
      var length := (h[0] as int * 256 + h[1]) * 256 + h[2];
      var o := Receive(h + rest, fore, count, acked);
      && (h[8] % 2 == 0 && (h[5] % 128 != 0 || h[6] != 0 || h[7] != 0 || h[8] != 0) ==> o == Failed(ProtocolError))
      && (h[8] % 2 == 1 && length > 16384 ==> o == Failed(FrameSizeError))
  {
    assert (h + rest)[..9] == h;
    var id := [h[5] % 0x80] + h[6..9];
    FourBytes(id);
    ThreeBytes(h[..3]);
    hide BigEndian;
    assert id[0] == h[5] % 128 && id[1] == h[6] && id[2] == h[7] && id[3] == h[8];
  }

  lemma FourBytes(b: seq<byte>)
    requires |b| == 4
    ensures BigEndian(b) == ((b[0] as int * 256 + b[1]) * 256 + b[2]) * 256 + b[3]
  {
    ThreeBytes(b[..3]);
    assert b == b[..3] + [b[3]];
    BigEndianStep(b[..3], b[3]);
  }

  lemma ThreeBytes(b: seq<byte>)
    requires |b| == 3
    ensures BigEndian(b) == (b[0] as int * 256 + b[1]) * 256 + b[2]
  {
    BigEndianStep([], b[0]);
    BigEndianStep([b[0]], b[1]);
    BigEndianStep([b[0], b[1]], b[2]);
    assert [] + [b[0]] == [b[0]] && [b[0]] + [b[1]] == [b[0], b[1]] && [b[0], b[1]] + [b[2]] == b;
  }

  /** The tenth frame is refused if our settings have not been acknowledged, whatever else it is good for. */
  lemma TenthFrameRefused(wire: seq<byte>, fore: nat)
    requires Receive(wire, fore, 9, true).Got?
    ensures Receive(wire, fore, 9, false) == Failed(SettingsTimeout)
  {
    hide Check, Coalesce, DecodeHeader;
  }

  /** The preface of a client (section 3.4). */
  lemma PrefaceText()
    ensures PRISM == Text("PRI * HTTP/2.0\r\n\r\nSM\r\n\r\n")
  {
  }

  // ----- What is refused amid a field block -----

  /** Four continuations, of which none is the last one. */
  lemma {:induction false} UnfinishedBlock(p: Progress, i: nat, raws: seq<RawFrame>, rest: seq<byte>)
    requires p.back <= p.fore && i + |raws| == 4 && p.wire == Wire(raws) + rest
    requires forall k | 0 <= k < |raws| :: Continues(raws[k], p.head.streamID, false)
    requires p.head.length + |Payloads(raws)| <= MAX_FRAME_SIZE && !SlidesTwice(p.back, p.fore, p.cont, raws)
    ensures Coalesce(p, i) == Failed(EnhanceYourCalm)
    decreases |raws|
  {
    hide JoinContinuation, DecodeHeader, Coalesce, Continues;
    NextRound(p, i);
    if raws != [] {
      var raw, later := raws[0], raws[1..];
      Regroup(raw.header + raw.payload, Wire(later), rest);
      RoundComplete(p, raw, false, Wire(later) + rest);
      assert forall k | 0 <= k < |later| :: later[k] == raws[k + 1];
      UnfinishedBlock(JoinContinuation(p).next, i + 1, later, rest);
    }
  }

  /** A field block is refused behind four continuations that do not complete it. */
  lemma FifthContinuationRefused(first: RawFrame, raws: seq<RawFrame>, rest: seq<byte>, fore: nat, count: nat,
    acked: bool)
    requires OpensBlock(first) && |raws| == 4 && (count == 9 ==> acked)
    requires forall k | 0 <= k < 4 :: Continues(raws[k], DecodeHeader(first.header).value.streamID, false)
    requires |first.payload| + |Payloads(raws)| <= MAX_FRAME_SIZE
    requires
      var s := Place(Place(fore, 9).fore, |first.payload|);
      !SlidesTwice(s.back, s.fore, s.fore, raws)
    ensures
      Receive(first.header + first.payload + (Wire(raws) + rest), fore, count, acked) == Failed(EnhanceYourCalm)
  {
    hide Check, JoinContinuation, DecodeHeader, Continues, Coalesce, Wire, Payloads, SlidesTwice;
    var p := BlockOpened(first, Wire(raws) + rest, fore, count, acked);
    UnfinishedBlock(p, 0, raws, rest);
  }

  /** What the receiver has when a field block has been opened. */
  lemma BlockOpened(first: RawFrame, behind: seq<byte>, fore: nat, count: nat, acked: bool) returns (p: Progress)
    requires OpensBlock(first) && (count == 9 ==> acked)
    ensures
      var s := Place(Place(fore, 9).fore, |first.payload|);
      && s.back <= s.fore
      && p == Progress(DecodeHeader(first.header).value, Fragment(first), s.back, s.fore, s.fore, behind)
      && p.head.length == |first.payload|
      && Receive(first.header + first.payload + behind, fore, count, acked) == Coalesce(p, 0)
  {
    hide Check, JoinContinuation, DecodeHeader, Coalesce;
    var w, n := first.header + first.payload + behind, |first.payload|;
    assert w[..9] == first.header && w[9..9 + n] == first.payload && w[9 + n..] == behind;
    var a := Fetch(w, fore).value;
    p := Progress(a.head, Fragment(first), a.section.back, a.section.fore, a.section.fore, behind);
  }

  /** Amid a field block only a continuation of it may come, not empty and not too long. */
  lemma OtherFrameRefused(first: RawFrame, h: seq<byte>, rest: seq<byte>, fore: nat, count: nat, acked: bool)
    requires OpensBlock(first) && (count == 9 ==> acked) && |h| == 9 && DecodeHeader(h).Ok?
    requires
      var s := Place(Place(fore, 9).fore, |first.payload|);
      s.back > 0 || s.fore + 9 <= BUFFER_SIZE
    ensures
      var c := DecodeHeader(h).value;
      var o := Receive(first.header + first.payload + (h + rest), fore, count, acked);
      && (c.length == 0 || |first.payload| + c.length > 16384 ==> o == Failed(FrameSizeError))
      && (c.length > 0 && |first.payload| + c.length <= 16384 && c.kind != 9 ==> o == Failed(ProtocolError))
      && (c.length > 0 && |first.payload| + c.length <= 16384 &&
           c.streamID != DecodeHeader(first.header).value.streamID ==>
           o == Failed(ProtocolError))
  {
    hide Check, DecodeHeader, Coalesce;
    var p := BlockOpened(first, h + rest, fore, count, acked);
    assert (h + rest)[..9] == h;
    NextRound(p, 0);
  }
}
