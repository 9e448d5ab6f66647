// The HTTP/2 frame receiver: one 9+16384 byte buffer, five 16-bit cursors, in-place coalescing.

module Http2Receiver {
  import opened Bytes
  import opened Sockets
  import opened Http2Frames

  datatype Status = Pass | Fail(error: Error)

  /** An incoming frame: its header fields, and where its effective payload lies in the buffer. */
  class InFrame {
    var head: Header
    var efct: Span

    constructor ()
    {
      head := Header(0, 0, 0, false, false, false, false, false);
      efct := Span(0, 0);
    }

    /** Reads the nine header bytes at buf[at], clearing the reserved bit in place. */
    method DecodeHeader(buf: array<byte>, at: nat) returns (r: Status)
      requires at + 9 <= buf.Length
      modifies this`head, buf
      ensures buf[..] == old(buf[..])[at + 5 := old(buf[at + 5]) % 0x80]
      ensures match Http2Frames.DecodeHeader(old(buf[at..at + 9]))
        case Ok(h) => r == Pass && head == h
        case Err(e) => r == Fail(e)
    {
      ghost var raw := buf[at..at + 9];
      buf[at + 5] := buf[at + 5] % 0x80;
      ghost var h := buf[at..at + 9];
      assert h == raw[5 := raw[5] % 0x80];
      ReservedBitIgnored(raw);
      assert forall k | 0 <= k < 9 :: buf[at + k] == h[k];
      assert buf[at + 5..at + 9] == [h[5] % 0x80] + h[6..9] && buf[at..at + 3] == h[..3];
      var streamID := BigEndian(buf[at + 5..at + 9]);
      if streamID != 0 && streamID % 2 == 0 {
        return Fail(ProtocolError);
      }
      var length := BigEndian(buf[at..at + 3]);
      if length > MAX_FRAME_SIZE {
        return Fail(FrameSizeError);
      }
      var kind, flags := buf[at + 3], buf[at + 4];
      head := Header(
        length, kind, streamID,
        Flag(flags, 0x04) && (kind == FIELDS || kind == CONTINUATION),
        Flag(flags, 0x01) && (kind == DATA || kind == FIELDS),
        Flag(flags, 0x01) && (kind == SETTINGS || kind == PING),
        Flag(flags, 0x08) && (kind == DATA || kind == FIELDS),
        Flag(flags, 0x20) && kind == FIELDS);
      return Pass;
    }

    /** The span still covers the whole payload, nothing was checked yet. */
    ghost predicate Loaded(buf: array<byte>)
      reads this
    {
      efct.edge == efct.from + head.length && efct.edge <= buf.Length
    }

    ghost function Payload(buf: array<byte>): seq<byte>
      requires Loaded(buf)
      reads this, buf
    {
      buf[efct.from..efct.edge]
    }

    /** The span was narrowed, or refused, as the check prescribes. */
    twostate predicate NarrowedTo(checked: Result<Span>, r: Status)
      reads this
    {
      match checked
      case Ok(span) => r == Pass && efct == Span(old(efct.from) + span.from, old(efct.from) + span.edge)
      case Err(e) => r == Fail(e)
    }

    method CheckAsData(buf: array<byte>) returns (r: Status)
      requires Loaded(buf) && head.kind == DATA
      modifies this`efct
      ensures NarrowedTo(Http2Frames.Check(head, old(Payload(buf))), r)
    {
      var minLength := if head.padded then 1 else 0;
      if head.length < minLength { return Fail(FrameSizeError); }
      if head.streamID == 0 { return Fail(ProtocolError); }
      r := StripPadding(buf, 0);
    }

    method CheckAsFields(buf: array<byte>) returns (r: Status)
      requires Loaded(buf) && head.kind == FIELDS
      modifies this`efct
      ensures NarrowedTo(Http2Frames.Check(head, old(Payload(buf))), r)
    {
      var minLength := 1;
      if head.padded { minLength := minLength + 1; }
      if head.priority { minLength := minLength + 5; }
      if head.length < minLength { return Fail(FrameSizeError); }
      if head.streamID == 0 { return Fail(ProtocolError); }
      r := StripPadding(buf, if head.priority then 5 else 0);
    }

    /** The common tail of the two checks above. */
    method StripPadding(buf: array<byte>, others: nat) returns (r: Status)
      requires Loaded(buf) && others <= 5
      requires head.length >= (if head.padded then 1 else 0) + others
      modifies this`efct
      ensures NarrowedTo(Http2Frames.StripPadding(head, others, old(Payload(buf))), r)
    {
      var padLength, othersLen := 0, 0;
      if head.padded {
        padLength := buf[efct.from];
        othersLen := 1;
        efct := efct.(from := efct.from + 1);
      }
      othersLen := othersLen + others;
      efct := efct.(from := efct.from + others);
      if padLength > 0 {
        if othersLen + padLength >= head.length { return Fail(ProtocolError); }
        efct := efct.(edge := efct.edge - padLength);
      }
      return Pass;
    }

    /** http2InFrameCheckers[kind](frame) for the kinds that only look at the header. */
    method CheckHeaderOnly(buf: array<byte>) returns (r: Status)
      requires Loaded(buf) && head.kind != DATA && head.kind != FIELDS
      ensures NarrowedTo(Http2Frames.Check(head, old(Payload(buf))), r)
    {
      if head.kind >= NUM_FRAME_KINDS {
        r := Pass;
      } else if head.kind == PRIORITY {
        r := if head.length != 5 then Fail(FrameSizeError)
             else if head.streamID == 0 then Fail(ProtocolError) else Pass;
      } else if head.kind == RESET_STREAM {
        r := if head.length != 4 then Fail(FrameSizeError)
             else if head.streamID == 0 then Fail(ProtocolError) else Pass;
      } else if head.kind == SETTINGS {
        r := if head.length % 6 != 0 || head.length > 48 then Fail(FrameSizeError)
             else if head.streamID != 0 then Fail(ProtocolError)
             else if head.ack && head.length != 0 then Fail(FrameSizeError) else Pass;
      } else if head.kind == PING {
        r := if head.length != 8 then Fail(FrameSizeError)
             else if head.streamID != 0 then Fail(ProtocolError) else Pass;
      } else if head.kind == GOAWAY {
        r := if head.length < 8 then Fail(FrameSizeError) else if head.streamID != 0 then Fail(ProtocolError) else Pass;
      } else if head.kind == WINDOW_UPDATE {
        r := if head.length != 4 then Fail(FrameSizeError) else Pass;
      } else {
        r := Fail(ProtocolError);
      }
    }

    method Check(buf: array<byte>) returns (r: Status)
      requires Loaded(buf)
      modifies this`efct
      ensures NarrowedTo(Http2Frames.Check(head, old(Payload(buf))), r)
      ensures r.Pass? ==> efct.from <= efct.edge <= old(efct.edge) && old(efct.from) <= efct.from
    {
      if head.kind == DATA {
        r := CheckAsData(buf);
      } else if head.kind == FIELDS {
        r := CheckAsFields(buf);
      } else {
        r := CheckHeaderOnly(buf);
      }
    }
  }

  /** The cursors of the receiver, all 16 bits wide: received bytes end at inBufferEdge, the current
      frame section is [sectBack, sectFore), the current continuation section [contBack, contFore). */
  datatype Cursors = Cursors(
    inBufferEdge: uint16, sectBack: uint16, sectFore: uint16, contBack: uint16, contFore: uint16)

  /** The receiving side of an HTTP/2 connection. */
  class Conn {
    const socket: Socket
    const buf: array<byte>
    const inFrame0: InFrame
    const inFrame1: InFrame
    var inFrame: InFrame?
    var cur: Cursors
    var cumulativeInFrames: nat
    var acknowledged: bool

    constructor (socket: Socket)
      ensures Valid() && this.socket == socket
      ensures fresh(buf) && fresh(inFrame0) && fresh(inFrame1)
      ensures cur == Cursors(0, 0, 0, 0, 0) && cumulativeInFrames == 0 && !acknowledged
    {
      this.socket := socket;
      buf := new byte[BUFFER_SIZE](_ => 0);
      inFrame0 := new InFrame();
      inFrame1 := new InFrame();
      inFrame := null;
      cur := Cursors(0, 0, 0, 0, 0);
      cumulativeInFrames, acknowledged := 0, false;
    }

    /** The state between two frames. */
    ghost predicate Valid()
      reads this
    {
      && buf.Length == BUFFER_SIZE
      && cur.sectBack <= cur.sectFore <= cur.inBufferEdge <= BUFFER_SIZE
      && inFrame0 != inFrame1
      && (inFrame == null || inFrame == inFrame0 || inFrame == inFrame1)
    }

    /** Every byte received or still to come, from buffer position `at` on. */
    ghost function From(at: nat): seq<byte>
      requires at <= cur.inBufferEdge <= buf.Length
      reads this, buf, socket
    {
      buf[..][at..cur.inBufferEdge] + socket.unread
    }

    ghost function Pending(): seq<byte>
      requires Valid()
      reads this, buf, socket
    {
      From(cur.sectFore)
    }

    lemma SplitSection(back: nat, fore: nat)
      requires back <= fore <= cur.inBufferEdge <= buf.Length
      ensures buf[..][back..fore] == From(back)[..fore - back]
      ensures From(fore) == From(back)[fore - back..]
    {
    }

    /** Reads at least `size` more bytes. What was received stays: named by its callers as the bytes
        from position `at` on and the piece buf[kept.from..kept.edge]. */
    method FillInBuffer(size: nat, ghost at: nat, ghost kept: Span) returns (ok: bool)
      requires buf.Length == BUFFER_SIZE && cur.inBufferEdge + size <= BUFFER_SIZE
      requires at <= cur.inBufferEdge && kept.from <= kept.edge <= cur.inBufferEdge
      modifies this`cur, buf, socket
      ensures ok == (|old(socket.unread)| >= size)
      ensures old(cur.inBufferEdge) <= cur.inBufferEdge <= BUFFER_SIZE
      ensures cur == old(cur).(inBufferEdge := cur.inBufferEdge)
      ensures ok ==> old(cur.inBufferEdge) + size <= cur.inBufferEdge
      ensures From(at) == old(From(at))
      ensures buf[..][kept.from..kept.edge] == old(buf[..])[kept.from..kept.edge]
    {
      hide Pasted;
      ghost var edge, was, wire := cur.inBufferEdge, buf[..], socket.unread;
      var n;
      n, ok := socket.ReadAtLeast(buf, cur.inBufferEdge, size);
      cur := cur.(inBufferEdge := cur.inBufferEdge + n);
      PastedSlice(was, edge, wire[..n], kept.from, kept.edge);
      PastedBehind(was, edge, wire[..n], at);
      TakeDrop(wire, n);
      assert was[at..edge] + wire[..n] + wire[n..] == was[at..edge] + wire;
    }

    /** The slide of _growInFrame: everything from sectBack on moves to the front of the buffer. */
    method SlideInBuffer()
      requires cur.sectBack <= cur.inBufferEdge <= buf.Length && cur.sectBack <= cur.sectFore
      modifies this`cur, buf
      ensures cur == old(cur.(
        inBufferEdge := cur.inBufferEdge - cur.sectBack, sectFore := cur.sectFore - cur.sectBack, sectBack := 0))
      ensures From(0) == old(From(cur.sectBack))
    {
      hide Pasted;
      PastedSlice(buf[..], 0, buf[..][cur.sectBack..cur.inBufferEdge], 0, cur.inBufferEdge - cur.sectBack);
      CopyWithin(buf, 0, cur.sectBack, cur.inBufferEdge);
      cur := cur.(
        inBufferEdge := cur.inBufferEdge - cur.sectBack, sectFore := cur.sectFore - cur.sectBack, sectBack := 0);
    }

    /** Makes buf[sectBack..sectFore] the next `size` bytes of the connection. */
    method GrowInFrame(size: nat) returns (ok: bool)
      requires Valid() && cur.sectBack == cur.sectFore && size <= MAX_FRAME_SIZE
      modifies this`cur, buf, socket
      ensures ok == (|old(Pending())| >= size)
      ensures ok ==>
        && Valid() && Section(cur.sectBack, cur.sectFore) == Place(old(cur.sectFore), size)
        && buf[..][cur.sectBack..cur.sectFore] == old(Pending())[..size]
        && Pending() == old(Pending())[size..]
    {
      cur := cur.(sectFore := cur.sectFore + size);
      ok := FetchSection();
      if ok {
        SplitSection(cur.sectBack, cur.sectFore);
      }
    }

    /** Receives what is missing of buf[sectBack..sectFore]. */
    method FetchSection() returns (ok: bool)
      requires buf.Length == BUFFER_SIZE && cur.inBufferEdge <= BUFFER_SIZE
      requires cur.sectBack <= cur.inBufferEdge && cur.sectBack <= cur.sectFore <= cur.sectBack + MAX_FRAME_SIZE
      modifies this`cur, buf, socket
      ensures ok == (|old(From(cur.sectBack))| >= old(cur.sectFore - cur.sectBack))
      ensures cur.sectBack <= cur.inBufferEdge <= BUFFER_SIZE
      ensures Section(cur.sectBack, cur.sectFore) ==
        if old(cur.sectFore) <= BUFFER_SIZE then old(Section(cur.sectBack, cur.sectFore))
        else Section(0, old(cur.sectFore - cur.sectBack))
      ensures ok ==> cur.sectFore <= cur.inBufferEdge
      ensures From(cur.sectBack) == old(From(cur.sectBack))
    {
      if cur.sectFore <= cur.inBufferEdge {
        return true;
      }
      if cur.sectFore > BUFFER_SIZE {
        SlideInBuffer();
      }
      ok := FillInBuffer(cur.sectFore - cur.inBufferEdge, cur.sectBack, Span(0, 0));
    }

    /** The cursors while continuations are coalesced into `fields`. */
    ghost predicate Coalescing(fields: InFrame)
      reads this, fields
    {
      && buf.Length == BUFFER_SIZE
      && cur.sectBack <= fields.efct.from <= fields.efct.edge <= cur.sectFore <= cur.contBack <= cur.contFore
      && cur.contBack <= cur.inBufferEdge <= BUFFER_SIZE
    }

    ghost function Effective(fields: InFrame): seq<byte>
      requires fields.efct.from <= fields.efct.edge <= buf.Length
      reads this, buf, fields
    {
      buf[..][fields.efct.from..fields.efct.edge]
    }

    /** The slide of _growContinuationFrame: the collected payload goes to the front and the bytes
        of the current continuation section right behind it, leaving out the holes in between.
        The first copy never reaches the bytes the second one reads. */
    method SlideOverHoles(fields: InFrame)
      requires Coalescing(fields)
      modifies this`cur, buf, fields`efct
      ensures Coalescing(fields)
      ensures old(cur.sectFore) - old(cur.sectBack) >= 0
      ensures cur == old(SlidOverHoles(cur))
      ensures Effective(fields) == old(Effective(fields))
      ensures From(cur.contBack) == old(From(cur.contBack))
    {
      hide Pasted;
      var c, e := cur, fields.efct;
      MoveOverHoles(c, e);
      fields.efct := Span(e.from - c.sectBack, e.edge - c.sectBack);
      cur := SlidOverHoles(c);
    }

    /** The two copies. */
    method MoveOverHoles(c: Cursors, ghost e: Span)
      requires buf.Length == BUFFER_SIZE
      requires c.sectBack <= e.from <= e.edge <= c.sectFore <= c.contBack <= c.inBufferEdge <= BUFFER_SIZE
      modifies buf
      ensures
        var size := c.sectFore - c.sectBack;
        && buf[..][size..size + (c.inBufferEdge - c.contBack)] == old(buf[..])[c.contBack..c.inBufferEdge]
        && buf[..][e.from - c.sectBack..e.edge - c.sectBack] == old(buf[..])[e.from..e.edge]
    {
      hide Pasted;
      ghost var was := buf[..];
      assert buf[c.sectBack..c.sectFore] == was[c.sectBack..c.sectFore];
      CopyWithin(buf, 0, c.sectBack, c.sectFore);
      ghost var mid := buf[..];
      PayloadMoved(was, c, e.from, e.edge, mid);
      assert buf[c.contBack..c.inBufferEdge] == mid[c.contBack..c.inBufferEdge];
      CopyWithin(buf, c.sectFore - c.sectBack, c.contBack, c.inBufferEdge);
      RestMoved(mid, c, e.from, e.edge, buf[..]);
    }

    /** Makes buf[contBack..contFore] the next `size` bytes of the connection, keeping the payload
        collected so far; a second slide is refused. */
    method GrowContinuationFrame(size: nat, fields: InFrame) returns (r: Status)
      requires Coalescing(fields) && cur.contBack == cur.contFore
      requires cur.sectFore - cur.sectBack + size <= BUFFER_SIZE
      modifies this`cur, buf, socket, fields`efct
      ensures match old(PlaceContinuation(cur.sectBack, cur.sectFore, cur.contFore, size))
        case Refused => r == Fail(FrameSizeError)
        case Placed(back, fore, cont) =>
          if |old(From(cur.contFore))| < size then r == Fail(IoError) else
          && r == Pass && Coalescing(fields) && cur.contFore <= cur.inBufferEdge
          && cur == Cursors(cur.inBufferEdge, back, fore, cont, cont + size)
          && Effective(fields) == old(Effective(fields))
          && buf[..][cur.contBack..cur.contFore] == old(From(cur.contFore))[..size]
          && From(cur.contFore) == old(From(cur.contFore))[size..]
    {
      cur := cur.(contFore := cur.contFore + size);
      r := FetchContinuation(fields);
      if r == Pass {
        SplitSection(cur.contBack, cur.contFore);
      }
    }

    /** Receives what is missing of buf[contBack..contFore]. */
    method FetchContinuation(fields: InFrame) returns (r: Status)
      requires Coalescing(fields)
      requires cur.sectFore - cur.sectBack + (cur.contFore - cur.contBack) <= BUFFER_SIZE
      modifies this`cur, buf, socket, fields`efct
      ensures match old(PlaceContinuation(cur.sectBack, cur.sectFore, cur.contBack, cur.contFore - cur.contBack))
        case Refused => r == Fail(FrameSizeError)
        case Placed(back, fore, cont) =>
          if |old(From(cur.contBack))| < old(cur.contFore - cur.contBack) then r == Fail(IoError) else
          && r == Pass && Coalescing(fields) && cur.contFore <= cur.inBufferEdge
          && cur == Cursors(cur.inBufferEdge, back, fore, cont, cont + old(cur.contFore - cur.contBack))
          && Effective(fields) == old(Effective(fields))
          && From(cur.contBack) == old(From(cur.contBack))
    {
      if cur.contFore <= cur.inBufferEdge {
        return Pass;
      }
      if cur.contFore > BUFFER_SIZE {
        if cur.sectBack == 0 {
          return Fail(FrameSizeError);
        }
        SlideOverHoles(fields);
      }
      var ok := FillInBuffer(cur.contFore - cur.inBufferEdge, cur.contBack, fields.efct);
      r := if ok then Pass else Fail(IoError);
    }

    /** Between two continuations: the payload collected so far is counted by fields.head.length. */
    ghost predicate Between(fields: InFrame)
      reads this, fields
    {
      && Coalescing(fields)
      && cur.contBack == cur.contFore
      && fields.head.length == cur.sectFore - cur.sectBack <= MAX_FRAME_SIZE
    }

    ghost function Reached(fields: InFrame): (p: Progress)
      requires Between(fields)
      reads this, buf, socket, fields
      ensures p.back <= p.fore
    {
      Progress(fields.head, Effective(fields), cur.sectBack, cur.sectFore, cur.contFore, From(cur.contFore))
    }

    /** Receives the header of the next continuation into buf[contBack..contFore] and decodes it. */
    method RecvContinuationHeader(fields: InFrame, continuation: InFrame) returns (r: Status)
      requires Between(fields) && fields != continuation
      modifies this`cur, buf, socket, fields`efct, continuation`head
      ensures match old(PlaceContinuation(cur.sectBack, cur.sectFore, cur.contFore, 9))
        case Refused => r == Fail(FrameSizeError)
        case Placed(back, fore, cont) =>
          var wire := old(From(cur.contFore));
          if |wire| < 9 then r == Fail(IoError) else
          match Http2Frames.DecodeHeader(wire[..9])
          case Err(e) => r == Fail(e)
          case Ok(h) =>
            && r == Pass && continuation.head == h && Coalescing(fields) && cur.contFore <= cur.inBufferEdge
            && cur == Cursors(cur.inBufferEdge, back, fore, cont, cont + 9)
            && Effective(fields) == old(Effective(fields))
            && From(cur.contFore) == wire[9..]
    {
      hide Http2Frames.DecodeHeader;
      r := GrowContinuationFrame(9, fields);
      if r == Pass {
        ghost var eff, rest := Effective(fields), From(cur.contFore);
        assert buf[..][cur.contBack..cur.contFore] == buf[cur.contBack..cur.contBack + 9];
        r := continuation.DecodeHeader(buf, cur.contBack);
        assert Effective(fields) == eff;
        assert From(cur.contFore) == rest;
      }
    }

    /** Appends buf[contBack..contFore] to the collected payload, over padding and holes. */
    method AppendContinuation(fields: InFrame, length: uint16)
      requires Coalescing(fields) && cur.contFore == cur.contBack + length <= cur.inBufferEdge
      requires fields.head.length == cur.sectFore - cur.sectBack && fields.head.length + length <= MAX_FRAME_SIZE
      modifies this`cur, buf, fields
      ensures fields.head == old(fields.head).(length := old(fields.head).length + length)
      ensures fields.efct == old(fields.efct).(edge := old(fields.efct).edge + length)
      ensures cur == old(cur).(sectFore := old(cur).sectFore + length)
      ensures Effective(fields) == old(Effective(fields)) + old(buf[..][cur.contBack..cur.contFore])
      ensures From(cur.contFore) == old(From(cur.contFore))
    {
      hide Pasted;
      ghost var was, edge := buf[..], fields.efct.edge;
      ghost var payload := was[cur.contBack..cur.contFore];
      CopyWithin(buf, fields.efct.edge, cur.contBack, cur.contFore);
      PastedSlice(was, edge, payload, fields.efct.from, edge);
      PastedSlice(was, edge, payload, edge, edge + length);
      PastedSlice(was, edge, payload, cur.contFore, cur.inBufferEdge);
      fields.efct := fields.efct.(edge := fields.efct.edge + length);
      fields.head := fields.head.(length := fields.head.length + length);
      cur := cur.(sectFore := cur.sectFore + length);
    }

    /** Receives and appends the payload announced by `ch`. */
    method RecvContinuationPayload(fields: InFrame, ch: Header) returns (r: Status)
      requires Between(fields)
      modifies this`cur, buf, socket, fields
      ensures match JoinPayload(old(Reached(fields)), ch)
        case Stopped(e) => r == Fail(e)
        case Joined(q, _) => r == Pass && Between(fields) && Reached(fields) == q
    {
      hide PlaceContinuation, AppendPayload;
      if ch.length == 0 || fields.head.length + ch.length > MAX_FRAME_SIZE {
        return Fail(FrameSizeError);
      }
      if ch.streamID != fields.head.streamID || ch.kind != CONTINUATION {
        return Fail(ProtocolError);
      }
      r := AbsorbPayload(fields, ch.length);
    }

    /** Receives that many bytes and appends them. */
    method AbsorbPayload(fields: InFrame, length: uint16) returns (r: Status)
      requires Between(fields) && length > 0 && fields.head.length + length <= MAX_FRAME_SIZE
      modifies this`cur, buf, socket, fields
      ensures
        var p := old(Reached(fields));
        var spot := PlaceContinuation(p.back, p.fore, p.cont, length);
        && (spot.Refused? ==> r == Fail(FrameSizeError))
        && (spot.Placed? && |p.wire| < length ==> r == Fail(IoError))
        && (spot.Placed? && |p.wire| >= length ==>
             r == Pass && Between(fields) && Reached(fields) == AppendPayload(p, spot, length))
    {
      r := GrowContinuationFrame(length, fields);
      if r.Pass? {
        AppendContinuation(fields, length);
        cur := cur.(contBack := cur.contFore);
      }
    }

    /** One round of _coalesceContinuations. */
    method CoalesceOne(fields: InFrame, continuation: InFrame) returns (r: Status)
      requires Between(fields) && fields != continuation
      modifies this`cur, buf, socket, fields, continuation`head
      ensures match JoinContinuation(old(Reached(fields)))
        case Stopped(e) => r == Fail(e)
        case Joined(q, last) =>
          r == Pass && Between(fields) && Reached(fields) == q && continuation.head.endFields == last
    {
      hide Http2Frames.DecodeHeader;
      r := RecvContinuationHeader(fields, continuation);
      if r.Pass? {
        cur := cur.(contBack := cur.contFore);
        ghost var p := Reached(fields);
        assert JoinContinuation(old(Reached(fields))) == JoinPayload(p, continuation.head);
        r := RecvContinuationPayload(fields, continuation.head);
      }
    }

    /** Marks the coalesced frame complete; the next frame starts after the last continuation. */
    method Complete(fields: InFrame)
      requires Between(fields)
      modifies this`cur, fields`head
      ensures fields.head == old(fields.head).(endFields := true)
      ensures cur == old(cur).(sectFore := old(cur).contFore)
      ensures Effective(fields) == old(Effective(fields)) && From(cur.sectFore) == old(From(cur.contFore))
    {
      fields.head := fields.head.(endFields := true);
      cur := cur.(sectFore := cur.contFore);
    }

    /** The frame is complete, and what it was to become. */
    ghost predicate Coalesced(fields: InFrame, o: Outcome)
      reads this, buf, socket, fields
    {
      && cur.sectBack <= cur.sectFore <= cur.inBufferEdge <= BUFFER_SIZE <= buf.Length
      && fields.efct.from <= fields.efct.edge <= cur.sectFore
      && o == Got(Frame(fields.head, Effective(fields)), From(cur.sectFore), cur.sectFore)
    }

    /** Round number i: absorbs one continuation, or completes the frame with it. */
    method CoalesceRound(fields: InFrame, continuation: InFrame, ghost i: nat) returns (r: Status, done: bool)
      requires Between(fields) && fields != continuation && i < MAX_CONTINUATIONS
      modifies this`cur, buf, socket, fields, continuation`head
      ensures r.Fail? ==> Coalesce(old(Reached(fields)), i) == Failed(r.error)
      ensures r.Pass? && !done ==>
        Between(fields) && Coalesce(Reached(fields), i + 1) == Coalesce(old(Reached(fields)), i)
      ensures r.Pass? && done ==> Coalesced(fields, Coalesce(old(Reached(fields)), i))
    {
      hide Http2Frames.JoinContinuation, Http2Frames.Coalesce;
      NextRound(Reached(fields), i);
      r := CoalesceOne(fields, continuation);
      done := false;
      if r.Pass? && continuation.head.endFields {
        Complete(fields);
        done := true;
      }
    }

    /** Turns a FIELDS frame and its CONTINUATION frames into a single FIELDS frame, in place. */
    method CoalesceContinuations(fields: InFrame) returns (r: Status)
      requires Between(fields) && cur.contFore == cur.sectFore
      modifies this`cur, buf, socket, fields
      ensures r.Fail? ==> Coalesce(old(Reached(fields)), 0) == Failed(r.error)
      ensures r.Pass? ==> Coalesced(fields, Coalesce(old(Reached(fields)), 0))
    {
      hide Http2Frames.JoinContinuation, Http2Frames.Coalesce, Between, Reached, Coalesced;
      var continuation := new InFrame();
      ghost var want := Coalesce(Reached(fields), 0);
      for i := 0 to MAX_CONTINUATIONS
        invariant Between(fields)
        invariant Coalesce(Reached(fields), i) == want
      {
        var done;
        r, done := CoalesceRound(fields, continuation, i);
        if r.Fail? || done { return; }
      }
      GivesUp(fields);
      return Fail(EnhanceYourCalm);
    }

    lemma GivesUp(fields: InFrame)
      requires Between(fields)
      ensures Coalesce(Reached(fields), MAX_CONTINUATIONS) == Failed(EnhanceYourCalm)
    {
      NextRound(Reached(fields), MAX_CONTINUATIONS);
    }

    /** inFrame holds the frame `a`, just received and not checked yet. */
    ghost predicate Holds(a: Arrival)
      reads this, buf, socket, inFrame0, inFrame1
    {
      && Valid() && inFrame != null
      && inFrame.head == a.head
      && inFrame.efct == Span(cur.sectBack, cur.sectFore)
      && Section(cur.sectBack, cur.sectFore) == a.section
      && buf[..][cur.sectBack..cur.sectFore] == a.payload
      && Pending() == a.rest
    }

    /** Receives header and payload of the next frame. Two frame records are used in turn, so the
        frame returned before stays as it is. */
    method FetchInFrame() returns (r: Status)
      requires Valid()
      modifies this`inFrame, this`cur, buf, socket, inFrame0, inFrame1
      ensures match old(Fetch(Pending(), cur.sectFore))
        case Err(e) => r == Fail(e)
        case Ok(a) => r == Pass && Holds(a) && inFrame != old(inFrame)
    {
      hide Http2Frames.DecodeHeader;
      r := FetchInHeader();
      if r.Pass? {
        r := FetchInPayload();
      }
    }

    method FetchInPayload() returns (r: Status)
      requires Valid() && inFrame != null && inFrame.head.length <= MAX_FRAME_SIZE
      modifies this`cur, buf, socket, inFrame`efct
      ensures
        var wire, size := old(Pending()), inFrame.head.length;
        if |wire| < size then r == Fail(IoError)
        else r == Pass && Holds(Arrival(inFrame.head, wire[..size], Place(old(cur.sectFore), size), wire[size..]))
    {
      cur := cur.(sectBack := cur.sectFore);
      var ok := GrowInFrame(inFrame.head.length);
      if !ok { return Fail(IoError); }
      inFrame.efct := Span(cur.sectBack, cur.sectFore);
      r := Pass;
    }

    method FetchInHeader() returns (r: Status)
      requires Valid()
      modifies this`inFrame, this`cur, buf, socket, inFrame0, inFrame1
      ensures
        var wire := old(Pending());
        if |wire| < 9 then r == Fail(IoError) else
        match Http2Frames.DecodeHeader(wire[..9])
        case Err(e) => r == Fail(e)
        case Ok(h) =>
          && r == Pass && Valid() && inFrame != null && inFrame != old(inFrame) && inFrame.head == h
          && cur.sectFore == Place(old(cur.sectFore), 9).fore && Pending() == wire[9..]
    {
      hide Http2Frames.DecodeHeader;
      ghost var wire := Pending();
      cur := cur.(sectBack := cur.sectFore);
      var ok := GrowInFrame(9);
      if !ok { return Fail(IoError); }
      inFrame := if inFrame == null || inFrame == inFrame1 then inFrame0 else inFrame1;
      ghost var rest := Pending();
      assert buf[cur.sectBack..cur.sectBack + 9] == wire[..9];
      r := inFrame.DecodeHeader(buf, cur.sectBack);
      assert Pending() == rest;
    }

    /** Receives one frame; a FIELDS frame comes with all its continuations appended. */
    method RecvInFrame() returns (r: Status)
      requires Valid()
      modifies this, buf, socket, inFrame0, inFrame1
      ensures match old(Receive(Pending(), cur.sectFore, cumulativeInFrames, acknowledged))
        case Failed(e) => r == Fail(e)
        case Got(frame, rest, fore) =>
          && r == Pass && Valid() && cur.sectFore == fore && Pending() == rest
          && inFrame != null && inFrame != old(inFrame)
          && inFrame.efct.from <= inFrame.efct.edge <= cur.sectFore
          && Frame(inFrame.head, Effective(inFrame)) == frame
      ensures r == Pass ==> cumulativeInFrames == old(cumulativeInFrames) + 1 && acknowledged == old(acknowledged)
    {
      r := FetchInFrame();
      if r.Pass? {
        r := SettleInFrame(Fetch(old(Pending()), old(cur.sectFore)).value);
      }
    }

    /** The part of recvInFrame after the payload has been received. */
    method SettleInFrame(ghost a: Arrival) returns (r: Status)
      requires a.Legal() && Holds(a)
      modifies this`cur, this`cumulativeInFrames, buf, socket, inFrame0, inFrame1
      ensures match old(Settle(a, cumulativeInFrames, acknowledged))
        case Failed(e) => r == Fail(e)
        case Got(frame, rest, fore) =>
          && r == Pass && Valid() && cur.sectFore == fore && Pending() == rest
          && inFrame.efct.from <= inFrame.efct.edge <= cur.sectFore
          && Frame(inFrame.head, Effective(inFrame)) == frame
      ensures r == Pass ==> cumulativeInFrames == old(cumulativeInFrames) + 1
    {
      hide Http2Frames.Check, Http2Frames.Coalesce;
      assert inFrame.Payload(buf) == a.payload;
      r := inFrame.Check(buf);
      if r.Fail? { return; }
      ghost var span := Http2Frames.Check(a.head, a.payload).value;
      cumulativeInFrames := cumulativeInFrames + 1;
      if cumulativeInFrames == 10 && !acknowledged {
        return Fail(SettingsTimeout);
      }
      SubSlice(buf[..], a.section.back, a.section.fore, span.from, span.edge);
      assert Effective(inFrame) == a.payload[span.from..span.edge];
      if inFrame.head.kind == FIELDS && !inFrame.head.endFields {
        cur := cur.(contBack := cur.sectFore, contFore := cur.sectFore);
        assert Reached(inFrame) ==
          Progress(a.head, a.payload[span.from..span.edge], a.section.back, a.section.fore, a.section.fore, a.rest);
        r := CoalesceContinuations(inFrame);
      }
    }

    /** The runner of the receiving goroutine: hands over frames until GOAWAY or an error. The managing
        one notes the acknowledgement of our settings when `ackedAfter` frames have come, or never. */
    method ReceiveFrames(ackedAfter: nat) returns (frames: seq<Frame>, end: End)
      requires Valid()
      modifies this, buf, socket, inFrame0, inFrame1
      ensures Session(frames, end) ==
        old(ReceiveAll(Pending(), cur.sectFore, cumulativeInFrames, acknowledged || ackedAfter <= 9))
    {
      hide Http2Frames.Receive, Http2Frames.ReceiveAll, Valid;
      frames := [];
      ghost var byTheTenth := acknowledged || ackedAfter <= 9;
      ghost var all := ReceiveAll(Pending(), cur.sectFore, cumulativeInFrames, byTheTenth);
      NothingYet(all);
      while true
        invariant Valid()
        invariant byTheTenth == (acknowledged || ackedAfter <= 9) || cumulativeInFrames > 9
        invariant all == ReceiveAll(Pending(), cur.sectFore, cumulativeInFrames, byTheTenth).Prepend(frames)
        decreases |Pending()|
      {
        NextFrame(frames, Pending(), cur.sectFore, cumulativeInFrames, byTheTenth);
        AskedOnce(Pending(), cur.sectFore, cumulativeInFrames, acknowledged || cumulativeInFrames >= ackedAfter,
          byTheTenth);
        var r, frame := RecvFrame(ackedAfter);
        if r.Fail? {
          return frames, Broken(r.error);
        }
        if frame.header.kind == GOAWAY {
          return frames, Goaway;
        }
        frames := frames + [frame];
      }
    }

    /** The next frame, as it is handed over. */
    method RecvFrame(ackedAfter: nat) returns (r: Status, frame: Frame)
      requires Valid()
      modifies this, buf, socket, inFrame0, inFrame1
      ensures match old(Receive(Pending(), cur.sectFore, cumulativeInFrames,
        acknowledged || cumulativeInFrames >= ackedAfter))
        case Failed(e) => r == Fail(e)
        case Got(f, rest, fore) => r == Pass && Valid() && cur.sectFore == fore && Pending() == rest && frame == f
      ensures r == Pass ==> cumulativeInFrames == old(cumulativeInFrames) + 1
      ensures r == Pass ==> acknowledged == (old(acknowledged) || old(cumulativeInFrames) >= ackedAfter)
    {
      hide Http2Frames.Receive;
      if cumulativeInFrames >= ackedAfter {
        acknowledged := true;
      }
      r := RecvInFrame();
      frame := Frame(Header(0, 0, 0, false, false, false, false, false), []);
      if r.Pass? {
        frame := Frame(inFrame.head, buf[inFrame.efct.from..inFrame.efct.edge]);
        assert buf[inFrame.efct.from..inFrame.efct.edge] == Effective(inFrame);
      }
    }

    /** A server first takes the 24 bytes of the connection preface off the wire. */
    method ReceiveFramesAsServer(ackedAfter: nat) returns (frames: seq<Frame>, end: End)
      requires Valid() && cur.sectFore == cur.inBufferEdge == 0 && cumulativeInFrames == 0
      modifies this, buf, socket, inFrame0, inFrame1
      ensures Session(frames, end) == ReceiveAsServer(old(socket.unread), old(acknowledged) || ackedAfter <= 9)
    {
      hide Http2Frames.ReceiveAll;
      cur := cur.(sectBack := cur.sectFore);
      assert Pending() == socket.unread;
      var ok := GrowInFrame(24);
      if !ok { return [], Broken(IoError); }
      assert buf[..24] == buf[..][0..24];
      if buf[..24] != PRISM { return [], Broken(ProtocolError); }
      frames, end := ReceiveFrames(ackedAfter);
    }
  }

  /** The cursors after the slide of _growContinuationFrame. */
  function SlidOverHoles(c: Cursors): Cursors
    requires c.sectBack <= c.sectFore && c.contBack <= c.inBufferEdge <= BUFFER_SIZE
    requires c.contBack <= c.contFore && c.sectFore <= c.contBack
  {
    var size := c.sectFore - c.sectBack;
    Cursors(size + (c.inBufferEdge - c.contBack), 0, size, size, size + (c.contFore - c.contBack))
  }

  /** The first copy moves the payload to the front, and stays before what the second one reads. */
  lemma PayloadMoved(was: seq<byte>, c: Cursors, from: nat, edge: nat, mid: seq<byte>)
    requires |was| == BUFFER_SIZE && c.sectBack <= from <= edge <= c.sectFore <= c.contBack <= c.inBufferEdge <= |was|
    requires mid == Pasted(was, 0, was[c.sectBack..c.sectFore])
    ensures mid[c.contBack..c.inBufferEdge] == was[c.contBack..c.inBufferEdge]
    ensures mid[from - c.sectBack..edge - c.sectBack] == was[from..edge]
  {
    hide Pasted;
    var payload := was[c.sectBack..c.sectFore];
    PastedSlice(was, 0, payload, c.contBack, c.inBufferEdge);
    PastedSlice(was, 0, payload, from - c.sectBack, edge - c.sectBack);
    SubSlice(was, c.sectBack, c.sectFore, from - c.sectBack, edge - c.sectBack);
  }

  /** The second copy puts the rest right behind it. */
  lemma RestMoved(mid: seq<byte>, c: Cursors, from: nat, edge: nat, now: seq<byte>)
    requires |mid| == BUFFER_SIZE && c.sectBack <= from <= edge <= c.sectFore <= c.contBack <= c.inBufferEdge <= |mid|
    requires now == Pasted(mid, c.sectFore - c.sectBack, mid[c.contBack..c.inBufferEdge])
    ensures
      var size, rest := c.sectFore - c.sectBack, c.inBufferEdge - c.contBack;
      && now[size..size + rest] == mid[c.contBack..c.inBufferEdge]
      && now[from - c.sectBack..edge - c.sectBack] == mid[from - c.sectBack..edge - c.sectBack]
  {
    hide Pasted;
    var size, rest := c.sectFore - c.sectBack, mid[c.contBack..c.inBufferEdge];
    PastedSlice(mid, size, rest, size, size + |rest|);
    PastedSlice(mid, size, rest, from - c.sectBack, edge - c.sectBack);
    assert rest[0..|rest|] == rest;
  }
}
