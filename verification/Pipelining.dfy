// A pipelined HTTP/1.1 connection on the server side: how the bytes that were received beyond one request
// are handed over to the next (server1Request.tidyInput, _httpIn_.onEnd and the content receivers between).

module Pipelining {
  import opened Bytes
  import opened Numbers
  import opened Sockets
  import opened Http1Windows
  import opened FieldLines
  import opened Chunked

  /** Small contents, of up to 64K-1 bytes, are received in one buffer. */
  const SMALL: nat := 65535

  /** How the end of a content is told. */
  datatype Mode = NoContent | Sized(size: nat) | Vague

  /** What is thought of the next byte of a request line, and what is put in its place: scheme and host are
      lowered where they stand. */
  datatype Look = Amid(kept: byte) | Complete(kept: byte) | Refused

  /** What the header lines make of the request. */
  datatype Examined = Accepted(mode: Mode) | Rejected

  /** How heads are read: the request line and the checks on the lines behind it can be anything, the lines
      themselves are header lines, at most `room` of them. */
  datatype Parser = Parser(line: (seq<byte>, byte) -> Look, examine: (seq<byte>, seq<Line>) -> Examined, room: nat)

  datatype LineScan = LineEnds(line: seq<byte>) | NoRequestLine

  /** The request line of which `done` is in the input; it must fit in the largest input, and something must
      come behind it. */
  function ScanRequestLine(parser: Parser, w: seq<byte>, done: seq<byte>): (r: LineScan)
    requires |done| <= |w|
    ensures r.LineEnds? ==> |done| < |r.line| < |w| && |r.line| < K16
    decreases |w| - |done|
  {
    var k := |done|;
    if k >= K16 || k == |w| then NoRequestLine else
    match parser.line(done, w[k])
    case Amid(b) => ScanRequestLine(parser, w, done + [b])
    case Refused => NoRequestLine
    case Complete(b) => if k + 1 == K16 || k + 1 == |w| then NoRequestLine else LineEnds(done + [b])
  }

  datatype HeadScan = HeadScan(mode: Mode, line: seq<byte>, lines: seq<Line>, size: nat) | NoHead

  /** The head at the start of w: the request line and the header section. */
  function ScanHead(parser: Parser, w: seq<byte>): (r: HeadScan)
    ensures r.HeadScan? ==> 0 < |r.line| < r.size <= |w|
  {
    match ScanRequestLine(parser, w, [])
    case NoRequestLine => NoHead
    case LineEnds(line) =>
      match ParseSection(w, K16, |line|, parser.room) {
        case Broken(_) => NoHead
        case Lines(lines, end) =>
          match parser.examine(line, lines)
          case Rejected => NoHead
          case Accepted(mode) => HeadScan(mode, line, lines, end + 1)
      }
  }

  /** A request, as the program gets it. */
  datatype Request = Request(line: seq<byte>, lines: seq<Line>, content: seq<byte>)

  datatype Message = Message(request: Request, rest: seq<byte>) | NoMessage

  datatype Part = Part(content: seq<byte>, rest: seq<byte>) | NoPart

  /** The content at the start of t, and the bytes behind it. */
  function ContentOf(mode: Mode, t: seq<byte>, limits: Limits): Part {
    match mode
    case NoContent => Part([], t)
    case Sized(n) => if |t| < n then NoPart else Part(t[..n], t[n..])
    case Vague =>
      match Decode(t, limits)
      case Bad => NoPart
      case Body(content, _, rest) => Part(content, rest)
  }

  /** The request at the start of w, and the bytes behind it. */
  function Next(parser: Parser, w: seq<byte>, limits: Limits): Message {
    match ScanHead(parser, w)
    case NoHead => NoMessage
    case HeadScan(mode, line, lines, size) =>
      match ContentOf(mode, w[size..], limits)
      case NoPart => NoMessage
      case Part(content, rest) => Message(Request(line, lines, content), rest)
  }

  /** The first requests on a connection, up to n of them. */
  function Requests(parser: Parser, w: seq<byte>, limits: Limits, n: nat): (r: seq<Message>)
    ensures |r| <= n
    ensures forall k | 0 <= k < |r| :: r[k].Message?
    decreases n
  {
    if n == 0 then [] else
    match Next(parser, w, limits)
    case NoMessage => []
    case Message(request, rest) => [Message(request, rest)] + Requests(parser, rest, limits, n - 1)
  }

  class Connection {
    const socket: Socket
    const parser: Parser
    const limits: Limits
    var input: Window
    var contentSize: int
    var contentReceived: bool
    var receivedSize: int
    var immeFrom: nat
    var immeEdge: nat
    var contentText: seq<byte>
    var bodyUsed: bool
    var bodyWindow: Window
    var overChunked: bool

    constructor (socket: Socket, parser: Parser, limits: Limits)
      requires limits.max < I64_LIMIT
      ensures this.socket == socket && this.parser == parser && this.limits == limits
      ensures Ready() && input.Tail() == socket.unread && fresh(input) && fresh(input.buf)
    {
      this.socket, this.parser, this.limits := socket, parser, limits;
      var window := new Window(socket, 0);
      input := window;
      contentSize, contentReceived, receivedSize := -1, false, 0;
      immeFrom, immeEdge, contentText := 0, 0, [];
      bodyUsed, overChunked := false, false;
      bodyWindow := window;
      new;
      assert input.buf[..][0..0] == [];
    }

    /** Between two requests: what was received beyond the last one stands at the start of the input. */
    ghost predicate Ready()
      reads this, input
    {
      input.socket == socket && input.Valid() && !input.inBody && input.cur.fore == 0 && limits.max < I64_LIMIT
    }

    /** recvHead: the request line, the header lines behind it, and what they make of the request. */
    method RecvHead() returns (ok: bool, mode: Mode, line: seq<byte>, lines: seq<Line>)
      requires Ready()
      modifies input`buf, input`cur, input.buf, socket
      ensures input.buf == old(input.buf) || fresh(input.buf)
      ensures
        var w := old(input.Tail());
        match ScanHead(parser, w)
        case NoHead => !ok
        case HeadScan(m, l, ls, size) =>
          && ok && mode == m && line == l && lines == ls
          && input.Valid() && input.cur.fore == size && input.Tail() == w[size..]
    {
      hide ScanRequestLine, ParseSection, DenotesAll;
      ghost var w := input.Tail();
      mode, lines := NoContent, [];
      ok, line := RecvRequestLine();
      if !ok {
        return;
      }
      var r, pairs := input.RecvHeaderLines(w, parser.room);
      if r != Fine {
        ok := false;
        return;
      }
      lines := ReadLines(pairs, ParseSection(w, K16, |line|, parser.room).lines);
      var examined := parser.examine(line, lines);
      if examined.Rejected? {
        ok := false;
      } else {
        mode := examined.mode;
      }
    }

    /** What the positions in the input hold. */
    method ReadLines(pairs: seq<Pair>, ghost lines: seq<Line>) returns (r: seq<Line>)
      requires input.Valid() && DenotesAll(input.Parsed(), pairs, lines)
      ensures r == lines
    {
      r := [];
      for i := 0 to |pairs|
        invariant r == lines[..i]
      {
        var p := pairs[i];
        assert Denotes(input.Parsed(), p, lines[i]);
        PrefixSlice(input.buf, input.cur.fore, p.nameFrom, p.nameEdge);
        PrefixSlice(input.buf, input.cur.fore, p.valueFrom, p.valueEdge);
        r := r + [Line(input.buf[p.nameFrom..p.nameEdge], input.buf[p.valueFrom..p.valueEdge], p.nameHash)];
      }
    }

    /** _recvControlData: steps over bytes until the request line is complete, and asks for the next one. */
    method RecvRequestLine() returns (ok: bool, line: seq<byte>)
      requires Ready()
      modifies input`buf, input`cur, input.buf, socket
      ensures input.buf == old(input.buf) || fresh(input.buf)
      ensures
        var w := old(input.Tail());
        match ScanRequestLine(parser, w, [])
        case NoRequestLine => !ok
        case LineEnds(l) => ok && input.On(w) && input.cur.fore == |l| && line == l
    {
      ghost var w := input.Tail();
      assert input.Done() == [];
      line := [];
      while true
        invariant input.buf == old(input.buf) || fresh(input.buf)
        invariant AmidRequestLine(w) && !input.inBody
        invariant ScanRequestLine(parser, w, []) == ScanRequestLine(parser, w, input.Done())
        decreases |w| - input.cur.fore
      {
        ok := MoreInput(w);
        if !ok {
          return;
        }
        var look := StepHead(w);
        if look.Refused? {
          return false, [];
        }
        if look.Complete? {
          line := input.buf[..input.cur.fore];
          assert line == input.Done();
          ok := MoreInput(w);
          return;
        }
      }
    }

    /** Some of the request line has been parsed. */
    ghost predicate AmidRequestLine(w: seq<byte>)
      reads this, input, input.buf, socket, input.socket
    {
      && input.socket == socket && input.Valid() && input.cur.back == 0 && input.cur.fore <= |w|
      && input.Tail() == w[input.cur.fore..]
    }

    /** There must be one more byte in the input. */
    method MoreInput(ghost w: seq<byte>) returns (ok: bool)
      requires AmidRequestLine(w) && !input.inBody
      modifies input`buf, input`cur, input.buf, socket
      ensures input.buf == old(input.buf) || fresh(input.buf)
      ensures ok == (old(input.cur.fore) < |w| && old(input.cur.fore) < K16)
      ensures ok ==>
        input.On(w) && !input.inBody && input.cur.fore == old(input.cur.fore) && input.Done() == old(input.Done())
    {
      ok := true;
      if input.cur.fore == input.cur.edge {
        assert input.Tail() == socket.unread;
        var r := input.GrowHead();
        ok := r == Fine;
      }
    }

    /** One more byte of the request line, and what is put in its place. */
    method StepHead(ghost w: seq<byte>) returns (look: Look)
      requires input.socket == socket && input.On(w) && !input.inBody
      modifies input`cur, input.buf
      ensures AmidRequestLine(w) && input.cur.fore == old(input.cur.fore) + 1
      ensures look == parser.line(old(input.Done()), w[old(input.cur.fore)])
      ensures !look.Refused? ==> input.Done() == old(input.Done()) + [look.kept]
    {
      input.AtHand(w);
      var k := input.cur.fore;
      ghost var tail := input.Tail();
      assert input.buf[..k] == input.Done();
      look := parser.line(input.buf[..k], input.buf[k]);
      if !look.Refused? {
        input.Replace(look.kept);
      }
      assert input.Tail()[1..] == tail[1..] == w[k + 1..];
      input.StepOver();
    }

    ghost function Imme(): seq<byte>
      requires immeFrom <= immeEdge <= input.buf.Length
      reads this, input, input.buf
    {
      input.buf[immeFrom..immeEdge]
    }

    /** tidyInput: decides what in the input belongs to this request and what to the next one. */
    method TidyInput(mode: Mode)
      requires input.socket == socket && input.Valid() && !input.inBody && input.cur.fore > 0 && !overChunked
      modifies this, input`cur
      ensures input == old(input) && bodyWindow == old(bodyWindow) && !overChunked
      ensures !contentReceived ==>
        Owed() && contentText == [] && !bodyUsed && Imme() + socket.unread == old(input.Tail()) &&
          contentSize == (if mode.Sized? then mode.size else -2)
      ensures contentReceived ==>
        && var n := if mode.Sized? then mode.size else 0;
        && |old(input.Tail())| >= n && contentText == old(input.Tail())[..n] && HandsOver(old(input.Tail())[n..])
        && (mode.Sized? ==> contentSize == receivedSize == n && !bodyUsed && immeFrom <= immeEdge <= input.buf.Length)
      ensures mode.NoContent? ==> contentReceived
      ensures mode.Vague? ==> !contentReceived
      ensures mode.Sized? ==> contentReceived == (old(input.cur.edge - input.cur.fore) >= mode.size)
    {
      ghost var t := input.Tail();
      contentReceived, receivedSize, contentText := false, 0, [];
      immeFrom, immeEdge, bodyUsed := 0, 0, false;
      var fore, edge := input.cur.fore, input.cur.edge;
      assert t[..0] == [] && t[0..] == t;
      assert t == input.buf[fore..edge] + socket.unread by {
        assert input.buf[fore..edge] == input.buf[..][fore..edge];
      }
      match mode {
        case NoContent =>
          contentSize := -1;
          contentReceived := true;
          if fore == edge {
            input.cur := Cursors(0, 0, 0);
            assert input.Tail() == t;
          }
        case Sized(n) =>
          TidySized(n);
        case Vague =>
          contentSize := -2;
          immeFrom, immeEdge := fore, edge;
      }
    }

    method TidySized(n: nat)
      requires input.socket == socket && input.Valid() && !input.inBody && input.cur.fore > 0
      modifies this`contentSize, this`contentReceived, this`receivedSize, this`contentText, this`immeFrom,
        this`immeEdge, input`cur
      ensures input.Valid() && immeFrom <= immeEdge <= input.buf.Length && contentSize == n
      ensures contentReceived == (old(input.cur.edge - input.cur.fore) >= n || old(contentReceived))
      ensures input.cur.fore == 0 ==> input.cur.edge == 0
      ensures old(input.cur.edge - input.cur.fore) >= n ==>
        && |old(input.Tail())| >= n && contentText == old(input.Tail())[..n] && input.Tail() == old(input.Tail())[n..]
        && receivedSize == n
      ensures old(input.cur.edge - input.cur.fore) < n ==>
        && contentText == old(contentText) && immeEdge - immeFrom < n && receivedSize == old(receivedSize)
        && Imme() + socket.unread == old(input.Tail()) && input.cur == Cursors(0, 0, 0)
    {
      var fore, edge := input.cur.fore, input.cur.edge;
      contentSize := n;
      immeFrom, immeEdge := fore, edge;
      SliceOf(input.buf, fore, edge);
      if edge - fore <= n {
        input.cur := Cursors(0, 0, 0);
      }
      if edge - fore >= n {
        contentReceived := true;
        if edge - fore > n {
          immeEdge := fore + n;
          input.cur := Cursors(0, fore + n, edge);
        }
        receivedSize := n;
        contentText := input.buf[fore..fore + n];
        SliceOf(input.buf, fore, fore + n);
        InputSplit(input.buf[..], fore, edge, n, socket.unread);
      }
    }

    // ----- Receiving a content -----

    /** _readSizedContent: what was received with the head first, then up to 16K a time. Asked again
        after the end, it slices a text that is not there, and fails. */
    method ReadSized() returns (data: seq<byte>, end: bool, ok: bool)
      requires input.socket == socket && immeFrom <= immeEdge <= input.buf.Length
      requires 0 <= receivedSize <= contentSize
      requires immeFrom < immeEdge && receivedSize < contentSize ==>
        receivedSize == 0 && immeEdge - immeFrom < contentSize
      modifies this`receivedSize, this`immeFrom, this`immeEdge, this`bodyUsed, socket
      ensures immeFrom <= immeEdge <= input.buf.Length
      ensures end == (ok && old(receivedSize) == contentSize)
      ensures end ==>
        (old(bodyUsed) && data == []) ||
          (!old(bodyUsed) && contentSize <= |contentText| && data == contentText[..contentSize])
      ensures end ==> !bodyUsed && socket.unread == old(socket.unread) && unchanged(`receivedSize)
      ensures end ==> Imme() == old(Imme())
      ensures ok && !end ==>
        && data != [] && receivedSize == old(receivedSize) + |data| <= contentSize && bodyUsed
        && Imme() == [] && data + socket.unread == old(Imme() + socket.unread)
      ensures !ok ==> (
        || |old(Imme() + socket.unread)| < contentSize - old(receivedSize)
        || (old(receivedSize) == contentSize && !old(bodyUsed) && |contentText| < contentSize))
    {
      if receivedSize == contentSize {
        if !bodyUsed && |contentText| < receivedSize {
          return [], false, false;
        }
        data := if bodyUsed then [] else contentText[..receivedSize];
        bodyUsed := false;
        return data, true, true;
      }
      bodyUsed := true;
      if immeFrom < immeEdge {
        data := input.buf[immeFrom..immeEdge];
        receivedSize := |data|;
        immeFrom, immeEdge := 0, 0;
        return data, false, true;
      }
      var readSize := if contentSize - receivedSize < K16 then contentSize - receivedSize else K16;
      data, ok := socket.ReadFull(readSize);
      if ok {
        receivedSize := receivedSize + |data|;
      }
      end := false;
    }

    /** Reads a sized content piece by piece, to its end. */
    method ReadSizedAll() returns (content: seq<byte>, ok: bool)
      requires input.socket == socket && immeFrom <= immeEdge <= input.buf.Length
      requires 0 <= receivedSize < contentSize &&
        (immeFrom < immeEdge ==> receivedSize == 0 && immeEdge - immeFrom < contentSize)
      modifies this`receivedSize, this`immeFrom, this`immeEdge, this`bodyUsed, socket
      ensures
        var t, n := old(Imme() + socket.unread), contentSize - old(receivedSize);
        && ok == (|t| >= n)
        && (ok ==> content == t[..n] && socket.unread == t[n..])
        && (ok ==> receivedSize == contentSize && immeFrom == immeEdge <= input.buf.Length && !bodyUsed)
    {
      content := [];
      ghost var t, n, first := Imme() + socket.unread, contentSize - receivedSize, receivedSize;
      while true
        invariant immeFrom <= immeEdge <= input.buf.Length
        invariant first <= receivedSize <= contentSize &&
          (immeFrom < immeEdge ==> receivedSize == 0 && immeEdge - immeFrom < contentSize)
        invariant receivedSize == first + |content| && content + (Imme() + socket.unread) == t
        invariant receivedSize == contentSize ==> bodyUsed && immeFrom == immeEdge
        decreases contentSize - receivedSize
      {
        var data, end;
        ghost var before := Imme() + socket.unread;
        data, end, ok := ReadSized();
        if !ok {
          return;
        }
        if end {
          assert Imme() == [];
          assert t == content + socket.unread;
          return;
        }
        assert content + before == content + data + socket.unread;
        content := content + data;
      }
    }

    /** The first branch of _recvContent: a small content is received in one go. */
    method RecvSmall() returns (content: seq<byte>, ok: bool)
      requires input.socket == socket && immeFrom <= immeEdge <= input.buf.Length && immeEdge - immeFrom <= contentSize
      modifies this`receivedSize, this`immeFrom, this`immeEdge, socket
      ensures
        var t := old(Imme() + socket.unread);
        && ok == (|t| >= contentSize)
        && (ok ==> content == t[..contentSize] && socket.unread == t[contentSize..] && receivedSize == contentSize)
    {
      receivedSize := immeEdge - immeFrom;
      content := input.buf[immeFrom..immeEdge];
      if receivedSize > 0 {
        immeFrom, immeEdge := 0, 0;
      }
      ghost var imme, unread := content, socket.unread;
      var data;
      data, ok := socket.ReadFull(contentSize - receivedSize);
      if ok {
        receivedSize := receivedSize + |data|;
        content := content + data;
        TakeBeyond(imme, unread, contentSize);
      }
    }

    /** The other branch, for a vague content: the chunked reader decides where it ends. */
    method RecvVague() returns (content: seq<byte>, ok: bool)
      requires input.socket == socket && input.Valid() && !input.inBody && limits.max < I64_LIMIT
      requires immeFrom <= immeEdge <= input.buf.Length
      modifies this, input`cur, socket
      ensures input == old(input) && unchanged(`contentSize, `contentReceived)
      ensures
        var o := Decode(old(Imme() + socket.unread), limits);
        && ok == o.Body?
        && (ok ==> content == o.content && HandsOver(o.rest))
      ensures fresh(bodyWindow) && fresh(bodyWindow.buf)
    {
      hide Decode, Resume, Denotes, DenotesAll, HandsOver, Outcome.Prepend;
      var reader := OpenBody();
      var pairs;
      ok, content, pairs := reader.ReadAll();
      if ok {
        EndVague(bodyWindow.Tail());
      }
    }

    /** The body window takes over what came behind the head. */
    method OpenBody() returns (reader: Reader)
      requires input.socket == socket && input.Valid() && limits.max < I64_LIMIT
      requires immeFrom <= immeEdge <= input.buf.Length
      modifies this`bodyWindow, this`immeFrom, this`immeEdge
      ensures fresh(reader) && fresh(reader.window) && fresh(reader.window.buf)
      ensures bodyWindow == reader.window && bodyWindow.socket == socket
      ensures reader.Ready() && reader.Ahead() == Decode(old(Imme() + socket.unread), limits)
    {
      hide Decode, Resume;
      reader := new Reader(socket, input.buf[immeFrom..immeEdge], [], limits.space, limits.room, limits.max);
      bodyWindow := reader.window;
      immeFrom, immeEdge := 0, 0;
    }

    /** What the chunked receiver does to the input at its end. */
    method EndVague(ghost rest: seq<byte>)
      requires input.socket == socket && input.Valid() && !input.inBody
      requires bodyWindow.socket == socket && bodyWindow.Valid() && bodyWindow.inBody
      requires bodyWindow != input && 0 < bodyWindow.cur.fore && bodyWindow.Tail() == rest
      modifies this`overChunked, input`cur
      ensures HandsOver(rest)
    {
      overChunked := bodyWindow.cur.fore < bodyWindow.cur.edge;
      input.cur := Cursors(0, 0, 0);
      if !overChunked {
        EmptySlice(bodyWindow.buf[..], bodyWindow.cur.fore, socket.unread);
        EmptySlice(input.buf[..], 0, socket.unread);
      }
    }

    /** The bytes for the next request are these, some of them already received. */
    ghost predicate HandsOver(rest: seq<byte>)
      reads this, input, input.buf, socket, bodyWindow, bodyWindow.buf, bodyWindow.socket
    {
      && input.socket == socket && input.Valid() && !input.inBody
      && (overChunked ==>
        && bodyWindow.socket == socket && bodyWindow.Valid() && bodyWindow.inBody
        && 0 < bodyWindow.cur.fore && bodyWindow.Tail() == rest)
      && (!overChunked ==> input.Tail() == rest && (input.cur.fore == 0 ==> input.cur.edge == 0))
    }

    /** _recvContent: receives a content that has not been received, to keep or to drop it. */
    method RecvContent() returns (content: seq<byte>, ok: bool)
      requires Owed() && limits.max < I64_LIMIT
      modifies this, input`cur, socket
      ensures input == old(input)
      ensures contentSize >= 0 ==>
        var t := old(Imme() + socket.unread);
        && ok == (|t| >= contentSize)
        && (ok ==> content == t[..contentSize] && HandsOver(t[contentSize..]))
      ensures contentSize < 0 ==>
        var o := Decode(old(Imme() + socket.unread), limits);
        && ok == o.Body?
        && (ok ==> content == o.content && HandsOver(o.rest))
      ensures contentSize == old(contentSize)
      ensures bodyWindow == old(bodyWindow) || (fresh(bodyWindow) && fresh(bodyWindow.buf))
    {
      hide Decode, Denotes;
      if contentSize < 0 {
        content, ok := RecvVague();
      } else {
        if contentSize <= SMALL {
          content, ok := RecvSmall();
        } else {
          content, ok := ReadSizedAll();
        }
        EmptySlice(input.buf[..], 0, socket.unread);
      }
    }

    /** There is a content and it has not been received. */
    ghost predicate Owed()
      reads this, input
    {
      && input.socket == socket && input.Valid() && !input.inBody && !overChunked
      && immeFrom <= immeEdge <= input.buf.Length
      && (contentSize == -2 ||
           (contentSize > 0 && receivedSize == 0 && immeEdge - immeFrom < contentSize && input.cur == Cursors(0, 0, 0)))
    }

    /** onEnd: slides what belongs to the next request to the start of the input. */
    method OnEnd(ghost rest: seq<byte>)
      requires HandsOver(rest) && limits.max < I64_LIMIT
      modifies this, input, input.buf, bodyWindow, bodyWindow.buf
      ensures Ready() && input.Tail() == rest && !overChunked && bodyWindow == old(bodyWindow)
      ensures bodyWindow.buf == old(bodyWindow.buf)
      ensures input == old(input) || input == old(bodyWindow)
      ensures input.buf == old(input.buf) || input.buf == old(bodyWindow.buf)
    {
      if overChunked {
        input := bodyWindow;
        input.SlideToNext();
        overChunked := false;
      } else if input.cur.fore != 0 {
        input.SlideToNext();
      }
      contentSize, contentReceived, receivedSize, bodyUsed := -1, false, 0, false;
      immeFrom, immeEdge, contentText := 0, 0, [];
    }

    /** Behind the head: decides what belongs to the request, and receives the rest of its content. */
    method TakeContent(mode: Mode) returns (content: seq<byte>, ok: bool)
      requires input.socket == socket && input.Valid() && !input.inBody && input.cur.fore > 0 && !overChunked
      requires limits.max < I64_LIMIT
      modifies this, input`cur, socket
      ensures input == old(input)
      ensures bodyWindow == old(bodyWindow) || (fresh(bodyWindow) && fresh(bodyWindow.buf))
      ensures
        match ContentOf(mode, old(input.Tail()), limits)
        case NoPart => !ok
        case Part(c, rest) => ok && content == c && HandsOver(rest)
    {
      hide Decode, HandsOver;
      TidyInput(mode);
      if contentReceived {
        content, ok := contentText, true;
      } else {
        content, ok := RecvContent();
      }
    }

    /** One request: its head, and its content, taken by the program or dropped at the end. What is left
        for the next request is exactly what stands behind it on the wire. */
    method Exchange() returns (request: Request, ok: bool)
      requires Ready() && !overChunked
      modifies this, input, input.buf, bodyWindow, bodyWindow.buf, socket
      ensures input == old(input) || input == old(bodyWindow) || fresh(input)
      ensures input.buf == old(input.buf) || input.buf == old(bodyWindow.buf) || fresh(input.buf)
      ensures bodyWindow == old(bodyWindow) || fresh(bodyWindow)
      ensures bodyWindow.buf == old(bodyWindow.buf) || fresh(bodyWindow.buf)
      ensures ok == Next(parser, old(input.Tail()), limits).Message?
      ensures ok ==>
        Ready() && !overChunked && Message(request, input.Tail()) == Next(parser, old(input.Tail()), limits)
    {
      hide ScanHead, ContentOf, HandsOver;
      ghost var w := input.Tail();
      var mode, line, lines, content;
      ok, mode, line, lines := RecvHead();
      request := Request(line, lines, []);
      if !ok {
        return;
      }
      content, ok := TakeContent(mode);
      if ok {
        request := Request(line, lines, content);
        OnEnd(Next(parser, w, limits).rest);
      }
    }

    /** serve: one request after the other, until the head or the body of one cannot be received, or the
        program has had enough of them. */
    method Serve(n: nat) returns (requests: seq<Request>, open: bool)
      requires Ready() && !overChunked
      modifies this, input, input.buf, bodyWindow, bodyWindow.buf, socket
      ensures
        var served := Requests(parser, old(input.Tail()), limits, n);
        && |requests| == |served| && open == (|served| == n)
        && (forall k | 0 <= k < |served| :: requests[k] == served[k].request)
        && (open ==> Ready() && input.Tail() == if n == 0 then old(input.Tail()) else served[n - 1].rest)
    {
      hide Next, Requests, ServedSoFar;
      requests, open := [], true;
      ghost var w := input.Tail();
      ghost var served: seq<Message> := [];
      NothingServed(parser, w, limits, n);
      while |requests| < n
        invariant input == old(input) || input == old(bodyWindow) || fresh(input)
        invariant input.buf == old(input.buf) || input.buf == old(bodyWindow.buf) || fresh(input.buf)
        invariant bodyWindow == old(bodyWindow) || fresh(bodyWindow)
        invariant bodyWindow.buf == old(bodyWindow.buf) || fresh(bodyWindow.buf)
        invariant Ready() && !overChunked && |requests| == |served| <= n && open
        invariant ServedSoFar(parser, w, limits, n, requests, served, input.Tail())
      {
        ghost var before := input.Tail();
        var request, ok := Exchange();
        ServedMore(parser, w, limits, n, requests, served, before);
        if !ok {
          return requests, false;
        }
        requests, served := requests + [request], served + [Next(parser, before, limits)];
      }
      AllServed(parser, w, limits, n, requests, served, input.Tail());
    }

    /** A sized content that is passed on while it is read is not marked as received, so another one is
        to be received and dropped behind it. That is harmless exactly when the content came with the head:
        else a small one takes bytes of the next request, and a large one slices a text that is not there. */
    method ExchangeStreamed(n: nat) returns (content: seq<byte>, ok: bool, immediate: bool)
      requires input.socket == socket && input.Valid() && !input.inBody && input.cur.fore > 0 && !overChunked
      requires limits.max < I64_LIMIT
      modifies this, input, input.buf, bodyWindow, bodyWindow.buf, socket
      ensures immediate == (old(input.cur.edge - input.cur.fore) >= n)
      ensures ok ==> Ready() && |old(input.Tail())| >= n
      ensures |old(input.Tail())| >= n ==>
        && content == old(input.Tail())[..n]
        && (ok && input.Tail() == old(input.Tail())[n..] <==> immediate)
    {
      ghost var t := input.Tail();
      immediate := input.cur.edge - input.cur.fore >= n;
      TidyInput(Sized(n));
      if contentReceived {
        content := StreamImmediate(t[n..]);
        ok := true;
      } else {
        content, ok := ReadSizedAll();
        if ok {
          ok := DropAgain(t[n..]);
        }
      }
    }

    /** A content that came with the head is delivered with its end. */
    method StreamImmediate(ghost rest: seq<byte>) returns (content: seq<byte>)
      requires HandsOver(rest) && !overChunked && limits.max < I64_LIMIT
      requires contentReceived && 0 <= contentSize == receivedSize == |contentText| && !bodyUsed &&
        immeFrom <= immeEdge <= input.buf.Length
      modifies this, input, input.buf, bodyWindow, bodyWindow.buf, socket
      ensures Ready() && input.Tail() == rest && content == old(contentText)
    {
      var end, ok;
      content, end, ok := ReadSized();
      OnEnd(rest);
    }

    /** _dropContent, behind a content that has been read to its end. */
    method DropAgain(ghost rest: seq<byte>) returns (ok: bool)
      requires input.socket == socket && input.Valid() && !input.inBody && input.cur == Cursors(0, 0, 0) && !overChunked
      requires 0 < contentSize == receivedSize && immeFrom == immeEdge <= input.buf.Length && !bodyUsed &&
        contentText == []
      requires socket.unread == rest && limits.max < I64_LIMIT
      modifies this, input, input.buf, bodyWindow, bodyWindow.buf, socket
      ensures ok == (old(contentSize) <= SMALL && |rest| >= old(contentSize))
      ensures ok ==> Ready() && input.Tail() == rest[old(contentSize)..]
    {
      ghost var n := contentSize;
      if contentSize <= SMALL {
        var content;
        content, ok := RecvSmall();
        if ok {
          EmptySlice(input.buf[..], 0, socket.unread);
          OnEnd(rest[n..]);
        }
      } else {
        var content, end;
        content, end, ok := ReadSized();
      }
    }
  }

  /** Those requests have been served, and the next one starts at `tail`. */
  ghost predicate ServedSoFar(parser: Parser, w: seq<byte>, limits: Limits, n: nat,
                              requests: seq<Request>, served: seq<Message>, tail: seq<byte>)
  {
    && |requests| == |served| <= n
    && (forall k | 0 <= k < |served| :: served[k].Message? && requests[k] == served[k].request)
    && Requests(parser, w, limits, n) == served + Requests(parser, tail, limits, n - |served|)
    && tail == if served == [] then w else served[|served| - 1].rest
  }

  lemma NothingServed(parser: Parser, w: seq<byte>, limits: Limits, n: nat)
    ensures ServedSoFar(parser, w, limits, n, [], [], w)
  {
    hide Requests;
    assert [] + Requests(parser, w, limits, n) == Requests(parser, w, limits, n);
  }

  lemma AllServed(parser: Parser, w: seq<byte>, limits: Limits, n: nat, requests: seq<Request>, served: seq<Message>,
    tail: seq<byte>)
    requires ServedSoFar(parser, w, limits, n, requests, served, tail) && |served| == n
    ensures Requests(parser, w, limits, n) == served && |requests| == |served|
    ensures forall k | 0 <= k < |served| :: requests[k] == served[k].request
    ensures tail == if n == 0 then w else served[n - 1].rest
  {
    assert Requests(parser, tail, limits, 0) == [];
  }

  lemma ServedMore(parser: Parser, w: seq<byte>, limits: Limits, n: nat, requests: seq<Request>, served: seq<Message>,
    tail: seq<byte>)
    requires ServedSoFar(parser, w, limits, n, requests, served, tail) && |served| < n
    ensures
      var m := Next(parser, tail, limits);
      if m.NoMessage? then
        && Requests(parser, w, limits, n) == served && |requests| == |served|
        && forall k | 0 <= k < |served| :: requests[k] == served[k].request
      else ServedSoFar(parser, w, limits, n, requests + [m.request], served + [m], m.rest)
  {
    hide Next;
    var m := Next(parser, tail, limits);
    if m.NoMessage? {
      assert Requests(parser, tail, limits, n - |served|) == [];
      assert served + [] == served;
    } else {
      var later := Requests(parser, m.rest, limits, n - |served| - 1);
      assert Requests(parser, tail, limits, n - |served|) == [m] + later;
      assert served + ([m] + later) == (served + [m]) + later;
    }
  }

  lemma PrefixSlice(a: array<byte>, edge: nat, from: nat, to: nat)
    requires from <= to <= edge <= a.Length
    ensures a[from..to] == a[..][..edge][from..to]
  {
  }

  lemma TakeBeyond(a: seq<byte>, b: seq<byte>, n: nat)
    requires |a| <= n <= |a| + |b|
    ensures (a + b)[..n] == a + b[..n - |a|] && (a + b)[n..] == b[n - |a|..]
  {
  }

  lemma EmptySlice(s: seq<byte>, k: nat, t: seq<byte>)
    requires k <= |s|
    ensures s[k..k] + t == t
  {
  }

  lemma SliceOf(a: array<byte>, from: nat, edge: nat)
    requires from <= edge <= a.Length
    ensures a[from..edge] == a[..][from..edge]
  {
  }

  lemma InputSplit(buf: seq<byte>, fore: nat, edge: nat, n: nat, unread: seq<byte>)
    requires fore <= fore + n <= edge <= |buf|
    ensures
      var t := buf[fore..edge] + unread;
      && t[..n] == buf[fore..fore + n] && t[n..] == buf[fore + n..edge] + unread
      && (fore + n == edge ==> t[n..] == [] + unread)
  {
  }
}
