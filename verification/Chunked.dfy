// The chunked transfer coding (section 7.1 of RFC 9112): what a chunked body on the wire means, and the
// resumable receiver that delivers it piece by piece.

module Chunked {
  import opened Bytes
  import opened Numbers
  import opened Sockets
  import opened FieldLines
  import opened Http1Windows

  // ----- What a chunked body means -----

  datatype SizeDigits = SizeDigits(size: nat, pos: nat) | NoDigits

  /** chunk-size: at most 15 digits, and none at all is read as 0. */
  function ScanSize(w: seq<byte>, q: nat, size: nat): (r: SizeDigits)
    requires q < |w|
    ensures r.SizeDigits? ==> q <= r.pos < |w| && !IsDigit(w[r.pos], 16)
    decreases |w| - q
  {
    if !IsDigit(w[q], 16) then SizeDigits(size, q)
    else if q + 1 >= 16 then NoDigits
    else
      match Move(w, K16, q)
      case Stop(_) => NoDigits
      case At(n) => ScanSize(w, n, size * 16 + DigitValue(w[q], 16))
  }

  /** chunk-ext: everything up to the line feed. */
  function ScanExt(w: seq<byte>, q: nat): (r: Scan)
    requires q < |w|
    ensures r.At? ==> q <= r.pos < |w| && w[r.pos] == LF
    decreases |w| - q
  {
    if w[q] == LF then At(q) else
    match Move(w, K16, q)
    case Stop(why) => Stop(why)
    case At(n) => ScanExt(w, n)
  }

  /** What stands between the chunk-size and its line feed. */
  function ScanSizeEnd(w: seq<byte>, q: nat): (r: Scan)
    requires q < |w|
    ensures r.At? ==> q <= r.pos < |w| && w[r.pos] == LF
  {
    if w[q] == SEMICOLON then ScanExt(w, q)
    else if w[q] == CR then ScanEol(w, K16, q)
    else if w[q] == LF then At(q)
    else Stop(Malformed)
  }

  datatype SizeLine = SizeLine(size: nat, lf: nat) | NoSize

  /** chunk-size [ chunk-ext ] CRLF, at the start of w. */
  function ParseSizeLine(w: seq<byte>): (r: SizeLine)
    requires w != []
    ensures r.SizeLine? ==> r.lf < |w|
  {
    match ScanSize(w, 0, 0)
    case NoDigits => NoSize
    case SizeDigits(size, q) =>
      match ScanSizeEnd(w, q)
      case Stop(_) => NoSize
      case At(lf) => SizeLine(size, lf)
  }

  /** The content still allowed, and the room for trailer lines and their bytes. */
  datatype Limits = Limits(max: nat, room: nat, space: nat)

  datatype Outcome = Body(content: seq<byte>, trailers: seq<Line>, rest: seq<byte>) | Bad {
    function Prepend(data: seq<byte>): Outcome {
      if Bad? then this else Body(data + content, trailers, rest)
    }
  }

  /** What w, from the start of a chunk on, is received as. */
  function Decode(w: seq<byte>, limits: Limits): Outcome
    decreases |w|, 0
  {
    if w == [] then Bad else
    match ParseSizeLine(w)
    case NoSize => Bad
    case SizeLine(size, lf) =>
      if size > limits.max || Move(w, K16, lf).Stop? then Bad
      else if size == 0 then Ending(w, lf + 1, limits)
      else InData(w[lf + 1..], size, limits)
  }

  /** `size` more bytes of chunk-data come first. */
  function InData(t: seq<byte>, size: nat, limits: Limits): Outcome
    requires size <= limits.max
    decreases |t|, 3
  {
    if |t| < size then Bad else AfterData(t[size..], limits.(max := limits.max - size)).Prepend(t[..size])
  }

  /** The line end behind chunk-data comes first. */
  function AfterData(t: seq<byte>, limits: Limits): Outcome
    decreases |t|, 2
  {
    if t == [] then Bad
    else if t[0] == CR then AfterCr(t[1..], limits)
    else AfterCr(t, limits)
  }

  function AfterCr(t: seq<byte>, limits: Limits): Outcome
    decreases |t|, 1
  {
    if t == [] || t[0] != LF then Bad else Decode(t[1..], limits)
  }

  /** trailer-section CRLF: comes at w[q], behind the last chunk. */
  function Ending(w: seq<byte>, q: nat, limits: Limits): (r: Outcome)
    requires q < |w|
    ensures r.Body? ==> r.content == []
  {
    if w[q] == CR then
      match ScanEol(w, K16, q)
      case Stop(_) => Bad
      case At(lf) => Body([], [], w[lf + 1..])
    else if w[q] == LF then Body([], [], w[q + 1..])
    else
      match ParseTrailers(w[q..], K16, limits.room, limits.space)
      case Broken(_) => Bad
      case Lines(lines, end) => Body([], lines, w[q..][end + 1..])
  }

  /** The states of a receiver: in chunk-data with that many bytes left (> 0), before a chunk (0), behind
      chunk-data CR (-1), behind chunk-data (-2). */
  type State = s: int | s >= -2

  function Resume(state: State, t: seq<byte>, limits: Limits): Outcome
    requires state <= limits.max
  {
    if state == -2 then AfterData(t, limits)
    else if state == -1 then AfterCr(t, limits)
    else if state == 0 then Decode(t, limits)
    else InData(t, state, limits)
  }

  // ----- The receiver -----

  datatype Got = Data | End | BadRead

  class Reader {
    const window: Window
    const maxContentSize: int64
    const room: nat
    var chunkSize: State
    var receivedSize: int64

    /** What came behind the head is taken over. */
    constructor (socket: Socket, imme: seq<byte>, store: seq<byte>, storeLimit: nat, room: nat, maxContentSize: int64)
      requires |imme| <= K16 && |store| <= storeLimit && maxContentSize >= 0
      ensures fresh(window) && fresh(window.buf) && window.socket == socket && window.store == store
      ensures Ready() && Ahead() == Decode(imme + socket.unread, Limits(maxContentSize, room, storeLimit - |store|))
    {
      window := new Window.Body(socket, imme, store, storeLimit);
      this.maxContentSize := maxContentSize;
      this.room := room;
      chunkSize := 0;
      receivedSize := 0;
    }

    ghost predicate Ready()
      reads this, window
    {
      && window.Valid() && window.inBody && window.cur.back == 0 && |window.store| <= window.storeLimit
      && (window.cur.edge == 0 || (chunkSize == 0 && window.cur.fore < window.cur.edge))
      && 0 <= receivedSize <= maxContentSize && chunkSize <= maxContentSize - receivedSize
    }

    ghost function Left(): Limits
      requires receivedSize <= maxContentSize && |window.store| <= window.storeLimit
      reads this, window
    {
      Limits(maxContentSize - receivedSize, room, window.storeLimit - |window.store|)
    }

    /** What the rest of the body will be received as, however it is cut into reads. */
    ghost function Ahead(): Outcome
      requires Ready()
      reads this, window, window.buf, window.socket
    {
      Resume(chunkSize, window.Tail(), Left())
    }

    /** Amid the element w, whose start is where the window may be cut. */
    ghost predicate At(w: seq<byte>)
      reads window, window.buf, window.socket
    {
      && window.Valid() && window.inBody && window.cur.fore < window.cur.edge
      && Place() < |w| && window.Tail() == w[Place()..]
    }

    function Place(): nat
      requires window.Valid()
      reads window
    {
      window.cur.fore - window.cur.back
    }

    lemma AtHand(w: seq<byte>)
      requires At(w)
      ensures window.cur.fore < window.buf.Length && window.buf[window.cur.fore] == w[Place()]
    {
      assert window.Tail()[0] == window.buf[..][window.cur.fore..window.cur.edge][0];
    }

    method Step(ghost w: seq<byte>) returns (ok: bool)
      requires At(w)
      modifies window`buf, window`cur, window.buf, window.socket
      ensures window.buf == old(window.buf) || fresh(window.buf)
      ensures ok == Move(w, K16, old(Place())).At?
      ensures ok ==> At(w) && Place() == old(Place()) + 1 && (old(window.cur.back) == 0 ==> window.cur.back == 0)
    {
      var r := window.Advance();
      ok := r == Fine;
    }

    /** chunk-size = 1*HEXDIG */
    method RecvDigits(ghost w: seq<byte>) returns (ok: bool, n: int64)
      requires At(w) && Place() == 0
      modifies window`buf, window`cur, window.buf, window.socket
      ensures window.buf == old(window.buf) || fresh(window.buf)
      ensures ok == ScanSize(w, 0, 0).SizeDigits?
      ensures ok ==> n >= 0 && At(w) && ScanSize(w, 0, 0) == SizeDigits(n, Place())
    {
      hide ScanSize, Move, Pow, Wrap64;
      n := 0;
      PowLimits();
      while true
        invariant window.buf == old(window.buf) || fresh(window.buf)
        invariant At(w) && Place() <= 15 && 0 <= n < Pow(16, Place())
        invariant ScanSize(w, Place(), n) == ScanSize(w, 0, 0)
        decreases |w| - Place()
      {
        AtHand(w);
        NextDigit(w, Place(), n);
        ghost var k := Place();
        var b := window.buf[window.cur.fore];
        if !IsDigit(b, 16) {
          return true, n;
        }
        MoreDigits(k, n, DigitValue(b, 16));
        n := Wrap64(n * 16 + DigitValue(b, 16));
        if Place() + 1 >= 16 {
          return false, n;
        }
        ok := Step(w);
        if !ok {
          return;
        }
      }
    }

    /** Everything of a chunk-ext; stops at the line feed. */
    method SkipExt(ghost w: seq<byte>) returns (ok: bool)
      requires At(w)
      modifies window`buf, window`cur, window.buf, window.socket
      ensures window.buf == old(window.buf) || fresh(window.buf)
      ensures ok == ScanExt(w, old(Place())).At?
      ensures ok ==> At(w) && Place() == ScanExt(w, old(Place())).pos
    {
      hide ScanExt, Move;
      ghost var q := Place();
      while window.buf[window.cur.fore] != LF
        invariant window.buf == old(window.buf) || fresh(window.buf)
        invariant At(w) && ScanExt(w, Place()) == ScanExt(w, q)
        decreases |w| - Place()
      {
        AtHand(w);
        NextExt(w, Place());
        ok := Step(w);
        if !ok {
          return;
        }
      }
      AtHand(w);
      NextExt(w, Place());
      ok := true;
    }

    /** [ chunk-ext ] CRLF; stops at the line feed. */
    method RecvSizeEnd(ghost w: seq<byte>) returns (ok: bool)
      requires At(w)
      modifies window`buf, window`cur, window.buf, window.socket
      ensures window.buf == old(window.buf) || fresh(window.buf)
      ensures ok == ScanSizeEnd(w, old(Place())).At?
      ensures ok ==> At(w) && Place() == ScanSizeEnd(w, old(Place())).pos
    {
      hide ScanExt, Move;
      AtHand(w);
      var b := window.buf[window.cur.fore];
      if b == SEMICOLON {
        ok := SkipExt(w);
      } else if b == CR {
        ok := SkipCr(w);
      } else {
        ok := b == LF;
      }
    }

    /** Skips a carriage return; a line feed must follow. */
    method SkipCr(ghost w: seq<byte>) returns (ok: bool)
      requires At(w)
      modifies window`buf, window`cur, window.buf, window.socket
      ensures window.buf == old(window.buf) || fresh(window.buf)
      ensures ok == ScanEol(w, K16, old(Place())).At?
      ensures ok ==> At(w) && Place() == ScanEol(w, K16, old(Place())).pos
    {
      ok := Step(w);
      if ok {
        AtHand(w);
        ok := window.buf[window.cur.fore] == LF;
      }
    }

    /** chunk-size [ chunk-ext ] CRLF; stops at the line feed. */
    method RecvSizeLine(ghost w: seq<byte>) returns (ok: bool, size: int64)
      requires At(w) && Place() == 0
      modifies window`buf, window`cur, window.buf, window.socket
      ensures window.buf == old(window.buf) || fresh(window.buf)
      ensures ok == ParseSizeLine(w).SizeLine?
      ensures ok ==> size >= 0 && At(w) && ParseSizeLine(w) == SizeLine(size, Place())
    {
      hide ScanSize, ScanSizeEnd, Move;
      ok, size := RecvDigits(w);
      if ok {
        ok := RecvSizeEnd(w);
      }
    }

    /** Starts the chunk that comes at the start of w: what stands before its data, or behind its size
        line if it is the last one. */
    method StartChunk(ghost w: seq<byte>) returns (ok: bool)
      requires window.Valid() && window.inBody && window.cur.fore < window.cur.edge && w == window.Tail()
      requires 0 <= receivedSize <= maxContentSize
      modifies this`chunkSize, window`buf, window`cur, window.buf, window.socket
      ensures window.buf == old(window.buf) || fresh(window.buf)
      ensures
        match ParseSizeLine(w)
        case NoSize => !ok
        case SizeLine(size, lf) =>
          && ok == (size <= maxContentSize - receivedSize && Move(w, K16, lf).At?)
          && (ok ==> chunkSize == size && At(w) && Place() == lf + 1)
    {
      hide ParseSizeLine, Move, Wrap64;
      window.CutHere();
      assert At(w) by {
        assert w == w[0..];
      }
      hide Reader.At;
      var size;
      ok, size := RecvSizeLine(w);
      if !ok { return; }
      WrapSign(receivedSize + size);
      var target := Wrap64(receivedSize + size);
      if target < 0 || target > maxContentSize {
        return false;
      }
      chunkSize := size;
      ok := Step(w);
    }

    /** Skips what is left of the line end behind chunk-data. */
    method PassLineEnd(ghost w: seq<byte>) returns (ok: bool)
      requires window.Valid() && window.inBody && window.cur.fore == 0 < window.cur.edge && w == window.Tail()
      requires chunkSize < 0 && 0 <= receivedSize <= maxContentSize && |window.store| <= window.storeLimit
      modifies window`buf, window`cur, window.buf, window.socket
      ensures window.buf == old(window.buf) || fresh(window.buf)
      ensures !ok ==> Resume(chunkSize, w, Left()).Bad?
      ensures ok ==> window.Valid() && window.cur.fore < window.cur.edge && |window.Tail()| < |w|
      ensures ok ==> Resume(chunkSize, w, Left()) == Decode(window.Tail(), Left())
    {
      hide Decode, AfterData, AfterCr;
      assert At(w);
      AtHand(w);
      ghost var u, limits := w, Left();
      LineEndSeen(w, limits);
      NothingLeft(limits);
      if chunkSize == -2 && window.buf[window.cur.fore] == CR {
        ok := Step(w);
        if !ok {
          assert w[1..] == [];
          return;
        }
        AtHand(w);
        u := w[1..];
        LineEndSeen(u, limits);
      }
      if window.buf[window.cur.fore] != LF {
        return false;
      }
      ok := Step(w);
      if ok {
        assert window.Tail() == u[1..];
      } else {
        assert u[1..] == [];
      }
    }

    /** trailer-section CRLF, or only CRLF: comes behind the last chunk. */
    method RecvEnding(ghost w: seq<byte>) returns (ok: bool, pairs: seq<Pair>)
      requires At(w) && 0 <= receivedSize <= maxContentSize && |window.store| <= window.storeLimit
      modifies window`buf, window`cur, window`store, window.buf, window.socket
      ensures window.buf == old(window.buf) || fresh(window.buf)
      ensures ok == Ending(w, old(Place()), old(Left())).Body?
      ensures ok ==> window.Valid() && window.cur.fore > 0 && window.Tail() == Ending(w, old(Place()), old(Left())).rest
      ensures ok ==> DenotesAll(window.store, pairs, Ending(w, old(Place()), old(Left())).trailers)
    {
      hide ParseTrailers, Denotes, DenotesAll, ScanEol, Move;
      pairs := [];
      DenotesNone(window.store);
      AtHand(w);
      ok := true;
      ghost var q := Place();
      DropOne(w, q);
      if window.buf[window.cur.fore] == CR {
        ok := SkipCr(w);
        if ok {
          DropOne(w, q + 1);
        }
      } else if window.buf[window.cur.fore] != LF {
        ok, pairs := RecvTrailers(w[q..]);
        return;
      }
      if ok {
        window.StepOver();
      }
    }

    /** The trailer section and its last line feed. */
    method RecvTrailers(ghost t: seq<byte>) returns (ok: bool, pairs: seq<Pair>)
      requires window.Valid() && window.inBody && window.cur.fore < window.cur.edge && t == window.Tail()
      requires |window.store| <= window.storeLimit
      modifies window`buf, window`cur, window`store, window.buf, window.socket
      ensures window.buf == old(window.buf) || fresh(window.buf)
      ensures
        var section := ParseTrailers(t, K16, room, window.storeLimit - |old(window.store)|);
        && ok == section.Lines?
        && (ok ==> window.Valid() && window.cur.fore > 0 && section.end < |t| && window.Tail() == t[section.end + 1..])
        && (ok ==> DenotesAll(window.store, pairs, section.lines))
    {
      hide ParseTrailers, Denotes, DenotesAll;
      var r;
      r, pairs := window.RecvTrailerLines(room);
      ok := r == Fine;
      if ok {
        DropOne(t, window.cur.fore);
        window.StepOver();
      }
    }

    /** Hands out chunk-data that has been received. */
    method TakeData(ghost w: seq<byte>) returns (ok: bool, data: seq<byte>)
      requires window.Valid() && window.inBody && window.cur.fore < window.cur.edge && w == window.Tail()
      requires 0 <= receivedSize <= maxContentSize && 0 < chunkSize <= maxContentSize - receivedSize
      requires |window.store| <= window.storeLimit
      modifies this, window`cur
      ensures !ok ==> InData(w, old(chunkSize), old(Left())).Bad?
      ensures ok ==> Ready() && data != [] && |window.Tail()| < |w|
      ensures ok ==> InData(w, old(chunkSize), old(Left())) == Ahead().Prepend(data)
    {
      hide InData, Resume, Outcome.Prepend;
      var from, edge := window.cur.fore, window.cur.edge;
      window.cur := window.cur.(back := 0);
      if edge - from <= chunkSize {
        data := TakeAllThereIs(w);
        ok := true;
      } else {
        ok, data := TakeRestOfChunk(w);
      }
    }

    method TakeAllThereIs(ghost w: seq<byte>) returns (data: seq<byte>)
      requires window.Valid() && window.inBody && window.cur.fore < window.cur.edge && w == window.Tail() &&
        window.cur.back == 0
      requires 0 <= receivedSize <= maxContentSize &&
        window.cur.edge - window.cur.fore <= chunkSize <= maxContentSize - receivedSize
      requires |window.store| <= window.storeLimit
      modifies this, window`cur
      ensures Ready() && data != [] && |window.Tail()| < |w|
      ensures InData(w, old(chunkSize), old(Left())) == Ahead().Prepend(data)
    {
      hide AfterData;
      var from, edge := window.cur.fore, window.cur.edge;
      data := window.buf[from..edge];
      assert data == window.buf[..][from..edge];
      InDataSplit(w, chunkSize, |data|, Left());
      assert w == data + window.socket.unread;
      assert w[|data|..] == window.socket.unread && w[..|data|] == data;
      InDataDone(window.socket.unread, Left().(max := Left().max - |data|));
      receivedSize := receivedSize + (edge - from);
      if edge - from == chunkSize {
        chunkSize := -2;
      } else {
        chunkSize := chunkSize - (edge - from);
      }
      window.cur := Cursors(0, 0, 0);
      assert window.Tail() == window.socket.unread;
    }

    method TakeRestOfChunk(ghost w: seq<byte>) returns (ok: bool, data: seq<byte>)
      requires window.Valid() && window.inBody && window.cur.fore < window.cur.edge && w == window.Tail() &&
        window.cur.back == 0
      requires 0 <= receivedSize <= maxContentSize && 0 < chunkSize <= maxContentSize - receivedSize
      requires chunkSize < window.cur.edge - window.cur.fore
      requires |window.store| <= window.storeLimit
      modifies this, window`cur
      ensures !ok ==> InData(w, old(chunkSize), old(Left())).Bad?
      ensures ok ==> Ready() && data != [] && |window.Tail()| < |w|
      ensures ok ==> InData(w, old(chunkSize), old(Left())) == Ahead().Prepend(data)
    {
      hide Decode, AfterData, AfterCr, Resume;
      var from, edge := window.cur.fore, window.cur.edge;
      var end := from + chunkSize;
      data := window.buf[from..end];
      ghost var t, limits := w[chunkSize..], Left().(max := Left().max - chunkSize);
      ChunkSeen(window.buf[..], from, end, edge, window.socket.unread);
      assert data == w[..chunkSize];
      receivedSize := receivedSize + chunkSize;
      var state, next;
      ok, state, next := SeeLineEnd(end, edge, limits);
      if ok {
        BehindChunk(window.buf[..], end, next, edge, window.socket.unread);
        chunkSize := state;
        if next == edge {
          window.cur := Cursors(0, 0, 0);
        } else {
          window.cur := window.cur.(fore := next);
        }
        assert window.Tail() == t[next - end..];
        assert Left() == limits;
      }
    }

    /** What part of the line end stands behind chunk-data, and what state that leaves. */
    method SeeLineEnd(end: nat, edge: nat, ghost limits: Limits) returns (ok: bool, state: State, next: nat)
      requires end < edge <= window.buf.Length
      ensures
        var t := window.buf[..][end..edge] + window.socket.unread;
        && (!ok ==> AfterData(t, limits) == Bad)
        && (ok ==> state <= 0 && end < next <= edge && (state < 0 ==> next == edge))
        && (ok ==> AfterData(t, limits) == Resume(state, t[next - end..], limits))
    {
      hide Decode, AfterData, AfterCr;
      ghost var t := window.buf[..][end..edge] + window.socket.unread;
      assert t[0] == window.buf[end] && (end + 1 < edge ==> t[1] == window.buf[end + 1]);
      LineEndSeen(t, limits);
      ok, state, next := true, 0, end + 1;
      if edge - end == 1 {
        if window.buf[end] == CR {
          state := -1;
        } else if window.buf[end] != LF {
          ok := false;
        }
      } else if window.buf[end] == CR && window.buf[end + 1] == LF {
        next := end + 2;
      } else if window.buf[end] != LF {
        ok := false;
      }
    }

    /** Before a chunk: goes to its data, or to the end of the body if it is the last one. */
    method BeginChunk(ghost w: seq<byte>) returns (got: Got, pairs: seq<Pair>)
      requires window.Valid() && window.inBody && window.cur.fore < window.cur.edge && w == window.Tail()
      requires 0 <= receivedSize <= maxContentSize && |window.store| <= window.storeLimit
      modifies this`chunkSize, window`buf, window`cur, window`store, window.buf, window.socket
      ensures window.buf == old(window.buf) || fresh(window.buf)
      ensures got.BadRead? ==> Decode(w, old(Left())).Bad?
      ensures got.Data? ==>
        && window.Valid() && window.cur.fore < window.cur.edge && |window.Tail()| < |w| && unchanged(window`store)
        && 0 < chunkSize <= maxContentSize - receivedSize
        && Decode(w, old(Left())) == InData(window.Tail(), chunkSize, Left())
      ensures got.End? ==>
        window.Valid() && window.cur.fore > 0 && Decode(w, old(Left())).Body? && Decode(w, old(Left())).content == []
      ensures got.End? ==>
        window.Tail() == Decode(w, old(Left())).rest && DenotesAll(window.store, pairs, Decode(w, old(Left())).trailers)
    {
      hide ParseSizeLine, Move, Denotes, Ending, InData;
      pairs := [];
      var ok := StartChunk(w);
      if !ok {
        return BadRead, pairs;
      }
      if chunkSize == 0 {
        ok, pairs := RecvEnding(w);
        return if ok then End else BadRead, pairs;
      }
      got := Data;
    }

    /** _readVagueContent: delivers some more of the content, or finds its end. */
    method Read() returns (got: Got, data: seq<byte>, pairs: seq<Pair>)
      requires Ready()
      modifies this, window`buf, window`cur, window`store, window.buf, window.socket
      ensures window.buf == old(window.buf) || fresh(window.buf)
      ensures got.BadRead? ==> old(Ahead()).Bad?
      ensures got.Data? ==> Ready() && data != [] && |window.Tail()| < |old(window.Tail())|
      ensures got.Data? ==> old(Ahead()) == Ahead().Prepend(data)
      ensures got.End? ==> window.Valid() && window.cur.fore > 0 && old(Ahead()).Body? && old(Ahead()).content == []
      ensures got.End? ==> window.Tail() == old(Ahead()).rest && DenotesAll(window.store, pairs, old(Ahead()).trailers)
    {
      hide Decode, Denotes, DenotesAll, AfterData, AfterCr, InData;
      data, pairs := [], [];
      ghost var t, limits := window.Tail(), Left();
      if window.cur.edge == 0 {
        NothingToResume(chunkSize, limits);
        var r := window.GrowChunked();
        if r != Fine {
          return BadRead, data, pairs;
        }
      }
      if chunkSize < 0 {
        var ok := PassLineEnd(t);
        if !ok {
          return BadRead, data, pairs;
        }
      }
      if chunkSize <= 0 {
        got, pairs := BeginChunk(window.Tail());
        if got != Data {
          return;
        }
      }
      var ok;
      ok, data := TakeData(window.Tail());
      got := if ok then Data else BadRead;
    }

    /** The whole body: what is delivered does not depend on how the wire was cut into reads. */
    method ReadAll() returns (ok: bool, content: seq<byte>, pairs: seq<Pair>)
      requires Ready()
      modifies this, window`buf, window`cur, window`store, window.buf, window.socket
      ensures window.buf == old(window.buf) || fresh(window.buf)
      ensures ok == old(Ahead()).Body?
      ensures ok ==> content == old(Ahead()).content
      ensures ok ==> window.Valid() && window.cur.fore > 0 && window.Tail() == old(Ahead()).rest
      ensures ok ==> DenotesAll(window.store, pairs, old(Ahead()).trailers)
    {
      hide Resume, Denotes;
      content, pairs := [], [];
      ghost var whole := Ahead();
      assert whole.Body? ==> [] + whole.content == whole.content;
      while true
        invariant window.buf == old(window.buf) || fresh(window.buf)
        invariant Ready() && whole == Ahead().Prepend(content)
        decreases |window.Tail()|
      {
        ghost var ahead := Ahead();
        var got, data;
        got, data, pairs := Read();
        if got != Data {
          assert content + [] == content;
          return got == End, content, pairs;
        }
        PrependTwice(Ahead(), content, data);
        content := content + data;
      }
    }
  }

  lemma NothingLeft(limits: Limits)
    ensures Decode([], limits) == Bad && AfterData([], limits) == Bad && AfterCr([], limits) == Bad
  {
  }

  lemma LineEndSeen(t: seq<byte>, limits: Limits)
    requires t != []
    ensures AfterCr(t, limits) == if t[0] == LF then Decode(t[1..], limits) else Bad
    ensures AfterData(t, limits) == if t[0] == CR then AfterCr(t[1..], limits) else AfterCr(t, limits)
    ensures t[0] == CR && |t| > 1 ==> AfterData(t, limits) == if t[1] == LF then Decode(t[2..], limits) else Bad
  {
    assert |t| > 1 ==> t[1..][1..] == t[2..];
  }

  lemma NothingToResume(state: State, limits: Limits)
    requires state <= limits.max
    ensures Resume(state, [], limits) == Bad
  {
  }

  lemma PrependTwice(o: Outcome, a: seq<byte>, b: seq<byte>)
    ensures o.Prepend(b).Prepend(a) == o.Prepend(a + b)
  {
    if o.Body? {
      assert a + (b + o.content) == (a + b) + o.content;
    }
  }

  /** Chunk-data may be taken in parts. */
  lemma InDataSplit(t: seq<byte>, size: nat, k: nat, limits: Limits)
    requires k <= size <= limits.max && k <= |t|
    ensures InData(t, size, limits) == InData(t[k..], size - k, limits.(max := limits.max - k)).Prepend(t[..k])
  {
    hide AfterData;
    if size <= |t| {
      assert t[k..][size - k..] == t[size..];
      assert t[..k] + t[k..][..size - k] == t[..size];
      PrependTwice(AfterData(t[size..], limits.(max := limits.max - size)), t[..k], t[k..][..size - k]);
    }
  }

  lemma InDataDone(t: seq<byte>, limits: Limits)
    ensures InData(t, 0, limits) == AfterData(t, limits)
  {
    var o := AfterData(t, limits);
    assert t[0..] == t && t[..0] == [];
    assert o.Body? ==> [] + o.content == o.content;
  }

  lemma DropOne(w: seq<byte>, q: nat)
    requires q < |w|
    ensures w[q..][1..] == w[q + 1..]
  {
  }

  /** The end of a chunk is in the window. */
  lemma ChunkSeen(buf: seq<byte>, from: nat, end: nat, edge: nat, unread: seq<byte>)
    requires from <= end <= edge <= |buf|
    ensures
      var w := buf[from..edge] + unread;
      w[..end - from] == buf[from..end] && w[end - from..] == buf[end..edge] + unread
  {
  }

  lemma BehindChunk(buf: seq<byte>, end: nat, next: nat, edge: nat, unread: seq<byte>)
    requires end <= next <= edge <= |buf|
    ensures (buf[end..edge] + unread)[next - end..] == buf[next..edge] + unread
    ensures next == edge ==> (buf[end..edge] + unread)[next - end..] == buf[0..0] + unread
  {
  }

  /** What is done with the digit at hand. */
  lemma NextDigit(w: seq<byte>, q: nat, n: nat)
    requires q < |w|
    ensures !IsDigit(w[q], 16) ==> ScanSize(w, q, n) == SizeDigits(n, q)
    ensures IsDigit(w[q], 16) && (q + 1 >= 16 || Move(w, K16, q).Stop?) ==> ScanSize(w, q, n) == NoDigits
    ensures IsDigit(w[q], 16) && q + 1 < 16 && Move(w, K16, q).At? ==>
      ScanSize(w, q, n) == ScanSize(w, q + 1, n * 16 + DigitValue(w[q], 16))
  {
  }

  /** Fifteen digits are never too many for an int64. */
  lemma MoreDigits(k: nat, n: nat, d: nat)
    requires k <= 15 && n < Pow(16, k) && d < 16
    ensures n * 16 + d < Pow(16, k + 1)
    ensures k < 15 ==> Wrap64(n * 16 + d) == n * 16 + d
  {
    if k < 15 {
      PowLimits();
      PowGrows(16, k + 1, 15);
      WrapSign(n * 16 + d);
    }
  }

  lemma NextExt(w: seq<byte>, q: nat)
    requires q < |w|
    ensures w[q] == LF ==> ScanExt(w, q) == At(q)
    ensures w[q] != LF && Move(w, K16, q).Stop? ==> ScanExt(w, q).Stop?
    ensures w[q] != LF && Move(w, K16, q).At? ==> ScanExt(w, q) == ScanExt(w, q + 1)
  {
  }
}
