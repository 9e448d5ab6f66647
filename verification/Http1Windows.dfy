// The window an HTTP/1 parser works in: a head input that grows from 1.5K to 4K to 16K, or a 16K body
// window that slides. Field lines are received in either of them.

module Http1Windows {
  import opened Bytes
  import opened Sockets
  import opened FieldLines

  const STOCK: nat := 1536

  datatype Status = Fine | Failed(why: Why)

  /** Bytes are received up to `edge`, parsed up to `fore`; those before `back` are not needed any more. */
  datatype Cursors = Cursors(back: nat, fore: nat, edge: nat)

  /** A received line, as positions in the window. */
  datatype Pair = Pair(nameFrom: nat, nameEdge: nat, valueFrom: nat, valueEdge: nat, nameHash: uint16)

  class Window {
    const socket: Socket
    var buf: array<byte>
    var cur: Cursors
    var inBody: bool
    var store: seq<byte>
    const storeLimit: nat

    /** The input of a fresh connection. */
    constructor (socket: Socket, storeLimit: nat)
      ensures Valid() && !inBody && cur == Cursors(0, 0, 0)
      ensures this.socket == socket && this.storeLimit == storeLimit && store == [] && fresh(buf)
    {
      this.storeLimit := storeLimit;
      store := [];
      this.socket := socket;
      buf := new byte[STOCK](_ => 0);
      cur := Cursors(0, 0, 0);
      inBody := false;
    }

    /** A 16K body window, to which what came behind the head is copied. */
    constructor Body(socket: Socket, imme: seq<byte>, store: seq<byte>, storeLimit: nat)
      requires |imme| <= K16
      ensures Valid() && inBody && cur == Cursors(0, 0, |imme|)
      ensures this.socket == socket && this.storeLimit == storeLimit && this.store == store && fresh(buf)
      ensures Tail() == imme + socket.unread
    {
      this.storeLimit := storeLimit;
      this.store := store;
      this.socket := socket;
      buf := new byte[K16](_ => 0);
      cur := Cursors(0, 0, |imme|);
      inBody := true;
      new;
      CopyInto(buf, 0, imme);
      PastedBehind(seq(K16, _ => 0), 0, imme, 0);
      assert buf[..][0..|imme|] == imme;
    }

    ghost predicate Valid()
      reads this
    {
      && cur.back <= cur.fore <= cur.edge <= buf.Length
      && if inBody then buf.Length == K16
         else cur.back == 0 && (buf.Length == STOCK || buf.Length == K4 || buf.Length == K16)
    }

    /** What has been parsed and kept. */
    ghost function Done(): seq<byte>
      requires Valid()
      reads this, buf
    {
      buf[..][cur.back..cur.fore]
    }

    /** What is still to be parsed, received or not. */
    ghost function Tail(): seq<byte>
      requires Valid()
      reads this, buf, socket
    {
      buf[..][cur.fore..cur.edge] + socket.unread
    }

    /** growHead: a full input is exchanged for a larger one, up to 16K. */
    method GrowHead() returns (r: Status)
      requires Valid() && !inBody
      modifies this`buf, this`cur, buf, socket
      ensures buf == old(buf) || fresh(buf)
      ensures r ==
        if old(cur.edge) == K16 then Failed(TooLarge) else if old(socket.unread) == [] then Failed(CutOff) else Fine
      ensures r == Fine ==> Valid() && cur == old(cur).(edge := cur.edge) && old(cur.edge) < cur.edge
      ensures r == Fine ==> Done() == old(Done()) && Tail() == old(Tail())
    {
      hide Pasted;
      if cur.edge == buf.Length {
        if buf.Length == K16 {
          return Failed(TooLarge);
        }
        EnlargeInput();
      }
      var ok := ReadMore();
      r := if ok then Fine else Failed(CutOff);
    }

    method EnlargeInput()
      requires Valid() && !inBody && buf.Length < K16
      modifies this`buf
      ensures fresh(buf) && Valid() && buf.Length > old(buf.Length)
      ensures Done() == old(Done()) && Tail() == old(Tail())
    {
      hide Pasted;
      ghost var was := buf[..];
      var input := new byte[if buf.Length == STOCK then K4 else K16](_ => 0);
      ghost var blank := input[..];
      CopyBetween(input, 0, buf, 0, buf.Length);
      PastedSlice(blank, 0, was, cur.back, cur.fore);
      PastedSlice(blank, 0, was, cur.fore, cur.edge);
      assert buf[0..buf.Length] == was;
      buf := input;
    }

    /** One read behind what is there. */
    method ReadMore() returns (ok: bool)
      requires Valid() && cur.edge < buf.Length
      modifies this`cur, buf, socket
      ensures ok == (old(socket.unread) != [])
      ensures Valid() && cur == old(cur).(edge := cur.edge)
      ensures ok ==> old(cur.edge) < cur.edge
      ensures Done() == old(Done()) && Tail() == old(Tail())
    {
      hide Pasted;
      ghost var was, wire, edge := buf[..], socket.unread, cur.edge;
      var n;
      n, ok := socket.Read(buf, cur.edge);
      cur := cur.(edge := cur.edge + n);
      PastedSlice(was, edge, wire[..n], cur.back, cur.fore);
      PastedBehind(was, edge, wire[..n], cur.fore);
      TakeDrop(wire, n);
      assert was[cur.fore..edge] + wire[..n] + wire[n..] == was[cur.fore..edge] + wire;
    }

    /** growChunked: what is not needed any more slides out, unless nothing can. */
    method GrowChunked() returns (r: Status)
      requires Valid() && inBody
      modifies this`cur, buf, socket
      ensures r ==
        if old(cur.edge - cur.back) == K16 then Failed(TooLarge)
        else if old(socket.unread) == [] then Failed(CutOff) else Fine
      ensures r == Fine ==>
        Valid() && cur.back == 0 && cur.fore == old(cur.fore - cur.back) && old(cur.edge - cur.back) < cur.edge
      ensures r == Fine ==> Done() == old(Done()) && Tail() == old(Tail())
    {
      if cur.edge == buf.Length && cur.back == 0 {
        return Failed(TooLarge);
      }
      if cur.back > 0 {
        Slide();
      }
      var ok := ReadMore();
      r := if ok then Fine else Failed(CutOff);
    }

    /** From here on, what comes before is not needed. */
    method CutHere()
      requires Valid() && inBody
      modifies this`cur
      ensures Valid() && cur == old(cur).(back := old(cur.fore))
      ensures Tail() == old(Tail())
    {
      cur := cur.(back := cur.fore);
    }

    method Slide()
      requires Valid() && inBody
      modifies this`cur, buf
      ensures Valid() && cur == Cursors(0, old(cur.fore - cur.back), old(cur.edge - cur.back))
      ensures Done() == old(Done()) && Tail() == old(Tail())
    {
      hide Pasted;
      SlidContent(buf[..], cur);
      CopyWithin(buf, 0, cur.back, cur.edge);
      cur := Cursors(0, cur.fore - cur.back, cur.edge - cur.back);
    }

    /** Becomes the input of the next message: what has been parsed slides out. */
    method SlideToNext()
      requires Valid()
      modifies this`cur, this`inBody, buf
      ensures Valid() && !inBody && cur == Cursors(0, 0, old(cur.edge - cur.fore))
      ensures Tail() == old(Tail())
    {
      hide Pasted;
      SlidContent(buf[..], Cursors(cur.fore, cur.fore, cur.edge));
      CopyWithin(buf, 0, cur.fore, cur.edge);
      cur := Cursors(0, 0, cur.edge - cur.fore);
      inBody := false;
    }

    method Grow() returns (r: Status)
      requires Valid()
      modifies this`buf, this`cur, buf, socket
      ensures buf == old(buf) || fresh(buf)
      ensures r ==
        if old(cur.edge - cur.back) == K16 then Failed(TooLarge)
        else if old(socket.unread) == [] then Failed(CutOff) else Fine
      ensures r == Fine ==>
        Valid() && cur.back == 0 && cur.fore == old(cur.fore - cur.back) && old(cur.edge - cur.back) < cur.edge
      ensures r == Fine ==> Done() == old(Done()) && Tail() == old(Tail())
    {
      if inBody {
        r := GrowChunked();
      } else {
        r := GrowHead();
      }
    }

    /** Puts another byte in the place of the one at hand. */
    method Replace(b: byte)
      requires Valid() && cur.fore < cur.edge
      modifies buf
      ensures Valid() && Done() == old(Done()) && Tail() == [b] + old(Tail())[1..]
    {
      ghost var tail := Tail();
      buf[cur.fore] := b;
      assert Tail() == [b] + tail[1..];
    }

    /** Steps over one byte without asking for the next. */
    method StepOver()
      requires Valid() && cur.fore < cur.edge
      modifies this`cur
      ensures Valid() && cur == old(cur).(fore := old(cur.fore) + 1)
      ensures Tail() == old(Tail())[1..] && Done() == old(Done()) + [old(Tail())[0]]
    {
      ghost var done, tail := Done(), Tail();
      cur := cur.(fore := cur.fore + 1);
      assert Done() == done + [tail[0]] && Tail() == tail[1..];
    }

    /** Steps over one byte, growing the window when it was the last one there. */
    method Advance() returns (r: Status)
      requires Valid() && cur.fore < cur.edge
      modifies this`buf, this`cur, buf, socket
      ensures buf == old(buf) || fresh(buf)
      ensures r ==
        if old(cur.fore - cur.back) + 1 == K16 then Failed(TooLarge)
        else if |old(Tail())| == 1 then Failed(CutOff) else Fine
      ensures r == Fine ==> Valid() && cur.fore < cur.edge
      ensures r == Fine ==>
        cur.fore - cur.back == old(cur.fore - cur.back) + 1 && (old(cur.back) == 0 ==> cur.back == 0)
      ensures r == Fine ==> Done() == old(Done()) + [old(Tail())[0]] && Tail() == old(Tail())[1..]
    {
      StepOver();
      if cur.fore == cur.edge {
        r := Grow();
      } else {
        r := Fine;
      }
    }

    // ----- Field lines -----

    /** The parser stands at w[fore], where w is everything from the start of the window on. */
    ghost predicate On(w: seq<byte>)
      reads this, buf, socket
    {
      Valid() && cur.back == 0 && cur.fore < cur.edge && cur.fore < |w| && Tail() == w[cur.fore..]
    }

    /** What was parsed so far; names have been lowered in it. */
    ghost function Parsed(): seq<byte>
      requires Valid()
      reads this, buf
    {
      buf[..][..cur.fore]
    }

    /** The byte at hand is the next one of w. */
    lemma AtHand(w: seq<byte>)
      requires On(w)
      ensures cur.fore < buf.Length && buf[cur.fore] == w[cur.fore]
    {
      assert Tail()[0] == buf[..][cur.fore..cur.edge][0];
      assert w[cur.fore..][0] == w[cur.fore];
    }

    method Step(ghost w: seq<byte>) returns (r: Status)
      requires On(w)
      modifies this`buf, this`cur, buf, socket
      ensures buf == old(buf) || fresh(buf)
      ensures match Move(w, K16, old(cur.fore))
        case Stop(why) => r == Failed(why)
        case At(q) => r == Fine && On(w) && cur.fore == q && Parsed() == old(Parsed()) + [w[old(cur.fore)]]
    {
      assert Done() == Parsed();
      r := Advance();
      if r == Fine {
        assert Done() == Parsed();
      }
    }

    /** field-name: lowers it in place, sums its hash, and stops at the colon. */
    method RecvName(ghost w: seq<byte>) returns (r: Status, hash: uint16)
      requires On(w)
      modifies this`buf, this`cur, buf, socket
      ensures buf == old(buf) || fresh(buf)
      ensures match ScanName(w, K16, old(cur.fore))
        case Stop(why) => r == Failed(why)
        case At(c) =>
          var name := Lowered(w[old(cur.fore)..c]);
          r == Fine && On(w) && cur.fore == c && Parsed() == old(Parsed()) + name && hash == Hash(name)
    {
      hide Lowered, Hash, ScanName, Move;
      ghost var p, before := cur.fore, Parsed();
      hash := 0;
      LoweredNothing();
      assert w[p..p] == [];
      while true
        invariant buf == old(buf) || fresh(buf)
        invariant On(w) && p <= cur.fore
        invariant ScanName(w, K16, cur.fore) == ScanName(w, K16, p)
        invariant Parsed() == before + Lowered(w[p..cur.fore]) && hash == Hash(Lowered(w[p..cur.fore]))
        decreases |w| - cur.fore
      {
        ghost var q := cur.fore;
        NextNameByte(w, q);
        AtHand(w);
        if Tchar(buf[cur.fore]) == 0 {
          return if buf[cur.fore] == COLON then Fine else Failed(Malformed), hash;
        }
        var b;
        r, b := StepLowered(w);
        if r != Fine {
          return;
        }
        hash := (hash + b) % 0x1_0000;
        LoweredMore(before, w, p, q);
      }
    }

    /** Lowers the byte at hand in place and steps over it. */
    method StepLowered(ghost w: seq<byte>) returns (r: Status, b: byte)
      requires On(w)
      modifies this`buf, this`cur, buf, socket
      ensures buf == old(buf) || fresh(buf)
      ensures b == Lower(w[old(cur.fore)])
      ensures match Move(w, K16, old(cur.fore))
        case Stop(why) => r == Failed(why)
        case At(q) => r == Fine && On(w) && cur.fore == q && Parsed() == old(Parsed()) + [b]
    {
      b := buf[cur.fore];
      AtHand(w);
      ghost var k, x := cur.fore, w[..cur.fore] + [Lower(b)] + w[cur.fore + 1..];
      OneReplaced(w, k, Lower(b));
      assert Parsed() == Done();
      if Tchar(b) == 2 {
        b := b + 0x20;
        Replace(b);
      }
      assert Parsed() == Done();
      assert On(x);
      r := Step(x);
    }

    method SkipOws(ghost w: seq<byte>) returns (r: Status)
      requires On(w)
      modifies this`buf, this`cur, buf, socket
      ensures buf == old(buf) || fresh(buf)
      ensures match ScanOws(w, K16, old(cur.fore))
        case Stop(why) => r == Failed(why)
        case At(b) => r == Fine && On(w) && cur.fore == b && Parsed() == old(Parsed()) + w[old(cur.fore)..b]
    {
      hide ScanOws, Move;
      ghost var p, before := cur.fore, Parsed();
      while IsOws(buf[cur.fore])
        invariant buf == old(buf) || fresh(buf)
        invariant On(w) && p <= cur.fore
        invariant ScanOws(w, K16, cur.fore) == ScanOws(w, K16, p)
        invariant Parsed() == before + w[p..cur.fore]
        decreases |w| - cur.fore
      {
        AtHand(w);
        ghost var q := cur.fore;
        NextOws(w, q);
        r := Step(w);
        if r != Fine {
          return;
        }
        TakeMore(before, w, p, q);
      }
      AtHand(w);
      NextOws(w, cur.fore);
      r := Fine;
    }

    /** Skips a carriage return; a line feed must follow. */
    method SkipCr(ghost w: seq<byte>) returns (r: Status)
      requires On(w)
      modifies this`buf, this`cur, buf, socket
      ensures buf == old(buf) || fresh(buf)
      ensures match ScanEol(w, K16, old(cur.fore))
        case Stop(why) => r == Failed(why)
        case At(q) => r == Fine && On(w) && cur.fore == q && Parsed() == old(Parsed()) + w[old(cur.fore)..q]
    {
      ghost var p := cur.fore;
      assert w[p..p + 1] == [w[p]];
      r := Step(w);
      if r == Fine {
        AtHand(w);
        if buf[cur.fore] != LF {
          r := Failed(Malformed);
        }
      }
    }

    /** The bytes of a field-value; stops at the first other byte. */
    method RecvValueBytes(ghost w: seq<byte>) returns (r: Status)
      requires On(w)
      modifies this`buf, this`cur, buf, socket
      ensures buf == old(buf) || fresh(buf)
      ensures r.Failed? ==> ScanValue(w, K16, old(cur.fore)) == Stop(r.why)
      ensures r.Fine? ==>
        && On(w) && old(cur.fore) <= cur.fore && !IsValueByte(w[cur.fore])
        && Parsed() == old(Parsed()) + w[old(cur.fore)..cur.fore]
        && ScanValue(w, K16, old(cur.fore)) == ScanValue(w, K16, cur.fore)
    {
      hide ScanValue, Move;
      ghost var p, before := cur.fore, Parsed();
      while IsValueByte(buf[cur.fore])
        invariant buf == old(buf) || fresh(buf)
        invariant On(w) && p <= cur.fore
        invariant ScanValue(w, K16, cur.fore) == ScanValue(w, K16, p)
        invariant Parsed() == before + w[p..cur.fore]
        decreases |w| - cur.fore
      {
        AtHand(w);
        ghost var q := cur.fore;
        NextValueByte(w, q);
        r := Step(w);
        if r != Fine {
          return;
        }
        TakeMore(before, w, p, q);
      }
      AtHand(w);
      r := Fine;
    }

    /** field-value and what ends it: stops at the line feed. */
    method RecvValue(ghost w: seq<byte>) returns (r: Status)
      requires On(w)
      modifies this`buf, this`cur, buf, socket
      ensures buf == old(buf) || fresh(buf)
      ensures match ScanValue(w, K16, old(cur.fore))
        case Stop(why) => r == Failed(why)
        case At(lf) => r == Fine && On(w) && cur.fore == lf && Parsed() == old(Parsed()) + w[old(cur.fore)..lf]
    {
      hide ScanValue, ScanEol;
      ghost var p := cur.fore;
      r := RecvValueBytes(w);
      if r == Fine {
        AtHand(w);
        ghost var q := cur.fore;
        NextValueByte(w, q);
        if buf[cur.fore] == CR {
          r := SkipCr(w);
          assert r == Fine ==> w[p..q] + w[q..q + 1] == w[p..q + 1];
        } else if buf[cur.fore] != LF {
          r := Failed(Malformed);
        }
      }
    }

    /** Where the value between `back` and the line feed at hand ends: OWS behind it is trimmed. */
    method TrimValue(ghost w: seq<byte>, back: nat) returns (fore: nat)
      requires On(w) && 0 < back <= cur.fore && w[cur.fore] == LF
      requires buf[..][back - 1..cur.fore] == w[back - 1..cur.fore]
      requires back < cur.fore ==> !IsOws(w[back])
      ensures fore == ValueEnd(w, back, cur.fore)
    {
      fore := cur.fore;
      assert buf[fore - 1] == buf[..][back - 1..cur.fore][cur.fore - back];
      assert w[fore - 1] == w[back - 1..cur.fore][cur.fore - back];
      if buf[fore - 1] == CR {
        fore := fore - 1;
      }
      if fore > back {
        ghost var first := fore;
        while IsOws(buf[fore - 1])
          invariant back < fore <= first
          invariant TrimOws(w, back, fore) == TrimOws(w, back, first)
          decreases fore
        {
          assert buf[fore - 1] == buf[..][back - 1..cur.fore][fore - back];
          assert w[fore - 1] == w[back - 1..cur.fore][fore - back];
          fore := fore - 1;
        }
        assert buf[fore - 1] == buf[..][back - 1..cur.fore][fore - back];
        assert w[fore - 1] == w[back - 1..cur.fore][fore - back];
      }
    }

    /** field-name ":" OWS; stops at the value. */
    method RecvStart(ghost w: seq<byte>) returns (r: Status, c: nat, hash: uint16)
      requires On(w)
      modifies this`buf, this`cur, buf, socket
      ensures buf == old(buf) || fresh(buf)
      ensures match ParseStart(w, K16, old(cur.fore))
        case NoStart(why) => r == Failed(why)
        case StartAt(colon, b) =>
          var name := Lowered(w[old(cur.fore)..colon]);
          && r == Fine && c == colon && On(w) && cur.fore == b && hash == Hash(name)
          && Parsed() == old(Parsed()) + name + w[colon..b]
    {
      hide ScanName, ScanOws, Move, Lowered, Hash;
      var p := cur.fore;
      r, hash := RecvName(w);
      c := cur.fore;
      if r != Fine { return; }
      if c == p || c - p > 255 {
        return Failed(Malformed), c, hash;
      }
      r := SkipColon(w);
    }

    /** ":" OWS */
    method SkipColon(ghost w: seq<byte>) returns (r: Status)
      requires On(w)
      modifies this`buf, this`cur, buf, socket
      ensures buf == old(buf) || fresh(buf)
      ensures Move(w, K16, old(cur.fore)).Stop? ==> r == Failed(Move(w, K16, old(cur.fore)).why)
      ensures Move(w, K16, old(cur.fore)).At? ==>
        match ScanOws(w, K16, old(cur.fore) + 1)
        case Stop(why) => r == Failed(why)
        case At(b) => r == Fine && On(w) && cur.fore == b && Parsed() == old(Parsed()) + w[old(cur.fore)..b]
    {
      hide ScanOws, Move;
      ghost var c, before := cur.fore, Parsed();
      r := Step(w);
      if r != Fine { return; }
      r := SkipOws(w);
      if r == Fine {
        TakeBefore(before, w, c, cur.fore);
      }
    }

    /** One field line; stops at its line feed. */
    method RecvLine(ghost w: seq<byte>) returns (r: Status, pair: Pair)
      requires On(w)
      modifies this`buf, this`cur, buf, socket
      ensures buf == old(buf) || fresh(buf)
      ensures match ParseLine(w, K16, old(cur.fore))
        case NoLine(why) => r == Failed(why)
        case LineTo(line, lf) =>
          && r == Fine && On(w) && cur.fore == lf
          && old(Parsed()) <= Parsed() && Denotes(Parsed(), pair, line)
    {
      hide ParseStart, ScanValue, Lowered, Hash, ValueOf, Denotes;
      pair := Pair(0, 0, 0, 0, 0);
      var p := cur.fore;
      ghost var before := Parsed();
      var c, hash;
      r, c, hash := RecvStart(w);
      if r != Fine { return; }
      var b := cur.fore;
      OwsBefore(w, p);
      r := RecvValue(w);
      if r != Fine { return; }
      InPlace(Parsed(), before, w, p, c, b, cur.fore);
      var e := TrimValue(w, b);
      pair := Pair(p, c, b, e, hash);
    }

    /** Some lines of the header section at p have been received. */
    ghost predicate AmidLines(w: seq<byte>, room: nat, p: nat, pairs: seq<Pair>, lines: seq<Line>)
      reads this, buf, socket
    {
      && On(w) && |lines| <= room && p < |w|
      && ParseSection(w, K16, p, room) == ParseSection(w, K16, cur.fore, room - |lines|).Prepend(lines)
      && DenotesAll(Parsed(), pairs, lines)
    }

    method RecvNextLine(ghost w: seq<byte>, room: nat, ghost p: nat, pairs: seq<Pair>, ghost lines: seq<Line>)
      returns (r: Status, pairs': seq<Pair>, ghost lines': seq<Line>)
      requires AmidLines(w, room, p, pairs, lines) && w[cur.fore] != CR && w[cur.fore] != LF
      modifies this`buf, this`cur, buf, socket
      ensures buf == old(buf) || fresh(buf)
      ensures r.Failed? ==> ParseSection(w, K16, p, room) == Broken(r.why)
      ensures r.Fine? ==> AmidLines(w, room, p, pairs', lines') && cur.fore > old(cur.fore)
    {
      hide ParseSection, ParseLine, ScanEol, Move, Denotes;
      ghost var q, before := cur.fore, Parsed();
      pairs', lines' := pairs, lines;
      SectionNext(w, K16, q, room - |lines|);
      var pair;
      r, pair := RecvLine(w);
      if r != Fine { return; }
      if |pairs| == room {
        return Failed(TooLarge), pairs', lines';
      }
      ghost var line, mid := ParseLine(w, K16, q).line, Parsed();
      StillDenotes(before, mid, pairs, lines);
      DenotesMore(mid, pairs, lines, pair, line);
      r := Step(w);
      if r != Fine { return; }
      pairs' := pairs + [pair];
      PrependPrepend(ParseSection(w, K16, cur.fore, room - |lines| - 1), lines, [line]);
      lines' := lines + [line];
      StillDenotes(mid, Parsed(), pairs', lines');
    }

    /** recvHeaderLines: the lines of a header section, at most `room` of them, and the empty line.
        The names and values stay in the input, at the positions handed out. */
    method RecvHeaderLines(ghost w: seq<byte>, room: nat) returns (r: Status, pairs: seq<Pair>)
      requires On(w)
      modifies this`buf, this`cur, buf, socket
      ensures buf == old(buf) || fresh(buf)
      ensures match ParseSection(w, K16, old(cur.fore), room)
        case Broken(why) => r == Failed(why)
        case Lines(lines, end) =>
          && r == Fine && Valid() && cur.back == 0 && cur.fore == end + 1
          && Tail() == w[cur.fore..] && DenotesAll(Parsed(), pairs, lines)
    {
      hide ParseSection, ScanEol, DenotesAll;
      pairs := [];
      ghost var p, lines: seq<Line> := cur.fore, [];
      DenotesNone(Parsed());
      while buf[cur.fore] != CR && buf[cur.fore] != LF
        invariant buf == old(buf) || fresh(buf)
        invariant AmidLines(w, room, p, pairs, lines)
        decreases |w| - cur.fore
      {
        AtHand(w);
        r, pairs, lines := RecvNextLine(w, room, p, pairs, lines);
        if r != Fine { return; }
      }
      AtHand(w);
      SectionNext(w, K16, cur.fore, room - |lines|);
      assert lines + [] == lines;
      ghost var before := Parsed();
      r := SkipEmptyLine(w);
      if r == Fine {
        StillDenotes(before, Parsed(), pairs, lines);
      }
    }

    /** Steps over the empty line that ends a section; what comes behind need not have arrived. */
    method SkipEmptyLine(ghost w: seq<byte>) returns (r: Status)
      requires On(w) && (w[cur.fore] == CR || w[cur.fore] == LF)
      modifies this`buf, this`cur, buf, socket
      ensures buf == old(buf) || fresh(buf)
      ensures w[old(cur.fore)] == CR && ScanEol(w, K16, old(cur.fore)).Stop? ==>
        r == Failed(ScanEol(w, K16, old(cur.fore)).why)
      ensures w[old(cur.fore)] == LF || ScanEol(w, K16, old(cur.fore)).At? ==>
        && r == Fine && Valid() && cur.back == 0
        && cur.fore == old(cur.fore) + (if w[old(cur.fore)] == CR then 2 else 1)
        && Tail() == w[cur.fore..] && old(Parsed()) <= Parsed()
    {
      hide ScanEol;
      AtHand(w);
      r := Fine;
      if buf[cur.fore] == CR {
        r := SkipCr(w);
      }
      if r == Fine {
        Pass(w);
      }
    }

    /** Steps over one byte without asking for the next. */
    method Pass(ghost w: seq<byte>)
      requires On(w)
      modifies this`cur
      ensures Valid() && cur == old(cur).(fore := old(cur.fore) + 1)
      ensures Tail() == w[cur.fore..] && Parsed() == old(Parsed()) + [w[old(cur.fore)]]
    {
      AtHand(w);
      ghost var tail := Tail();
      cur := cur.(fore := cur.fore + 1);
      assert Tail() == tail[1..] == w[cur.fore..];
    }

    /** arrayCopy: appends to the array of the message, within its limit. */
    method StoreCopy(src: seq<byte>) returns (ok: bool, from: nat)
      modifies this`store
      ensures ok == (src == [] || |old(store)| + |src| <= storeLimit)
      ensures from == |old(store)|
      ensures store == if ok then old(store) + src else old(store)
    {
      from := |store|;
      if src != [] && |store| + |src| > storeLimit {
        return false, from;
      }
      store := store + src;
      ok := true;
    }

    /** One trailer line; it is moved to the array, as the window will be used for other things. */
    method RecvTrailerLine(ghost w: seq<byte>) returns (r: Status, pair: Pair)
      requires On(w) && |store| <= storeLimit
      modifies this`buf, this`cur, this`store, buf, socket
      ensures buf == old(buf) || fresh(buf)
      ensures old(store) <= store && |store| <= storeLimit
      ensures match ParseLine(w, K16, old(cur.fore))
        case NoLine(why) => r == Failed(why)
        case LineTo(line, lf) =>
          if |old(store)| + |line.name| + |line.value| > storeLimit then r == Failed(TooLarge) else
          && r == Fine && On(w) && cur.fore == lf
          && store == old(store) + line.name + line.value && Denotes(store, pair, line)
    {
      hide ParseLine, Denotes;
      r, pair := RecvLine(w);
      if r == Fine {
        r, pair := StoreLine(pair, ParseLine(w, K16, old(cur.fore)).line);
      }
    }

    /** Moves a received line to the array. */
    method StoreLine(place: Pair, ghost line: Line) returns (r: Status, pair: Pair)
      requires Valid() && Denotes(Parsed(), place, line) && |store| <= storeLimit
      modifies this`store
      ensures old(store) <= store && |store| <= storeLimit
      ensures
        if |old(store)| + |line.name| + |line.value| > storeLimit then r == Failed(TooLarge)
        else r == Fine && store == old(store) + line.name + line.value && Denotes(store, pair, line)
    {
      pair := place;
      var name, value := ReadPair(place, line);
      hide Denotes;
      ghost var kept := store;
      var ok, from := StoreCopy(name);
      if !ok { return Failed(TooLarge), pair; }
      var nameEdge := |store|;
      ok, nameEdge := StoreCopy(value);
      if !ok { return Failed(TooLarge), pair; }
      pair := Pair(from, nameEdge, nameEdge, nameEdge + |value|, place.nameHash);
      DenotesStored(kept, line);
      r := Fine;
    }

    /** The name and the value at a place in the window. */
    method ReadPair(place: Pair, ghost line: Line) returns (name: seq<byte>, value: seq<byte>)
      requires Valid() && Denotes(Parsed(), place, line)
      ensures name == line.name && value == line.value && place.nameHash == line.hash
    {
      name := buf[place.nameFrom..place.nameEdge];
      value := buf[place.valueFrom..place.valueEdge];
      assert Parsed() == buf[..][0..cur.fore];
      SubSlice(buf[..], 0, cur.fore, place.nameFrom, place.nameEdge);
      SubSlice(buf[..], 0, cur.fore, place.valueFrom, place.valueEdge);
      assert name == buf[..][place.nameFrom..place.nameEdge];
      assert value == buf[..][place.valueFrom..place.valueEdge];
    }

    /** Some lines of the trailer section w have been stored behind what was kept before. */
    ghost predicate AmidTrailers(w: seq<byte>, room: nat, kept: seq<byte>, pairs: seq<Pair>, lines: seq<Line>)
      reads this, buf, socket
    {
      && On(w) && |lines| <= room
      && kept <= store && |store| <= storeLimit && |store| == |kept| + Stored(lines)
      && ParseSection(w, K16, 0, room) == ParseSection(w, K16, cur.fore, room - |lines|).Prepend(lines)
      && DenotesAll(store, pairs, lines)
    }

    method RecvNextTrailer(ghost w: seq<byte>, room: nat, ghost kept: seq<byte>, pairs: seq<Pair>,
      ghost lines: seq<Line>)
      returns (r: Status, pairs': seq<Pair>, ghost lines': seq<Line>)
      requires AmidTrailers(w, room, kept, pairs, lines) && w[cur.fore] != CR && w[cur.fore] != LF
      modifies this`buf, this`cur, this`store, buf, socket
      ensures buf == old(buf) || fresh(buf)
      ensures old(store) <= store
      ensures r.Failed? ==> ParseTrailers(w, K16, room, storeLimit - |kept|).Broken?
      ensures r.Fine? ==> AmidTrailers(w, room, kept, pairs', lines') && cur.fore > old(cur.fore)
    {
      hide ParseSection, ParseLine, ScanEol, Move, Denotes, Stored;
      ghost var q, before := cur.fore, store;
      pairs', lines' := pairs, lines;
      SectionNext(w, K16, q, room - |lines|);
      var pair;
      r, pair := RecvTrailerLine(w);
      if r != Fine {
        StoredTooMuch(w, room, storeLimit - |kept|, q, lines);
        return;
      }
      ghost var line := ParseLine(w, K16, q).line;
      OneMoreStored(lines, line);
      if |pairs| == room {
        return Failed(TooLarge), pairs', lines';
      }
      StillDenotes(before, store, pairs, lines);
      DenotesMore(store, pairs, lines, pair, line);
      r := Step(w);
      if r != Fine { return; }
      pairs' := pairs + [pair];
      PrependPrepend(ParseSection(w, K16, cur.fore, room - |lines| - 1), lines, [line]);
      lines' := lines + [line];
    }

    /** recvTrailerLines: the window is cleared of what came before, so the whole section must fit in
        it. Stops at the last line feed. */
    method RecvTrailerLines(room: nat) returns (r: Status, pairs: seq<Pair>)
      requires Valid() && inBody && cur.fore < cur.edge && |store| <= storeLimit
      modifies this`buf, this`cur, this`store, buf, socket
      ensures buf == old(buf) || fresh(buf)
      ensures old(store) <= store
      ensures
        var w := old(Tail());
        match ParseTrailers(w, K16, room, storeLimit - |old(store)|)
        case Broken(_) => r.Failed?
        case Lines(lines, end) =>
          && r == Fine && Valid() && cur.back == 0 && cur.fore == end < cur.edge
          && Tail() == w[end..] && DenotesAll(store, pairs, lines)
    {
      hide ParseSection, ScanEol, Denotes, Stored;
      ghost var w, kept := Tail(), store;
      CutHere();
      Slide();
      pairs := [];
      ghost var lines: seq<Line> := [];
      assert On(w);
      NothingStored();
      while buf[cur.fore] != CR && buf[cur.fore] != LF
        invariant buf == old(buf) || fresh(buf)
        invariant AmidTrailers(w, room, kept, pairs, lines)
        decreases |w| - cur.fore
      {
        AtHand(w);
        r, pairs, lines := RecvNextTrailer(w, room, kept, pairs, lines);
        if r != Fine { return; }
      }
      AtHand(w);
      SectionNext(w, K16, cur.fore, room - |lines|);
      assert lines + [] == lines;
      r := Fine;
      if buf[cur.fore] == CR {
        r := SkipCr(w);
      }
    }
  }

  lemma NothingStored()
    ensures Stored([]) == 0
  {
  }

  /** A line that finds no room in the array spoils its section. */
  lemma StoredTooMuch(w: seq<byte>, room: nat, space: nat, q: nat, lines: seq<Line>)
    requires w != [] && q < |w| && |lines| <= room && w[q] != CR && w[q] != LF
    requires ParseSection(w, K16, 0, room) == ParseSection(w, K16, q, room - |lines|).Prepend(lines)
    requires
      var r := ParseLine(w, K16, q);
      r.LineTo? ==> Stored(lines) + |r.line.name| + |r.line.value| > space
    ensures ParseTrailers(w, K16, room, space).Broken?
  {
    hide ParseSection, ParseLine, Move, Stored;
    SectionNext(w, K16, q, room - |lines|);
    var r := ParseLine(w, K16, q);
    if r.LineTo? && |lines| < room {
      OneMoreStored(lines, r.line);
      OutOfSpace(w, K16, room, space, q, lines, r.line);
    }
  }

  lemma OneMoreStored(lines: seq<Line>, line: Line)
    ensures Stored(lines + [line]) == Stored(lines) + |line.name| + |line.value|
  {
    StoredAppend(lines, [line]);
    assert Stored([line]) == |line.name| + |line.value| + Stored([]);
  }

  ghost predicate DenotesAll(place: seq<byte>, pairs: seq<Pair>, lines: seq<Line>) {
    |pairs| == |lines| && forall k | 0 <= k < |lines| :: Denotes(place, pairs[k], lines[k])
  }

  lemma DenotesNone(place: seq<byte>)
    ensures DenotesAll(place, [], [])
  {
  }

  lemma StillDenotes(place: seq<byte>, longer: seq<byte>, pairs: seq<Pair>, lines: seq<Line>)
    requires DenotesAll(place, pairs, lines) && place <= longer
    ensures DenotesAll(longer, pairs, lines)
  {
    forall k | 0 <= k < |lines|
      ensures Denotes(longer, pairs[k], lines[k])
    {
      var p := pairs[k];
      assert Denotes(place, p, lines[k]);
      assert longer[p.nameFrom..p.nameEdge] == place[p.nameFrom..p.nameEdge];
      assert longer[p.valueFrom..p.valueEdge] == place[p.valueFrom..p.valueEdge];
    }
  }

  lemma DenotesMore(place: seq<byte>, pairs: seq<Pair>, lines: seq<Line>, pair: Pair, line: Line)
    requires DenotesAll(place, pairs, lines) && Denotes(place, pair, line)
    ensures DenotesAll(place, pairs + [pair], lines + [line])
  {
  }

  /** The positions of a pair hold the line. */
  ghost predicate Denotes(place: seq<byte>, pair: Pair, line: Line) {
    && pair.nameFrom <= pair.nameEdge <= |place| && place[pair.nameFrom..pair.nameEdge] == line.name
    && pair.valueFrom <= pair.valueEdge <= |place| && place[pair.valueFrom..pair.valueEdge] == line.value
    && pair.nameHash == line.hash
  }

  lemma DenotesStored(kept: seq<byte>, line: Line)
    ensures
      var c := |kept| + |line.name|;
      Denotes(kept + line.name + line.value, Pair(|kept|, c, c, c + |line.value|, line.hash), line)
  {
  }

  /** The byte before a value is no carriage return. */
  lemma OwsBefore(w: seq<byte>, p: nat)
    requires p < |w| && ParseStart(w, K16, p).StartAt?
    ensures w[ParseStart(w, K16, p).value - 1] != CR
  {
    OwsScanned(w, ParseStart(w, K16, p).colon + 1);
  }

  lemma {:induction false} OwsScanned(w: seq<byte>, q: nat)
    requires q < |w| && ScanOws(w, K16, q).At?
    ensures var b := ScanOws(w, K16, q).pos; b > q ==> IsOws(w[b - 1])
    decreases |w| - q
  {
    if IsOws(w[q]) {
      OwsScanned(w, q + 1);
    }
  }

  /** What was parsed of a line stands where it was received, the name in lower case. */
  lemma InPlace(parsed: seq<byte>, before: seq<byte>, w: seq<byte>, p: nat, c: nat, b: nat, lf: nat)
    requires |before| == p < c < b <= lf < |w| && w[lf] == LF && w[b - 1] != CR && (b < lf ==> !IsOws(w[b]))
    requires parsed == before + Lowered(w[p..c]) + w[c..b] + w[b..lf]
    ensures |parsed| == lf && parsed[b - 1..lf] == w[b - 1..lf]
    ensures before <= parsed
    ensures
      var hash := Hash(Lowered(w[p..c]));
      Denotes(parsed, Pair(p, c, b, ValueEnd(w, b, lf), hash), LineAt(w, p, c, b, lf))
  {
    hide Lowered, Hash, ValueEnd;
    var e := ValueEnd(w, b, lf);
    ValueEndsHere(w, b, lf);
    ThreeParts(parsed, before, Lowered(w[p..c]), w, c, b, lf);
    SameInside(parsed, w, c, lf, b, e);
    SameInside(parsed, w, c, lf, b - 1, lf);
  }

  lemma SameInside(parsed: seq<byte>, w: seq<byte>, c: nat, lf: nat, from: nat, edge: nat)
    requires c <= from <= edge <= lf <= |parsed| && lf <= |w| && parsed[c..lf] == w[c..lf]
    ensures parsed[from..edge] == w[from..edge]
  {
    SubSlice(parsed, c, lf, from - c, edge - c);
    SubSlice(w, c, lf, from - c, edge - c);
  }

  lemma ThreeParts(parsed: seq<byte>, before: seq<byte>, name: seq<byte>, w: seq<byte>, c: nat, b: nat, lf: nat)
    requires |before| + |name| == c <= b <= lf <= |w|
    requires parsed == before + name + w[c..b] + w[b..lf]
    ensures |parsed| == lf && before <= parsed && parsed[|before|..c] == name && parsed[c..lf] == w[c..lf]
  {
    assert w[c..b] + w[b..lf] == w[c..lf];
    assert parsed == before + name + w[c..lf];
  }

  lemma ValueEndsHere(w: seq<byte>, b: nat, lf: nat)
    requires 0 < b <= lf < |w| && w[b - 1] != CR
    ensures b <= ValueEnd(w, b, lf) <= lf
  {
  }

  lemma SlidContent(was: seq<byte>, c: Cursors)
    requires c.back <= c.fore <= c.edge <= |was|
    ensures var now := Pasted(was, 0, was[c.back..c.edge]);
      && now[..c.fore - c.back] == was[c.back..c.fore]
      && now[c.fore - c.back..c.edge - c.back] == was[c.fore..c.edge]
  {
    hide Pasted;
    var kept := was[c.back..c.edge];
    PastedSlice(was, 0, kept, 0, c.fore - c.back);
    PastedSlice(was, 0, kept, c.fore - c.back, c.edge - c.back);
    SubSlice(was, c.back, c.edge, 0, c.fore - c.back);
    SubSlice(was, c.back, c.edge, c.fore - c.back, c.edge - c.back);
  }

  lemma OneReplaced(w: seq<byte>, k: nat, b: byte)
    requires k < |w|
    ensures
      var x := w[..k] + [b] + w[k + 1..];
      && |x| == |w| && x[k] == b && x[k..] == [b] + w[k..][1..] && (b == w[k] ==> x == w)
      && Move(x, K16, k) == Move(w, K16, k)
  {
  }

  lemma TakeMore(before: seq<byte>, w: seq<byte>, p: nat, q: nat)
    requires p <= q < |w|
    ensures before + w[p..q] + [w[q]] == before + w[p..q + 1]
  {
    assert w[p..q] + [w[q]] == w[p..q + 1];
    assert before + w[p..q] + [w[q]] == before + (w[p..q] + [w[q]]);
  }

  lemma TakeBefore(before: seq<byte>, w: seq<byte>, c: nat, q: nat)
    requires c < q <= |w|
    ensures before + [w[c]] + w[c + 1..q] == before + w[c..q]
  {
    assert [w[c]] + w[c + 1..q] == w[c..q];
    assert before + [w[c]] + w[c + 1..q] == before + ([w[c]] + w[c + 1..q]);
  }

  // What each scan does with the byte at hand.

  lemma NextNameByte(w: seq<byte>, q: nat)
    requires q < |w|
    ensures Tchar(w[q]) == 0 ==> ScanName(w, K16, q) == if w[q] == COLON then At(q) else Stop(Malformed)
    ensures Tchar(w[q]) != 0 && Move(w, K16, q).Stop? ==> ScanName(w, K16, q) == Move(w, K16, q)
    ensures Tchar(w[q]) != 0 && Move(w, K16, q).At? ==> ScanName(w, K16, q) == ScanName(w, K16, q + 1)
  {
  }

  lemma NextOws(w: seq<byte>, q: nat)
    requires q < |w|
    ensures !IsOws(w[q]) ==> ScanOws(w, K16, q) == At(q)
    ensures IsOws(w[q]) && Move(w, K16, q).Stop? ==> ScanOws(w, K16, q) == Move(w, K16, q)
    ensures IsOws(w[q]) && Move(w, K16, q).At? ==> ScanOws(w, K16, q) == ScanOws(w, K16, q + 1)
  {
  }

  lemma NextValueByte(w: seq<byte>, q: nat)
    requires q < |w|
    ensures !IsValueByte(w[q]) ==>
      ScanValue(w, K16, q) == (if w[q] == CR then ScanEol(w, K16, q) else if w[q] == LF then At(q) else Stop(Malformed))
    ensures IsValueByte(w[q]) && Move(w, K16, q).Stop? ==> ScanValue(w, K16, q) == Move(w, K16, q)
    ensures IsValueByte(w[q]) && Move(w, K16, q).At? ==> ScanValue(w, K16, q) == ScanValue(w, K16, q + 1)
  {
  }

  lemma LoweredNothing()
    ensures Lowered([]) == [] && Hash([]) == 0
  {
  }

  lemma LoweredMore(before: seq<byte>, w: seq<byte>, p: nat, q: nat)
    requires p <= q < |w|
    ensures before + Lowered(w[p..q]) + [Lower(w[q])] == before + Lowered(w[p..q + 1])
    ensures Hash(Lowered(w[p..q + 1])) == (Hash(Lowered(w[p..q])) + Lower(w[q])) % 0x1_0000
  {
    assert w[p..q + 1] == w[p..q] + [w[q]];
    assert Lowered(w[p..q + 1])[..q - p] == Lowered(w[p..q]);
    assert Lowered(w[p..q + 1]) == Lowered(w[p..q]) + [Lower(w[q])];
  }
}
