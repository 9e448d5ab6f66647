// Requests as a client sends them, and what a server connection receives for them: the request line, the field
// lines and the content, one request behind the other.

module SentRequests {
  import opened Bytes
  import opened FieldLines
  import opened Http1Windows
  import opened SentLines
  import opened Chunked
  import opened ChunkTheorems
  import opened ChunkSound
  import opened Pipelining

  /** No content, a content of a known size, or a chunked one (section 6 of RFC 9112). */
  datatype Content =
    | Absent
    | Plain(data: seq<byte>)
    | InChunks(chunks: seq<Chunk>, last: Chunk, trailers: seq<Field>)
  {
    function Text(): seq<byte> {
      match this
      case Absent => []
      case Plain(data) => data
      case InChunks(chunks, last, trailers) => BodyText(chunks, last, trailers)
    }

    /** What the program on the other side should get. */
    function Data(): seq<byte> {
      match this
      case Absent => []
      case Plain(data) => data
      case InChunks(chunks, _, _) => DataOf(chunks)
    }

    predicate Legal(limits: Limits) {
      this.InChunks? ==>
        && (forall k | 0 <= k < |chunks| :: chunks[k].WellFormed() && chunks[k].data != [])
        && last.WellFormed() && last.data == [] && Fit(trailers, limits) && |DataOf(chunks)| <= limits.max
    }

    /** How its end is told. */
    predicate ToldBy(mode: Mode) {
      match this
      case Absent => mode == NoContent
      case Plain(data) => mode == Sized(|data|)
      case InChunks(_, _, _) => mode == Vague
    }
  }

  function DataOf(chunks: seq<Chunk>): seq<byte> {
    if chunks == [] then [] else chunks[0].data + DataOf(chunks[1..])
  }

  lemma {:induction false} DataIsContent(chunks: seq<Chunk>)
    ensures DataOf(chunks) == ChunkTheorems.Content(chunks)
  {
    if chunks != [] {
      DataIsContent(chunks[1..]);
    }
  }

  /** A request: the bytes of its line, and what the parser keeps of them; its field lines and the line end behind
      them; its content. */
  datatype SentRequest = SentRequest(line: seq<byte>, kept: seq<byte>, fields: seq<Sent>, eol: seq<byte>,
    content: Content) {
    function Text(): seq<byte> {
      line + SentLines.Texts(fields) + eol + content.Text()
    }

    predicate Legal(room: nat, limits: Limits) {
      && 0 < |line| == |kept| && SentLines.AllLegal(fields) && IsLineEnd(eol) && |fields| <= room
      && |line| + |SentLines.Texts(fields)| + |eol| <= 16384 && content.Legal(limits)
    }

    /** The parser takes the line byte by byte, and its head for one with such a content. */
    predicate TakenBy(parser: Parser, lines: seq<Line>)
      requires 0 < |line| == |kept|
    {
      && (forall j | 0 <= j < |line| - 1 :: parser.line(kept[..j], line[j]) == Amid(kept[j]))
      && parser.line(kept[..|line| - 1], line[|line| - 1]) == Complete(kept[|line| - 1])
      && MeanAll(fields, lines)
      && parser.examine(kept, lines).Accepted? && content.ToldBy(parser.examine(kept, lines).mode)
    }
  }

  function AllText(requests: seq<SentRequest>): seq<byte> {
    if requests == [] then [] else requests[0].Text() + AllText(requests[1..])
  }

  lemma {:induction false} LineTaken(parser: Parser, w: seq<byte>, line: seq<byte>, kept: seq<byte>, j: nat)
    requires j < |line| == |kept| < |w| && |line| < K16 && w[..|line|] == line
    requires forall i | 0 <= i < |line| - 1 :: parser.line(kept[..i], line[i]) == Amid(kept[i])
    requires parser.line(kept[..|line| - 1], line[|line| - 1]) == Complete(kept[|line| - 1])
    ensures ScanRequestLine(parser, w, kept[..j]) == LineEnds(kept)
    decreases |line| - j
  {
    assert w[j] == w[..|line|][j] == line[j];
    assert kept[..j] + [kept[j]] == kept[..j + 1];
    if j + 1 < |line| {
      LineTaken(parser, w, line, kept, j + 1);
    } else {
      assert kept[..j + 1] == kept;
    }
  }

  lemma MeantOnce(sent: seq<Sent>, x: seq<Line>, y: seq<Line>)
    requires MeanAll(sent, x) && MeanAll(sent, y)
    ensures x == y
  {
    forall k | 0 <= k < |x|
      ensures x[k] == y[k]
    {
      CaseIgnored(sent[k], sent[k], x[k], y[k]);
    }
  }

  lemma HeadTaken(parser: Parser, r: SentRequest, lines: seq<Line>, rest: seq<byte>, limits: Limits)
    requires r.Legal(parser.room, limits) && r.TakenBy(parser, lines)
    ensures
      var size := |r.line| + |SentLines.Texts(r.fields)| + |r.eol|;
      && parser.examine(r.kept, lines).Accepted?
      && ScanHead(parser, r.Text() + rest) == HeadScan(parser.examine(r.kept, lines).mode, r.kept, lines, size)
      && size <= |r.Text()| && (r.Text() + rest)[size..] == r.content.Text() + rest
  {
    hide ScanRequestLine, ParseSection, MeanAll, SentLines.AllLegal, SentLines.Texts, Content.Text;
    var w, k := r.Text() + rest, |r.line|;
    var section := SentLines.Texts(r.fields) + r.eol;
    RequestParts(r.line, SentLines.Texts(r.fields), r.eol, r.content.Text(), rest);
    assert r.kept[..0] == [];
    LineTaken(parser, w, r.line, r.kept, 0);
    assert StandsAt(w, k, section);
    SentSectionParsed(w, k, r.fields, r.eol, K16, parser.room);
    MeantOnce(r.fields, lines, ParseSection(w, K16, k, parser.room).lines);
  }

  lemma RequestParts(line: seq<byte>, fields: seq<byte>, eol: seq<byte>, content: seq<byte>, rest: seq<byte>)
    ensures
      var w := line + fields + eol + content + rest;
      && w[..|line|] == line && w[|line|..|line| + |fields + eol|] == fields + eol
      && w[|line| + |fields| + |eol|..] == content + rest
  {
  }

  lemma ContentTaken(c: Content, mode: Mode, rest: seq<byte>, limits: Limits)
    requires c.Legal(limits) && c.ToldBy(mode)
    ensures ContentOf(mode, c.Text() + rest, limits) == Part(c.Data(), rest)
  {
    hide Decode, BodyText, Fit, Chunk.WellFormed;
    match c {
      case Absent =>
        assert [] + rest == rest;
      case Plain(data) =>
        assert (data + rest)[..|data|] == data && (data + rest)[|data|..] == rest;
      case InChunks(chunks, last, trailers) =>
        DataIsContent(chunks);
        WellFormedReceived(chunks, last, trailers, rest, limits);
    }
  }

  /** What is received for a request that was sent is exactly this request: its line, its fields by their meaning,
      and its content, and what follows is left. */
  lemma RequestReceived(parser: Parser, r: SentRequest, lines: seq<Line>, rest: seq<byte>, limits: Limits)
    requires r.Legal(parser.room, limits) && r.TakenBy(parser, lines)
    ensures Next(parser, r.Text() + rest, limits) == Message(Request(r.kept, lines, r.content.Data()), rest)
  {
    hide ScanHead, ContentOf, SentRequest.Text, SentRequest.Legal, SentRequest.TakenBy, Content.Data, Content.Legal,
      Content.ToldBy;
    HeadTaken(parser, r, lines, rest, limits);
    ContentTold(parser, r, lines, limits);
    ContentTaken(r.content, parser.examine(r.kept, lines).mode, rest, limits);
  }

  lemma ContentTold(parser: Parser, r: SentRequest, lines: seq<Line>, limits: Limits)
    requires r.Legal(parser.room, limits) && r.TakenBy(parser, lines)
    ensures r.content.Legal(limits) && parser.examine(r.kept, lines).Accepted?
    ensures r.content.ToldBy(parser.examine(r.kept, lines).mode)
  {
  }

  /** Requests that are sent one behind the other, whatever their kinds of content, are served as exactly these, and
      what comes behind them is left. */
  lemma {:induction false} RequestsReceived(parser: Parser, sent: seq<SentRequest>, lines: seq<seq<Line>>,
    rest: seq<byte>,
    limits: Limits)
    requires |lines| == |sent|
    requires forall k | 0 <= k < |sent| :: sent[k].Legal(parser.room, limits) && sent[k].TakenBy(parser, lines[k])
    ensures
      var served := Requests(parser, AllText(sent) + rest, limits, |sent|);
      && |served| == |sent| && (sent != [] ==> served[|sent| - 1].rest == rest)
      && forall k | 0 <= k < |sent| :: served[k].request == Request(sent[k].kept, lines[k], sent[k].content.Data())
    decreases |sent|
  {
    hide Next, SentRequest.Text, SentRequest.TakenBy, SentRequest.Legal, Content.Data;
    if sent != [] {
      var r, later := sent[0], sent[1..];
      var behind := AllText(later) + rest;
      assert AllText(sent) + rest == r.Text() + behind;
      RequestReceived(parser, r, lines[0], behind, limits);
      assert forall k | 0 <= k < |later| :: later[k] == sent[k + 1] && lines[1..][k] == lines[k + 1];
      RequestsReceived(parser, later, lines[1..], rest, limits);
      var served := Requests(parser, behind, limits, |later|);
      assert Requests(parser, AllText(sent) + rest, limits, |sent|) ==
        [Next(parser, r.Text() + behind, limits)] + served;
    } else {
      assert [] + rest == rest;
    }
  }

  // ----- Nothing else is served -----

  lemma {:induction false} LineSoundly(parser: Parser, w: seq<byte>, done: seq<byte>)
    requires |done| <= |w| && ScanRequestLine(parser, w, done).LineEnds?
    ensures
      var kept := ScanRequestLine(parser, w, done).line;
      && done < kept && |kept| < |w|
      && (forall j | |done| <= j < |kept| - 1 :: parser.line(kept[..j], w[j]) == Amid(kept[j]))
      && parser.line(kept[..|kept| - 1], w[|kept| - 1]) == Complete(kept[|kept| - 1])
    decreases |w| - |done|
  {
    var look, kept := parser.line(done, w[|done|]), ScanRequestLine(parser, w, done).line;
    if look.Amid? {
      LineSoundly(parser, w, done + [look.kept]);
      assert kept[..|done|] == done;
    } else {
      assert kept[..|kept| - 1] == done;
    }
  }

  /** How the content of a request that was served had been sent. */
  ghost predicate SentAs(text: seq<byte>, content: seq<byte>, mode: Mode) {
    match mode
    case NoContent => text == content == []
    case Sized(n) => text == content && |content| == n
    case Vague => exists b: SentBody :: b.Legal() && b.Text() == text && ChunkData(b.chunks) == content
  }

  lemma ContentSound(mode: Mode, t: seq<byte>, limits: Limits) returns (text: seq<byte>)
    requires ContentOf(mode, t, limits).Part?
    ensures var p := ContentOf(mode, t, limits); SentAs(text, p.content, mode) && t == text + p.rest
  {
    hide Decode, SentBody.Legal, SentBody.Text, ChunkData;
    var p := ContentOf(mode, t, limits);
    match mode {
      case NoContent =>
        text := [];
        assert [] + t == t;
      case Sized(n) =>
        text := t[..n];
      case Vague =>
        var b := DecodeSound(t, limits);
        text := b.Text();
    }
  }

  /** Whatever is served as a request was sent as one: a line that the parser takes, field lines that mean those of
      the request, and a content of the kind its head tells. */
  lemma RequestSound(parser: Parser, w: seq<byte>, limits: Limits)
    returns (line: seq<byte>, fields: seq<Sent>, eol: seq<byte>, text: seq<byte>)
    requires Next(parser, w, limits).Message?
    ensures
      var m := Next(parser, w, limits);
      var kept, lines := m.request.line, m.request.lines;
      && w == line + (SentLines.Texts(fields) + eol) + text + m.rest
      && 0 < |line| == |kept| && (forall j | 0 <= j < |line| - 1 :: parser.line(kept[..j], line[j]) == Amid(kept[j]))
      && parser.line(kept[..|line| - 1], line[|line| - 1]) == Complete(kept[|line| - 1])
      && SentLines.AllLegal(fields) && IsLineEnd(eol) && MeanAll(fields, lines)
      && parser.examine(kept, lines).Accepted? && SentAs(text, m.request.content, parser.examine(kept, lines).mode)
  {
    hide ScanRequestLine, ParseSection, ContentOf, MeanAll, SentLines.AllLegal, SentLines.Texts, SentAs, IsLineEnd;
    var h := ScanHead(parser, w);
    var k := |h.line|;
    LineSoundly(parser, w, []);
    line := w[..k];
    fields, eol := SectionSound(w, k, K16, parser.room);
    text := ContentSound(h.mode, w[h.size..], limits);
    assert w == w[..k] + w[k..h.size] + w[h.size..];
    JoinTwice(w[..h.size], text, Next(parser, w, limits).rest);
    assert w[..h.size] == w[..k] + w[k..h.size];
  }
}
