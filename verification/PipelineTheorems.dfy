// Over a whole pipelined connection no byte is lost, invented or shared between two requests.

module PipelineTheorems {
  import opened Bytes
  import opened FieldLines
  import opened Chunked
  import opened ChunkTheorems
  import opened Locality
  import opened Pipelining

  lemma {:induction false} RequestLineLocal(parser: Parser, w: seq<byte>, v: seq<byte>, done: seq<byte>)
    requires |done| <= |w| && ScanRequestLine(parser, w, done).LineEnds?
    requires Agree(w, v, |ScanRequestLine(parser, w, done).line| + 1)
    ensures ScanRequestLine(parser, v, done) == ScanRequestLine(parser, w, done)
    decreases |w| - |done|
  {
    var look := parser.line(done, w[|done|]);
    if look.Amid? {
      RequestLineLocal(parser, w, v, done + [look.kept]);
    }
  }

  lemma HeadLocal(parser: Parser, w: seq<byte>, v: seq<byte>)
    requires ScanHead(parser, w).HeadScan? && Agree(w, v, ScanHead(parser, w).size)
    ensures ScanHead(parser, v) == ScanHead(parser, w)
  {
    hide ScanRequestLine, ParseSection;
    RequestLineLocal(parser, w, v, []);
    SectionLocal(w, v, K16, |ScanHead(parser, w).line|, parser.room);
  }

  lemma ContentLocal(mode: Mode, t: seq<byte>, v: seq<byte>, limits: Limits)
    requires ContentOf(mode, t, limits).Part? && |ContentOf(mode, t, limits).rest| <= |t|
    requires Agree(t, v, |t| - |ContentOf(mode, t, limits).rest|)
    ensures
      var p := ContentOf(mode, t, limits);
      ContentOf(mode, v, limits) == Part(p.content, v[|t| - |p.rest|..])
  {
    hide Decode;
    var p := ContentOf(mode, t, limits);
    match mode {
      case NoContent =>
        assert v[0..] == v;
      case Sized(n) =>
        SliceLocal(t, v, n, 0, n);
        assert t[..n] == t[0..n] && v[..n] == v[0..n];
      case Vague =>
        DecodeLocal(t, v, limits);
    }
  }

  lemma ContentUses(mode: Mode, t: seq<byte>, limits: Limits)
    requires ContentOf(mode, t, limits).Part?
    ensures Suffix(ContentOf(mode, t, limits).rest, t)
  {
    hide Decode;
    if mode.Vague? {
      BodyIsPrefix(t, limits);
    }
  }

  /** What is left behind a request is a proper suffix of the wire, and its head was in front of it. */
  lemma RequestUses(parser: Parser, w: seq<byte>, limits: Limits)
    requires Next(parser, w, limits).Message?
    ensures
      var m := Next(parser, w, limits);
      Suffix(m.rest, w) && 0 < |m.request.line| && |m.request.line| + |m.rest| < |w|
  {
    hide ContentOf;
    var k := ScanHead(parser, w).size;
    ContentUses(ScanHead(parser, w).mode, w[k..], limits);
    SuffixOf(Next(parser, w, limits).rest, w, k);
  }

  /** A request is recognised by its own bytes: whatever comes behind it is left for the next one. */
  lemma RequestLocal(parser: Parser, w: seq<byte>, v: seq<byte>, limits: Limits)
    requires Next(parser, w, limits).Message? && |Next(parser, w, limits).rest| <= |w|
    requires Agree(w, v, |w| - |Next(parser, w, limits).rest|)
    ensures
      var m := Next(parser, w, limits);
      Next(parser, v, limits) == Message(m.request, v[|w| - |m.rest|..])
  {
    hide ContentOf;
    var scan, m := ScanHead(parser, w), Next(parser, w, limits);
    var k, n := scan.size, |w| - |m.rest|;
    ContentUses(scan.mode, w[k..], limits);
    HeadLocal(parser, w, v);
    AgreeBehind(w, v, n, k);
    ContentLocal(scan.mode, w[k..], v[k..], limits);
    assert v[k..][n - k..] == v[n..];
  }

  /** Exactly one request, and nothing behind it. */
  predicate IsRequest(parser: Parser, span: seq<byte>, limits: Limits) {
    Next(parser, span, limits).Message? && Next(parser, span, limits).rest == []
  }

  /** The bytes of the first request, and of those behind it. */
  function Spans(parser: Parser, w: seq<byte>, limits: Limits, n: nat): seq<seq<byte>>
    decreases n
  {
    if n == 0 then [] else
    match Next(parser, w, limits)
    case NoMessage => []
    case Message(_, rest) =>
      if |rest| > |w| then [] else [w[..|w| - |rest|]] + Spans(parser, rest, limits, n - 1)
  }

  /** What is left behind the first n requests. */
  function Left(parser: Parser, w: seq<byte>, limits: Limits, n: nat): seq<byte> {
    var r := Requests(parser, w, limits, n);
    if r == [] then w else r[|r| - 1].rest
  }

  /** The requests that are served and the bytes that are left partition the wire: each request has a
      stretch of its own, on which alone it would be received as the same head and content. */
  lemma {:induction false} RequestsPartition(parser: Parser, w: seq<byte>, limits: Limits, n: nat)
    ensures
      var spans, served := Spans(parser, w, limits, n), Requests(parser, w, limits, n);
      && |spans| == |served|
      && w == Concat(spans) + Left(parser, w, limits, n)
      && forall k | 0 <= k < |spans| ::
        Next(parser, spans[k], limits) == Message(served[k].request, [])
    decreases n
  {
    hide Next;
    var m := Next(parser, w, limits);
    if n == 0 || m.NoMessage? {
      assert [] + w == w;
    } else {
      RequestUses(parser, w, limits);
      RequestsPartition(parser, m.rest, limits, n - 1);
      var span := w[..|w| - |m.rest|];
      RequestLocal(parser, w, span, limits);
      assert span[|span|..] == [];
      var spans, served := Spans(parser, m.rest, limits, n - 1), Requests(parser, m.rest, limits, n - 1);
      assert Spans(parser, w, limits, n) == [span] + spans;
      assert Requests(parser, w, limits, n) == [m] + served;
      LeftBehind(parser, w, limits, n);
      SpanJoined(w, m.rest, spans, Left(parser, m.rest, limits, n - 1));
    }
  }

  lemma SpanJoined(w: seq<byte>, rest: seq<byte>, spans: seq<seq<byte>>, left: seq<byte>)
    requires Suffix(rest, w) && rest == Concat(spans) + left
    ensures w == Concat([w[..|w| - |rest|]] + spans) + left
  {
    var span := w[..|w| - |rest|];
    ConcatAppend([span], spans);
    ConcatOne(span);
    assert w == span + rest;
    assert span + (Concat(spans) + left) == (span + Concat(spans)) + left;
  }

  lemma LeftBehind(parser: Parser, w: seq<byte>, limits: Limits, n: nat)
    requires n > 0 && Next(parser, w, limits).Message?
    ensures Left(parser, w, limits, n) == Left(parser, Next(parser, w, limits).rest, limits, n - 1)
  {
    hide Next;
    var m := Next(parser, w, limits);
    var served := Requests(parser, m.rest, limits, n - 1);
    assert Requests(parser, w, limits, n) == [m] + served;
    assert served != [] ==> ([m] + served)[|served|] == served[|served| - 1];
  }

  /** Requests that are sent one behind the other, in any number and of any kinds, are received as exactly
      these requests, and what comes behind them is left. */
  lemma {:induction false} PipelineReceived(parser: Parser, spans: seq<seq<byte>>, rest: seq<byte>, limits: Limits)
    requires forall k | 0 <= k < |spans| :: IsRequest(parser, spans[k], limits)
    ensures
      var served := Requests(parser, Concat(spans) + rest, limits, |spans|);
      && |served| == |spans| && Left(parser, Concat(spans) + rest, limits, |spans|) == rest
      && forall k | 0 <= k < |spans| ::
        Next(parser, spans[k], limits) == Message(served[k].request, [])
    decreases |spans|
  {
    hide Next;
    if spans == [] {
      assert [] + rest == rest;
    } else {
      var span, later := spans[0], spans[1..];
      var w := Concat(spans) + rest;
      assert w == span + (Concat(later) + rest);
      RequestLocal(parser, span, w, limits);
      assert w[|span|..] == Concat(later) + rest;
      assert forall k | 0 <= k < |later| :: later[k] == spans[k + 1];
      PipelineReceived(parser, later, rest, limits);
      LeftBehind(parser, w, limits, |spans|);
      var served := Requests(parser, Concat(later) + rest, limits, |later|);
      assert Requests(parser, w, limits, |spans|) == [Next(parser, w, limits)] + served;
    }
  }
}
