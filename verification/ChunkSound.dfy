// Whatever is received as a chunked body was sent as one, up to what the receiver lets pass: a size without any
// digit, and a line feed alone for a line end.

module ChunkSound {
  import opened Bytes
  import opened Numbers
  import opened FieldLines
  import opened SentLines
  import opened Chunked
  import opened ChunkTheorems

  /** The line of a chunk size: digits, what stands between them and the line feed, and the line feed. */
  datatype SizeText = SizeText(digits: seq<byte>, middle: seq<byte>) {
    function Text(): seq<byte> { digits + middle + [10] }

    /** At most 15 digits, perhaps none; nothing, a carriage return, or an extension behind them. */
    predicate Legal() {
      && |digits| <= 15 && AllDigits(digits, 16)
      && (middle == [] || middle == [13] || (middle[0] == 59 && 10 !in middle))
    }

    function Size(): nat
      requires Legal()
    {
      Value(digits, 16)
    }
  }

  datatype SentChunk = SentChunk(line: SizeText, data: seq<byte>, end: seq<byte>) {
    function Text(): seq<byte> { line.Text() + data + end }

    predicate Legal() {
      line.Legal() && line.Size() == |data| > 0 && IsLineEnd(end)
    }
  }

  function ChunkTexts(chunks: seq<SentChunk>): seq<byte> {
    if chunks == [] then [] else chunks[0].Text() + ChunkTexts(chunks[1..])
  }

  function ChunkData(chunks: seq<SentChunk>): seq<byte> {
    if chunks == [] then [] else chunks[0].data + ChunkData(chunks[1..])
  }

  predicate ChunksLegal(chunks: seq<SentChunk>) {
    forall k | 0 <= k < |chunks| :: chunks[k].Legal()
  }

  /** A body as it was sent: chunks, the last chunk, trailer lines, and the empty line. */
  datatype SentBody = SentBody(chunks: seq<SentChunk>, last: SizeText, trailers: seq<Sent>, eol: seq<byte>) {
    function Text(): seq<byte> {
      ChunkTexts(chunks) + (last.Text() + (SentLines.Texts(trailers) + eol))
    }

    predicate Legal() {
      ChunksLegal(chunks) && last.Legal() && last.Size() == 0 && AllLegal(trailers) && IsLineEnd(eol)
    }
  }

  lemma {:induction false} DigitsSound(w: seq<byte>, q: nat, size: nat)
    requires q < |w| && q <= 15 && AllDigits(w[..q], 16) && size == Value(w[..q], 16)
    requires ScanSize(w, q, size).SizeDigits?
    ensures
      var r := ScanSize(w, q, size);
      q <= r.pos <= 15 && AllDigits(w[..r.pos], 16) && r.size == Value(w[..r.pos], 16)
    decreases |w| - q
  {
    if IsDigit(w[q], 16) {
      ValueMore(w, 16, q);
      DigitsSound(w, q + 1, size * 16 + DigitValue(w[q], 16));
    }
  }

  lemma {:induction false} ExtSound(w: seq<byte>, q: nat)
    requires q < |w| && ScanExt(w, q).At?
    ensures forall k | q <= k < ScanExt(w, q).pos :: w[k] != LF
    decreases |w| - q
  {
    if w[q] != LF {
      ExtSound(w, q + 1);
    }
  }

  lemma SizeLineSound(w: seq<byte>) returns (s: SizeText)
    requires w != [] && ParseSizeLine(w).SizeLine?
    ensures s.Legal() && s.Size() == ParseSizeLine(w).size && w[..ParseSizeLine(w).lf + 1] == s.Text()
  {
    hide ScanSize, ScanExt;
    assert w[..0] == [];
    NothingYet(16);
    DigitsSound(w, 0, 0);
    var q, lf := ScanSize(w, 0, 0).pos, ParseSizeLine(w).lf;
    if w[q] == SEMICOLON {
      ExtSound(w, q);
    }
    s := SizeText(w[..q], w[q..lf]);
    assert w[..lf + 1] == w[..q] + w[q..lf] + [w[lf]];
  }

  lemma EndingSound(w: seq<byte>, q: nat, limits: Limits) returns (trailers: seq<Sent>, eol: seq<byte>)
    requires q < |w| && Ending(w, q, limits).Body?
    ensures
      var o := Ending(w, q, limits);
      && AllLegal(trailers) && IsLineEnd(eol) && MeanAll(trailers, o.trailers) && |trailers| <= limits.room
      && w[q..] == SentLines.Texts(trailers) + eol + o.rest
  {
    hide ParseSection, MeanAll, AllLegal, IsLineEnd, Stored;
    var o := Ending(w, q, limits);
    if w[q] == CR || w[q] == LF {
      trailers, eol := [], if w[q] == CR then [13, 10] else [10];
      NothingMeant();
      LineEnds();
      assert w[q..] == eol + o.rest && [] + eol == eol;
    } else {
      var t := w[q..];
      trailers, eol := SectionSound(t, 0, K16, limits.room);
      var end := ParseSection(t, K16, 0, limits.room).end;
      assert t == t[0..end + 1] + t[end + 1..];
    }
  }

  lemma LineEnds()
    ensures IsLineEnd([13, 10]) && IsLineEnd([10])
  {
  }

  /** The line end behind chunk-data. */
  lemma DataEndSound(u: seq<byte>, limits: Limits) returns (end: seq<byte>, v: seq<byte>)
    requires AfterData(u, limits).Body?
    ensures IsLineEnd(end) && u == end + v && AfterData(u, limits) == Decode(v, limits)
  {
    hide Decode;
    if u[0] == CR {
      end, v := [13, 10], u[2..];
      assert u[1..][1..] == u[2..];
    } else {
      end, v := [10], u[1..];
    }
  }

  /** Whatever is received as a chunked body was sent as one: its content is the data of its chunks, in order, its
      trailers are what its trailer lines mean, and what stands behind it is left. */
  lemma {:induction false} DecodeSound(w: seq<byte>, limits: Limits) returns (b: SentBody)
    requires Decode(w, limits).Body?
    ensures
      var o := Decode(w, limits);
      && b.Legal() && w == b.Text() + o.rest && o.content == ChunkData(b.chunks) && |o.content| <= limits.max
      && MeanAll(b.trailers, o.trailers) && |b.trailers| <= limits.room
    decreases |w|
  {
    hide ParseSizeLine, Ending, AfterData, MeanAll, AllLegal, IsLineEnd, SizeText.Legal, SizeText.Text, Sent.Text;
    var o, n := Decode(w, limits), ParseSizeLine(w).lf + 1;
    var line := SizeLineSound(w);
    assert w == w[..n] + w[n..];
    if ParseSizeLine(w).size == 0 {
      var trailers, eol := EndingSound(w, n, limits);
      b := SentBody([], line, trailers, eol);
      LastJoined(line, SentLines.Texts(trailers), eol, o.rest);
    } else {
      var t, size := w[n..], ParseSizeLine(w).size;
      var less := limits.(max := limits.max - size);
      var data, u := t[..size], t[size..];
      var end, v := DataEndSound(u, less);
      var later := DecodeSound(v, less);
      var c := SentChunk(line, data, end);
      b := later.(chunks := [c] + later.chunks);
      ChunkJoined(c, later, o.rest);
      assert t == data + u;
      FourJoined(line.Text(), data, end, v);
    }
  }

  lemma LastJoined(line: SizeText, trailers: seq<byte>, eol: seq<byte>, rest: seq<byte>)
    ensures [] + (line.Text() + (trailers + eol)) + rest == line.Text() + (trailers + eol + rest)
  {
  }

  lemma FourJoined(a: seq<byte>, b: seq<byte>, c: seq<byte>, d: seq<byte>)
    ensures a + (b + (c + d)) == (a + b + c) + d
  {
  }

  lemma ChunkJoined(c: SentChunk, b: SentBody, rest: seq<byte>)
    requires c.Legal() && b.Legal()
    ensures
      var more := b.(chunks := [c] + b.chunks);
      && more.Legal() && more.Text() + rest == c.Text() + (b.Text() + rest)
      && ChunkData(more.chunks) == c.data + ChunkData(b.chunks)
  {
    hide SentChunk.Legal, SentChunk.Text, SizeText.Legal, SizeText.Text;
    assert ([c] + b.chunks)[1..] == b.chunks;
    FourJoined(c.Text(), ChunkTexts(b.chunks), b.last.Text() + (SentLines.Texts(b.trailers) + b.eol), rest);
  }
}
