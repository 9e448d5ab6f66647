// What the chunked receiver and the chunk writer promise about each other, and about bodies as section 7.1
// of RFC 9112 writes them.

module ChunkTheorems {
  import opened Bytes
  import opened Numbers
  import opened FieldLines
  import opened Chunked

  // ----- Bodies by the grammar -----

  /** chunk = chunk-size [ chunk-ext ] CRLF chunk-data CRLF */
  datatype Chunk = Chunk(digits: seq<byte>, ext: seq<byte>, data: seq<byte>) {
    function SizeLine(): seq<byte> { digits + ext + CRLF }

    function Text(): seq<byte> { SizeLine() + data + CRLF }

    /** Sizes of up to 15 digits in either case, and size lines shorter than the window. */
    predicate WellFormed() {
      && 1 <= |digits| <= 15 && AllDigits(digits, 16) && Value(digits, 16) == |data|
      && (ext == [] || (ext[0] == SEMICOLON && LF !in ext))
      && |digits| + |ext| + 3 < K16
    }
  }

  function Texts(chunks: seq<Chunk>): seq<byte> {
    if chunks == [] then [] else chunks[0].Text() + Texts(chunks[1..])
  }

  function Content(chunks: seq<Chunk>): seq<byte> {
    if chunks == [] then [] else chunks[0].data + Content(chunks[1..])
  }

  /** chunked-body = *chunk last-chunk trailer-section CRLF */
  function BodyText(chunks: seq<Chunk>, last: Chunk, trailers: seq<Field>): seq<byte> {
    Texts(chunks) + last.SizeLine() + PrintAll(trailers) + CRLF
  }

  /** The trailers are legal, fit the window, and the receiver has room for them. */
  predicate Fit(trailers: seq<Field>, limits: Limits) {
    && (forall k | 0 <= k < |trailers| :: Legal(trailers[k]))
    && |PrintAll(trailers)| + 2 <= K16
    && |trailers| <= limits.room && Stored(LinesOf(trailers)) <= limits.space
  }

  lemma {:induction false} DigitsScanned(w: seq<byte>, digits: seq<byte>, q: nat)
    requires q <= |digits| <= 15 && AllDigits(digits, 16)
    requires |digits| < |w| && w[..|digits|] == digits && !IsDigit(w[|digits|], 16)
    ensures AllDigits(digits[..q], 16)
    ensures ScanSize(w, q, Value(digits[..q], 16)) == SizeDigits(Value(digits, 16), |digits|)
    decreases |digits| - q
  {
    if q == |digits| {
      assert digits[..q] == digits;
    } else {
      assert w[q] == digits[q];
      ValueMore(digits, 16, q);
      DigitsScanned(w, digits, q + 1);
    }
  }

  lemma {:induction false} ExtScanned(w: seq<byte>, q: nat, lf: nat)
    requires q <= lf < |w| && lf < K16 && w[lf] == LF
    requires forall k | q <= k < lf :: w[k] != LF
    ensures ScanExt(w, q) == At(lf)
    decreases lf - q
  {
    if q < lf {
      ExtScanned(w, q + 1, lf);
    }
  }

  lemma SizeLineParsed(w: seq<byte>, c: Chunk)
    requires c.WellFormed() && c.SizeLine() <= w
    ensures ParseSizeLine(w) == SizeLine(|c.data|, |c.SizeLine()| - 1)
  {
    var q, lf := |c.digits|, |c.SizeLine()| - 1;
    assert w[..q] == c.digits;
    assert forall k | 0 <= k < |c.ext| :: w[q + k] == c.ext[k];
    assert w[lf - 1] == CR && w[lf] == LF;
    assert c.digits[..0] == [];
    DigitsScanned(w, c.digits, 0);
    if c.ext != [] {
      assert w[q] == c.ext[0];
      assert forall k | q <= k < lf - 1 :: w[k] == c.ext[k - q];
      ExtScanned(w, q, lf);
    }
  }

  predicate Suffix(s: seq<byte>, w: seq<byte>) {
    |s| <= |w| && s == w[|w| - |s|..]
  }

  lemma DecodeStep(w: seq<byte>, size: nat, lf: nat, limits: Limits)
    requires w != [] && ParseSizeLine(w) == SizeLine(size, lf) && lf + 1 < |w| && lf + 1 < K16
    ensures size > limits.max ==> Decode(w, limits) == Bad
    ensures size == 0 ==> Decode(w, limits) == Ending(w, lf + 1, limits)
    ensures 0 < size <= limits.max ==> Decode(w, limits) == InData(w[lf + 1..], size, limits)
  {
    hide ParseSizeLine, Ending, InData;
  }

  lemma DataReceived(data: seq<byte>, w: seq<byte>, limits: Limits)
    requires |data| <= limits.max
    ensures InData(data + (CRLF + w), |data|, limits) == Decode(w, limits.(max := limits.max - |data|)).Prepend(data)
  {
    hide Decode, AfterData, AfterCr, InData;
    DataTaken(data, CRLF + w, limits);
    LineEndPassed(w, limits.(max := limits.max - |data|));
  }

  lemma DataTaken(data: seq<byte>, behind: seq<byte>, limits: Limits)
    requires |data| <= limits.max
    ensures InData(data + behind, |data|, limits) ==
      AfterData(behind, limits.(max := limits.max - |data|)).Prepend(data)
  {
    hide AfterData;
    DropFront(data, behind);
  }

  lemma LineEndPassed(w: seq<byte>, limits: Limits)
    ensures AfterData(CRLF + w, limits) == Decode(w, limits)
  {
    hide Decode, AfterData, AfterCr;
    LineEndSeen(CRLF + w, limits);
    DropFront(CRLF, w);
  }

  lemma DropFront(a: seq<byte>, b: seq<byte>)
    ensures (a + b)[|a|..] == b && (a + b)[..|a|] == a && a <= a + b
  {
  }

  /** One well-formed chunk is received as its data. */
  lemma ChunkReceived(c: Chunk, w: seq<byte>, limits: Limits)
    requires c.WellFormed() && c.data != []
    ensures |c.data| > limits.max ==> Decode(c.Text() + w, limits) == Bad
    ensures |c.data| <= limits.max ==>
      Decode(c.Text() + w, limits) == Decode(w, limits.(max := limits.max - |c.data|)).Prepend(c.data)
  {
    hide ParseSizeLine, Decode, InData, Chunk.WellFormed, Chunk.SizeLine, Chunk.Text;
    var line, behind := c.SizeLine(), c.data + (CRLF + w);
    SizeLineLength(c);
    TextParts(c, w);
    DropFront(line, behind);
    SizeLineParsed(line + behind, c);
    DecodeStep(line + behind, |c.data|, |line| - 1, limits);
    if |c.data| <= limits.max {
      DataReceived(c.data, w, limits);
    }
  }

  lemma SizeLineLength(c: Chunk)
    requires c.WellFormed()
    ensures 0 < |c.SizeLine()| < K16 - 1
  {
  }

  lemma TextParts(c: Chunk, w: seq<byte>)
    ensures c.Text() + w == c.SizeLine() + (c.data + (CRLF + w))
  {
  }

  /** The last chunk and what follows it. */
  lemma EndReceived(last: Chunk, trailers: seq<Field>, rest: seq<byte>, limits: Limits)
    requires last.WellFormed() && last.data == [] && Fit(trailers, limits)
    ensures Decode(last.SizeLine() + (PrintAll(trailers) + CRLF + rest), limits) == Body([], LinesOf(trailers), rest)
  {
    hide ParseSizeLine, Decode, Chunk.WellFormed, Chunk.SizeLine, PrintAll, Fit, ParseTrailers, Ending, LinesOf;
    var behind := PrintAll(trailers) + CRLF + rest;
    LastLinePassed(last, behind, limits);
    TrailersReceived(trailers, rest, limits);
    EndingReceived(last.SizeLine() + behind, |last.SizeLine()|, behind, limits, LinesOf(trailers), rest);
  }

  lemma LastLinePassed(last: Chunk, behind: seq<byte>, limits: Limits)
    requires last.WellFormed() && last.data == [] && behind != []
    ensures (last.SizeLine() + behind)[|last.SizeLine()|..] == behind && 0 < |last.SizeLine()| < K16 - 1
    ensures Decode(last.SizeLine() + behind, limits) == Ending(last.SizeLine() + behind, |last.SizeLine()|, limits)
  {
    hide ParseSizeLine, Decode, Chunk.WellFormed, Chunk.SizeLine;
    SizeLineLength(last);
    DropFront(last.SizeLine(), behind);
    SizeLineParsed(last.SizeLine() + behind, last);
    DecodeStep(last.SizeLine() + behind, 0, |last.SizeLine()| - 1, limits);
  }

  /** What stands behind the last size line is a trailer section, or only a line end. */
  lemma EndingReceived(w: seq<byte>, q: nat, behind: seq<byte>, limits: Limits, lines: seq<Line>, rest: seq<byte>)
    requires q + 1 < K16 && q < |w| && w[q..] == behind
    requires lines == [] ==> behind == CRLF + rest
    requires lines != [] ==> behind[0] != CR && behind[0] != LF && Suffix(rest, behind) && |rest| < |behind|
    requires lines != [] ==>
      ParseTrailers(behind, K16, limits.room, limits.space) == Lines(lines, |behind| - |rest| - 1)
    ensures Ending(w, q, limits) == Body([], lines, rest)
  {
    hide ParseTrailers;
    assert w[q] == behind[0];
    if lines == [] {
      assert w[q + 1] == behind[1];
      assert w[q + 2..] == behind[2..] == rest;
    }
  }

  lemma TrailersReceived(trailers: seq<Field>, rest: seq<byte>, limits: Limits)
    requires Fit(trailers, limits)
    ensures
      var w := PrintAll(trailers) + CRLF + rest;
      && (trailers == [] ==> w == CRLF + rest)
      && (trailers != [] ==> w[0] != CR && w[0] != LF)
      && Suffix(rest, w) && |rest| < |w|
      && ParseTrailers(w, K16, limits.room, limits.space) == Lines(LinesOf(trailers), |w| - |rest| - 1)
  {
    var section := PrintAll(trailers) + CRLF;
    var w := section + rest;
    assert w[0..0 + |section|] == section;
    hide ParseSection;
    SectionParsed(w, 0, trailers, K16, limits.room);
    if trailers != [] {
      assert w[0] == trailers[0].name[0];
    }
  }

  /** Every well-formed body whose content is not too large is received as exactly its chunk data and
      trailers, and what follows it is left. */
  lemma {:induction false} WellFormedReceived(chunks: seq<Chunk>, last: Chunk, trailers: seq<Field>, rest: seq<byte>,
    limits: Limits)
    requires forall k | 0 <= k < |chunks| :: chunks[k].WellFormed() && chunks[k].data != []
    requires last.WellFormed() && last.data == [] && Fit(trailers, limits)
    requires |Content(chunks)| <= limits.max
    ensures Decode(BodyText(chunks, last, trailers) + rest, limits) == Body(Content(chunks), LinesOf(trailers), rest)
    decreases |chunks|
  {
    hide Decode, PrintAll, Fit, Chunk.WellFormed, Chunk.Text, Chunk.SizeLine;
    if chunks == [] {
      assert BodyText(chunks, last, trailers) + rest == last.SizeLine() + (PrintAll(trailers) + CRLF + rest);
      EndReceived(last, trailers, rest, limits);
    } else {
      var c, later := chunks[0], chunks[1..];
      var w := BodyText(later, last, trailers) + rest;
      assert BodyText(chunks, last, trailers) + rest == c.Text() + w;
      ChunkReceived(c, w, limits);
      FitsLess(trailers, limits, limits.max - |c.data|);
      WellFormedReceived(later, last, trailers, rest, limits.(max := limits.max - |c.data|));
    }
  }

  lemma FitsLess(trailers: seq<Field>, limits: Limits, max: nat)
    requires Fit(trailers, limits)
    ensures Fit(trailers, limits.(max := max))
  {
  }

  // ----- Nothing is lost or made up -----

  lemma SuffixOf(s: seq<byte>, w: seq<byte>, k: nat)
    requires k <= |w| && Suffix(s, w[k..])
    ensures Suffix(s, w)
  {
  }

  /** On every wire: what is left behind a body is a proper suffix of the wire, and no more content is
      delivered than was allowed, nor more than came. */
  lemma {:induction false} BodyIsPrefix(w: seq<byte>, limits: Limits)
    requires Decode(w, limits).Body?
    ensures
      var o := Decode(w, limits);
      Suffix(o.rest, w) && |o.content| <= limits.max && |o.content| + |o.rest| < |w|
    decreases |w|
  {
    hide ParseSizeLine, Ending;
    var line := ParseSizeLine(w);
    var n := line.lf + 1;
    if line.size == 0 {
      EndingIsSuffix(w, n, limits);
    } else {
      var t, less := w[n..], limits.(max := limits.max - line.size);
      var u := t[line.size..];
      assert AfterData(u, less).Body?;
      LineEndSeen(u, less);
      var v := if u[0] == CR then u[2..] else u[1..];
      assert u[0] == CR ==> u[1..][1..] == u[2..];
      if u[0] == CR {
        LineEndSeen(u[1..], less);
      }
      assert AfterData(u, less) == Decode(v, less);
      BodyIsPrefix(v, less);
      var rest := Decode(v, less).rest;
      SuffixOf(rest, u, |u| - |v|);
      SuffixOf(rest, t, line.size);
      SuffixOf(rest, w, n);
    }
  }

  lemma EndingIsSuffix(w: seq<byte>, q: nat, limits: Limits)
    requires q < |w| && Ending(w, q, limits).Body?
    ensures Suffix(Ending(w, q, limits).rest, w) && |Ending(w, q, limits).rest| < |w|
  {
    hide ParseTrailers, ScanEol;
  }

  // ----- The writer -----

  /** What _writeTextPiece writes. */
  function Written(data: seq<byte>): seq<byte> {
    Digits(|data|, 16) + CRLF + data + CRLF
  }

  function WrittenAll(pieces: seq<seq<byte>>): seq<byte> {
    if pieces == [] then [] else Written(pieces[0]) + WrittenAll(pieces[1..])
  }

  lemma {:induction false} WrittenAppend(a: seq<seq<byte>>, b: seq<seq<byte>>)
    ensures WrittenAll(a + b) == WrittenAll(a) + WrittenAll(b)
  {
    if a == [] {
      assert a + b == b;
    } else {
      assert (a + b)[1..] == a[1..] + b;
      WrittenAppend(a[1..], b);
    }
  }

  /** A file goes out in pieces of 16K. */
  function Cuts(file: seq<byte>): (pieces: seq<seq<byte>>)
    ensures Concat(pieces) == file
    ensures forall k | 0 <= k < |pieces| :: 0 < |pieces[k]| <= K16
  {
    if file == [] then []
    else if |file| <= K16 then
      ConcatOne(file);
      [file]
    else [file[..K16]] + Cuts(file[K16..])
  }

  /** What finalizeVague writes. */
  function WrittenEnd(trailers: seq<Field>): seq<byte> {
    [48] + CRLF + PrintAll(trailers) + CRLF
  }

  class Writer {
    var sent: seq<byte>
    const sizeBuffer: array<byte>

    constructor ()
      ensures sent == [] && sizeBuffer.Length == 256 && fresh(sizeBuffer)
    {
      sent := [];
      sizeBuffer := new byte[256](_ => 0);
    }

    /** A text piece is one chunk. */
    method WriteTextPiece(piece: seq<byte>)
      requires |piece| < I64_LIMIT && sizeBuffer.Length == 256
      modifies this`sent, sizeBuffer
      ensures sent == old(sent) + Written(piece)
    {
      WriteChunk(piece);
    }

    method WriteChunk(data: seq<byte>)
      requires |data| < I64_LIMIT && sizeBuffer.Length == 256
      modifies this`sent, sizeBuffer
      ensures sent == old(sent) + Written(data)
    {
      hide Digits, Pasted;
      ghost var was := sizeBuffer[..];
      var n := PutI64(|data|, 16, sizeBuffer, 0);
      PastedSlice(was, 0, Digits(|data|, 16), 0, n);
      assert sizeBuffer[..][0..n] == Digits(|data|, 16);
      ghost var size := sizeBuffer[..n];
      assert size == sizeBuffer[..][0..n];
      sizeBuffer[n], sizeBuffer[n + 1] := CR, LF;
      assert sizeBuffer[..n + 2] == size + CRLF;
      sent := sent + (sizeBuffer[..n + 2] + data + CRLF);
    }

    /** A file piece is read and sent in chunks of up to 16K; a file that turns out shorter breaks the
        stream, before the piece that was cut short is sent. */
    method WriteFilePiece(file: seq<byte>, size: nat) returns (ok: bool)
      requires size < I64_LIMIT && sizeBuffer.Length == 256
      modifies this`sent, sizeBuffer
      ensures ok == (size <= |file|)
      ensures ok ==> sent == old(sent) + WrittenAll(Cuts(file[..size]))
      ensures !ok ==> sent == old(sent) + WrittenAll(Cuts(file[..|file| - |file| % K16]))
    {
      hide Written, WrittenAll, Cuts;
      var sizeRead: nat := 0;
      assert old(sent) + [] == old(sent) && file[..0] == [];
      CutNothing();
      while sizeRead != size
        invariant sizeRead <= size && sizeRead <= |file|
        invariant sizeRead % K16 == 0 || sizeRead == size
        invariant sent == old(sent) + WrittenAll(Cuts(file[..sizeRead]))
        decreases size - sizeRead
      {
        var readSize := if size - sizeRead < K16 then size - sizeRead else K16;
        if |file| - sizeRead < readSize {
          return false;
        }
        CutMore(file, sizeRead, readSize);
        WriteChunk(file[sizeRead..sizeRead + readSize]);
        sizeRead := sizeRead + readSize;
      }
      ok := true;
    }

    /** finalizeVague: the last chunk, then the trailer fields if there are any. */
    method FinalizeVague(trailers: seq<byte>, numTrailerFields: nat, ghost fields: seq<Field>)
      requires trailers == PrintAll(fields) && numTrailerFields == |fields| + 1
      modifies this`sent
      ensures sent == old(sent) + WrittenEnd(fields)
    {
      if numTrailerFields == 1 {
        sent := sent + [48, CR, LF, CR, LF];
        assert WrittenEnd(fields) == [48, CR, LF, CR, LF];
      } else {
        sent := sent + ([48, CR, LF] + trailers + CRLF);
      }
    }
  }

  lemma CutNothing()
    ensures WrittenAll(Cuts([])) == []
  {
  }

  lemma {:induction false} CutsAppend(a: seq<byte>, b: seq<byte>)
    requires |a| % K16 == 0 && 0 < |b| <= K16
    ensures Cuts(a + b) == Cuts(a) + [b]
    decreases |a|
  {
    if a == [] {
      assert a + b == b;
    } else {
      assert (a + b)[..K16] == a[..K16] && (a + b)[K16..] == a[K16..] + b;
      CutsAppend(a[K16..], b);
      if |a| == K16 {
        assert a[..K16] == a && a[K16..] == [];
      }
    }
  }

  lemma CutMore(file: seq<byte>, k: nat, n: nat)
    requires k + n <= |file| && k % K16 == 0 && 0 < n <= K16
    ensures WrittenAll(Cuts(file[..k + n])) == WrittenAll(Cuts(file[..k])) + Written(file[k..k + n])
  {
    var b := file[k..k + n];
    assert file[..k + n] == file[..k] + b;
    CutsAppend(file[..k], b);
    WrittenAppend(Cuts(file[..k]), [b]);
    assert WrittenAll([b]) == Written(b) + WrittenAll([]);
  }

  // ----- The writer and the receiver together -----

  /** A piece that the receiver takes for what it is. */
  predicate Readable(piece: seq<byte>) {
    0 < |piece| < Pow(16, 15)
  }

  lemma WrittenIsChunk(piece: seq<byte>)
    requires Readable(piece)
    ensures
      var c := Chunk(Digits(|piece|, 16), [], piece);
      c.WellFormed() && c.Text() == Written(piece)
  {
    hide Digits, Value, Pow, AllDigits;
    DigitsValue(|piece|, 16);
    DigitsFit(|piece|, 16, 15);
    var d := Digits(|piece|, 16);
    assert d + [] == d;
  }

  /** An empty piece reads as the end of the body. */
  lemma EmptyPieceEndsBody(w: seq<byte>, limits: Limits)
    ensures Decode(Written([]) + w, limits) == Body([], [], w)
  {
    var last := Chunk([48], [], []);
    ZeroIsLast();
    var behind := CRLF + w;
    assert Written([]) + w == last.SizeLine() + behind;
    hide Decode, Ending, Chunk.WellFormed, Chunk.SizeLine;
    LastLinePassed(last, behind, limits);
    EndingReceived(last.SizeLine() + behind, |last.SizeLine()|, behind, limits, [], w);
  }

  lemma ZeroIsLast()
    ensures Chunk([48], [], []).WellFormed() && Chunk([48], [], []).SizeLine() == [48] + CRLF && Digits(0, 16) == [48]
  {
    assert Value([48], 16) == Value([48][..0], 16) * 16 + 0;
  }

  lemma {:induction false} DigitsLong(n: nat, base: Base, k: nat)
    requires n >= Pow(base, k)
    ensures |Digits(n, base)| > k
    decreases k
  {
    if k > 0 {
      assert Pow(base, k) == Pow(base, k - 1) * base;
      assert n / base >= Pow(base, k - 1);
      DigitsLong(n / base, base, k - 1);
    }
  }

  lemma {:induction false} TooManyDigits(w: seq<byte>, q: nat, size: nat)
    requires q <= 15 && |w| >= 16 && AllDigits(w[..16], 16)
    ensures ScanSize(w, q, size) == NoDigits
    decreases 16 - q
  {
    assert w[q] == w[..16][q];
    if q < 15 {
      TooManyDigits(w, q + 1, size * 16 + DigitValue(w[q], 16));
    }
  }

  lemma LongPieceRefused(piece: seq<byte>, w: seq<byte>, limits: Limits)
    requires |piece| >= Pow(16, 15)
    ensures Decode(Written(piece) + w, limits) == Bad
  {
    hide Digits, Value, Pow;
    var d := Digits(|piece|, 16);
    DigitsLong(|piece|, 16, 15);
    DigitsValue(|piece|, 16);
    var all := Written(piece) + w;
    assert all[..16] == d[..16];
    TooManyDigits(all, 0, 0);
  }

  /** What is received of a written body that starts with that piece. */
  lemma PieceReceived(piece: seq<byte>, w: seq<byte>, limits: Limits)
    ensures piece == [] ==> Decode(Written(piece) + w, limits) == Body([], [], w)
    ensures |piece| >= Pow(16, 15) || |piece| > limits.max ==> Decode(Written(piece) + w, limits) == Bad
    ensures Readable(piece) && |piece| <= limits.max ==>
      Decode(Written(piece) + w, limits) == Decode(w, limits.(max := limits.max - |piece|)).Prepend(piece)
  {
    hide Decode, Pow, Written, Chunk.WellFormed, Chunk.Text;
    if piece == [] {
      EmptyPieceEndsBody(w, limits);
      assert Pow(16, 15) >= 1;
    } else if Readable(piece) {
      WrittenIsChunk(piece);
      ChunkReceived(Chunk(Digits(|piece|, 16), [], piece), w, limits);
    } else {
      LongPieceRefused(piece, w, limits);
    }
  }

  /** What the pieces of a message look like on the wire, ended by its trailers. */
  function WrittenBody(pieces: seq<seq<byte>>, trailers: seq<Field>): seq<byte> {
    WrittenAll(pieces) + WrittenEnd(trailers)
  }

  lemma WrittenBodyStep(pieces: seq<seq<byte>>, trailers: seq<Field>, rest: seq<byte>)
    requires pieces != []
    ensures WrittenBody(pieces, trailers) + rest == Written(pieces[0]) + (WrittenBody(pieces[1..], trailers) + rest)
  {
    hide Written, WrittenEnd;
  }

  lemma WrittenEndReceived(trailers: seq<Field>, rest: seq<byte>, limits: Limits)
    requires Fit(trailers, limits)
    ensures Decode(WrittenBody([], trailers) + rest, limits) == Body([], LinesOf(trailers), rest)
  {
    ZeroIsLast();
    var last := Chunk([48], [], []);
    assert WrittenBody([], trailers) + rest == last.SizeLine() + (PrintAll(trailers) + CRLF + rest);
    hide Decode, Chunk.WellFormed, Chunk.SizeLine, Fit;
    EndReceived(last, trailers, rest, limits);
  }

  /** What the writer sends is received as the same content and the same trailers, with nothing taken
      of what follows, exactly when no piece is empty, none has 2^60 bytes or more, and the whole is
      not too large. */
  lemma {:induction false} WrittenBodyReceived(pieces: seq<seq<byte>>, trailers: seq<Field>, rest: seq<byte>,
    limits: Limits)
    requires Fit(trailers, limits)
    ensures Decode(WrittenBody(pieces, trailers) + rest, limits) == Body(Concat(pieces), LinesOf(trailers), rest)
      <==> (forall k | 0 <= k < |pieces| :: Readable(pieces[k])) && |Concat(pieces)| <= limits.max
    decreases |pieces|
  {
    hide Decode, Pow, Written, WrittenBody, WrittenAll, LinesOf, Fit, PrintAll;
    if pieces == [] {
      WrittenEndReceived(trailers, rest, limits);
    } else {
      var piece, later := pieces[0], pieces[1..];
      var w := WrittenBody(later, trailers) + rest;
      WrittenBodyStep(pieces, trailers, rest);
      PieceReceived(piece, w, limits);
      AllReadable(pieces);
      WrittenIsLonger(later, trailers);
      if Readable(piece) && |piece| <= limits.max {
        var less := limits.(max := limits.max - |piece|);
        FitsLess(trailers, limits, less.max);
        WrittenBodyReceived(later, trailers, rest, less);
        PrependTells(Decode(w, less), piece, Concat(later), LinesOf(trailers), rest);
      }
    }
  }

  lemma AllReadable(pieces: seq<seq<byte>>)
    requires pieces != []
    ensures (forall k | 0 <= k < |pieces| :: Readable(pieces[k]))
      <==> Readable(pieces[0]) && forall k | 0 <= k < |pieces[1..]| :: Readable(pieces[1..][k])
  {
    if Readable(pieces[0]) && forall k | 0 <= k < |pieces[1..]| :: Readable(pieces[1..][k]) {
      forall k | 0 <= k < |pieces|
        ensures Readable(pieces[k])
      {
        assert k > 0 ==> pieces[k] == pieces[1..][k - 1];
      }
    }
    if forall k | 0 <= k < |pieces| :: Readable(pieces[k]) {
      forall k | 0 <= k < |pieces[1..]|
        ensures Readable(pieces[1..][k])
      {
        assert pieces[1..][k] == pieces[k + 1];
      }
    }
  }

  lemma WrittenIsLonger(pieces: seq<seq<byte>>, trailers: seq<Field>)
    ensures |WrittenBody(pieces, trailers)| > 0
  {
  }

  lemma PrependTells(o: Outcome, data: seq<byte>, content: seq<byte>, trailers: seq<Line>, rest: seq<byte>)
    ensures o.Prepend(data) == Body(data + content, trailers, rest) <==> o == Body(content, trailers, rest)
  {
    if o.Prepend(data) == Body(data + content, trailers, rest) {
      assert (data + o.content)[|data|..] == o.content;
      assert (data + content)[|data|..] == content;
    }
  }
}
