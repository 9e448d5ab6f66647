// Field lines: *( field-name ":" OWS field-value OWS CRLF ) CRLF, as HTTP/1 heads and trailer sections
// carry them (section 5 of RFC 9112). What a section on the wire means, and how it is printed.

module FieldLines {
  import opened Bytes

  /** The classes of httpTchar: 0 is no token character, 2 is upper case, 3 is the underscore. */
  function Tchar(b: byte): (t: nat)
    ensures t <= 3
  {
    if 65 <= b <= 90 then 2
    else if b == 95 then 3
    else if b == 33 || 35 <= b <= 39 || b == 42 || b == 43 || b == 45 || b == 46 || 48 <= b <= 57
         || b == 94 || 96 <= b <= 122 || b == 124 || b == 126 then 1
    else 0
  }

  function Lower(b: byte): byte {
    if Tchar(b) == 2 then b + 0x20 else b
  }

  function Lowered(name: seq<byte>): (l: seq<byte>)
    ensures |l| == |name|
  {
    seq(|name|, k requires 0 <= k < |name| => Lower(name[k]))
  }

  /** The 16-bit name hash: the sum of the bytes. */
  function Hash(name: seq<byte>): uint16 {
    if name == [] then 0 else (Hash(name[..|name| - 1]) + name[|name| - 1]) % 0x1_0000
  }

  predicate IsOws(b: byte) { b == SP || b == HT }

  predicate IsValueByte(b: byte) { (b >= 0x20 && b != 0x7f) || b == HT }

  // ----- Parsing, on the wire -----

  /** Why a section is refused: malformed, too large for its buffer (or too many lines), cut off. */
  datatype Why = Malformed | TooLarge | CutOff

  datatype Scan = At(pos: nat) | Stop(why: Why)

  /** Steps over w[q]. The next byte must fit within `limit` and must arrive. */
  function Move(w: seq<byte>, limit: nat, q: nat): (r: Scan)
    ensures r.At? ==> r.pos == q + 1 < |w| && r.pos < limit
  {
    if q + 1 >= limit then Stop(TooLarge) else if q + 1 >= |w| then Stop(CutOff) else At(q + 1)
  }

  function ScanName(w: seq<byte>, limit: nat, q: nat): (r: Scan)
    requires q < |w|
    ensures r.At? ==> q <= r.pos < |w| && w[r.pos] == COLON
    decreases |w| - q
  {
    if Tchar(w[q]) != 0 then
      match Move(w, limit, q)
      case Stop(why) => Stop(why)
      case At(n) => ScanName(w, limit, n)
    else if w[q] == COLON then At(q)
    else Stop(Malformed)
  }

  function ScanOws(w: seq<byte>, limit: nat, q: nat): (r: Scan)
    requires q < |w|
    ensures r.At? ==> q <= r.pos < |w| && !IsOws(w[r.pos])
    decreases |w| - q
  {
    if IsOws(w[q]) then
      match Move(w, limit, q)
      case Stop(why) => Stop(why)
      case At(n) => ScanOws(w, limit, n)
    else At(q)
  }

  /** Steps over a carriage return, behind which there must be a line feed. */
  function ScanEol(w: seq<byte>, limit: nat, q: nat): (r: Scan)
    requires q < |w|
    ensures r.At? ==> q < r.pos < |w| && w[r.pos] == LF && r.pos == q + 1
  {
    match Move(w, limit, q)
    case Stop(why) => Stop(why)
    case At(n) => if w[n] == LF then At(n) else Stop(Malformed)
  }

  function ScanValue(w: seq<byte>, limit: nat, q: nat): (r: Scan)
    requires q < |w|
    ensures r.At? ==> q <= r.pos < |w| && w[r.pos] == LF
    decreases |w| - q
  {
    if IsValueByte(w[q]) then
      match Move(w, limit, q)
      case Stop(why) => Stop(why)
      case At(n) => ScanValue(w, limit, n)
    else if w[q] == CR then ScanEol(w, limit, q)
    else if w[q] == LF then At(q)
    else Stop(Malformed)
  }

  function TrimOws(w: seq<byte>, back: nat, fore: nat): (f: nat)
    requires back <= fore <= |w|
    ensures back <= f <= fore
  {
    if back < fore && IsOws(w[fore - 1]) then TrimOws(w, back, fore - 1) else fore
  }

  /** Where a value that starts at `back` and whose line feed is at `lf` ends. */
  function ValueEnd(w: seq<byte>, back: nat, lf: nat): (f: nat)
    requires 0 < back <= lf < |w|
    ensures back <= f <= lf || (f == lf - 1 && back == lf)
  {
    var fore := if w[lf - 1] == CR then lf - 1 else lf;
    if fore > back then TrimOws(w, back, fore) else fore
  }

  datatype Line = Line(name: seq<byte>, value: seq<byte>, hash: uint16)

  datatype OneLine = LineTo(line: Line, lf: nat) | NoLine(why: Why)

  /** Where the colon and the value of a line are. */
  datatype LineStart = StartAt(colon: nat, value: nat) | NoStart(why: Why)

  function ParseStart(w: seq<byte>, limit: nat, p: nat): (r: LineStart)
    requires p < |w|
    ensures r.StartAt? ==>
      p < r.colon <= p + 255 && r.colon < r.value < |w| && w[r.colon] == COLON && !IsOws(w[r.value])
  {
    match ScanName(w, limit, p)
    case Stop(why) => NoStart(why)
    case At(c) =>
      if c == p || c - p > 255 then NoStart(Malformed) else
      match Move(w, limit, c) {
        case Stop(why) => NoStart(why)
        case At(o) =>
          match ScanOws(w, limit, o)
          case Stop(why) => NoStart(why)
          case At(b) => StartAt(c, b)
      }
  }

  /** The field line that starts at p. */
  function ParseLine(w: seq<byte>, limit: nat, p: nat): (r: OneLine)
    requires p < |w|
    ensures r.LineTo? ==> p < r.lf < |w|
  {
    match ParseStart(w, limit, p)
    case NoStart(why) => NoLine(why)
    case StartAt(c, b) =>
      match ScanValue(w, limit, b)
      case Stop(why) => NoLine(why)
      case At(lf) => LineTo(LineAt(w, p, c, b, lf), lf)
  }

  function LineAt(w: seq<byte>, p: nat, c: nat, b: nat, lf: nat): Line
    requires p <= c < b <= lf < |w|
  {
    Line(Lowered(w[p..c]), ValueOf(w, b, lf), Hash(Lowered(w[p..c])))
  }

  function ValueOf(w: seq<byte>, back: nat, lf: nat): seq<byte>
    requires 0 < back <= lf < |w|
  {
    if back <= ValueEnd(w, back, lf) then w[back..ValueEnd(w, back, lf)] else []
  }

  datatype Section = Lines(lines: seq<Line>, end: nat) | Broken(why: Why) {
    function Prepend(done: seq<Line>): Section {
      if Broken? then this else Lines(done + lines, end)
    }
  }

  /** The section that starts at p, with at most `room` lines; `end` is where its last line feed is. */
  function ParseSection(w: seq<byte>, limit: nat, p: nat, room: nat): (r: Section)
    requires p < |w|
    ensures r.Lines? ==> p <= r.end < |w|
    decreases |w| - p
  {
    if w[p] == CR then
      match ScanEol(w, limit, p)
      case Stop(why) => Broken(why)
      case At(q) => Lines([], q)
    else if w[p] == LF then Lines([], p)
    else
      match ParseLine(w, limit, p)
      case NoLine(why) => Broken(why)
      case LineTo(line, lf) =>
        if room == 0 then Broken(TooLarge) else
        match Move(w, limit, lf)
        case Stop(why) => Broken(why)
        case At(n) => ParseSection(w, limit, n, room - 1).Prepend([line])
  }

  /** What a section does with the line, or the end, at p. */
  lemma SectionNext(w: seq<byte>, limit: nat, p: nat, room: nat)
    requires p < |w|
    ensures w[p] == LF ==> ParseSection(w, limit, p, room) == Lines([], p)
    ensures w[p] == CR && ScanEol(w, limit, p).Stop? ==>
      ParseSection(w, limit, p, room) == Broken(ScanEol(w, limit, p).why)
    ensures w[p] == CR && ScanEol(w, limit, p).At? ==> ParseSection(w, limit, p, room) == Lines([], p + 1)
    ensures w[p] != CR && w[p] != LF && ParseLine(w, limit, p).NoLine? ==>
      ParseSection(w, limit, p, room) == Broken(ParseLine(w, limit, p).why)
    ensures w[p] != CR && w[p] != LF && ParseLine(w, limit, p).LineTo? ==>
      var lf := ParseLine(w, limit, p).lf;
      && (room == 0 ==> ParseSection(w, limit, p, room) == Broken(TooLarge))
      && (room > 0 && Move(w, limit, lf).Stop? ==> ParseSection(w, limit, p, room) == Broken(Move(w, limit, lf).why))
      && (room > 0 && Move(w, limit, lf).At? ==>
           ParseSection(w, limit, p, room) ==
             ParseSection(w, limit, lf + 1, room - 1).Prepend([ParseLine(w, limit, p).line]))
  {
    hide ParseLine, ScanEol;
  }

  lemma PrependPrepend(s: Section, a: seq<Line>, b: seq<Line>)
    ensures s.Prepend(b).Prepend(a) == s.Prepend(a + b)
  {
    if s.Lines? {
      assert a + (b + s.lines) == (a + b) + s.lines;
    }
  }

  /** The bytes the lines of a trailer section take in the array they are copied to. */
  function Stored(lines: seq<Line>): nat {
    if lines == [] then 0 else |lines[0].name| + |lines[0].value| + Stored(lines[1..])
  }

  lemma {:induction false} StoredAppend(a: seq<Line>, b: seq<Line>)
    ensures Stored(a + b) == Stored(a) + Stored(b)
  {
    if a == [] {
      assert a + b == b;
    } else {
      assert (a + b)[1..] == a[1..] + b;
      StoredAppend(a[1..], b);
    }
  }

  /** The trailer section at the start of w, with room for that many lines and bytes. */
  function ParseTrailers(w: seq<byte>, limit: nat, room: nat, space: nat): (r: Section)
    requires w != []
    ensures r.Lines? ==> r.end < |w|
  {
    var s := ParseSection(w, limit, 0, room);
    if s.Lines? && Stored(s.lines) > space then Broken(TooLarge) else s
  }

  /** Once the lines up to p take too much, the whole section does. */
  lemma OutOfSpace(w: seq<byte>, limit: nat, room: nat, space: nat, p: nat, done: seq<Line>, line: Line)
    requires w != [] && p < |w| && |done| < room
    requires ParseSection(w, limit, 0, room) == ParseSection(w, limit, p, room - |done|).Prepend(done)
    requires w[p] != CR && w[p] != LF && ParseLine(w, limit, p).LineTo? && ParseLine(w, limit, p).line == line
    requires Stored(done + [line]) > space
    ensures ParseTrailers(w, limit, room, space).Broken?
  {
    hide ParseSection, ParseLine, Move, Stored;
    SectionNext(w, limit, p, room - |done|);
    var s := ParseSection(w, limit, 0, room);
    if s.Lines? {
      var later := ParseSection(w, limit, ParseLine(w, limit, p).lf + 1, room - |done| - 1);
      PrependPrepend(later, done, [line]);
      StoredAppend(done + [line], later.lines);
    }
  }

  // ----- Printing -----

  datatype Field = Field(name: seq<byte>, value: seq<byte>)

  function Print(f: Field): seq<byte> {
    f.name + [COLON, SP] + f.value + CRLF
  }

  function PrintAll(fields: seq<Field>): seq<byte> {
    if fields == [] then [] else Print(fields[0]) + PrintAll(fields[1..])
  }

  lemma {:induction false} PrintAllAppend(a: seq<Field>, b: seq<Field>)
    ensures PrintAll(a + b) == PrintAll(a) + PrintAll(b)
  {
    if a == [] {
      assert a + b == b;
    } else {
      assert (a + b)[1..] == a[1..] + b;
      PrintAllAppend(a[1..], b);
    }
  }

  /** A lower-case token of at most 255 bytes. */
  predicate LegalName(name: seq<byte>) {
    0 < |name| <= 255 && forall k | 0 <= k < |name| :: Tchar(name[k]) == 1 || Tchar(name[k]) == 3
  }

  /** Printable, and without OWS around it. */
  predicate LegalValue(value: seq<byte>) {
    && (forall k | 0 <= k < |value| :: IsValueByte(value[k]))
    && (value != [] ==> !IsOws(value[0]) && !IsOws(value[|value| - 1]))
  }

  predicate Legal(f: Field) {
    LegalName(f.name) && LegalValue(f.value)
  }

  function LineOf(f: Field): Line {
    Line(f.name, f.value, Hash(f.name))
  }

  function LinesOf(fields: seq<Field>): (lines: seq<Line>)
    ensures |lines| == |fields|
  {
    if fields == [] then [] else [LineOf(fields[0])] + LinesOf(fields[1..])
  }

  // ----- The two together -----

  lemma {:induction false} NameScanned(w: seq<byte>, limit: nat, p: nat, c: nat)
    requires p <= c < |w| && c < limit && w[c] == COLON
    requires forall k | p <= k < c :: Tchar(w[k]) != 0
    ensures ScanName(w, limit, p) == At(c)
    decreases c - p
  {
    if p < c {
      NameScanned(w, limit, p + 1, c);
    }
  }

  lemma {:induction false} ValueScanned(w: seq<byte>, limit: nat, b: nat, e: nat)
    requires b <= e && e + 1 < |w| && e + 1 < limit && w[e] == CR && w[e + 1] == LF
    requires forall k | b <= k < e :: IsValueByte(w[k])
    ensures ScanValue(w, limit, b) == At(e + 1)
    decreases e - b
  {
    if b < e {
      ValueScanned(w, limit, b + 1, e);
    }
  }

  /** Says that the text stands in w at p. */
  predicate StandsAt(w: seq<byte>, p: nat, text: seq<byte>) {
    p + |text| <= |w| && w[p..p + |text|] == text
  }

  lemma StandsSplit(w: seq<byte>, p: nat, a: seq<byte>, b: seq<byte>)
    requires StandsAt(w, p, a + b)
    ensures StandsAt(w, p, a) && StandsAt(w, p + |a|, b)
  {
    assert w[p..p + |a|] == (a + b)[..|a|] == a;
    assert w[p + |a|..p + |a| + |b|] == (a + b)[|a|..] == b;
  }

  lemma StandsIndex(w: seq<byte>, p: nat, text: seq<byte>, k: nat)
    requires StandsAt(w, p, text) && p <= k < p + |text|
    ensures w[k] == text[k - p]
  {
    assert w[k] == w[p..p + |text|][k - p];
  }

  /** The parts of a printed field, in their places. */
  predicate PartsAt(w: seq<byte>, p: nat, f: Field) {
    var c := p + |f.name|;
    var e := c + 2 + |f.value|;
    && e + 2 <= |w|
    && w[p..c] == f.name && w[c] == COLON && w[c + 1] == SP && w[c + 2..e] == f.value && w[e] == CR && w[e + 1] == LF
  }

  lemma PrintedParts(w: seq<byte>, p: nat, f: Field)
    requires StandsAt(w, p, Print(f))
    ensures PartsAt(w, p, f) && |Print(f)| == |f.name| + |f.value| + 4
  {
    var c := p + |f.name|;
    var e := c + 2 + |f.value|;
    StandsSplit(w, p, f.name + [COLON, SP] + f.value, CRLF);
    StandsSplit(w, p, f.name + [COLON, SP], f.value);
    StandsSplit(w, p, f.name, [COLON, SP]);
    StandsIndex(w, c, [COLON, SP], c);
    StandsIndex(w, c, [COLON, SP], c + 1);
    StandsIndex(w, e, CRLF, e);
    StandsIndex(w, e, CRLF, e + 1);
  }

  /** A printed legal field parses to itself. */
  lemma LineParsed(w: seq<byte>, p: nat, f: Field, limit: nat)
    requires Legal(f) && PartsAt(w, p, f) && p + |f.name| + |f.value| + 4 <= limit
    ensures ParseLine(w, limit, p) == LineTo(LineOf(f), p + |f.name| + |f.value| + 3)
    ensures w[p] != CR && w[p] != LF
  {
    var c := p + |f.name|;
    var lf := c + 3 + |f.value|;
    hide ParseLine, Lowered, Hash, ScanName, ScanOws, ScanValue, ValueOf;
    NameFound(w, p, f, limit);
    ValueFound(w, p, f, limit);
    assert p < |w| && p < c <= p + 255 && c + 2 <= lf < |w|;
    LineComposed(w, p, limit, c, c + 2, lf);
  }

  /** A line is what its parts are. */
  lemma LineComposed(w: seq<byte>, p: nat, limit: nat, c: nat, b: nat, lf: nat)
    requires p < |w| && p < c <= p + 255 && c + 1 < |w| && c + 1 < limit && 0 < b <= lf < |w|
    requires ScanName(w, limit, p) == At(c) && ScanOws(w, limit, c + 1) == At(b) && ScanValue(w, limit, b) == At(lf)
    ensures ParseLine(w, limit, p) == LineTo(Line(Lowered(w[p..c]), ValueOf(w, b, lf), Hash(Lowered(w[p..c]))), lf)
  {
    hide ScanName, ScanOws, ScanValue, ValueOf, Lowered, Hash;
  }

  /** The name is found, and lowering its case changes nothing. */
  lemma NameFound(w: seq<byte>, p: nat, f: Field, limit: nat)
    requires LegalName(f.name) && PartsAt(w, p, f) && p + |f.name| < limit
    ensures ScanName(w, limit, p) == At(p + |f.name|)
    ensures Lowered(w[p..p + |f.name|]) == f.name
    ensures w[p] != CR && w[p] != LF
  {
    var c := p + |f.name|;
    forall k | p <= k < c
      ensures Tchar(w[k]) == 1 || Tchar(w[k]) == 3
    {
      assert w[k] == w[p..c][k - p];
    }
    NameScanned(w, limit, p, c);
    assert Tchar(w[p]) != 0;
  }

  /** The value is found, and nothing of it is trimmed. */
  lemma ValueFound(w: seq<byte>, p: nat, f: Field, limit: nat)
    requires LegalValue(f.value) && PartsAt(w, p, f) && p + |f.name| + |f.value| + 4 <= limit
    ensures
      var b := p + |f.name| + 2;
      var lf := b + |f.value| + 1;
      ScanOws(w, limit, b - 1) == At(b) && ScanValue(w, limit, b) == At(lf) && ValueOf(w, b, lf) == f.value
  {
    var b, e := p + |f.name| + 2, p + |f.name| + 2 + |f.value|;
    forall k | b <= k < e
      ensures w[k] == f.value[k - b]
    {
      assert w[k] == w[b..e][k - b];
    }
    ValueScanned(w, limit, b, e);
    assert !IsOws(w[b]);
    assert ScanOws(w, limit, b) == At(b);
    assert IsOws(w[b - 1]);
    assert ValueEnd(w, b, e + 1) == e;
  }

  /** A printed section of legal fields, ended by an empty line, parses to the same ordered list,
      wherever it stands, provided it fits. */
  lemma {:induction false} SectionParsed(w: seq<byte>, p: nat, fields: seq<Field>, limit: nat, room: nat)
    requires forall k | 0 <= k < |fields| :: Legal(fields[k])
    requires StandsAt(w, p, PrintAll(fields) + CRLF)
    requires p + |PrintAll(fields)| + 2 <= limit && |fields| <= room
    ensures ParseSection(w, limit, p, room) == Lines(LinesOf(fields), p + |PrintAll(fields)| + 1)
    decreases |fields|
  {
    hide ParseSection, ParseLine, PartsAt, LegalName, LegalValue;
    if fields == [] {
      assert PrintAll(fields) + CRLF == CRLF;
      SectionEnds(w, p, limit, room);
    } else {
      var f, later := fields[0], fields[1..];
      assert PrintAll(fields) + CRLF == Print(f) + (PrintAll(later) + CRLF);
      StandsSplit(w, p, Print(f), PrintAll(later) + CRLF);
      PrintedParts(w, p, f);
      LineParsed(w, p, f, limit);
      SectionParsed(w, p + |Print(f)|, later, limit, room - 1);
      SectionComposed(w, p, limit, room, LineOf(f), p + |Print(f)| - 1);
    }
  }

  lemma SectionEnds(w: seq<byte>, p: nat, limit: nat, room: nat)
    requires StandsAt(w, p, CRLF) && p + 2 <= limit
    ensures ParseSection(w, limit, p, room) == Lines([], p + 1)
  {
    StandsIndex(w, p, CRLF, p);
    StandsIndex(w, p, CRLF, p + 1);
  }

  lemma SectionComposed(w: seq<byte>, p: nat, limit: nat, room: nat, line: Line, lf: nat)
    requires p < |w| && w[p] != CR && w[p] != LF && room > 0
    requires ParseLine(w, limit, p) == LineTo(line, lf) && Move(w, limit, lf) == At(lf + 1)
    ensures ParseSection(w, limit, p, room) == ParseSection(w, limit, lf + 1, room - 1).Prepend([line])
  {
    hide ParseLine;
  }
}
