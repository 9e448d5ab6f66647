// The header (or trailer) fields of an outgoing HTTP/1 message: a byte buffer with an index of edges
// (web_general_http1.go:685-769, web_general_http.go:2020-2054), against the ordered list it stands for.

module HeaderOutput {
  import opened Bytes
  import opened FieldLines
  import opened Numbers

  const STOCK: nat := 1536
  const EDGES: nat := 128
  /** What is kept free at the end of the buffer for the headers that are added last. */
  const RESERVE: nat := 256

  function Wrap16(x: int): uint16 {
    x % 0x1_0000
  }

  function Size(f: Field): nat {
    |f.name| + |f.value| + 4
  }

  /** Where field number k starts. */
  function EdgeOf(fields: seq<Field>, k: nat): nat
    requires k <= |fields|
  {
    |PrintAll(fields[..k])|
  }

  lemma NextEdge(fields: seq<Field>, k: nat)
    requires k < |fields|
    ensures EdgeOf(fields, k + 1) == EdgeOf(fields, k) + Size(fields[k])
    ensures |Print(fields[k])| == Size(fields[k])
    ensures PrintAll(fields[..k + 1]) == PrintAll(fields[..k]) + Print(fields[k])
  {
    assert fields[..k + 1] == fields[..k] + [fields[k]];
    PrintAllAppend(fields[..k], [fields[k]]);
    PrintOne(fields[k]);
  }

  lemma PrintOne(f: Field)
    ensures PrintAll([f]) == Print(f)
  {
    assert PrintAll([f]) == Print(f) + PrintAll([]);
  }

  lemma {:induction false} EdgesGrow(fields: seq<Field>, j: nat, k: nat)
    requires j <= k <= |fields|
    ensures EdgeOf(fields, j) + 4 * (k - j) <= EdgeOf(fields, k)
    decreases k
  {
    if j < k {
      EdgesGrow(fields, j, k - 1);
      NextEdge(fields, k - 1);
    }
  }

  /** A printed field stands where its edges say. */
  lemma FieldAt(fields: seq<Field>, k: nat)
    requires k < |fields|
    ensures EdgeOf(fields, k) <= EdgeOf(fields, k + 1) <= |PrintAll(fields)|
    ensures PrintAll(fields)[EdgeOf(fields, k)..EdgeOf(fields, k + 1)] == Print(fields[k])
  {
    hide PrintAll, Print;
    NextEdge(fields, k);
    Rejoined(fields, k + 1);
    PrintAllAppend(fields[..k + 1], fields[k + 1..]);
  }

  /** The first field of that name, or the number of fields. */
  function FirstMatch(fields: seq<Field>, name: seq<byte>): (k: nat)
    ensures k <= |fields|
    ensures k < |fields| ==> fields[k].name == name
    ensures forall j | 0 <= j < k :: fields[j].name != name
  {
    if fields == [] || fields[0].name == name then 0
    else 1 + FirstMatch(fields[1..], name)
  }

  predicate NoColon(name: seq<byte>) {
    name != [] && COLON !in name
  }

  predicate NoColons(fields: seq<Field>) {
    forall k | 0 <= k < |fields| :: NoColon(fields[k].name)
  }

  ghost predicate ColonAt(s: seq<byte>, p: int) {
    0 <= p < |s| && s[p] == COLON && forall j | 0 <= j < p :: s[j] != COLON
  }

  /** Where the first colon is, or -1. */
  function FirstColon(s: seq<byte>): (p: int)
    ensures if p == -1 then COLON !in s else ColonAt(s, p)
  {
    if s == [] then -1
    else if s[0] == COLON then 0
    else
      var q := FirstColon(s[1..]);
      if q == -1 then -1 else q + 1
  }

  /** bytes.IndexByte(s, ':') */
  method IndexColon(s: seq<byte>) returns (p: int)
    ensures p == FirstColon(s)
  {
    for k := 0 to |s|
      invariant forall j | 0 <= j < k :: s[j] != COLON
    {
      if s[k] == COLON {
        return k;
      }
    }
    return -1;
  }

  datatype Option<T> = None | Some(value: T)

  const HTTP_DATE: nat := 29

  /** What the last headers of a response depend on: `contentSize` is -1 without content and -2 when it is vague. */
  datatype Closing = Closing(date: Option<seq<byte>>, expires: Option<seq<byte>>, lastModified: Option<seq<byte>>,
                             contentSize: int64, forbidFraming: bool, hasContentType: bool,
                             http11: bool, persistent: bool) {
    predicate Valid() {
      && contentSize >= -2
      && (date.Some? ==> |date.value| == HTTP_DATE)
      && (expires.Some? ==> |expires.value| == HTTP_DATE)
      && (lastModified.Some? ==> |lastModified.value| == HTTP_DATE)
    }

    function Framing(): seq<Field> {
      if contentSize == -1 then [] else Sizing() + Typing()
    }

    function Sizing(): seq<Field>
      requires contentSize != -1
    {
      if forbidFraming then []
      else if contentSize >= 0 then [Field(Text("content-length"), Digits(contentSize, 10))]
      else if http11 then [Field(Text("transfer-encoding"), Text("chunked"))]
      else []
    }

    function Typing(): seq<Field> {
      if hasContentType then [] else [Field(Text("content-type"), Text("text/html"))]
    }

    /** A vague content without chunks ends with the connection. */
    predicate StaysOpen() {
      persistent && !(contentSize == -2 && !forbidFraming && !http11)
    }

    function Fields(): seq<Field> {
      Dated(Text("date"), date) + Dated(Text("expires"), expires) + Dated(Text("last-modified"), lastModified) +
      Framing() + [Field(Text("connection"), Text(if StaysOpen() then "keep-alive" else "close"))]
    }
  }

  function Dated(name: seq<byte>, date: Option<seq<byte>>): seq<Field> {
    if date.Some? then [Field(name, date.value)] else []
  }

  /** An output at some moment: the whole buffer, with what is stale in it, and the whole index. */
  datatype Buffer = Buffer(bytes: seq<byte>, edges: seq<uint16>, count: nat, edge: uint16) {
    predicate Valid() {
      |bytes| <= K16 && |edges| == EDGES && 1 <= count <= EDGES
    }

    /** What will be sent is the fields, in order, and the reserve is free. */
    ghost predicate Sends(fields: seq<Field>) {
      edge + RESERVE <= |bytes| && bytes[..edge] == PrintAll(fields)
    }

    /** The buffer and its index stand for the list. */
    ghost predicate Holds(fields: seq<Field>) {
      Sends(fields) && count == |fields| + 1 <= EDGES == |edges| && EdgesAre(edges, fields) && NoColons(fields)
    }

    /** Field number i is cut out: what is behind it moves down, and the edges behind it are lowered, but
        not moved down. */
    function CutOut(i: nat, from: nat): (b: Buffer)
      requires Valid() && 1 <= i < count && from <= edges[i] <= |bytes|
      ensures b.Valid() && b.count == count - 1
    {
      Buffer(Pasted(bytes, from, bytes[edges[i]..]), LowerEdges(edges, i, count, edges[i] - from),
        count - 1, Wrap16(edge - (edges[i] - from)))
    }
  }

  /** Whether the field between two edges has the name: slicing can fail. */
  datatype Probing = Hit | Miss | Panic

  function Probe(bytes: seq<byte>, from: nat, edge: nat, name: seq<byte>): Probing {
    if !(from <= edge <= |bytes|) then Panic else
    var to := Wrap16(from + Wrap16(FirstColon(bytes[from..edge])));
    if !(from <= to <= |bytes|) then Panic
    else if bytes[from..to] == name then Hit
    else Miss
  }

  datatype Deletion = Deleted(buffer: Buffer) | Panicked

  /** The loop of delHeader, from field number i on, which should start at `from`. */
  function DeleteFrom(b: Buffer, name: seq<byte>, i: nat, from: nat): (r: Deletion)
    requires b.Valid() && 1 <= i
    ensures r.Deleted? ==> r.buffer.Valid() && r.buffer.count <= b.count
    decreases b.count - i
  {
    if i >= b.count then Deleted(b) else
    match Probe(b.bytes, from, b.edges[i], name)
    case Panic => Panicked
    case Hit => DeleteFrom(b.CutOut(i, from), name, i, from)
    case Miss => DeleteFrom(b, name, i + 1, b.edges[i])
  }

  class Output {
    var output: array<byte>
    const edges: array<uint16>
    var count: nat
    var outputEdge: uint16

    constructor ()
      ensures fresh(output) && fresh(edges) && Holds([])
    {
      output := new byte[STOCK](_ => 0);
      edges := new uint16[EDGES](_ => 0);
      count := 1;
      outputEdge := 0;
    }

    ghost predicate Buffers()
      reads this
    {
      && (output.Length == STOCK || output.Length == K4 || output.Length == K16)
      && edges.Length == EDGES && 1 <= count <= EDGES
    }

    ghost predicate Valid()
      reads this
    {
      && Buffers()
      && outputEdge + RESERVE <= output.Length
    }

    ghost function Now(): (b: Buffer)
      requires Buffers()
      reads this, output, edges
      ensures b.Valid()
    {
      Buffer(output[..], edges[..], count, outputEdge)
    }

    /** The bytes that will be sent are the fields, in order. */
    ghost predicate Sends(fields: seq<Field>)
      reads this, output, edges
    {
      Buffers() && Now().Sends(fields)
    }

    /** The buffer and its index stand for the list. */
    ghost predicate Holds(fields: seq<Field>)
      reads this, output, edges
    {
      Buffers() && Now().Holds(fields)
    }

    /** _growFields: room for `size` more bytes, and for the reserve behind them. */
    method GrowFields(size: nat) returns (from: nat, ok: bool)
      requires Valid() && 0 < size <= K16
      modifies this`output, this`outputEdge
      ensures output == old(output) || fresh(output)
      ensures ok == (old(outputEdge) + size + RESERVE <= K16)
      ensures Valid() && from == old(outputEdge)
      ensures outputEdge == if ok then old(outputEdge) + size else old(outputEdge)
      ensures output[..][..from] == old(output[..][..from])
    {
      hide Pasted;
      from := outputEdge;
      var ceil := Wrap16(outputEdge + size);
      var last := Wrap16(ceil + RESERVE);
      if ceil < outputEdge || last > K16 || last < ceil {
        return from, false;
      }
      if last > output.Length {
        ghost var was := output[..];
        var bigger := new byte[if last <= K4 then K4 else K16](_ => 0);
        ghost var blank := bigger[..];
        CopyBetween(bigger, 0, output, 0, outputEdge);
        PastedSlice(blank, 0, was[..from], 0, from);
        assert bigger[..][..from] == was[..from];
        output := bigger;
      }
      outputEdge := ceil;
      ok := true;
    }

    /** addHeader (and addTrailer): appends one field, unless there are too many or they are too large. What
        will be sent is right whatever the index is, and the index stays right if it was. */
    method Add(name: seq<byte>, value: seq<byte>, ghost fields: seq<Field>) returns (ok: bool)
      requires Sends(fields) && |name| + |value| + 4 <= K16
      modifies this, output, edges
      ensures output == old(output) || fresh(output)
      ensures ok <==>
        name != [] && old(count) < EDGES && |PrintAll(fields)| + Size(Field(name, value)) + RESERVE <= K16
      ensures Sends(if ok then fields + [Field(name, value)] else fields)
      ensures count == if ok then old(count) + 1 else old(count)
      ensures old(Holds(fields)) && COLON !in name ==> Holds(if ok then fields + [Field(name, value)] else fields)
    {
      if |name| == 0 || count == EDGES {
        return false;
      }
      var from;
      from, ok := GrowFields(|name| + 2 + |value| + 2);
      if !ok {
        return;
      }
      ghost var f, held := Field(name, value), old(Holds(fields)) && COLON !in name;
      hide PrintAll, EdgeOf, EdgesAre, NoColons;
      if held {
        IndexGrows(edges[..], fields, f);
        NoMoreColons(fields, f);
      }
      from := WriteField(from, name, value, fields);
      edges[count] := from;
      count := count + 1;
    }

    /** A program takes out a field and adds one (_deleteSingleton, _appendSingleton), and the response ends:
        what is sent is right although the index may not be. */
    method ReplaceAndFinalize(i: nat, name: seq<byte>, value: seq<byte>, m: Closing, ghost fields: seq<Field>)
      returns (ok: bool)
      requires Holds(fields) && 1 <= i <= |fields| && |name| + |value| + 4 <= K16 && m.Valid()
      modifies this, output, edges
      ensures
        var kept := Without(fields, i - 1);
        && (ok <==> name != [] && |PrintAll(kept)| + Size(Field(name, value)) + RESERVE <= K16)
        && outputEdge <= output.Length
        && output[..][..outputEdge] == PrintAll((if ok then kept + [Field(name, value)] else kept) + m.Fields())
    {
      hide PrintAll, Without, CutsRight, Buffer.Holds;
      ghost var kept := Without(fields, i - 1);
      CountIs(fields);
      DeleteAt(i, fields);
      ok := Add(name, value, kept);
      Finalize(m, if ok then kept + [Field(name, value)] else kept);
    }

    lemma CountIs(fields: seq<Field>)
      requires Holds(fields)
      ensures count == |fields| + 1 <= EDGES
    {
    }

    /** name: value CRLF */
    method WriteField(at: nat, name: seq<byte>, value: seq<byte>, ghost fields: seq<Field>) returns (edge: nat)
      requires at + |name| + |value| + 4 <= output.Length && output[..][..at] == PrintAll(fields)
      modifies output
      ensures edge == at + Size(Field(name, value))
      ensures output[..][..edge] == PrintAll(fields + [Field(name, value)])
    {
      FieldWritten(fields, Field(name, value));
      hide PrintAll, Print;
      edge := at;
      assert output[..][0..edge] == PrintAll(fields);
      edge := Append(edge, name);
      edge := AppendTwo(edge, COLON, SP);
      edge := Append(edge, value);
      edge := AppendTwo(edge, CR, LF);
      assert output[..][0..edge] == output[..][..edge];
    }

    /** copy(r.output[at:], p) */
    method Append(at: nat, p: seq<byte>) returns (edge: nat)
      requires at + |p| <= output.Length
      modifies output
      ensures edge == at + |p|
      ensures output[..][0..edge] == old(output[..])[0..at] + p
    {
      PastedBehind(output[..], at, p, 0);
      CopyInto(output, at, p);
      edge := at + |p|;
    }

    method AppendTwo(at: nat, a: byte, b: byte) returns (edge: nat)
      requires at + 2 <= output.Length
      modifies output
      ensures edge == at + 2
      ensures output[..][0..edge] == old(output[..])[0..at] + [a, b]
    {
      output[at], output[at + 1] := a, b;
      edge := at + 2;
    }

    /** header: the value of the first field of that name. */
    method Get(name: seq<byte>, ghost fields: seq<Field>) returns (value: seq<byte>, ok: bool)
      requires Holds(fields)
      ensures ok == (FirstMatch(fields, name) < |fields|)
      ensures ok ==> value == fields[FirstMatch(fields, name)].value
    {
      if count > 1 && |name| > 0 {
        var from: nat := 0;
        hide PrintAll, EdgeOf, Print;
        NoEdge(fields);
        for i := 1 to count
          invariant from == EdgeOf(fields, i - 1)
          invariant forall j | 0 <= j < i - 1 :: fields[j].name != name
        {
          var edge := edges[i];
          var hit;
          value, hit := Match(i, from, edge, name, fields);
          if hit {
            return value, true;
          }
          from := edge;
        }
      }
      return [], false;
    }

    /** Compares the name between two edges, and takes the value behind it. */
    method Match(i: nat, from: nat, edge: nat, name: seq<byte>, ghost fields: seq<Field>)
      returns (value: seq<byte>, hit: bool)
      requires Holds(fields) && 1 <= i <= |fields| && from == EdgeOf(fields, i - 1) && edge == edges[i]
      ensures edge == EdgeOf(fields, i) && hit == (fields[i - 1].name == name)
      ensures hit ==> value == fields[i - 1].value
    {
      hide PrintAll, EdgeOf, Print;
      EdgesKnown(edges[..], fields, i - 1);
      FieldSeen(fields, i - 1);
      var header := output[from..edge];
      HeaderSeen(fields, i - 1, header);
      var p := IndexColon(header);
      ColonFound(fields[i - 1], header, p);
      hit := p != -1 && header[..p] == name;
      value := if hit then header[p + 2..|header| - 2] else [];
    }

    lemma HeaderSeen(fields: seq<Field>, k: nat, header: seq<byte>)
      requires Holds(fields) && k < |fields| && EdgeOf(fields, k) <= EdgeOf(fields, k + 1) <= output.Length
      requires header == output[EdgeOf(fields, k)..EdgeOf(fields, k + 1)]
      ensures header == Print(fields[k])
    {
      FieldSeen(fields, k);
      hide PrintAll, Print;
      assert header == output[..][..outputEdge][EdgeOf(fields, k)..EdgeOf(fields, k + 1)];
    }

    /** What both deletions do: moves the bytes behind down, lowers the edges behind, but does not move
        those down. */
    method Cut(i: nat, from: nat, edge: nat)
      requires Buffers() && 1 <= i < count && from <= edge <= output.Length
      modifies this`outputEdge, this`count, output, edges
      ensures output[..] == Pasted(old(output[..]), from, old(output[..])[edge..])
      ensures edges[..] == LowerEdges(old(edges[..]), i, old(count), edge - from)
      ensures outputEdge == Wrap16(old(outputEdge) - (edge - from)) && count == old(count) - 1
    {
      var size := edge - from;
      MoveDown(from, edge);
      LowerBehind(i, size);
      outputEdge := Wrap16(outputEdge - size);
      count := count - 1;
    }

    /** copy(r.output[from:], r.output[edge:]) */
    method MoveDown(from: nat, edge: nat)
      requires from <= edge <= output.Length
      modifies output
      ensures output[..] == Pasted(old(output[..]), from, old(output[..])[edge..])
    {
      assert output[edge..output.Length] == output[..][edge..];
      CopyWithin(output, from, edge, output.Length);
    }

    method LowerBehind(i: nat, size: nat)
      requires edges.Length == EDGES && i < count <= EDGES
      modifies edges
      ensures edges[..] == LowerEdges(old(edges[..]), i, count, size)
    {
      for j := i + 1 to count
        invariant forall k | 0 <= k < EDGES ::
          edges[k] == if i < k < j then Wrap16(old(edges[k]) - size) else old(edges[k])
      {
        edges[j] := Wrap16(edges[j] - size);
      }
    }

    /** The fields without number k are what will be sent, but the index is the one Cut leaves. */
    ghost predicate CutAt(fields: seq<Field>, k: nat)
      requires k < |fields| < EDGES
      reads this, output, edges
    {
      && Sends(Without(fields, k)) && count == |fields| && edges.Length == EDGES
      && CutEdges(edges[..], fields, k)
    }

    method CutKnown(i: nat, from: nat, edge: nat, ghost fields: seq<Field>, ghost known: bool)
      requires Buffers() && 1 <= i < count && from <= edge <= output.Length
      requires known ==> Holds(fields) && i <= |fields| && from == edges[i - 1] && edge == edges[i]
      modifies this`outputEdge, this`count, output, edges
      ensures edges[..] == LowerEdges(old(edges[..]), i, old(count), edge - from) && count == old(count) - 1
      ensures known ==> CutAt(fields, i - 1) && (Holds(Without(fields, i - 1)) <==> CutsRight(fields, i - 1))
    {
      hide Pasted, PrintAll, EdgesAre, LowerEdges, CutEdges, EdgeOf, Without;
      if known {
        EdgesKnown(edges[..], fields, i - 1);
        WithoutBytes(fields, i - 1, output[..]);
        LoweredEdges(edges[..], fields, i - 1);
      }
      Cut(i, from, edge);
      if known {
        CutIndex(edges[..], fields, i - 1);
      }
    }

    /** delHeaderAt: what will be sent is right, but later calls are only when the index is, too. */
    method DeleteAt(i: nat, ghost fields: seq<Field>)
      requires Holds(fields) && 1 <= i <= |fields|
      modifies this`outputEdge, this`count, output, edges
      ensures Sends(Without(fields, i - 1)) && count == old(count) - 1
      ensures Holds(Without(fields, i - 1)) <==> CutsRight(fields, i - 1)
    {
      EdgesKnown(edges[..], fields, i - 1);
      FieldSeen(fields, i - 1);
      CutKnown(i, edges[i - 1], edges[i], fields, true);
    }

    /** Compares the name in front of the colon between two edges; where there is no colon, or the edges
        are out of order, slicing fails. */
    method Compare(from: nat, edge: nat, name: seq<byte>) returns (r: Probing)
      requires Buffers()
      ensures r == Probe(output[..], from, edge, name)
    {
      hide FirstColon, Wrap16;
      if !(from <= edge <= output.Length) {
        return Panic;
      }
      assert output[from..edge] == output[..][from..edge];
      var to := IndexColon(output[from..edge]);
      to := Wrap16(from + Wrap16(to));
      if !(from <= to <= output.Length) {
        return Panic;
      }
      assert output[from..to] == output[..][from..to];
      r := if output[from..to] == name then Hit else Miss;
    }

    /** Behind everything that was added, one more field, in the reserve. */
    method PutFixed(f: Field, ghost fields: seq<Field>)
      requires outputEdge + Size(f) <= output.Length <= K16
      requires output[..][..outputEdge] == PrintAll(fields)
      modifies this`outputEdge, output
      ensures outputEdge == old(outputEdge) + Size(f) <= output.Length
      ensures output[..][..outputEdge] == PrintAll(fields + [f])
    {
      PrintAllAppend(fields, [f]);
      PrintOne(f);
      hide PrintAll, Print;
      assert output[..][0..outputEdge] == PrintAll(fields);
      PrintedSize(f);
      var edge := Append(outputEdge, Print(f));
      outputEdge := edge;
      assert output[..][0..outputEdge] == output[..][..outputEdge];
    }

    /** finalizeHeaders: date, expires, last-modified, framing, content-type and connection. They fit
        in the reserve, whatever was added before. */
    method Finalize(m: Closing, ghost fields: seq<Field>)
      requires Sends(fields) && m.Valid()
      modifies this`outputEdge, output
      ensures old(outputEdge) <= outputEdge <= old(outputEdge) + 209 <= output.Length
      ensures output[..][..outputEdge] == PrintAll(fields + m.Fields())
    {
      hide PrintAll, Print, Dated, Closing.Framing, Closing.StaysOpen;
      PutDate(Text("date"), m.date, fields);
      ghost var dated := fields + Dated(Text("date"), m.date);
      PutDate(Text("expires"), m.expires, dated);
      ghost var expiring := dated + Dated(Text("expires"), m.expires);
      PutDate(Text("last-modified"), m.lastModified, expiring);
      ghost var modified := expiring + Dated(Text("last-modified"), m.lastModified);
      FinalizeContent(m, modified);
      var connection := Field(Text("connection"), Text(if m.StaysOpen() then "keep-alive" else "close"));
      PutFixed(connection, modified + m.Framing());
      Rejoin(fields, Dated(Text("date"), m.date), Dated(Text("expires"), m.expires),
        Dated(Text("last-modified"), m.lastModified), m.Framing(), [connection]);
    }

    method PutDate(name: seq<byte>, date: Option<seq<byte>>, ghost fields: seq<Field>)
      requires date.Some? ==> |date.value| == HTTP_DATE
      requires outputEdge + |name| + 33 <= output.Length <= K16
      requires output[..][..outputEdge] == PrintAll(fields)
      modifies this`outputEdge, output
      ensures old(outputEdge) <= outputEdge <= old(outputEdge) + |name| + 33
      ensures output[..][..outputEdge] == PrintAll(fields + Dated(name, date))
    {
      if date.Some? {
        PutFixed(Field(name, date.value), fields);
      } else {
        assert fields + [] == fields;
      }
    }

    method FinalizeContent(m: Closing, ghost fields: seq<Field>)
      requires m.Valid() && outputEdge + 62 <= output.Length <= K16
      requires output[..][..outputEdge] == PrintAll(fields)
      modifies this`outputEdge, output
      ensures old(outputEdge) <= outputEdge <= old(outputEdge) + 62
      ensures output[..][..outputEdge] == PrintAll(fields + m.Framing())
    {
      hide PrintAll, Print, Closing.Sizing;
      assert fields + [] == fields;
      if m.contentSize != -1 {
        PutSizing(m, fields);
        ghost var sized := fields + m.Sizing();
        assert sized + [] == sized;
        if !m.hasContentType {
          PutFixed(Field(Text("content-type"), Text("text/html")), sized);
        }
        assert sized + m.Typing() == fields + m.Framing();
      }
    }

    method PutSizing(m: Closing, ghost fields: seq<Field>)
      requires m.Valid() && m.contentSize != -1 && outputEdge + 62 <= output.Length <= K16
      requires output[..][..outputEdge] == PrintAll(fields)
      modifies this`outputEdge, output
      ensures old(outputEdge) <= outputEdge <= old(outputEdge) + 37
      ensures output[..][..outputEdge] == PrintAll(fields + m.Sizing())
    {
      hide PrintAll, Print, Digits;
      assert fields + [] == fields;
      if !m.forbidFraming {
        if m.contentSize >= 0 {
          Int64RoundTrip(m.contentSize, 10);
          PutFixed(Field(Text("content-length"), Digits(m.contentSize, 10)), fields);
        } else if m.http11 {
          PutFixed(Field(Text("transfer-encoding"), Text("chunked")), fields);
        }
      }
    }

    /** delHeader, which may slice out of order on the way. */
    method Delete(name: seq<byte>, ghost fields: seq<Field>) returns (deleted: bool, panicked: bool)
      requires Holds(fields)
      modifies this`outputEdge, this`count, output, edges
      ensures panicked <==> DeleteFrom(old(Now()), name, 1, 0).Panicked?
      ensures !panicked ==>
        Buffers() && DeleteFrom(old(Now()), name, 1, 0) == Deleted(Now()) && deleted == (count < old(count))
    {
      hide Probe, Pasted, LowerEdges;
      deleted, panicked := false, false;
      var i: nat, from: nat := 1, 0;
      while i < count
        invariant Buffers() && 1 <= i && deleted == (count < old(count)) && count <= old(count)
        invariant DeleteFrom(Now(), name, i, from) == DeleteFrom(old(Now()), name, 1, 0)
        decreases count - i
      {
        var edge := edges[i];
        assert edges[..][i] == edge;
        var hit := Compare(from, edge, name);
        if hit == Panic {
          return deleted, true;
        }
        if hit == Hit {
          InOrder(output[..], from, edge, name);
          Cut(i, from, edge);
          deleted := true;
        } else {
          i, from := i + 1, edge;
        }
      }
    }
  }

  lemma InOrder(bytes: seq<byte>, from: nat, edge: nat, name: seq<byte>)
    requires Probe(bytes, from, edge, name).Hit?
    ensures from <= edge <= |bytes|
  {
  }

  /** Without a colon, from+uint16(-1) is out of order or out of the buffer. */
  lemma WrapsBack(from: nat, at: int)
    requires from <= K16 && -1 <= at < K16
    ensures Wrap16(from + Wrap16(at)) == if at >= 0 then from + at else if from == 0 then 0xffff else from - 1
  {
  }

  lemma Rejoin(s: seq<Field>, a: seq<Field>, b: seq<Field>, c: seq<Field>, d: seq<Field>, e: seq<Field>)
    ensures s + a + b + c + d + e == s + (a + b + c + d + e)
  {
  }

  lemma PrintedSize(f: Field)
    ensures |Print(f)| == Size(f)
  {
  }

  lemma NoEdge(fields: seq<Field>)
    ensures EdgeOf(fields, 0) == 0
  {
    assert fields[..0] == [];
  }

  /** If a window that starts with a field has a colon, its first one ends the name of that field. */
  lemma NameStarts(window: seq<byte>, f: Field, p: int, printed: seq<byte>)
    requires ColonAt(window, p) && NoColon(f.name) && printed == Print(f)
    requires forall j | 0 <= j < |window| && j < |printed| :: window[j] == printed[j]
    ensures window[..p] == f.name
  {
    var n := |f.name|;
    assert printed[n] == COLON;
    assert n < |window| ==> window[n] == printed[n];
    forall j | 0 <= j < n && j < |window|
      ensures window[j] == f.name[j] != COLON
    {
      assert window[j] == printed[j];
    }
  }

  function Without(fields: seq<Field>, k: nat): (r: seq<Field>)
    requires k < |fields|
    ensures |r| == |fields| - 1
  {
    fields[..k] + fields[k + 1..]
  }

  /** When a deletion leaves the index right. */
  predicate CutsRight(fields: seq<Field>, k: nat)
    requires k < |fields|
  {
    k + 1 == |fields| || (k + 2 == |fields| && Size(fields[k]) == Size(fields[k + 1]))
  }

  ghost predicate EdgesAre(e: seq<uint16>, fields: seq<Field>)
    requires |fields| < |e|
  {
    forall j | 0 <= j <= |fields| :: e[j] == EdgeOf(fields, j)
  }

  ghost predicate CutEdges(e: seq<uint16>, fields: seq<Field>, k: nat)
    requires k < |fields| < |e|
  {
    && (forall j | 0 <= j <= k + 1 :: e[j] == EdgeOf(fields, j))
    && (forall j | k + 1 < j <= |fields| :: e[j] == EdgeOf(fields, j) - Size(fields[k]))
  }

  lemma EdgesKnown(e: seq<uint16>, fields: seq<Field>, k: nat)
    requires k < |fields| < |e| && EdgesAre(e, fields)
    ensures e[k] == EdgeOf(fields, k) && e[k + 1] == EdgeOf(fields, k + 1)
  {
  }

  /** The edges behind number i, lowered. */
  function LowerEdges(e: seq<uint16>, i: nat, count: nat, size: nat): seq<uint16> {
    seq(|e|, j requires 0 <= j < |e| => if i < j < count then Wrap16(e[j] - size) else e[j])
  }

  lemma LoweredEdges(e: seq<uint16>, fields: seq<Field>, k: nat)
    requires k < |fields| < |e| && EdgesAre(e, fields)
    ensures CutEdges(LowerEdges(e, k + 1, |fields| + 1, Size(fields[k])), fields, k)
  {
    hide EdgeOf;
    EdgesBehind(fields, k);
    forall j | k + 1 < j <= |fields|
      ensures Wrap16(e[j] - Size(fields[k])) == EdgeOf(fields, j) - Size(fields[k])
    {
      assert e[j] == EdgeOf(fields, j);
    }
  }

  lemma EdgesBehind(fields: seq<Field>, k: nat)
    requires k < |fields|
    ensures forall j | k < j <= |fields| ::
      EdgeOf(fields, k) + Size(fields[k]) <= EdgeOf(fields, j) <= |PrintAll(fields)|
  {
    NextEdge(fields, k);
    assert fields[..|fields|] == fields;
    forall j | k < j <= |fields|
      ensures EdgeOf(fields, k + 1) <= EdgeOf(fields, j) <= |PrintAll(fields)|
    {
      EdgesGrow(fields, k + 1, j);
      EdgesGrow(fields, j, |fields|);
    }
  }

  lemma FieldSeen(fields: seq<Field>, k: nat)
    requires k < |fields|
    ensures EdgeOf(fields, k + 1) == EdgeOf(fields, k) + Size(fields[k]) <= |PrintAll(fields)|
    ensures PrintAll(fields)[EdgeOf(fields, k)..EdgeOf(fields, k + 1)] == Print(fields[k])
  {
    NextEdge(fields, k);
    FieldAt(fields, k);
  }

  lemma ColonFound(f: Field, header: seq<byte>, p: int)
    requires NoColon(f.name) && header == Print(f) && -1 <= p < |header|
    requires forall j | 0 <= j < (if p == -1 then |header| else p) :: header[j] != COLON
    requires p >= 0 ==> header[p] == COLON
    ensures p == |f.name| && header[..p] == f.name && header[p + 2..|header| - 2] == f.value
  {
    assert header[|f.name|] == COLON;
    assert header[..|f.name|] == f.name;
    assert forall j | 0 <= j < |f.name| :: header[j] == f.name[j] && f.name[j] != COLON;
  }

  lemma EdgesWithout(fields: seq<Field>, k: nat, j: nat)
    requires k < |fields| && j < |fields|
    ensures EdgeOf(Without(fields, k), j) ==
      if j <= k then EdgeOf(fields, j) else EdgeOf(fields, j + 1) - Size(fields[k])
  {
    var r := Without(fields, k);
    if j <= k {
      assert r[..j] == fields[..j];
    } else {
      assert r[..j] == fields[..k] + fields[k + 1..j + 1];
      assert fields[..j + 1] == fields[..k + 1] + fields[k + 1..j + 1];
      PrintAllAppend(fields[..k], fields[k + 1..j + 1]);
      PrintAllAppend(fields[..k + 1], fields[k + 1..j + 1]);
      NextEdge(fields, k);
    }
  }

  /** The edges behind a deleted field are lowered but not moved down: that is right only near the end. */
  lemma CutIndex(e: seq<uint16>, fields: seq<Field>, k: nat)
    requires k < |fields| < |e| && CutEdges(e, fields, k)
    ensures EdgesAre(e, Without(fields, k)) <==> CutsRight(fields, k)
  {
    hide EdgeOf, Without;
    var n, r := |fields|, Without(fields, k);
    NextEdge(fields, k);
    if k + 1 < n {
      EdgesWithout(fields, k, k + 1);
      NextEdge(fields, k + 1);
      assert EdgeOf(r, k + 1) == EdgeOf(fields, k + 2) - Size(fields[k]);
      assert e[k + 1] == EdgeOf(r, k + 1) <==> Size(fields[k]) == Size(fields[k + 1]);
    }
    if k + 2 < n {
      NextEdge(fields, k + 2);
      EdgesWithout(fields, k, k + 2);
      assert EdgeOf(r, k + 2) == EdgeOf(fields, k + 3) - Size(fields[k]);
      assert e[k + 2] != EdgeOf(r, k + 2);
      assert !EdgesAre(e, r);
    } else if CutsRight(fields, k) {
      forall j | 0 <= j < n
        ensures e[j] == EdgeOf(r, j)
      {
        EdgesWithout(fields, k, j);
      }
    }
  }

  /** The bytes behind a field move down over it. */
  lemma WithoutBytes(fields: seq<Field>, k: nat, was: seq<byte>)
    requires k < |fields| && |PrintAll(fields)| <= |was| && was[..|PrintAll(fields)|] == PrintAll(fields)
    ensures EdgeOf(fields, k) + Size(fields[k]) == EdgeOf(fields, k + 1) <= |PrintAll(fields)|
    ensures |PrintAll(Without(fields, k))| == |PrintAll(fields)| - Size(fields[k])
    ensures NoColons(fields) ==> NoColons(Without(fields, k))
    ensures
      var now := Pasted(was, EdgeOf(fields, k), was[EdgeOf(fields, k + 1)..]);
      now[..|PrintAll(fields)| - Size(fields[k])] == PrintAll(Without(fields, k))
  {
    FieldSeen(fields, k);
    var all, from, edge := PrintAll(fields), EdgeOf(fields, k), EdgeOf(fields, k + 1);
    WithoutPrints(fields, k);
    hide PrintAll, Print;
    SlidOver(was, all, from, edge);
  }

  lemma WithoutPrints(fields: seq<Field>, k: nat)
    requires k < |fields|
    ensures EdgeOf(fields, k) <= EdgeOf(fields, k + 1) <= |PrintAll(fields)|
    ensures PrintAll(Without(fields, k)) ==
      PrintAll(fields)[..EdgeOf(fields, k)] + PrintAll(fields)[EdgeOf(fields, k + 1)..]
  {
    hide PrintAll, Print;
    var before, upTo, behind := fields[..k], fields[..k + 1], fields[k + 1..];
    PrintAllAppend(before, behind);
    PrintAllAppend(upTo, behind);
    NextEdge(fields, k);
    Rejoined(fields, k + 1);
    TakenDropped(PrintAll(fields), PrintAll(before), Print(fields[k]), PrintAll(behind));
  }

  lemma Rejoined(fields: seq<Field>, k: nat)
    requires k <= |fields|
    ensures fields == fields[..k] + fields[k..]
  {
  }

  lemma TakenDropped(all: seq<byte>, a: seq<byte>, b: seq<byte>, c: seq<byte>)
    requires all == a + b + c
    ensures all[..|a|] == a && all[|a + b|..] == c
  {
  }

  lemma SlidOver(was: seq<byte>, all: seq<byte>, from: nat, edge: nat)
    requires from <= edge <= |all| <= |was| && was[..|all|] == all
    ensures Pasted(was, from, was[edge..])[..|all| - (edge - from)] == all[..from] + all[edge..]
  {
    assert was[..from] == all[..from] && was[edge..|all|] == all[edge..];
  }

  lemma FieldWritten(fields: seq<Field>, f: Field)
    ensures PrintAll(fields) + f.name + [COLON, SP] + f.value + [CR, LF] == PrintAll(fields + [f])
  {
    PrintAllAppend(fields, [f]);
    PrintOne(f);
    assert f.name + [COLON, SP] + f.value + [CR, LF] == Print(f);
  }

  lemma NoMoreColons(fields: seq<Field>, f: Field)
    requires NoColons(fields) && NoColon(f.name)
    ensures NoColons(fields + [f])
  {
  }

  lemma IndexGrows(e: seq<uint16>, fields: seq<Field>, f: Field)
    requires |fields| + 1 < |e| && EdgesAre(e, fields) && |PrintAll(fields)| + Size(f) < 0x1_0000
    ensures EdgesAre(e[|fields| + 1 := |PrintAll(fields)| + Size(f)], fields + [f])
    ensures |PrintAll(fields + [f])| == |PrintAll(fields)| + Size(f)
  {
    NextEdge(fields + [f], |fields|);
    assert (fields + [f])[..|fields|] == fields && (fields + [f])[..|fields| + 1] == fields + [f];
    forall k | 0 <= k <= |fields|
      ensures EdgeOf(fields + [f], k) == EdgeOf(fields, k)
    {
      assert (fields + [f])[..k] == fields[..k];
    }
  }

  // ----- What the peer receives -----

  /** The header section of a response: what was added, what is added last, and who sends it. */
  function Head(fields: seq<Field>, m: Closing): seq<Field> {
    fields + m.Fields() + [Field(Text("server"), Text("gorox"))]
  }

  predicate LegalDate(date: Option<seq<byte>>) {
    date.Some? ==> LegalValue(date.value)
  }

  lemma NamesLegal()
    ensures LegalName(Text("date")) && LegalName(Text("expires")) && LegalName(Text("last-modified"))
    ensures LegalName(Text("content-length")) && LegalName(Text("transfer-encoding")) && LegalName(Text("content-type"))
    ensures LegalName(Text("connection")) && LegalName(Text("server"))
  {
  }

  lemma ValuesLegal()
    ensures LegalValue(Text("chunked")) && LegalValue(Text("text/html")) && LegalValue(Text("keep-alive"))
    ensures LegalValue(Text("close")) && LegalValue(Text("gorox"))
  {
  }

  lemma {:induction false} DigitsLegal(n: nat)
    ensures LegalValue(Digits(n, 10))
  {
    DigitsValue(n, 10);
    var s := Digits(n, 10);
    assert forall k | 0 <= k < |s| :: IsDigit(s[k], 10);
  }

  predicate AllLegal(fields: seq<Field>) {
    forall k | 0 <= k < |fields| :: Legal(fields[k])
  }

  lemma HeadLegal(fields: seq<Field>, m: Closing)
    requires AllLegal(fields) && m.Valid() && LegalDate(m.date) && LegalDate(m.expires) && LegalDate(m.lastModified)
    ensures AllLegal(Head(fields, m))
  {
    NamesLegal();
    ValuesLegal();
    if m.contentSize >= 0 {
      DigitsLegal(m.contentSize);
    }
    hide LegalName, LegalValue, Text, Digits;
    assert AllLegal(m.Framing());
    assert AllLegal(m.Fields());
  }

  lemma DatedSize(name: seq<byte>, date: Option<seq<byte>>)
    requires date.Some? ==> |date.value| == HTTP_DATE
    ensures |PrintAll(Dated(name, date))| <= |name| + 33
  {
    if date.Some? {
      PrintOne(Field(name, date.value));
    }
  }

  lemma FramingSize(m: Closing)
    requires m.Valid()
    ensures |PrintAll(m.Framing())| <= 62
  {
    var contentType := Field(Text("content-type"), Text("text/html"));
    PrintOne(contentType);
    if m.contentSize >= 0 {
      Int64RoundTrip(m.contentSize, 10);
      var size := Field(Text("content-length"), Digits(m.contentSize, 10));
      PrintOne(size);
      PrintAllAppend([size], [contentType]);
      assert [size] + [] == [size];
    } else if m.contentSize == -2 {
      var chunked := Field(Text("transfer-encoding"), Text("chunked"));
      PrintOne(chunked);
      PrintAllAppend([chunked], [contentType]);
      assert [chunked] + [] == [chunked];
    }
    assert [] + [contentType] == [contentType];
  }

  lemma ClosingSize(m: Closing)
    requires m.Valid()
    ensures |PrintAll(m.Fields())| <= 209
  {
    hide PrintAll, Print, Dated, Closing.Framing, Closing.StaysOpen;
    var date, expires, modified := Dated(Text("date"), m.date), Dated(Text("expires"), m.expires),
      Dated(Text("last-modified"), m.lastModified);
    DatedSize(Text("date"), m.date);
    DatedSize(Text("expires"), m.expires);
    DatedSize(Text("last-modified"), m.lastModified);
    FramingSize(m);
    var connection := Field(Text("connection"), Text(if m.StaysOpen() then "keep-alive" else "close"));
    PrintOne(connection);
    PrintedSize(connection);
    PrintAllAppend(date, expires);
    PrintAllAppend(date + expires, modified);
    PrintAllAppend(date + expires + modified, m.Framing());
    PrintAllAppend(date + expires + modified + m.Framing(), [connection]);
  }

  /** Whatever fields were accepted, and however the response ends, the whole head is received again
      as the same ordered list of lines: it fits the input of the peer, behind a status line of up to
      30 bytes. */
  lemma HeadReceived(status: seq<byte>, fields: seq<Field>, m: Closing, rest: seq<byte>, room: nat)
    requires |status| <= 30 && |PrintAll(fields)| + RESERVE <= K16
    requires AllLegal(fields) && m.Valid() && LegalDate(m.date) && LegalDate(m.expires) && LegalDate(m.lastModified)
    requires |Head(fields, m)| <= room
    ensures
      var head := PrintAll(Head(fields, m)) + CRLF;
      && |status| + |head| <= K16
      && ParseSection(status + head + rest, K16, |status|, room) ==
           Lines(LinesOf(Head(fields, m)), |status| + |head| - 1)
  {
    var server := Field(Text("server"), Text("gorox"));
    HeadLegal(fields, m);
    ClosingSize(m);
    PrintAllAppend(fields, m.Fields());
    PrintAllAppend(fields + m.Fields(), [server]);
    PrintOne(server);
    PrintedSize(server);
    hide PrintAll, Print, Closing.Fields, ParseSection, Head;
    HeadIs(fields, m);
    var head := PrintAll(Head(fields, m)) + CRLF;
    var w := status + head + rest;
    assert w[|status|..|status| + |head|] == head;
    SectionParsed(w, |status|, Head(fields, m), K16, room);
  }

  lemma HeadIs(fields: seq<Field>, m: Closing)
    ensures Head(fields, m) == fields + m.Fields() + [Field(Text("server"), Text("gorox"))]
  {
  }
}
