// What a response says last (web_server_http1.go:1229-1269): what the peer finds about the content and the
// connection, name by name.

module HeaderClosing {
  import opened Bytes
  import opened FieldLines
  import opened Numbers
  import opened HeaderOutput

  /** The values of the fields of that name, in order. */
  function Found(fields: seq<Field>, name: seq<byte>): seq<seq<byte>> {
    if fields == [] then []
    else (if fields[0].name == name then [fields[0].value] else []) + Found(fields[1..], name)
  }

  lemma {:induction false} FoundJoin(a: seq<Field>, b: seq<Field>, name: seq<byte>)
    ensures Found(a + b, name) == Found(a, name) + Found(b, name)
  {
    if a == [] {
      assert a + b == b;
    } else {
      assert (a + b)[1..] == a[1..] + b;
      FoundJoin(a[1..], b, name);
    }
  }

  /** A name that is longer or shorter is another one. */
  lemma FoundOne(f: Field, name: seq<byte>)
    ensures Found([f], name) == if f.name == name then [f.value] else []
    ensures |f.name| != |name| ==> Found([f], name) == []
  {
    assert [f][1..] == [];
  }

  // The names of the closing fields, and two values.

  function DateName(): (n: seq<byte>) ensures |n| == 4 { Text("date") }

  function ExpiresName(): (n: seq<byte>) ensures |n| == 7 { Text("expires") }

  function ModifiedName(): (n: seq<byte>) ensures |n| == 13 { Text("last-modified") }

  function SizeName(): (n: seq<byte>) ensures |n| == 14 { Text("content-length") }

  function CodingName(): (n: seq<byte>) ensures |n| == 17 { Text("transfer-encoding") }

  function TypeName(): (n: seq<byte>) ensures |n| == 12 { Text("content-type") }

  function ConnectionName(): (n: seq<byte>) ensures |n| == 10 { Text("connection") }

  function Stays(): seq<byte> { Text("keep-alive") }

  function Closes(): seq<byte> { Text("close") }

  function Chunks(): seq<byte> { Text("chunked") }

  function Html(): seq<byte> { Text("text/html") }

  /** How the size is told. */
  ghost function SizingNamed(m: Closing): seq<Field>
    requires m.Valid()
  {
    if m.forbidFraming then []
    else if m.contentSize >= 0 then [Field(SizeName(), Digits(m.contentSize, 10))]
    else if m.http11 then [Field(CodingName(), Chunks())]
    else []
  }

  /** The closing fields, named. */
  lemma FieldsNamed(m: Closing)
    requires m.Valid()
    ensures m.Fields() ==
      Dated(DateName(), m.date) + Dated(ExpiresName(), m.expires) + Dated(ModifiedName(), m.lastModified) +
        m.Framing() +
      [Field(ConnectionName(), if m.StaysOpen() then Stays() else Closes())]
    ensures m.contentSize == -1 ==> m.Framing() == []
    ensures m.contentSize != -1 ==> m.Framing() == m.Sizing() + m.Typing()
    ensures m.contentSize != -1 ==> m.Sizing() == SizingNamed(m)
    ensures m.Typing() == if m.hasContentType then [] else [Field(TypeName(), Html())]
  {
    hide Dated;
  }

  lemma FoundDated(name: seq<byte>, date: Option<seq<byte>>, asked: seq<byte>)
    ensures |name| != |asked| ==> Found(Dated(name, date), asked) == []
    ensures name == asked ==> Found(Dated(name, date), asked) == if date.Some? then [date.value] else []
  {
    if date.Some? {
      FoundOne(Field(name, date.value), asked);
    }
  }

  /** What is found in the framing. */
  lemma FoundFraming(m: Closing, name: seq<byte>)
    requires m.Valid() && m.contentSize != -1
    ensures Found(m.Framing(), name) == Found(m.Sizing(), name) + Found(m.Typing(), name)
    ensures Found(m.Typing(), name) == if name == TypeName() && !m.hasContentType then [Html()] else []
    ensures Found(m.Sizing(), name) ==
      if m.forbidFraming then []
      else if m.contentSize >= 0 then (if name == SizeName() then [Digits(m.contentSize, 10)] else [])
      else if m.http11 && name == CodingName() then [Chunks()] else []
  {
    FieldsNamed(m);
    FoundJoin(m.Sizing(), m.Typing(), name);
    FoundOne(Field(TypeName(), Html()), name);
    FoundOne(Field(CodingName(), Chunks()), name);
    hide Digits;
    if m.contentSize >= 0 {
      FoundOne(Field(SizeName(), Digits(m.contentSize, 10)), name);
    }
  }

  /** What is found in the parts of the closing fields. */
  lemma FoundClosing(m: Closing, name: seq<byte>)
    requires m.Valid()
    ensures Found(m.Fields(), name) ==
      Found(Dated(DateName(), m.date), name) + Found(Dated(ExpiresName(), m.expires), name) +
      Found(Dated(ModifiedName(), m.lastModified), name) + Found(m.Framing(), name) +
      (if name == ConnectionName() then [if m.StaysOpen() then Stays() else Closes()] else [])
  {
    hide Dated, Closing.Fields, Closing.Framing, Closing.Sizing, Closing.Typing, Found;
    hide DateName, ExpiresName, ModifiedName, ConnectionName, Stays, Closes, Closing.StaysOpen;
    FieldsNamed(m);
    var connection := Field(ConnectionName(), if m.StaysOpen() then Stays() else Closes());
    var a, b, c := Dated(DateName(), m.date), Dated(ExpiresName(), m.expires), Dated(ModifiedName(), m.lastModified);
    FoundJoin(a + b + c + m.Framing(), [connection], name);
    FoundJoin(a + b + c, m.Framing(), name);
    FoundJoin(a + b, c, name);
    FoundJoin(a, b, name);
    FoundOne(connection, name);
  }

  /** A name that is not one of the dates is found among the framing or the connection. */
  lemma FoundBehind(m: Closing, name: seq<byte>)
    requires m.Valid() && |name| != 4 && |name| != 7 && |name| != 13
    ensures Found(m.Fields(), name) ==
      Found(m.Framing(), name) + if name == ConnectionName() then [if m.StaysOpen() then Stays() else Closes()] else []
    ensures m.contentSize == -1 ==> Found(m.Framing(), name) == []
  {
    hide Dated, Closing.Fields, Closing.Framing, Found, DateName, ExpiresName, ModifiedName, ConnectionName, Stays,
      Closes;
    FoundClosing(m, name);
    FoundDated(DateName(), m.date, name);
    FoundDated(ExpiresName(), m.expires, name);
    FoundDated(ModifiedName(), m.lastModified, name);
    FieldsNamed(m);
    FoundNone(name);
  }

  lemma FoundNone(name: seq<byte>)
    ensures Found([], name) == []
  {
  }

  /** The framing the peer finds agrees with the content: its size in decimal digits if that is known, chunks if it
      is not and the peer knows them, and nothing where framing is forbidden. */
  lemma FramingFound(m: Closing)
    requires m.Valid()
    ensures
      var size, coding := Found(m.Fields(), SizeName()), Found(m.Fields(), CodingName());
      && (m.contentSize >= 0 && !m.forbidFraming ==>
           |size| == 1 && AllDigits(size[0], 10) && Value(size[0], 10) == m.contentSize && coding == [])
      && (m.contentSize == -2 && !m.forbidFraming && m.http11 ==> size == [] && coding == [Chunks()])
      && (m.contentSize == -2 && !m.http11 ==> size == coding == [])
      && (m.contentSize == -1 || m.forbidFraming ==> size == coding == [])
    ensures Found(m.Fields(), TypeName()) == if m.contentSize != -1 && !m.hasContentType then [Html()] else []
  {
    hide Found, Closing.Framing, Closing.Sizing, Closing.Typing, Closing.StaysOpen, Closing.Fields, Digits, Value;
    hide SizeName, CodingName, TypeName, ConnectionName, Chunks, Html, Stays, Closes;
    FoundBehind(m, SizeName());
    FoundBehind(m, CodingName());
    FoundBehind(m, TypeName());
    if m.contentSize != -1 {
      FoundFraming(m, SizeName());
      FoundFraming(m, CodingName());
      FoundFraming(m, TypeName());
    }
    if m.contentSize >= 0 {
      Int64RoundTrip(m.contentSize, 10);
    }
  }

  /** The peer finds "close" exactly if the connection does not persist, or there is a content, framing is not
      forbidden, and it finds nothing that tells its end; else it finds "keep-alive". */
  lemma ConnectionFound(m: Closing)
    requires m.Valid()
    ensures
      var size, coding := Found(m.Fields(), SizeName()), Found(m.Fields(), CodingName());
      var untold := m.contentSize != -1 && !m.forbidFraming && size == [] && coding == [];
      Found(m.Fields(), ConnectionName()) == [if !m.persistent || untold then Closes() else Stays()]
  {
    hide Found, Closing.Framing, Closing.Sizing, Closing.Typing, Closing.Fields, SizeName, CodingName, TypeName;
    hide ConnectionName, Stays, Closes, Chunks, Html, Digits, Value;
    FramingFound(m);
    FoundBehind(m, ConnectionName());
    if m.contentSize != -1 {
      FoundFraming(m, ConnectionName());
    }
  }

  /** The dates the peer finds are those that were to be sent. */
  lemma DatesFound(m: Closing)
    requires m.Valid()
    ensures Found(m.Fields(), DateName()) == if m.date.Some? then [m.date.value] else []
    ensures Found(m.Fields(), ExpiresName()) == if m.expires.Some? then [m.expires.value] else []
    ensures Found(m.Fields(), ModifiedName()) == if m.lastModified.Some? then [m.lastModified.value] else []
  {
    hide Found, Closing.Framing, Closing.Sizing, Closing.Typing, Closing.Fields, Closing.StaysOpen, DateName,
      ExpiresName;
    hide ModifiedName, ConnectionName, Dated, TypeName, SizeName, CodingName;
    DateFound(m, DateName());
    DateFound(m, ExpiresName());
    DateFound(m, ModifiedName());
  }

  lemma DateFound(m: Closing, name: seq<byte>)
    requires m.Valid() && (|name| == 4 || |name| == 7 || |name| == 13)
    ensures Found(m.Fields(), name) ==
      Found(Dated(DateName(), m.date), name) + Found(Dated(ExpiresName(), m.expires), name) +
      Found(Dated(ModifiedName(), m.lastModified), name)
    ensures name == DateName() ==> Found(m.Fields(), name) == if m.date.Some? then [m.date.value] else []
    ensures name == ExpiresName() ==> Found(m.Fields(), name) == if m.expires.Some? then [m.expires.value] else []
    ensures name == ModifiedName() ==>
      Found(m.Fields(), name) == if m.lastModified.Some? then [m.lastModified.value] else []
  {
    hide Found, Closing.Framing, Closing.Sizing, Closing.Typing, Closing.Fields, Closing.StaysOpen, DateName,
      ExpiresName;
    hide ModifiedName, ConnectionName, Dated, TypeName, SizeName, CodingName;
    FoundClosing(m, name);
    FoundDated(DateName(), m.date, name);
    FoundDated(ExpiresName(), m.expires, name);
    FoundDated(ModifiedName(), m.lastModified, name);
    FieldsNamed(m);
    FoundNone(name);
    if m.contentSize != -1 {
      FoundFraming(m, name);
    }
  }
}
