// Field lines as a peer may send them (section 5 of RFC 9112): names in any case, any white space on both sides of
// the value, and a line feed alone for a line end. Each is received as what it says, and nothing else is received.

module SentLines {
  import opened Bytes
  import opened FieldLines

  // ----- What may be sent, in the words of RFC 9110 -----

  const TOKEN_MARKS: string := "!#$%&'*+-.^_`|~"

  /** tchar: marks, digits and letters (section 5.6.2 of RFC 9110). */
  predicate IsToken(b: byte) {
    48 <= b <= 57 || 65 <= b <= 90 || 97 <= b <= 122 || exists k | 0 <= k < |TOKEN_MARKS| :: b == TOKEN_MARKS[k] as int
  }

  predicate IsBlank(b: byte) { b == 32 || b == 9 }

  /** A blank, a visible character, or one that is not ASCII. */
  predicate IsText(b: byte) { IsBlank(b) || 33 <= b <= 126 || 128 <= b }

  predicate IsLineEnd(eol: seq<byte>) { eol == [13, 10] || eol == [10] }

  datatype Sent = Sent(name: seq<byte>, before: seq<byte>, value: seq<byte>, behind: seq<byte>, eol: seq<byte>) {
    predicate Legal() {
      && 1 <= |name| <= 255 && (forall k | 0 <= k < |name| :: IsToken(name[k]))
      && (forall k | 0 <= k < |before| :: IsBlank(before[k])) && (forall k | 0 <= k < |behind| :: IsBlank(behind[k]))
      && (forall k | 0 <= k < |value| :: IsText(value[k]))
      && (if value == [] then behind == [] else !IsBlank(value[0]) && !IsBlank(value[|value| - 1]))
      && IsLineEnd(eol)
    }

    /** name ":" blanks value blanks, and the line end */
    function Text(): seq<byte> {
      name + [58] + before + value + behind + eol
    }
  }

  function Sum(s: seq<byte>): nat {
    if s == [] then 0 else s[0] + Sum(s[1..])
  }

  /** The line that is received for it: the letters of its name in lower case, and the sum of these. */
  predicate Means(s: Sent, line: Line) {
    && |line.name| == |s.name|
    && (forall k | 0 <= k < |s.name| :: line.name[k] == if 65 <= s.name[k] <= 90 then s.name[k] + 32 else s.name[k])
    && line.value == s.value && line.hash == Sum(line.name) % 0x1_0000
  }

  predicate MeanAll(sent: seq<Sent>, lines: seq<Line>) {
    |lines| == |sent| && forall k | 0 <= k < |sent| :: Means(sent[k], lines[k])
  }

  function Texts(sent: seq<Sent>): seq<byte> {
    if sent == [] then [] else sent[0].Text() + Texts(sent[1..])
  }

  predicate AllLegal(sent: seq<Sent>) {
    forall k | 0 <= k < |sent| :: sent[k].Legal()
  }

  // ----- The classes of bytes -----

  /** The token table has the token characters, and marks the upper-case ones. */
  lemma TokenTable(b: byte)
    ensures Tchar(b) != 0 <==> IsToken(b)
    ensures Tchar(b) == 2 <==> 65 <= b <= 90
  {
    MarkBytes();
    var marks: seq<byte> := [33, 35, 36, 37, 38, 39, 42, 43, 45, 46, 94, 95, 96, 124, 126];
    if Tchar(b) != 0 && !(48 <= b <= 57 || 65 <= b <= 90 || 97 <= b <= 122) {
      assert b in marks;
      var k :| 0 <= k < |marks| && marks[k] == b;
      assert b == TOKEN_MARKS[k] as int;
    }
  }

  lemma MarkBytes()
    ensures |TOKEN_MARKS| == 15
    ensures forall k | 0 <= k < 15 ::
      TOKEN_MARKS[k] as int == [33, 35, 36, 37, 38, 39, 42, 43, 45, 46, 94, 95, 96, 124, 126][k]
  {
  }

  lemma {:induction false} HashIsSum(name: seq<byte>)
    ensures Hash(name) == Sum(name) % 0x1_0000
  {
    if name != [] {
      HashIsSum(name[..|name| - 1]);
      SumLast(name);
      WrapAdd(Sum(name[..|name| - 1]), name[|name| - 1]);
    }
  }

  lemma WrapAdd(a: nat, b: nat)
    ensures (a % 0x1_0000 + b) % 0x1_0000 == (a + b) % 0x1_0000
  {
  }

  lemma {:induction false} SumLast(s: seq<byte>)
    requires s != []
    ensures Sum(s) == Sum(s[..|s| - 1]) + s[|s| - 1]
  {
    if |s| > 1 {
      SumLast(s[1..]);
      assert s[..|s| - 1][1..] == s[1..][..|s| - 2];
      assert s[..|s| - 1][0] == s[0];
    } else {
      assert s[1..] == [] && s[..0] == [];
    }
  }

  /** What the parser makes of a name. */
  lemma LoweredMeans(s: Sent)
    ensures Means(s, Line(Lowered(s.name), s.value, Hash(Lowered(s.name))))
  {
    HashIsSum(Lowered(s.name));
    forall k | 0 <= k < |s.name|
      ensures Lowered(s.name)[k] == if 65 <= s.name[k] <= 90 then s.name[k] + 32 else s.name[k]
    {
      TokenTable(s.name[k]);
    }
  }

  // ----- What is sent is received -----

  lemma {:induction false} BlanksScanned(w: seq<byte>, limit: nat, q: nat, b: nat)
    requires q <= b < |w| && b < limit && !IsOws(w[b])
    requires forall k | q <= k < b :: IsOws(w[k])
    ensures ScanOws(w, limit, q) == At(b)
    decreases b - q
  {
    if q < b {
      BlanksScanned(w, limit, q + 1, b);
    }
  }

  lemma {:induction false} TextScanned(w: seq<byte>, limit: nat, b: nat, fore: nat, lf: nat)
    requires b <= fore <= lf < |w| && lf < limit && w[lf] == LF
    requires lf == fore || (lf == fore + 1 && w[fore] == CR)
    requires forall k | b <= k < fore :: IsValueByte(w[k])
    ensures ScanValue(w, limit, b) == At(lf)
    decreases fore - b
  {
    if b < fore {
      TextScanned(w, limit, b + 1, fore, lf);
    }
  }

  lemma {:induction false} BlanksTrimmed(w: seq<byte>, back: nat, e: nat, fore: nat)
    requires back <= e <= fore <= |w| && (e == back || !IsOws(w[e - 1]))
    requires forall k | e <= k < fore :: IsOws(w[k])
    ensures TrimOws(w, back, fore) == e
    decreases fore
  {
    if e < fore {
      BlanksTrimmed(w, back, e, fore - 1);
    }
  }

  /** Where the parts of a line stand that starts at p. */
  datatype Places = Places(colon: nat, value: nat, end: nat, fore: nat, lf: nat)

  function PlacesOf(s: Sent, p: nat): Places
    requires s.eol != []
  {
    var c := p + |s.name|;
    var b := c + 1 + |s.before|;
    var e := b + |s.value|;
    Places(c, b, e, e + |s.behind|, e + |s.behind| + |s.eol| - 1)
  }

  predicate StandsThere(w: seq<byte>, p: nat, s: Sent)
    requires s.eol != []
  {
    var x := PlacesOf(s, p);
    && x.lf < |w| && w[p..x.colon] == s.name && w[x.colon] == 58 && w[x.colon + 1..x.value] == s.before
    && w[x.value..x.end] == s.value && w[x.end..x.fore] == s.behind && w[x.fore..x.lf + 1] == s.eol
  }

  lemma PartsStand(w: seq<byte>, p: nat, s: Sent)
    requires s.eol != [] && StandsAt(w, p, s.Text())
    ensures StandsThere(w, p, s) && PlacesOf(s, p).lf + 1 == p + |s.Text()|
  {
    var n := s.name + [58];
    StandsSplit(w, p, n + s.before + s.value + s.behind, s.eol);
    StandsSplit(w, p, n + s.before + s.value, s.behind);
    StandsSplit(w, p, n + s.before, s.value);
    StandsSplit(w, p, n, s.before);
    StandsSplit(w, p, s.name, [58]);
    StandsIndex(w, p + |s.name|, [58], p + |s.name|);
  }

  /** Whatever may be sent for a field line is received as what it says. */
  lemma SentLineParsed(w: seq<byte>, p: nat, s: Sent, limit: nat)
    requires s.Legal() && StandsAt(w, p, s.Text()) && p + |s.Text()| <= limit
    ensures
      var r := ParseLine(w, limit, p);
      r.LineTo? && r.lf == p + |s.Text()| - 1 && Means(s, r.line)
    ensures w[p] != CR && w[p] != LF
  {
    hide ParseLine, ScanName, ScanOws, ScanValue, ValueOf, Lowered, Hash, Means, Sent.Text;
    PartsStand(w, p, s);
    var x := PlacesOf(s, p);
    SentNameFound(w, p, s, limit);
    SentValueFound(w, p, s, limit);
    LineComposed(w, p, limit, x.colon, x.value, x.lf);
    LoweredMeans(s);
  }

  lemma SentNameFound(w: seq<byte>, p: nat, s: Sent, limit: nat)
    requires s.Legal() && StandsThere(w, p, s) && PlacesOf(s, p).lf < limit
    ensures ScanName(w, limit, p) == At(PlacesOf(s, p).colon) && w[p..PlacesOf(s, p).colon] == s.name
    ensures w[p] != CR && w[p] != LF
  {
    var c := PlacesOf(s, p).colon;
    forall k | p <= k < c
      ensures Tchar(w[k]) != 0
    {
      TokenTable(s.name[k - p]);
      assert w[k] == w[p..c][k - p];
    }
    NameScanned(w, limit, p, c);
    assert Tchar(w[p]) != 0;
  }

  lemma SentValueFound(w: seq<byte>, p: nat, s: Sent, limit: nat)
    requires s.Legal() && StandsThere(w, p, s) && PlacesOf(s, p).lf < limit
    ensures
      var x := PlacesOf(s, p);
      && x.value <= x.lf && ScanOws(w, limit, x.colon + 1) == At(x.value)
      && ScanValue(w, limit, x.value) == At(x.lf) && ValueOf(w, x.value, x.lf) == s.value
  {
    hide Sent.Legal, StandsThere, IsOws, IsValueByte, ScanOws, ScanValue, ValueOf;
    PlacesInOrder(w, p, s);
    var x := PlacesOf(s, p);
    BytesBefore(w, p, s);
    BytesBehind(w, p, s);
    hide PlacesOf;
    BlanksScanned(w, limit, x.colon + 1, x.value);
    TextScanned(w, limit, x.value, x.fore, x.lf);
    ValueTrimmed(w, x);
  }

  lemma PlacesInOrder(w: seq<byte>, p: nat, s: Sent)
    requires s.Legal() && StandsThere(w, p, s)
    ensures
      var x := PlacesOf(s, p);
      x.colon < x.value <= x.end <= x.fore <= x.lf <= x.fore + 1 && x.lf < |w|
  {
  }

  lemma ValueTrimmed(w: seq<byte>, x: Places)
    requires 0 < x.value <= x.end <= x.fore <= x.lf <= x.fore + 1 && x.lf < |w|
    requires (x.lf == x.fore + 1 ==> w[x.fore] == CR) && (x.lf == x.fore ==> w[x.lf - 1] != CR)
    requires (forall k | x.end <= k < x.fore :: IsOws(w[k])) && (x.end > x.value ==> !IsOws(w[x.end - 1]))
    requires x.end == x.value ==> x.fore == x.end
    ensures ValueOf(w, x.value, x.lf) == w[x.value..x.end]
  {
    if x.fore > x.value {
      BlanksTrimmed(w, x.value, x.end, x.fore);
    }
    assert ValueEnd(w, x.value, x.lf) == x.end;
  }

  /** The bytes of a line in front of its value, one by one, and the first one behind them. */
  lemma BytesBefore(w: seq<byte>, p: nat, s: Sent)
    requires s.Legal() && StandsThere(w, p, s)
    ensures
      var x := PlacesOf(s, p);
      && (forall k | x.colon < k < x.value :: IsOws(w[k])) && !IsOws(w[x.value]) && w[x.value - 1] != CR
      && w[x.value..x.end] == s.value && (x.end == x.value ==> x.fore == x.end)
  {
    var x := PlacesOf(s, p);
    forall k | x.colon < k < x.value
      ensures w[k] == s.before[k - x.colon - 1]
    {
      assert w[k] == w[x.colon + 1..x.value][k - x.colon - 1];
    }
    if s.value == [] {
      assert w[x.value] == w[x.fore..x.lf + 1][0] == s.eol[0];
    } else {
      assert w[x.value] == w[x.value..x.end][0] == s.value[0];
    }
  }

  /** The bytes of the value and behind it. */
  lemma BytesBehind(w: seq<byte>, p: nat, s: Sent)
    requires s.Legal() && StandsThere(w, p, s) && w[PlacesOf(s, p).value - 1] != CR
    ensures
      var x := PlacesOf(s, p);
      && (forall k | x.value <= k < x.fore :: IsValueByte(w[k])) && (forall k | x.end <= k < x.fore :: IsOws(w[k]))
      && (x.end > x.value ==> !IsOws(w[x.end - 1])) && w[x.lf] == LF && (x.lf == x.fore || x.lf == x.fore + 1)
      && (x.lf == x.fore + 1 ==> w[x.fore] == CR) && (x.lf == x.fore ==> w[x.lf - 1] != CR)
  {
    var x := PlacesOf(s, p);
    ValueBytes(w[x.value..x.end], s.value);
    forall k | x.value <= k < x.end
      ensures IsValueByte(w[k])
    {
      assert w[k] == w[x.value..x.end][k - x.value];
    }
    forall k | x.end <= k < x.fore
      ensures IsOws(w[k])
    {
      assert w[k] == w[x.end..x.fore][k - x.end];
    }
    if x.end > x.value {
      assert w[x.end - 1] == w[x.value..x.end][x.end - 1 - x.value];
    }
    assert w[x.fore] == w[x.fore..x.lf + 1][0] == s.eol[0];
    assert w[x.lf] == w[x.fore..x.lf + 1][x.lf - x.fore] == s.eol[x.lf - x.fore];
  }

  lemma ValueBytes(t: seq<byte>, value: seq<byte>)
    requires t == value && forall k | 0 <= k < |value| :: IsText(value[k])
    ensures forall k | 0 <= k < |t| :: IsValueByte(t[k])
  {
  }

  /** Whatever may be sent for a section of field lines is received line by line as what it says, wherever it
      stands, if it fits. */
  lemma {:induction false} SentSectionParsed(w: seq<byte>, p: nat, sent: seq<Sent>, eol: seq<byte>, limit: nat,
    room: nat)
    requires AllLegal(sent) && IsLineEnd(eol) && StandsAt(w, p, Texts(sent) + eol)
    requires p + |Texts(sent)| + |eol| <= limit && |sent| <= room
    ensures p < |w|
    ensures
      var r := ParseSection(w, limit, p, room);
      r.Lines? && r.end == p + |Texts(sent)| + |eol| - 1 && MeanAll(sent, r.lines)
    decreases |sent|
  {
    hide ParseSection, ParseLine, Means, Sent.Legal, Sent.Text;
    if sent == [] {
      assert Texts(sent) + eol == eol;
      EmptyLineEnds(w, p, eol, limit, room);
    } else {
      var s, later := sent[0], sent[1..];
      assert Texts(sent) + eol == s.Text() + (Texts(later) + eol);
      StandsSplit(w, p, s.Text(), Texts(later) + eol);
      SentLineParsed(w, p, s, limit);
      SentSectionParsed(w, p + |s.Text()|, later, eol, limit, room - 1);
      SectionComposed(w, p, limit, room, ParseLine(w, limit, p).line, p + |s.Text()| - 1);
    }
  }

  lemma EmptyLineEnds(w: seq<byte>, p: nat, eol: seq<byte>, limit: nat, room: nat)
    requires IsLineEnd(eol) && StandsAt(w, p, eol) && p + |eol| <= limit
    ensures ParseSection(w, limit, p, room) == Lines([], p + |eol| - 1)
  {
    StandsIndex(w, p, eol, p);
    StandsIndex(w, p, eol, p + |eol| - 1);
  }

  // ----- The case of a name -----

  /** The same name, up to the case of its letters. */
  predicate SpelledAlike(a: seq<byte>, b: seq<byte>) {
    && |a| == |b|
    && forall k | 0 <= k < |a| ::
      || a[k] == b[k] || (65 <= a[k] <= 90 && b[k] == a[k] + 32) || (65 <= b[k] <= 90 && a[k] == b[k] + 32)
  }

  /** Two spellings of a name are received as the same line, hash included, and no letter of it is upper case. */
  lemma CaseIgnored(s: Sent, t: Sent, x: Line, y: Line)
    requires Means(s, x) && Means(t, y) && SpelledAlike(s.name, t.name) && s.value == t.value
    ensures x == y && forall k | 0 <= k < |x.name| :: !(65 <= x.name[k] <= 90)
  {
    forall k | 0 <= k < |x.name|
      ensures x.name[k] == y.name[k]
    {
      assert x.name[k] == if 65 <= s.name[k] <= 90 then s.name[k] + 32 else s.name[k];
      assert y.name[k] == if 65 <= t.name[k] <= 90 then t.name[k] + 32 else t.name[k];
    }
    assert x.name == y.name;
  }

  // ----- Nothing else is received -----

  lemma {:induction false} NameBytes(w: seq<byte>, limit: nat, q: nat)
    requires q < |w| && ScanName(w, limit, q).At?
    ensures forall k | q <= k < ScanName(w, limit, q).pos :: Tchar(w[k]) != 0
    decreases |w| - q
  {
    if Tchar(w[q]) != 0 {
      NameBytes(w, limit, q + 1);
    }
  }

  lemma {:induction false} BlankBytes(w: seq<byte>, limit: nat, q: nat)
    requires q < |w| && ScanOws(w, limit, q).At?
    ensures forall k | q <= k < ScanOws(w, limit, q).pos :: IsOws(w[k])
    decreases |w| - q
  {
    if IsOws(w[q]) {
      BlankBytes(w, limit, q + 1);
    }
  }

  /** Where the text of a value ends, and its line end begins. */
  lemma {:induction false} TextBytes(w: seq<byte>, limit: nat, q: nat) returns (fore: nat)
    requires q < |w| && ScanValue(w, limit, q).At?
    ensures q <= fore <= ScanValue(w, limit, q).pos <= fore + 1
    ensures ScanValue(w, limit, q).pos == fore + 1 ==> w[fore] == CR
    ensures forall k | q <= k < fore :: IsValueByte(w[k])
    decreases |w| - q
  {
    if IsValueByte(w[q]) {
      fore := TextBytes(w, limit, q + 1);
    } else {
      fore := q;
    }
  }

  lemma {:induction false} TrimmedBytes(w: seq<byte>, back: nat, fore: nat)
    requires back <= fore <= |w|
    ensures
      var e := TrimOws(w, back, fore);
      (forall k | e <= k < fore :: IsOws(w[k])) && (e > back ==> !IsOws(w[e - 1]))
    decreases fore
  {
    if back < fore && IsOws(w[fore - 1]) {
      TrimmedBytes(w, back, fore - 1);
    }
  }

  /** Where the parts of a line are that is received. */
  lemma PartsFound(w: seq<byte>, p: nat, limit: nat) returns (c: nat, b: nat, e: nat, fore: nat)
    requires p < |w| && ParseLine(w, limit, p).LineTo?
    ensures
      var lf := ParseLine(w, limit, p).lf;
      && p < c < b <= e <= fore <= lf <= fore + 1 && lf < |w| && c - p <= 255 && w[lf] == LF && w[c] == COLON
      && (lf == fore + 1 ==> w[fore] == CR)
      && (forall k | p <= k < c :: Tchar(w[k]) != 0) && (forall k | c < k < b :: IsOws(w[k]))
      && (forall k | b <= k < fore :: IsValueByte(w[k])) && (forall k | e <= k < fore :: IsOws(w[k]))
      && !IsOws(w[b]) && (e > b ==> !IsOws(w[e - 1]))
      && ParseLine(w, limit, p).line == Line(Lowered(w[p..c]), w[b..e], Hash(Lowered(w[p..c])))
  {
    hide Lowered, Hash, ScanName, ScanOws, ScanValue, TrimOws, ValueOf, Tchar, IsOws, IsValueByte;
    c := ScanName(w, limit, p).pos;
    b := ScanOws(w, limit, c + 1).pos;
    NameBytes(w, limit, p);
    BlankBytes(w, limit, c + 1);
    fore := TextBytes(w, limit, b);
    e := TrimOws(w, b, fore);
    TrimmedBytes(w, b, fore);
    ValueEndsThere(w, c, b, fore, ScanValue(w, limit, b).pos);
  }

  /** Whatever is received as a field line was sent as one, and means that line. */
  lemma LineSound(w: seq<byte>, p: nat, limit: nat) returns (s: Sent)
    requires p < |w| && ParseLine(w, limit, p).LineTo?
    ensures s.Legal() && Means(s, ParseLine(w, limit, p).line)
    ensures w[p..ParseLine(w, limit, p).lf + 1] == s.Text()
  {
    hide ParseLine, Lowered, Hash, Means, Tchar, IsOws, IsValueByte, Sent.Legal;
    var lf := ParseLine(w, limit, p).lf;
    var c, b, e, fore := PartsFound(w, p, limit);
    s := Sent(w[p..c], w[c + 1..b], w[b..e], w[e..fore], w[fore..lf + 1]);
    SentIsLegal(w, p, c, b, e, fore, lf);
    PartsJoin(w, p, c, b, e, fore, lf);
    LoweredMeans(s);
  }

  /** A value ends in front of its line end, where no blanks are. */
  lemma ValueEndsThere(w: seq<byte>, c: nat, b: nat, fore: nat, lf: nat)
    requires c < b <= fore <= lf <= fore + 1 && lf < |w| && w[c] == COLON && (lf == fore + 1 ==> w[fore] == CR)
    requires forall k | c < k < b :: IsOws(w[k])
    requires forall k | b <= k < fore :: IsValueByte(w[k])
    ensures ValueOf(w, b, lf) == w[b..TrimOws(w, b, fore)]
  {
    assert w[lf - 1] == CR <==> lf == fore + 1;
    if fore == b {
      assert TrimOws(w, b, fore) == b;
    }
  }

  lemma SentIsLegal(w: seq<byte>, p: nat, c: nat, b: nat, e: nat, fore: nat, lf: nat)
    requires p < c < b <= e <= fore <= lf <= fore + 1 && lf < |w| && c - p <= 255 && w[lf] == LF
    requires lf == fore + 1 ==> w[fore] == CR
    requires forall k | p <= k < c :: Tchar(w[k]) != 0
    requires forall k | c < k < b :: IsOws(w[k])
    requires forall k | b <= k < fore :: IsValueByte(w[k])
    requires forall k | e <= k < fore :: IsOws(w[k])
    requires !IsOws(w[b]) && (e > b ==> !IsOws(w[e - 1]))
    ensures Sent(w[p..c], w[c + 1..b], w[b..e], w[e..fore], w[fore..lf + 1]).Legal()
  {
    forall k | 0 <= k < c - p
      ensures IsToken(w[p..c][k])
    {
      TokenTable(w[p + k]);
    }
    assert w[fore..lf + 1] == if lf == fore then [10] else [13, 10];
  }

  lemma PartsJoin(w: seq<byte>, p: nat, c: nat, b: nat, e: nat, fore: nat, lf: nat)
    requires p <= c < b <= e <= fore <= lf < |w| && w[c] == COLON
    ensures w[p..lf + 1] == w[p..c] + [58] + w[c + 1..b] + w[b..e] + w[e..fore] + w[fore..lf + 1]
  {
  }

  /** Whatever is received as a section of field lines was sent as one, and each line means what is received. */
  lemma {:induction false} SectionSound(w: seq<byte>, p: nat, limit: nat, room: nat)
    returns (sent: seq<Sent>, eol: seq<byte>)
    requires p < |w| && ParseSection(w, limit, p, room).Lines?
    ensures
      var r := ParseSection(w, limit, p, room);
      && AllLegal(sent) && IsLineEnd(eol) && |sent| <= room && MeanAll(sent, r.lines)
      && w[p..r.end + 1] == Texts(sent) + eol
    decreases |w| - p
  {
    hide ParseLine, Means, MeanAll, AllLegal, Sent.Legal, Sent.Text, ScanEol, IsLineEnd;
    var r := ParseSection(w, limit, p, room);
    NothingMeant();
    if w[p] == CR || w[p] == LF {
      sent, eol := [], w[p..r.end + 1];
      EmptyLineSound(w, p, limit, room);
      assert [] + eol == eol;
    } else {
      var line := ParseLine(w, limit, p);
      var s := LineSound(w, p, limit);
      sent, eol := SectionSound(w, line.lf + 1, limit, room - 1);
      var later := ParseSection(w, limit, line.lf + 1, room - 1);
      assert r == later.Prepend([line.line]);
      hide ParseSection, Texts;
      SliceSplit(w, p, line.lf + 1, r.end + 1);
      SentMore(s, line.line, sent, later.lines);
      JoinTwice(s.Text(), Texts(sent), eol);
      sent := [s] + sent;
    }
  }

  lemma NothingMeant()
    ensures MeanAll([], []) && AllLegal([])
  {
  }

  lemma EmptyLineSound(w: seq<byte>, p: nat, limit: nat, room: nat)
    requires p < |w| && (w[p] == CR || w[p] == LF) && ParseSection(w, limit, p, room).Lines?
    ensures ParseSection(w, limit, p, room).lines == [] && IsLineEnd(w[p..ParseSection(w, limit, p, room).end + 1])
  {
    var end := ParseSection(w, limit, p, room).end;
    assert w[p..end + 1] == if w[p] == CR then [13, 10] else [10];
  }

  lemma SliceSplit(w: seq<byte>, a: nat, b: nat, c: nat)
    requires a <= b <= c <= |w|
    ensures w[a..c] == w[a..b] + w[b..c]
  {
  }

  lemma JoinTwice(a: seq<byte>, b: seq<byte>, c: seq<byte>)
    ensures a + (b + c) == (a + b) + c
  {
  }

  lemma SentMore(s: Sent, line: Line, sent: seq<Sent>, lines: seq<Line>)
    requires s.Legal() && AllLegal(sent) && Means(s, line) && MeanAll(sent, lines)
    ensures AllLegal([s] + sent) && MeanAll([s] + sent, [line] + lines) && Texts([s] + sent) == s.Text() + Texts(sent)
  {
    hide Means, Sent.Legal, Sent.Text;
    assert ([s] + sent)[1..] == sent;
  }
}
