// Deleting header fields by name (web_general_http1.go:730-749): what the loop over the edges leaves behind,
// against the list without the fields of that name.

module HeaderDeletion {
  import opened Bytes
  import opened FieldLines
  import opened HeaderOutput

  // ----- What should happen -----

  /** The fields with other names, in order. */
  function Others(fields: seq<Field>, name: seq<byte>): (r: seq<Field>)
    ensures |r| <= |fields|
  {
    if fields == [] then []
    else if fields[0].name == name then Others(fields[1..], name)
    else [fields[0]] + Others(fields[1..], name)
  }

  /** Fields of that name, all of the same size, and behind them at most one other, whose name is shorter. */
  predicate EndsWell(tail: seq<Field>, name: seq<byte>, size: nat) {
    tail == [] ||
    if tail[0].name == name then Size(tail[0]) == size && EndsWell(tail[1..], name, size)
    else |tail| == 1 && |tail[0].name| < size
  }

  predicate SameSize(tail: seq<Field>, size: nat) {
    forall k | 0 <= k < |tail| :: Size(tail[k]) == size
  }

  lemma {:induction false} OthersJoin(a: seq<Field>, b: seq<Field>, name: seq<byte>)
    requires forall k | 0 <= k < |a| :: a[k].name != name
    ensures Others(a + b, name) == a + Others(b, name)
  {
    if a == [] {
      assert a + b == b;
    } else {
      assert (a + b)[1..] == a[1..] + b;
      OthersJoin(a[1..], b, name);
    }
  }

  /** Nothing happens to the fields before the first match. */
  lemma OthersFrom(fields: seq<Field>, name: seq<byte>)
    ensures var m := FirstMatch(fields, name); Others(fields, name) == fields[..m] + Others(fields[m..], name)
  {
    var m := FirstMatch(fields, name);
    Rejoined(fields, m);
    OthersJoin(fields[..m], fields[m..], name);
  }

  // ----- Before the first match -----

  /** A field that is in its place is recognised by its name. */
  lemma ProbedInPlace(b: Buffer, fields: seq<Field>, k: nat, name: seq<byte>)
    requires b.Valid() && b.Holds(fields) && k < |fields|
    ensures b.edges[k] == EdgeOf(fields, k) && b.edges[k + 1] == EdgeOf(fields, k + 1)
    ensures Probe(b.bytes, EdgeOf(fields, k), EdgeOf(fields, k + 1), name) ==
      if fields[k].name == name then Hit else Miss
  {
    EdgesKnown(b.edges, fields, k);
    FieldSeen(fields, k);
    ProbedFront(b.bytes, EdgeOf(fields, k), EdgeOf(fields, k + 1), fields[k], name) by {
      assert b.bytes[..b.edge][EdgeOf(fields, k)..EdgeOf(fields, k + 1)] == Print(fields[k]);
    }
  }

  /** A window that starts with a field, and reaches behind its name, shows that name. */
  lemma ProbedFront(bytes: seq<byte>, from: nat, edge: nat, f: Field, name: seq<byte>)
    requires |bytes| <= K16 && from + |f.name| < edge <= |bytes| && NoColon(f.name) && from + Size(f) <= |bytes|
    requires bytes[from..from + Size(f)] == Print(f)
    ensures Probe(bytes, from, edge, name) == if f.name == name then Hit else Miss
  {
    var window, printed := bytes[from..edge], Print(f);
    assert printed == bytes[from..from + Size(f)];
    assert forall j | 0 <= j < |window| && j < |printed| :: window[j] == bytes[from + j] == printed[j];
    assert printed[|f.name|] == COLON;
    assert window[|f.name|] == COLON;
    var p := FirstColon(window);
    NameStarts(window, f, p, printed);
    assert bytes[from..from + p] == window[..p];
    WrapsBack(from, p);
  }

  /** The loop gets to the first match with everything still in place. */
  lemma {:induction false} ReachesMatch(b: Buffer, fields: seq<Field>, name: seq<byte>, k: nat)
    requires b.Valid() && b.Holds(fields) && k <= FirstMatch(fields, name)
    ensures
      var m := FirstMatch(fields, name);
      && EdgeOf(fields, k) <= |b.bytes|
      && DeleteFrom(b, name, k + 1, EdgeOf(fields, k)) == DeleteFrom(b, name, m + 1, EdgeOf(fields, m))
    decreases FirstMatch(fields, name) - k
  {
    var m := FirstMatch(fields, name);
    if k < m {
      ProbedInPlace(b, fields, k, name);
      ReachesMatch(b, fields, name, k + 1);
    } else {
      assert fields[..|fields|] == fields;
      EdgesGrow(fields, k, |fields|);
    }
  }

  // ----- A run of matches of one size -----

  /** Matches of one size have been cut out in front of number m; the edge behind the first one is still there. */
  ghost predicate Gone(b: Buffer, rest: seq<Field>, m: nat, size: nat) {
    && b.Valid() && b.Sends(rest) && NoColons(rest) && m <= |rest| && b.count == |rest| + 1 && m + 1 < EDGES
    && (forall j | 0 <= j <= m :: b.edges[j] == EdgeOf(rest, j))
    && b.edges[m + 1] == EdgeOf(rest, m) + size <= |b.bytes|
  }

  lemma NothingGone(b: Buffer, fields: seq<Field>, m: nat)
    requires b.Valid() && b.Holds(fields) && m < |fields|
    ensures Gone(b, fields, m, Size(fields[m]))
  {
    EdgesKnown(b.edges, fields, m);
    FieldSeen(fields, m);
  }

  /** A match of that size is cut out properly. */
  lemma CutInPlace(b: Buffer, rest: seq<Field>, m: nat, size: nat)
    requires Gone(b, rest, m, size) && m < |rest| && Size(rest[m]) == size
    ensures Gone(b.CutOut(m + 1, EdgeOf(rest, m)), Without(rest, m), m, size)
  {
    hide PrintAll, Print, Pasted;
    WithoutBytes(rest, m, b.bytes);
    forall j | 0 <= j <= m
      ensures EdgeOf(Without(rest, m), j) == EdgeOf(rest, j)
    {
      assert Without(rest, m)[..j] == rest[..j];
    }
  }

  /** A field behind the run that was cut out is compared within a window of the size of the cuts. */
  lemma NextProbed(b: Buffer, rest: seq<Field>, m: nat, size: nat, name: seq<byte>)
    requires Gone(b, rest, m, size) && m < |rest| && |rest[m].name| < size
    ensures Probe(b.bytes, EdgeOf(rest, m), b.edges[m + 1], name) == if rest[m].name == name then Hit else Miss
  {
    hide Probe, PrintAll, Print;
    FieldSeen(rest, m);
    assert b.bytes[..b.edge][EdgeOf(rest, m)..EdgeOf(rest, m + 1)] == b.bytes[EdgeOf(rest, m)..EdgeOf(rest, m + 1)];
    ProbedFront(b.bytes, EdgeOf(rest, m), b.edges[m + 1], rest[m], name);
  }

  /** Whatever the values are: such a run, and at most one field behind it, is deleted as it should be. */
  lemma {:induction false} RunDeleted(b: Buffer, rest: seq<Field>, m: nat, size: nat, name: seq<byte>)
    requires Gone(b, rest, m, size) && size > |name| && EndsWell(rest[m..], name, size)
    requires forall j | 0 <= j < m :: rest[j].name != name
    ensures
      var r := DeleteFrom(b, name, m + 1, EdgeOf(rest, m));
      && r.Deleted? && r.buffer.Sends(Others(rest, name))
      && (r.buffer.Holds(Others(rest, name)) <==> SameSize(rest[m..], size))
    decreases |rest|
  {
    hide Probe, PrintAll, Print, Pasted, LowerEdges;
    OthersJoin(rest[..m], rest[m..], name);
    Rejoined(rest, m);
    if m == |rest| {
      assert rest[..m] + [] == rest;
    } else if rest[m].name == name {
      NextProbed(b, rest, m, size, name);
      CutInPlace(b, rest, m, size);
      var less := Without(rest, m);
      assert less[m..] == rest[m..][1..] && less[..m] == rest[..m];
      EdgeKept(rest, m);
      RunDeleted(b.CutOut(m + 1, EdgeOf(rest, m)), less, m, size, name);
      OthersJoin(less[..m], less[m..], name);
      Rejoined(less, m);
      assert SameSize(rest[m..], size) <==> SameSize(less[m..], size) by {
        assert rest[m..] == [rest[m]] + less[m..];
      }
    } else {
      LastBehind(b, rest, m, size, name);
    }
  }

  lemma LastBehind(b: Buffer, rest: seq<Field>, m: nat, size: nat, name: seq<byte>)
    requires Gone(b, rest, m, size) && |rest| == m + 1 && rest[m].name != name && |rest[m].name| < size
    requires forall j | 0 <= j < m :: rest[j].name != name
    ensures
      && Others(rest, name) == rest && DeleteFrom(b, name, m + 1, EdgeOf(rest, m)) == Deleted(b)
      && (b.Holds(rest) <==> SameSize(rest[m..], size))
  {
    hide Probe, PrintAll, Print;
    NextProbed(b, rest, m, size, name);
    OthersJoin(rest, [], name);
    assert rest + [] == rest;
    NextEdge(rest, m);
  }

  lemma EdgeKept(rest: seq<Field>, m: nat)
    requires m < |rest|
    ensures EdgeOf(Without(rest, m), m) == EdgeOf(rest, m)
  {
    assert Without(rest, m)[..m] == rest[..m];
  }

  // ----- When only fields look like fields -----

  /** Values without a colon, and names without a line feed. */
  predicate Plain(fields: seq<Field>) {
    forall k | 0 <= k < |fields| :: COLON !in fields[k].value && LF !in fields[k].name
  }

  /** Behind the edge there is no colon, and there is room for as much as is cut out at a time. */
  predicate Clean(b: Buffer, size: nat) {
    b.edge + size <= |b.bytes| && forall x | b.edge <= x < |b.bytes| :: b.bytes[x] != COLON
  }

  /** Where the colon behind a name is. */
  function ColonOf(fields: seq<Field>, g: nat): nat
    requires g < |fields|
  {
    EdgeOf(fields, g) + |fields[g].name|
  }

  lemma ColonThere(fields: seq<Field>, g: nat)
    requires g < |fields|
    ensures EdgeOf(fields, g) <= ColonOf(fields, g) < EdgeOf(fields, g + 1) <= |PrintAll(fields)|
    ensures PrintAll(fields)[ColonOf(fields, g)] == COLON
  {
    hide PrintAll;
    FieldSeen(fields, g);
    assert Print(fields[g])[|fields[g].name|] == COLON;
  }

  lemma ColonsInOrder(fields: seq<Field>, g: nat, h: nat)
    requires g < h < |fields|
    ensures ColonOf(fields, g) < EdgeOf(fields, g + 1) <= EdgeOf(fields, h) <= ColonOf(fields, h)
  {
    hide EdgeOf;
    ColonThere(fields, g);
    EdgesGrow(fields, g + 1, h);
  }

  lemma ColonsRise(fields: seq<Field>, g: nat)
    ensures forall h | g <= h < |fields| :: ColonOf(fields, g) <= ColonOf(fields, h)
  {
    forall h | g < h < |fields|
      ensures ColonOf(fields, g) <= ColonOf(fields, h)
    {
      ColonsInOrder(fields, g, h);
    }
  }

  lemma {:induction false} EveryColon(fields: seq<Field>, k: nat, x: nat) returns (g: nat)
    requires Plain(fields) && NoColons(fields) && k <= |fields|
    requires x < EdgeOf(fields, k) && PrintAll(fields[..k])[x] == COLON
    ensures g < k && x == ColonOf(fields, g)
  {
    if k == 0 {
      NoEdge(fields);
      assert false;
    } else {
      NextEdge(fields, k - 1);
      if x < EdgeOf(fields, k - 1) {
        g := EveryColon(fields, k - 1, x);
      } else {
        hide PrintAll;
        g := k - 1;
        assert Print(fields[g])[x - EdgeOf(fields, g)] == COLON;
      }
    }
  }

  /** What was c bytes further on, behind `from`; nothing that was behind the edge shows a colon. */
  ghost predicate Shifted(was: seq<byte>, now: seq<byte>, from: nat, c: nat, edge: nat) {
    && |now| == |was| && edge <= |was|
    && (forall x | from <= x < |was| && x + c < |was| :: now[x] == was[x + c])
    && (forall x | from <= x < |was| && x + c >= edge :: now[x] != COLON)
  }

  lemma ShiftedOn(was: seq<byte>, now: seq<byte>, from: nat, c: nat, edge: nat, size: nat)
    requires Shifted(was, now, from, c, edge) && from + size <= |was| && edge + size <= |was|
    ensures Shifted(was, Pasted(now, from, now[from + size..]), from, c + size, edge)
  {
    var next := Pasted(now, from, now[from + size..]);
    forall x | from <= x < |was|
      ensures next[x] == if x + size < |was| then now[x + size] else now[x]
    {
    }
  }

  lemma FrontStays(s: seq<byte>, from: nat, size: nat)
    requires from + size <= |s|
    ensures Pasted(s, from, s[from + size..])[..from] == s[..from]
  {
  }

  lemma ShiftedFurther(was: seq<byte>, now: seq<byte>, from: nat, c: nat, edge: nat, size: nat)
    requires Shifted(was, now, from, c, edge)
    ensures Shifted(was, now, from + size, c, edge)
  {
  }

  /** What k cuts of one size take away. */
  function Cuts(k: nat, size: nat): nat {
    k * size
  }

  ghost predicate Start(b0: Buffer, fields: seq<Field>, m: nat) {
    b0.Valid() && b0.Holds(fields) && Plain(fields) && m < |fields| && Clean(b0, Size(fields[m]))
  }

  ghost predicate Moved(b0: Buffer, b: Buffer, from: nat, c: nat) {
    from <= |b.bytes| == |b0.bytes| && Shifted(b0.bytes, b.bytes, from, c, b0.edge) &&
      b.bytes[..from] == b0.bytes[..from]
  }

  ghost predicate Lowered(b0: Buffer, fields: seq<Field>, m: nat, k: nat, c: nat, b: Buffer)
    requires b.Valid() && m < |fields|
  {
    && b.count == |fields| + 1 - k && k >= 1 && b.edge == Wrap16(b0.edge - c) && |fields| < EDGES
    && (forall j | 0 <= j <= m + 1 :: b.edges[j] == EdgeOf(fields, j))
    && (m + 2 < b.count ==> b.edges[m + 2] == Wrap16(EdgeOf(fields, m + 2) - c))
  }

  /** After k cuts in the place of the first match, all of its size: c bytes have gone, and with them the
      colons of k fields at least. */
  ghost predicate Stage(b0: Buffer, fields: seq<Field>, m: nat, k: nat, c: nat, b: Buffer) {
    && Start(b0, fields, m) && k <= |fields| - m && c == Cuts(k, Size(fields[m]))
    && b.Valid() && Moved(b0, b, EdgeOf(fields, m), c) && Lowered(b0, fields, m, k, c, b)
    && ColonOf(fields, m + k - 1) < EdgeOf(fields, m) + c < b0.edge + Size(fields[m])
  }

  lemma FirstStage(b0: Buffer, fields: seq<Field>, m: nat)
    requires Start(b0, fields, m)
    ensures EdgeOf(fields, m) <= b0.edges[m + 1] == EdgeOf(fields, m + 1) <= |b0.bytes|
    ensures Stage(b0, fields, m, 1, Size(fields[m]), b0.CutOut(m + 1, EdgeOf(fields, m)))
  {
    hide PrintAll, Print, Pasted, EdgeOf, Shifted;
    FieldSeen(fields, m);
    EdgesKnown(b0.edges, fields, m);
    var P, size := EdgeOf(fields, m), Size(fields[m]);
    ShiftedByNothing(b0, P);
    MovedOn(b0, b0, m, P, 0, size);
    hide Moved;
    ColonThere(fields, m);
  }

  lemma ShiftedByNothing(b: Buffer, from: nat)
    requires from <= |b.bytes| && Clean(b, 0)
    ensures Moved(b, b, from, 0)
  {
  }

  /** Where comparing succeeds, there is a colon in the window. */
  lemma ColonSeen(bytes: seq<byte>, from: nat, edge: nat, name: seq<byte>) returns (p: nat)
    requires |bytes| <= K16 && !Probe(bytes, from, edge, name).Panic?
    ensures from + p < edge <= |bytes| && bytes[from + p] == COLON
    ensures forall x | from <= x < from + p :: bytes[x] != COLON
    ensures Probe(bytes, from, edge, name).Hit? <==> bytes[from..from + p] == name
  {
    var window := bytes[from..edge];
    var q := FirstColon(window);
    WrapsBack(from, q);
    p := q;
    assert forall x | from <= x < from + p :: bytes[x] == window[x - from];
  }

  /** The first colon in the window is the first one that is left. */
  lemma NextColon(b0: Buffer, fields: seq<Field>, m: nat, k: nat, c: nat, b: Buffer, name: seq<byte>) returns (g: nat)
    requires Stage(b0, fields, m, k, c, b) && !Probe(b.bytes, EdgeOf(fields, m), b.edges[m + 1], name).Panic?
    ensures m + k <= g < |fields|
    ensures EdgeOf(fields, m) + c <= ColonOf(fields, g) < EdgeOf(fields, m) + c + Size(fields[m])
    ensures ColonOf(fields, g) < |PrintAll(fields)|
    ensures forall h | m <= h < |fields| && ColonOf(fields, h) >= EdgeOf(fields, m) + c :: g <= h
    ensures Probe(b.bytes, EdgeOf(fields, m), b.edges[m + 1], name).Hit? <==>
      PrintAll(fields)[EdgeOf(fields, m) + c..ColonOf(fields, g)] == name
  {
    hide EdgeOf, PrintAll, Probe, Plain, Shifted, Clean, Buffer.Holds, Cuts, Lowered, Size, ColonOf;
    var P := EdgeOf(fields, m);
    StageIs(b0, fields, m, k, c, b);
    var p := ColonSeen(b.bytes, P, b.edges[m + 1], name);
    g := ColonLeft(b0, fields, b.bytes, P, c, p);
    Behind(fields, m + k - 1, g);
    NoneBetween(b0, fields, b.bytes, P, c, p, g);
  }

  lemma Behind(fields: seq<Field>, j: nat, g: nat)
    requires j < |fields| && g < |fields| && ColonOf(fields, j) < ColonOf(fields, g)
    ensures j < g
  {
    if g < j {
      ColonsInOrder(fields, g, j);
    }
  }

  lemma NoneBetween(b0: Buffer, fields: seq<Field>, now: seq<byte>, from: nat, c: nat, p: nat, g: nat)
    requires b0.Holds(fields) && Shifted(b0.bytes, now, from, c, b0.edge) && from + p < |now|
    requires g < |fields| && ColonOf(fields, g) == from + c + p
    requires forall x | from <= x < from + p :: now[x] != COLON
    ensures forall h | 0 <= h < |fields| && ColonOf(fields, h) >= from + c :: g <= h
  {
    hide PrintAll, Print, EdgeOf;
    forall h | 0 <= h < |fields| && ColonOf(fields, h) >= from + c
      ensures g <= h
    {
      if h < g {
        ColonsInOrder(fields, h, g);
        ColonKept(b0, fields, now, from, c, h);
      }
    }
  }

  lemma ColonLeft(b0: Buffer, fields: seq<Field>, now: seq<byte>, from: nat, c: nat, p: nat) returns (g: nat)
    requires b0.Holds(fields) && Plain(fields) && Shifted(b0.bytes, now, from, c, b0.edge)
    requires from + p < |now| && now[from + p] == COLON
    ensures g < |fields| && ColonOf(fields, g) == from + c + p < |PrintAll(fields)|
    ensures now[from..from + p] == PrintAll(fields)[from + c..from + c + p]
  {
    var all := PrintAll(fields);
    AllEdge(fields);
    hide EdgeOf, PrintAll, Print;
    var y := from + c + p;
    assert y < b0.edge;
    assert all == b0.bytes[..b0.edge];
    assert now[from + p] == b0.bytes[y] == all[y];
    assert fields[..|fields|] == fields;
    g := EveryColon(fields, |fields|, y);
    assert forall x | from <= x < from + p :: now[x] == b0.bytes[x + c] == all[x + c];
  }

  lemma ColonKept(b0: Buffer, fields: seq<Field>, now: seq<byte>, from: nat, c: nat, h: nat)
    requires b0.Holds(fields) && Shifted(b0.bytes, now, from, c, b0.edge) && h < |fields| &&
      from + c <= ColonOf(fields, h)
    ensures ColonOf(fields, h) - c < |now| && now[ColonOf(fields, h) - c] == COLON
  {
    ColonThere(fields, h);
    hide EdgeOf, PrintAll, Print;
    assert PrintAll(fields) == b0.bytes[..b0.edge];
    var y := ColonOf(fields, h);
    assert now[y - c] == b0.bytes[y] == PrintAll(fields)[y];
  }

  lemma AllEdge(fields: seq<Field>)
    ensures EdgeOf(fields, |fields|) == |PrintAll(fields)|
  {
    assert fields[..|fields|] == fields;
  }

  lemma OneMoreCut(k: nat, size: nat)
    ensures Cuts(k + 1, size) == Cuts(k, size) + size
  {
  }

  lemma WrapTwice(x: int, size: int)
    ensures Wrap16(Wrap16(x) - size) == Wrap16(x - size)
  {
  }

  lemma WrapSmall(x: int)
    requires -0x8000 <= x < 0x1_0000
    ensures Wrap16(x) == if x < 0 then x + 0x1_0000 else x
  {
  }

  lemma LoweredAt(e: seq<uint16>, i: nat, count: nat, size: nat, j: nat)
    requires j < |e| == |LowerEdges(e, i, count, size)|
    ensures LowerEdges(e, i, count, size)[j] == if i < j < count then Wrap16(e[j] - size) else e[j]
  {
  }

  lemma LoweredOn(b0: Buffer, fields: seq<Field>, m: nat, k: nat, c: nat, b: Buffer, size: nat)
    requires b.Valid() && m + k < |fields| && Lowered(b0, fields, m, k, c, b)
    requires EdgeOf(fields, m) + size == EdgeOf(fields, m + 1) <= |b.bytes|
    ensures Lowered(b0, fields, m, k + 1, c + size, b.CutOut(m + 1, EdgeOf(fields, m)))
  {
    hide EdgeOf, Wrap16, LowerEdges, Pasted;
    var now := b.CutOut(m + 1, EdgeOf(fields, m));
    assert |now.edges| == |b.edges|;
    forall j | 0 <= j < b.count
      ensures now.edges[j] == if m + 1 < j < b.count then Wrap16(b.edges[j] - size) else b.edges[j]
    {
      LoweredAt(b.edges, m + 1, b.count, size, j);
    }
    if m + 2 < b.count {
      WrapTwice(EdgeOf(fields, m + 2) - c, size);
    }
    WrapTwice(b0.edge - c, size);
  }

  lemma MovedOn(b0: Buffer, b: Buffer, m: nat, from: nat, c: nat, size: nat)
    requires b.Valid() && m + 1 < b.count && b.edges[m + 1] == from + size <= |b.bytes|
    requires Moved(b0, b, from, c) && b0.edge + size <= |b0.bytes|
    ensures Moved(b0, b.CutOut(m + 1, from), from, c + size)
  {
    hide Shifted, Pasted, LowerEdges;
    FrontStays(b.bytes, from, size);
    ShiftedOn(b0.bytes, b.bytes, from, c, b0.edge, size);
  }

  /** One more cut. */
  lemma Advance(b0: Buffer, fields: seq<Field>, m: nat, k: nat, c: nat, b: Buffer, name: seq<byte>)
    requires Stage(b0, fields, m, k, c, b) && m + k < |fields| &&
      Probe(b.bytes, EdgeOf(fields, m), b.edges[m + 1], name).Hit?
    ensures EdgeOf(fields, m) <= b.edges[m + 1] <= |b.bytes|
    ensures Stage(b0, fields, m, k + 1, c + Size(fields[m]), b.CutOut(m + 1, EdgeOf(fields, m)))
  {
    hide PrintAll, EdgeOf, Probe, Start, Cuts, Buffer.CutOut, Size, Wrap16, Moved, Lowered;
    var g := NextColon(b0, fields, m, k, c, b, name);
    StageIs(b0, fields, m, k, c, b);
    var size := Size(fields[m]);
    OneMoreCut(k, size);
    LoweredOn(b0, fields, m, k, c, b, size);
    MovedOn(b0, b, m, EdgeOf(fields, m), c, size);
    if m + k < g {
      ColonsInOrder(fields, m + k, g);
    }
  }

  lemma StageIs(b0: Buffer, fields: seq<Field>, m: nat, k: nat, c: nat, b: Buffer)
    requires Stage(b0, fields, m, k, c, b)
    ensures b.Valid() && m + 1 < EDGES == |b.edges|
    ensures b0.edge == |PrintAll(fields)| && b0.edge + Size(fields[m]) <= |b0.bytes| == |b.bytes|
    ensures EdgeOf(fields, m) + Size(fields[m]) == EdgeOf(fields, m + 1) == b.edges[m + 1] <= b0.edge
    ensures b.count == |fields| + 1 - k && 1 <= k <= |fields| - m
  {
    FieldSeen(fields, m);
  }

  /** The window behind the place of the cuts, if there is one, shows no colon. */
  lemma SecondPanics(b0: Buffer, fields: seq<Field>, m: nat, k: nat, c: nat, b: Buffer, name: seq<byte>)
    requires Stage(b0, fields, m, k, c, b) && m + 2 < b.count
    requires Probe(b.bytes, EdgeOf(fields, m), b.edges[m + 1], name).Miss?
    ensures Probe(b.bytes, b.edges[m + 1], b.edges[m + 2], name).Panic?
  {
    var g := NextColon(b0, fields, m, k, c, b, name);
    var P, from, edge := EdgeOf(fields, m), b.edges[m + 1], b.edges[m + 2];
    EdgeInside(fields, m + 2);
    StageIs(b0, fields, m, k, c, b);
    hide PrintAll, Print, EdgeOf, Probe, Plain, Shifted, NoColons, EdgesAre, Cuts, Wrap16, Buffer.Holds, Size, Clean;
    WrapSmall(EdgeOf(fields, m + 2) - c);
    if !Probe(b.bytes, from, edge, name).Panic? {
      var p := ColonSeen(b.bytes, from, edge, name);
      ShiftedFurther(b0.bytes, b.bytes, P, c, b0.edge, Size(fields[m]));
      var h := ColonLeft(b0, fields, b.bytes, from, c, p);
      Behind(fields, g, h);
      EdgesGrow(fields, m + 2, h);
    }
  }

  lemma EdgeInside(fields: seq<Field>, k: nat)
    requires k <= |fields|
    ensures EdgeOf(fields, k) <= |PrintAll(fields)|
  {
    AllEdge(fields);
    EdgesGrow(fields, k, |fields|);
  }

  /** From k cuts to K cuts: all fields from the first match on go, or all but one, and at every stage
      the cuts reach to somewhere before the colon of the next field. */
  ghost predicate Cutting(fields: seq<Field>, name: seq<byte>, m: nat, k: nat, c: nat, K: nat, C: nat)
    requires m < |fields|
  {
    && k <= K <= |fields| - m <= K + 1 && (k == K ==> c == C)
    && (K < |fields| - m ==> EdgeOf(fields, m) + C <= ColonOf(fields, |fields| - 1))
    && (m + k < |fields| ==>
      && EdgeOf(fields, m) + c <= ColonOf(fields, m + k) < |PrintAll(fields)|
      && ColonOf(fields, m + k) < EdgeOf(fields, m) + c + Size(fields[m])
      && (k < K <==> PrintAll(fields)[EdgeOf(fields, m) + c..ColonOf(fields, m + k)] == name))
  }

  /** However the loop ends, it took away all fields from the first match on, or all but one; at every stage
      the cuts reach exactly to the colon of the next field. */
  lemma {:induction false} Ends(b0: Buffer, fields: seq<Field>, m: nat, k: nat, c: nat, b: Buffer, name: seq<byte>)
    returns (K: nat, C: nat)
    requires Stage(b0, fields, m, k, c, b) && DeleteFrom(b, name, m + 1, EdgeOf(fields, m)).Deleted?
    ensures Stage(b0, fields, m, K, C, DeleteFrom(b, name, m + 1, EdgeOf(fields, m)).buffer)
    ensures Cutting(fields, name, m, k, c, K, C)
    decreases |fields| - k
  {
    hide EdgeOf, PrintAll, Probe, Plain, Shifted, Clean, Buffer.Holds, Buffer.CutOut, Cuts, Lowered, Moved, Size,
      ColonOf, Start, Stage;
    StageIs(b0, fields, m, k, c, b);
    if m + k == |fields| {
      return k, c;
    }
    var g := NextColon(b0, fields, m, k, c, b, name);
    if Probe(b.bytes, EdgeOf(fields, m), b.edges[m + 1], name).Hit? {
      Advance(b0, fields, m, k, c, b, name);
      K, C := Ends(b0, fields, m, k + 1, c + Size(fields[m]), b.CutOut(m + 1, EdgeOf(fields, m)), name);
      ColonsRise(fields, m + k + 1);
    } else {
      if m + 2 < b.count {
        SecondPanics(b0, fields, m, k, c, b, name);
      }
      K, C := k, c;
    }
  }

  // ----- How the loop ends -----

  /** What is reached by j cuts from the first match on, all of its size. */
  function AfterCuts(fields: seq<Field>, m: nat, j: nat): nat
    requires m < |fields|
  {
    EdgeOf(fields, m) + Cuts(j, Size(fields[m]))
  }

  /** After j cuts, what stands before the colon of field m + j is the name. */
  predicate Taken(fields: seq<Field>, name: seq<byte>, m: nat, j: nat)
    requires m + j < |fields|
  {
    && AfterCuts(fields, m, j) <= ColonOf(fields, m + j) < |PrintAll(fields)|
    && PrintAll(fields)[AfterCuts(fields, m, j)..ColonOf(fields, m + j)] == name
  }

  predicate AllTaken(fields: seq<Field>, name: seq<byte>, m: nat, j: nat, end: nat)
    requires m + end <= |fields|
  {
    forall i | j <= i < end :: Taken(fields, name, m, i)
  }

  /** After j cuts, the next cut would reach over the colon of field m + j. */
  predicate Shows(fields: seq<Field>, m: nat, j: nat)
    requires m + j < |fields|
  {
    AfterCuts(fields, m, j) <= ColonOf(fields, m + j) < AfterCuts(fields, m, j) + Size(fields[m])
  }

  /** Everything from stage k on is taken, or everything but the last field. */
  ghost predicate Decided(r: Deletion, fields: seq<Field>, name: seq<byte>, m: nat, k: nat)
    requires m + k <= |fields| && m < |fields|
  {
    var l := |fields| - m;
    && (r.Deleted? ==> m + 1 <= r.buffer.count <= m + 2)
    && (r.Deleted? && r.buffer.count == m + 1 <==> AllTaken(fields, name, m, k, l))
    && (r.Deleted? && r.buffer.count == m + 2 <==>
      k < l && AllTaken(fields, name, m, k, l - 1) && !Taken(fields, name, m, l - 1) && Shows(fields, m, l - 1))
  }

  lemma {:induction false} Outcome(b0: Buffer, fields: seq<Field>, m: nat, k: nat, c: nat, b: Buffer, name: seq<byte>)
    requires Stage(b0, fields, m, k, c, b) && fields[m].name == name
    ensures Decided(DeleteFrom(b, name, m + 1, EdgeOf(fields, m)), fields, name, m, k)
    decreases |fields| - k
  {
    hide EdgeOf, PrintAll, Probe, Plain, Shifted, Clean, Buffer.Holds, Buffer.CutOut, Cuts, Lowered, Moved, Size,
      ColonOf, Start, Stage;
    hide Taken, Shows;
    StageIs(b0, fields, m, k, c, b);
    StageReached(b0, fields, m, k, c, b);
    if m + k < |fields| {
      ProbeDecides(b0, fields, m, k, c, b, name);
      match Probe(b.bytes, EdgeOf(fields, m), b.edges[m + 1], name)
      case Panic =>
      case Hit =>
        Advance(b0, fields, m, k, c, b, name);
        var cut := b.CutOut(m + 1, EdgeOf(fields, m));
        Outcome(b0, fields, m, k + 1, c + Size(fields[m]), cut, name);
        if !Taken(fields, name, m, k) {
          NotDeleted(b0, fields, m, k, c, b, name);
        }
      case Miss =>
        if m + 2 < b.count {
          SecondPanics(b0, fields, m, k, c, b, name);
        }
    }
  }

  lemma StageReached(b0: Buffer, fields: seq<Field>, m: nat, k: nat, c: nat, b: Buffer)
    requires Stage(b0, fields, m, k, c, b)
    ensures EdgeOf(fields, m) + c == AfterCuts(fields, m, k)
  {
  }

  /** What comparing says of the next field. */
  lemma ProbeDecides(b0: Buffer, fields: seq<Field>, m: nat, k: nat, c: nat, b: Buffer, name: seq<byte>)
    requires Stage(b0, fields, m, k, c, b) && m + k < |fields| && fields[m].name == name
    ensures
      var r := Probe(b.bytes, EdgeOf(fields, m), b.edges[m + 1], name);
      && (Taken(fields, name, m, k) ==> r.Hit?)
      && (Shows(fields, m, k) ==> !r.Panic?)
      && (m + k + 1 == |fields| && !r.Panic? ==> Shows(fields, m, k))
      && (m + k + 1 == |fields| && r.Hit? ==> Taken(fields, name, m, k))
  {
    hide EdgeOf, PrintAll, Probe, Plain, Shifted, Clean, Buffer.Holds, Buffer.CutOut, Cuts, Lowered, Moved, Size,
      ColonOf, Start, Stage;
    StageIs(b0, fields, m, k, c, b);
    StageReached(b0, fields, m, k, c, b);
    var r := Probe(b.bytes, EdgeOf(fields, m), b.edges[m + 1], name);
    TakenShows(fields, name, m, k);
    if Shows(fields, m, k) {
      ColonInWindow(b0, fields, m, k, c, b, name);
    }
    if !r.Panic? {
      var g := NextColon(b0, fields, m, k, c, b, name);
    }
  }

  lemma TakenShows(fields: seq<Field>, name: seq<byte>, m: nat, k: nat)
    requires m + k < |fields| && fields[m].name == name
    ensures Taken(fields, name, m, k) ==> Shows(fields, m, k)
  {
    hide EdgeOf, PrintAll, Cuts;
    if Taken(fields, name, m, k) {
      assert |PrintAll(fields)[AfterCuts(fields, m, k)..ColonOf(fields, m + k)]| == |name|;
    }
  }

  /** A colon that is left within the window is seen. */
  lemma ColonInWindow(b0: Buffer, fields: seq<Field>, m: nat, k: nat, c: nat, b: Buffer, name: seq<byte>)
    requires Stage(b0, fields, m, k, c, b) && m + k < |fields| && Shows(fields, m, k)
    ensures !Probe(b.bytes, EdgeOf(fields, m), b.edges[m + 1], name).Panic?
  {
    hide EdgeOf, PrintAll, Plain, Shifted, Clean, Cuts, Lowered, ColonOf, NoColons, EdgesAre;
    StageIs(b0, fields, m, k, c, b);
    StageReached(b0, fields, m, k, c, b);
    ColonKept(b0, fields, b.bytes, EdgeOf(fields, m), c, m + k);
    ColonNoPanic(b.bytes, EdgeOf(fields, m), b.edges[m + 1], ColonOf(fields, m + k) - c, name);
  }

  lemma ColonNoPanic(bytes: seq<byte>, from: nat, edge: nat, at: nat, name: seq<byte>)
    requires |bytes| <= K16 && from <= at < edge <= |bytes| && bytes[at] == COLON
    ensures !Probe(bytes, from, edge, name).Panic?
  {
    var window := bytes[from..edge];
    assert window[at - from] == COLON;
    var p := FirstColon(window);
    WrapsBack(from, p);
  }

  /** A cut that does not end where the name starts cannot come to a good end. */
  lemma NotDeleted(b0: Buffer, fields: seq<Field>, m: nat, k: nat, c: nat, b: Buffer, name: seq<byte>)
    requires Stage(b0, fields, m, k, c, b) && m + k < |fields| && !Taken(fields, name, m, k)
    requires Probe(b.bytes, EdgeOf(fields, m), b.edges[m + 1], name).Hit?
    ensures !DeleteFrom(b, name, m + 1, EdgeOf(fields, m)).Deleted?
  {
    hide EdgeOf, PrintAll, Probe, Plain, Shifted, Clean, Buffer.Holds, Buffer.CutOut, Cuts, Lowered, Moved, Size,
      ColonOf, Start, Stage;
    hide DeleteFrom;
    StageIs(b0, fields, m, k, c, b);
    StageReached(b0, fields, m, k, c, b);
    var g := NextColon(b0, fields, m, k, c, b, name);
    if DeleteFrom(b, name, m + 1, EdgeOf(fields, m)).Deleted? {
      var K, C := Ends(b0, fields, m, k, c, b, name);
    }
  }

  // ----- What must be the case if the result is right -----

  lemma {:induction false} NoOthers(tail: seq<Field>, name: seq<byte>)
    requires Others(tail, name) == []
    ensures forall k | 0 <= k < |tail| :: tail[k].name == name
  {
    if tail != [] {
      NoOthers(tail[1..], name);
      assert tail == [tail[0]] + tail[1..];
    }
  }

  lemma {:induction false} OneOther(tail: seq<Field>, name: seq<byte>) returns (x: nat)
    requires |Others(tail, name)| == 1
    ensures x < |tail| && tail[x] == Others(tail, name)[0] && tail[x].name != name
    ensures forall k | 0 <= k < |tail| && k != x :: tail[k].name == name
  {
    if tail[0].name == name {
      x := OneOther(tail[1..], name);
      x := x + 1;
    } else {
      x := 0;
      NoOthers(tail[1..], name);
    }
    assert tail == [tail[0]] + tail[1..];
  }

  /** What is sent in the end, behind the first match, is a tail of what was sent before. */
  lemma TailSent(b0: Buffer, fields: seq<Field>, m: nat, K: nat, C: nat, out: Buffer, rest: seq<Field>)
    requires Stage(b0, fields, m, K, C, out) && out.Sends(fields[..m] + rest)
    ensures EdgeOf(fields, m) + C + |PrintAll(rest)| == |PrintAll(fields)|
    ensures PrintAll(rest) == PrintAll(fields)[EdgeOf(fields, m) + C..]
  {
    hide PrintAll, Wrap16, Size, Cuts, Shifted, Buffer.Holds, Plain, Clean, ColonOf;
    PrintAllAppend(fields[..m], rest);
    StageIs(b0, fields, m, K, C, out);
    WrapSmall(b0.edge - C);
    ShiftedSlice(b0.bytes, out.bytes, EdgeOf(fields, m), C, b0.edge, out.edge);
    SliceTail(out.bytes, out.edge, PrintAll(fields[..m]), PrintAll(rest));
    StartSends(b0, fields, m);
  }

  lemma StartSends(b0: Buffer, fields: seq<Field>, m: nat)
    requires Start(b0, fields, m)
    ensures b0.bytes[..b0.edge] == PrintAll(fields)
  {
  }

  lemma ShiftedSlice(was: seq<byte>, now: seq<byte>, from: nat, c: nat, edge: nat, end: nat)
    requires Shifted(was, now, from, c, edge) && from <= end && end + c == edge
    ensures now[from..end] == was[..edge][from + c..]
  {
  }

  lemma SliceTail(s: seq<byte>, edge: nat, a: seq<byte>, b: seq<byte>)
    requires edge <= |s| && s[..edge] == a + b
    ensures s[|a|..edge] == b
  {
    assert s[|a|..edge] == s[..edge][|a|..];
  }

  /** What stands before the colon of a field, and starts before its name, reaches over a line feed. */
  lemma WithinName(fields: seq<Field>, j: nat, at: nat)
    requires 1 <= j < |fields| && at <= ColonOf(fields, j) < |PrintAll(fields)|
    ensures at < EdgeOf(fields, j) ==> LF in PrintAll(fields)[at..ColonOf(fields, j)]
  {
    FieldSeen(fields, j - 1);
    var edge := EdgeOf(fields, j);
    assert Print(fields[j - 1])[Size(fields[j - 1]) - 1] == LF;
    assert PrintAll(fields)[edge - 1] == LF;
    if at < edge {
      assert PrintAll(fields)[at..ColonOf(fields, j)][edge - 1 - at] == LF;
    }
  }

  /** The tail that is left shows no colon but the last one. */
  lemma OneColonLeft(b0: Buffer, fields: seq<Field>, m: nat, K: nat, C: nat, out: Buffer, rest: seq<Field>)
    requires Stage(b0, fields, m, K, C, out) && |fields| - m - 1 <= K && rest != []
    requires EdgeOf(fields, m) + C <= |PrintAll(fields)| && PrintAll(rest) == PrintAll(fields)[EdgeOf(fields, m) + C..]
    ensures |rest| == 1 && m + K == |fields| - 1
    ensures EdgeOf(fields, m) + C + |rest[0].name| == ColonOf(fields, |fields| - 1)
  {
    hide PrintAll, EdgeOf, Wrap16, Size, Cuts, Shifted, Clean, Moved, Lowered;
    ColonLast(b0, fields, m, K, C, out, rest, 0);
    NoEdge(rest);
    if |rest| > 1 {
      ColonLast(b0, fields, m, K, C, out, rest, 1);
      ColonsInOrder(rest, 0, 1);
    }
  }

  lemma ColonLast(b0: Buffer, fields: seq<Field>, m: nat, K: nat, C: nat, out: Buffer, rest: seq<Field>, j: nat)
    requires Stage(b0, fields, m, K, C, out) && |fields| - m - 1 <= K && j < |rest|
    requires EdgeOf(fields, m) + C <= |PrintAll(fields)| && PrintAll(rest) == PrintAll(fields)[EdgeOf(fields, m) + C..]
    ensures m + K == |fields| - 1 && EdgeOf(fields, m) + C + ColonOf(rest, j) == ColonOf(fields, |fields| - 1)
  {
    hide PrintAll, EdgeOf, Wrap16, Size, Cuts, Shifted, Clean, Moved, Lowered, ColonOf;
    StageIs(b0, fields, m, K, C, out);
    ColonThere(rest, j);
    var y := EdgeOf(fields, m) + C + ColonOf(rest, j);
    assert PrintAll(fields)[y] == PrintAll(rest)[ColonOf(rest, j)];
    assert fields[..|fields|] == fields;
    AllEdge(fields);
    var g := EveryColon(fields, |fields|, y);
    Behind(fields, m + K - 1, g);
  }

  /** Once a cut did not end where a field ends, the result is not right any more. */
  lemma Misaligned(b0: Buffer, fields: seq<Field>, m: nat, k: nat, c: nat, b: Buffer, name: seq<byte>)
    requires Stage(b0, fields, m, k, c, b) && EdgeOf(fields, m) + c != EdgeOf(fields, m + k)
    requires m == FirstMatch(fields, name) && forall j | m <= j < m + k :: fields[j].name == name
    requires DeleteFrom(b, name, m + 1, EdgeOf(fields, m)).Deleted?
    ensures !DeleteFrom(b, name, m + 1, EdgeOf(fields, m)).buffer.Sends(Others(fields, name))
  {
    hide PrintAll, EdgeOf, Wrap16, Size, Cuts, Shifted, Clean, Moved, Lowered, Probe, Buffer.Holds, FirstMatch, ColonOf;
    StageIs(b0, fields, m, k, c, b);
    PlainName(b0, fields, m);
    hide Start, Stage, DeleteFrom;
    var out := DeleteFrom(b, name, m + 1, EdgeOf(fields, m)).buffer;
    if out.Sends(Others(fields, name)) {
      var K, C := Ends(b0, fields, m, k, c, b, name);
      OthersFrom(fields, name);
      var rest := Others(fields[m..], name);
      TailSent(b0, fields, m, K, C, out, rest);
      if rest == [] {
        PrintNone();
        MisalignedAll(fields, name, m, k, c, K, C);
      } else {
        OneColonLeft(b0, fields, m, K, C, out, rest);
        MisalignedOne(fields, name, m, k, c, K, C);
      }
    }
  }

  lemma PrintNone()
    ensures PrintAll([]) == []
  {
  }

  lemma PlainName(b0: Buffer, fields: seq<Field>, m: nat)
    requires Start(b0, fields, m)
    ensures Plain(fields) && LF !in fields[m].name
  {
  }

  /** A match that was recognised was aligned. */
  lemma Recognised(fields: seq<Field>, name: seq<byte>, m: nat, k: nat, c: nat, K: nat, C: nat)
    requires m < |fields| && Cutting(fields, name, m, k, c, K, C) && k < K && fields[m + k].name == name
    ensures EdgeOf(fields, m) + c == EdgeOf(fields, m + k)
  {
    hide EdgeOf, PrintAll;
    assert |PrintAll(fields)[EdgeOf(fields, m) + c..ColonOf(fields, m + k)]| == |name|;
  }

  lemma MisalignedAll(fields: seq<Field>, name: seq<byte>, m: nat, k: nat, c: nat, K: nat, C: nat)
    requires m < |fields| && Cutting(fields, name, m, k, c, K, C) && Others(fields[m..], name) == []
    requires EdgeOf(fields, m) + C == |PrintAll(fields)|
    ensures EdgeOf(fields, m) + c == EdgeOf(fields, m + k)
  {
    hide EdgeOf, PrintAll, Size;
    AllEdge(fields);
    NoOthers(fields[m..], name);
    ColonThere(fields, |fields| - 1);
    if m + k < |fields| {
      assert fields[m + k] == fields[m..][k];
      Recognised(fields, name, m, k, c, K, C);
    }
  }

  lemma MisalignedOne(fields: seq<Field>, name: seq<byte>, m: nat, k: nat, c: nat, K: nat, C: nat)
    requires m < |fields| && Cutting(fields, name, m, k, c, K, C) && Plain(fields) && LF !in name && k >= 1
    requires forall j | m <= j < m + k :: fields[j].name == name
    requires var rest := Others(fields[m..], name);
      && |rest| == 1 && m + K == |fields| - 1 && EdgeOf(fields, m) + C + |rest[0].name| == ColonOf(fields, |fields| - 1)
      && EdgeOf(fields, m) + C <= |PrintAll(fields)| && PrintAll(rest) == PrintAll(fields)[EdgeOf(fields, m) + C..]
    ensures EdgeOf(fields, m) + c == EdgeOf(fields, m + k)
  {
    hide EdgeOf, PrintAll, Size, ColonOf, Plain;
    var rest, n := Others(fields[m..], name), |fields|;
    var x := OneOther(fields[m..], name);
    assert fields[m..][x] == fields[m + x];
    assert forall j | m <= j < n && j != m + x :: fields[j] == fields[m..][j - m] && fields[j].name == name;
    assert x >= k && rest == [fields[m + x]];
    if k != x && k < K {
      Recognised(fields, name, m, k, c, K, C);
    } else if k < K {
      LooksAlike(fields, name, m + k, EdgeOf(fields, m) + c, EdgeOf(fields, m) + C, rest);
    } else {
      LastAligned(fields, m + k, EdgeOf(fields, m) + c, rest);
    }
  }

  lemma LastAligned(fields: seq<Field>, j: nat, at: nat, rest: seq<Field>)
    requires j < |fields| && rest == [fields[j]] && at + |rest[0].name| == ColonOf(fields, j)
    ensures at == EdgeOf(fields, j)
  {
  }

  /** If cuts left the last match looking like another field, which was taken for a match, both names
      would be as long. */
  lemma LooksAlike(fields: seq<Field>, name: seq<byte>, j: nat, at: nat, end: nat, rest: seq<Field>)
    requires j + 1 < |fields| && Plain(fields) && LF !in name && 1 <= j
    requires at <= ColonOf(fields, j) < |PrintAll(fields)| && PrintAll(fields)[at..ColonOf(fields, j)] == name
    requires rest == [fields[j]] && fields[|fields| - 1].name == name &&
      end + |rest[0].name| == ColonOf(fields, |fields| - 1)
    requires end <= |PrintAll(fields)| && PrintAll(rest) == PrintAll(fields)[end..]
    ensures at == EdgeOf(fields, j)
  {
    var last, other := |fields| - 1, fields[j].name;
    hide EdgeOf, PrintAll, Size, Plain;
    PlainNames(fields, j);
    NameFirst(PrintAll(fields), end, fields[j]);
    WithinName(fields, last, end);
    WithinName(fields, j, at);
    assert |PrintAll(fields)[at..ColonOf(fields, j)]| == |name|;
  }

  lemma PlainNames(fields: seq<Field>, j: nat)
    requires Plain(fields) && j < |fields|
    ensures LF !in fields[j].name
  {
  }

  lemma NameFirst(all: seq<byte>, at: nat, f: Field)
    requires at <= |all| && all[at..] == PrintAll([f])
    ensures at + |f.name| <= |all| && all[at..at + |f.name|] == f.name
  {
    PrintOne(f);
    assert Print(f)[..|f.name|] == f.name;
    assert all[at..][..|f.name|] == all[at..at + |f.name|];
  }

  /** As long as every cut ended where a field ends, the fields that are left must be such a run, too. */
  lemma {:induction false} RunNeeded(b0: Buffer, fields: seq<Field>, m: nat, k: nat, c: nat, b: Buffer, name: seq<byte>)
    requires Stage(b0, fields, m, k, c, b) && EdgeOf(fields, m) + c == EdgeOf(fields, m + k)
    requires m == FirstMatch(fields, name) && forall j | m <= j < m + k :: fields[j].name == name
    requires DeleteFrom(b, name, m + 1, EdgeOf(fields, m)).Deleted?
    requires DeleteFrom(b, name, m + 1, EdgeOf(fields, m)).buffer.Sends(Others(fields, name))
    ensures EndsWell(fields[m + k..], name, Size(fields[m]))
    decreases |fields| - k
  {
    hide PrintAll, EdgeOf, Wrap16, Size, Cuts, Shifted, Clean, Moved, Lowered, Probe, Buffer.Holds, FirstMatch, ColonOf;
    hide Start, Stage, Others, Buffer.CutOut, Buffer.Sends;
    StageIs(b0, fields, m, k, c, b);
    if m + k < |fields| {
      var K, C := Ends(b0, fields, m, k, c, b, name);
      NameBeforeColon(fields, m + k);
      if k < K {
        var g := NextColon(b0, fields, m, k, c, b, name);
        Advance(b0, fields, m, k, c, b, name);
        NextEdge(fields, m + k);
        assert fields[m + k..][1..] == fields[m + k + 1..];
        if Size(fields[m + k]) == Size(fields[m]) {
          RunNeeded(b0, fields, m, k + 1, c + Size(fields[m]), b.CutOut(m + 1, EdgeOf(fields, m)), name);
        } else {
          Misaligned(b0, fields, m, k + 1, c + Size(fields[m]), b.CutOut(m + 1, EdgeOf(fields, m)), name);
        }
      }
    }
  }

  lemma NameBeforeColon(fields: seq<Field>, j: nat)
    requires j < |fields|
    ensures EdgeOf(fields, j) <= ColonOf(fields, j) < |PrintAll(fields)|
    ensures PrintAll(fields)[EdgeOf(fields, j)..ColonOf(fields, j)] == fields[j].name
    ensures ColonOf(fields, j) == EdgeOf(fields, j) + |fields[j].name|
  {
    hide PrintAll;
    FieldSeen(fields, j);
    assert Print(fields[j])[..|fields[j].name|] == fields[j].name;
  }

  // ----- The result -----

  /** Deleting by name leaves what it should if and only if there is no such field, or the fields from the
      first one on are such fields of one size, and at most one other behind them, whose name is shorter
      than that. The index is right as well exactly if that one is of the same size, too. */
  lemma DeletesOthers(b: Buffer, fields: seq<Field>, name: seq<byte>)
    requires b.Valid() && b.Holds(fields) && Plain(fields)
    requires FirstMatch(fields, name) < |fields| ==> Clean(b, Size(fields[FirstMatch(fields, name)]))
    ensures
      var m, r := FirstMatch(fields, name), DeleteFrom(b, name, 1, 0);
      && (r.Deleted? && r.buffer.Sends(Others(fields, name)) <==>
           m == |fields| || EndsWell(fields[m..], name, Size(fields[m])))
      && (r.Deleted? && r.buffer.Holds(Others(fields, name)) <==>
           m == |fields| || (EndsWell(fields[m..], name, Size(fields[m])) && SameSize(fields[m..], Size(fields[m]))))
  {
    hide PrintAll, EdgeOf, Probe, Plain, Clean, EndsWell, SameSize, Others, Buffer.Sends, Buffer.CutOut, FirstMatch,
      DeleteFrom;
    var m, r := FirstMatch(fields, name), DeleteFrom(b, name, 1, 0);
    Reached(b, fields, name);
    if m < |fields| {
      var size := Size(fields[m]);
      if EndsWell(fields[m..], name, size) {
        NothingGone(b, fields, m);
        RunDeleted(b, fields, m, size, name);
      } else {
        NotElse(b, fields, name);
      }
      HoldsSends(r, Others(fields, name));
    } else {
      HoldsSends(r, fields);
    }
  }

  lemma HoldsSends(r: Deletion, fields: seq<Field>)
    ensures r.Deleted? && r.buffer.Holds(fields) ==> r.buffer.Sends(fields)
  {
  }

  lemma NotElse(b: Buffer, fields: seq<Field>, name: seq<byte>)
    requires b.Valid() && b.Holds(fields) && Plain(fields)
    requires
      var m := FirstMatch(fields, name);
      m < |fields| && Clean(b, Size(fields[m])) && !EndsWell(fields[m..], name, Size(fields[m]))
    ensures var r := DeleteFrom(b, name, 1, 0); !(r.Deleted? && r.buffer.Sends(Others(fields, name)))
  {
    hide PrintAll, EdgeOf, Probe, Plain, Clean, Others, Buffer.Sends, Buffer.CutOut, DeleteFrom, Size;
    var m, r := FirstMatch(fields, name), DeleteFrom(b, name, 1, 0);
    Reached(b, fields, name);
    FirstStage(b, fields, m);
    NextEdge(fields, m);
    assert fields[m..][1..] == fields[m + 1..];
    if r.Deleted? && r.buffer.Sends(Others(fields, name)) {
      RunNeeded(b, fields, m, 1, Size(fields[m]), b.CutOut(m + 1, EdgeOf(fields, m)), name);
    }
  }

  /** The loop up to the first match, which it recognises, or up to the end. */
  lemma Reached(b: Buffer, fields: seq<Field>, name: seq<byte>)
    requires b.Valid() && b.Holds(fields)
    ensures
      var m, r := FirstMatch(fields, name), DeleteFrom(b, name, 1, 0);
      if m == |fields| then r == Deleted(b) && Others(fields, name) == fields
      else
        && EdgeOf(fields, m) <= b.edges[m + 1] <= |b.bytes| && r == DeleteFrom(b, name, m + 1, EdgeOf(fields, m))
        && r == DeleteFrom(b.CutOut(m + 1, EdgeOf(fields, m)), name, m + 1, EdgeOf(fields, m))
  {
    hide PrintAll, EdgeOf, Probe, NoColons, EdgesAre, FirstMatch, Others, Print, LowerEdges, Pasted;
    var m := FirstMatch(fields, name);
    NoEdge(fields);
    ReachesMatch(b, fields, name, 0);
    if m == |fields| {
      OthersFrom(fields, name);
      assert fields[..m] + [] == fields;
    } else {
      ProbedInPlace(b, fields, m, name);
      FieldSeen(fields, m);
    }
  }

  /** What the loop ends with, from the first match on. */
  lemma EndKnown(b: Buffer, fields: seq<Field>, name: seq<byte>) returns (C: nat)
    requires b.Valid() && b.Holds(fields) && Plain(fields) && FirstMatch(fields, name) < |fields|
    requires Clean(b, Size(fields[FirstMatch(fields, name)]))
    ensures
      var m, r := FirstMatch(fields, name), DeleteFrom(b, name, 1, 0);
      && Decided(r, fields, name, m, 1)
      && (r.Deleted? ==>
           C == Cuts(|fields| + 1 - r.buffer.count, Size(fields[m])) && r.buffer.edge == Wrap16(b.edge - C))
      && (r.Deleted? ==> |r.buffer.bytes| == |b.bytes| && C <= b.edge + |b.bytes|)
      && (r.Deleted? && r.buffer.count == m + 2 ==> C <= b.edge)
  {
    hide PrintAll, EdgeOf, Probe, Plain, Others, Buffer.CutOut, DeleteFrom, Size, Cuts, Decided, Clean, Stage, Wrap16,
      NoColons, EdgesAre;
    var m, r := FirstMatch(fields, name), DeleteFrom(b, name, 1, 0);
    Reached(b, fields, name);
    FirstStage(b, fields, m);
    var cut := b.CutOut(m + 1, EdgeOf(fields, m));
    NextEdge(fields, m);
    Outcome(b, fields, m, 1, Size(fields[m]), cut, name);
    C := 0;
    if r.Deleted? {
      var K;
      K, C := Ends(b, fields, m, 1, Size(fields[m]), cut, name);
      StageIs(b, fields, m, K, C, r.buffer);
      StageEdge(b, fields, m, K, C, r.buffer);
      ColonThere(fields, |fields| - 1);
    }
  }

  lemma StageEdge(b0: Buffer, fields: seq<Field>, m: nat, k: nat, c: nat, b: Buffer)
    requires Stage(b0, fields, m, k, c, b)
    ensures b.edge == Wrap16(b0.edge - c) && c == Cuts(k, Size(fields[m])) &&
      EdgeOf(fields, m) + c < b0.edge + Size(fields[m])
  {
  }

  /** When slicing fails, for any number of matches: unless every cut, all of the size of the first match, ends
      before the colon of the next field and at the name there, up to the last field, or up to the one before,
      and the colon of the last one is in reach. */
  lemma SlicingFails(b: Buffer, fields: seq<Field>, name: seq<byte>)
    requires b.Valid() && b.Holds(fields) && Plain(fields) && FirstMatch(fields, name) < |fields|
    requires Clean(b, Size(fields[FirstMatch(fields, name)]))
    ensures
      var m, l := FirstMatch(fields, name), |fields| - FirstMatch(fields, name);
      DeleteFrom(b, name, 1, 0).Panicked? <==>
        && !AllTaken(fields, name, m, 1, l)
        && !(l >= 2 && AllTaken(fields, name, m, 1, l - 1) && Shows(fields, m, l - 1))
  {
    hide PrintAll, EdgeOf, Plain, Clean, Buffer.Holds, DeleteFrom, Size, Cuts, Taken, Shows, FirstMatch;
    var C := EndKnown(b, fields, name);
  }

  /** When the reserve is lost: exactly if every cut is taken, down to the last field, and that is more than
      there is. Then the edge is behind the buffer. */
  lemma ReserveKept(b: Buffer, fields: seq<Field>, name: seq<byte>)
    requires b.Valid() && b.Holds(fields) && Plain(fields) && FirstMatch(fields, name) < |fields|
    requires Clean(b, Size(fields[FirstMatch(fields, name)]))
    ensures
      var m, r := FirstMatch(fields, name), DeleteFrom(b, name, 1, 0);
      var l := |fields| - m;
      && (r.Deleted? && r.buffer.edge + RESERVE > |b.bytes| <==>
           AllTaken(fields, name, m, 1, l) && Cuts(l, Size(fields[m])) > b.edge)
      && (r.Deleted? && r.buffer.edge + RESERVE > |b.bytes| ==> r.buffer.edge > |r.buffer.bytes| == |b.bytes|)
  {
    hide PrintAll, EdgeOf, Plain, DeleteFrom, Size, Cuts, Taken, FirstMatch, Shows, Wrap16, ColonOf, AllTaken;
    var C := EndKnown(b, fields, name);
    if DeleteFrom(b, name, 1, 0).Deleted? {
      WrapSmall(b.edge - C);
    }
  }

  lemma {:induction false} NothingToDelete(fields: seq<Field>, name: seq<byte>)
    requires forall j | 0 <= j < |fields| :: fields[j].name != name
    ensures Others(fields, name) == fields
  {
    OthersJoin(fields, [], name);
    assert fields + [] == fields;
  }

  /** Exactly one field has the name. */
  ghost predicate Single(fields: seq<Field>, name: seq<byte>) {
    var m := FirstMatch(fields, name);
    m < |fields| && forall j | m < j < |fields| :: fields[j].name != name
  }

  lemma OthersOfSingle(fields: seq<Field>, name: seq<byte>)
    requires Single(fields, name)
    ensures Others(fields, name) == Without(fields, FirstMatch(fields, name))
  {
    var m := FirstMatch(fields, name);
    OthersFrom(fields, name);
    NothingToDelete(fields[m + 1..], name);
    assert fields[m..][1..] == fields[m + 1..];
  }

  /** With one match, either what will be sent is right, or slicing fails; it fails unless at most one
      field comes behind, whose name is shorter than the match. */
  lemma OneMatch(b: Buffer, fields: seq<Field>, name: seq<byte>)
    requires b.Valid() && b.Holds(fields) && Plain(fields) && Single(fields, name)
    requires Clean(b, Size(fields[FirstMatch(fields, name)]))
    ensures
      var m, r := FirstMatch(fields, name), DeleteFrom(b, name, 1, 0);
      && (r.Deleted? ==> r.buffer.Sends(Without(fields, m)))
      && (r.Deleted? <==> |fields| <= m + 1 || (|fields| == m + 2 && |fields[m + 1].name| < Size(fields[m])))
  {
    hide PrintAll, EdgeOf, Probe, Plain, Clean, Others, Buffer.CutOut, Buffer.Sends, Buffer.Holds, DeleteFrom, Size,
      FirstMatch;
    var m, r := FirstMatch(fields, name), DeleteFrom(b, name, 1, 0);
    Reached(b, fields, name);
    FirstStage(b, fields, m);
    NextEdge(fields, m);
    OthersOfSingle(fields, name);
    DeletesOthers(b, fields, name);
    assert fields[m..][0] == fields[m] && fields[m..][1..] == fields[m + 1..];
    if r.Deleted? && m + 1 < |fields| {
      var K, C := Ends(b, fields, m, 1, Size(fields[m]), b.CutOut(m + 1, EdgeOf(fields, m)), name);
      NameBeforeColon(fields, m + 1);
      assert fields[m + 1..][0] == fields[m + 1];
    }
  }

  // ----- Whatever the values are -----

  lemma EmptyPanics(bytes: seq<byte>, at: nat, name: seq<byte>)
    requires |bytes| <= K16
    ensures Probe(bytes, at, at, name).Panic?
  {
    if at <= |bytes| {
      WrapsBack(at, -1);
    }
  }

  /** The loop never touches the edges it has passed. */
  lemma {:induction false} PassedEdges(b: Buffer, name: seq<byte>, i: nat, from: nat)
    requires b.Valid() && 1 <= i
    ensures
      var r := DeleteFrom(b, name, i, from);
      r.Deleted? ==> forall j | 0 <= j <= i && j < EDGES :: r.buffer.edges[j] == b.edges[j]
    decreases b.count - i
  {
    hide Pasted;
    if i < b.count {
      match Probe(b.bytes, from, b.edges[i], name)
      case Hit => PassedEdges(b.CutOut(i, from), name, i, from);
      case Miss => PassedEdges(b, name, i + 1, b.edges[i]);
      case Panic =>
    }
  }

  /** A window that starts with a field never shows another name. */
  lemma NotTaken(b: Buffer, rest: seq<Field>, m: nat, size: nat, name: seq<byte>)
    requires Gone(b, rest, m, size) && m < |rest| && rest[m].name != name
    ensures !Probe(b.bytes, EdgeOf(rest, m), b.edges[m + 1], name).Hit?
  {
    hide PrintAll, Print, Probe;
    FieldSeen(rest, m);
    var from := EdgeOf(rest, m);
    assert b.bytes[..b.edge][from..from + Size(rest[m])] == b.bytes[from..from + Size(rest[m])];
    OtherName(b.bytes, from, b.edges[m + 1], rest[m], name);
  }

  lemma OtherName(bytes: seq<byte>, from: nat, edge: nat, f: Field, name: seq<byte>)
    requires |bytes| <= K16 && NoColon(f.name) && f.name != name && from + Size(f) <= |bytes|
    requires bytes[from..from + Size(f)] == Print(f)
    ensures !Probe(bytes, from, edge, name).Hit?
  {
    hide Probe;
    if !Probe(bytes, from, edge, name).Panic? {
      var p := ColonSeen(bytes, from, edge, name);
      var window, printed := bytes[from..edge], Print(f);
      assert printed == bytes[from..from + Size(f)];
      hide Print;
      assert forall j | 0 <= j < |window| :: window[j] == bytes[from + j];
      assert forall j | 0 <= j < |printed| :: printed[j] == bytes[from + j];
      NameStarts(window, f, p, printed);
      assert window[..p] == bytes[from..from + p];
    }
  }

  /** With one match, and any values: everything is right afterwards if and only if it was the last field,
      or the one before it and of the same size. */
  lemma OneMatchIndex(b: Buffer, fields: seq<Field>, name: seq<byte>)
    requires b.Valid() && b.Holds(fields) && Single(fields, name)
    ensures
      var m, r := FirstMatch(fields, name), DeleteFrom(b, name, 1, 0);
      r.Deleted? && r.buffer.Holds(Without(fields, m)) <==> CutsRight(fields, m)
  {
    hide PrintAll, EdgeOf, Print, Probe, Others, Buffer.Sends, Size, FirstMatch, Pasted, LowerEdges;
    var m := FirstMatch(fields, name);
    Reached(b, fields, name);
    NothingGone(b, fields, m);
    if CutsRight(fields, m) {
      OthersOfSingle(fields, name);
      LastOrSame(fields, m, name);
      RunDeleted(b, fields, m, Size(fields[m]), name);
    } else {
      CutInPlace(b, fields, m, Size(fields[m]));
      EdgeKept(fields, m);
      IndexWrong(b, b.CutOut(m + 1, EdgeOf(fields, m)), fields, m, name);
    }
  }

  lemma LastOrSame(fields: seq<Field>, m: nat, name: seq<byte>)
    requires m < |fields| && CutsRight(fields, m) && fields[m].name == name
    requires forall j | m < j < |fields| :: fields[j].name != name
    ensures |name| < Size(fields[m]) && EndsWell(fields[m..], name, Size(fields[m])) &&
      SameSize(fields[m..], Size(fields[m]))
  {
    var tail := fields[m..];
    assert tail[0] == fields[m] && tail[1..] == fields[m + 1..];
  }

  lemma IndexWrong(b: Buffer, cut: Buffer, fields: seq<Field>, m: nat, name: seq<byte>)
    requires b.Valid() && b.Holds(fields) && m + 1 < |fields| && !CutsRight(fields, m) && fields[m + 1].name != name
    requires EdgeOf(fields, m) <= b.edges[m + 1] <= |b.bytes| && cut == b.CutOut(m + 1, EdgeOf(fields, m))
    requires Gone(cut, Without(fields, m), m, Size(fields[m]))
    ensures var r := DeleteFrom(cut, name, m + 1, EdgeOf(fields, m));
      !(r.Deleted? && r.buffer.Holds(Without(fields, m)))
  {
    hide PrintAll, Print, Probe, Buffer.Sends, NoColons, Pasted;
    var rest, r := Without(fields, m), DeleteFrom(cut, name, m + 1, EdgeOf(fields, m));
    EdgeKept(fields, m);
    assert rest[m] == fields[m + 1];
    NotTaken(cut, rest, m, Size(fields[m]), name);
    PassedEdges(cut, name, m + 1, EdgeOf(fields, m));
    NextEdge(rest, m);
    if Size(rest[m]) == Size(fields[m]) {
      NextEdge(fields, m);
      NextEdge(fields, m + 1);
      hide EdgeOf;
      EdgesKnown(b.edges, fields, m + 1);
      EmptyPanics(cut.bytes, EdgeOf(fields, m + 1), name);
    }
  }

  // ----- Two matches of different sizes -----

  /** The second of two matches at the end, of another size, is not deleted properly: too little or too
      much is cut out, and the edge wraps to behind the buffer if there is nothing in front. */
  lemma TwoSizes(b: Buffer, fields: seq<Field>, m: nat, name: seq<byte>)
    requires b.Valid() && b.Holds(fields) && m == FirstMatch(fields, name) && |fields| == m + 2
    requires fields[m + 1].name == name && Size(fields[m]) != Size(fields[m + 1])
    ensures
      var r, first, second := DeleteFrom(b, name, 1, 0), Size(fields[m]), Size(fields[m + 1]);
      && r.Deleted? && r.buffer.count == m + 1
      && r.buffer.edge == Wrap16(EdgeOf(fields, m) + second - first)
      && |r.buffer.bytes| == |b.bytes|
      && (second > first ==> r.buffer.edge <= |b.bytes|)
      && (second > first ==> r.buffer.bytes[..r.buffer.edge] == PrintAll(fields[..m]) + Print(fields[m + 1])[first..])
      && (second < first && m == 0 ==> r.buffer.edge > |b.bytes|)
  {
    hide PrintAll, EdgeOf, Print, Probe, Buffer.CutOut, FirstMatch, DeleteFrom, Gone;
    var first := Size(fields[m]);
    Reached(b, fields, name);
    NothingGone(b, fields, m);
    CutInPlace(b, fields, m, first);
    var rest := Without(fields, m);
    EdgeKept(fields, m);
    assert rest[m] == fields[m + 1] && rest[..m] == fields[..m];
    NoEdge(fields);
    SameLength(b, m + 1, EdgeOf(fields, m));
    SecondDeleted(b.CutOut(m + 1, EdgeOf(fields, m)), rest, m, first, name);
  }

  lemma SameLength(b: Buffer, i: nat, from: nat)
    requires b.Valid() && 1 <= i < b.count && from <= b.edges[i] <= |b.bytes|
    ensures |b.CutOut(i, from).bytes| == |b.bytes|
  {
  }

  lemma SecondDeleted(b: Buffer, rest: seq<Field>, m: nat, first: nat, name: seq<byte>)
    requires Gone(b, rest, m, first) && |rest| == m + 1 && rest[m].name == name && |name| < first &&
      Size(rest[m]) != first
    ensures
      var r := DeleteFrom(b, name, m + 1, EdgeOf(rest, m));
      && r.Deleted? && r.buffer.count == m + 1 && |r.buffer.bytes| == |b.bytes|
      && r.buffer.edge == Wrap16(EdgeOf(rest, m) + Size(rest[m]) - first)
      && (Size(rest[m]) > first ==> r.buffer.edge <= |b.bytes|)
      && (Size(rest[m]) > first ==> r.buffer.bytes[..r.buffer.edge] == PrintAll(rest[..m]) + Print(rest[m])[first..])
      && (Size(rest[m]) < first && EdgeOf(rest, m) == 0 ==> r.buffer.edge > |b.bytes|)
  {
    hide PrintAll, EdgeOf, Print, Probe, Pasted, LowerEdges, NoColons, EdgesAre, Size;
    NextProbed(b, rest, m, first, name);
    SecondCut(b, rest, m, first);
    var now := b.CutOut(m + 1, EdgeOf(rest, m));
    assert DeleteFrom(now, name, m + 1, EdgeOf(rest, m)) == Deleted(now);
  }

  lemma SecondCut(b: Buffer, rest: seq<Field>, m: nat, size: nat)
    requires Gone(b, rest, m, size) && |rest| == m + 1
    ensures
      var now := b.CutOut(m + 1, EdgeOf(rest, m));
      && b.edge == EdgeOf(rest, m) + Size(rest[m])
      && (Size(rest[m]) > size ==>
           b.edge - size <= |b.bytes| && now.bytes[..b.edge - size] == PrintAll(rest[..m]) + Print(rest[m])[size..])
  {
    NextEdge(rest, m);
    assert rest[..m + 1] == rest;
    var P, a, z := EdgeOf(rest, m), PrintAll(rest[..m]), Print(rest[m]);
    hide PrintAll, EdgeOf, Print, LowerEdges;
    assert b.bytes[..b.edge] == a + z;
    if Size(rest[m]) > size {
      SlidOver(b.bytes, a + z, P, P + size);
    }
  }

  // ----- Cases -----

  lemma SmallTexts()
    ensures Text("a") == [97] && Text("b") == [98] && Text("c") == [99]
    ensures Text("1") == [49] && Text("22") == [50, 50] && Text("3") == [51]
    ensures Text("123a:zz") == [49, 50, 51, 97, 58, 122, 122]
  {
  }

  /** Deleting a from (a: 22, a: 1) leaves an edge behind the buffer: nothing can be added or sent any more. */
  lemma ReserveLost(b: Buffer)
    requires b.Valid() && b.Holds([Field(Text("a"), Text("22")), Field(Text("a"), Text("1"))])
    ensures var r := DeleteFrom(b, Text("a"), 1, 0); r.Deleted? && r.buffer.edge == 0xffff > |r.buffer.bytes|
  {
    SmallTexts();
    var fields := [Field(Text("a"), Text("22")), Field(Text("a"), Text("1"))];
    NoEdge(fields);
    TwoSizes(b, fields, 0, Text("a"));
  }

  /** Deleting a from (a: 1, a: 22) leaves a line feed in the head. */
  lemma LineFeedLeft(b: Buffer)
    requires b.Valid() && b.Holds([Field(Text("a"), Text("1")), Field(Text("a"), Text("22"))])
    ensures var r := DeleteFrom(b, Text("a"), 1, 0);
      r.Deleted? && r.buffer.edge == 1 <= |r.buffer.bytes| && r.buffer.bytes[..1] == [LF]
  {
    SmallTexts();
    var fields := [Field(Text("a"), Text("1")), Field(Text("a"), Text("22"))];
    NoEdge(fields);
    assert fields[..0] == [] && PrintAll([]) == [];
    assert Print(fields[1]) == [97, COLON, SP, 50, 50, CR, LF];
    hide PrintAll, DeleteFrom;
    TwoSizes(b, fields, 0, Text("a"));
  }

  function TrickyFields(): (fields: seq<Field>)
    ensures |fields| == 3 && fields[0].name == Text("a")
  {
    [Field(Text("a"), Text("1")), Field(Text("b"), Text("123a:zz")), Field(Text("c"), Text("3"))]
  }

  /** Deleting a from (a: 1, b: 123a:zz, c: 3), where it is there once, takes part of the value of b, too. */
  lemma ValueTaken(b: Buffer)
    requires b.Valid() && b.Holds(TrickyFields())
    ensures
      var r := DeleteFrom(b, Text("a"), 1, 0);
      && r.Deleted? && r.buffer.edge == 12 <= |r.buffer.bytes|
      && r.buffer.bytes[..12] == Print(Field(Text("b"), Text("123c: 3")))
  {
    hide TrickyFields, Text, Gone;
    var fields := TrickyFields();
    var rest := Without(fields, 0);
    ThreeFields(b, fields, rest);
    hide PrintAll, EdgeOf, Print, Pasted, LowerEdges, NoColons, EdgesAre, DeleteFrom, Probe, FirstMatch;
    TwoPrinted(rest);
    Reached(b, fields, Text("a"));
    NothingGone(b, fields, 0);
    CutInPlace(b, fields, 0, 6);
    var cut := b.CutOut(1, 0);
    NextProbed(cut, rest, 0, 6, Text("a"));
    LoweredAt(b.edges, 1, 4, 6, 1);
    LoweredAt(b.edges, 1, 4, 6, 2);
    GoneSends(cut, rest, 0, 6);
    WrapSmall(12);
    hide Buffer.CutOut, Buffer.Holds;
    TakenForField(cut, rest);
  }

  lemma GoneSends(b: Buffer, rest: seq<Field>, m: nat, size: nat)
    requires Gone(b, rest, m, size)
    ensures b.Sends(rest)
  {
  }

  lemma ThreeFields(b: Buffer, fields: seq<Field>, rest: seq<Field>)
    requires b.Valid() && b.Holds(fields) && fields == TrickyFields() && rest == Without(fields, 0)
    ensures FirstMatch(fields, Text("a")) == 0 && rest[0].name != Text("a") && |rest[0].name| == 1
    ensures EdgeOf(fields, 0) == EdgeOf(rest, 0) == 0 && b.edges[1] == 6 && b.edges[2] == 18 && Size(fields[0]) == 6
  {
    SmallTexts();
    assert rest[0] == fields[1];
    hide PrintAll, EdgeOf, Print, NoColons;
    NoEdge(fields);
    NoEdge(rest);
    NextEdge(fields, 0);
    NextEdge(fields, 1);
    EdgesKnown(b.edges, fields, 1);
  }

  lemma TwoPrinted(rest: seq<Field>)
    requires rest == Without(TrickyFields(), 0)
    ensures PrintAll(rest) == [98, COLON, SP, 49, 50, 51, 97, COLON, 122, 122, CR, LF, 99, COLON, SP, 51, CR, LF]
  {
    SmallTexts();
    assert rest[0] == Field(Text("b"), Text("123a:zz")) && rest[1] == Field(Text("c"), Text("3"));
    hide Text, PrintAll;
    PrintedBytes(rest[0]);
    PrintedBytes(rest[1]);
    PrintTwo(rest);
  }

  lemma PrintedBytes(f: Field)
    ensures Print(f) == f.name + [COLON, SP] + f.value + [CR, LF]
  {
  }

  lemma PrintTwo(fields: seq<Field>)
    requires |fields| == 2
    ensures PrintAll(fields) == Print(fields[0]) + Print(fields[1])
  {
    assert fields[1..] == [fields[1]];
    PrintOne(fields[1]);
  }

  /** What stands behind the first six bytes looks like another a. */
  lemma TakenForField(cut: Buffer, rest: seq<Field>)
    requires cut.Valid() && cut.count == 3 && cut.edges[1] == 6 && cut.edges[2] == 12 && cut.Sends(rest)
    requires Probe(cut.bytes, 0, 6, Text("a")).Miss?
    requires PrintAll(rest) == [98, COLON, SP, 49, 50, 51, 97, COLON, 122, 122, CR, LF, 99, COLON, SP, 51, CR, LF]
    ensures
      var r := DeleteFrom(cut, Text("a"), 1, 0);
      r.Deleted? && r.buffer.edge == 12 <= |r.buffer.bytes| &&
        r.buffer.bytes[..12] == Print(Field(Text("b"), Text("123c: 3")))
  {
    hide PrintAll, LowerEdges, Pasted, Print;
    LooksLikeField(cut.bytes, PrintAll(rest));
    SlidOver(cut.bytes, PrintAll(rest), 6, 12);
    FieldJoined(PrintAll(rest));
    hide Probe;
    var less := cut.CutOut(2, 6);
    assert DeleteFrom(less, Text("a"), 2, 6) == Deleted(less);
    assert DeleteFrom(cut, Text("a"), 2, 6) == Deleted(less);
  }

  lemma LooksLikeField(bytes: seq<byte>, all: seq<byte>)
    requires 18 <= |bytes| <= K16 && bytes[..18] == all
    requires all == [98, COLON, SP, 49, 50, 51, 97, COLON, 122, 122, CR, LF, 99, COLON, SP, 51, CR, LF]
    ensures Probe(bytes, 6, 12, Text("a")).Hit?
  {
    SmallTexts();
    var window := bytes[6..12];
    assert window == all[6..12] == [97, COLON, 122, 122, CR, LF];
    var p := FirstColon(window);
    assert window[1] == COLON && p == 1;
    WrapsBack(6, p);
    assert bytes[6..7] == all[6..7] == [97];
  }

  lemma FieldJoined(all: seq<byte>)
    requires all == [98, COLON, SP, 49, 50, 51, 97, COLON, 122, 122, CR, LF, 99, COLON, SP, 51, CR, LF]
    ensures all[..6] + all[12..] == Print(Field(Text("b"), Text("123c: 3")))
  {
    SmallTexts();
    assert Text("123c: 3") == [49, 50, 51, 99, 58, 32, 51];
    assert all[..6] == [98, COLON, SP, 49, 50, 51] && all[12..] == [99, COLON, SP, 51, CR, LF];
    assert [98, COLON, SP, 49, 50, 51] + [99, COLON, SP, 51, CR, LF] ==
      [98] + [COLON, SP] + [49, 50, 51, 99, 58, 32, 51] + [CR, LF];
  }

  function LuckyFields(): (fields: seq<Field>)
    ensures |fields| == 3 && fields[0].name == fields[1].name == fields[2].name == Text("a")
  {
    [Field(Text("a"), Text("1234567")), Field(Text("a"), Text("1")), Field(Text("a"), Text("123a:12345678"))]
  }

  /** With a colon in a value, a deletion can be right by coincidence: from (a: 1234567, a: 1, a: 123a:12345678)
      three times twelve bytes are cut out. */
  lemma RightByCoincidence(b: Buffer)
    requires b.Valid() && b.Holds(LuckyFields())
    ensures var r := DeleteFrom(b, Text("a"), 1, 0); r.Deleted? && r.buffer.Holds([])
  {
    hide Text, PrintAll, EdgeOf, Print, Pasted, NoColons, EdgesAre, DeleteFrom, Probe, LuckyFields;
    var fields := LuckyFields();
    var rest := Without(fields, 0);
    assert FirstMatch(fields, Text("a")) == 0;
    hide FirstMatch;
    NoEdge(fields);
    NoEdge(rest);
    TwelveAndAll(fields, rest);
    Reached(b, fields, Text("a"));
    NothingGone(b, fields, 0);
    CutInPlace(b, fields, 0, 12);
    NextProbed(b.CutOut(1, 0), rest, 0, 12, Text("a"));
    CutTwiceMore(b.CutOut(1, 0), rest);
  }

  lemma TwelveAndAll(fields: seq<Field>, rest: seq<Field>)
    requires fields == LuckyFields() && rest == Without(fields, 0)
    ensures Size(fields[0]) == 12 && rest[0].name == Text("a") && |PrintAll(rest)| == 24 &&
      PrintAll(rest)[12..14] == [97, COLON]
  {
    assert Text("a") == [97] && |Text("1")| == 1;
    assert Text("123a:12345678")[3] == 97 && Text("123a:12345678")[4] == COLON;
    assert rest == [fields[1], fields[2]] && rest[1..] == [rest[1]];
    PrintOne(rest[1]);
    assert PrintAll(rest) == Print(rest[0]) + PrintAll(rest[1..]);
    assert PrintAll(rest)[12] == Print(rest[1])[6] == 97 && PrintAll(rest)[13] == Print(rest[1])[7] == COLON;
  }

  lemma CutTwiceMore(cut: Buffer, rest: seq<Field>)
    requires Gone(cut, rest, 0, 12) && EdgeOf(rest, 0) == 0 && cut.count == 3 && Probe(cut.bytes, 0, 12, Text("a")).Hit?
    requires |PrintAll(rest)| == 24 && PrintAll(rest)[12..14] == [97, COLON]
    ensures var r := DeleteFrom(cut, Text("a"), 1, 0); r.Deleted? && r.buffer.Holds([])
  {
    hide PrintAll, EdgeOf, Print, NoColons, Probe;
    var last := cut.CutOut(1, 0);
    SlidOver(cut.bytes, PrintAll(rest), 0, 12);
    assert last.bytes[..12] == PrintAll(rest)[12..];
    assert last.bytes[..12][..2] == PrintAll(rest)[12..14];
    hide Pasted;
    StartsWithA(last.bytes);
    assert last.count == 2 && last.edge == 12 && last.edges[0] == 0 && last.edges[1] == 12;
    assert DeleteFrom(cut, Text("a"), 1, 0) == DeleteFrom(last, Text("a"), 1, 0);
    hide LowerEdges, Gone;
    LastCut(last);
  }

  lemma LastCut(last: Buffer)
    requires last.Valid() && last.count == 2 && last.edge == 12 && last.edges[0] == 0 && last.edges[1] == 12
    requires RESERVE <= |last.bytes| && Probe(last.bytes, 0, 12, Text("a")).Hit?
    ensures var r := DeleteFrom(last, Text("a"), 1, 0); r.Deleted? && r.buffer.Holds([])
  {
    NoEdge([]);
    assert PrintAll([]) == [];
    hide PrintAll, EdgeOf, Print, Probe, Pasted;
    var none := last.CutOut(1, 0);
    assert DeleteFrom(none, Text("a"), 1, 0) == Deleted(none);
    NoColonsInNothing();
  }

  lemma NoColonsInNothing()
    ensures NoColons([])
  {
  }

  lemma StartsWithA(bytes: seq<byte>)
    requires 12 <= |bytes| <= K16 && bytes[..12][..2] == [97, COLON]
    ensures Probe(bytes, 0, 12, Text("a")).Hit?
  {
    SmallTexts();
    var window := bytes[0..12];
    assert window[0] == bytes[..12][..2][0] == 97 && window[1] == bytes[..12][..2][1] == COLON;
    var p := FirstColon(window);
    assert p == 1;
    WrapsBack(0, p);
    assert bytes[0..1] == [97];
  }
}
