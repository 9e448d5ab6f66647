// A message is recognised by its own bytes alone: whatever stands behind it changes nothing. This is what
// lets requests be pipelined without a separator.

module Locality {
  import opened Bytes
  import opened Numbers
  import opened FieldLines
  import opened Chunked
  import opened ChunkTheorems

  /** The first n bytes are the same. */
  predicate Agree(w: seq<byte>, v: seq<byte>, n: nat) {
    n <= |w| && n <= |v| && forall k | 0 <= k < n :: w[k] == v[k]
  }

  lemma {:induction false} NameLocal(w: seq<byte>, v: seq<byte>, limit: nat, q: nat)
    requires q < |w| && ScanName(w, limit, q).At? && Agree(w, v, ScanName(w, limit, q).pos + 1)
    ensures ScanName(v, limit, q) == ScanName(w, limit, q)
    decreases |w| - q
  {
    if Tchar(w[q]) != 0 {
      NameLocal(w, v, limit, q + 1);
    }
  }

  lemma {:induction false} OwsLocal(w: seq<byte>, v: seq<byte>, limit: nat, q: nat)
    requires q < |w| && ScanOws(w, limit, q).At? && Agree(w, v, ScanOws(w, limit, q).pos + 1)
    ensures ScanOws(v, limit, q) == ScanOws(w, limit, q)
    decreases |w| - q
  {
    if IsOws(w[q]) {
      OwsLocal(w, v, limit, q + 1);
    }
  }

  lemma {:induction false} ValueLocal(w: seq<byte>, v: seq<byte>, limit: nat, q: nat)
    requires q < |w| && ScanValue(w, limit, q).At? && Agree(w, v, ScanValue(w, limit, q).pos + 1)
    ensures ScanValue(v, limit, q) == ScanValue(w, limit, q)
    decreases |w| - q
  {
    if IsValueByte(w[q]) {
      ValueLocal(w, v, limit, q + 1);
    }
  }

  lemma {:induction false} TrimLocal(w: seq<byte>, v: seq<byte>, back: nat, fore: nat)
    requires back <= fore && Agree(w, v, fore)
    ensures TrimOws(v, back, fore) == TrimOws(w, back, fore)
    decreases fore
  {
    if back < fore && IsOws(w[fore - 1]) {
      TrimLocal(w, v, back, fore - 1);
    }
  }

  lemma ValueOfLocal(w: seq<byte>, v: seq<byte>, back: nat, lf: nat)
    requires 0 < back <= lf && Agree(w, v, lf + 1)
    ensures ValueOf(v, back, lf) == ValueOf(w, back, lf)
  {
    var fore := if w[lf - 1] == CR then lf - 1 else lf;
    if fore > back {
      TrimLocal(w, v, back, fore);
    }
    assert ValueEnd(v, back, lf) == ValueEnd(w, back, lf);
    if back <= ValueEnd(w, back, lf) {
      SliceLocal(w, v, lf + 1, back, ValueEnd(w, back, lf));
    }
  }

  lemma SliceLocal(w: seq<byte>, v: seq<byte>, n: nat, from: nat, edge: nat)
    requires from <= edge <= n && Agree(w, v, n)
    ensures w[from..edge] == v[from..edge]
  {
  }

  lemma StartLocal(w: seq<byte>, v: seq<byte>, limit: nat, p: nat)
    requires p < |w| && ParseStart(w, limit, p).StartAt? && Agree(w, v, ParseStart(w, limit, p).value + 1)
    ensures ParseStart(v, limit, p) == ParseStart(w, limit, p)
  {
    hide ScanName, ScanOws;
    NameLocal(w, v, limit, p);
    var c := ScanName(w, limit, p).pos;
    OwsLocal(w, v, limit, c + 1);
  }

  lemma LineLocal(w: seq<byte>, v: seq<byte>, limit: nat, p: nat)
    requires p < |w| && ParseLine(w, limit, p).LineTo? && Agree(w, v, ParseLine(w, limit, p).lf + 1)
    ensures ParseLine(v, limit, p) == ParseLine(w, limit, p)
  {
    hide ParseStart, ScanValue, ValueOf, Lowered, Hash;
    StartLocal(w, v, limit, p);
    var start := ParseStart(w, limit, p);
    ValueLocal(w, v, limit, start.value);
    var lf := ScanValue(w, limit, start.value).pos;
    ValueOfLocal(w, v, start.value, lf);
    SliceLocal(w, v, lf + 1, p, start.colon);
  }

  lemma {:induction false} SectionLocal(w: seq<byte>, v: seq<byte>, limit: nat, p: nat, room: nat)
    requires p < |w| && ParseSection(w, limit, p, room).Lines? && Agree(w, v, ParseSection(w, limit, p, room).end + 1)
    ensures ParseSection(v, limit, p, room) == ParseSection(w, limit, p, room)
    decreases |w| - p
  {
    hide ParseLine, ScanEol;
    if w[p] == CR {
      EolLocal(w, v, limit, p);
    } else if w[p] != LF {
      var lf := ParseLine(w, limit, p).lf;
      SectionLocal(w, v, limit, lf + 1, room - 1);
      LineLocal(w, v, limit, p);
    }
  }

  lemma EolLocal(w: seq<byte>, v: seq<byte>, limit: nat, q: nat)
    requires q < |w| && ScanEol(w, limit, q).At? && Agree(w, v, q + 2)
    ensures ScanEol(v, limit, q) == ScanEol(w, limit, q) == At(q + 1)
  {
  }

  lemma TrailersLocal(w: seq<byte>, v: seq<byte>, limit: nat, room: nat, space: nat)
    requires w != [] && ParseTrailers(w, limit, room, space).Lines? &&
      Agree(w, v, ParseTrailers(w, limit, room, space).end + 1)
    ensures ParseTrailers(v, limit, room, space) == ParseTrailers(w, limit, room, space)
  {
    hide ParseSection;
    SectionLocal(w, v, limit, 0, room);
  }

  lemma {:induction false} SizeLocal(w: seq<byte>, v: seq<byte>, q: nat, size: nat)
    requires q < |w| && ScanSize(w, q, size).SizeDigits? && Agree(w, v, ScanSize(w, q, size).pos + 1)
    ensures ScanSize(v, q, size) == ScanSize(w, q, size)
    decreases |w| - q
  {
    NextDigit(w, q, size);
    NextDigit(v, q, size);
    if IsDigit(w[q], 16) {
      SizeLocal(w, v, q + 1, size * 16 + DigitValue(w[q], 16));
    }
  }

  lemma {:induction false} ExtLocal(w: seq<byte>, v: seq<byte>, q: nat)
    requires q < |w| && ScanExt(w, q).At? && Agree(w, v, ScanExt(w, q).pos + 1)
    ensures ScanExt(v, q) == ScanExt(w, q)
    decreases |w| - q
  {
    if w[q] != LF {
      ExtLocal(w, v, q + 1);
    }
  }

  lemma SizeLineLocal(w: seq<byte>, v: seq<byte>)
    requires w != [] && ParseSizeLine(w).SizeLine? && Agree(w, v, ParseSizeLine(w).lf + 1)
    ensures ParseSizeLine(v) == ParseSizeLine(w)
  {
    hide ScanSize, ScanExt;
    SizeLocal(w, v, 0, 0);
    var q := ScanSize(w, 0, 0).pos;
    if w[q] == SEMICOLON {
      ExtLocal(w, v, q);
    }
  }

  lemma EndingLocal(w: seq<byte>, v: seq<byte>, q: nat, limits: Limits)
    requires q < |w| && Ending(w, q, limits).Body?
    requires |Ending(w, q, limits).rest| <= |w| && Agree(w, v, |w| - |Ending(w, q, limits).rest|)
    ensures q < |v| &&
      Ending(v, q, limits) == Body([], Ending(w, q, limits).trailers, v[|w| - |Ending(w, q, limits).rest|..])
  {
    hide ParseTrailers;
    if w[q] == CR {
      EolLocal(w, v, K16, q);
    } else if w[q] != LF {
      var end := ParseTrailers(w[q..], K16, limits.room, limits.space).end;
      assert |w[q..][end + 1..]| == |w| - q - end - 1;
      assert w[q..][0] == w[q];
      forall k | 0 <= k < end + 1
        ensures w[q..][k] == v[q..][k]
      {
        assert w[q + k] == v[q + k];
      }
      TrailersLocal(w[q..], v[q..], K16, limits.room, limits.space);
      assert v[q..][end + 1..] == v[q + end + 1..];
    }
  }

  lemma AgreeBehind(w: seq<byte>, v: seq<byte>, n: nat, k: nat)
    requires k <= n && Agree(w, v, n)
    ensures Agree(w[k..], v[k..], n - k)
  {
    forall j | 0 <= j < n - k
      ensures w[k..][j] == v[k..][j]
    {
      assert w[k + j] == v[k + j];
    }
  }

  /** A chunked body is received the same whatever stands behind it. */
  lemma {:induction false} DecodeLocal(w: seq<byte>, v: seq<byte>, limits: Limits)
    requires Decode(w, limits).Body? && |Decode(w, limits).rest| <= |w|
    requires Agree(w, v, |w| - |Decode(w, limits).rest|)
    ensures
      var o := Decode(w, limits);
      Decode(v, limits) == Body(o.content, o.trailers, v[|w| - |o.rest|..])
    decreases |w|
  {
    hide ParseSizeLine, Ending, InData;
    var line := ParseSizeLine(w);
    var k := line.lf + 1;
    BodyIsPrefix(w, limits);
    var used := |w| - |Decode(w, limits).rest|;
    if line.size == 0 {
      EndingIsSuffix(w, k, limits);
      EndingUses(w, k, limits);
      SizeLineLocal(w, v);
      EndingLocal(w, v, k, limits);
    } else {
      DataUses(w[k..], line.size, limits);
      SizeLineLocal(w, v);
      AgreeBehind(w, v, used, k);
      DataLocal(w[k..], v[k..], line.size, limits);
      assert v[k..][used - k..] == v[used..];
    }
  }

  lemma EndingUses(w: seq<byte>, q: nat, limits: Limits)
    requires q < |w| && Ending(w, q, limits).Body?
    ensures |Ending(w, q, limits).rest| <= |w| - q - 1
  {
    hide ParseTrailers;
  }

  /** The data of a chunk, its line end, and the rest of the body. */
  lemma DataUses(t: seq<byte>, size: nat, limits: Limits)
    requires size <= limits.max && InData(t, size, limits).Body?
    ensures |InData(t, size, limits).rest| + size < |t|
  {
    hide Decode, AfterData, AfterCr;
    var u, less := t[size..], limits.(max := limits.max - size);
    NothingLeft(less);
    LineEndSeen(u, less);
    var z := if u[0] == CR then u[1..] else u;
    if z != [] {
      LineEndSeen(z, less);
    }
    BodyIsPrefix(z[1..], less);
  }

  lemma DataLocal(t: seq<byte>, v: seq<byte>, size: nat, limits: Limits)
    requires size <= limits.max && InData(t, size, limits).Body? && |InData(t, size, limits).rest| + size < |t|
    requires Agree(t, v, |t| - |InData(t, size, limits).rest|)
    ensures
      var o := InData(t, size, limits);
      InData(v, size, limits) == Body(o.content, o.trailers, v[|t| - |o.rest|..])
    decreases |t|, 2
  {
    hide Decode, AfterData, AfterCr;
    var u, less := t[size..], limits.(max := limits.max - size);
    var n := |t| - |InData(t, size, limits).rest|;
    SliceLocal(t, v, n, 0, size);
    AgreeBehind(t, v, n, size);
    assert t[..size] == v[..size];
    LineEndLocal(u, v[size..], less);
    assert v[size..][n - size..] == v[n..];
  }

  lemma LineEndLocal(u: seq<byte>, v: seq<byte>, limits: Limits)
    requires AfterData(u, limits).Body? && |AfterData(u, limits).rest| < |u|
    requires Agree(u, v, |u| - |AfterData(u, limits).rest|)
    ensures
      var o := AfterData(u, limits);
      AfterData(v, limits) == Body(o.content, o.trailers, v[|u| - |o.rest|..])
    decreases |u|, 1
  {
    hide Decode, AfterData, AfterCr;
    LineEndSeen(u, limits);
    LineEndSeen(v, limits);
    assert u[0] == v[0];
    if u[0] == CR {
      var n := |u| - |AfterData(u, limits).rest|;
      NothingLeft(limits);
      CrUses(u[1..], limits);
      AgreeBehind(u, v, n, 1);
      CrLocal(u[1..], v[1..], limits);
      assert v[1..][n - 1..] == v[n..];
    } else {
      CrLocal(u, v, limits);
    }
  }

  lemma CrUses(u: seq<byte>, limits: Limits)
    requires AfterCr(u, limits).Body?
    ensures |AfterCr(u, limits).rest| < |u|
  {
    hide Decode, AfterCr;
    NothingLeft(limits);
    LineEndSeen(u, limits);
    BodyIsPrefix(u[1..], limits);
  }

  lemma CrLocal(u: seq<byte>, v: seq<byte>, limits: Limits)
    requires AfterCr(u, limits).Body? && |AfterCr(u, limits).rest| < |u|
    requires Agree(u, v, |u| - |AfterCr(u, limits).rest|)
    ensures
      var o := AfterCr(u, limits);
      AfterCr(v, limits) == Body(o.content, o.trailers, v[|u| - |o.rest|..])
    decreases |u|, 0
  {
    hide Decode, AfterData, AfterCr;
    LineEndSeen(u, limits);
    LineEndSeen(v, limits);
    assert u[0] == v[0];
    var n := |u| - |AfterCr(u, limits).rest|;
    BodyIsPrefix(u[1..], limits);
    AgreeBehind(u, v, n, 1);
    DecodeLocal(u[1..], v[1..], limits);
    assert v[1..][n - 1..] == v[n..];
  }
}
