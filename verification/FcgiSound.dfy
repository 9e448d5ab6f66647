// FastCGI responses byte for byte (section 3.3 and section 6 of the FastCGI Specification): a response is received
// exactly if it is a sequence of records of these kinds in this order.

module FcgiSound {
  import opened Bytes
  import opened FcgiRecords

  /** A record on the wire: version, kind, request id, sizes of payload and padding, a reserved byte. */
  datatype Raw = Raw(header: seq<byte>, payload: seq<byte>, padding: seq<byte>) {
    predicate Legal() {
      && |header| == 8 && |payload| == 256 * (header[4] as int) + header[5] as int && |padding| == header[6] as int
    }

    function Kind(): byte
      requires Legal()
    {
      header[1]
    }

    function Text(): seq<byte> { header + payload + padding }
  }

  function RawTexts(raws: seq<Raw>): seq<byte> {
    if raws == [] then [] else raws[0].Text() + RawTexts(raws[1..])
  }

  predicate RawLegal(raws: seq<Raw>) {
    forall k | 0 <= k < |raws| :: raws[k].Legal()
  }

  /** The payloads of the records of kind 6, FCGI_STDOUT, in order. */
  function Output(raws: seq<Raw>): seq<byte>
    requires RawLegal(raws)
  {
    if raws == [] then [] else (if raws[0].Kind() == 6 then raws[0].payload else []) + Output(raws[1..])
  }

  /** Only records of kind 7, FCGI_STDERR. */
  predicate OnlyErrors(raws: seq<Raw>) {
    RawLegal(raws) && forall k | 0 <= k < |raws| :: raws[k].Kind() == 7
  }

  /** Standard output that is not empty, and standard error. */
  predicate IsOutput(raws: seq<Raw>) {
    && RawLegal(raws)
    && forall k | 0 <= k < |raws| :: raws[k].Kind() == 7 || (raws[k].Kind() == 6 && raws[k].payload != [])
  }

  /** What may stand before the end: nothing, or the end of standard output, and standard error. */
  predicate IsClosing(raws: seq<Raw>) {
    raws == [] || (raws[0].Legal() && raws[0].Kind() == 6 && raws[0].payload == [] && OnlyErrors(raws[1..]))
  }

  /** A response: output, its closing, and a record of kind 3, FCGI_END_REQUEST. */
  datatype RawResponse = RawResponse(out: seq<Raw>, closing: seq<Raw>, end: Raw) {
    predicate Legal() {
      IsOutput(out) && IsClosing(closing) && end.Legal() && end.Kind() == 3
    }

    function Text(): seq<byte> {
      RawTexts(out) + (RawTexts(closing) + end.Text())
    }
  }

  // ----- One record -----

  lemma RawParsed(r: Raw, rest: seq<byte>)
    requires r.Legal()
    ensures ParseRecord(r.Text() + rest) == Record(r.Kind(), r.payload, |r.Text()|)
    ensures (r.Text() + rest)[|r.Text()|..] == rest
  {
    var w := r.Text() + rest;
    assert w[1] == r.header[1] && w[4] == r.header[4] && w[5] == r.header[5] && w[6] == r.header[6];
    assert w[8..8 + |r.payload|] == r.payload;
  }

  lemma RawFound(w: seq<byte>) returns (r: Raw)
    requires ParseRecord(w).Record?
    ensures r.Legal() && ParseRecord(w) == Record(r.Kind(), r.payload, |r.Text()|)
    ensures w == r.Text() + w[|r.Text()|..]
  {
    var n, size := 8 + PayloadSize(w), RecordSize(w);
    r := Raw(w[..8], w[8..n], w[n..size]);
    assert w == w[..8] + w[8..n] + w[n..size] + w[size..];
  }

  lemma Split(a: seq<byte>, b: seq<byte>, c: seq<byte>)
    ensures (a + b) + c == a + (b + c)
  {
  }

  // ----- What is sent is received -----

  lemma {:induction false} ErrorsPassed(raws: seq<Raw>, end: Raw, rest: seq<byte>)
    requires OnlyErrors(raws) && end.Legal() && end.Kind() == 3
    ensures UntilEnd(RawTexts(raws) + (end.Text() + rest)) == End(rest)
    decreases |raws|
  {
    hide ParseRecord, Raw.Text, Raw.Legal;
    if raws == [] {
      assert [] + (end.Text() + rest) == end.Text() + rest;
      RawParsed(end, rest);
    } else {
      var more := RawTexts(raws[1..]) + (end.Text() + rest);
      Split(raws[0].Text(), RawTexts(raws[1..]), end.Text() + rest);
      RawParsed(raws[0], more);
      ErrorsPassed(raws[1..], end, rest);
    }
  }

  lemma ClosingReceived(closing: seq<Raw>, end: Raw, rest: seq<byte>)
    requires IsClosing(closing) && end.Legal() && end.Kind() == 3
    ensures NextStdout(RawTexts(closing) + (end.Text() + rest)) == End(rest)
  {
    hide ParseRecord, Raw.Text, Raw.Legal, UntilEnd, OnlyErrors;
    if closing == [] {
      assert [] + (end.Text() + rest) == end.Text() + rest;
      RawParsed(end, rest);
    } else {
      var more := RawTexts(closing[1..]) + (end.Text() + rest);
      Split(closing[0].Text(), RawTexts(closing[1..]), end.Text() + rest);
      RawParsed(closing[0], more);
      ErrorsPassed(closing[1..], end, rest);
    }
  }

  /** Every such response is received as its standard output, and what follows it is left. */
  lemma {:induction false} RawResponseReceived(r: RawResponse, rest: seq<byte>)
    requires r.Legal()
    ensures RawLegal(r.out) && Stdout(r.Text() + rest) == Stream(Output(r.out), rest)
    decreases |r.out|
  {
    hide ParseRecord, Raw.Text, Raw.Legal, UntilEnd, IsClosing;
    var behind := RawTexts(r.closing) + (r.end.Text() + rest);
    ResponseSplit(r, rest);
    if r.out == [] {
      assert [] + behind == behind;
      ClosingReceived(r.closing, r.end, rest);
      StdoutIs(behind);
    } else {
      var first, later := r.out[0], r.(out := r.out[1..]);
      var more := later.Text() + rest;
      ResponseSplit(later, rest);
      Split(first.Text(), RawTexts(later.out), behind);
      RawParsed(first, more);
      RawResponseReceived(later, rest);
      StdoutIs(first.Text() + more);
      StdoutIs(more);
      assert [] + Output(later.out) == Output(later.out);
    }
  }

  lemma ResponseSplit(r: RawResponse, rest: seq<byte>)
    ensures r.Text() + rest == RawTexts(r.out) + (RawTexts(r.closing) + (r.end.Text() + rest))
  {
    hide RawTexts, Raw.Text;
  }

  // ----- Nothing else is received -----

  lemma {:induction false} UntilEndSound(w: seq<byte>) returns (raws: seq<Raw>, end: Raw)
    requires UntilEnd(w).End?
    ensures OnlyErrors(raws) && end.Legal() && end.Kind() == 3
    ensures w == RawTexts(raws) + (end.Text() + UntilEnd(w).rest)
    decreases |w|
  {
    hide ParseRecord, Raw.Text, Raw.Legal;
    var r := RawFound(w);
    if r.Kind() == END_REQUEST {
      raws, end := [], r;
    } else {
      raws, end := UntilEndSound(w[|r.Text()|..]);
      Split(r.Text(), RawTexts(raws), end.Text() + UntilEnd(w).rest);
      raws := [r] + raws;
      assert raws[1..] == raws[1..];
    }
  }

  /** How the next output, or the end, had been sent: standard error in front of it is passed over. */
  lemma {:induction false} NextSound(w: seq<byte>) returns (errors: seq<Raw>, r: Raw, u: seq<byte>)
    requires !NextStdout(w).Failed?
    ensures OnlyErrors(errors) && r.Legal() && r.Kind() != 7 && w == RawTexts(errors) + (r.Text() + u)
    ensures r.Kind() == 6 || r.Kind() == 3
    ensures NextStdout(w) ==
      if r.Kind() == 3 then End(u) else if r.payload != [] then Data(r.payload, u) else UntilEnd(u)
    decreases |w|
  {
    hide ParseRecord, Raw.Text, Raw.Legal, UntilEnd;
    r := RawFound(w);
    errors, u := [], w[|r.Text()|..];
    if r.Kind() == STDERR {
      var first := r;
      errors, r, u := NextSound(u);
      Split(first.Text(), RawTexts(errors), r.Text() + u);
      errors := [first] + errors;
    } else {
      assert [] + (r.Text() + u) == w;
    }
  }

  /** Whatever is received as a response was sent as one, and its content is the standard output in it. */
  lemma {:induction false} ResponseSound(w: seq<byte>) returns (r: RawResponse)
    requires Stdout(w).Stream?
    ensures r.Legal() && RawLegal(r.out)
    ensures w == r.Text() + Stdout(w).rest && Stdout(w).content == Output(r.out)
    decreases |w|
  {
    hide ParseRecord, Raw.Text, Raw.Legal, UntilEnd, NextStdout;
    StdoutIs(w);
    var errors, x, u := NextSound(w);
    var rest := Stdout(w).rest;
    ErrorsOnly(errors);
    if x.Kind() == 3 {
      r := RawResponse(errors, [], x);
      assert [] + (x.Text() + rest) == x.Text() + rest;
    } else if x.payload == [] {
      var closing, end := UntilEndSound(u);
      r := RawResponse(errors, [x] + closing, end);
      assert ([x] + closing)[1..] == closing;
      Split(x.Text(), RawTexts(closing), end.Text() + rest);
    } else {
      var later := ResponseSound(u);
      r := later.(out := errors + ([x] + later.out));
      OutputMore(errors, x, later.out);
      ResponseSplit(later, rest);
      Split(RawTexts(errors), x.Text() + RawTexts(later.out), RawTexts(later.closing) + (later.end.Text() + rest));
      Split(x.Text(), RawTexts(later.out), RawTexts(later.closing) + (later.end.Text() + rest));
    }
    ResponseSplit(r, rest);
  }

  lemma {:induction false} ErrorsOnly(errors: seq<Raw>)
    requires OnlyErrors(errors)
    ensures IsOutput(errors) && Output(errors) == []
  {
    if errors != [] {
      ErrorsOnly(errors[1..]);
    }
  }

  /** Standard error adds nothing to the output. */
  lemma {:induction false} OutputMore(errors: seq<Raw>, x: Raw, out: seq<Raw>)
    requires OnlyErrors(errors) && IsOutput(out) && x.Legal() && x.Kind() == 6 && x.payload != []
    ensures IsOutput(errors + ([x] + out)) && Output(errors + ([x] + out)) == x.payload + Output(out)
    ensures RawTexts(errors + ([x] + out)) == RawTexts(errors) + (x.Text() + RawTexts(out))
  {
    hide Raw.Text, Raw.Legal;
    assert ([x] + out)[1..] == out;
    if errors == [] {
      assert errors + ([x] + out) == [x] + out;
      assert [] + (x.Text() + RawTexts(out)) == x.Text() + RawTexts(out);
    } else {
      var all := errors + ([x] + out);
      assert all[1..] == errors[1..] + ([x] + out) && all[0] == errors[0];
      OutputMore(errors[1..], x, out);
      Split(errors[0].Text(), RawTexts(errors[1..]), x.Text() + RawTexts(out));
    }
  }
}
