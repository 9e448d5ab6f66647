// The FastCGI record demultiplexer of a backend response (web_backend_fcgi.go): a sliding window of
// records, of which the stdout data feeds the head input and the content reader.

module FcgiRecords {
  import opened Bytes
  import opened Sockets

  const HEADER: nat := 8
  /** A header, 8K of payload and the longest padding. */
  const STOCK_RECORDS: nat := 8456
  /** A header, the longest payload and the longest padding. */
  const MAX_RECORDS: nat := 65798
  const STOCK_INPUT: nat := 2048

  const END_REQUEST: byte := 3
  const STDOUT: byte := 6
  const STDERR: byte := 7

  // ----- What the records on the wire mean -----

  function RecordSize(w: seq<byte>): (n: nat)
    requires |w| >= HEADER
    ensures HEADER <= n <= MAX_RECORDS
  {
    HEADER + PayloadSize(w) + w[6]
  }

  function PayloadSize(w: seq<byte>): (n: nat)
    requires |w| >= HEADER
    ensures n <= 0xffff
  {
    0x100 * (w[4] as int) + w[5] as int
  }

  datatype Record = Record(kind: byte, payload: seq<byte>, size: nat) | Short

  /** The record at the start of w. */
  function ParseRecord(w: seq<byte>): (r: Record)
    ensures r.Record? ==> HEADER <= r.size <= |w|
  {
    if |w| < HEADER || |w| < RecordSize(w) then Short
    else Record(w[1], w[HEADER..HEADER + PayloadSize(w)], RecordSize(w))
  }

  datatype Step = Data(payload: seq<byte>, rest: seq<byte>) | End(rest: seq<byte>) | Failed

  /** The next stdout data; stderr is skipped, and the stream ends with an end of request. */
  function NextStdout(w: seq<byte>): (s: Step)
    ensures s.Data? ==> s.payload != [] && |s.rest| < |w|
    decreases |w|
  {
    match ParseRecord(w)
    case Short => Failed
    case Record(kind, payload, size) =>
      if kind == STDOUT && payload != [] then Data(payload, w[size..])
      else if kind == STDERR then NextStdout(w[size..])
      else if kind == STDOUT then UntilEnd(w[size..])
      else if kind == END_REQUEST then End(w[size..])
      else Failed
  }

  /** Behind an empty stdout record only stderr and the end of the request may come. */
  function UntilEnd(w: seq<byte>): (s: Step)
    ensures !s.Data?
    decreases |w|
  {
    match ParseRecord(w)
    case Short => Failed
    case Record(kind, payload, size) =>
      if kind == END_REQUEST then End(w[size..])
      else if kind == STDERR then UntilEnd(w[size..])
      else Failed
  }

  datatype Stream = Stream(content: seq<byte>, rest: seq<byte>) | Broken {
    function Prepend(data: seq<byte>): Stream {
      if Broken? then this else Stream(data + content, rest)
    }
  }

  /** All stdout data up to the end of the request. */
  function Stdout(w: seq<byte>): Stream
    decreases |w|
  {
    match NextStdout(w)
    case Failed => Broken
    case End(rest) => Stream([], rest)
    case Data(payload, rest) => Stdout(rest).Prepend(payload)
  }

  /** No record that will be received is larger than the buffer. */
  predicate AllFit(w: seq<byte>, cap: nat)
    decreases |w|
  {
    |w| >= HEADER ==>
      && RecordSize(w) <= cap
      && (ParseRecord(w).Record? && ParseRecord(w).kind != END_REQUEST ==> AllFit(w[RecordSize(w)..], cap))
  }

  // ----- The receiver -----

  /** What a record is read from when the buffer was exchanged for a larger one that holds `pool`, with that
      many bytes of the record received; `slid` tells that there was something to slide out. */
  function ReadFrom(w: seq<byte>, pool: seq<byte>, received: nat, slid: bool): seq<byte>
    requires received <= |w| && received <= |pool|
  {
    if slid then w else pool[..received] + w[received..]
  }

  /** The record that is handed out then. */
  function Handed(w: seq<byte>, pool: seq<byte>, received: nat, slid: bool): Record
    requires HEADER <= received <= |w| && received <= |pool| && RecordSize(w) <= |w|
  {
    var v := ReadFrom(w, pool, received, slid);
    Record(v[1], v[HEADER..HEADER + PayloadSize(w)], RecordSize(w))
  }

  class Response {
    const socket: Socket
    /** What the pool hands out when a record does not fit the stock buffer, with whatever is in it. */
    const pooled: array<byte>
    var records: array<byte>
    var recordsFrom: nat
    var recordsEdge: nat
    var stdoutFrom: nat
    var stdoutEdge: nat
    var input: array<byte>
    var inputEdge: nat
    var immeFrom: nat
    var immeEdge: nat

    constructor (socket: Socket, pooled: array<byte>)
      requires pooled.Length == MAX_RECORDS
      ensures this.socket == socket && this.pooled == pooled && Valid() && records.Length == STOCK_RECORDS
      ensures Tail() == socket.unread && Taken() == [] && Pending() == [] && fresh(records) && fresh(input)
    {
      this.socket, this.pooled := socket, pooled;
      records := new byte[STOCK_RECORDS](_ => 0);
      recordsFrom, recordsEdge, stdoutFrom, stdoutEdge := 0, 0, 0, 0;
      input := new byte[STOCK_INPUT](_ => 0);
      inputEdge, immeFrom, immeEdge := 0, 0, 0;
      new;
      assert records[..][0..0] == [] && input[..][..0] == [] && [] + socket.unread == socket.unread;
    }

    ghost predicate Valid()
      reads this
    {
      && recordsFrom <= recordsEdge <= records.Length && stdoutFrom <= stdoutEdge <= records.Length
      && ((records.Length == STOCK_RECORDS && records != pooled) || records == pooled) && pooled.Length == MAX_RECORDS
      && (input.Length == STOCK_INPUT || input.Length == K4 || input.Length == K16) && input != records &&
           input != pooled
      && inputEdge <= input.Length && immeFrom <= immeEdge <= inputEdge
    }

    /** The records to come, received or not. */
    ghost function Tail(): seq<byte>
      requires Valid()
      reads this, records, socket
    {
      records[..][recordsFrom..recordsEdge] + socket.unread
    }

    /** The head input so far. */
    ghost function Taken(): seq<byte>
      requires Valid()
      reads this, input
    {
      input[..][..inputEdge]
    }

    /** Stdout data that has been received but not taken. */
    ghost function Pending(): seq<byte>
      requires Valid()
      reads this, records
    {
      records[..][stdoutFrom..stdoutEdge]
    }

    /** fcgiMoveRecords within the same buffer. */
    method Slide()
      requires Valid()
      modifies this`recordsFrom, this`recordsEdge, records
      ensures Valid() && recordsFrom == 0 && recordsEdge == old(recordsEdge - recordsFrom) && Tail() == old(Tail())
    {
      hide Pasted;
      if recordsFrom > 0 {
        MovedToStart(records[..], records[..], recordsFrom, recordsEdge);
        CopyWithin(records, 0, recordsFrom, recordsEdge);
        recordsEdge := recordsEdge - recordsFrom;
        recordsFrom := 0;
      }
    }

    /** fcgiMoveRecords to the larger buffer: nothing is copied when there is nothing to slide out. */
    method Enlarge()
      requires Valid() && records != pooled
      modifies this`records, this`recordsFrom, this`recordsEdge, pooled
      ensures Valid() && records == pooled && recordsFrom == 0 && recordsEdge == old(recordsEdge - recordsFrom)
      ensures Tail() == ReadFrom(old(Tail()), old(pooled[..]), old(recordsEdge - recordsFrom), old(recordsFrom) > 0)
    {
      hide Pasted;
      if recordsFrom > 0 {
        MovedToStart(pooled[..], records[..], recordsFrom, recordsEdge);
        CopyBetween(pooled, 0, records, recordsFrom, recordsEdge);
        assert records[recordsFrom..recordsEdge] == records[..][recordsFrom..recordsEdge];
        recordsEdge := recordsEdge - recordsFrom;
        recordsFrom := 0;
      } else {
        assert pooled[..][0..recordsEdge] == pooled[..][..recordsEdge];
        assert Tail()[recordsEdge..] == socket.unread;
      }
      records := pooled;
    }

    /** fcgiGrowRecords: at least that many more bytes. */
    method GrowRecords(size: nat) returns (ok: bool)
      requires Valid() && recordsEdge - recordsFrom + size <= records.Length
      modifies this`recordsFrom, this`recordsEdge, records, socket
      ensures ok == (|old(socket.unread)| >= size)
      ensures ok ==>
        Valid() && Tail() == old(Tail()) && recordsEdge - recordsFrom >= old(recordsEdge - recordsFrom) + size
      ensures recordsFrom == if size > old(records.Length - recordsEdge) then 0 else old(recordsFrom)
    {
      hide Pasted;
      if size > records.Length - recordsEdge {
        Slide();
      }
      ghost var was, wire, edge := records[..], socket.unread, recordsEdge;
      var n;
      n, ok := socket.ReadAtLeast(records, recordsEdge, size);
      if ok {
        recordsEdge := recordsEdge + n;
        PastedBehind(was, edge, wire[..n], recordsFrom);
        TakeDrop(wire, n);
        assert was[recordsFrom..edge] + wire[..n] + wire[n..] == was[recordsFrom..edge] + wire;
      }
    }

    /** The header of the next record is in the window. */
    ghost predicate HeaderThere()
      reads this
    {
      Valid() && recordsEdge - recordsFrom >= HEADER
    }

    /** When the header of the next record is there, something will stand before it. */
    ghost predicate SlidesOut()
      reads this
    {
      recordsFrom > 0 &&
        (recordsEdge - recordsFrom >= HEADER || HEADER - (recordsEdge - recordsFrom) <= records.Length - recordsEdge)
    }

    /** The next record is lost: it does not fit, nothing can be slid out, and the larger buffer is unused. */
    ghost predicate Lost()
      reads this, records, pooled, socket
    {
      && Valid() && |Tail()| >= HEADER && RecordSize(Tail()) > records.Length && !SlidesOut()
      && forall k | 0 <= k < MAX_RECORDS :: pooled[k] == 0
    }

    /** The whole record whose header is there. */
    method RecvBody() returns (ok: bool, kind: byte, from: nat, edge: nat)
      requires HeaderThere()
      modifies this`records, this`recordsFrom, this`recordsEdge, records, pooled, socket
      ensures ok == (|old(Tail())| >= RecordSize(old(Tail())))
      ensures ok ==>
        var w := old(Tail());
        && Valid() && Tail() == w[RecordSize(w)..] && from <= edge <= records.Length
        && Record(kind, records[..][from..edge], RecordSize(w)) ==
          if RecordSize(w) <= old(records.Length) then ParseRecord(w)
          else Handed(w, old(pooled[..]), old(recordsEdge - recordsFrom), old(recordsFrom) > 0)
      ensures records == if RecordSize(old(Tail())) <= old(records.Length) then old(records) else pooled
    {
      hide ReadFrom, PayloadSize, RecordSize, ParseRecord, Handed;
      ghost var w, pool, received, slid := Tail(), pooled[..], recordsEdge - recordsFrom, recordsFrom > 0;
      kind, from, edge := 0, 0, 0;
      var payloadLen, recordSize;
      ok, payloadLen, recordSize := MakeWhole(w);
      if !ok {
        return;
      }
      HandedIs(w, pool, received, slid);
      ghost var v := Tail();
      kind, from, edge := Consume(payloadLen, recordSize, v, w[recordSize..]);
    }

    /** The whole record is in the window, or what is taken for it. */
    method MakeWhole(ghost w: seq<byte>) returns (ok: bool, payloadLen: nat, recordSize: nat)
      requires HeaderThere() && w == Tail()
      modifies this`records, this`recordsFrom, this`recordsEdge, records, pooled, socket
      ensures |w| >= HEADER && ok == (|w| >= RecordSize(w))
      ensures payloadLen == PayloadSize(w) && HEADER + payloadLen <= recordSize == RecordSize(w)
      ensures ok ==> Valid() && recordSize <= recordsEdge - recordsFrom
      ensures ok ==> Tail() == if recordSize <= old(records.Length) then w
        else ReadFrom(w, old(pooled[..]), old(recordsEdge - recordsFrom), old(recordsFrom) > 0)
      ensures ok && recordSize > old(records.Length) ==> old(recordsEdge - recordsFrom) <= recordSize
      ensures records == if recordSize <= old(records.Length) then old(records) else pooled
    {
      hide ReadFrom, PayloadSize, RecordSize;
      HeaderBytes(records[..], recordsFrom, recordsEdge, socket.unread);
      payloadLen := 0x100 * (records[recordsFrom + 4] as int) + records[recordsFrom + 5] as int;
      recordSize := HEADER + payloadLen + records[recordsFrom + 6];
      ok := true;
      if recordSize > recordsEdge - recordsFrom {
        ok := Complete(recordSize, w);
      }
    }

    /** The rest of the next record is received, in a larger buffer if need be. */
    method Complete(recordSize: nat, ghost w: seq<byte>) returns (ok: bool)
      requires HeaderThere() && w == Tail() && recordSize == RecordSize(w) > recordsEdge - recordsFrom
      modifies this`records, this`recordsFrom, this`recordsEdge, records, pooled, socket
      ensures ok == (|w| >= recordSize)
      ensures ok ==> Valid() && recordsEdge - recordsFrom >= recordSize
      ensures ok ==> Tail() == if recordSize <= old(records.Length) then w
        else ReadFrom(w, old(pooled[..]), old(recordsEdge - recordsFrom), old(recordsFrom) > 0)
      ensures records == if recordSize <= old(records.Length) then old(records) else pooled
    {
      var remain := recordsEdge - recordsFrom;
      if recordSize > records.Length {
        Enlarge();
      }
      ok := GrowRecords(recordSize - remain);
    }

    /** Passes over a record that is entirely in the window. */
    method Consume(payloadLen: nat, recordSize: nat, ghost v: seq<byte>, ghost rest: seq<byte>)
      returns (kind: byte, from: nat, edge: nat)
      requires Valid() && HEADER + payloadLen <= recordSize <= recordsEdge - recordsFrom
      requires v == Tail() && v[recordSize..] == rest
      modifies this`recordsFrom, this`recordsEdge
      ensures Valid() && Tail() == rest
      ensures from <= edge <= records.Length && kind == v[1] &&
        records[..][from..edge] == v[HEADER..HEADER + payloadLen]
    {
      RecordThere(records[..], recordsFrom, recordsEdge, socket.unread, payloadLen, recordSize, rest);
      kind := records[recordsFrom + 1];
      from := recordsFrom + HEADER;
      edge := from + payloadLen;
      if recordSize == recordsEdge - recordsFrom {
        recordsFrom, recordsEdge := 0, 0;
      } else {
        recordsFrom := recordsFrom + recordSize;
      }
    }

    /** fcgiRecvRecord: the next record, exactly as it is on the wire if it fits the buffer, or if something
        could be slid out when `received` bytes of it were there. */
    method RecvRecord() returns (ok: bool, kind: byte, from: nat, edge: nat, ghost received: nat)
      requires Valid()
      modifies this`records, this`recordsFrom, this`recordsEdge, records, pooled, socket
      ensures records == old(records) || records == pooled
      ensures ok ==> Valid() && from <= edge <= records.Length && |Tail()| < |old(Tail())|
      ensures
        var w := old(Tail());
        (|w| >= HEADER ==> RecordSize(w) <= old(records.Length)) ==>
          && ok == ParseRecord(w).Record? && records == old(records)
          && (ok ==>
               ParseRecord(w) == Record(kind, records[..][from..edge], RecordSize(w)) && Tail() == w[RecordSize(w)..])
      ensures
        var w := old(Tail());
        |w| >= HEADER && RecordSize(w) > old(records.Length) ==>
          && ok == (|w| >= RecordSize(w)) && HEADER <= received <= |w| && received <= STOCK_RECORDS
          && (ok ==> Tail() == w[RecordSize(w)..])
          && (ok ==>
               Record(kind, records[..][from..edge], RecordSize(w)) ==
                 Handed(w, old(pooled[..]), received, old(SlidesOut())))
    {
      hide RecordSize, PayloadSize, Handed, SlidesOut;
      ghost var w, pool := Tail(), pooled[..];
      kind, from, edge, received := 0, 0, 0, 0;
      ok := NeedHeader();
      if ok {
        received := recordsEdge - recordsFrom;
        assert records != pooled ==> pooled[..] == pool;
        ok, kind, from, edge := RecvBody();
      }
      ParsedIs(w);
    }

    /** A record header must be in the window. */
    method NeedHeader() returns (ok: bool)
      requires Valid()
      modifies this`recordsFrom, this`recordsEdge, records, socket
      ensures ok == (|old(Tail())| >= HEADER)
      ensures ok ==> HeaderThere() && Tail() == old(Tail()) && (recordsFrom > 0 <==> old(SlidesOut()))
    {
      ok := true;
      if recordsEdge - recordsFrom < HEADER {
        ok := GrowRecords(HEADER - (recordsEdge - recordsFrom));
      }
    }

    /** fcgiRecvStdout: the next non-empty stdout data; no data means the end of the stream. */
    method RecvStdout() returns (ok: bool, from: nat, edge: nat)
      requires Valid()
      modifies this`records, this`recordsFrom, this`recordsEdge, records, pooled, socket
      ensures records == old(records) || records == pooled
      ensures ok ==> Valid() && from <= edge <= records.Length && |Tail()| < |old(Tail())|
      ensures AllFit(old(Tail()), old(records.Length)) ==>
        && records == old(records) && ok == !NextStdout(old(Tail())).Failed?
        && (ok && from < edge ==> NextStdout(old(Tail())) == Data(records[..][from..edge], Tail()))
        && (ok && from >= edge ==> NextStdout(old(Tail())) == End(Tail()))
        && (ok && from < edge ==> AllFit(Tail(), records.Length))
      ensures old(Lost()) ==> !ok
    {
      hide AllFit, ParseRecord, NextStdout, UntilEnd, SlidesOut, RecordSize;
      ghost var w, cap := Tail(), records.Length;
      ghost var fit, lost := AllFit(w, cap), Lost();
      while true
        invariant records == old(records) || records == pooled
        invariant lost ==> Lost()
        invariant Valid() && |Tail()| <= |w|
        invariant fit ==> records == old(records) && AllFit(Tail(), cap) && NextStdout(Tail()) == NextStdout(w)
        decreases |Tail()|
      {
        ghost var t, pool, slid := Tail(), pooled[..], SlidesOut();
        if fit {
          NextIs(t, cap);
        }
        var kind;
        ghost var received;
        ok, kind, from, edge, received := RecvRecord();
        if lost && ok {
          NothingThere(t, pool, received, slid);
        }
        if !ok || (kind == STDOUT && from < edge) {
          return;
        }
        if kind == STDOUT {
          ok := RecvEnd();
          return ok, 0, 0;
        }
        if kind != STDERR {
          return kind == END_REQUEST, 0, 0;
        }
      }
    }

    /** Behind an empty stdout record: everything up to the end of the request. */
    method RecvEnd() returns (ok: bool)
      requires Valid()
      modifies this`records, this`recordsFrom, this`recordsEdge, records, pooled, socket
      ensures records == old(records) || records == pooled
      ensures ok ==> Valid() && |Tail()| < |old(Tail())|
      ensures AllFit(old(Tail()), old(records.Length)) ==>
        records == old(records) && if ok then UntilEnd(old(Tail())) == End(Tail()) else UntilEnd(old(Tail())).Failed?
    {
      hide AllFit, ParseRecord, UntilEnd;
      ghost var w, cap := Tail(), records.Length;
      ghost var fit := AllFit(w, cap);
      while true
        invariant records == old(records) || records == pooled
        invariant Valid() && |Tail()| <= |w|
        invariant fit ==> records == old(records) && AllFit(Tail(), cap) && UntilEnd(Tail()) == UntilEnd(w)
        decreases |Tail()|
      {
        ghost var t := Tail();
        if fit {
          EndIs(t, cap);
        }
        var kind, from, edge;
        ghost var received;
        ok, kind, from, edge, received := RecvRecord();
        if !ok || kind == END_REQUEST {
          return;
        }
        if kind != STDERR {
          return false;
        }
      }
    }

    // ----- Where the data goes -----

    /** All that is received of the response from here on, however it is cut into reads. */
    ghost function Due(): Stream
      requires Valid()
      reads this, records, socket
    {
      Stdout(Tail()).Prepend(Pending())
    }

    ghost predicate Fits()
      reads this, records, socket
    {
      Valid() && AllFit(Tail(), records.Length)
    }

    /** growHead: some more stdout data for the head input, which grows up to 16K. */
    method GrowHead() returns (ok: bool)
      requires Fits() && immeFrom == immeEdge == 0
      modifies this, records, pooled, input, socket
      ensures records == old(records) && (input == old(input) || fresh(input))
      ensures ok == (old(inputEdge) < K16 && (old(stdoutFrom < stdoutEdge) || NextStdout(old(Tail())).Data?))
      ensures ok ==> Fits() && immeFrom == immeEdge == 0 && old(Taken()) < Taken()
      ensures ok ==> old(Due()) == Due().Prepend(Taken()[|old(Taken())|..])
    {
      hide AllFit, NextStdout, Stdout;
      ghost var stream, taken := Due(), Taken();
      if inputEdge == input.Length {
        if input.Length == K16 {
          return false;
        }
        EnlargeInput();
      }
      assert Due() == stream;
      ok := FetchPending();
      if !ok {
        return;
      }
      ghost var pending, later := Pending(), Stdout(Tail());
      TakePending();
      PrependTwice(later, Taken()[|taken|..], Pending());
    }

    /** Makes sure that there is pending data. */
    method FetchPending() returns (ok: bool)
      requires Fits()
      modifies this`stdoutFrom, this`stdoutEdge, this`records, this`recordsFrom, this`recordsEdge, records, pooled,
        socket
      ensures records == old(records)
      ensures ok ==> Fits() && stdoutFrom < stdoutEdge && Due() == old(Due())
      ensures ok == (old(stdoutFrom < stdoutEdge) || NextStdout(old(Tail())).Data?)
    {
      hide AllFit, NextStdout, Stdout;
      ok := true;
      if stdoutFrom == stdoutEdge {
        NothingPending(records[..], stdoutFrom, Tail());
        StdoutIs(Tail());
        var from, edge;
        ok, from, edge := RecvStdout();
        if !ok || from == edge {
          return false;
        }
        stdoutFrom, stdoutEdge := from, edge;
      }
    }

    method EnlargeInput()
      requires Valid() && inputEdge == input.Length < K16
      modifies this`input
      ensures Valid() && fresh(input) && input.Length > old(input.Length) && Taken() == old(Taken())
    {
      hide Pasted;
      var larger := new byte[if input.Length == STOCK_INPUT then K4 else K16](_ => 0);
      ghost var blank, was := larger[..], input[..];
      CopyBetween(larger, 0, input, 0, input.Length);
      assert input[0..input.Length] == was;
      PastedSlice(blank, 0, was, 0, inputEdge);
      assert larger[..][0..inputEdge] == larger[..][..inputEdge];
      input := larger;
    }

    /** Copies as much of the pending data as the input has room for. */
    method TakePending()
      requires Valid() && immeFrom == immeEdge == 0 && stdoutFrom < stdoutEdge && inputEdge < input.Length
      modifies this`inputEdge, this`stdoutFrom, this`stdoutEdge, input
      ensures Valid() && old(Taken()) < Taken() && Tail() == old(Tail())
      ensures Taken()[|old(Taken())|..] + Pending() == old(Pending())
    {
      hide Pasted;
      var room := input.Length - inputEdge;
      var size := if room < stdoutEdge - stdoutFrom then room else stdoutEdge - stdoutFrom;
      ghost var was, data, edge := input[..], records[..][stdoutFrom..stdoutFrom + size], inputEdge;
      assert records[stdoutFrom..stdoutFrom + size] == data;
      ghost var pending := Pending();
      PendingSplit(records[..], stdoutFrom, stdoutFrom + size, stdoutEdge);
      CopyBetween(input, inputEdge, records, stdoutFrom, stdoutFrom + size);
      PastedBehind(was, edge, data, 0);
      assert was[0..edge] == was[..edge];
      inputEdge := inputEdge + size;
      assert input[..][..inputEdge] == input[..][0..inputEdge] == was[..edge] + data;
      if size == stdoutEdge - stdoutFrom {
        stdoutFrom, stdoutEdge := 0, 0;
      } else {
        stdoutFrom := stdoutFrom + size;
      }
    }

    /** readContent: what came with the head, what is pending, or the next stdout data. */
    method ReadContent() returns (data: seq<byte>, end: bool, ok: bool)
      requires Fits()
      modifies this`immeFrom, this`immeEdge, this`stdoutFrom, this`stdoutEdge, this`records, this`recordsFrom,
        this`recordsEdge
      modifies records, pooled, socket
      ensures records == old(records)
      ensures ok && !end ==> Fits() && data != []
      ensures ok && !end ==> old(Due().Prepend(Imme())) == Due().Prepend(Imme()).Prepend(data)
      ensures ok && !end ==> |Imme()| + |Pending()| + |Tail()| < old(|Imme()| + |Pending()| + |Tail()|)
      ensures ok && end ==> Valid() && data == [] && old(Due().Prepend(Imme())) == Stream([], Tail())
      ensures !ok ==> old(Due().Prepend(Imme())).Broken?
    {
      hide AllFit, NextStdout, Stdout;
      ok, end := true, false;
      ghost var due := Due();
      if immeFrom < immeEdge {
        data := input[immeFrom..immeEdge];
        immeFrom, immeEdge := 0, 0;
        PrependNothing(due);
        assert Imme() == [];
        return;
      }
      assert Imme() == [];
      PrependNothing(due);
      if stdoutFrom != stdoutEdge {
        data := records[stdoutFrom..stdoutEdge];
        assert data == Pending();
        stdoutFrom, stdoutEdge := 0, 0;
        assert Pending() == [];
        PrependNothing(Stdout(Tail()));
        PrependNothing(Due());
        return;
      }
      NothingPending(records[..], stdoutFrom, Tail());
      StdoutIs(Tail());
      var from, edge;
      ok, from, edge := RecvStdout();
      if ok {
        end := from == edge;
        data := if from == edge then [] else records[from..edge];
        assert from < edge ==> data == records[..][from..edge];
        NothingPending(records[..], stdoutFrom, Tail());
        PrependNothing(Due());
      } else {
        data := [];
      }
    }

    ghost function Imme(): seq<byte>
      requires Valid()
      reads this, input
    {
      input[immeFrom..immeEdge]
    }

    /** A whole response: the head parser asks for data some times and stops somewhere in the head input;
        the content is read to its end. Together they are exactly the stdout data, in order. */
    method Receive(grows: nat) returns (head: seq<byte>, content: seq<byte>, headOk: bool, ok: bool)
      requires Fits() && Pending() == [] && inputEdge == immeFrom == immeEdge == 0
      modifies this, records, pooled, input, socket
      ensures !headOk ==> !ok && (|head| == K16 || Stdout(old(Tail())).Broken? || Stdout(old(Tail())).content == head)
      ensures headOk ==> ok == Stdout(old(Tail())).Stream?
      ensures ok ==> headOk && Valid() && Stdout(old(Tail())) == Stream(head + content, Tail())
    {
      hide AllFit, NextStdout, Stdout;
      ghost var all := Stdout(Tail());
      head, content := [], [];
      PrependNothing(all);
      assert Taken() == [];
      for i := 0 to grows
        invariant records == old(records) && (input == old(input) || fresh(input))
        invariant Fits() && immeFrom == immeEdge == 0 && all == Due().Prepend(Taken())
      {
        ghost var taken := Taken();
        head := input[..inputEdge];
        assert head == taken;
        AllTaken(records[..], stdoutFrom, stdoutEdge, Tail(), head);
        ok := GrowHead();
        if !ok {
          return head, content, false, false;
        }
        TakenMore(Due(), taken, Taken());
      }
      headOk := true;
      var fore :| 0 <= fore <= inputEdge;
      head := input[..fore];
      immeFrom, immeEdge := fore, inputEdge;
      HeadSplit(Due(), input[..], fore, inputEdge);
      assert head == input[..][..fore] && Imme() == input[..][fore..inputEdge];
      content, ok := ReadContents(head, all);
    }

    method ReadContents(ghost head: seq<byte>, ghost all: Stream) returns (content: seq<byte>, ok: bool)
      requires Fits() && all == Due().Prepend(Imme()).Prepend(head)
      modifies this`immeFrom, this`immeEdge, this`stdoutFrom, this`stdoutEdge, this`records, this`recordsFrom,
        this`recordsEdge
      modifies records, pooled, socket
      ensures ok == all.Stream?
      ensures ok ==> Valid() && all == Stream(head + content, Tail())
    {
      hide AllFit, NextStdout, Stdout;
      content := [];
      assert head + [] == head;
      while true
        invariant records == old(records)
        invariant Fits() && all == Due().Prepend(Imme()).Prepend(head + content)
        decreases |Imme()| + |Pending()| + |Tail()|
      {
        var data, end;
        data, end, ok := ReadContent();
        if !ok || end {
          return;
        }
        PrependThrice(Due().Prepend(Imme()), head, content, data);
        content := content + data;
      }
    }
  }

  /** What the next record means for the stdout stream. */
  lemma NextIs(t: seq<byte>, cap: nat)
    requires AllFit(t, cap)
    ensures |t| >= HEADER ==> RecordSize(t) <= cap
    ensures ParseRecord(t).Short? ==> NextStdout(t) == Failed
    ensures ParseRecord(t).Record? ==>
      var r, rest := ParseRecord(t), t[ParseRecord(t).size..];
      && (r.kind != END_REQUEST ==> AllFit(rest, cap))
      && (r.kind == STDOUT && r.payload != [] ==> NextStdout(t) == Data(r.payload, rest))
      && (r.kind == STDOUT && r.payload == [] ==> NextStdout(t) == UntilEnd(rest))
      && (r.kind == STDERR ==> NextStdout(t) == NextStdout(rest))
      && (r.kind == END_REQUEST ==> NextStdout(t) == End(rest))
      && (r.kind != STDOUT && r.kind != STDERR && r.kind != END_REQUEST ==> NextStdout(t) == Failed)
  {
    hide UntilEnd;
  }

  lemma EndIs(t: seq<byte>, cap: nat)
    requires AllFit(t, cap)
    ensures |t| >= HEADER ==> RecordSize(t) <= cap
    ensures ParseRecord(t).Short? ==> UntilEnd(t) == Failed
    ensures ParseRecord(t).Record? ==>
      var r, rest := ParseRecord(t), t[ParseRecord(t).size..];
      && (r.kind != END_REQUEST ==> AllFit(rest, cap))
      && (r.kind == STDERR ==> UntilEnd(t) == UntilEnd(rest))
      && (r.kind == END_REQUEST ==> UntilEnd(t) == End(rest))
      && (r.kind != STDERR && r.kind != END_REQUEST ==> UntilEnd(t) == Failed)
  {
  }

  lemma HandedIs(w: seq<byte>, pool: seq<byte>, received: nat, slid: bool)
    requires HEADER <= received <= |w| && received <= |pool| && RecordSize(w) <= |w|
    ensures ParseRecord(w) == Record(w[1], w[HEADER..HEADER + PayloadSize(w)], RecordSize(w))
    ensures
      var v := ReadFrom(w, pool, received, slid);
      && |v| == |w| && (received <= RecordSize(w) ==> v[RecordSize(w)..] == w[RecordSize(w)..])
      && Handed(w, pool, received, slid) == Record(v[1], v[HEADER..HEADER + PayloadSize(w)], RecordSize(w))
  {
  }

  lemma ParsedIs(w: seq<byte>)
    ensures |w| < HEADER || |w| < RecordSize(w) ==> ParseRecord(w).Short?
    ensures |w| >= HEADER && |w| >= RecordSize(w) ==>
      ParseRecord(w) == Record(w[1], w[HEADER..HEADER + PayloadSize(w)], RecordSize(w))
  {
  }

  lemma StdoutIs(t: seq<byte>)
    ensures
      match NextStdout(t)
      case Failed => Stdout(t) == Broken
      case End(rest) => Stdout(t) == Stream([], rest)
      case Data(payload, rest) => Stdout(t) == Stdout(rest).Prepend(payload)
  {
    hide NextStdout;
  }

  lemma PrependTwice(s: Stream, a: seq<byte>, b: seq<byte>)
    ensures s.Prepend(b).Prepend(a) == s.Prepend(a + b)
  {
    if s.Stream? {
      assert a + (b + s.content) == (a + b) + s.content;
    }
  }

  lemma PrependThrice(s: Stream, a: seq<byte>, b: seq<byte>, c: seq<byte>)
    ensures s.Prepend(c).Prepend(a + b) == s.Prepend(a + (b + c))
  {
    assert a + b + c == a + (b + c);
    PrependTwice(s, a + b, c);
  }

  lemma TakenMore(s: Stream, taken: seq<byte>, now: seq<byte>)
    requires taken <= now
    ensures s.Prepend(now[|taken|..]).Prepend(taken) == s.Prepend(now)
  {
    assert taken + now[|taken|..] == now;
    PrependTwice(s, taken, now[|taken|..]);
  }

  lemma HeadSplit(s: Stream, input: seq<byte>, fore: nat, edge: nat)
    requires fore <= edge <= |input|
    ensures s.Prepend(input[fore..edge]).Prepend(input[..fore]) == s.Prepend(input[..edge])
  {
    assert input[..fore] + input[fore..edge] == input[..edge];
    PrependTwice(s, input[..fore], input[fore..edge]);
  }

  lemma PrependNothing(s: Stream)
    ensures s.Prepend([]) == s
  {
    if s.Stream? {
      assert [] + s.content == s.content;
    }
  }

  lemma NothingPending(s: seq<byte>, k: nat, t: seq<byte>)
    requires k <= |s|
    ensures s[k..k] == [] && Stdout(t).Prepend(s[k..k]) == Stdout(t)
  {
    hide Stdout;
    PrependNothing(Stdout(t));
  }

  /** When nothing is pending and no more data comes, everything has been taken. */
  lemma AllTaken(s: seq<byte>, from: nat, edge: nat, t: seq<byte>, taken: seq<byte>)
    requires from <= edge <= |s|
    ensures from == edge && !NextStdout(t).Data? ==>
      var all := Stdout(t).Prepend(s[from..edge]).Prepend(taken);
      all.Broken? || all.content == taken
  {
    hide NextStdout, Stdout;
    StdoutIs(t);
    NothingPending(s, from, t);
    assert taken + [] == taken;
  }

  lemma PendingSplit(s: seq<byte>, from: nat, mid: nat, edge: nat)
    requires from <= mid <= edge <= |s|
    ensures s[from..mid] + s[mid..edge] == s[from..edge] && s[0..0] == []
    ensures mid == edge ==> s[from..mid] + s[0..0] == s[from..edge]
  {
  }

  lemma HeaderBytes(s: seq<byte>, from: nat, edge: nat, unread: seq<byte>)
    requires from + HEADER <= edge <= |s|
    ensures
      var w := s[from..edge] + unread;
      && |w| >= HEADER && PayloadSize(w) == 0x100 * (s[from + 4] as int) + s[from + 5] as int
      && RecordSize(w) == HEADER + PayloadSize(w) + s[from + 6]
  {
  }

  lemma RecordThere(s: seq<byte>, from: nat, edge: nat, unread: seq<byte>, payloadLen: nat, size: nat, rest: seq<byte>)
    requires from <= edge <= |s| && HEADER + payloadLen <= size <= edge - from &&
      (s[from..edge] + unread)[size..] == rest
    ensures
      var w := s[from..edge] + unread;
      w[1] == s[from + 1] && w[HEADER..HEADER + payloadLen] == s[from + HEADER..from + HEADER + payloadLen]
    ensures s[from + size..edge] + unread == rest
    ensures from + size == edge ==> s[0..0] + unread == rest
  {
  }

  lemma MovedToStart(to: seq<byte>, s: seq<byte>, from: nat, edge: nat)
    requires from <= edge <= |s| && edge - from <= |to|
    ensures Pasted(to, 0, s[from..edge])[0..edge - from] == s[from..edge]
  {
    PastedSlice(to, 0, s[from..edge], 0, edge - from);
  }

  // ----- Sent and received -----

  /** A record as an application server sends it. */
  datatype Sent = Sent(kind: byte, id: uint16, payload: seq<byte>, padding: seq<byte>) {
    predicate Legal() {
      |payload| <= 0xffff && |padding| <= 0xff
    }

    function Text(): seq<byte>
      requires Legal()
    {
      [1, kind, id / 0x100, id % 0x100, |payload| / 0x100, |payload| % 0x100, |padding|, 0] + payload + padding
    }
  }

  predicate AllLegal(sent: seq<Sent>) {
    forall k | 0 <= k < |sent| :: sent[k].Legal()
  }

  function Texts(sent: seq<Sent>): seq<byte>
    requires AllLegal(sent)
  {
    if sent == [] then [] else sent[0].Text() + Texts(sent[1..])
  }

  /** The stdout payloads, in order. */
  function Payloads(sent: seq<Sent>): seq<byte> {
    if sent == [] then [] else (if sent[0].kind == STDOUT then sent[0].payload else []) + Payloads(sent[1..])
  }

  lemma SentParsed(r: Sent, rest: seq<byte>)
    requires r.Legal()
    ensures
      var n := HEADER + |r.payload| + |r.padding|;
      && RecordSize(r.Text() + rest) == n && ParseRecord(r.Text() + rest) == Record(r.kind, r.payload, n)
      && (r.Text() + rest)[n..] == rest
  {
    var w := r.Text() + rest;
    assert w[4] == |r.payload| / 0x100 && w[5] == |r.payload| % 0x100 && w[6] == |r.padding|;
    assert PayloadSize(w) == |r.payload|;
    assert w[HEADER..HEADER + |r.payload|] == r.payload;
  }

  /** The records of a response: stdout and stderr in any order, an empty stdout, more stderr, and the end. */
  predicate IsResponse(out: seq<Sent>, close: Sent, errors: seq<Sent>, end: Sent) {
    && AllLegal(out) && close.Legal() && AllLegal(errors) && end.Legal()
    && (forall k | 0 <= k < |out| :: (out[k].kind == STDOUT && out[k].payload != []) || out[k].kind == STDERR)
    && close.kind == STDOUT && close.payload == []
    && (forall k | 0 <= k < |errors| :: errors[k].kind == STDERR)
    && end.kind == END_REQUEST
  }

  lemma {:induction false} ErrorsSkipped(errors: seq<Sent>, end: Sent, rest: seq<byte>)
    requires AllLegal(errors) && end.Legal() && end.kind == END_REQUEST
    requires forall k | 0 <= k < |errors| :: errors[k].kind == STDERR
    ensures UntilEnd(Texts(errors) + (end.Text() + rest)) == End(rest)
    decreases |errors|
  {
    hide ParseRecord, Sent.Text;
    if errors == [] {
      assert Texts(errors) + (end.Text() + rest) == end.Text() + rest;
      SentParsed(end, rest);
    } else {
      var more := Texts(errors[1..]) + (end.Text() + rest);
      assert Texts(errors) + (end.Text() + rest) == errors[0].Text() + more;
      SentParsed(errors[0], more);
      ErrorsSkipped(errors[1..], end, rest);
    }
  }

  /** Whatever records a response is sent in, its stdout data is received in order, and stderr and padding
      are dropped. */
  lemma {:induction false} ResponseReceived(out: seq<Sent>, close: Sent, errors: seq<Sent>, end: Sent, rest: seq<byte>)
    requires IsResponse(out, close, errors, end)
    ensures Stdout(Texts(out) + (close.Text() + (Texts(errors) + (end.Text() + rest)))) == Stream(Payloads(out), rest)
    decreases |out|
  {
    hide ParseRecord, Sent.Text, UntilEnd;
    var tail := close.Text() + (Texts(errors) + (end.Text() + rest));
    if out == [] {
      assert Texts(out) + tail == tail;
      SentParsed(close, Texts(errors) + (end.Text() + rest));
      ErrorsSkipped(errors, end, rest);
    } else {
      var r, more := out[0], Texts(out[1..]) + tail;
      assert Texts(out) + tail == r.Text() + more;
      SentParsed(r, more);
      ResponseReceived(out[1..], close, errors, end, rest);
      if r.kind == STDERR {
        StderrSkipped(r, more);
        assert Payloads(out) == [] + Payloads(out[1..]) == Payloads(out[1..]);
      }
    }
  }

  predicate AllWithin(sent: seq<Sent>, cap: nat) {
    forall k | 0 <= k < |sent| :: HEADER + |sent[k].payload| + |sent[k].padding| <= cap
  }

  lemma {:induction false} TextsFit(sent: seq<Sent>, rest: seq<byte>, cap: nat)
    requires AllLegal(sent) && AllWithin(sent, cap) && AllFit(rest, cap)
    ensures AllFit(Texts(sent) + rest, cap)
    decreases |sent|
  {
    hide ParseRecord, Sent.Text, RecordSize;
    if sent == [] {
      assert Texts(sent) + rest == rest;
    } else {
      var more := Texts(sent[1..]) + rest;
      assert Texts(sent) + rest == sent[0].Text() + more;
      SentParsed(sent[0], more);
      TextsFit(sent[1..], rest, cap);
    }
  }

  /** A response of records that fit the stock buffer is received as its stdout data, whatever follows. */
  lemma SmallRecordsReceived(out: seq<Sent>, close: Sent, errors: seq<Sent>, end: Sent, rest: seq<byte>)
    requires IsResponse(out, close, errors, end)
    requires AllWithin(out + [close] + errors + [end], STOCK_RECORDS)
    ensures
      var w := Texts(out) + (close.Text() + (Texts(errors) + (end.Text() + rest)));
      AllFit(w, STOCK_RECORDS) && Stdout(w) == Stream(Payloads(out), rest)
  {
    var sent := out + [close] + errors + [end];
    var o, e := |out|, |out| + 1 + |errors|;
    assert forall k | 0 <= k < o :: out[k] == sent[k];
    assert close == sent[o] && end == sent[e];
    assert forall k | 0 <= k < |errors| :: errors[k] == sent[o + 1 + k];
    assert AllWithin(out, STOCK_RECORDS) && AllWithin(errors, STOCK_RECORDS);
    EndFits(end, rest, STOCK_RECORDS);
    hide AllFit, Sent.Text, Stdout;
    TextsFit(errors, end.Text() + rest, STOCK_RECORDS);
    var behind := Texts(errors) + (end.Text() + rest);
    TextsFit([close], behind, STOCK_RECORDS);
    assert Texts([close]) == close.Text() + Texts([]) == close.Text();
    TextsFit(out, close.Text() + behind, STOCK_RECORDS);
    ResponseReceived(out, close, errors, end, rest);
  }

  lemma EndFits(end: Sent, rest: seq<byte>, cap: nat)
    requires end.Legal() && end.kind == END_REQUEST && HEADER + |end.payload| + |end.padding| <= cap
    ensures AllFit(end.Text() + rest, cap)
  {
    SentParsed(end, rest);
  }

  lemma StderrSkipped(r: Sent, more: seq<byte>)
    requires r.Legal() && r.kind == STDERR
    ensures Stdout(r.Text() + more) == Stdout(more)
  {
    hide ParseRecord, Sent.Text, UntilEnd;
    SentParsed(r, more);
    assert NextStdout(r.Text() + more) == NextStdout(more);
    StdoutIs(more);
    StdoutIs(r.Text() + more);
  }

  // ----- A record that does not fit -----

  /** A record that is too large for the stock buffer is handed out as it is on the wire, whatever is in the
      larger one, if and only if there was something to slide out. */
  lemma LargeRecordIntact(w: seq<byte>, received: nat, slid: bool)
    requires HEADER <= received <= |w| && received <= STOCK_RECORDS < RecordSize(w) <= |w|
    ensures (forall pool: seq<byte> | |pool| == MAX_RECORDS :: Handed(w, pool, received, slid) == ParseRecord(w)) <==>
      slid
  {
    if !slid {
      var pool: seq<byte> := seq(MAX_RECORDS, _ => (w[1] as int + 1) % 0x100);
      assert Handed(w, pool, received, slid).kind == pool[1];
    }
  }

  /** With an unused larger buffer its kind is 0, which is no kind of record. */
  lemma NothingThere(w: seq<byte>, pool: seq<byte>, received: nat, slid: bool)
    requires |w| >= HEADER && HEADER <= received <= |w| && RecordSize(w) <= |w| && received <= STOCK_RECORDS < |pool|
    requires !slid && forall k | 0 <= k < |pool| :: pool[k] == 0
    ensures Handed(w, pool, received, slid).kind == 0
  {
    assert ReadFrom(w, pool, received, slid)[1] == pool[..received][1];
  }
}
