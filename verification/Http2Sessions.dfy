// Whole HTTP/2 sessions: the frames that are handed over, each with its continuations, are a partition of the
// wire, and what a peer sends frame by frame is what is handed over.

module Http2Sessions {
  import opened Bytes
  import opened Http2Frames
  import opened Http2Theorems

  /** A frame as it is sent, with the continuations of its field block if it has any. */
  datatype Group = Group(first: RawFrame, raws: seq<RawFrame>) {
    function Text(): seq<byte> {
      first.header + first.payload + Wire(raws)
    }

    /** The frame passes its own check. */
    ghost predicate Framed() {
      && |first.header| == 9 && DecodeHeader(first.header).Ok?
      && DecodeHeader(first.header).value.length == |first.payload|
      && Check(DecodeHeader(first.header).value, first.payload).Ok?
    }

    function Head(): Header
      requires Framed()
    {
      DecodeHeader(first.header).value
    }

    /** A field block that is not complete is completed, by at most four continuations, within the size limit. */
    ghost predicate Legal() {
      && Framed()
      && if Head().kind == FIELDS && !Head().endFields then
           && Block(raws, Head().streamID) && |raws| <= MAX_CONTINUATIONS
           && |first.payload| + |Payloads(raws)| <= MAX_FRAME_SIZE
         else raws == []
    }

    /** What is to be handed over. */
    function Delivered(): Frame
      requires Framed() && Legal()
    {
      var span := Check(Head(), first.payload).value;
      if raws == [] then Frame(Head(), first.payload[span.from..span.edge])
      else Frame(Head().(length := |first.payload| + |Payloads(raws)|, endFields := true),
        first.payload[span.from..span.edge] + Payloads(raws))
    }

    function SectionAt(fore: nat): Section {
      Place(Place(fore, 9).fore, |first.payload|)
    }

    /** Received at this position of the buffer, it needs no second slide. */
    predicate Fits(fore: nat) {
      var s := SectionAt(fore);
      s.back <= s.fore && !SlidesTwice(s.back, s.fore, s.fore, raws)
    }

    /** The position of the buffer behind it. */
    function After(fore: nat): nat {
      var s := SectionAt(fore);
      if s.back <= s.fore then ContinuationsEnd(s.back, s.fore, s.fore, raws) else 0
    }
  }

  function Texts(groups: seq<Group>): seq<byte> {
    if groups == [] then [] else groups[0].Text() + Texts(groups[1..])
  }

  /** Legal frames, and none that ends the session. */
  ghost predicate AllLegal(groups: seq<Group>) {
    forall k | 0 <= k < |groups| :: groups[k].Legal() && groups[k].Head().kind != GOAWAY
  }

  ghost function DeliveredAll(groups: seq<Group>): (frames: seq<Frame>)
    requires AllLegal(groups)
    ensures |frames| == |groups|
  {
    if groups == [] then [] else [groups[0].Delivered()] + DeliveredAll(groups[1..])
  }

  predicate AllFit(groups: seq<Group>, fore: nat) {
    groups == [] || (groups[0].Fits(fore) && AllFit(groups[1..], groups[0].After(fore)))
  }

  function AfterAll(groups: seq<Group>, fore: nat): nat {
    if groups == [] then fore else AfterAll(groups[1..], groups[0].After(fore))
  }

  // ----- One frame -----

  /** A legal frame with its continuations is handed over as what it is, or refused, exactly if it needs a
      second slide. */
  lemma GroupReceived(g: Group, rest: seq<byte>, fore: nat, count: nat, acknowledged: bool)
    requires g.Legal() && (count == 9 ==> acknowledged)
    ensures
      Receive(g.Text() + rest, fore, count, acknowledged) ==
        if g.Fits(fore) then Got(g.Delivered(), rest, g.After(fore)) else Failed(FrameSizeError)
  {
    hide Check, Coalesce, DecodeHeader, Block, Payloads, SlidesTwice, ContinuationsEnd;
    FetchedGroup(g, rest, fore);
    SpanInside(g.Head(), g.first.payload);
    var span := Check(g.Head(), g.first.payload).value;
    var effective, s := g.first.payload[span.from..span.edge], g.SectionAt(fore);
    if g.Head().kind == FIELDS && !g.Head().endFields {
      var p := Progress(g.Head(), effective, s.back, s.fore, s.fore, Wire(g.raws) + rest);
      CoalesceComplete(p, 0, g.raws, rest);
      NotNone(g.raws, g.Head().streamID);
    } else {
      NoneFits(s, rest);
    }
  }

  lemma SpanInside(h: Header, payload: seq<byte>)
    requires |payload| == h.length && Check(h, payload).Ok?
    ensures var span := Check(h, payload).value; span.from <= span.edge <= |payload|
  {
  }

  lemma FetchedGroup(g: Group, rest: seq<byte>, fore: nat)
    requires g.Legal()
    ensures
      Fetch(g.Text() + rest, fore) == Ok(Arrival(g.Head(), g.first.payload, g.SectionAt(fore), Wire(g.raws) + rest))
  {
    hide Check, DecodeHeader, Wire, Block;
    var wire, n := g.Text() + rest, |g.first.payload|;
    assert wire[..9] == g.first.header && wire[9..9 + n] == g.first.payload && wire[9 + n..] == Wire(g.raws) + rest;
  }

  lemma NotNone(raws: seq<RawFrame>, streamID: nat)
    requires Block(raws, streamID)
    ensures raws != []
  {
  }

  lemma NoneFits(s: Section, rest: seq<byte>)
    requires s.back <= s.fore
    ensures !SlidesTwice(s.back, s.fore, s.fore, []) && ContinuationsEnd(s.back, s.fore, s.fore, []) == s.fore
    ensures Wire([]) + rest == rest
  {
  }

  /** Whatever is handed over was on the wire as such a frame. */
  lemma GroupSound(wire: seq<byte>, fore: nat, count: nat, acknowledged: bool) returns (g: Group)
    requires Receive(wire, fore, count, acknowledged).Got?
    ensures
      var got := Receive(wire, fore, count, acknowledged);
      g.Legal() && wire == g.Text() + got.rest && got.frame == g.Delivered() &&
        g.Head() == DecodeHeader(wire[..9]).value
    ensures count == 9 ==> acknowledged
  {
    hide Check, Coalesce, DecodeHeader, Block, Payloads;
    var a := Fetch(wire, fore).value;
    var first, got := RawFrame(wire[..9], a.payload), Receive(wire, fore, count, acknowledged);
    SpanInside(a.head, a.payload);
    var span := Check(a.head, a.payload).value;
    if a.head.kind == FIELDS && !a.head.endFields {
      var p := Progress(a.head, a.payload[span.from..span.edge], a.section.back, a.section.fore, a.section.fore,
        a.rest);
      var raws := CoalesceSound(p, 0);
      g := Group(first, raws);
      NotNone(raws, a.head.streamID);
      Regroup(first.header + first.payload, Wire(raws), got.rest);
    } else {
      g := Group(first, []);
      NoneFits(Section(0, 0), got.rest);
      assert first.header + first.payload + [] == first.header + first.payload;
    }
    assert wire == wire[..9] + a.payload + a.rest;
  }

  // ----- Whole sessions -----

  /** The frames of a session and what is left partition the wire: each frame has a stretch of its own, which is
      a legal frame with its continuations and stands for it; a session that ends in good order ends with GOAWAY. */
  lemma {:induction false} SessionPartition(wire: seq<byte>, fore: nat, count: nat, acknowledged: bool)
    returns (groups: seq<Group>, left: seq<byte>, last: Group)
    ensures
      var session := ReceiveAll(wire, fore, count, acknowledged);
      && AllLegal(groups) && session.frames == DeliveredAll(groups) && wire == Texts(groups) + left
      && (session.end.Goaway? ==> last.Legal() && last.Head().kind == GOAWAY && last.Text() <= left)
    decreases |wire|
  {
    hide Receive, Group.Legal, Group.Framed, Group.Text, Group.Delivered;
    var r := Receive(wire, fore, count, acknowledged);
    groups, left, last := [], wire, Group(RawFrame([], []), []);
    if r.Got? {
      var g := GroupSound(wire, fore, count, acknowledged);
      LegalIsFramed(g);
      DeliveredKind(g);
      if r.frame.header.kind == GOAWAY {
        last := g;
      } else {
        groups, left, last := SessionPartition(r.rest, r.fore, count + 1, acknowledged);
        Regroup(g.Text(), Texts(groups), left);
        LegalMore(g, groups);
        groups := [g] + groups;
      }
    }
  }

  lemma LegalIsFramed(g: Group)
    requires g.Legal()
    ensures g.Framed()
  {
  }

  lemma DeliveredKind(g: Group)
    requires g.Legal()
    ensures g.Delivered().header.kind == g.Head().kind
  {
  }

  lemma LegalMore(g: Group, groups: seq<Group>)
    requires g.Legal() && g.Head().kind != GOAWAY && AllLegal(groups)
    ensures AllLegal([g] + groups) && DeliveredAll([g] + groups) == [g.Delivered()] + DeliveredAll(groups)
    ensures Texts([g] + groups) == g.Text() + Texts(groups)
  {
    hide Group.Legal, Group.Delivered, Group.Text;
    assert ([g] + groups)[1..] == groups;
  }

  /** Legal frames that are sent one behind the other, each with its continuations, are handed over as exactly
      these, if none needs a second slide; then what follows is received. */
  lemma {:induction false} SessionReceived(groups: seq<Group>, rest: seq<byte>, fore: nat, count: nat,
    acknowledged: bool)
    requires AllLegal(groups) && AllFit(groups, fore) && (count <= 9 < count + |groups| ==> acknowledged)
    ensures
      ReceiveAll(Texts(groups) + rest, fore, count, acknowledged) ==
        ReceiveAll(rest, AfterAll(groups, fore), count + |groups|, acknowledged).Prepend(DeliveredAll(groups))
    decreases |groups|
  {
    hide Receive, Group.Legal, Group.Framed, Group.Text, Group.Delivered, Group.Fits, Group.After;
    if groups == [] {
      assert [] + rest == rest;
      NothingYet(ReceiveAll(rest, fore, count, acknowledged));
    } else {
      var g, later := groups[0], groups[1..];
      LegalIsFramed(g);
      DeliveredKind(g);
      assert forall k | 0 <= k < |later| :: later[k] == groups[k + 1];
      Regroup(g.Text(), Texts(later), rest);
      GroupReceived(g, Texts(later) + rest, fore, count, acknowledged);
      SessionReceived(later, rest, g.After(fore), count + 1, acknowledged);
      PrependBehind(ReceiveAll(rest, AfterAll(groups, fore), count + |groups|, acknowledged), g.Delivered(),
        DeliveredAll(later));
    }
  }

  lemma PrependBehind(s: Session, frame: Frame, frames: seq<Frame>)
    ensures Session([frame] + s.Prepend(frames).frames, s.end) == s.Prepend([frame] + frames)
  {
    assert [frame] + (frames + s.frames) == ([frame] + frames) + s.frames;
  }

  /** The first legal frame that needs a second slide ends the session, behind all those before it. */
  lemma SessionRefused(groups: seq<Group>, g: Group, rest: seq<byte>, fore: nat, count: nat, acknowledged: bool)
    requires AllLegal(groups) && AllFit(groups, fore) && (count <= 9 <= count + |groups| ==> acknowledged)
    requires g.Legal() && !g.Fits(AfterAll(groups, fore))
    ensures
      ReceiveAll(Texts(groups) + (g.Text() + rest), fore, count, acknowledged) ==
        Session(DeliveredAll(groups), Broken(FrameSizeError))
  {
    hide Receive, ReceiveAll, Group.Legal, Group.Text, Group.Fits, Group.After, AllFit, AllLegal, AfterAll, Texts,
      DeliveredAll;
    SessionReceived(groups, g.Text() + rest, fore, count, acknowledged);
    GroupReceived(g, rest, AfterAll(groups, fore), count + |groups|, acknowledged);
    NoMoreFrames(g.Text() + rest, AfterAll(groups, fore), count + |groups|, acknowledged);
    assert DeliveredAll(groups) + [] == DeliveredAll(groups);
  }

  lemma NoMoreFrames(wire: seq<byte>, fore: nat, count: nat, acknowledged: bool)
    ensures
      var r := Receive(wire, fore, count, acknowledged);
      r.Failed? ==> ReceiveAll(wire, fore, count, acknowledged) == Session([], Broken(r.error))
  {
    hide Receive;
  }

  /** A server receives what a client sends behind its preface. */
  lemma ServerSessionReceived(groups: seq<Group>, rest: seq<byte>, acknowledged: bool)
    requires AllLegal(groups) && AllFit(groups, 24) && (|groups| >= 10 ==> acknowledged)
    ensures
      ReceiveAsServer(PRISM + (Texts(groups) + rest), acknowledged) ==
        ReceiveAll(rest, AfterAll(groups, 24), |groups|, acknowledged).Prepend(DeliveredAll(groups))
  {
    hide ReceiveAll, AllLegal, AllFit;
    BehindPreface(Texts(groups) + rest, acknowledged);
    SessionReceived(groups, rest, 24, 0, acknowledged);
  }
}
