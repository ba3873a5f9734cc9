/**
 Whole TCP sessions, byte for byte: segments encoded by a peer, from tcp_connect to the end of the connection, and what
 the connection sends back.
 */
module TcpSession {
  import opened Checksum
  import opened Wrappers
  import opened Tcp

  /** A segment as the peer sends it, with the header fields that tcp_handle does not look at. */
  datatype Sending = Sending(s: Segment, psh: bool, window: Half, sum: Half)

  /** Its arrival, from the remote address and port of the connection. */
  function OnWire(c: Tcb, x: Sending): Event {
    Arrive(c.remoteIp, Encode(c.remotePort, c.localPort, x.s, x.psh, x.window, x.sum))
  }

  function OnWires(c: Tcb, xs: seq<Sending>): (es: seq<Event>)
    ensures |es| == |xs| && forall i :: 0 <= i < |xs| ==> es[i] == OnWire(c, xs[i])
  {
    seq(|xs|, i requires 0 <= i < |xs| => OnWire(c, xs[i]))
  }

  function Segments(xs: seq<Sending>): (segs: seq<Segment>)
    ensures |segs| == |xs| && forall i :: 0 <= i < |xs| ==> segs[i] == xs[i].s
  {
    seq(|xs|, i requires 0 <= i < |xs| => xs[i].s)
  }

  lemma Arrival(c: Tcb, c1: Tcb, x: Sending)
    requires c1.remoteIp == c.remoteIp && c1.localPort == c.localPort
    ensures Step(c1, OnWire(c, x)) == Handle(c1, x.s)
  {
    EncodedParsed(c1, c.remoteIp, c.remotePort, c.localPort, x.s, x.psh, x.window, x.sum);
    hide Encode;
    hide Parse;
    hide Handle;
  }

  lemma {:induction false} RunAppend(c: Tcb, es: seq<Event>, e: Event)
    ensures RunFrom(c, es + [e]) == Step(RunFrom(c, es), e)
    decreases |es|
  {
    hide Step;
    if es == [] {
      var one := [e];
      assert es + [e] == one && one[1..] == [];
    } else {
      RunAppend(Step(c, es[0]), es[1..], e);
      assert (es + [e])[1..] == es[1..] + [e];
    }
  }

  lemma {:induction false} RunAddress(c: Tcb, es: seq<Event>)
    ensures RunFrom(c, es).remoteIp == c.remoteIp && RunFrom(c, es).localPort == c.localPort
    decreases |es|
  {
    hide Step;
    if es != [] {
      StepAddress(c, es[0]);
      RunAddress(Step(c, es[0]), es[1..]);
    }
  }

  /** A run over bytes is a run over the segments they encode. */
  lemma {:induction false} BytesHandled(c: Tcb, xs: seq<Sending>)
    ensures RunFrom(c, OnWires(c, xs)) == HandleAll(c, Segments(xs))
    decreases |xs|
  {
    hide Handle;
    hide Step;
    hide OnWire;
    if xs == [] {
      assert OnWires(c, xs) == [];
    } else {
      var n := |xs| - 1;
      var es := OnWires(c, xs[..n]);
      BytesHandled(c, xs[..n]);
      assert OnWires(c, xs) == es + [OnWire(c, xs[n])];
      assert Segments(xs)[..n] == Segments(xs[..n]);
      RunAppend(c, es, OnWire(c, xs[n]));
      RunAddress(c, es);
      Arrival(c, RunFrom(c, es), xs[n]);
    }
  }

  /** A SYN that acknowledges ours, with the peer's first number. */
  predicate Opens(x: Sending, irs: Word) { x.s.syn && x.s.ack && !x.s.rst && x.s.seqNo == irs }

  /** A connection that has sent its SYN is established by exactly the segments that are a SYN and acknowledge, is
      closed by a reset, and takes no notice of anything else; a reset closes it in every other state as well. */
  lemma OpenExact(c: Tcb, x: Sending)
    ensures var r := RunFrom(c, [OnWire(c, x)]);
            && (x.s.rst ==> r == c.(state := Closed))
            && (c.state == SynSent && !x.s.rst ==> (r.state == Established <==> Opens(x, x.s.seqNo)))
            && (c.state == SynSent && !x.s.rst && !Opens(x, x.s.seqNo) ==> r == c)
            && (c.state == Closed ==> r == c)
  {
    hide Plus;
    Arrival(c, c, x);
    hide OnWire;
    assert [OnWire(c, x)][1..] == [];
    assert RunFrom(c, [OnWire(c, x)]) == Step(c, OnWire(c, x));
  }

  predicate AllPieces(xs: seq<Sending>, ks: seq<nat>, pieces: seq<seq<Byte>>, irs: Word) {
    && |xs| == |ks| && (forall i :: 0 <= i < |ks| ==> IsPiece(xs[i].s, pieces, irs, ks[i]))
    && |Concat(pieces, |pieces|)| < WRAP && forall i :: 0 <= i < |pieces| ==> pieces[i] != []
  }

  lemma Opened(c: Tcb, x: Sending, irs: Word)
    requires c.state == SynSent && c.delivered == [] && Opens(x, irs)
    ensures var r := RunFrom(c, [OnWire(c, x)]);
            && r.state == Established && r.delivered == [] && r.onData == c.onData && r.rcvNxt == Plus(irs, 1)
            && r.sndUna == x.s.ackNo && r.remoteIp == c.remoteIp && r.remotePort == c.remotePort
            && r.localPort == c.localPort
            && r.sent == c.sent + [Segment(c.sndNxt, Plus(irs, 1), false, false, false, true, [])]
  {
    hide Plus;
    hide OnWire;
    Arrival(c, c, x);
    assert [OnWire(c, x)][1..] == [];
    assert RunFrom(c, [OnWire(c, x)]) == Step(c, OnWire(c, x));
  }

  lemma {:induction false} RunSplit(c: Tcb, a: seq<Event>, b: seq<Event>)
    ensures RunFrom(c, a + b) == RunFrom(RunFrom(c, a), b)
    decreases |a|
  {
    hide Step;
    if a == [] {
      assert a + b == b;
    } else {
      RunSplit(Step(c, a[0]), a[1..], b);
      assert (a + b)[1..] == a[1..] + b;
    }
  }

  /** From tcp_connect on, over bytes: the peer's SYN|ACK establishes the connection, and when the pieces of a stream
      arrive in any order and any number of times, the application has been given exactly those reached in order; so it
      has the whole stream exactly when the pieces arrive in order somewhere among the arrivals. */
  lemma SessionDelivers(was: Tcb, dstIp: Word, dstPort: Half, ipId: Half, open: Sending, xs: seq<Sending>,
                        ks: seq<nat>, pieces: seq<seq<Byte>>, irs: Word)
    requires was.state == Closed && Opens(open, irs) && AllPieces(xs, ks, pieces, irs)
    ensures Reached(ks) <= |pieces|
    ensures var c := Connect(was, dstIp, dstPort, true, ipId);
            var r := RunFrom(c, OnWires(c, [open] + xs));
            && r.state == Established && r.delivered == Concat(pieces, Reached(ks))
            && r.rcvNxt == Plus(irs, 1 + |r.delivered|)
            && (r.delivered == Concat(pieces, |pieces|) <==> exists f :: InOrder(ks, f, |pieces|))
  {
    hide RunFrom;
    hide HandleAll;
    hide OnWires;
    hide InOrder;
    hide Concat;
    hide Reached;
    hide AllPieces;
    hide Plus;
    var c := Connect(was, dstIp, dstPort, true, ipId);
    var e := OpenThenRun(c, open, xs, irs);
    AllDelivered(e, xs, ks, pieces, irs);
  }

  lemma AllDelivered(e: Tcb, xs: seq<Sending>, ks: seq<nat>, pieces: seq<seq<Byte>>, irs: Word)
    requires e.state == Established && e.onData && e.delivered == [] && e.rcvNxt == Plus(irs, 1)
    requires AllPieces(xs, ks, pieces, irs)
    ensures Reached(ks) <= |pieces|
    ensures var r := HandleAll(e, Segments(xs));
            && r.state == Established && r.delivered == Concat(pieces, Reached(ks))
            && r.rcvNxt == Plus(irs, 1 + |r.delivered|)
            && (r.delivered == Concat(pieces, |pieces|) <==> exists f :: InOrder(ks, f, |pieces|))
  {
    hide HandleAll;
    hide IsPiece;
    hide InOrder;
    hide Concat;
    hide Reached;
    hide Plus;
    PiecesDelivered(e, Segments(xs), ks, pieces, irs);
    WholeStreamIff(e, Segments(xs), ks, pieces, irs);
  }

  lemma OpenThenRun(c: Tcb, open: Sending, xs: seq<Sending>, irs: Word) returns (e: Tcb)
    requires c.state == SynSent && c.delivered == [] && Opens(open, irs)
    ensures e.state == Established && e.delivered == [] && e.onData == c.onData && e.rcvNxt == Plus(irs, 1)
    ensures RunFrom(c, OnWires(c, [open] + xs)) == HandleAll(e, Segments(xs))
  {
    hide RunFrom;
    hide HandleAll;
    hide Plus;
    hide Encode;
    Opened(c, open, irs);
    var first := [OnWire(c, open)];
    e := RunFrom(c, first);
    assert OnWires(c, [open] + xs) == first + OnWires(e, xs);
    RunSplit(c, first, OnWires(e, xs));
    BytesHandled(e, xs);
  }

  // ---------------------------------------------------------------- the end of a session

  /** The peer closes first: its FIN is acknowledged, the application closes with a FIN of ours, and the peer's last
      acknowledgement closes the connection. */
  lemma PeerCloses(c: Tcb, fin: Sending, last: Sending)
    requires c.state == Established && c.onData && fin.s.fin && !fin.s.rst && fin.s.seqNo == c.rcvNxt
    requires last.s.ack && !last.s.rst
    ensures var r := RunFrom(c, [OnWire(c, fin), AppClose, OnWire(c, last)]);
            var done := Plus(fin.s.seqNo, |fin.s.data| + 1);
            && r.state == Closed && r.delivered == c.delivered + fin.s.data
            && |r.sent| > 1 && r.sent[|r.sent| - 1] == Segment(c.sndNxt, done, true, false, false, true, [])
            && r.sent[|r.sent| - 2] == Segment(c.sndNxt, done, false, false, false, true, [])
  {
    hide OnWire;
    hide RunFrom;
    hide Plus;
    var a := Handle(c, fin.s);
    ThreeSteps(c, fin, last, a, Close(a));
    FinTakes(c, fin.s);
    hide Handle;
    LastTakes(Close(a), last.s);
  }

  lemma FinTakes(c: Tcb, s: Segment)
    requires c.state == Established && c.onData && s.fin && !s.rst && s.seqNo == c.rcvNxt
    ensures var a := Handle(c, s);
            && a.state == CloseWait && a.delivered == c.delivered + s.data && a.sndNxt == c.sndNxt && |a.sent| > 0
            && a.rcvNxt == Plus(c.rcvNxt, |s.data| + 1)
            && a.sent[|a.sent| - 1] == Segment(c.sndNxt, a.rcvNxt, false, false, false, true, [])
  {
    hide Plus;
    PlusPlus(c.rcvNxt, |s.data|, 1);
  }

  lemma LastTakes(c: Tcb, s: Segment)
    requires c.state == LastAck && s.ack && !s.rst
    ensures Handle(c, s) == c.(state := Closed)
  {
    hide Plus;
  }

  lemma ThreeSteps(c: Tcb, x: Sending, y: Sending, a: Tcb, b: Tcb)
    requires a == Handle(c, x.s) && b == Close(a)
    ensures RunFrom(c, [OnWire(c, x), AppClose, OnWire(c, y)]) == Handle(b, y.s)
  {
    hide Handle;
    Arrival(c, c, x);
    assert Step(c, OnWire(c, x)) == a;
    StepAddress(c, OnWire(c, x));
    StepAddress(a, AppClose);
    Arrival(c, b, y);
    hide OnWire;
    var es := [OnWire(c, x), AppClose, OnWire(c, y)];
    assert es[1..] == [AppClose, OnWire(c, y)] && es[1..][1..] == [OnWire(c, y)] && es[1..][1..][1..] == [];
    assert RunFrom(b, [OnWire(c, y)]) == Handle(b, y.s);
    assert RunFrom(a, es[1..]) == RunFrom(b, [OnWire(c, y)]);
  }

  /** The number acknowledged by the peer is recorded as it comes. */
  lemma AckRecorded(c: Tcb, x: Sending)
    requires c.state == Established && !x.s.rst
    ensures RunFrom(c, [OnWire(c, x)]).sndUna == if x.s.ack then x.s.ackNo else c.sndUna
  {
    hide Plus;
    Arrival(c, c, x);
    hide OnWire;
    assert [OnWire(c, x)][1..] == [];
    assert RunFrom(c, [OnWire(c, x)]) == Step(c, OnWire(c, x));
  }

  /** The application closes first: the acknowledgement of our FIN and the peer's own FIN lead to TIME_WAIT, in two
      segments or in one. */
  lemma WeClose(c: Tcb, ack: Sending, fin: Sending)
    requires c.state == Established && !ack.s.rst && !fin.s.rst && ack.s.ack && !ack.s.fin && fin.s.fin
    ensures var f := Close(c);
            && f.sent == c.sent + [Segment(c.sndNxt, c.rcvNxt, true, false, false, true, [])]
            && Handle(f, ack.s).state == FinWait2 && Handle(Handle(f, ack.s), fin.s).state == TimeWait
            && Handle(f, fin.s).state == TimeWait && Handle(f, fin.s).rcvNxt == (c.rcvNxt + 1) % WRAP
            && Handle(Handle(f, ack.s), fin.s).rcvNxt == (c.rcvNxt + 1) % WRAP
  {
  }

  /** Bytes that a reset carries for this connection. */
  predicate Resets(c: Tcb, e: Event) {
    e.Arrive? && Parse(c, e.srcIp, e.bytes).Some? && Parse(c, e.srcIp, e.bytes).value.rst
  }

  /** TIME_WAIT ends only with a reset: without one no later tcp_connect succeeds. */
  lemma {:induction false} TimeWaitStays(c: Tcb, es: seq<Event>)
    requires c.state == TimeWait
    ensures RunFrom(c, es).state == TimeWait <==> forall i :: 0 <= i < |es| ==> !Resets(c, es[i])
    ensures RunFrom(c, es).state == Closed <==> exists i :: 0 <= i < |es| && Resets(c, es[i])
    decreases |es|
  {
    hide Parse;
    hide Plus;
    if es != [] {
      var d := Step(c, es[0]);
      if Resets(c, es[0]) {
        ClosedStays(d, es[1..]);
      } else {
        assert d == c;
        TimeWaitStays(c, es[1..]);
        assert forall i :: 0 < i < |es| ==> es[i] == es[1..][i - 1];
        assert forall i :: 0 <= i < |es[1..]| ==> es[1..][i] == es[i + 1];
      }
    }
  }

  lemma {:induction false} ClosedStays(c: Tcb, es: seq<Event>)
    requires c.state == Closed
    ensures RunFrom(c, es) == c
    decreases |es|
  {
    hide Parse;
    hide Plus;
    if es != [] {
      ClosedStays(Step(c, es[0]), es[1..]);
    }
  }

  // ---------------------------------------------------------------- what is sent back

  /** The segment acknowledges at most n bytes of the stream. */
  predicate AcksAtMost(s: Segment, irs: Word, n: nat) {
    s.ack ==> exists k: nat :: k <= n && s.ackNo == AckOf(irs, k)
  }

  function AckOf(irs: Word, k: nat): Word { Plus(irs, 1 + k) }

  /** One more number is taken by a FIN. */
  function FinTaken(state: TcpState): nat {
    if state == Established || state == FinWait1 || state == FinWait2 then 0 else 1
  }

  predicate AckInv(c: Tcb, irs: Word) {
    && (c.state == SynSent ==> c.delivered == [] && forall i :: 0 <= i < |c.sent| ==> !c.sent[i].ack)
    && (c.state != SynSent && c.state != Closed ==> c.rcvNxt == AckOf(irs, |c.delivered| + FinTaken(c.state)))
    && (c.state != SynSent ==>
          forall i :: 0 <= i < |c.sent| ==> AcksAtMost(c.sent[i], irs, |c.delivered| + FinTaken(c.state)))
  }

  lemma AcksMore(s: Segment, irs: Word, m: nat, n: nat)
    requires m <= n && AcksAtMost(s, irs, m)
    ensures AcksAtMost(s, irs, n)
  {
  }

  lemma ReplyAcks(c: Tcb, fin: bool, data: seq<Byte>, irs: Word, m: nat, n: nat)
    requires m <= n && c.rcvNxt == AckOf(irs, n) && forall i :: 0 <= i < |c.sent| ==> AcksAtMost(c.sent[i], irs, m)
    ensures var r := Reply(c, fin, data); forall i :: 0 <= i < |r.sent| ==> AcksAtMost(r.sent[i], irs, n)
  {
    hide AcksAtMost;
    var r := Reply(c, fin, data);
    forall i | 0 <= i < |r.sent|
      ensures AcksAtMost(r.sent[i], irs, n)
    {
      if i < |c.sent| { AcksMore(c.sent[i], irs, m, n); } else { AcksOwn(r.sent[i], irs, n); }
    }
  }

  lemma AcksOwn(s: Segment, irs: Word, n: nat)
    requires s.ackNo == AckOf(irs, n)
    ensures AcksAtMost(s, irs, n)
  {
  }

  lemma NextAck(irs: Word, k: nat, n: nat)
    ensures Plus(AckOf(irs, k), n) == AckOf(irs, k + n)
  {
    PlusPlus(irs, 1 + k, n);
  }

  lemma DataAcks(c: Tcb, s: Segment, irs: Word)
    requires AckInv(c, irs) && c.onData && c.state == Established
    ensures AckInv(TakeData(c, s), irs)
  {
    hide AckOf;
    hide AcksAtMost;
    hide Plus;
    if s.data != [] && s.seqNo == c.rcvNxt {
      var n := |c.delivered|;
      NextAck(irs, n, |s.data|);
      var d := c.(rcvNxt := Plus(c.rcvNxt, |s.data|), delivered := c.delivered + s.data);
      ReplyAcks(d, false, [], irs, n, n + |s.data|);
    }
  }

  lemma FinAcks(c: Tcb, next: TcpState, irs: Word)
    requires AckInv(c, irs) && FinTaken(c.state) == 0 && FinTaken(next) == 1 && next != SynSent
    ensures AckInv(TakeFin(c, next), irs)
  {
    hide AckOf;
    hide AcksAtMost;
    hide Plus;
    var n := |c.delivered|;
    NextAck(irs, n, 1);
    ReplyAcks(c.(rcvNxt := Plus(c.rcvNxt, 1)), false, [], irs, n, n + 1);
  }

  lemma OpenAcks(c: Tcb, s: Segment, irs: Word)
    requires AckInv(c, irs) && c.state == SynSent && s.seqNo == irs
    ensures AckInv(Reply(c.(rcvNxt := Plus(irs, 1), sndUna := s.ackNo, state := Established), false, []), irs)
  {
    NextAck(irs, 0, 0);
    hide Plus;
    hide AcksAtMost;
    var d := c.(rcvNxt := Plus(irs, 1), sndUna := s.ackNo, state := Established);
    assert d.rcvNxt == AckOf(irs, 0);
    hide AckOf;
    forall i | 0 <= i < |d.sent|
      ensures AcksAtMost(d.sent[i], irs, 0)
    {
      NoAck(d.sent[i], irs);
    }
    ReplyAcks(d, false, [], irs, 0, 0);
  }

  lemma NoAck(s: Segment, irs: Word)
    requires !s.ack
    ensures AcksAtMost(s, irs, 0)
  {
  }

  lemma CloseAcks(c: Tcb, fin: bool, data: seq<Byte>, next: TcpState, irs: Word)
    requires AckInv(c, irs) && c.state != SynSent && c.state != Closed && next != SynSent && next != Closed
    requires FinTaken(next) == FinTaken(c.state)
    ensures AckInv(Reply(c, fin, data).(state := next), irs)
  {
    hide AckOf;
    hide AcksAtMost;
    var n := |c.delivered| + FinTaken(c.state);
    ReplyAcks(c, fin, data, irs, n, n);
  }

  lemma MoreTaken(c: Tcb, next: TcpState, irs: Word)
    requires AckInv(c, irs) && (next == Closed || (c.state == FinWait1 && next == FinWait2))
    ensures AckInv(c.(state := next), irs)
  {
    hide AckOf;
    hide AcksAtMost;
    var d := c.(state := next);
    forall i | 0 <= i < |d.sent|
      ensures AcksAtMost(d.sent[i], irs, |d.delivered| + FinTaken(next))
    {
      if c.state == SynSent {
        NoAck(c.sent[i], irs);
        AcksMore(c.sent[i], irs, 0, |d.delivered| + FinTaken(next));
      } else {
        AcksMore(c.sent[i], irs, |c.delivered| + FinTaken(c.state), |d.delivered| + FinTaken(next));
      }
    }
  }

  lemma HandleAcks(c: Tcb, s: Segment, irs: Word)
    requires AckInv(c, irs) && c.onData && (s.syn ==> s.rst || s.seqNo == irs)
    ensures AckInv(Handle(c, s), irs)
  {
    hide AckOf;
    hide AcksAtMost;
    hide TakeData;
    hide TakeFin;
    hide Reply;
    if s.rst {
      MoreTaken(c, Closed, irs);
    } else {
      match c.state
      case SynSent => if s.syn && s.ack { OpenAcks(c, s, irs); }
      case Established =>
        var d := if s.ack then c.(sndUna := s.ackNo) else c;
        DataAcks(d, s, irs);
        DataKeepsState(d, s);
        if s.fin { FinAcks(TakeData(d, s), CloseWait, irs); }
      case FinWait1 => if s.fin { FinAcks(c, TimeWait, irs); } else if s.ack { MoreTaken(c, FinWait2, irs); }
      case FinWait2 => if s.fin { FinAcks(c, TimeWait, irs); }
      case LastAck => if s.ack { MoreTaken(c, Closed, irs); }
      case _ =>
    }
  }

  lemma DataKeepsState(c: Tcb, s: Segment)
    ensures TakeData(c, s).state == c.state
  {
  }

  /** Over every run from tcp_connect: no segment sent acknowledges more than what the application was given, and one
      number for a FIN; while the connection is established, not even that one. */
  lemma {:induction false} NothingAcknowledgedInAdvance(c: Tcb, es: seq<Event>, stream: seq<Byte>, irs: Word)
    requires AckInv(c, irs) && c.onData && AllAllowed(c, es, stream, irs)
    ensures AckInv(RunFrom(c, es), irs)
    decreases |es|
  {
    hide AckInv;
    hide Plus;
    if es != [] {
      assert Allowed(c, es[0], stream, irs);
      StepAcks(c, es[0], stream, irs);
      StepAddress(c, es[0]);
      hide Step;
      var d := Step(c, es[0]);
      forall i | 0 <= i < |es[1..]|
        ensures Allowed(d, es[1..][i], stream, irs)
      {
        assert Allowed(c, es[i + 1], stream, irs);
        SameAllowed(c, d, es[i + 1], stream, irs);
      }
      NothingAcknowledgedInAdvance(d, es[1..], stream, irs);
    }
  }

  lemma StepAcks(c: Tcb, e: Event, stream: seq<Byte>, irs: Word)
    requires AckInv(c, irs) && c.onData && Allowed(c, e, stream, irs)
    ensures AckInv(Step(c, e), irs)
  {
    hide Handle;
    hide AckOf;
    hide AcksAtMost;
    hide Parse;
    match e
    case Arrive(srcIp, bytes) =>
      if Parse(c, srcIp, bytes).Some? { HandleAcks(c, Parse(c, srcIp, bytes).value, irs); }
    case AppSend(data) =>
      if c.state == Established { CloseAcks(c, false, data, Established, irs); }
    case AppClose =>
      if c.state == Established { CloseAcks(c, true, [], FinWait1, irs); }
      if c.state == CloseWait { CloseAcks(c, true, [], LastAck, irs); }
  }

  /** tcp_connect starts such a run. */
  lemma ConnectAcks(was: Tcb, dstIp: Word, dstPort: Half, ipId: Half, irs: Word)
    requires was.state == Closed
    ensures AckInv(Connect(was, dstIp, dstPort, true, ipId), irs)
  {
  }

  // ---------------------------------------------------------------- numbers that do not advance

  /** Every segment of the connection carries the first sequence number. */
  predicate Unnumbered(c: Tcb) {
    c.sndNxt == FIRST_SEQ && forall i :: 0 <= i < |c.sent| ==> c.sent[i].seqNo == FIRST_SEQ
  }

  lemma {:induction false} AllUnnumbered(c: Tcb, es: seq<Event>)
    requires Unnumbered(c)
    ensures Unnumbered(RunFrom(c, es))
    decreases |es|
  {
    hide Parse;
    hide Plus;
    if es != [] { AllUnnumbered(Step(c, es[0]), es[1..]); }
  }

  /** Over every run from tcp_connect, whatever is given to tcp_send is sent under the number of the SYN; a peer that
      has taken the SYN and runs this code discards all of it. */
  lemma SentDataDiscarded(was: Tcb, dstIp: Word, dstPort: Half, ipId: Half, es: seq<Event>, i: nat, peer: Tcb)
    requires was.state == Closed && peer.state == Established && peer.rcvNxt == FIRST_SEQ + 1
    ensures var r := RunFrom(Connect(was, dstIp, dstPort, true, ipId), es);
            i < |r.sent| ==>
              r.sent[i].seqNo == 12345 && (!r.sent[i].rst ==> Handle(peer, r.sent[i]).delivered == peer.delivered)
  {
    AllUnnumbered(Connect(was, dstIp, dstPort, true, ipId), es);
    hide RunFrom;
    hide Plus;
  }
}
