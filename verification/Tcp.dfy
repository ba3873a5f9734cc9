/**
 The TCP connection of kernel/kernel/net.c: the bytes of segments, and the receiving side.  Whatever the network
 loses, repeats or reorders, the bytes handed to the application are a prefix of what the peer sent (sections 3.3 and
 3.9 of RFC 793).
 */
module Tcp {
  import opened Checksum
  import opened Wrappers

  datatype TcpState = Closed | SynSent | Established | FinWait1 | FinWait2 | TimeWait | CloseWait | LastAck

  /** What tcp_handle reads from a segment it does not drop. */
  datatype Segment = Segment(seqNo: Word, ackNo: Word, fin: bool, syn: bool, rst: bool, ack: bool, data: seq<Byte>)

  /** The control block; `delivered` is what on_data was given since tcp_connect, `sent` the segments handed to
      tcp_transmit since then. */
  datatype Tcb = Tcb(state: TcpState, remoteIp: Word, remotePort: Half, localPort: Half, sndNxt: Word, sndUna: Word,
                     rcvNxt: Word, onData: bool, delivered: seq<Byte>, sent: seq<Segment>)

  const HEADER: nat := 20
  const FIRST_SEQ: Word := 12345
  const FIRST_PORT: Half := 49152
  const MAX_PAYLOAD: nat := 1024
  const TCP_WINDOW: Half := 4096
  const OUR_IP: Word := 0x0A00_020F

  // ---------------------------------------------------------------- segments

  function Half16(b: seq<Byte>, i: nat): Half
    requires i + 2 <= |b|
  {
    Join(b[i], b[i + 1])
  }

  function Word32(b: seq<Byte>, i: nat): Word
    requires i + 4 <= |b|
  {
    Half16(b, i) * 0x10000 + Half16(b, i + 2)
  }

  predicate Flag(b: Byte, mask: nat)
    requires mask > 0
  {
    b / mask % 2 == 1
  }

  /** The checks and the decoding at the start of tcp_handle. */
  function Parse(c: Tcb, srcIp: Word, bytes: seq<Byte>): Option<Segment> {
    if |bytes| < HEADER || srcIp != c.remoteIp || Half16(bytes, 2) != c.localPort then None else
    var hdr := bytes[12] / 16 * 4;
    if hdr > |bytes| then None else
    Some(Segment(Word32(bytes, 4), Word32(bytes, 8), Flag(bytes[13], 1), Flag(bytes[13], 2), Flag(bytes[13], 4),
                 Flag(bytes[13], 16), bytes[hdr..]))
  }

  function Plus(a: Word, n: nat): Word { (a + n) % WRAP }

  // ---------------------------------------------------------------- the bytes of a segment

  function Bit(b: bool, value: Byte): Byte { if b then value else 0 }

  function FlagByte(s: Segment, psh: bool): Byte {
    Bit(s.fin, 1) + Bit(s.syn, 2) + Bit(s.rst, 4) + Bit(psh, 8) + Bit(s.ack, 16)
  }

  /** The header as tcp_transmit lays it out, section 3.1 of RFC 793, and the data behind it. */
  function Encode(srcPort: Half, dstPort: Half, s: Segment, psh: bool, window: Half, checksum: Half): (b: seq<Byte>)
    ensures |b| == HEADER + |s.data|
  {
    [srcPort / 256, srcPort % 256, dstPort / 256, dstPort % 256,
     s.seqNo / 0x100_0000, s.seqNo / 0x1_0000 % 256, s.seqNo / 0x100 % 256, s.seqNo % 256,
     s.ackNo / 0x100_0000, s.ackNo / 0x1_0000 % 256, s.ackNo / 0x100 % 256, s.ackNo % 256,
     0x50, FlagByte(s, psh), window / 256, window % 256, checksum / 256, checksum % 256, 0, 0] + s.data
  }

  /** tcp_transmit: the segment with its checksum. */
  function Transmitted(c: Tcb, s: Segment, psh: bool): seq<Byte>
    requires |s.data| <= MAX_PAYLOAD
  {
    var b := Encode(c.localPort, c.remotePort, s, psh, TCP_WINDOW, 0);
    StoreHalf(b, 16, InternetChecksum(PseudoHeader(OUR_IP, c.remoteIp, |b|) + b))
  }

  // ---------------------------------------------------------------- the protocol as functions

  /** tcp_connect; `ipId` is the running packet number that picks the port. */
  function Connect(c: Tcb, dstIp: Word, dstPort: Half, onData: bool, ipId: Half): Tcb {
    if c.state != Closed then c else
    Tcb(SynSent, dstIp, dstPort, FIRST_PORT + ipId % 0x400, FIRST_SEQ, FIRST_SEQ, 0, onData, [],
        [Segment(FIRST_SEQ, 0, false, true, false, false, [])])
  }

  /** Transmit an acknowledgement, with a FIN or with data. */
  function Reply(c: Tcb, fin: bool, data: seq<Byte>): Tcb {
    c.(sent := c.sent + [Segment(c.sndNxt, c.rcvNxt, fin, false, false, true, data)])
  }

  /** tcp_send. */
  function Send(c: Tcb, data: seq<Byte>): Tcb {
    if c.state != Established || |data| > MAX_PAYLOAD then c else Reply(c, false, data)
  }

  function Close(c: Tcb): Tcb {
    if c.state == Established then Reply(c, true, []).(state := FinWait1)
    else if c.state == CloseWait then Reply(c, true, []).(state := LastAck)
    else c
  }

  /** The data part of an established connection: only the next bytes in order are taken. */
  function TakeData(c: Tcb, s: Segment): Tcb {
    if s.data == [] || s.seqNo != c.rcvNxt then c else
    Reply(c.(rcvNxt := Plus(c.rcvNxt, |s.data|), delivered := if c.onData then c.delivered + s.data else c.delivered),
          false, [])
  }

  function TakeFin(c: Tcb, next: TcpState): Tcb {
    Reply(c.(rcvNxt := Plus(c.rcvNxt, 1)), false, []).(state := next)
  }

  function Handle(c: Tcb, s: Segment): Tcb {
    if s.rst then c.(state := Closed) else
    match c.state
    case SynSent =>
      if s.syn && s.ack then
        Reply(c.(rcvNxt := Plus(s.seqNo, 1), sndUna := s.ackNo, state := Established), false, [])
      else c
    case Established =>
      var c1 := TakeData(if s.ack then c.(sndUna := s.ackNo) else c, s);
      if s.fin then TakeFin(c1, CloseWait) else c1
    case FinWait1 =>
      if s.fin then TakeFin(c, TimeWait) else if s.ack then c.(state := FinWait2) else c
    case FinWait2 => if s.fin then TakeFin(c, TimeWait) else c
    case LastAck => if s.ack then c.(state := Closed) else c
    case _ => c
  }

  function Receive(c: Tcb, srcIp: Word, bytes: seq<Byte>): Tcb {
    var s := Parse(c, srcIp, bytes);
    if s.None? then c else Handle(c, s.value)
  }

  // ---------------------------------------------------------------- what is sent can be read

  /** Every field of the header in its place. */
  lemma EncodeLayout(srcPort: Half, dstPort: Half, s: Segment, psh: bool, window: Half, checksum: Half)
    ensures var b := Encode(srcPort, dstPort, s, psh, window, checksum);
            && Half16(b, 0) == srcPort && Half16(b, 2) == dstPort && Word32(b, 4) == s.seqNo && Word32(b, 8) == s.ackNo
            && b[12] == 0x50 && b[13] == FlagByte(s, psh) && Half16(b, 14) == window && Half16(b, 16) == checksum
            && b[18] == 0 && b[19] == 0 && b[20..] == s.data
  {
    hide FlagByte;
    WordOfBytes(s.seqNo);
    WordOfBytes(s.ackNo);
  }

  lemma WordOfBytes(w: Word)
    ensures Join(w / 0x100_0000, w / 0x1_0000 % 256) * 0x1_0000 + Join(w / 0x100 % 256, w % 256) == w
  {
    assert w / 0x100 / 0x100 == w / 0x1_0000 && w / 0x1_0000 / 0x100 == w / 0x100_0000;
  }

  lemma FlagsRead(s: Segment, psh: bool)
    ensures var b := FlagByte(s, psh);
            Flag(b, 1) == s.fin && Flag(b, 2) == s.syn && Flag(b, 4) == s.rst && Flag(b, 16) == s.ack
  {
  }

  /** The connection reads back exactly the segments encoded for its port by its peer. */
  lemma EncodedParsed(c: Tcb, srcIp: Word, srcPort: Half, dstPort: Half, s: Segment, psh: bool, window: Half, sum: Half)
    ensures Parse(c, srcIp, Encode(srcPort, dstPort, s, psh, window, sum)) ==
      if srcIp == c.remoteIp && dstPort == c.localPort then Some(s) else None
  {
    EncodeLayout(srcPort, dstPort, s, psh, window, sum);
    FlagsRead(s, psh);
    hide Encode;
    hide FlagByte;
    hide Flag;
    hide Half16;
    hide Word32;
  }

  /** Storing the checksum into the header is encoding it. */
  lemma StampIsEncode(srcPort: Half, dstPort: Half, s: Segment, psh: bool, window: Half, sum: Half)
    ensures var b := Encode(srcPort, dstPort, s, psh, window, 0);
            b[16] == 0 && b[17] == 0 && StoreHalf(b, 16, sum) == Encode(srcPort, dstPort, s, psh, window, Swap(sum))
  {
    hide FlagByte;
    var b, e := Encode(srcPort, dstPort, s, psh, window, 0), Encode(srcPort, dstPort, s, psh, window, Swap(sum));
    StoredBytes(b, 16, sum);
    var r := StoreHalf(b, 16, sum);
    hide StoreHalf;
    forall i | 0 <= i < |r|
      ensures r[i] == e[i]
    {
    }
  }

  /** Storing a half changes its two bytes, the lower one first. */
  lemma StoredBytes(d: seq<Byte>, f: nat, h: Half)
    requires f + 2 <= |d|
    ensures var r := StoreHalf(d, f, h);
            r[f] == h % 256 && r[f + 1] == h / 256 && forall i :: 0 <= i < |d| && i != f && i != f + 1 ==> r[i] == d[i]
  {
  }

  /** The bytes verify under their pseudo header, and the peer they are sent to reads them as s. */
  ghost predicate Carries(b: seq<Byte>, dstIp: Word, dstPort: Half, s: Segment) {
    && |b| < 0x10000 && InternetChecksum(PseudoHeader(OUR_IP, dstIp, |b|) + b) == 0
    && forall peer: Tcb :: peer.remoteIp == OUR_IP && peer.localPort == dstPort ==> Parse(peer, OUR_IP, b) == Some(s)
  }

  /** What tcp_transmit sends carries what was meant. */
  lemma TransmittedParsed(c: Tcb, s: Segment, psh: bool)
    requires |s.data| <= MAX_PAYLOAD
    ensures Carries(Transmitted(c, s, psh), c.remoteIp, c.remotePort, s)
  {
    hide InternetChecksum;
    hide PseudoHeader;
    hide Encode;
    hide StoreHalf;
    hide Parse;
    var b := Encode(c.localPort, c.remotePort, s, psh, TCP_WINDOW, 0);
    var sum := InternetChecksum(PseudoHeader(OUR_IP, c.remoteIp, |b|) + b);
    StampIsEncode(c.localPort, c.remotePort, s, psh, TCP_WINDOW, sum);
    StampedSegmentVerifies(OUR_IP, c.remoteIp, b);
    forall peer: Tcb | peer.remoteIp == OUR_IP && peer.localPort == c.remotePort
      ensures Parse(peer, OUR_IP, Transmitted(c, s, psh)) == Some(s)
    {
      EncodedParsed(peer, OUR_IP, c.localPort, c.remotePort, s, psh, TCP_WINDOW, Swap(sum));
    }
  }

  // ---------------------------------------------------------------- the control block in place

  class Connection {
    var state: TcpState
    var remoteIp: Word
    var remotePort: Half
    var localPort: Half
    var sndNxt: Word
    var sndUna: Word
    var rcvNxt: Word
    var onData: bool
    var delivered: seq<Byte>
    var sent: seq<Segment>

    ghost function Abs(): Tcb
      reads this
    {
      Tcb(state, remoteIp, remotePort, localPort, sndNxt, sndUna, rcvNxt, onData, delivered, sent)
    }

    /** tcp_transmit; too much data is refused. */
    method Transmit(fin: bool, syn: bool, ack: bool, psh: bool, payload: seq<Byte>) returns (bytes: seq<Byte>)
      modifies this`sent
      ensures |payload| > MAX_PAYLOAD ==> sent == old(sent) && bytes == []
      ensures |payload| <= MAX_PAYLOAD ==>
        var s := Segment(sndNxt, rcvNxt, fin, syn, false, ack, payload);
        sent == old(sent) + [s] && Carries(bytes, remoteIp, remotePort, s)
    {
      if |payload| > MAX_PAYLOAD { return []; }
      var s := Segment(sndNxt, rcvNxt, fin, syn, false, ack, payload);
      TransmittedParsed(Abs(), s, psh);
      hide Carries;
      hide Encode;
      hide StoreHalf;
      hide PseudoHeader;
      hide InternetChecksum;
      var b := Encode(localPort, remotePort, s, psh, TCP_WINDOW, 0);
      var sum := TcpChecksum(OUR_IP, remoteIp, b);
      bytes := StoreHalf(b, 16, sum);
      sent := sent + [s];
    }

    /** tcp_connect; `answer` is that of tcp_transmit.  The control block is set up even when it is false. */
    method TcpConnect(dstIp: Word, dstPort: Half, handler: bool, ipId: Half, answer: bool) returns (ok: bool)
      modifies this
      ensures Abs() == Connect(old(Abs()), dstIp, dstPort, handler, ipId)
      ensures ok <==> old(state) == Closed && answer
    {
      hide Carries;
      if state != Closed { return false; }
      delivered, sent := [], [];
      remoteIp, remotePort := dstIp, dstPort;
      localPort := FIRST_PORT + ipId % 0x400;
      sndNxt := FIRST_SEQ;
      sndUna := sndNxt;
      rcvNxt := 0;
      onData := handler;
      state := SynSent;
      var bytes := Transmit(false, true, false, false, []);
      return answer;
    }

    /** tcp_send; `answer` is that of ip_send. */
    method TcpSend(data: seq<Byte>, answer: bool) returns (ok: bool)
      modifies this
      ensures Abs() == Send(old(Abs()), data)
      ensures ok <==> old(state) == Established && |data| <= MAX_PAYLOAD && answer
    {
      hide Carries;
      if state != Established { return false; }
      var bytes := Transmit(false, false, true, true, data);
      return |data| <= MAX_PAYLOAD && answer;
    }

    method TcpClose()
      modifies this
      ensures Abs() == Close(old(Abs()))
    {
      hide Carries;
      if state == Established {
        var bytes := Transmit(true, false, true, false, []);
        state := FinWait1;
      } else if state == CloseWait {
        var bytes := Transmit(true, false, true, false, []);
        state := LastAck;
      }
    }

    method TcpHandle(srcIp: Word, bytes: seq<Byte>)
      requires |bytes| < 0x10000
      modifies this
      ensures Abs() == Receive(old(Abs()), srcIp, bytes)
    {
      hide Half16;
      hide Word32;
      hide Flag;
      hide Plus;
      hide Carries;
      if |bytes| < HEADER { return; }
      if srcIp != remoteIp { return; }
      if Half16(bytes, 2) != localPort { return; }
      var flags := bytes[13];
      var seqNo, ackNo := Word32(bytes, 4), Word32(bytes, 8);
      var hdr := bytes[12] / 16 * 4;
      if hdr > |bytes| { return; }
      var data := bytes[hdr..];
      if Flag(flags, 4) {
        state := Closed;
        return;
      }
      match state
      case SynSent =>
        if Flag(flags, 2) && Flag(flags, 16) {
          rcvNxt := Plus(seqNo, 1);
          sndUna := ackNo;
          state := Established;
          var out := Transmit(false, false, true, false, []);
        }
      case Established =>
        if Flag(flags, 16) { sndUna := ackNo; }
        if |data| != 0 && seqNo == rcvNxt {
          rcvNxt := Plus(rcvNxt, |data|);
          if onData { delivered := delivered + data; }
          var out := Transmit(false, false, true, false, []);
        }
        if Flag(flags, 1) {
          rcvNxt := Plus(rcvNxt, 1);
          var out := Transmit(false, false, true, false, []);
          state := CloseWait;
        }
      case FinWait1 =>
        if Flag(flags, 16) { state := FinWait2; }
        if Flag(flags, 1) {
          rcvNxt := Plus(rcvNxt, 1);
          var out := Transmit(false, false, true, false, []);
          state := TimeWait;
        }
      case FinWait2 =>
        if Flag(flags, 1) {
          rcvNxt := Plus(rcvNxt, 1);
          var out := Transmit(false, false, true, false, []);
          state := TimeWait;
        }
      case LastAck =>
        if Flag(flags, 16) { state := Closed; }
      case _ =>
    }
  }

  // ---------------------------------------------------------------- an honest peer

  /** A peer that numbers its stream from irs: a SYN carries irs and no data; any other segment carries a piece of the
      stream under the number of its first byte; only the end of the stream carries a FIN. */
  ghost predicate Honest(s: Segment, stream: seq<Byte>, irs: Word) {
    || s.rst
    || (s.syn && !s.fin && s.seqNo == irs && s.data == [])
    || (!s.syn && exists off: nat :: PieceAt(s, stream, irs, off))
  }

  predicate PieceAt(s: Segment, stream: seq<Byte>, irs: Word, off: nat) {
    && off + |s.data| <= |stream| && s.seqNo == Plus(irs, 1 + off) && s.data == stream[off..off + |s.data|]
    && (s.fin ==> off + |s.data| == |stream|)
  }

  /** What can happen to a connection: bytes from the network, and the application sending and closing. */
  datatype Event = Arrive(srcIp: Word, bytes: seq<Byte>) | AppSend(data: seq<Byte>) | AppClose

  function Step(c: Tcb, e: Event): Tcb {
    match e
    case Arrive(srcIp, bytes) => Receive(c, srcIp, bytes)
    case AppSend(data) => Send(c, data)
    case AppClose => Close(c)
  }

  /** Bytes of any other host or port are arbitrary; what tcp_handle does not drop is honest. */
  ghost predicate Allowed(c: Tcb, e: Event, stream: seq<Byte>, irs: Word) {
    e.Arrive? && Parse(c, e.srcIp, e.bytes).Some? ==> Honest(Parse(c, e.srcIp, e.bytes).value, stream, irs)
  }

  function RunFrom(c: Tcb, events: seq<Event>): Tcb
    decreases |events|
  {
    if events == [] then c else RunFrom(Step(c, events[0]), events[1..])
  }

  ghost predicate AllAllowed(c: Tcb, events: seq<Event>, stream: seq<Byte>, irs: Word) {
    forall i :: 0 <= i < |events| ==> Allowed(c, events[i], stream, irs)
  }

  /** The invariant of the receiving side. */
  predicate Inv(c: Tcb, stream: seq<Byte>, irs: Word) {
    && c.delivered <= stream
    && (c.state == SynSent ==> c.delivered == [])
    && (c.state == Established && c.onData ==> c.rcvNxt == Plus(irs, 1 + |c.delivered|))
    && (!c.onData ==> c.delivered == [])
  }

  /** Within a stream shorter than 2^32 a sequence number names one position. */
  lemma SameOffset(irs: Word, a: nat, b: nat)
    requires a < WRAP && b < WRAP && Plus(irs, 1 + a) == Plus(irs, 1 + b)
    ensures a == b
  {
  }

  lemma PlusPlus(a: Word, m: nat, n: nat)
    ensures Plus(Plus(a, m), n) == Plus(a, m + n)
  {
    WrapAdd(a + m, n);
  }

  lemma DataKeeps(c: Tcb, s: Segment, stream: seq<Byte>, irs: Word)
    requires Inv(c, stream, irs) && c.state == Established && |stream| < WRAP && Honest(s, stream, irs) && !s.rst
    ensures Inv(TakeData(c, s), stream, irs)
  {
    hide Plus;
    if s.data != [] && s.seqNo == c.rcvNxt && c.onData {
      var off: nat :| PieceAt(s, stream, irs, off);
      SameOffset(irs, off, |c.delivered|);
      assert c.delivered == stream[..off];
      assert c.delivered + s.data == stream[..off + |s.data|];
      PlusPlus(irs, 1 + off, |s.data|);
    }
  }

  lemma StepKeeps(c: Tcb, e: Event, stream: seq<Byte>, irs: Word)
    requires Inv(c, stream, irs) && |stream| < WRAP && Allowed(c, e, stream, irs)
    ensures Inv(Step(c, e), stream, irs)
  {
    hide Plus;
    hide Parse;
    if e.Arrive? && Parse(c, e.srcIp, e.bytes).Some? {
      var s := Parse(c, e.srcIp, e.bytes).value;
      if !s.rst && c.state == Established {
        DataKeeps(if s.ack then c.(sndUna := s.ackNo) else c, s, stream, irs);
      }
    }
  }

  /** The addresses of a connection never change, so one event is allowed at any point of a run or at none. */
  lemma StepAddress(c: Tcb, e: Event)
    ensures Step(c, e).remoteIp == c.remoteIp && Step(c, e).localPort == c.localPort && Step(c, e).onData == c.onData
  {
    hide Plus;
    hide Parse;
  }

  lemma {:induction false} RunKeeps(c: Tcb, events: seq<Event>, stream: seq<Byte>, irs: Word)
    requires Inv(c, stream, irs) && |stream| < WRAP && AllAllowed(c, events, stream, irs)
    ensures Inv(RunFrom(c, events), stream, irs) && RunFrom(c, events).onData == c.onData
    decreases |events|
  {
    hide Inv;
    if events != [] {
      var c1 := Step(c, events[0]);
      assert Allowed(c, events[0], stream, irs);
      StepKeeps(c, events[0], stream, irs);
      StepAddress(c, events[0]);
      hide Step;
      forall i | 0 <= i < |events[1..]|
        ensures Allowed(c1, events[1..][i], stream, irs)
      {
        assert Allowed(c, events[i + 1], stream, irs);
        SameAllowed(c, c1, events[i + 1], stream, irs);
      }
      RunKeeps(c1, events[1..], stream, irs);
    }
  }

  lemma SameAllowed(c: Tcb, c1: Tcb, e: Event, stream: seq<Byte>, irs: Word)
    requires c1.remoteIp == c.remoteIp && c1.localPort == c.localPort && Allowed(c, e, stream, irs)
    ensures Allowed(c1, e, stream, irs)
  {
    hide Honest;
    if e.Arrive? { assert Parse(c1, e.srcIp, e.bytes) == Parse(c, e.srcIp, e.bytes); }
  }

  /** From tcp_connect on, under any loss, repetition and reordering: the bytes handed over are a prefix of the
      peer's stream, and while established the next expected number counts exactly them. */
  lemma PrefixDelivered(c: Tcb, dstIp: Word, dstPort: Half, ipId: Half, events: seq<Event>, stream: seq<Byte>,
                        irs: Word)
    requires c.state == Closed && |stream| < WRAP
    requires AllAllowed(Connect(c, dstIp, dstPort, true, ipId), events, stream, irs)
    ensures var r := RunFrom(Connect(c, dstIp, dstPort, true, ipId), events);
            && r.delivered <= stream
            && (r.state == Established ==> r.rcvNxt == (irs + 1 + |r.delivered|) % WRAP)
  {
    RunKeeps(Connect(c, dstIp, dstPort, true, ipId), events, stream, irs);
  }

  // ---------------------------------------------------------------- the end of the stream

  /** Once the connection is neither opening nor established, nothing more is handed over. */
  lemma {:induction false} Frozen(c: Tcb, events: seq<Event>)
    requires c.state != SynSent && c.state != Established
    ensures RunFrom(c, events).delivered == c.delivered
    decreases |events|
  {
    hide Plus;
    hide Parse;
    if events != [] {
      Frozen(Step(c, events[0]), events[1..]);
    }
  }

  /** A FIN ends the stream wherever it arrives: what is handed over is then the whole stream exactly when the segment
      with the FIN is the next one in order, or everything before it had arrived. */
  lemma FinExact(c: Tcb, s: Segment, events: seq<Event>, stream: seq<Byte>, irs: Word, off: nat)
    requires Inv(c, stream, irs) && c.state == Established && c.onData && |stream| < WRAP
    requires PieceAt(s, stream, irs, off) && s.fin && !s.rst
    ensures RunFrom(Handle(c, s), events).delivered == stream <==> s.seqNo == c.rcvNxt || c.delivered == stream
  {
    Frozen(Handle(c, s), events);
    if s.seqNo == c.rcvNxt {
      SameOffset(irs, off, |c.delivered|);
      assert c.delivered == stream[..off];
      assert c.delivered + s.data == stream;
    }
  }

  /** A FIN that overtakes the data cuts the stream off for good. */
  lemma OvertakingFinTruncates(c: Tcb, data: seq<Byte>, irs: Word, events: seq<Event>)
    requires Inv(c, data, irs) && c.state == Established && c.onData && c.delivered == [] && 0 < |data| < WRAP
    ensures var fin := Segment(Plus(irs, 1 + |data|), 0, true, false, false, true, []);
            Honest(fin, data, irs) && RunFrom(Handle(c, fin), events).delivered == []
  {
    var fin := Segment(Plus(irs, 1 + |data|), 0, true, false, false, true, []);
    assert PieceAt(fin, data, irs, |data|);
    Frozen(Handle(c, fin), events);
  }

  // ---------------------------------------------------------------- segments of a fixed cut

  /** The first m pieces of a stream cut into pieces. */
  function Concat(pieces: seq<seq<Byte>>, m: nat): seq<Byte>
    requires m <= |pieces|
  {
    if m == 0 then [] else Concat(pieces, m - 1) + pieces[m - 1]
  }

  predicate IsPiece(s: Segment, pieces: seq<seq<Byte>>, irs: Word, k: nat) {
    && k < |pieces| && !s.rst && !s.syn && !s.fin
    && s.seqNo == Plus(irs, 1 + |Concat(pieces, k)|) && s.data == pieces[k]
  }

  /** How far in-order pieces get when pieces arrive in the order ks. */
  function Reached(ks: seq<nat>): nat {
    if ks == [] then 0 else
    var m := Reached(ks[..|ks| - 1]);
    if ks[|ks| - 1] == m then m + 1 else m
  }

  function HandleAll(c: Tcb, segs: seq<Segment>): Tcb {
    if segs == [] then c else Handle(HandleAll(c, segs[..|segs| - 1]), segs[|segs| - 1])
  }

  lemma {:induction false} ConcatGrows(pieces: seq<seq<Byte>>, a: nat, b: nat)
    requires a < b <= |pieces| && forall i :: 0 <= i < |pieces| ==> pieces[i] != []
    ensures |Concat(pieces, a)| < |Concat(pieces, b)|
  {
    if a < b - 1 { ConcatGrows(pieces, a, b - 1); }
  }

  lemma PieceTaken(c: Tcb, s: Segment, pieces: seq<seq<Byte>>, irs: Word, m: nat, k: nat)
    requires c.state == Established && c.onData && m <= |pieces| && c.delivered == Concat(pieces, m)
    requires c.rcvNxt == Plus(irs, 1 + |c.delivered|) && IsPiece(s, pieces, irs, k)
    requires |Concat(pieces, |pieces|)| < WRAP && forall i :: 0 <= i < |pieces| ==> pieces[i] != []
    ensures var c' := Handle(c, s);
            && c'.state == Established && c'.onData && c'.rcvNxt == Plus(irs, 1 + |c'.delivered|)
            && c'.delivered == Concat(pieces, if k == m then m + 1 else m)
            && m + (if k == m then 1 else 0) <= |pieces|
  {
    hide Plus;
    if k == m {
      PlusPlus(irs, 1 + |c.delivered|, |s.data|);
    } else {
      if k < m { ConcatGrows(pieces, k, m); } else { ConcatGrows(pieces, m, k); }
      if m < |pieces| { ConcatGrows(pieces, m, |pieces|); }
      ConcatGrows(pieces, k, |pieces|);
      if s.seqNo == c.rcvNxt { SameOffset(irs, |Concat(pieces, k)|, |Concat(pieces, m)|); }
    }
  }

  /** When the pieces of one cut arrive in any order and any number of times, exactly those handed over are the pieces
      reached in order. */
  lemma {:induction false} PiecesDelivered(c: Tcb, segs: seq<Segment>, ks: seq<nat>, pieces: seq<seq<Byte>>, irs: Word)
    requires c.state == Established && c.onData && c.delivered == [] && c.rcvNxt == Plus(irs, 1)
    requires |segs| == |ks| && forall i :: 0 <= i < |ks| ==> IsPiece(segs[i], pieces, irs, ks[i])
    requires |Concat(pieces, |pieces|)| < WRAP && forall i :: 0 <= i < |pieces| ==> pieces[i] != []
    ensures Reached(ks) <= |pieces|
    ensures var r := HandleAll(c, segs);
            && r.state == Established && r.onData && r.delivered == Concat(pieces, Reached(ks))
            && r.rcvNxt == Plus(irs, 1 + |r.delivered|)
  {
    hide Plus;
    hide Handle;
    hide Concat;
    hide IsPiece;
    ConcatNone(pieces);
    if ks != [] {
      var n := |ks| - 1;
      PiecesDelivered(c, segs[..n], ks[..n], pieces, irs);
      assert IsPiece(segs[n], pieces, irs, ks[n]);
      PieceTaken(HandleAll(c, segs[..n]), segs[n], pieces, irs, Reached(ks[..n]), ks[n]);
    }
  }

  lemma ConcatNone(pieces: seq<seq<Byte>>)
    ensures Concat(pieces, 0) == []
  {
  }

  /** Positions, in order, at which the pieces 0 to n-1 arrive. */
  predicate InOrder(ks: seq<nat>, f: seq<nat>, n: nat) {
    && |f| == n && (forall i :: 0 <= i < n ==> f[i] < |ks| && ks[f[i]] == i)
    && (forall i, j :: 0 <= i < j < n ==> f[i] < f[j])
  }

  /** All of the stream is handed over exactly when its pieces arrive in order somewhere among the arrivals. */
  lemma WholeStreamIff(c: Tcb, segs: seq<Segment>, ks: seq<nat>, pieces: seq<seq<Byte>>, irs: Word)
    requires c.state == Established && c.onData && c.delivered == [] && c.rcvNxt == Plus(irs, 1)
    requires |segs| == |ks| && forall i :: 0 <= i < |ks| ==> IsPiece(segs[i], pieces, irs, ks[i])
    requires |Concat(pieces, |pieces|)| < WRAP && forall i :: 0 <= i < |pieces| ==> pieces[i] != []
    ensures HandleAll(c, segs).delivered == Concat(pieces, |pieces|) <==> exists f :: InOrder(ks, f, |pieces|)
  {
    hide Plus;
    hide HandleAll;
    hide IsPiece;
    hide InOrder;
    hide Concat;
    hide Reached;
    PiecesDelivered(c, segs, ks, pieces, irs);
    var m := Reached(ks);
    if m < |pieces| {
      ConcatGrows(pieces, m, |pieces|);
      forall f | InOrder(ks, f, |pieces|)
        ensures false
      {
        ReachedAtLeast(ks, f, |pieces|);
      }
    } else {
      var f := Arrivals(ks);
    }
  }

  lemma {:induction false} ReachedAtLeast(ks: seq<nat>, f: seq<nat>, n: nat)
    requires InOrder(ks, f, n)
    ensures Reached(ks) >= n
  {
    if n > 0 {
      var last := |ks| - 1;
      if f[n - 1] == last {
        ReachedAtLeast(ks[..last], f[..n - 1], n - 1);
        ReachedBound(ks, n);
      } else {
        ReachedAtLeast(ks[..last], f, n);
      }
    }
  }

  lemma ReachedBound(ks: seq<nat>, n: nat)
    requires n > 0 && ks != [] && Reached(ks[..|ks| - 1]) >= n - 1 && ks[|ks| - 1] == n - 1
    ensures Reached(ks) >= n
  {
  }

  lemma {:induction false} Arrivals(ks: seq<nat>) returns (f: seq<nat>)
    ensures InOrder(ks, f, Reached(ks))
  {
    if ks == [] { return []; }
    var last := |ks| - 1;
    f := Arrivals(ks[..last]);
    if ks[last] == Reached(ks[..last]) { f := f + [last]; }
  }
}
