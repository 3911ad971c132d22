/** Two KCP endpoints over a network that loses, copies and reorders datagrams. */
module KcpSystem {
  import opened Sequences
  import opened Serial
  import opened KcpWire
  import opened KcpSpec
  import opened KcpInvariant

  /** One side of the conversation: its control block and its history. */
  datatype Side = Side(
    k: Kcb,
    log: seq<Frag>,        // every fragment send has cut, in order; the queued ones come last
    sent: seq<seq<byte>>,  // the messages send accepted
    bytes: seq<byte>,      // the bytes send took over, also those of a refused stream send
    got: seq<Frag>,        // the fragments recv has taken from the queue
    recvd: seq<seq<byte>>, // the messages recv returned
    net: seq<seq<Wire>>)   // every datagram ever put out; the network keeps them all

  datatype System = System(a: Side, b: Side)

  datatype Action =
    | Deliver(i: nat)  // the i-th datagram of the peer arrives, perhaps not for the first time
    | Local(op: Op)    // anything else the application or the clock does to this endpoint

  datatype Step = Step(atA: bool, act: Action)

  function Datagram(ws: seq<Wire>): seq<byte> {
    if Encodable(ws) then EncodeAll(ws) else []
  }

  function SendAt(x: Side, data: seq<byte>): Side {
    var (k, code) := Send(x.k, data);
    var kept := |x.log| - |x.k.snd.queue|;
    var taken := if code == 0 then |data|
                 else if x.k.stream then |data| - |Extend(x.k.snd.queue, x.k.Mss(), data).1|
                 else 0;
    x.(k := k,
       log := (if kept >= 0 then x.log[..kept] else []) + k.snd.queue,
       sent := if code == 0 then x.sent + [data] else x.sent,
       bytes := x.bytes + if 0 <= taken <= |data| then data[..taken] else [])
  }

  function RecvAt(x: Side, len: int): Side {
    var r := Recv(x.k, len);
    if r.code >= 0 && len >= 0 then
      var q := x.k.rcv.queue;
      x.(k := r.k, got := x.got + q[..MsgLen(q)], recvd := x.recvd + [r.data])
    else x.(k := r.k)
  }

  function FlushAt(x: Side, r: FlushResult): Side {
    x.(k := r.k, net := x.net + r.out)
  }

  function Act(x: Side, peerNet: seq<seq<Wire>>, act: Action): Side {
    match act
    case Deliver(i) => if i < |peerNet| then x.(k := Input(x.k, Datagram(peerNet[i])).k) else x
    case Local(op) =>
      match op
      case DoSend(data) => SendAt(x, data)
      case DoRecv(len) => RecvAt(x, len)
      case DoFlush => FlushAt(x, Flush(x.k))
      case DoUpdate(now) => FlushAt(x, Update(x.k, now))
      case DoInput(d) => x  // no bytes arrive but those of the peer's datagrams
      case _ => x.(k := Apply(x.k, op))
  }

  function Next(s: System, step: Step): System {
    if step.atA then s.(a := Act(s.a, s.b.net, step.act)) else s.(b := Act(s.b, s.a.net, step.act))
  }

  function Run(s: System, steps: seq<Step>): System {
    if steps == [] then s else Next(Run(s, steps[..|steps| - 1]), steps[|steps| - 1])
  }

  function Fresh(conv: u32, mtu: Mtu, stream: bool): Side {
    Side(Create(conv, mtu, stream), [], [], [], [], [], [])
  }

  function Start(conv: u32, mtuA: Mtu, mtuB: Mtu, streamA: bool, streamB: bool): System {
    System(Fresh(conv, mtuA, streamA), Fresh(conv, mtuB, streamB))
  }

  // ---------------------------------------------------------------- the invariant

  /** The receiver has the segment: it was moved on, or waits in rcv_buf. */
  predicate Held(r: Receiver, sn: u32) {
    sn < r.nxt || exists i :: 0 <= i < |r.buf| && r.buf[i].sn == sn
  }

  predicate InBuf(buf: seq<OutSeg>, sn: u32) {
    exists i :: 0 <= i < |buf| && buf[i].sn == sn
  }

  /** The sender's numbers index its log; what is queued has no number yet. */
  predicate Numbered(s: Sender, log: seq<Frag>) {
    && s.una <= s.nxt <= TWO31
    && s.nxt <= |log|
    && log[s.nxt..] == s.queue
    && forall i :: 0 <= i < |s.buf| ==> s.buf[i].sn < s.nxt && s.buf[i].frag == log[s.buf[i].sn]
  }

  /** The receiver holds the right fragment under each of the sender's first n numbers. */
  predicate Matching(r: Receiver, log: seq<Frag>, n: nat, got: seq<Frag>) {
    && r.nxt <= n <= |log|
    && n <= TWO31
    && got + r.queue == log[..r.nxt]
    && forall i :: 0 <= i < |r.buf| ==> r.nxt <= r.buf[i].sn < n && r.buf[i].frag == log[r.buf[i].sn]
  }

  /** Nothing is lost: every number given out is still buffered or already held. */
  predicate Covered(s: Sender, r: Receiver) {
    forall sn: u32 :: sn < s.nxt ==> InBuf(s.buf, sn) || Held(r, sn)
  }

  predicate AcksHeld(acks: seq<Ack>, r: Receiver) {
    forall i :: 0 <= i < |acks| ==> Held(r, acks[i].sn)
  }

  predicate PushOk(w: Wire, log: seq<Frag>, n: nat) {
    w.cmd == IKCP_CMD_PUSH ==> w.sn < n <= |log| && log[w.sn] == Frag(w.frg, w.data)
  }

  predicate AckOk(w: Wire, r: Receiver) {
    w.una <= r.nxt && (w.cmd == IKCP_CMD_ACK ==> Held(r, w.sn))
  }

  predicate PushesOk(ws: seq<Wire>, log: seq<Frag>, n: nat) {
    forall i :: 0 <= i < |ws| ==> PushOk(ws[i], log, n)
  }

  predicate AcksOk(ws: seq<Wire>, r: Receiver) {
    forall i :: 0 <= i < |ws| ==> AckOk(ws[i], r)
  }

  predicate NetPushesOk(net: seq<seq<Wire>>, log: seq<Frag>, n: nat) {
    forall i :: 0 <= i < |net| ==> PushesOk(net[i], log, n)
  }

  predicate NetAcksOk(net: seq<seq<Wire>>, r: Receiver) {
    forall i :: 0 <= i < |net| ==> AcksOk(net[i], r)
  }

  predicate NetDeliverable(net: seq<seq<Wire>>, k: Kcb) {
    forall i :: 0 <= i < |net| ==> Deliverable(k, net[i])
  }

  /** One direction of the conversation, from x to y. */
  predicate Link(x: Side, y: Side) {
    && Numbered(x.k.snd, x.log)
    && Matching(y.k.rcv, x.log, x.k.snd.nxt, y.got)
    && Covered(x.k.snd, y.k.rcv)
    && AcksHeld(y.k.acks, y.k.rcv)
    && NetPushesOk(x.net, x.log, x.k.snd.nxt)
    && NetAcksOk(y.net, y.k.rcv)
  }

  function Concat(ms: seq<seq<byte>>): seq<byte> {
    if ms == [] then [] else Concat(ms[..|ms| - 1]) + ms[|ms| - 1]
  }

  /** The fragments of messages sent one after another in message mode. */
  function FragAll(ms: seq<seq<byte>>, mss: nat): seq<Frag>
    requires mss > 0
  {
    if ms == [] then []
    else FragAll(ms[..|ms| - 1], mss) + FragsOf(ms[|ms| - 1], mss)
  }

  function FragsOf(m: seq<byte>, mss: nat): seq<Frag>
    requires mss > 0
  {
    var n := FragCount(|m|, mss);
    if n < IKCP_WND_RCV then Frags(m, mss, false, n) else []
  }

  predicate Sendable(ms: seq<seq<byte>>, mss: nat)
    requires mss > 0
  {
    forall i :: 0 <= i < |ms| ==> FragCount(|ms[i]|, mss) < IKCP_WND_RCV
  }

  /** Every fragment is the last of its message, as in stream mode. */
  predicate AllLast(fs: seq<Frag>) {
    forall i :: 0 <= i < |fs| ==> fs[i].frg == 0
  }

  /** What the histories say about whole messages and about bytes, from x to y. */
  predicate Content(x: Side, y: Side) {
    && (x.k.stream ==> AllLast(x.log))
    && DataOf(x.log) == x.bytes
    && DataOf(y.got) == Concat(y.recvd)
    && (!x.k.stream ==>
          && Sendable(x.sent, x.k.Mss())
          && x.log == FragAll(x.sent, x.k.Mss())
          && y.recvd <= x.sent
          && y.got == FragAll(y.recvd, x.k.Mss()))
  }

  predicate SideOk(x: Side) {
    Wf(x.k) && NetDeliverable(x.net, x.k)
  }

  predicate Inv(s: System) {
    && s.a.k.conv == s.b.k.conv
    && SideOk(s.a) && SideOk(s.b)
    && Link(s.a, s.b) && Link(s.b, s.a)
    && Content(s.a, s.b) && Content(s.b, s.a)
  }

  // ---------------------------------------------------------------- the receiving half

  /** Nothing held is given up. */
  predicate Keeps(r: Receiver, r': Receiver) {
    r.nxt <= r'.nxt && forall sn: u32 :: Held(r, sn) ==> Held(r', sn)
  }

  lemma {:induction false} MoveReadyMatching(r: Receiver, log: seq<Frag>, n: nat, got: seq<Frag>)
    requires ReceiverOk(r) && Matching(r, log, n, got)
    ensures Matching(MoveReady(r), log, n, got) && Keeps(r, MoveReady(r))
    decreases |r.buf|
  {
    if r.buf != [] && r.buf[0].sn == r.nxt && |r.queue| < r.wnd {
      var r1 := r.(buf := r.buf[1..], queue := r.queue + [r.buf[0].frag], nxt := Add(r.nxt, 1));
      MoveOneMatching(r, r1, log, n, got);
      MoveOneOk(r, r1);
      hide Matching, ReceiverOk, Held;
      MoveReadyMatching(r1, log, n, got);
    }
  }

  predicate MoveOne(r: Receiver, r1: Receiver) {
    && r.buf != [] && r.buf[0].sn == r.nxt && |r.queue| < r.wnd
    && r1 == r.(buf := r.buf[1..], queue := r.queue + [r.buf[0].frag], nxt := Add(r.nxt, 1))
  }

  lemma MoveOneOk(r: Receiver, r1: Receiver)
    requires ReceiverOk(r) && MoveOne(r, r1)
    ensures ReceiverOk(r1)
  {
    forall i | 0 <= i < |r1.buf|
      ensures Sub(r1.buf[i].sn, r1.nxt) == Sub(r.buf[i + 1].sn, r.nxt) - 1
    {
      assert Sub(r.buf[0].sn, r.nxt) < Sub(r.buf[i + 1].sn, r.nxt);
      Rebase(r1.buf[i].sn, r.nxt, r1.nxt);
    }
  }

  lemma MoveOneMatching(r: Receiver, r1: Receiver, log: seq<Frag>, n: nat, got: seq<Frag>)
    requires ReceiverOk(r) && Matching(r, log, n, got) && MoveOne(r, r1)
    ensures Matching(r1, log, n, got) && Keeps(r, r1)
  {
    assert log[..r1.nxt] == log[..r.nxt] + [log[r.nxt]];
    assert got + r1.queue == (got + r.queue) + [log[r.nxt]];
    forall i | 0 <= i < |r1.buf| ensures r1.nxt <= r1.buf[i].sn {
      assert Sub(r.buf[0].sn, r.nxt) < Sub(r.buf[i + 1].sn, r.nxt);
    }
    forall sn: u32 | Held(r, sn) ensures Held(r1, sn) {
      if sn > r.nxt {
        var i :| 0 <= i < |r.buf| && r.buf[i].sn == sn;
        assert r1.buf[i - 1].sn == sn;
      }
    }
  }

  lemma InsertedMatching(r: Receiver, r1: Receiver, seg: InSeg, m: nat, log: seq<Frag>, n: nat, got: seq<Frag>)
    requires Matching(r, log, n, got) && m <= |r.buf|
    requires r.nxt <= seg.sn < n && seg.frag == log[seg.sn]
    requires r1 == r.(buf := r.buf[..m] + [seg] + r.buf[m..])
    ensures Matching(r1, log, n, got)
  {
    forall i | 0 <= i < |r1.buf|
      ensures r1.nxt <= r1.buf[i].sn < n && r1.buf[i].frag == log[r1.buf[i].sn]
    {
      assert r1.buf[i] == if i < m then r.buf[i] else if i == m then seg else r.buf[i - 1];
    }
  }

  lemma InsertedKeeps(r: Receiver, r1: Receiver, seg: InSeg, m: nat)
    requires m <= |r.buf| && r1 == r.(buf := r.buf[..m] + [seg] + r.buf[m..])
    ensures Keeps(r, r1) && Held(r1, seg.sn)
  {
    assert r1.buf[m] == seg;
    forall sn: u32 | Held(r, sn) ensures Held(r1, sn) {
      if sn >= r.nxt {
        var i :| 0 <= i < |r.buf| && r.buf[i].sn == sn;
        assert r1.buf[if i < m then i else i + 1].sn == sn;
      }
    }
  }

  lemma InsertMatching(r: Receiver, seg: InSeg, log: seq<Frag>, n: nat, got: seq<Frag>)
    requires ReceiverOk(r) && Matching(r, log, n, got)
    requires r.nxt <= seg.sn < n && seg.frag == log[seg.sn] && Sub(seg.sn, r.nxt) < r.wnd
    ensures var r1 := r.(buf := Insert(r.buf, seg));
      ReceiverOk(r1) && Matching(r1, log, n, got) && Keeps(r, r1) && Held(r1, seg.sn)
  {
    InsertRange(r.nxt, r.maxWnd, r.buf, seg);
    var m := InsertShape(r.nxt, r.maxWnd, r.buf, seg);
    var r1 := r.(buf := Insert(r.buf, seg));
    hide Insert, RcvRange, Matching;
    if m < |r.buf| && r.buf[m].sn == seg.sn {
      assert r1 == r;
      assert Held(r1, seg.sn);
    } else {
      hide Held;
      InsertedMatching(r, r1, seg, m, log, n, got);
      InsertedKeeps(r, r1, seg, m);
    }
  }

  lemma KeepsTrans(r: Receiver, r1: Receiver, r2: Receiver)
    requires Keeps(r, r1) && Keeps(r1, r2)
    ensures Keeps(r, r2)
  {
  }

  /** A genuine data segment keeps the receiver matching; if it is acked, it is held. */
  lemma ParsePushMatching(r: Receiver, w: Wire, log: seq<Frag>, n: nat, got: seq<Frag>)
    requires ReceiverOk(r) && Matching(r, log, n, got) && PushOk(w, log, n)
    ensures var r' := ParsePush(r, w);
      && Matching(r', log, n, got) && Keeps(r, r')
      && (Acked(r, w) ==> Held(r', w.sn))
  {
    if Acked(r, w) && TimeDiff(w.sn, r.nxt) >= 0 {
      AcceptableWindow(r, w.sn);
      var seg := InSeg(w.sn, Frag(w.frg, w.data));
      var r1 := r.(buf := Insert(r.buf, seg));
      InsertMatching(r, seg, log, n, got);
      MoveReadyMatching(r1, log, n, got);
      hide Matching, ReceiverOk, Insert, MoveReady, Held;
      KeepsTrans(r, r1, MoveReady(r1));
    }
  }

  // ---------------------------------------------------------------- the sending half

  /** What s' forgot, r holds. */
  predicate Forgot(s: Sender, s': Sender, r: Receiver) {
    && s'.nxt == s.nxt && s'.queue == s.queue
    && (forall i :: 0 <= i < |s'.buf| ==> s'.buf[i] in s.buf)
    && (forall i :: 0 <= i < |s.buf| ==> s.buf[i] in s'.buf || Held(r, s.buf[i].sn))
  }

  lemma ForgotCovered(s: Sender, s': Sender, r: Receiver)
    requires Forgot(s, s', r) && Covered(s, r)
    ensures Covered(s', r)
  {
    forall sn: u32 | sn < s'.nxt ensures InBuf(s'.buf, sn) || Held(r, sn) {
      if !Held(r, sn) {
        var i :| 0 <= i < |s.buf| && s.buf[i].sn == sn;
        var j :| 0 <= j < |s'.buf| && s'.buf[j] == s.buf[i];
      }
    }
  }

  lemma ForgotNumbered(s: Sender, s': Sender, r: Receiver, log: seq<Frag>)
    requires Forgot(s, s', r) && Numbered(s, log) && SndHead(s'.una, s'.nxt, s'.buf)
    ensures Numbered(s', log)
  {
    forall i | 0 <= i < |s'.buf|
      ensures s'.buf[i].sn < s'.nxt && s'.buf[i].frag == log[s'.buf[i].sn]
    {
      var j :| 0 <= j < |s.buf| && s.buf[j] == s'.buf[i];
    }
  }

  lemma DropForgot(s: Sender, una: u32, r: Receiver, log: seq<Frag>)
    requires Numbered(s, log) && una <= r.nxt <= TWO31
    ensures Forgot(s, Shrunk(s, DropBefore(s.buf, una)), r)
  {
    var m := DropBeforeSuffix(s.buf, una);
    var s' := Shrunk(s, s.buf[m..]);
    forall i | 0 <= i < |s.buf| ensures s.buf[i] in s'.buf || Held(r, s.buf[i].sn) {
      if i >= m { assert s'.buf[i - m] == s.buf[i]; }
    }
  }

  lemma AckForgot(s: Sender, sn: u32, r: Receiver)
    requires Held(r, sn)
    ensures Forgot(s, ParseAck(s, sn), r)
  {
    var m := WithoutShape(s.buf, sn);
    hide Held, Without, Outstanding;
    var s' := ParseAck(s, sn);
    if Outstanding(s, sn) && m < |s.buf| {
      assert s'.buf == s.buf[..m] + s.buf[m + 1..];
      forall i | 0 <= i < |s.buf| ensures s.buf[i] in s'.buf || Held(r, s.buf[i].sn) {
        if i < m { assert s'.buf[i] == s.buf[i]; } else if i > m { assert s'.buf[i - 1] == s.buf[i]; }
      }
    }
  }

  /** A genuine ack or una makes the sender forget only what the receiver holds. */
  lemma AcknowledgeCovered(s: Sender, w: Wire, r: Receiver, log: seq<Frag>)
    requires Numbered(s, log) && Covered(s, r) && AckOk(w, r) && r.nxt <= TWO31
    ensures Numbered(Acknowledge(s, w), log) && Covered(Acknowledge(s, w), r)
  {
    var s1 := Shrunk(s, DropBefore(s.buf, w.una));
    DropForgot(s, w.una, r, log);
    ForgotCovered(s, s1, r);
    ForgotNumbered(s, s1, r, log);
    hide Numbered, Covered, Forgot, Held, DropBefore;
    if w.cmd == IKCP_CMD_ACK {
      AckForgot(s1, w.sn, r);
      ForgotCovered(s1, ParseAck(s1, w.sn), r);
      ForgotNumbered(s1, ParseAck(s1, w.sn), r, log);
    }
  }

  // ---------------------------------------------------------------- a datagram arrives

  /** Endpoint y, fed genuine segments of x one by one. */
  predicate Fed(x: Side, y: Side, k: Kcb) {
    && Progress(y.k, k)
    && k.snd.queue == y.k.snd.queue
    && Matching(k.rcv, x.log, x.k.snd.nxt, y.got) && Keeps(y.k.rcv, k.rcv)
    && AcksHeld(k.acks, k.rcv)
    && Numbered(k.snd, y.log) && Covered(k.snd, x.k.rcv)
  }

  lemma AcksHeldKeeps(acks: seq<Ack>, r: Receiver, r': Receiver)
    requires AcksHeld(acks, r) && Keeps(r, r')
    ensures AcksHeld(acks, r')
  {
  }

  lemma InputSegReceiver(x: Side, y: Side, k: Kcb, w: Wire)
    requires Fed(x, y, k) && PushOk(w, x.log, x.k.snd.nxt)
    ensures var k' := InputSeg(k, w);
      && Matching(k'.rcv, x.log, x.k.snd.nxt, y.got) && Keeps(y.k.rcv, k'.rcv)
      && AcksHeld(k'.acks, k'.rcv)
  {
    ParsePushMatching(k.rcv, w, x.log, x.k.snd.nxt, y.got);
    hide Matching, Held, Acked, ParsePush, Numbered, Covered, Acknowledge;
    KeepsTrans(y.k.rcv, k.rcv, ParsePush(k.rcv, w));
    AcksHeldKeeps(k.acks, k.rcv, ParsePush(k.rcv, w));
  }

  lemma InputSegFed(x: Side, y: Side, k: Kcb, w: Wire)
    requires Wf(y.k) && Fed(x, y, k)
    requires PushOk(w, x.log, x.k.snd.nxt) && AckOk(w, x.k.rcv) && x.k.rcv.nxt <= TWO31
    ensures Fed(x, y, InputSeg(k, w))
  {
    InputSegReceiver(x, y, k, w);
    assert Wf(k);
    InputSegKeeps(k, w);
    ProgressTrans(y.k, k, InputSeg(k, w));
    AcknowledgeCovered(k.snd, w, x.k.rcv, y.log);
    assert Acknowledge(k.snd, w).queue == k.snd.queue;
    hide Matching, Held, Acked, ParsePush, Numbered, Covered, Acknowledge, Progress, Wf, Keeps, AcksHeld;
  }

  lemma {:induction false} InputSegsFed(x: Side, y: Side, ws: seq<Wire>)
    requires Wf(y.k) && Link(x, y) && Link(y, x)
    requires PushesOk(ws, x.log, x.k.snd.nxt) && AcksOk(ws, x.k.rcv)
    ensures Fed(x, y, InputSegs(y.k, ws))
    decreases |ws|
  {
    hide PushOk, AckOk, Wf, Numbered, Matching, Covered, AcksHeld, NetPushesOk, NetAcksOk, InputSeg;
    if ws != [] {
      InputSegsFed(x, y, ws[..|ws| - 1]);
      RcvNxtBound(x, y);
      InputSegFed(x, y, InputSegs(y.k, ws[..|ws| - 1]), ws[|ws| - 1]);
    } else {
      ProgressSelf(y.k);
    }
  }

  lemma RcvNxtBound(x: Side, y: Side)
    requires Link(y, x)
    ensures x.k.rcv.nxt <= TWO31
  {
  }

  lemma ProgressSelf(k: Kcb)
    requires Wf(k)
    ensures Progress(k, k)
  {
  }

  lemma FastAckFed(x: Side, y: Side, k: Kcb, sn: u32)
    requires Wf(y.k) && Fed(x, y, k)
    ensures Fed(x, y, k.(snd := ParseFastAck(k.snd, sn)))
  {
    assert Wf(k);
    FastAckKeeps(k, sn);
    ProgressTrans(y.k, k, k.(snd := ParseFastAck(k.snd, sn)));
    SkippedSame(k.snd.buf, sn);
    SameBufCovered(k.snd, ParseFastAck(k.snd, sn), x.k.rcv, y.log);
    hide Numbered, Covered, Matching, Progress, Keeps, AcksHeld, Wf;
  }

  /** Changing only timers and counters of buffered segments changes nothing that matters. */
  lemma SameBufCovered(s: Sender, s': Sender, r: Receiver, log: seq<Frag>)
    requires s' == s.(buf := s'.buf) && |s'.buf| == |s.buf|
    requires forall i :: 0 <= i < |s.buf| ==> s'.buf[i].sn == s.buf[i].sn && s'.buf[i].frag == s.buf[i].frag
    requires Numbered(s, log) && Covered(s, r)
    ensures Numbered(s', log) && Covered(s', r)
  {
    forall sn: u32 | sn < s'.nxt ensures InBuf(s'.buf, sn) || Held(r, sn) {
      if InBuf(s.buf, sn) {
        var i :| 0 <= i < |s.buf| && s.buf[i].sn == sn;
        assert s'.buf[i].sn == sn;
      }
    }
  }

  lemma NetAcksKeeps(net: seq<seq<Wire>>, r: Receiver, r': Receiver)
    requires NetAcksOk(net, r) && Keeps(r, r')
    ensures NetAcksOk(net, r')
  {
    forall i, j | 0 <= i < |net| && 0 <= j < |net[i]| ensures AckOk(net[i][j], r') {
      assert AcksOk(net[i], r);
    }
  }

  lemma CoveredKeeps(s: Sender, r: Receiver, r': Receiver)
    requires Covered(s, r) && Keeps(r, r')
    ensures Covered(s, r')
  {
  }

  lemma NetDeliverableSame(net: seq<seq<Wire>>, k: Kcb, k': Kcb)
    requires NetDeliverable(net, k) && k'.conv == k.conv && k'.mtu == k.mtu
    ensures NetDeliverable(net, k')
  {
    forall i | 0 <= i < |net| ensures Deliverable(k', net[i]) {
      assert Deliverable(k, net[i]);
    }
  }

  /** What delivering one of the peer's datagrams amounts to. */
  lemma DeliverInput(x: Side, y: Side, i: nat)
    requires SideOk(x) && y.k.conv == x.k.conv && i < |x.net|
    ensures Input(y.k, Datagram(x.net[i])) == InputParsed(y.k, Parsed(x.net[i], 0))
  {
    assert Deliverable(x.k, x.net[i]);
    hide InputParsed;
    NonemptyIsLong(x.net[i]);
  }

  lemma NonemptyIsLong(ws: seq<Wire>)
    requires Encodable(ws) && |EncodeAll(ws)| >= 1
    ensures |EncodeAll(ws)| >= IKCP_OVERHEAD
  {
  }

  lemma DeliverFed(x: Side, y: Side, i: nat)
    requires SideOk(x) && SideOk(y) && x.k.conv == y.k.conv && Link(x, y) && Link(y, x) && i < |x.net|
    ensures Fed(x, y, Input(y.k, Datagram(x.net[i])).k)
  {
    DeliverInput(x, y, i);
    hide Input, Datagram, Numbered, Matching, Covered, AcksHeld, Wf, Keeps, Progress, PushesOk, AcksOk, Deliverable, Fed;
    assert PushesOk(x.net[i], x.log, x.k.snd.nxt) && AcksOk(x.net[i], x.k.rcv);
    InputSegsFed(x, y, x.net[i]);
    var m := MaxAck(x.net[i]);
    if m.Some? {
      FastAckFed(x, y, InputSegs(y.k, x.net[i]), m.value);
    }
  }

  lemma FedLinks(x: Side, y: Side, k: Kcb)
    requires Link(x, y) && Link(y, x) && Fed(x, y, k)
    ensures Link(x, y.(k := k)) && Link(y.(k := k), x)
  {
    hide Numbered, Matching, Covered, AcksHeld, Held, NetPushesOk, NetAcksOk, Wf;
    CoveredKeeps(x.k.snd, y.k.rcv, k.rcv);
    NetAcksKeeps(y.net, y.k.rcv, k.rcv);
  }

  // ---------------------------------------------------------------- flush

  lemma {:induction false} MoveToBufNumbered(s: Sender, wnd: u32, now: u32, rto: u32, mtu: Mtu, log: seq<Frag>, r: Receiver)
    requires SenderOk(s, mtu) && wnd <= IKCP_WND_MAX && |log| <= TWO31
    requires Numbered(s, log) && Covered(s, r)
    ensures var s' := MoveToBuf(s, wnd, now, rto);
      Numbered(s', log) && Covered(s', r) && s.nxt <= s'.nxt
    decreases |s.queue|
  {
    if TimeDiff(s.nxt, Add(s.una, wnd)) < 0 && s.queue != [] {
      var s1 := s.(queue := s.queue[1..], buf := s.buf + [OutSeg(s.nxt, s.queue[0], now, rto, 0, 0)], nxt := Add(s.nxt, 1));
      NumberOne(s, s1, log, r, OutSeg(s.nxt, s.queue[0], now, rto, 0, 0));
      DiffFromBase(s.nxt, Add(s.una, wnd), s.una);
      assert SenderOk(s1, mtu);
      hide SenderOk, Numbered, Covered;
      MoveToBufNumbered(s1, wnd, now, rto, mtu, log, r);
    }
  }

  lemma NumberOne(s: Sender, s1: Sender, log: seq<Frag>, r: Receiver, seg: OutSeg)
    requires Numbered(s, log) && Covered(s, r) && |log| <= TWO31 && s.queue != []
    requires seg.sn == s.nxt && seg.frag == s.queue[0]
    requires s1 == s.(queue := s.queue[1..], buf := s.buf + [seg], nxt := Add(s.nxt, 1))
    ensures Numbered(s1, log) && Covered(s1, r) && s1.nxt == s.nxt + 1
  {
    assert log[s.nxt..][0] == log[s.nxt];
    assert log[s1.nxt..] == log[s.nxt..][1..];
    forall sn: u32 | sn < s1.nxt ensures InBuf(s1.buf, sn) || Held(r, sn) {
      if sn == s.nxt {
        assert s1.buf[|s.buf|].sn == sn;
      } else if InBuf(s.buf, sn) {
        var i :| 0 <= i < |s.buf| && s.buf[i].sn == sn;
        assert s1.buf[i].sn == sn;
      }
    }
  }

  lemma {:induction false} PushWiresGenuine(k: Kcb, c: Clock, buf: seq<OutSeg>, log: seq<Frag>, n: nat)
    requires n <= |log|
    requires forall i :: 0 <= i < |buf| ==> buf[i].sn < n && buf[i].frag == log[buf[i].sn]
    ensures var ws := PushWires(k.conv, k.rcv, c, buf); PushesOk(ws, log, n) && AcksOk(ws, k.rcv)
    decreases |buf|
  {
    if buf != [] {
      PushWiresGenuine(k, c, buf[..|buf| - 1], log, n);
      hide Due, Held;
    }
  }

  lemma ControlWiresGenuine(k: Kcb, log: seq<Frag>, n: nat)
    requires AcksHeld(k.acks, k.rcv)
    ensures var ws := AckWires(k.conv, k.rcv, k.acks); PushesOk(ws, log, n) && AcksOk(ws, k.rcv)
    ensures var ws := ProbeWires(k.conv, k.rcv, FlushAsked(k), LastAck(k.acks));
      PushesOk(ws, log, n) && AcksOk(ws, k.rcv)
  {
    hide Held;
  }

  lemma GenuineAppend(a: seq<Wire>, b: seq<Wire>, log: seq<Frag>, n: nat, r: Receiver)
    requires PushesOk(a, log, n) && AcksOk(a, r) && PushesOk(b, log, n) && AcksOk(b, r)
    ensures PushesOk(a + b, log, n) && AcksOk(a + b, r)
  {
    hide PushOk, AckOk;
  }

  lemma FlushWiresGenuine(k: Kcb, log: seq<Frag>)
    requires AcksHeld(k.acks, k.rcv) && Numbered(Filled(k), log)
    ensures PushesOk(FlushWires(k), log, Filled(k).nxt) && AcksOk(FlushWires(k), k.rcv)
  {
    var n := Filled(k).nxt;
    ControlWiresGenuine(k, log, n);
    PushWiresGenuine(k, FlushClock(k), Filled(k).buf, log, n);
    hide Filled, PushesOk, AcksOk, Numbered, AcksHeld, AckWires, ProbeWires, PushWires;
    var acks, probes := AckWires(k.conv, k.rcv, k.acks), ProbeWires(k.conv, k.rcv, FlushAsked(k), LastAck(k.acks));
    GenuineAppend(acks, probes, log, n, k.rcv);
    GenuineAppend(acks + probes, PushWires(k.conv, k.rcv, FlushClock(k), Filled(k).buf), log, n, k.rcv);
  }

  lemma FlattenGenuine(out: seq<seq<Wire>>, log: seq<Frag>, n: nat, r: Receiver)
    requires PushesOk(Flatten(out), log, n) && AcksOk(Flatten(out), r)
    ensures NetPushesOk(out, log, n) && NetAcksOk(out, r)
  {
    forall i, j | 0 <= i < |out| && 0 <= j < |out[i]|
      ensures PushOk(out[i][j], log, n) && AckOk(out[i][j], r)
    {
      InFlatten(out, i, j);
      var m :| 0 <= m < |Flatten(out)| && Flatten(out)[m] == out[i][j];
    }
  }

  lemma NetPushesGrow(net: seq<seq<Wire>>, log: seq<Frag>, n: nat, log': seq<Frag>, n': nat)
    requires NetPushesOk(net, log, n) && n <= n' <= |log'| && n <= |log| && log'[..n] == log[..n]
    ensures NetPushesOk(net, log', n')
  {
    forall i, j | 0 <= i < |net| && 0 <= j < |net[i]| ensures PushOk(net[i][j], log', n') {
      assert PushesOk(net[i], log, n);
      var w := net[i][j];
      if w.cmd == IKCP_CMD_PUSH {
        assert log'[w.sn] == log'[..n][w.sn] == log[..n][w.sn];
      }
    }
  }

  lemma NetAppend(n1: seq<seq<Wire>>, n2: seq<seq<Wire>>, log: seq<Frag>, n: nat, r: Receiver)
    requires NetPushesOk(n1, log, n) && NetPushesOk(n2, log, n) && NetAcksOk(n1, r) && NetAcksOk(n2, r)
    ensures NetPushesOk(n1 + n2, log, n) && NetAcksOk(n1 + n2, r)
  {
    hide PushesOk, AcksOk;
  }

  lemma MatchingGrow(r: Receiver, log: seq<Frag>, n: nat, n': nat, got: seq<Frag>)
    requires Matching(r, log, n, got) && n <= n' <= |log| && n' <= TWO31
    ensures Matching(r, log, n', got)
  {
  }

  lemma FlushSender(x: Side, y: Side)
    requires Wf(x.k) && Link(x, y) && |x.log| <= TWO31
    ensures var s := Filled(x.k);
      && Numbered(s, x.log) && Covered(s, y.k.rcv) && x.k.snd.nxt <= s.nxt
      && Numbered(s.(buf := TouchAll(FlushClock(x.k), s.buf)), x.log)
      && Covered(s.(buf := TouchAll(FlushClock(x.k), s.buf)), y.k.rcv)
  {
    var s := Filled(x.k);
    assert Numbered(s, x.log) && Covered(s, y.k.rcv) && x.k.snd.nxt <= s.nxt by {
      hide Numbered, Covered, SenderOk;
      MoveToBufNumbered(x.k.snd, Window(x.k.wnd), x.k.clock.current, x.k.clock.rxRto, x.k.mtu, x.log, y.k.rcv);
    }
    hide Numbered, Covered, Touch;
    SameBufCovered(s, s.(buf := TouchAll(FlushClock(x.k), s.buf)), y.k.rcv, x.log);
  }

  lemma FlushLinks(x: Side, y: Side)
    requires Wf(x.k) && Link(x, y) && Link(y, x) && |x.log| <= TWO31 && x.k.clock.updated
    ensures var x' := FlushAt(x, Flush(x.k)); Link(x', y) && Link(y, x')
  {
    FlushSender(x, y);
    var x' := FlushAt(x, Flush(x.k));
    var out := Flush(x.k).out;
    var n := Filled(x.k).nxt;
    FlushOutput(x.k);
    FlushWiresGenuine(x.k, x.log);
    hide Numbered, Covered, PushesOk, AcksOk, NetPushesOk, NetAcksOk, Filled, FlushWires, TouchAll, Pack, Output, Probe, Exhausted, Held, Deliverable, Wf, AckWires;
    FlattenGenuine(out, x.log, n, x.k.rcv);
    assert x'.k.snd.nxt == n && x'.k.rcv == x.k.rcv && x'.k.acks == [];
    NumberedBound(Filled(x.k), x.log);
    NetPushesGrow(x.net, x.log, x.k.snd.nxt, x.log, n);
    NetAppend(x.net, out, x.log, n, x.k.rcv);
    MatchingGrow(y.k.rcv, x.log, x.k.snd.nxt, n, y.got);
    hide Matching;
    assert Link(y, x');
  }

  lemma NumberedBound(s: Sender, log: seq<Frag>)
    requires Numbered(s, log)
    ensures s.nxt <= |log| && s.nxt <= TWO31
  {
  }

  lemma FlushSideOk(x: Side)
    requires SideOk(x) && x.k.clock.updated
    ensures SideOk(FlushAt(x, Flush(x.k)))
  {
    FlushKeeps(x.k);
    FlushOutput(x.k);
    hide Flush, Wf, Deliverable, FlushWires, AckWires;
    var x' := FlushAt(x, Flush(x.k));
    assert NetDeliverable(x.net + Flush(x.k).out, x.k);
    NetDeliverableSame(x'.net, x.k, x'.k);
  }

  // ---------------------------------------------------------------- send

  lemma SendLinks(x: Side, y: Side, data: seq<byte>)
    requires Link(x, y) && Link(y, x)
    ensures Link(SendAt(x, data), y) && Link(y, SendAt(x, data))
  {
    var x' := SendAt(x, data);
    var n := x.k.snd.nxt;
    hide Extend, Enqueue, Covered, NetAcksOk, AcksHeld, Held, NetPushesOk;
    assert |x.log| - |x.k.snd.queue| == n;
    assert x'.log == x.log[..n] + x'.k.snd.queue;
    assert x'.log[..n] == x.log[..n];
    NetPushesGrow(x.net, x.log, n, x'.log, n);
    assert y.got + y.k.rcv.queue == x'.log[..y.k.rcv.nxt] by {
      assert x'.log[..y.k.rcv.nxt] == x'.log[..n][..y.k.rcv.nxt] == x.log[..y.k.rcv.nxt];
    }
    SendMatching(y.k.rcv, x.log, x'.log, n, y.got);
    SendNumbered(x.k.snd, x'.k.snd, x.log, x'.log);
    SendCovered(x.k.snd, x'.k.snd, y.k.rcv);
    SendCovers(y, x, x');
  }

  lemma SendMatching(r: Receiver, log: seq<Frag>, log': seq<Frag>, n: nat, got: seq<Frag>)
    requires Matching(r, log, n, got) && n <= |log'| && log'[..n] == log[..n]
    ensures Matching(r, log', n, got)
  {
    assert log'[..r.nxt] == log'[..n][..r.nxt] == log[..n][..r.nxt] == log[..r.nxt];
    forall i | 0 <= i < |r.buf| ensures log'[r.buf[i].sn] == log[r.buf[i].sn] {
      assert log'[..n][r.buf[i].sn] == log[..n][r.buf[i].sn];
    }
  }

  lemma SendNumbered(s: Sender, s': Sender, log: seq<Frag>, log': seq<Frag>)
    requires Numbered(s, log) && s' == s.(queue := s'.queue) && log' == log[..s.nxt] + s'.queue
    ensures Numbered(s', log')
  {
    assert log'[s.nxt..] == s'.queue;
  }

  lemma SendCovered(s: Sender, s': Sender, r: Receiver)
    requires Covered(s, r) && s'.nxt == s.nxt && s'.buf == s.buf
    ensures Covered(s', r)
  {
  }

  lemma SendCovers(y: Side, x: Side, x': Side)
    requires Link(y, x) && x'.k.rcv == x.k.rcv && x'.k.acks == x.k.acks && x'.net == x.net && x'.got == x.got
    ensures Link(y, x')
  {
    hide Covered, Matching, Numbered, NetPushesOk, NetAcksOk, AcksHeld;
  }

  lemma {:induction false} DataOfAppend(a: seq<Frag>, b: seq<Frag>)
    ensures DataOf(a + b) == DataOf(a) + DataOf(b)
    decreases |b|
  {
    if b == [] {
      assert a + b == a;
    } else {
      var init, last := b[..|b| - 1], b[|b| - 1];
      DataOfAppend(a, init);
      assert (a + b)[..|a + b| - 1] == a + init;
      Assoc(DataOf(a), DataOf(init), last.data);
    }
  }

  lemma DataOfOne(f: Frag)
    ensures DataOf([f]) == f.data
  {
    assert [f][..0] == [];
  }

  lemma FragCountEnough(len: nat, mss: nat)
    requires mss > 0
    ensures len <= FragCount(len, mss) * mss
  {
    if len > mss {
      var t := len + mss - 1;
      assert t == t / mss * mss + t % mss;
    }
  }

  /** Cutting a message loses and reorders nothing. */
  lemma {:induction false} FragsData(data: seq<byte>, mss: nat, stream: bool, n: nat)
    requires 1 <= n <= 128 && |data| <= n * mss
    ensures DataOf(Frags(data, mss, stream, n)) == data
    decreases n
  {
    hide DataOf;
    var size := Min(|data|, mss);
    var f := Frag(if stream then 0 else n - 1, data[..size]);
    DataOfOne(f);
    if n == 1 {
      assert n * mss == mss;
      assert data[..size] == data;
    } else {
      PieceFits(|data|, mss, n);
      FragsData(data[size..], mss, stream, n - 1);
      DataOfAppend([f], Frags(data[size..], mss, stream, n - 1));
      assert data == data[..size] + data[size..];
    }
  }

  lemma PieceFits(len: nat, mss: nat, n: nat)
    requires n > 1 && len <= n * mss
    ensures len - Min(len, mss) <= (n - 1) * mss
  {
    assert (n - 1) * mss == n * mss - mss;
    if len < mss {
      assert (n - 1) * mss >= 0;
    }
  }

  /** Filling up the last fragment adds its bytes at the end. */
  lemma ExtendLast(init: seq<Frag>, last: Frag, more: seq<byte>)
    ensures DataOf(init + [Frag(0, last.data + more)]) == DataOf(init + [last]) + more
  {
    hide DataOf;
    var f := Frag(0, last.data + more);
    DataOfAppend(init, [last]);
    DataOfAppend(init, [f]);
    DataOfOne(last);
    DataOfOne(f);
    Assoc(DataOf(init), last.data, more);
  }

  lemma ExtendFills(init: seq<Frag>, last: Frag, mss: nat, data: seq<byte>)
    requires |last.data| < mss
    ensures var n := Min(|data|, mss - |last.data|);
      Extend(init + [last], mss, data) == (init + [Frag(0, last.data + data[..n])], data[n..])
  {
    assert (init + [last])[..|init|] == init;
  }

  lemma ExtendData(q: seq<Frag>, mss: nat, data: seq<byte>)
    ensures var (q', rest) := Extend(q, mss, data);
      |rest| <= |data| && DataOf(q') == DataOf(q) + data[..|data| - |rest|] && data == data[..|data| - |rest|] + rest
  {
    hide DataOf;
    if q != [] && |q[|q| - 1].data| < mss {
      var init, last := q[..|q| - 1], q[|q| - 1];
      assert q == init + [last];
      ExtendFilled(init, last, mss, data);
    } else {
      assert data[..0] == [];
    }
  }

  lemma ExtendFilled(init: seq<Frag>, last: Frag, mss: nat, data: seq<byte>)
    requires |last.data| < mss
    ensures var (q', rest) := Extend(init + [last], mss, data);
      && |rest| <= |data| && DataOf(q') == DataOf(init + [last]) + data[..|data| - |rest|]
      && data == data[..|data| - |rest|] + rest
  {
    hide DataOf, Extend;
    var n := Min(|data|, mss - |last.data|);
    ExtendFills(init, last, mss, data);
    ExtendLast(init, last, data[..n]);
  }

  /** Whatever its return code, a send appends to the queued bytes exactly the bytes it took. */
  lemma EnqueueData(q: seq<Frag>, mss: nat, stream: bool, data: seq<byte>)
    requires mss > 0
    ensures var r := Enqueue(q, mss, stream, data);
      var taken := if r.code == 0 then |data| else if stream then |data| - |Extend(q, mss, data).1| else 0;
      0 <= taken <= |data| && DataOf(r.queue) == DataOf(q) + data[..taken]
  {
    var (q1, rest) := if stream then Extend(q, mss, data) else (q, data);
    ExtendData(q, mss, data);
    assert data[..0] == [] && data[..|data|] == data;
    var n := FragCount(|rest|, mss);
    FragCountEnough(|rest|, mss);
    hide Extend, DataOf, FragCount;
    if n < IKCP_WND_RCV && !(stream && rest == []) {
      FragsData(rest, mss, stream, n);
      DataOfAppend(q1, Frags(rest, mss, stream, n));
      hide Frags;
      Assoc(DataOf(q), data[..|data| - |rest|], rest);
    }
  }

  lemma SendBytes(x: Side, data: seq<byte>)
    requires |x.k.snd.queue| <= |x.log| && x.log[|x.log| - |x.k.snd.queue|..] == x.k.snd.queue
    requires DataOf(x.log) == x.bytes
    ensures DataOf(SendAt(x, data).log) == SendAt(x, data).bytes
  {
    hide Enqueue, DataOf, Extend;
    var q := x.k.snd.queue;
    var kept := x.log[..|x.log| - |q|];
    EnqueueData(q, x.k.Mss(), x.k.stream, data);
    var r := Enqueue(q, x.k.Mss(), x.k.stream, data);
    assert x.log == kept + q;
    DataOfAppend(kept, q);
    DataOfAppend(kept, r.queue);
    var taken := if r.code == 0 then |data| else if x.k.stream then |data| - |Extend(q, x.k.Mss(), data).1| else 0;
    Assoc(DataOf(kept), DataOf(q), data[..taken]);
  }

  lemma FragAllAppend(ms: seq<seq<byte>>, m: seq<byte>, mss: nat)
    requires mss > 0
    ensures FragAll(ms + [m], mss) == FragAll(ms, mss) + FragsOf(m, mss)
  {
    assert (ms + [m])[..|ms|] == ms;
  }

  lemma SendMessage(x: Side, data: seq<byte>)
    requires |x.k.snd.queue| <= |x.log| && x.log[|x.log| - |x.k.snd.queue|..] == x.k.snd.queue
    requires !x.k.stream && Sendable(x.sent, x.k.Mss()) && x.log == FragAll(x.sent, x.k.Mss())
    ensures var x' := SendAt(x, data);
      && Sendable(x'.sent, x.k.Mss()) && x'.log == FragAll(x'.sent, x.k.Mss())
      && x.sent <= x'.sent
  {
    hide Extend, FragCount, Frags, FragAll;
    var mss := x.k.Mss();
    var n := FragCount(|data|, mss);
    var kept := x.log[..|x.log| - |x.k.snd.queue|];
    assert x.log == kept + x.k.snd.queue;
    if n < IKCP_WND_RCV {
      FragAllAppend(x.sent, data, mss);
      Assoc(kept, x.k.snd.queue, Frags(data, mss, false, n));
    }
  }

  lemma {:induction false} StreamFrags(data: seq<byte>, mss: nat, n: nat)
    requires 1 <= n <= 128
    ensures AllLast(Frags(data, mss, true, n))
    decreases n
  {
    if n > 1 {
      StreamFrags(data[Min(|data|, mss)..], mss, n - 1);
    }
  }

  /** In stream mode no send numbers a fragment. */
  lemma SendStream(x: Side, data: seq<byte>)
    requires |x.k.snd.queue| <= |x.log| && x.log[|x.log| - |x.k.snd.queue|..] == x.k.snd.queue
    requires x.k.stream && AllLast(x.log)
    ensures AllLast(SendAt(x, data).log)
  {
    var q, mss := x.k.snd.queue, x.k.Mss();
    var (q', rest) := Extend(q, mss, data);
    forall i | 0 <= i < |q| ensures q[i].frg == 0 {
      assert q[i] == x.log[|x.log| - |q| + i];
    }
    assert AllLast(q');
    hide Extend, Frags;
    if FragCount(|rest|, mss) < IKCP_WND_RCV {
      StreamFrags(rest, mss, FragCount(|rest|, mss));
    }
  }

  lemma SendContent(x: Side, y: Side, data: seq<byte>)
    requires Link(x, y) && Content(x, y) && Content(y, x)
    ensures Content(SendAt(x, data), y) && Content(y, SendAt(x, data))
  {
    hide DataOf, Concat, Link, SendAt, Sendable, FragAll;
    LinkTail(x, y);
    SendBytes(x, data);
    if !x.k.stream {
      SendMessage(x, data);
    } else {
      SendStream(x, data);
    }
    SendAtFrame(x, data);
  }

  lemma SendAtFrame(x: Side, data: seq<byte>)
    ensures var x' := SendAt(x, data);
      x'.got == x.got && x'.recvd == x.recvd && x'.k.stream == x.k.stream && x'.k.mtu == x.k.mtu
  {
    hide Enqueue, Extend;
  }

  lemma LinkTail(x: Side, y: Side)
    requires Link(x, y)
    ensures |x.k.snd.queue| <= |x.log| && x.log[|x.log| - |x.k.snd.queue|..] == x.k.snd.queue
  {
  }

  /** The exception to all-or-nothing sends: a stream send refused with -2 leaves the queue
      alone exactly when there is no partly filled last segment to extend. */
  lemma RefusedSend(k: Kcb, data: seq<byte>)
    requires Send(k, data).1 == -2
    ensures var q := k.snd.queue;
      Send(k, data).0 == k <==> !(k.stream && q != [] && |q[|q| - 1].data| < k.Mss())
  {
    var q := k.snd.queue;
    if k.stream && q != [] && |q[|q| - 1].data| < k.Mss() {
      var q' := Extend(q, k.Mss(), data).0;
      assert |data| > 0;
      assert |q'[|q'| - 1].data| > |q[|q| - 1].data|;
    }
  }

  // ---------------------------------------------------------------- recv

  lemma FirstByte()
    ensures Enqueue([], 60, true, [1]) == SendResult([Frag(0, [1])], 0)
  {
    assert [1][..1] == [1];
    assert Frags([1], 60, true, 1) == [Frag(0, [1])];
  }

  lemma TooMuch(data: seq<byte>)
    requires |data| == 7800
    ensures Enqueue([Frag(0, [1])], 60, true, data) == SendResult([Frag(0, [1] + data[..59])], -2)
  {
    hide Frags;
    ExtendFills([], Frag(0, [1]), 60, data);
    assert [] + [Frag(0, [1])] == [Frag(0, [1])];
    hide Extend;
    assert FragCount(7741, 60) == 130;
  }

  /** One byte queued with room for 59 more, then a message of too many fragments: it is refused,
      but its first 59 bytes stay in the queue. */
  lemma RefusedButTaken(conv: u32, data: seq<byte>)
    requires |data| == 7800
    ensures var k := Send(Create(conv, 84, true), [1]).0; var r := Send(k, data);
      && k.snd.queue == [Frag(0, [1])]
      && r.1 == -2 && r.0 != k && r.0.snd.queue == [Frag(0, [1] + data[..59])]
  {
    hide Enqueue;
    FirstByte();
    TooMuch(data);
    assert |([1] + data[..59])| == 60;
  }

  /** The fragments of a message count down to 0. */
  lemma {:induction false} FragsCountDown(data: seq<byte>, mss: nat, n: nat, i: nat)
    requires i < n <= 128
    ensures Frags(data, mss, false, n)[i].frg == n - 1 - i
    decreases n
  {
    if i > 0 {
      var size := Min(|data|, mss);
      FragsCountDown(data[size..], mss, n - 1, i - 1);
    }
  }

  lemma {:induction false} MsgLenCountDown(q: seq<Frag>, n: nat)
    requires 1 <= n <= |q|
    requires forall i :: 0 <= i < n ==> q[i].frg == n - 1 - i
    ensures MsgLen(q) == n
    decreases n
  {
    if n > 1 {
      forall i | 0 <= i < n - 1 ensures q[1..][i].frg == n - 2 - i {
        assert q[1..][i] == q[i + 1];
      }
      MsgLenCountDown(q[1..], n - 1);
    }
  }

  lemma {:induction false} FragAllSplit(ms: seq<seq<byte>>, mss: nat, m: nat)
    requires mss > 0 && m < |ms|
    ensures FragAll(ms[..m], mss) + FragsOf(ms[m], mss) <= FragAll(ms, mss)
    decreases |ms|
  {
    if m == |ms| - 1 {
    } else {
      FragAllSplit(ms[..|ms| - 1], mss, m);
      assert ms[..|ms| - 1][..m] == ms[..m];
    }
  }

  /** What is known of the fragments of a message that send accepted. */
  lemma FragsOfMessage(m: seq<byte>, mss: nat)
    requires mss > 0 && FragCount(|m|, mss) < IKCP_WND_RCV
    ensures var fs := FragsOf(m, mss);
      && 1 <= |fs| < IKCP_WND_RCV
      && DataOf(fs) == m
      && forall i :: 0 <= i < |fs| ==> fs[i].frg == |fs| - 1 - i
  {
    var n := FragCount(|m|, mss);
    FragCountEnough(|m|, mss);
    hide FragCount, DataOf, Frags;
    FragsData(m, mss, false, n);
    var fs := FragsOf(m, mss);
    forall i | 0 <= i < |fs| ensures fs[i].frg == |fs| - 1 - i {
      FragsCountDown(m, mss, n, i);
    }
  }

  lemma ProperPrefix<T>(a: seq<T>, b: seq<T>)
    requires a <= b && a != b
    ensures |a| < |b|
  {
  }

  /** The next message y has to read, its fragments, and what the queue holds of them. */
  lemma NextMessage(x: Side, y: Side)
    requires Link(x, y) && Content(x, y) && !x.k.stream && y.k.rcv.queue != []
    ensures var m := |y.recvd|; var q := y.k.rcv.queue;
      && m < |x.sent|
      && y.recvd + [x.sent[m]] <= x.sent
      && (var fs := FragsOf(x.sent[m], x.k.Mss());
          && 1 <= |fs| < IKCP_WND_RCV
          && DataOf(fs) == x.sent[m]
          && (forall i :: 0 <= i < |fs| ==> fs[i].frg == |fs| - 1 - i)
          && (forall i :: 0 <= i < |fs| && i < |q| ==> q[i] == fs[i]))
  {
    hide Link, FragAll, FragsOf, FragCount, Frags, DataOf, Concat;
    var m, mss, q := |y.recvd|, x.k.Mss(), y.k.rcv.queue;
    LogPrefix(x, y);
    assert |y.got| < |x.log|;
    assert y.recvd != x.sent;
    ProperPrefix(y.recvd, x.sent);
    assert y.recvd == x.sent[..m];
    var fs := FragsOf(x.sent[m], mss);
    FragAllSplit(x.sent, mss, m);
    FragsOfMessage(x.sent[m], mss);
    forall i | 0 <= i < |fs| && i < |q| ensures q[i] == fs[i] {
      PrefixAt(y.got, q, fs, x.log, i);
    }
  }

  lemma LogPrefix(x: Side, y: Side)
    requires Link(x, y)
    ensures y.got + y.k.rcv.queue <= x.log
  {
  }

  lemma PrefixAt<T>(got: seq<T>, q: seq<T>, fs: seq<T>, log: seq<T>, i: nat)
    requires got + q <= log && got + fs <= log && i < |q| && i < |fs|
    ensures q[i] == fs[i]
  {
    assert q[i] == (got + q)[|got| + i] == log[|got| + i] == (got + fs)[|got| + i];
  }

  /** What recv hands over is exactly the next message. */
  lemma RecvMessage(x: Side, y: Side)
    requires Link(x, y) && Content(x, y) && !x.k.stream && PeekSize(y.k.rcv.queue) >= 0
    ensures var m := |y.recvd|; var q := y.k.rcv.queue;
      && m < |x.sent| && y.recvd + [x.sent[m]] <= x.sent
      && q[..MsgLen(q)] == FragsOf(x.sent[m], x.k.Mss())
      && DataOf(q[..MsgLen(q)]) == x.sent[m]
  {
    NextMessage(x, y);
    hide Link, Content, FragsOf, DataOf;
    var q, m := y.k.rcv.queue, |y.recvd|;
    var fs := FragsOf(x.sent[m], x.k.Mss());
    assert q[0] == fs[0];
    assert |q| >= |fs|;
    MsgLenCountDown(q, |fs|);
    assert q[..|fs|] == fs;
  }

  /** recv finds a message exactly when all fragments of the next message have arrived. */
  lemma ReadableIff(x: Side, y: Side)
    requires Link(x, y) && Content(x, y) && !x.k.stream && y.k.rcv.queue != []
    ensures |y.recvd| < |x.sent|
    ensures var m := x.sent[|y.recvd|];
      && (PeekSize(y.k.rcv.queue) >= 0 <==> |y.k.rcv.queue| >= |FragsOf(m, x.k.Mss())|)
      && (PeekSize(y.k.rcv.queue) >= 0 ==> PeekSize(y.k.rcv.queue) == |m|)
  {
    NextMessage(x, y);
    var q := y.k.rcv.queue;
    var m := x.sent[|y.recvd|];
    if PeekSize(q) >= 0 {
      RecvMessage(x, y);
      hide Link, Content, FragsOf;
      if q[0].frg == 0 {
        assert MsgLen(q) == 1 && q[..1] == [q[0]];
        DataOfOne(q[0]);
      }
    }
  }

  lemma FlatRecv(y: Side, data: seq<byte>, fs: seq<Frag>)
    requires DataOf(y.got) == Concat(y.recvd) && DataOf(fs) == data
    ensures DataOf(y.got + fs) == Concat(y.recvd + [data])
  {
    DataOfAppend(y.got, fs);
    assert (y.recvd + [data])[..|y.recvd|] == y.recvd;
  }

  lemma RecvContent(x: Side, y: Side, len: int)
    requires Link(x, y) && Content(x, y) && Content(y, x)
    ensures Content(x, RecvAt(y, len)) && Content(RecvAt(y, len), x)
  {
    hide Link, DataOf, Concat, FragAll, FragsOf, MsgLen, PeekSize, MoveReady, Sendable;
    var r := Recv(y.k, len);
    var q := y.k.rcv.queue;
    if r.code >= 0 && len >= 0 {
      var fs := q[..MsgLen(q)];
      FlatRecv(y, r.data, fs);
      if !x.k.stream {
        RecvMessage(x, y);
        FragAllAppend(y.recvd, x.sent[|y.recvd|], x.k.Mss());
      }
    }
  }

  /** Moving the message out of the queue and refilling the queue keeps everything held. */
  lemma RecvMatching(r: Receiver, n: nat, log: seq<Frag>, m: nat, got: seq<Frag>)
    requires ReceiverOk(r) && Matching(r, log, n, got) && m <= |r.queue|
    ensures var r' := MoveReady(r.(queue := r.queue[m..]));
      Matching(r', log, n, got + r.queue[..m]) && Keeps(r, r')
  {
    var r1 := r.(queue := r.queue[m..]);
    assert (got + r.queue[..m]) + r1.queue == got + r.queue;
    hide RcvRange;
    assert Keeps(r, r1);
    MoveReadyMatching(r1, log, n, got + r.queue[..m]);
    hide Matching, MoveReady;
    KeepsTrans(r, r1, MoveReady(r1));
  }

  lemma RecvLinks(x: Side, y: Side, len: int)
    requires Wf(y.k) && Link(x, y) && Link(y, x)
    ensures Link(x, RecvAt(y, len)) && Link(RecvAt(y, len), x)
  {
    var q := y.k.rcv.queue;
    var m := if len < 0 then 0 else MsgLen(q);
    RecvMatching(y.k.rcv, x.k.snd.nxt, x.log, m, y.got);
    assert q[0..] == q && y.got + q[..0] == y.got;
    hide Numbered, Matching, Covered, AcksHeld, Held, NetPushesOk, NetAcksOk, Wf, MsgLen, PeekSize, MoveReady, DataOf, Keeps;
    var y' := RecvAt(y, len);
    if Recv(y.k, len).code >= 0 {
      CoveredKeeps(x.k.snd, y.k.rcv, y'.k.rcv);
      NetAcksKeeps(y.net, y.k.rcv, y'.k.rcv);
      AcksHeldKeeps(y.k.acks, y.k.rcv, y'.k.rcv);
    }
  }

  // ---------------------------------------------------------------- steps and runs

  /** An action that leaves queues, buffers and acks alone. */
  lemma QuietLinks(x: Side, y: Side, k: Kcb)
    requires Link(x, y) && Link(y, x)
    requires k.snd == x.k.snd && k.acks == x.k.acks
    requires k.rcv == x.k.rcv.(wnd := k.rcv.wnd, maxWnd := k.rcv.maxWnd)
    ensures Link(x.(k := k), y) && Link(y, x.(k := k))
  {
    hide NetPushesOk;
    var r, r' := x.k.rcv, k.rcv;
    assert Keeps(r, r') && Matching(r', y.log, y.k.snd.nxt, x.got);
    hide Numbered, Matching, Held;
    CoveredKeeps(y.k.snd, r, r');
    NetAcksKeeps(x.net, r, r');
    AcksHeldKeeps(x.k.acks, r, r');
    hide Covered, NetAcksOk, AcksHeld;
  }

  lemma SameContent(x: Side, y: Side, x': Side)
    requires Content(x, y) && Content(y, x)
    requires x'.k.stream == x.k.stream && x'.k.mtu == x.k.mtu
    requires x'.log == x.log && x'.sent == x.sent && x'.bytes == x.bytes && x'.got == x.got && x'.recvd == x.recvd
    ensures Content(x', y) && Content(y, x')
  {
    hide DataOf, Concat, FragAll, Sendable;
  }

  /** The invariant as seen from side x, whose turn it is. */
  predicate Both(x: Side, y: Side) {
    && x.k.conv == y.k.conv
    && SideOk(x) && SideOk(y)
    && Link(x, y) && Link(y, x)
    && Content(x, y) && Content(y, x)
  }

  lemma DeliverKeeps(x: Side, y: Side, i: nat)
    requires Both(x, y) && i < |x.net|
    ensures Both(x, y.(k := Input(y.k, Datagram(x.net[i])).k))
  {
    DeliverFed(x, y, i);
    var k := Input(y.k, Datagram(x.net[i])).k;
    hide Input, Link, Content;
    FedLinks(x, y, k);
    assert Progress(y.k, k);
    hide Fed, Deliverable, Wf;
    NetDeliverableSame(y.net, y.k, k);
    SameContent(y, x, y.(k := k));
  }

  lemma SendAtKeeps(x: Side, y: Side, data: seq<byte>)
    requires Both(x, y)
    ensures Both(SendAt(x, data), y)
  {
    SendLinks(x, y, data);
    SendContent(x, y, data);
    SendKeeps(x.k, data);
    hide Link, Content, Wf, Deliverable, Enqueue;
    NetDeliverableSame(x.net, x.k, Send(x.k, data).0);
  }

  lemma RecvAtKeeps(x: Side, y: Side, len: int)
    requires Both(x, y)
    ensures Both(RecvAt(x, len), y)
  {
    RecvLinks(y, x, len);
    RecvContent(y, x, len);
    RecvKeeps(x.k, len);
    assert RecvAt(x, len).k == Recv(x.k, len).k && RecvAt(x, len).net == x.net;
    hide Link, Content, Wf, Deliverable, MoveReady, PeekSize, MsgLen, DataOf;
    NetDeliverableSame(x.net, x.k, Recv(x.k, len).k);
  }

  lemma FlushAtKeeps(x: Side, y: Side)
    requires Both(x, y) && |x.log| <= TWO31 && x.k.clock.updated
    ensures Both(FlushAt(x, Flush(x.k)), y)
  {
    FlushLinks(x, y);
    FlushSideOk(x);
    FlushKeeps(x.k);
    hide Link, Content, Wf, Deliverable, Flush;
    SameContent(x, y, FlushAt(x, Flush(x.k)));
  }

  lemma QuietKeeps(x: Side, y: Side, k: Kcb)
    requires Both(x, y) && Wf(k)
    requires k.snd == x.k.snd && k.acks == x.k.acks
    requires k.rcv == x.k.rcv.(wnd := k.rcv.wnd, maxWnd := k.rcv.maxWnd)
    requires k.conv == x.k.conv && k.mtu == x.k.mtu && k.stream == x.k.stream
    ensures Both(x.(k := k), y)
  {
    QuietLinks(x, y, k);
    hide Link, Content, Wf, Deliverable;
    SameContent(x, y, x.(k := k));
    NetDeliverableSame(x.net, x.k, k);
  }

  lemma UpdateAtKeeps(x: Side, y: Side, now: u32)
    requires Both(x, y) && |x.log| <= TWO31
    ensures Both(FlushAt(x, Update(x.k, now)), y)
  {
    var k := x.k.(clock := Tick(x.k.clock, now).0);
    assert k.clock.updated;
    assert Wf(k);
    QuietKeeps(x, y, k);
    hide Both, Tick, Flush;
    var x1 := x.(k := k);
    if Tick(x.k.clock, now).1 {
      FlushAtKeeps(x1, y);
      assert FlushAt(x1, Flush(k)) == FlushAt(x, Update(x.k, now));
    } else {
      assert x.net + [] == x.net;
      assert FlushAt(x, Update(x.k, now)) == x1;
    }
  }

  lemma SettingsQuiet(k: Kcb, op: Op)
    requires op.DoTune? || op.DoNoDelay? || op.DoWndSize?
    ensures var k' := Apply(k, op);
      && k'.snd == k.snd && k'.acks == k.acks && k'.rcv == k.rcv.(wnd := k'.rcv.wnd, maxWnd := k'.rcv.maxWnd)
      && k'.conv == k.conv && k'.mtu == k.mtu && k'.stream == k.stream
  {
  }

  lemma SettingsAtKeep(x: Side, y: Side, op: Op)
    requires Both(x, y) && (op.DoTune? || op.DoNoDelay? || op.DoWndSize?)
    ensures Both(x.(k := Apply(x.k, op)), y)
  {
    hide Wf, Link, Content, NetDeliverable, Apply;
    ApplyKeeps(x.k, op);
    SettingsQuiet(x.k, op);
    QuietKeeps(x, y, Apply(x.k, op));
  }

  lemma ActKeeps(x: Side, y: Side, act: Action)
    requires Both(x, y) && |x.log| <= TWO31
    ensures Both(Act(x, y.net, act), y)
  {
    hide Both, Input, SendAt, RecvAt, FlushAt, Apply;
    match act
    case Deliver(i) =>
      if i < |y.net| {
        BothSym(x, y);
        DeliverKeeps(y, x, i);
        BothSym(y, x.(k := Input(x.k, Datagram(y.net[i])).k));
      }
    case Local(op) =>
      match op
      case DoSend(data) => SendAtKeeps(x, y, data);
      case DoRecv(len) => RecvAtKeeps(x, y, len);
      case DoFlush =>
        if x.k.clock.updated {
          FlushAtKeeps(x, y);
        } else {
          IdleFlush(x);
        }
      case DoUpdate(now) => UpdateAtKeeps(x, y, now);
      case DoInput(d) =>
      case _ => SettingsAtKeep(x, y, op);
  }

  lemma IdleFlush(x: Side)
    requires !x.k.clock.updated
    ensures FlushAt(x, Flush(x.k)) == x
  {
    assert x.net + [] == x.net;
  }

  lemma BothSym(x: Side, y: Side)
    requires Both(x, y)
    ensures Both(y, x)
  {
    hide SideOk, Link, Content;
  }

  /** The log of fragments only grows. */
  lemma LogGrows(x: Side, peerNet: seq<seq<Wire>>, act: Action)
    requires |x.k.snd.queue| <= |x.log|
    ensures |x.log| <= |Act(x, peerNet, act).log|
  {
    hide Input, Apply, RecvAt, Extend, Frags;
    if act.Local? && act.op.DoRecv? {
      RecvAtLog(x, act.op.len);
    }
  }

  lemma RecvAtLog(x: Side, len: int)
    ensures RecvAt(x, len).log == x.log
  {
    hide Recv, MsgLen;
  }

  lemma StartInv(conv: u32, mtuA: Mtu, mtuB: Mtu, streamA: bool, streamB: bool)
    ensures Inv(Start(conv, mtuA, mtuB, streamA, streamB))
  {
    hide Link, Content, SideOk, Create;
    var a, b := Fresh(conv, mtuA, streamA), Fresh(conv, mtuB, streamB);
    FreshOk(conv, mtuA, streamA);
    FreshOk(conv, mtuB, streamB);
    FreshLink(a, b);
    FreshLink(b, a);
    FreshContent(a, b);
    FreshContent(b, a);
  }

  predicate IsFresh(x: Side) {
    exists conv, mtu, stream :: x == Fresh(conv, mtu, stream)
  }

  lemma FreshOk(conv: u32, mtu: Mtu, stream: bool)
    ensures SideOk(Fresh(conv, mtu, stream)) && IsFresh(Fresh(conv, mtu, stream)) && Fresh(conv, mtu, stream).k.conv == conv
  {
    CreateWf(conv, mtu, stream);
  }

  lemma FreshLink(x: Side, y: Side)
    requires IsFresh(x) && IsFresh(y)
    ensures Link(x, y)
  {
  }

  lemma FreshContent(x: Side, y: Side)
    requires IsFresh(x) && IsFresh(y)
    ensures Content(x, y)
  {
  }

  lemma NextInv(s: System, step: Step)
    requires Inv(s) && |s.a.log| <= TWO31 && |s.b.log| <= TWO31
    ensures Inv(Next(s, step))
  {
    hide SideOk, Link, Content, Act;
    if step.atA {
      ActKeeps(s.a, s.b, step.act);
    } else {
      BothSym(s.a, s.b);
      ActKeeps(s.b, s.a, step.act);
      BothSym(Act(s.b, s.a.net, step.act), s.a);
    }
  }

  /** Fewer than 2^31 fragments were cut on either side, so no sequence number wraps. */
  predicate Short(s: System) {
    |s.a.log| <= TWO31 && |s.b.log| <= TWO31
  }

  predicate IsStart(s: System) {
    exists conv, mtuA, mtuB, streamA, streamB :: s == Start(conv, mtuA, mtuB, streamA, streamB)
  }

  /** The invariant holds at every reachable state, however the network loses, copies and
      reorders, whatever congestion control does, and whenever the endpoints are driven. */
  lemma {:induction false} Reachable(s: System, steps: seq<Step>)
    requires IsStart(s) && Short(Run(s, steps))
    ensures Inv(Run(s, steps))
    decreases |steps|
  {
    hide Inv, Next;
    if steps == [] {
      var conv, mtuA, mtuB, streamA, streamB :| s == Start(conv, mtuA, mtuB, streamA, streamB);
      StartInv(conv, mtuA, mtuB, streamA, streamB);
    } else {
      var init, last := steps[..|steps| - 1], steps[|steps| - 1];
      ShortBefore(s, init, last);
      Reachable(s, init);
      NextInv(Run(s, init), last);
    }
  }

  /** A short run was short all along. */
  lemma {:induction false} ShortBefore(s: System, init: seq<Step>, last: Step)
    requires IsStart(s) && Short(Next(Run(s, init), last))
    ensures Short(Run(s, init))
    decreases |init|
  {
    hide Act;
    var s1 := Run(s, init);
    QueueWithinLog(s, init);
    LogGrows(s1.a, s1.b.net, last.act);
    LogGrows(s1.b, s1.a.net, last.act);
  }

  predicate QueueFits(x: Side) {
    |x.k.snd.queue| <= |x.log|
  }

  lemma {:induction false} QueueWithinLog(s: System, steps: seq<Step>)
    requires IsStart(s)
    ensures QueueFits(Run(s, steps).a) && QueueFits(Run(s, steps).b)
    decreases |steps|
  {
    if steps != [] {
      QueueWithinLog(s, steps[..|steps| - 1]);
      var s1, last := Run(s, steps[..|steps| - 1]), steps[|steps| - 1];
      hide Act;
      ActQueueFits(s1.a, s1.b.net, last.act);
      ActQueueFits(s1.b, s1.a.net, last.act);
    }
  }

  lemma ActQueueFits(x: Side, peerNet: seq<seq<Wire>>, act: Action)
    requires QueueFits(x)
    ensures QueueFits(Act(x, peerNet, act))
  {
    hide Input, Flush, Update, Enqueue;
    match act
    case Deliver(i) =>
      if i < |peerNet| { InputQueue(x.k, Datagram(peerNet[i])); }
    case Local(op) =>
      match op
      case DoFlush => FlushQueue(x.k);
      case DoUpdate(now) => UpdateQueue(x.k, now);
      case _ =>
  }

  lemma {:induction false} InputSegsQueue(k: Kcb, ws: seq<Wire>)
    ensures InputSegs(k, ws).snd.queue == k.snd.queue
    decreases |ws|
  {
    if ws != [] {
      InputSegsQueue(k, ws[..|ws| - 1]);
      hide InputSegs, DropBefore, ParsePush, Without, Outstanding;
    }
  }

  lemma InputQueue(k: Kcb, d: seq<byte>)
    ensures Input(k, d).k.snd.queue == k.snd.queue
  {
    if |d| >= IKCP_OVERHEAD {
      InputSegsQueue(k, ParseFrom(k.conv, d, 0).segs);
    }
    hide InputSegs, ParseFrom, MaxAck;
  }

  lemma {:induction false} MoveToBufQueue(s: Sender, wnd: u32, now: u32, rto: u32)
    ensures |MoveToBuf(s, wnd, now, rto).queue| <= |s.queue|
    decreases |s.queue|
  {
    if TimeDiff(s.nxt, Add(s.una, wnd)) < 0 && s.queue != [] {
      MoveToBufQueue(s.(queue := s.queue[1..], buf := s.buf + [OutSeg(s.nxt, s.queue[0], now, rto, 0, 0)],
                        nxt := Add(s.nxt, 1)), wnd, now, rto);
    }
  }

  lemma FlushQueue(k: Kcb)
    ensures |Flush(k).k.snd.queue| <= |k.snd.queue|
  {
    MoveToBufQueue(k.snd, Window(k.wnd), k.clock.current, k.clock.rxRto);
    hide MoveToBuf, FlushWires, TouchAll, Exhausted, Probe;
  }

  lemma UpdateQueue(k: Kcb, now: u32)
    ensures |Update(k, now).k.snd.queue| <= |k.snd.queue|
  {
    hide Flush, Tick;
    FlushQueue(k.(clock := Tick(k.clock, now).0));
  }

  // ---------------------------------------------------------------- the promises

  /** In message mode the messages recv returns are an in-order prefix of the messages send
      accepted: no gap, no repeat, no mixed fragments, in both directions. */
  lemma MessagesInOrder(s: System, steps: seq<Step>)
    requires IsStart(s) && Short(Run(s, steps))
    ensures var t := Run(s, steps);
      && (!t.a.k.stream ==> t.b.recvd <= t.a.sent)
      && (!t.b.k.stream ==> t.a.recvd <= t.b.sent)
  {
    Reachable(s, steps);
    hide SideOk, Link;
  }

  /** In either mode the bytes recv returns are a prefix of the bytes send took over. */
  lemma BytesInOrder(s: System, steps: seq<Step>)
    requires IsStart(s) && Short(Run(s, steps))
    ensures var t := Run(s, steps);
      Concat(t.b.recvd) <= t.a.bytes && Concat(t.a.recvd) <= t.b.bytes
  {
    Reachable(s, steps);
    var t := Run(s, steps);
    assert Content(t.a, t.b) && Content(t.b, t.a);
    LogPrefix(t.a, t.b);
    LogPrefix(t.b, t.a);
    hide Run, Link, DataOf, Inv, SideOk;
    DataOfPrefix(t.b.got, t.a.log);
    DataOfPrefix(t.a.got, t.b.log);
  }

  lemma DataOfPrefix(a: seq<Frag>, b: seq<Frag>)
    requires a <= b
    ensures DataOf(a) <= DataOf(b)
  {
    assert b == a + b[|a|..];
    DataOfAppend(a, b[|a|..]);
  }

  /** The payload held under number sn by the receiver: moved on, or waiting in rcv_buf. */
  predicate HeldAs(y: Side, sn: u32, f: Frag) {
    || (sn < |y.got + y.k.rcv.queue| && (y.got + y.k.rcv.queue)[sn] == f)
    || exists i :: 0 <= i < |y.k.rcv.buf| && y.k.rcv.buf[i] == InSeg(sn, f)
  }

  predicate BufferedAs(x: Side, sn: u32, f: Frag) {
    exists i :: 0 <= i < |x.k.snd.buf| && x.k.snd.buf[i].sn == sn && x.k.snd.buf[i].frag == f
  }

  /** Neither an ack nor una ever discards an unreceived segment: every number given out still
      has its payload in the sender's buffer or in the receiver's hands. */
  lemma NothingLost(s: System, steps: seq<Step>, sn: u32)
    requires IsStart(s) && Short(Run(s, steps))
    ensures var t := Run(s, steps);
      && t.a.k.snd.nxt <= |t.a.log| && t.b.k.snd.nxt <= |t.b.log|
      && (sn < t.a.k.snd.nxt ==> BufferedAs(t.a, sn, t.a.log[sn]) || HeldAs(t.b, sn, t.a.log[sn]))
      && (sn < t.b.k.snd.nxt ==> BufferedAs(t.b, sn, t.b.log[sn]) || HeldAs(t.a, sn, t.b.log[sn]))
  {
    Reachable(s, steps);
    var t := Run(s, steps);
    assert Link(t.a, t.b) && Link(t.b, t.a);
    hide Run, Inv, Link;
    LinkKeepsPayload(t.a, t.b, sn);
    LinkKeepsPayload(t.b, t.a, sn);
  }

  lemma LinkKeepsPayload(x: Side, y: Side, sn: u32)
    requires Link(x, y)
    ensures x.k.snd.nxt <= |x.log|
    ensures sn < x.k.snd.nxt ==> BufferedAs(x, sn, x.log[sn]) || HeldAs(y, sn, x.log[sn])
  {
    hide NetPushesOk, NetAcksOk, AcksHeld;
    if sn < x.k.snd.nxt {
      if InBuf(x.k.snd.buf, sn) {
      } else if sn < y.k.rcv.nxt {
        assert x.log[..y.k.rcv.nxt][sn] == x.log[sn];
      } else {
        var i :| 0 <= i < |y.k.rcv.buf| && y.k.rcv.buf[i].sn == sn;
        assert y.k.rcv.buf[i] == InSeg(sn, x.log[sn]);
      }
    }
  }

  /** A full receive queue always starts with a complete message, so recv can make room; in stream
      mode any queue that is not empty does. */
  lemma FullQueueReadable(s: System, steps: seq<Step>)
    requires IsStart(s) && Short(Run(s, steps))
    ensures var t := Run(s, steps); Readable(t.a, t.b) && Readable(t.b, t.a)
  {
    Reachable(s, steps);
    var t := Run(s, steps);
    assert Both(t.a, t.b);
    hide Run, Inv, Readable;
    FullQueue(t.a, t.b);
    BothSym(t.a, t.b);
    FullQueue(t.b, t.a);
  }

  /** What y can read of what x sent, once its queue is full, or at once in stream mode. */
  predicate Readable(x: Side, y: Side) {
    var q := y.k.rcv.queue;
    && (!x.k.stream && |q| >= y.k.rcv.wnd ==> |y.recvd| < |x.sent| && PeekSize(q) == |x.sent[|y.recvd|]|)
    && (x.k.stream && q != [] ==> PeekSize(q) == |q[0].data|)
  }

  lemma FullQueue(x: Side, y: Side)
    requires Both(x, y)
    ensures Readable(x, y)
  {
    hide SenderOk, Link, Content, NetDeliverable;
    if !x.k.stream && |y.k.rcv.queue| >= y.k.rcv.wnd {
      assert |y.k.rcv.queue| >= IKCP_WND_RCV;
      hide Wf, FragsOf;
      NextMessage(x, y);
      ReadableIff(x, y);
    } else if x.k.stream && y.k.rcv.queue != [] {
      StreamReadable(x, y);
    }
  }

  lemma StreamReadable(x: Side, y: Side)
    requires Link(x, y) && Content(x, y) && x.k.stream && y.k.rcv.queue != []
    ensures PeekSize(y.k.rcv.queue) == |y.k.rcv.queue[0].data|
  {
    LogPrefix(x, y);
    var n := |y.got|;
    assert (y.got + y.k.rcv.queue)[n] == y.k.rcv.queue[0] == x.log[n];
  }
}
