/** The KCP control block as a value, and every operation on it as a function.  The methods of
    class Ikcp (Kcp.dfy) are proved to compute these functions. */
module KcpSpec {
  import opened Options
  import opened Serial
  import opened KcpWire

  const IKCP_WND_SND: u32 := 32
  const IKCP_WND_RCV: u32 := 128
  const IKCP_RTO_DEF: u32 := 200
  const IKCP_INTERVAL: u32 := 100
  const IKCP_DEADLINK: u32 := 20
  const IKCP_FASTACK_LIMIT := 5
  const IKCP_PROBE_INIT: u32 := 7000
  const IKCP_PROBE_LIMIT: u32 := 120000
  const IKCP_NO_RESEND: u32 := 0xffff_ffff
  const IKCP_WND_MAX := 0xffff

  type Mtu = m: int | 50 <= m < TWO31 witness 1400

  /** A fragment of a message; frg counts the fragments that follow it in the same message. */
  datatype Frag = Frag(frg: byte, data: seq<byte>)

  /** A segment in snd_buf.  Its ts, wnd and una are rewritten whenever it is sent. */
  datatype OutSeg = OutSeg(sn: u32, frag: Frag, resendTs: u32, rto: u32, fastack: u32, xmit: u32)

  /** A segment in rcv_buf. */
  datatype InSeg = InSeg(sn: u32, frag: Frag)

  datatype Ack = Ack(sn: u32, ts: u32)

  /** snd_una, snd_nxt, snd_queue and snd_buf. */
  datatype Sender = Sender(una: u32, nxt: u32, queue: seq<Frag>, buf: seq<OutSeg>) {
    /** Segments assigned a number and not yet known to be received. */
    function InFlight(): u32 {
      Sub(nxt, una)
    }
  }

  /** rcv_nxt, rcv_wnd, rcv_buf and rcv_queue; maxWnd remembers the largest rcv_wnd so far. */
  datatype Receiver = Receiver(nxt: u32, wnd: u32, maxWnd: u32, buf: seq<InSeg>, queue: seq<Frag>)

  /** snd_wnd, rmt_wnd, cwnd and nocwnd; maxSnd remembers the largest snd_wnd so far. */
  datatype Windows = Windows(snd: u32, maxSnd: u32, rmt: u32, cwnd: u32, nocwnd: bool)

  /** Clocks, timeouts and the settings that decide what is sent again. */
  datatype Clock = Clock(
    current: u32, updated: bool, interval: u32, tsFlush: u32, tsProbe: u32, probeWait: u32,
    rxRto: u32, nodelay: nat, fastResend: int, fastLimit: int, deadLink: u32, dead: bool)

  /** The two bits of probe: IKCP_ASK_SEND and IKCP_ASK_TELL. */
  datatype Asked = Asked(send: bool, tell: bool)

  datatype Kcb = Kcb(
    conv: u32, mtu: Mtu, stream: bool,
    snd: Sender, rcv: Receiver, acks: seq<Ack>, asked: Asked, wnd: Windows, clock: Clock)
  {
    function Mss(): (m: nat)
      ensures m == mtu - IKCP_OVERHEAD
    {
      mtu - IKCP_OVERHEAD
    }
  }

  function Create(conv: u32, mtu: Mtu, stream: bool): Kcb {
    Kcb(conv, mtu, stream,
        Sender(0, 0, [], []),
        Receiver(0, IKCP_WND_RCV, IKCP_WND_RCV, [], []),
        [], Asked(false, false),
        Windows(IKCP_WND_SND, IKCP_WND_SND, IKCP_WND_RCV, 0, false),
        Clock(0, false, IKCP_INTERVAL, IKCP_INTERVAL, 0, 0, IKCP_RTO_DEF, 0, 0, IKCP_FASTACK_LIMIT,
              IKCP_DEADLINK, false))
  }

  // ---------------------------------------------------------------- sending messages

  function FragCount(len: nat, mss: nat): (n: nat)
    requires mss > 0
    ensures n >= 1
  {
    if len <= mss then 1 else (len + mss - 1) / mss
  }

  /** The n fragments a message is cut into. */
  function Frags(data: seq<byte>, mss: nat, stream: bool, n: nat): (fs: seq<Frag>)
    requires 1 <= n <= 128
    ensures |fs| == n
    decreases n
  {
    var size := Min(|data|, mss);
    var f := Frag(if stream then 0 else n - 1, data[..size]);
    if n == 1 then [f] else [f] + Frags(data[size..], mss, stream, n - 1)
  }

  /** In stream mode the last queued segment is first filled up to the segment size. */
  function Extend(q: seq<Frag>, mss: nat, data: seq<byte>): (r: (seq<Frag>, seq<byte>))
    ensures |r.0| == |q|
  {
    if q != [] && |q[|q| - 1].data| < mss then
      var last := q[|q| - 1];
      var extend := Min(|data|, mss - |last.data|);
      (q[..|q| - 1] + [Frag(0, last.data + data[..extend])], data[extend..])
    else (q, data)
  }

  /** The queue after a send, and the return code. */
  datatype SendResult = SendResult(queue: seq<Frag>, code: int)

  function Enqueue(q0: seq<Frag>, mss: nat, stream: bool, data: seq<byte>): SendResult
    requires mss > 0
  {
    var (q, rest) := if stream then Extend(q0, mss, data) else (q0, data);
    if stream && rest == [] then SendResult(q, 0)
    else
      var n := FragCount(|rest|, mss);
      if n >= IKCP_WND_RCV then SendResult(q, -2) else SendResult(q + Frags(rest, mss, stream, n), 0)
  }

  function Send(k: Kcb, data: seq<byte>): (Kcb, int) {
    var r := Enqueue(k.snd.queue, k.Mss(), k.stream, data);
    (k.(snd := k.snd.(queue := r.queue)), r.code)
  }

  // ---------------------------------------------------------------- receiving messages

  /** How many queued fragments the first message takes: up to the first one numbered 0. */
  function MsgLen(q: seq<Frag>): (n: nat)
    ensures n <= |q| && (q != [] ==> n >= 1)
  {
    if q == [] then 0 else if q[0].frg == 0 then 1 else 1 + MsgLen(q[1..])
  }

  function DataOf(fs: seq<Frag>): seq<byte> {
    if fs == [] then [] else DataOf(fs[..|fs| - 1]) + fs[|fs| - 1].data
  }

  function PeekSize(q: seq<Frag>): int {
    if q == [] then -1
    else if q[0].frg == 0 then |q[0].data|
    else if |q| < q[0].frg + 1 then -1
    else |DataOf(q[..MsgLen(q)])|
  }

  /** Moves segments that have become contiguous from rcv_buf to rcv_queue while it has room. */
  function MoveReady(r: Receiver): (r': Receiver)
    ensures r'.wnd == r.wnd && r'.maxWnd == r.maxWnd
    decreases |r.buf|
  {
    if r.buf != [] && r.buf[0].sn == r.nxt && |r.queue| < r.wnd then
      MoveReady(r.(buf := r.buf[1..], queue := r.queue + [r.buf[0].frag], nxt := Add(r.nxt, 1)))
    else r
  }

  datatype RecvResult = RecvResult(k: Kcb, code: int, data: seq<byte>)

  function Abs(x: int): nat {
    if x < 0 then -x else x
  }

  /** A negative len peeks: the message is returned but stays queued. */
  function Recv(k: Kcb, len: int): RecvResult {
    var q := k.rcv.queue;
    var peek := PeekSize(q);
    if q == [] then RecvResult(k, -1, [])
    else if peek < 0 then RecvResult(k, -2, [])
    else if peek > Abs(len) then RecvResult(k, -3, [])
    else
      var n := MsgLen(q);
      var r := MoveReady(if len < 0 then k.rcv else k.rcv.(queue := q[n..]));
      var tell := k.asked.tell || (|q| >= r.wnd && |r.queue| < r.wnd);
      RecvResult(k.(rcv := r, asked := k.asked.(tell := tell)), |DataOf(q[..n])|, DataOf(q[..n]))
  }

  // ---------------------------------------------------------------- input

  function DropBefore(buf: seq<OutSeg>, una: u32): seq<OutSeg> {
    if buf != [] && TimeDiff(una, buf[0].sn) > 0 then DropBefore(buf[1..], una) else buf
  }

  /** The sender once its buffer is buf: una becomes the head, or nxt when nothing is left. */
  function Shrunk(s: Sender, buf: seq<OutSeg>): Sender {
    s.(buf := buf, una := if buf == [] then s.nxt else buf[0].sn)
  }

  predicate Outstanding(s: Sender, sn: u32) {
    !(TimeDiff(sn, s.una) < 0 || TimeDiff(sn, s.nxt) >= 0)
  }

  function Without(buf: seq<OutSeg>, sn: u32): seq<OutSeg> {
    if buf == [] then []
    else if sn == buf[0].sn then buf[1..]
    else if TimeDiff(sn, buf[0].sn) < 0 then buf
    else [buf[0]] + Without(buf[1..], sn)
  }

  function ParseAck(s: Sender, sn: u32): Sender {
    Shrunk(s, if Outstanding(s, sn) then Without(s.buf, sn) else s.buf)
  }

  /** Counts, for every segment before the largest acked one, how often it was skipped. */
  function Skipped(buf: seq<OutSeg>, sn: u32): (r: seq<OutSeg>)
    ensures |r| == |buf|
  {
    if buf == [] || TimeDiff(sn, buf[0].sn) < 0 then buf
    else
      var s := buf[0];
      [if sn != s.sn then s.(fastack := Add(s.fastack, 1)) else s] + Skipped(buf[1..], sn)
  }

  function ParseFastAck(s: Sender, sn: u32): Sender {
    if Outstanding(s, sn) then s.(buf := Skipped(s.buf, sn)) else s
  }

  /** Insertion searched from the back; a number already present leaves the buffer alone. */
  function Insert(buf: seq<InSeg>, seg: InSeg): seq<InSeg> {
    if buf == [] then [seg]
    else
      var last := buf[|buf| - 1];
      if last.sn == seg.sn then buf
      else if TimeDiff(seg.sn, last.sn) > 0 then buf + [seg]
      else Insert(buf[..|buf| - 1], seg) + [last]
  }

  predicate Acceptable(r: Receiver, sn: u32) {
    !(TimeDiff(sn, Add(r.nxt, r.wnd)) >= 0 || TimeDiff(sn, r.nxt) < 0)
  }

  function ParseData(r: Receiver, seg: InSeg): Receiver {
    if Acceptable(r, seg.sn) then MoveReady(r.(buf := Insert(r.buf, seg))) else r
  }

  /** Everything below the end of the receive window is acked, also what was received before. */
  predicate Acked(r: Receiver, w: Wire) {
    w.cmd == IKCP_CMD_PUSH && TimeDiff(w.sn, Add(r.nxt, r.wnd)) < 0
  }

  function ParsePush(r: Receiver, w: Wire): Receiver {
    if Acked(r, w) && TimeDiff(w.sn, r.nxt) >= 0 then ParseData(r, InSeg(w.sn, Frag(w.frg, w.data))) else r
  }

  /** The sending half's reaction to one segment of a datagram. */
  function Acknowledge(s: Sender, w: Wire): Sender {
    var s1 := Shrunk(s, DropBefore(s.buf, w.una));
    if w.cmd == IKCP_CMD_ACK then ParseAck(s1, w.sn) else s1
  }

  /** The effect of one segment of a datagram. */
  function InputSeg(k: Kcb, w: Wire): Kcb {
    k.(snd := Acknowledge(k.snd, w),
       rcv := ParsePush(k.rcv, w),
       acks := if Acked(k.rcv, w) then k.acks + [Ack(w.sn, w.ts)] else k.acks,
       asked := if w.cmd == IKCP_CMD_WASK then k.asked.(tell := true) else k.asked,
       wnd := k.wnd.(rmt := w.wnd))
  }

  function InputSegs(k: Kcb, ws: seq<Wire>): Kcb {
    if ws == [] then k else InputSeg(InputSegs(k, ws[..|ws| - 1]), ws[|ws| - 1])
  }

  /** The largest number acked by a datagram. */
  function MaxAck(ws: seq<Wire>): Option<u32> {
    if ws == [] then None
    else
      var m := MaxAck(ws[..|ws| - 1]);
      var w := ws[|ws| - 1];
      if w.cmd != IKCP_CMD_ACK then m
      else if m.None? || TimeDiff(w.sn, m.value) > 0 then Some(w.sn)
      else m
  }

  datatype InputResult = InputResult(k: Kcb, code: int)

  /** What a parsed datagram does, whether or not it was parsed to its end. */
  function InputParsed(k: Kcb, p: Parsed): InputResult {
    var k1 := InputSegs(k, p.segs);
    var m := MaxAck(p.segs);
    if p.code != 0 then InputResult(k1, p.code)
    else InputResult(if m.Some? then k1.(snd := ParseFastAck(k1.snd, m.value)) else k1, 0)
  }

  function Input(k: Kcb, d: seq<byte>): InputResult {
    if |d| < IKCP_OVERHEAD then InputResult(k, -1)
    else InputParsed(k, ParseFrom(k.conv, d, 0))
  }

  // ---------------------------------------------------------------- flush

  /** Segments collected into datagrams: the finished ones and the one in the buffer. */
  datatype Packing = Packing(done: seq<seq<Wire>>, cur: seq<Wire>)

  function PackStep(mtu: int, p: Packing, w: Wire): Packing {
    if SizeAll(p.cur) + Size(w) > mtu then Packing(Output(p), [w]) else Packing(p.done, p.cur + [w])
  }

  function Output(p: Packing): seq<seq<Wire>> {
    if p.cur == [] then p.done else p.done + [p.cur]
  }

  function Pack(mtu: int, ws: seq<Wire>): Packing {
    if ws == [] then Packing([], []) else PackStep(mtu, Pack(mtu, ws[..|ws| - 1]), ws[|ws| - 1])
  }

  /** The advertised window, truncated to the 16 bits of its header field. */
  function Unused(r: Receiver): u16 {
    if |r.queue| < r.wnd then (r.wnd - |r.queue|) % 0x1_0000 else 0
  }

  function Control(conv: u32, r: Receiver, cmd: byte, a: Ack): Wire {
    Wire(conv, cmd, 0, Unused(r), a.ts, a.sn, r.nxt, [])
  }

  function AckWires(conv: u32, r: Receiver, acks: seq<Ack>): (ws: seq<Wire>)
    ensures |ws| == |acks|
    ensures forall i :: 0 <= i < |acks| ==> ws[i] == Control(conv, r, IKCP_CMD_ACK, acks[i])
  {
    if acks == [] then []
    else AckWires(conv, r, acks[..|acks| - 1]) + [Control(conv, r, IKCP_CMD_ACK, acks[|acks| - 1])]
  }

  /** The header the probe commands reuse still holds the number and time of the last ack. */
  function LastAck(acks: seq<Ack>): Ack {
    if acks == [] then Ack(0, 0) else acks[|acks| - 1]
  }

  /** Schedules window probes while the remote window is closed. */
  function Probe(c: Clock, rmt: u32): Clock {
    if rmt != 0 then c.(tsProbe := 0, probeWait := 0)
    else if c.probeWait == 0 then
      c.(probeWait := IKCP_PROBE_INIT, tsProbe := Add(c.current, IKCP_PROBE_INIT))
    else if ProbeDue(c, rmt) then
      var w0 := Max(c.probeWait, IKCP_PROBE_INIT);
      var w := Min(Add(w0, w0 / 2), IKCP_PROBE_LIMIT);
      c.(probeWait := w, tsProbe := Add(c.current, w))
    else c
  }

  predicate ProbeDue(c: Clock, rmt: u32) {
    rmt == 0 && c.probeWait != 0 && TimeDiff(c.current, c.tsProbe) >= 0
  }

  function ProbeWires(conv: u32, r: Receiver, asked: Asked, last: Ack): seq<Wire> {
    (if asked.send then [Control(conv, r, IKCP_CMD_WASK, last)] else []) +
    (if asked.tell then [Control(conv, r, IKCP_CMD_WINS, last)] else [])
  }

  function Window(w: Windows): u32 {
    var m := Min(w.snd, w.rmt);
    if w.nocwnd then m else Min(w.cwnd, m)
  }

  /** Numbers queued fragments and moves them to snd_buf while the window allows. */
  function MoveToBuf(s: Sender, wnd: u32, now: u32, rto: u32): (s': Sender)
    decreases |s.queue|
  {
    if TimeDiff(s.nxt, Add(s.una, wnd)) < 0 && s.queue != [] then
      MoveToBuf(s.(queue := s.queue[1..], buf := s.buf + [OutSeg(s.nxt, s.queue[0], now, rto, 0, 0)],
                   nxt := Add(s.nxt, 1)), wnd, now, rto)
    else s
  }

  /** Signed halving, rounding toward zero, as a 32-bit word. */
  function Half(x: u32): u32 {
    if x < TWO31 then x / 2 else Sub(0, (TWO32 - x) / 2)
  }

  /** Whether flush (re)sends a segment: it is new, overdue, or was skipped often enough. */
  predicate Due(c: Clock, s: OutSeg) {
    || s.xmit == 0
    || TimeDiff(c.current, s.resendTs) >= 0
    || (s.fastack >= (if c.fastResend > 0 then c.fastResend else IKCP_NO_RESEND)
        && (Signed(s.xmit) <= c.fastLimit || c.fastLimit <= 0))
  }

  /** A segment after flush looked at it. */
  function Touch(c: Clock, s: OutSeg): (s': OutSeg)
    ensures s'.sn == s.sn && s'.frag == s.frag
  {
    if s.xmit == 0 then
      var rtomin := if c.nodelay == 0 then c.rxRto / 8 else 0;
      s.(xmit := 1, rto := c.rxRto, resendTs := Add(Add(c.current, c.rxRto), rtomin))
    else if TimeDiff(c.current, s.resendTs) >= 0 then
      var rto := if c.nodelay == 0 then Add(s.rto, Max(s.rto, c.rxRto))
                 else Add(s.rto, Half(if c.nodelay < 2 then s.rto else c.rxRto));
      s.(xmit := Add(s.xmit, 1), rto := rto, resendTs := Add(c.current, rto))
    else if Due(c, s) then
      s.(xmit := Add(s.xmit, 1), fastack := 0, resendTs := Add(c.current, s.rto))
    else s
  }

  function TouchAll(c: Clock, buf: seq<OutSeg>): (r: seq<OutSeg>)
    ensures |r| == |buf|
    ensures forall i :: 0 <= i < |buf| ==> r[i] == Touch(c, buf[i])
  {
    if buf == [] then [] else TouchAll(c, buf[..|buf| - 1]) + [Touch(c, buf[|buf| - 1])]
  }

  function Push(conv: u32, r: Receiver, now: u32, s: OutSeg): Wire {
    Wire(conv, IKCP_CMD_PUSH, s.frag.frg, Unused(r), now, s.sn, r.nxt, s.frag.data)
  }

  function PushWires(conv: u32, r: Receiver, c: Clock, buf: seq<OutSeg>): seq<Wire> {
    if buf == [] then []
    else
      var s := buf[|buf| - 1];
      PushWires(conv, r, c, buf[..|buf| - 1]) + (if Due(c, s) then [Push(conv, r, c.current, s)] else [])
  }

  /** A segment sent often enough marks the link dead. */
  predicate Exhausted(c: Clock, buf: seq<OutSeg>) {
    buf != [] &&
    (Exhausted(c, buf[..|buf| - 1]) ||
     (Due(c, buf[|buf| - 1]) && Touch(c, buf[|buf| - 1]).xmit >= c.deadLink))
  }

  /** The sending half as flush fills it up, before it looks at the buffered segments. */
  function Filled(k: Kcb): Sender {
    MoveToBuf(k.snd, Window(k.wnd), k.clock.current, k.clock.rxRto)
  }

  function FlushClock(k: Kcb): Clock {
    Probe(k.clock, k.wnd.rmt)
  }

  function FlushAsked(k: Kcb): Asked {
    k.asked.(send := k.asked.send || ProbeDue(k.clock, k.wnd.rmt))
  }

  /** Everything one flush emits, in order. */
  function FlushWires(k: Kcb): seq<Wire> {
    AckWires(k.conv, k.rcv, k.acks) + ProbeWires(k.conv, k.rcv, FlushAsked(k), LastAck(k.acks)) +
    PushWires(k.conv, k.rcv, FlushClock(k), Filled(k).buf)
  }

  datatype FlushResult = FlushResult(k: Kcb, out: seq<seq<Wire>>)

  function Flushed(k: Kcb): Kcb {
    var s := Filled(k);
    var c := FlushClock(k);
    k.(snd := s.(buf := TouchAll(c, s.buf)), acks := [], asked := Asked(false, false),
       clock := c.(dead := c.dead || Exhausted(c, s.buf)))
  }

  function Flush(k: Kcb): FlushResult {
    if k.clock.updated then FlushResult(Flushed(k), Output(Pack(k.mtu, FlushWires(k))))
    else FlushResult(k, [])
  }

  /** The clock after an update, and whether a flush is due. */
  function Tick(c0: Clock, now: u32): (Clock, bool) {
    var c := c0.(current := now, updated := true, tsFlush := if c0.updated then c0.tsFlush else now);
    var slap := TimeDiff(now, c.tsFlush);
    var far := slap >= 10000 || slap < -10000;
    var base := if far then now else c.tsFlush;
    var ts := Add(base, c.interval);
    if far || slap >= 0 then (c.(tsFlush := if TimeDiff(now, ts) >= 0 then Add(now, c.interval) else ts), true)
    else (c.(tsFlush := base), false)
  }

  function Update(k: Kcb, now: u32): FlushResult {
    var (c, due) := Tick(k.clock, now);
    if due then Flush(k.(clock := c)) else FlushResult(k.(clock := c), [])
  }

  /** The shortest time until a buffered segment is overdue, at most the largest int. */
  function Soonest(buf: seq<OutSeg>, now: u32): int {
    if buf == [] then TWO31 - 1
    else Min(Soonest(buf[..|buf| - 1], now), TimeDiff(buf[|buf| - 1].resendTs, now))
  }

  /** When update should be called next. */
  function Check(k: Kcb, now: u32): u32 {
    var slap := TimeDiff(now, k.clock.tsFlush);
    if !k.clock.updated || slap >= 0 || slap < -10000 || Soonest(k.snd.buf, now) <= 0 then now
    else Add(now, Min(Min(Soonest(k.snd.buf, now), -slap), k.clock.interval))
  }

  // ---------------------------------------------------------------- configuration

  function WndSize(k: Kcb, snd: int, rcv: int): Kcb
    requires snd < TWO31 && rcv < TWO31
  {
    var w := Max(rcv, IKCP_WND_RCV);
    k.(wnd := if snd > 0 then k.wnd.(snd := snd, maxSnd := Max(k.wnd.maxSnd, snd)) else k.wnd,
       rcv := if rcv > 0 then k.rcv.(wnd := w, maxWnd := Max(k.rcv.maxWnd, w)) else k.rcv)
  }

  /** Congestion control and round-trip estimation are not modelled: they may set the
      congestion window and the retransmission timeout to anything, at any time. */
  function Tune(k: Kcb, cwnd: u32, rto: u32): Kcb {
    k.(wnd := k.wnd.(cwnd := cwnd), clock := k.clock.(rxRto := rto))
  }

  function NoDelay(k: Kcb, nodelay: int, interval: int, resend: int, nc: int): Kcb {
    k.(clock := k.clock.(
         nodelay := if nodelay >= 0 then nodelay else k.clock.nodelay,
         interval := if interval < 0 then k.clock.interval else if interval > 5000 then 5000
                     else if interval < 10 then 10 else interval,
         fastResend := if resend >= 0 then resend else k.clock.fastResend),
       wnd := k.wnd.(nocwnd := if nc >= 0 then nc != 0 else k.wnd.nocwnd))
  }
}
