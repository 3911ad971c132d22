/** The KCP control block as an object.  Every method is proved to turn the state into what the
    functions of KcpSpec say, to keep the endpoint well formed, and to keep the four counters
    equal to the lengths of the queues they count. */
module Kcp {
  import opened Options
  import opened Sequences
  import opened Serial
  import opened KcpWire
  import opened KcpSpec
  import opened KcpInvariant

  /** The datagrams of a flush as bytes. */
  function Bytes(out: seq<seq<Wire>>): (bs: seq<seq<byte>>)
    requires forall i :: 0 <= i < |out| ==> Encodable(out[i])
    ensures |bs| == |out|
  {
    if out == [] then [] else Bytes(out[..|out| - 1]) + [EncodeAll(out[|out| - 1])]
  }

  predicate AllEncodable(p: Packing) {
    Encodable(p.cur) && forall i :: 0 <= i < |p.done| ==> Encodable(p.done[i])
  }

  class Ikcp {
    const conv: u32
    const mtu: Mtu
    const stream: bool
    var sndUna: u32
    var sndNxt: u32
    var rcvNxt: u32
    var rcvWnd: u32
    var nsndQue: nat
    var nsndBuf: nat
    var nrcvQue: nat
    var nrcvBuf: nat
    var sndQueue: seq<Frag>
    var sndBuf: seq<OutSeg>
    var rcvBuf: seq<InSeg>
    var rcvQueue: seq<Frag>
    var ackList: seq<Ack>
    var asked: Asked   // probe
    var wnd: Windows   // snd_wnd, rmt_wnd, cwnd, nocwnd
    var clock: Clock   // current, updated, interval, ts_flush, ts_probe, probe_wait, rx_rto, ...
    ghost var maxRcvWnd: u32

    ghost function Snd(): Sender reads this {
      Sender(sndUna, sndNxt, sndQueue, sndBuf)
    }

    ghost function Rcv(): Receiver reads this {
      Receiver(rcvNxt, rcvWnd, maxRcvWnd, rcvBuf, rcvQueue)
    }

    ghost function State(): Kcb reads this {
      Kcb(conv, mtu, stream, Snd(), Rcv(), ackList, asked, wnd, clock)
    }

    ghost predicate Counted() reads this {
      nsndQue == |sndQueue| && nsndBuf == |sndBuf| && nrcvQue == |rcvQueue| && nrcvBuf == |rcvBuf|
    }

    ghost predicate Valid() reads this {
      Counted() && Wf(State())
    }

    constructor (conv: u32, mtu: Mtu, stream: bool)
      ensures Valid() && State() == Create(conv, mtu, stream)
    {
      this.conv, this.mtu, this.stream := conv, mtu, stream;
      sndUna, sndNxt, rcvNxt, rcvWnd, maxRcvWnd := 0, 0, 0, IKCP_WND_RCV, IKCP_WND_RCV;
      nsndQue, nsndBuf, nrcvQue, nrcvBuf := 0, 0, 0, 0;
      sndQueue, sndBuf, rcvBuf, rcvQueue, ackList := [], [], [], [], [];
      asked := Asked(false, false);
      wnd := Windows(IKCP_WND_SND, IKCP_WND_SND, IKCP_WND_RCV, 0, false);
      clock := Clock(0, false, IKCP_INTERVAL, IKCP_INTERVAL, 0, 0, IKCP_RTO_DEF, 0, 0, IKCP_FASTACK_LIMIT,
                     IKCP_DEADLINK, false);
      new;
      CreateWf(conv, mtu, stream);
    }

    // -------------------------------------------------------------- sending messages

    /** Returns 0, or -2 for a message of too many fragments. */
    method SendData(buffer: seq<byte>) returns (code: int)
      requires Valid()
      modifies `sndQueue, `nsndQue
      ensures Valid()
      ensures (State(), code) == Send(old(State()), buffer)
    {
      hide Wf, Extend, Frags;
      SendKeeps(State(), buffer);
      var mss := mtu - IKCP_OVERHEAD;
      var data := buffer;
      if stream {
        data := ExtendQueue(data, mss);
        if |data| == 0 {
          return 0;
        }
      }
      var count := if |data| <= mss then 1 else (|data| + mss - 1) / mss;
      if count >= IKCP_WND_RCV {
        return -2;
      }
      EnqueueFrags(data, mss, count);
      code := 0;
    }

    /** In stream mode the last queued segment is filled up first; returns what is left. */
    method ExtendQueue(buffer: seq<byte>, mss: nat) returns (data: seq<byte>)
      requires Counted()
      modifies `sndQueue
      ensures Counted() && (sndQueue, data) == Extend(old(sndQueue), mss, buffer)
    {
      data := buffer;
      if sndQueue != [] {
        var last := sndQueue[|sndQueue| - 1];
        if |last.data| < mss {
          var capacity := mss - |last.data|;
          var extend := if |data| < capacity then |data| else capacity;
          sndQueue := sndQueue[..|sndQueue| - 1] + [Frag(0, last.data + data[..extend])];
          data := data[extend..];
        }
      }
    }

    method EnqueueFrags(buffer: seq<byte>, mss: nat, count: nat)
      requires mss > 0 && 1 <= count <= 128 && Counted()
      modifies `sndQueue, `nsndQue
      ensures Counted()
      ensures sndQueue == old(sndQueue) + Frags(buffer, mss, stream, count)
    {
      hide FragsLeft;
      var data := buffer;
      ghost var cut: seq<Frag> := [];
      FragsStart(buffer, mss, stream, count);
      var i := 0;
      while i < count
        invariant i <= count && Counted()
        invariant sndQueue == old(sndQueue) + cut
        invariant Frags(buffer, mss, stream, count) == cut + FragsLeft(data, mss, stream, count - i)
      {
        hide Frags;
        var size := if |data| > mss then mss else |data|;
        var f := Frag(if stream then 0 else count - i - 1, data[..size]);
        FragsNext(data, mss, stream, count - i);
        Assoc(cut, [f], FragsLeft(data[size..], mss, stream, count - i - 1));
        Assoc(old(sndQueue), cut, [f]);
        sndQueue := sndQueue + [f];
        nsndQue := nsndQue + 1;
        cut := cut + [f];
        data := data[size..];
        i := i + 1;
      }
      FragsNone(cut, data, mss, stream);
    }

    // -------------------------------------------------------------- receiving messages

    method Peek() returns (length: int)
      requires Counted()
      ensures length == PeekSize(rcvQueue)
    {
      if rcvQueue == [] {
        return -1;
      }
      if rcvQueue[0].frg == 0 {
        return |rcvQueue[0].data|;
      }
      if nrcvQue < rcvQueue[0].frg + 1 {
        return -1;
      }
      length := 0;
      var p := 0;
      while p < |rcvQueue|
        invariant p <= |rcvQueue|
        invariant length == |DataOf(rcvQueue[..p])|
        invariant MsgLen(rcvQueue) == p + MsgLen(rcvQueue[p..])
      {
        assert rcvQueue[..p + 1][..p] == rcvQueue[..p];
        assert rcvQueue[p..][1..] == rcvQueue[p + 1..];
        length := length + |rcvQueue[p].data|;
        p := p + 1;
        if rcvQueue[p - 1].frg == 0 {
          break;
        }
      }
      assert MsgLen(rcvQueue) == p;
    }

    /** Moves what has become contiguous from rcv_buf to rcv_queue. */
    method MoveAvailable()
      requires Counted()
      modifies `rcvBuf, `rcvQueue, `rcvNxt, `nrcvBuf, `nrcvQue
      ensures Counted()
      ensures Rcv() == MoveReady(old(Rcv()))
    {
      while rcvBuf != []
        invariant Counted()
        invariant MoveReady(Rcv()) == MoveReady(old(Rcv()))
        decreases |rcvBuf|
      {
        if rcvBuf[0].sn == rcvNxt && nrcvQue < rcvWnd {
          rcvQueue := rcvQueue + [rcvBuf[0].frag];
          rcvBuf := rcvBuf[1..];
          nrcvBuf := nrcvBuf - 1;
          nrcvQue := nrcvQue + 1;
          rcvNxt := Add(rcvNxt, 1);
        } else {
          break;
        }
      }
    }

    /** Merges the fragments of the first message; unless peeking, takes them off the queue. */
    method MergeFragments(peeking: bool) returns (data: seq<byte>)
      requires Counted()
      modifies `rcvQueue, `nrcvQue
      ensures Counted()
      ensures data == DataOf(old(rcvQueue)[..MsgLen(old(rcvQueue))])
      ensures rcvQueue == if peeking then old(rcvQueue) else old(rcvQueue)[MsgLen(old(rcvQueue))..]
    {
      ghost var q := rcvQueue;
      ghost var n := 0;
      data := [];
      var p := 0;
      MergeStart(q);
      hide MsgLen, DataOf;
      while p < |rcvQueue|
        invariant Counted()
        invariant n <= |q| && p == (if peeking then n else 0)
        invariant rcvQueue == if peeking then q else q[n..]
        invariant data == DataOf(q[..n]) && MsgLen(q) == n + MsgLen(q[n..])
        decreases |q| - n
      {
        var seg := rcvQueue[p];
        MergeStep(q, n);
        data := data + seg.data;
        if peeking {
          p := p + 1;
        } else {
          assert rcvQueue[1..] == q[n + 1..];
          rcvQueue := rcvQueue[1..];
          nrcvQue := nrcvQue - 1;
        }
        n := n + 1;
        if seg.frg == 0 {
          return;
        }
      }
      MergeEnd(q, n);
    }

    method TakeMessage(peeking: bool) returns (data: seq<byte>)
      requires Counted()
      modifies this
      ensures Counted()
      ensures var q := old(rcvQueue); var n := MsgLen(q);
        var r := MoveReady(if peeking then old(Rcv()) else old(Rcv()).(queue := q[n..]));
        && data == DataOf(q[..n])
        && State() == old(State()).(
             rcv := r,
             asked := old(asked).(tell := old(asked).tell || (|q| >= r.wnd && |r.queue| < r.wnd)))
    {
      hide MoveReady, MsgLen, DataOf;
      var recover := nrcvQue >= rcvWnd;
      data := MergeFragments(peeking);
      MoveAvailable();
      if nrcvQue < rcvWnd && recover {
        asked := asked.(tell := true);
      }
    }

    /** 0 if a message is there and fits into len bytes, else the error code of recv. */
    method CheckReceive(len: int) returns (code: int)
      requires Counted()
      ensures code == if rcvQueue == [] then -1 else if PeekSize(rcvQueue) < 0 then -2
                      else if PeekSize(rcvQueue) > Abs(len) then -3 else 0
    {
      if rcvQueue == [] {
        return -1;
      }
      var size := Peek();
      if size < 0 {
        return -2;
      }
      if size > (if len < 0 then -len else len) {
        return -3;
      }
      code := 0;
    }

    /** Returns the size of the message, or -1, -2, -3. */
    method Receive(len: int) returns (code: int, data: seq<byte>)
      requires Valid()
      modifies this
      ensures Valid()
      ensures RecvResult(State(), code, data) == Recv(old(State()), len)
    {
      RecvKeeps(State(), len);
      hide Wf, MoveReady, MsgLen, PeekSize, DataOf, Drained;
      data := [];
      code := CheckReceive(len);
      if code == 0 {
        data := TakeMessage(len < 0);
        code := |data|;
      }
    }

    // -------------------------------------------------------------- input

    method ShrinkBuf()
      modifies `sndUna
      ensures Snd() == Shrunk(old(Snd()), sndBuf)
    {
      if sndBuf != [] {
        sndUna := sndBuf[0].sn;
      } else {
        sndUna := sndNxt;
      }
    }

    method DropUna(una: u32)
      requires Counted()
      modifies `sndBuf, `nsndBuf
      ensures Counted()
      ensures sndBuf == DropBefore(old(sndBuf), una)
    {
      while sndBuf != []
        invariant Counted()
        invariant DropBefore(sndBuf, una) == DropBefore(old(sndBuf), una)
        decreases |sndBuf|
      {
        if TimeDiff(una, sndBuf[0].sn) > 0 {
          sndBuf := sndBuf[1..];
          nsndBuf := nsndBuf - 1;
        } else {
          break;
        }
      }
    }

    /** Searches snd_buf for an acked number, giving up at the first larger one. */
    method FindAcked(sn: u32) returns (p: nat)
      ensures p <= |sndBuf|
      ensures Without(sndBuf, sn) == if p < |sndBuf| then sndBuf[..p] + sndBuf[p + 1..] else sndBuf
    {
      hide Without;
      p := 0;
      while p < |sndBuf|
        invariant p <= |sndBuf|
        invariant Without(sndBuf, sn) == sndBuf[..p] + Without(sndBuf[p..], sn)
      {
        WithoutStep(sndBuf, p, sn);
        if sn == sndBuf[p].sn {
          return;
        }
        if TimeDiff(sn, sndBuf[p].sn) < 0 {
          return |sndBuf|;
        }
        p := p + 1;
      }
      WithoutEnd(sndBuf, sn);
    }

    method RemoveAcked(sn: u32)
      requires Counted()
      modifies `sndBuf, `nsndBuf
      ensures Counted()
      ensures sndBuf == if Outstanding(old(Snd()), sn) then Without(old(sndBuf), sn) else old(sndBuf)
    {
      hide Without;
      if TimeDiff(sn, sndUna) < 0 || TimeDiff(sn, sndNxt) >= 0 {
        return;
      }
      var p := FindAcked(sn);
      if p < |sndBuf| {
        sndBuf := sndBuf[..p] + sndBuf[p + 1..];
        nsndBuf := nsndBuf - 1;
      }
    }

    /** Walks snd_buf up to the first number beyond sn, counting what it passes as skipped. */
    method CountSkipped(sn: u32)
      modifies `sndBuf
      ensures sndBuf == Skipped(old(sndBuf), sn)
    {
      ghost var buf := sndBuf;
      var p := 0;
      hide Skipped;
      while p < |sndBuf|
        invariant p <= |sndBuf| == |buf|
        invariant sndBuf[p..] == buf[p..]
        invariant Skipped(buf, sn) == sndBuf[..p] + Skipped(buf[p..], sn)
      {
        var seg := sndBuf[p];
        SkippedStep(sndBuf, buf, p, sn);
        if TimeDiff(sn, seg.sn) < 0 {
          return;
        }
        if sn != seg.sn {
          sndBuf := sndBuf[p := seg.(fastack := Add(seg.fastack, 1))];
        }
        p := p + 1;
      }
      SkippedEnd(sndBuf, buf, sn);
    }

    method FastAck(sn: u32)
      requires Counted()
      modifies `sndBuf
      ensures Counted()
      ensures Snd() == ParseFastAck(old(Snd()), sn)
    {
      if TimeDiff(sn, sndUna) < 0 || TimeDiff(sn, sndNxt) >= 0 {
        return;
      }
      CountSkipped(sn);
    }

    method AckPush(sn: u32, ts: u32)
      modifies `ackList
      ensures ackList == old(ackList) + [Ack(sn, ts)]
    {
      ackList := ackList + [Ack(sn, ts)];
    }

    method AcceptData(seg: InSeg)
      requires Counted()
      modifies `rcvBuf, `rcvQueue, `rcvNxt, `nrcvBuf, `nrcvQue
      ensures Counted()
      ensures Rcv() == ParseData(old(Rcv()), seg)
    {
      hide Insert, MoveReady, TimeDiff;
      if TimeDiff(seg.sn, Add(rcvNxt, rcvWnd)) >= 0 || TimeDiff(seg.sn, rcvNxt) < 0 {
        return;
      }
      InsertData(seg);
      MoveAvailable();
    }

    /** Searches the place of a segment from the back, and inserts it unless its number is there. */
    method InsertData(seg: InSeg)
      requires Counted()
      modifies `rcvBuf, `nrcvBuf
      ensures Counted() && rcvBuf == Insert(old(rcvBuf), seg)
    {
      hide Insert, TimeDiff;
      var repeated := false;
      var p := |rcvBuf|;
      InsertedBefore(rcvBuf, p, seg);
      while p > 0
        invariant 0 <= p <= |rcvBuf|
        invariant Counted() && rcvBuf == old(rcvBuf)
        invariant Insert(rcvBuf, seg) == Insert(rcvBuf[..p], seg) + rcvBuf[p..]
        invariant !repeated
        decreases p
      {
        if rcvBuf[p - 1].sn == seg.sn {
          repeated := true;
          InsertedHere(rcvBuf, p, seg);
          break;
        }
        if TimeDiff(seg.sn, rcvBuf[p - 1].sn) > 0 {
          break;
        }
        InsertStep(rcvBuf, p, seg);
        p := p - 1;
      }
      if !repeated {
        InsertedHere(rcvBuf, p, seg);
        rcvBuf := rcvBuf[..p] + [seg] + rcvBuf[p..];
        nrcvBuf := nrcvBuf + 1;
      }
    }

    method HandleAcks(w: Wire)
      requires Counted()
      modifies this
      ensures Counted()
      ensures State() == old(State()).(snd := Acknowledge(old(Snd()), w))
    {
      hide DropBefore, Without, Outstanding;
      DropUna(w.una);
      ShrinkBuf();
      if w.cmd == IKCP_CMD_ACK {
        RemoveAcked(w.sn);
        ShrinkBuf();
      }
    }

    method HandlePush(w: Wire)
      requires Counted() && w.cmd == IKCP_CMD_PUSH
      modifies this
      ensures Counted()
      ensures State() == old(State()).(
                rcv := ParsePush(old(Rcv()), w),
                acks := if Acked(old(Rcv()), w) then old(ackList) + [Ack(w.sn, w.ts)] else old(ackList))
    {
      hide ParseData;
      if TimeDiff(w.sn, Add(rcvNxt, rcvWnd)) < 0 {
        AckPush(w.sn, w.ts);
        if TimeDiff(w.sn, rcvNxt) >= 0 {
          AcceptData(InSeg(w.sn, Frag(w.frg, w.data)));
        }
      }
    }

    /** What the input loop does with one decoded segment. */
    method InputOne(w: Wire)
      requires Counted()
      modifies this
      ensures Counted()
      ensures State() == InputSeg(old(State()), w)
    {
      hide ParseData, Acknowledge;
      wnd := wnd.(rmt := w.wnd);
      HandleAcks(w);
      if w.cmd == IKCP_CMD_PUSH {
        HandlePush(w);
      } else if w.cmd == IKCP_CMD_WASK {
        asked := asked.(tell := true);
      }
    }

    /** Decodes the header at position i: code is 0 for a segment to process, else the error. */
    method DecodeSegment(d: seq<byte>, i: nat) returns (code: int, w: Wire)
      requires i + IKCP_OVERHEAD <= |d|
      ensures code in {0, -1, -2, -3}
      ensures code == 0 ==> KnownCmd(w.cmd) && i + Size(w) <= |d|
      ensures ParseFrom(conv, d, i) ==
              if code != 0 then Parsed([], code)
              else Parsed([w] + ParseFrom(conv, d, i + Size(w)).segs, ParseFrom(conv, d, i + Size(w)).code)
    {
      hide HeaderAt, KnownCmd;
      w := Wire(conv, 0, 0, 0, 0, 0, 0, []);
      if Dec32(d, i) != conv {
        return -1, w;
      }
      var len := Dec32(d, i + 20);
      if |d| - i - IKCP_OVERHEAD < len || len >= TWO31 {
        return -2, w;
      }
      w := HeaderAt(d, i, len);
      if !KnownCmd(w.cmd) {
        return -3, w;
      }
      code := 0;
    }

    /** The input loop: processes segment after segment until the end or a bad one. */
    method InputLoop(d: seq<byte>) returns (code: int, maxack: Option<u32>)
      requires Valid()
      modifies this
      ensures Valid()
      ensures var p := ParseFrom(conv, d, 0);
        State() == InputSegs(old(State()), p.segs) && maxack == MaxAck(p.segs) && code == p.code
    {
      hide InputSeg, InputSegs, MaxAck, Wf, KnownCmd, ParseFrom, TimeDiff, Size;
      ghost var k0 := State();
      ghost var ws: seq<Wire> := [];
      maxack := None;
      var i := 0;
      NoSegs(k0);
      while |d| - i >= IKCP_OVERHEAD
        invariant i <= |d| && Valid()
        invariant ParseFrom(conv, d, 0) == Parsed(ws + ParseFrom(conv, d, i).segs, ParseFrom(conv, d, i).code)
        invariant State() == InputSegs(k0, ws)
        invariant maxack == MaxAck(ws)
        decreases |d| - i
      {
        var w: Wire;
        code, w := DecodeSegment(d, i);
        if code != 0 {
          assert ws + [] == ws;
          return;
        }
        SizePositive(w);
        InputSegKeeps(State(), w);
        InputOne(w);
        maxack := NoteAck(maxack, w);
        Assoc(ws, [w], ParseFrom(conv, d, i + Size(w)).segs);
        MoreSegs(k0, ws, w);
        ws := ws + [w];
        i := i + Size(w);
      }
      ParseRest(conv, d, i);
      assert ws + [] == ws;
      code := 0;
    }

    /** Feeds a datagram: 0, or -1, -2, -3 for a foreign, truncated or unknown segment. */
    method InputBytes(d: seq<byte>) returns (code: int)
      requires Valid()
      modifies this
      ensures Valid()
      ensures InputResult(State(), code) == Input(old(State()), d)
    {
      if |d| < IKCP_OVERHEAD {
        return -1;
      }
      hide InputSegs, MaxAck, Wf, ParseFrom, ParseFastAck;
      var maxack: Option<u32>;
      code, maxack := InputLoop(d);
      if code == 0 {
        FinishInput(maxack);
      }
    }

    method NoteAck(maxack0: Option<u32>, w: Wire) returns (maxack: Option<u32>)
      ensures maxack == if w.cmd == IKCP_CMD_ACK && (maxack0.None? || TimeDiff(w.sn, maxack0.value) > 0)
                        then Some(w.sn) else maxack0
    {
      maxack := maxack0;
      if w.cmd == IKCP_CMD_ACK {
        if maxack.None? || TimeDiff(w.sn, maxack.value) > 0 {
          maxack := Some(w.sn);
        }
      }
    }

    method FinishInput(maxack: Option<u32>)
      requires Valid()
      modifies this
      ensures Valid()
      ensures State() == if maxack.Some? then old(State()).(snd := ParseFastAck(old(Snd()), maxack.value))
                         else old(State())
    {
      if maxack.Some? {
        FastAckKeeps(State(), maxack.value);
        hide Wf, ParseFastAck;
        FastAck(maxack.value);
      }
    }

    // -------------------------------------------------------------- flush

    /** Appends one segment to the buffer, first putting out a buffer too full for it. */
    method Emit(w: Wire, buffer0: seq<byte>, out0: seq<seq<byte>>, ghost ws: seq<Wire>)
      returns (buffer: seq<byte>, out: seq<seq<byte>>)
      requires |w.data| < TWO31 && Emitted(mtu, ws, buffer0, out0)
      ensures Emitted(mtu, ws + [w], buffer, out)
    {
      hide Emitted, Encode;
      EmittedNext(mtu, ws, w, buffer0, out0);
      buffer, out := buffer0, out0;
      if |buffer| + IKCP_OVERHEAD + |w.data| > mtu {
        if |buffer| != 0 {
          out := out + [buffer];
        }
        buffer := [];
      }
      buffer := buffer + Encode(w);
    }

    method WndUnused() returns (n: u16)
      requires Counted()
      ensures n == Unused(Rcv())
    {
      if nrcvQue < rcvWnd {
        return (rcvWnd - nrcvQue) % 0x1_0000;
      }
      n := 0;
    }

    /** Encodes every queued ack once. */
    method FlushAcks(unused: u16) returns (buffer: seq<byte>, out: seq<seq<byte>>, last: Ack)
      requires unused == Unused(Rcv())
      ensures Emitted(mtu, AckWires(conv, Rcv(), ackList), buffer, out)
      ensures last == LastAck(ackList)
    {
      hide AckWires, Emitted, Unused;
      buffer, out, last := [], [], Ack(0, 0);
      ghost var ws: seq<Wire> := [];
      var i := 0;
      NothingEmitted(mtu, conv, Rcv(), ackList);
      while i < |ackList|
        invariant i <= |ackList|
        invariant ws == AckWires(conv, Rcv(), ackList[..i]) && last == LastAck(ackList[..i])
        invariant Emitted(mtu, ws, buffer, out)
      {
        last := ackList[i];
        var w := Wire(conv, IKCP_CMD_ACK, 0, unused, last.ts, last.sn, rcvNxt, []);
        NextAckWire(conv, Rcv(), ackList, i);
        buffer, out := Emit(w, buffer, out, ws);
        ws := ws + [w];
        i := i + 1;
      }
      assert ackList[..i] == ackList;
    }

    /** Schedules a window probe while the peer advertises a closed window. */
    method ProbeWindow()
      modifies `clock, `asked
      ensures clock == Probe(old(clock), wnd.rmt)
      ensures asked == old(asked).(send := old(asked).send || ProbeDue(old(clock), wnd.rmt))
    {
      if wnd.rmt == 0 {
        if clock.probeWait == 0 {
          clock := clock.(probeWait := IKCP_PROBE_INIT, tsProbe := Add(clock.current, IKCP_PROBE_INIT));
        } else if TimeDiff(clock.current, clock.tsProbe) >= 0 {
          var wait := if clock.probeWait < IKCP_PROBE_INIT then IKCP_PROBE_INIT else clock.probeWait;
          wait := Add(wait, wait / 2);
          if wait > IKCP_PROBE_LIMIT {
            wait := IKCP_PROBE_LIMIT;
          }
          clock := clock.(probeWait := wait, tsProbe := Add(clock.current, wait));
          asked := asked.(send := true);
        }
      } else {
        clock := clock.(tsProbe := 0, probeWait := 0);
      }
    }

    method FlushProbes(unused: u16, last: Ack, buffer0: seq<byte>, out0: seq<seq<byte>>, ghost ws: seq<Wire>)
      returns (buffer: seq<byte>, out: seq<seq<byte>>)
      requires unused == Unused(Rcv()) && Emitted(mtu, ws, buffer0, out0)
      ensures Emitted(mtu, ws + ProbeWires(conv, Rcv(), asked, last), buffer, out)
    {
      hide Emitted, Unused;
      buffer, out := buffer0, out0;
      var wask := Wire(conv, IKCP_CMD_WASK, 0, unused, last.ts, last.sn, rcvNxt, []);
      var wins := wask.(cmd := IKCP_CMD_WINS);
      assert wask == Control(conv, Rcv(), IKCP_CMD_WASK, last) && wins == Control(conv, Rcv(), IKCP_CMD_WINS, last);
      if asked.send {
        buffer, out := Emit(wask, buffer, out, ws);
      }
      ghost var ws1 := if asked.send then ws + [wask] else ws;
      if asked.tell {
        buffer, out := Emit(wins, buffer, out, ws1);
      }
      assert ws + ProbeWires(conv, Rcv(), asked, last) == if asked.tell then ws1 + [wins] else ws1;
    }

    /** Numbers queued fragments and moves them to snd_buf while the window allows. */
    method FillBuffer(cwnd: u32)
      requires Counted()
      modifies `sndQueue, `sndBuf, `sndNxt, `nsndQue, `nsndBuf
      ensures Counted()
      ensures Snd() == MoveToBuf(old(Snd()), cwnd, clock.current, clock.rxRto)
    {
      while TimeDiff(sndNxt, Add(sndUna, cwnd)) < 0
        invariant Counted()
        invariant MoveToBuf(Snd(), cwnd, clock.current, clock.rxRto)
               == MoveToBuf(old(Snd()), cwnd, clock.current, clock.rxRto)
        decreases |sndQueue|
      {
        if sndQueue == [] {
          break;
        }
        sndBuf := sndBuf + [OutSeg(sndNxt, sndQueue[0], clock.current, clock.rxRto, 0, 0)];
        sndQueue := sndQueue[1..];
        nsndQue := nsndQue - 1;
        nsndBuf := nsndBuf + 1;
        sndNxt := Add(sndNxt, 1);
      }
    }

    /** Decides whether a segment is (re)sent now, and updates its counters and timers. */
    method TouchSegment(seg: OutSeg) returns (s: OutSeg, needsend: bool)
      ensures s == Touch(clock, seg) && needsend == Due(clock, seg)
    {
      s, needsend := seg, false;
      var resent := if clock.fastResend > 0 then clock.fastResend else IKCP_NO_RESEND;
      if s.xmit == 0 {
        needsend := true;
        var rtomin := if clock.nodelay == 0 then clock.rxRto / 8 else 0;
        s := s.(xmit := 1, rto := clock.rxRto, resendTs := Add(Add(clock.current, clock.rxRto), rtomin));
      } else if TimeDiff(clock.current, s.resendTs) >= 0 {
        needsend := true;
        var rto: u32;
        if clock.nodelay == 0 {
          rto := Add(s.rto, Max(s.rto, clock.rxRto));
        } else {
          rto := Add(s.rto, Half(if clock.nodelay < 2 then s.rto else clock.rxRto));
        }
        s := s.(xmit := Add(s.xmit, 1), rto := rto, resendTs := Add(clock.current, rto));
      } else if s.fastack >= resent {
        if Signed(s.xmit) <= clock.fastLimit || clock.fastLimit <= 0 {
          needsend := true;
          s := s.(xmit := Add(s.xmit, 1), fastack := 0, resendTs := Add(clock.current, s.rto));
        }
      }
    }

    /** Walks snd_buf and encodes what has to be sent; tells whether the link is worn out. */
    method FlushSegments(unused: u16, buffer0: seq<byte>, out0: seq<seq<byte>>, ghost ws: seq<Wire>)
      returns (buffer: seq<byte>, out: seq<seq<byte>>, worn: bool)
      requires Counted() && unused == Unused(Rcv()) && Emitted(mtu, ws, buffer0, out0)
      requires SegsFit(mtu, sndBuf)
      modifies `sndBuf
      ensures Counted() && sndBuf == TouchAll(clock, old(sndBuf))
      ensures Emitted(mtu, ws + PushWires(conv, old(Rcv()), clock, old(sndBuf)), buffer, out)
      ensures worn == Exhausted(clock, old(sndBuf))
    {
      hide Touch, Due, Emitted, TouchAll, PushWires, Exhausted, Unused, Flushing;
      buffer, out, worn := buffer0, out0, false;
      ghost var buf, pushed: seq<Wire> := sndBuf, [];
      FlushingStart(conv, Rcv(), clock, buf, ws);
      var i := 0;
      while i < |sndBuf|
        invariant i <= |sndBuf| == |buf| && Counted() && Rcv() == old(Rcv())
        invariant Flushing(conv, Rcv(), clock, buf, i, sndBuf, pushed, worn)
        invariant Emitted(mtu, ws + pushed, buffer, out)
      {
        FlushingNext(conv, Rcv(), clock, buf, i, sndBuf, pushed, worn);
        var s, needsend := TouchSegment(sndBuf[i]);
        sndBuf := sndBuf[i := s];
        if needsend {
          var w := Wire(conv, IKCP_CMD_PUSH, s.frag.frg, unused, clock.current, s.sn, rcvNxt, s.frag.data);
          buffer, out := Emit(w, buffer, out, ws + pushed);
          Assoc(ws, pushed, [w]);
          pushed := pushed + [w];
          if s.xmit >= clock.deadLink {
            worn := true;
          }
        }
        i := i + 1;
      }
      FlushingEnd(conv, Rcv(), clock, buf, sndBuf, pushed, worn);
    }

    /** The first half of a flush: acks and window probes. */
    method FlushControl(unused: u16) returns (buffer: seq<byte>, out: seq<seq<byte>>)
      requires Counted() && unused == Unused(Rcv())
      modifies this
      ensures Counted()
      ensures var k := old(State());
        && State() == k.(acks := [], asked := Asked(false, false), clock := FlushClock(k))
        && Emitted(mtu, ControlWires(k), buffer, out)
    {
      hide Probe, ProbeDue, AckWires, ProbeWires, Emitted, Unused, LastAck;
      var last: Ack;
      ghost var k := State();
      buffer, out, last := FlushAcks(unused);
      ackList := [];
      ProbeWindow();
      buffer, out := FlushProbes(unused, last, buffer, out, AckWires(k.conv, k.rcv, k.acks));
      asked := Asked(false, false);
    }

    /** The second half: new segments and retransmissions. */
    method FlushData(unused: u16, buffer0: seq<byte>, out0: seq<seq<byte>>, ghost ws: seq<Wire>)
      returns (buffer: seq<byte>, out: seq<seq<byte>>)
      requires Counted() && unused == Unused(Rcv()) && Emitted(mtu, ws, buffer0, out0)
      requires SegsFit(mtu, Filled(State()).buf)
      modifies this
      ensures Counted()
      ensures var k := old(State()); var s := Filled(k);
        && State() == k.(snd := s.(buf := TouchAll(k.clock, s.buf)),
                         clock := k.clock.(dead := k.clock.dead || Exhausted(k.clock, s.buf)))
        && Emitted(mtu, ws + PushWires(k.conv, k.rcv, k.clock, s.buf), buffer, out)
    {
      hide MoveToBuf, TouchAll, Exhausted, PushWires, Emitted, Unused, SegsFit;
      var worn: bool;
      var cwnd := Min(wnd.snd, wnd.rmt);
      if !wnd.nocwnd {
        cwnd := Min(wnd.cwnd, cwnd);
      }
      FillBuffer(cwnd);
      buffer, out, worn := FlushSegments(unused, buffer0, out0, ws);
      if worn {
        clock := clock.(dead := true);
      }
    }

    /** Puts out everything due: acks, probes, new segments and retransmissions. */
    method FlushAll() returns (out: seq<seq<byte>>)
      requires Valid()
      modifies this
      ensures Valid()
      ensures State() == Flush(old(State())).k
      ensures forall i :: 0 <= i < |Flush(old(State())).out| ==> Encodable(Flush(old(State())).out[i])
      ensures out == Bytes(Flush(old(State())).out)
    {
      out := [];
      if !clock.updated {
        return;
      }
      ghost var k := State();
      FlushKeeps(k);
      FilledKeeps(k);
      FilledControl(k);
      hide Wf, Filled, FlushClock, TouchAll, Exhausted, PushWires, ControlWires, Emitted, Unused, SegsFit;
      var unused := WndUnused();
      var buffer: seq<byte>;
      buffer, out := FlushControl(unused);
      buffer, out := FlushData(unused, buffer, out, ControlWires(k));
      FlushWiresHalves(k);
      FinishEmitted(mtu, FlushWires(k), buffer, out);
      if |buffer| > 0 {
        out := out + [buffer];
      }
    }

    /** Sets the clock and flushes when the flush interval has passed. */
    method UpdateAt(now: u32) returns (out: seq<seq<byte>>)
      requires Valid()
      modifies this
      ensures Valid()
      ensures State() == Update(old(State()), now).k
      ensures forall i :: 0 <= i < |Update(old(State()), now).out| ==> Encodable(Update(old(State()), now).out[i])
      ensures out == Bytes(Update(old(State()), now).out)
    {
      hide Wf, Flush, Encodable, Tick, TimeDiff;
      ghost var k := State();
      var due := SetClock(now);
      ClockKeeps(k, clock);
      out := [];
      if due {
        out := FlushAll();
      }
    }

    /** Sets the clock; tells whether a flush is due. */
    method SetClock(now: u32) returns (due: bool)
      modifies `clock
      ensures (clock, due) == Tick(old(clock), now)
    {
      clock := clock.(current := now);
      if !clock.updated {
        clock := clock.(updated := true, tsFlush := now);
      }
      var slap := TimeDiff(now, clock.tsFlush);
      if slap >= 10000 || slap < -10000 {
        clock := clock.(tsFlush := now);
        slap := 0;
      }
      due := slap >= 0;
      if due {
        clock := clock.(tsFlush := Add(clock.tsFlush, clock.interval));
        if TimeDiff(now, clock.tsFlush) >= 0 {
          clock := clock.(tsFlush := Add(now, clock.interval));
        }
      }
    }

    /** When to call update next. */
    method CheckAt(now: u32) returns (t: u32)
      ensures t == Check(State(), now)
    {
      hide TimeDiff;
      if !clock.updated {
        return now;
      }
      var tsFlush := clock.tsFlush;
      if TimeDiff(now, tsFlush) >= 10000 || TimeDiff(now, tsFlush) < -10000 {
        tsFlush := now;
      }
      TurnedDiff(now, tsFlush);
      if TimeDiff(now, tsFlush) >= 0 {
        return now;
      }
      var tmFlush, tmPacket := TimeDiff(tsFlush, now), TWO31 - 1;
      var i := 0;
      assert sndBuf[..0] == [];
      while i < |sndBuf|
        invariant 0 <= i <= |sndBuf| && tmPacket == Soonest(sndBuf[..i], now) > 0
      {
        assert sndBuf[..i + 1][..i] == sndBuf[..i];
        var diff := TimeDiff(sndBuf[i].resendTs, now);
        if diff <= 0 {
          SoonestPart(sndBuf, i, now);
          return now;
        }
        if diff < tmPacket {
          tmPacket := diff;
        }
        i := i + 1;
      }
      assert sndBuf[..i] == sndBuf;
      var minimal := if tmPacket < tmFlush then tmPacket else tmFlush;
      if minimal >= clock.interval {
        minimal := clock.interval;
      }
      t := Add(now, minimal);
    }

    /** Changes the window sizes; sizes that are not positive leave theirs alone. */
    method SetWndSize(snd: int, rcv: int)
      requires Valid() && snd < TWO31 && rcv < TWO31
      modifies this
      ensures Valid()
      ensures State() == WndSize(old(State()), snd, rcv)
    {
      WndSizeKeeps(State(), snd, rcv);
      hide Wf;
      if snd > 0 {
        wnd := wnd.(snd := snd, maxSnd := Max(wnd.maxSnd, snd));
      }
      if rcv > 0 {
        rcvWnd := Max(rcv, IKCP_WND_RCV);
        maxRcvWnd := Max(maxRcvWnd, rcvWnd);
      }
    }

    /** Stands for congestion control and round-trip estimation, which may choose any values. */
    method SetTuning(cwnd: u32, rto: u32)
      requires Valid()
      modifies `clock, `wnd
      ensures Valid()
      ensures State() == Tune(old(State()), cwnd, rto)
    {
      SettingsKeep(State(), DoTune(cwnd, rto));
      hide Wf;
      wnd := wnd.(cwnd := cwnd);
      clock := clock.(rxRto := rto);
    }
  }

  lemma TurnedDiff(a: u32, b: u32)
    ensures TimeDiff(a, a) == 0
    ensures -TWO31 < TimeDiff(a, b) ==> TimeDiff(b, a) == -TimeDiff(a, b)
    ensures TimeDiff(a, b) < TWO31
  {
  }

  lemma SoonestPart(buf: seq<OutSeg>, i: nat, now: u32)
    requires i < |buf|
    ensures Soonest(buf, now) <= TimeDiff(buf[i].resendTs, now)
  {
    SoonestIs(buf, now);
  }

  lemma ClockKeeps(k: Kcb, c: Clock)
    requires Wf(k)
    ensures Wf(k.(clock := c))
  {
  }

  /** The acks and probes of a flush. */
  function ControlWires(k: Kcb): seq<Wire> {
    AckWires(k.conv, k.rcv, k.acks) + ProbeWires(k.conv, k.rcv, FlushAsked(k), LastAck(k.acks))
  }

  lemma FlushWiresHalves(k: Kcb)
    ensures FlushWires(k) == ControlWires(k) + PushWires(k.conv, k.rcv, FlushClock(k), Filled(k).buf)
  {
  }

  /** Acks and probes do not change what the window lets through. */
  lemma FilledControl(k: Kcb)
    requires SenderOk(Filled(k), k.mtu)
    ensures Filled(k.(acks := [], asked := Asked(false, false), clock := FlushClock(k))) == Filled(k)
    ensures SegsFit(k.mtu, Filled(k).buf)
  {
    hide MoveToBuf;
  }

  /** The segments ws have been encoded: those of finished datagrams are out, the rest is in
      the buffer. */
  ghost predicate Emitted(mtu: Mtu, ws: seq<Wire>, buffer: seq<byte>, out: seq<seq<byte>>) {
    var p := Pack(mtu, ws);
    AllEncodable(p) && buffer == EncodeAll(p.cur) && out == Bytes(p.done)
  }

  lemma NothingEmitted(mtu: Mtu, conv: u32, r: Receiver, acks: seq<Ack>)
    ensures acks[..0] == [] && AckWires(conv, r, acks[..0]) == [] && Emitted(mtu, [], [], [])
  {
  }

  lemma NextAckWire(conv: u32, r: Receiver, acks: seq<Ack>, i: nat)
    requires i < |acks|
    ensures AckWires(conv, r, acks[..i + 1])
         == AckWires(conv, r, acks[..i]) + [Control(conv, r, IKCP_CMD_ACK, acks[i])]
  {
    assert acks[..i + 1][..i] == acks[..i];
  }

  lemma FinishEmitted(mtu: Mtu, ws: seq<Wire>, buffer: seq<byte>, out: seq<seq<byte>>)
    requires Emitted(mtu, ws, buffer, out)
    ensures var o := Output(Pack(mtu, ws));
      && (forall i :: 0 <= i < |o| ==> Encodable(o[i]))
      && Bytes(o) == if |buffer| > 0 then out + [buffer] else out
  {
    var p := Pack(mtu, ws);
    EmptyIffNoSegments(p.cur);
    assert (p.done + [p.cur])[..|p.done|] == p.done;
  }

  /** Where the walk through snd_buf stands: the buffer as it is now, what has been sent, and
      whether the link is worn out. */
  ghost predicate Flushing(conv: u32, r: Receiver, c: Clock, buf: seq<OutSeg>, i: nat, now: seq<OutSeg>,
                           pushed: seq<Wire>, worn: bool)
  {
    && i <= |buf|
    && now == TouchAll(c, buf[..i]) + buf[i..]
    && pushed == PushWires(conv, r, c, buf[..i])
    && worn == Exhausted(c, buf[..i])
  }

  lemma FlushingStart(conv: u32, r: Receiver, c: Clock, buf: seq<OutSeg>, ws: seq<Wire>)
    ensures Flushing(conv, r, c, buf, 0, buf, [], false) && ws + [] == ws
  {
    assert buf[..0] == [];
  }

  lemma FlushingNext(conv: u32, r: Receiver, c: Clock, buf: seq<OutSeg>, i: nat, now: seq<OutSeg>,
                     pushed: seq<Wire>, worn: bool)
    requires Flushing(conv, r, c, buf, i, now, pushed, worn) && i < |buf|
    ensures |now| == |buf| && now[i] == buf[i]
    ensures var s := Touch(c, buf[i]);
      Flushing(conv, r, c, buf, i + 1, now[i := s],
               if Due(c, buf[i]) then pushed + [Push(conv, r, c.current, buf[i])] else pushed,
               worn || (Due(c, buf[i]) && s.xmit >= c.deadLink))
  {
    hide Touch, Due, Push;
    assert buf[..i + 1][..i] == buf[..i];
    assert now[i := Touch(c, buf[i])] == TouchAll(c, buf[..i + 1]) + buf[i + 1..];
  }

  lemma FlushingEnd(conv: u32, r: Receiver, c: Clock, buf: seq<OutSeg>, now: seq<OutSeg>, pushed: seq<Wire>, worn: bool)
    requires Flushing(conv, r, c, buf, |buf|, now, pushed, worn)
    ensures now == TouchAll(c, buf) && pushed == PushWires(conv, r, c, buf) && worn == Exhausted(c, buf)
  {
    hide Touch, Due, Push, TouchAll, PushWires, Exhausted;
    assert buf[..|buf|] == buf;
  }

  /** The fragments still to be cut. */
  function FragsLeft(data: seq<byte>, mss: nat, stream: bool, n: nat): seq<Frag>
    requires n <= 128
  {
    if n == 0 then [] else Frags(data, mss, stream, n)
  }

  lemma FragsStart(data: seq<byte>, mss: nat, stream: bool, n: nat)
    requires 1 <= n <= 128
    ensures Frags(data, mss, stream, n) == [] + FragsLeft(data, mss, stream, n)
  {
    hide Frags;
  }

  lemma FragsNext(data: seq<byte>, mss: nat, stream: bool, n: nat)
    requires 1 <= n <= 128
    ensures var size := Min(|data|, mss);
      FragsLeft(data, mss, stream, n)
      == [Frag(if stream then 0 else n - 1, data[..size])] + FragsLeft(data[size..], mss, stream, n - 1)
  {
  }

  lemma FragsNone(cut: seq<Frag>, data: seq<byte>, mss: nat, stream: bool)
    ensures cut + FragsLeft(data, mss, stream, 0) == cut
  {
    hide Frags;
  }

  /** Packing one more segment, in bytes. */
  lemma EmittedNext(mtu: Mtu, ws: seq<Wire>, w: Wire, buffer: seq<byte>, out: seq<seq<byte>>)
    requires |w.data| < TWO31 && Emitted(mtu, ws, buffer, out)
    ensures var full := |buffer| + IKCP_OVERHEAD + |w.data| > mtu;
      Emitted(mtu, ws + [w], (if full then [] else buffer) + Encode(w),
              if full && |buffer| != 0 then out + [buffer] else out)
  {
    var p := Pack(mtu, ws);
    PackMore(mtu, ws, w);
    hide Pack, Encode;
    EmptyIffNoSegments(p.cur);
    assert (p.cur + [w])[..|p.cur|] == p.cur;
    assert [w][..0] == [];
    assert (p.done + [p.cur])[..|p.done|] == p.done;
    hide SizeAll;
    if |buffer| + IKCP_OVERHEAD + |w.data| > mtu {
      assert EncodeAll([w]) == [] + Encode(w);
    }
  }

  lemma PackMore(mtu: int, ws: seq<Wire>, w: Wire)
    ensures Pack(mtu, ws + [w]) == PackStep(mtu, Pack(mtu, ws), w)
  {
    assert (ws + [w])[..|ws|] == ws;
  }

  lemma EmptyIffNoSegments(ws: seq<Wire>)
    requires Encodable(ws)
    ensures |EncodeAll(ws)| == 0 <==> ws == []
  {
  }

  lemma MergeStart(q: seq<Frag>)
    ensures DataOf(q[..0]) == [] && MsgLen(q) == 0 + MsgLen(q[0..])
  {
    assert q[0..] == q;
  }

  lemma MergeStep(q: seq<Frag>, n: nat)
    requires n < |q|
    ensures DataOf(q[..n + 1]) == DataOf(q[..n]) + q[n].data
    ensures MsgLen(q[n..]) == if q[n].frg == 0 then 1 else 1 + MsgLen(q[n + 1..])
  {
    assert q[..n + 1][..n] == q[..n];
    assert q[n..][1..] == q[n + 1..];
  }

  lemma MergeEnd(q: seq<Frag>, n: nat)
    requires n == |q|
    ensures MsgLen(q[n..]) == 0
  {
  }

  lemma SizePositive(w: Wire)
    ensures Size(w) > 0
  {
  }

  lemma ParseRest(conv: u32, d: seq<byte>, i: nat)
    requires i <= |d| < i + IKCP_OVERHEAD
    ensures ParseFrom(conv, d, i) == Parsed([], 0)
  {
  }

  lemma NoSegs(k: Kcb)
    ensures InputSegs(k, []) == k && MaxAck([]) == None
  {
  }

  lemma MoreSegs(k: Kcb, ws: seq<Wire>, w: Wire)
    ensures InputSegs(k, ws + [w]) == InputSeg(InputSegs(k, ws), w)
    ensures MaxAck(ws + [w]) ==
            if w.cmd == IKCP_CMD_ACK && (MaxAck(ws).None? || TimeDiff(w.sn, MaxAck(ws).value) > 0) then Some(w.sn)
            else MaxAck(ws)
  {
    assert (ws + [w])[..|ws|] == ws;
  }

  /** What the next segment of the buffer means for the search for an acked number. */
  lemma WithoutStep(buf: seq<OutSeg>, p: nat, sn: u32)
    requires p < |buf|
    ensures buf[..p] + Without(buf[p..], sn) ==
            if sn == buf[p].sn then buf[..p] + buf[p + 1..]
            else if TimeDiff(sn, buf[p].sn) < 0 then buf
            else buf[..p + 1] + Without(buf[p + 1..], sn)
  {
    assert buf[p..][1..] == buf[p + 1..];
    assert buf[..p + 1] == buf[..p] + [buf[p]];
    assert buf[..p] + buf[p..] == buf;
    Assoc(buf[..p], [buf[p]], Without(buf[p + 1..], sn));
  }

  lemma WithoutEnd(buf: seq<OutSeg>, sn: u32)
    ensures buf[..|buf|] + Without(buf[|buf|..], sn) == buf
  {
  }

  lemma SkippedStep(cur: seq<OutSeg>, buf: seq<OutSeg>, p: nat, sn: u32)
    requires p < |buf| == |cur| && cur[p..] == buf[p..]
    ensures var s := cur[p];
      var cur' := if sn != s.sn then cur[p := s.(fastack := Add(s.fastack, 1))] else cur;
      && (TimeDiff(sn, s.sn) < 0 ==> cur[..p] + Skipped(buf[p..], sn) == cur)
      && (TimeDiff(sn, s.sn) >= 0 ==>
            cur[..p] + Skipped(buf[p..], sn) == cur'[..p + 1] + Skipped(buf[p + 1..], sn))
      && cur'[p + 1..] == buf[p + 1..]
  {
    var s := cur[p];
    assert cur[p..][0] == buf[p..][0];
    assert buf[p..][1..] == buf[p + 1..] == cur[p..][1..];
    assert cur[..p] + cur[p..] == cur;
    var s' := if sn != s.sn then s.(fastack := Add(s.fastack, 1)) else s;
    var cur' := if sn != s.sn then cur[p := s'] else cur;
    assert cur'[..p + 1] == cur[..p] + [s'];
    Assoc(cur[..p], [s'], Skipped(buf[p + 1..], sn));
  }

  lemma SkippedEnd(cur: seq<OutSeg>, buf: seq<OutSeg>, sn: u32)
    requires |cur| == |buf|
    ensures cur[..|cur|] + Skipped(buf[|cur|..], sn) == cur
  {
  }

  lemma InsertedBefore(buf: seq<InSeg>, p: nat, seg: InSeg)
    requires p == |buf|
    ensures Insert(buf, seg) == Insert(buf[..p], seg) + buf[p..]
  {
    assert buf[..p] == buf;
  }

  lemma InsertedHere(buf: seq<InSeg>, p: nat, seg: InSeg)
    requires p <= |buf|
    ensures p > 0 && buf[p - 1].sn == seg.sn ==> Insert(buf[..p], seg) + buf[p..] == buf
    ensures p == 0 || (buf[p - 1].sn != seg.sn && TimeDiff(seg.sn, buf[p - 1].sn) > 0) ==>
      Insert(buf[..p], seg) == buf[..p] + [seg]
  {
    hide TimeDiff;
  }

  lemma InsertStep(buf: seq<InSeg>, p: nat, seg: InSeg)
    requires 0 < p <= |buf| && buf[p - 1].sn != seg.sn && !(TimeDiff(seg.sn, buf[p - 1].sn) > 0)
    ensures Insert(buf[..p], seg) + buf[p..] == Insert(buf[..p - 1], seg) + buf[p - 1..]
  {
    assert buf[..p][..p - 1] == buf[..p - 1];
    assert buf[p - 1..] == [buf[p - 1]] + buf[p..];
    Assoc(Insert(buf[..p - 1], seg), [buf[p - 1]], buf[p..]);
  }
}
