/** What every operation on one endpoint keeps, whatever bytes it is fed and wherever on the
    32-bit circle its sequence numbers lie. */
module KcpInvariant {
  import opened Serial
  import opened KcpWire
  import opened KcpSpec

  /** Numbers in snd_buf lie in [una, nxt) and increase. */
  predicate SndRange(una: u32, nxt: u32, buf: seq<OutSeg>) {
    && Sub(nxt, una) <= IKCP_WND_MAX
    && (forall i :: 0 <= i < |buf| ==> Sub(buf[i].sn, una) < Sub(nxt, una))
    && (forall i, j :: 0 <= i < j < |buf| ==> Sub(buf[i].sn, una) < Sub(buf[j].sn, una))
  }

  predicate SndHead(una: u32, nxt: u32, buf: seq<OutSeg>) {
    una == if buf == [] then nxt else buf[0].sn
  }

  /** Numbers in rcv_buf lie in [nxt, nxt + wnd) and increase. */
  predicate RcvRange(nxt: u32, wnd: u32, buf: seq<InSeg>) {
    && (forall i :: 0 <= i < |buf| ==> Sub(buf[i].sn, nxt) < wnd)
    && (forall i, j :: 0 <= i < j < |buf| ==> Sub(buf[i].sn, nxt) < Sub(buf[j].sn, nxt))
  }

  predicate FragsFit(mtu: Mtu, q: seq<Frag>) {
    forall i :: 0 <= i < |q| ==> |q[i].data| <= mtu - IKCP_OVERHEAD
  }

  predicate SegsFit(mtu: Mtu, buf: seq<OutSeg>) {
    forall i :: 0 <= i < |buf| ==> |buf[i].frag.data| <= mtu - IKCP_OVERHEAD
  }

  predicate SenderOk(s: Sender, mtu: Mtu) {
    && SndRange(s.una, s.nxt, s.buf)
    && SndHead(s.una, s.nxt, s.buf)
    && FragsFit(mtu, s.queue)
    && SegsFit(mtu, s.buf)
  }

  predicate ReceiverOk(r: Receiver) {
    && RcvRange(r.nxt, r.maxWnd, r.buf)
    && IKCP_WND_RCV <= r.wnd <= r.maxWnd < TWO31
  }

  predicate WindowsOk(w: Windows, inFlight: u32) {
    w.snd <= w.maxSnd && inFlight <= w.maxSnd && w.rmt <= IKCP_WND_MAX
  }

  predicate Wf(k: Kcb) {
    SenderOk(k.snd, k.mtu) && ReceiverOk(k.rcv) && WindowsOk(k.wnd, k.snd.InFlight())
  }

  /** rcv_buf never keeps the next expected number while rcv_queue has room. */
  predicate Drained(r: Receiver) {
    r.buf != [] && r.buf[0].sn == r.nxt ==> |r.queue| >= r.wnd
  }

  lemma CreateWf(conv: u32, mtu: Mtu, stream: bool)
    ensures Wf(Create(conv, mtu, stream)) && Drained(Create(conv, mtu, stream).rcv)
  {
  }

  // ---------------------------------------------------------------- sending

  lemma {:induction false} FragsFitMss(data: seq<byte>, mtu: Mtu, stream: bool, n: nat)
    requires 1 <= n <= 128
    ensures FragsFit(mtu, Frags(data, mtu - IKCP_OVERHEAD, stream, n))
    decreases n
  {
    if n > 1 {
      var mss := mtu - IKCP_OVERHEAD;
      FragsFitMss(data[Min(|data|, mss)..], mtu, stream, n - 1);
    }
  }

  lemma SendKeeps(k: Kcb, data: seq<byte>)
    requires Wf(k)
    ensures Wf(Send(k, data).0)
  {
    var (q, rest) := if k.stream then Extend(k.snd.queue, k.Mss(), data) else (k.snd.queue, data);
    var n := FragCount(|rest|, k.Mss());
    if n < IKCP_WND_RCV {
      FragsFitMss(rest, k.mtu, k.stream, n);
    }
  }

  // ---------------------------------------------------------------- the send buffer

  /** Shrinking after segments were removed moves una forward, never past nxt. */
  lemma ShrunkOk(s: Sender, buf: seq<OutSeg>, mtu: Mtu)
    requires SenderOk(s, mtu) && SndRange(s.una, s.nxt, buf) && SegsFit(mtu, buf)
    ensures var s' := Shrunk(s, buf);
      SenderOk(s', mtu) && Sub(s'.una, s.una) <= s.InFlight() && s'.InFlight() <= s.InFlight()
  {
    var una' := Shrunk(s, buf).una;
    Rebase(s.nxt, s.una, una');
    forall i | 0 <= i < |buf|
      ensures Sub(buf[i].sn, una') == Sub(buf[i].sn, s.una) - Sub(una', s.una)
    {
      Rebase(buf[i].sn, s.una, una');
    }
  }

  lemma {:induction false} DropBeforeSuffix(buf: seq<OutSeg>, una: u32) returns (m: nat)
    ensures m <= |buf| && DropBefore(buf, una) == buf[m..]
    ensures forall i :: 0 <= i < m ==> TimeDiff(una, buf[i].sn) > 0
  {
    m := 0;
    if buf != [] && TimeDiff(una, buf[0].sn) > 0 {
      var m' := DropBeforeSuffix(buf[1..], una);
      m := m' + 1;
      forall i | 0 <= i < m ensures TimeDiff(una, buf[i].sn) > 0 {
        if i > 0 { assert buf[i] == buf[1..][i - 1]; }
      }
    }
  }

  /** An ack removes one segment, the one with that number, or none. */
  lemma {:induction false} WithoutShape(buf: seq<OutSeg>, sn: u32) returns (m: nat)
    ensures m <= |buf|
    ensures m < |buf| ==> buf[m].sn == sn && Without(buf, sn) == buf[..m] + buf[m + 1..]
    ensures m == |buf| ==> Without(buf, sn) == buf
  {
    if buf == [] || (sn != buf[0].sn && TimeDiff(sn, buf[0].sn) < 0) {
      m := |buf|;
    } else if sn == buf[0].sn {
      m := 0;
      assert buf[..0] + buf[1..] == buf[1..];
    } else {
      var rest := buf[1..];
      var m' := WithoutShape(rest, sn);
      m := m' + 1;
      assert [buf[0]] + rest == buf;
      if m < |buf| {
        assert [buf[0]] + (rest[..m'] + rest[m..]) == buf[..m] + buf[m + 1..];
      }
    }
  }

  lemma SublistRange(una: u32, nxt: u32, buf: seq<OutSeg>, m: nat)
    requires SndRange(una, nxt, buf) && m < |buf|
    ensures SndRange(una, nxt, buf[..m] + buf[m + 1..])
  {
    var r := buf[..m] + buf[m + 1..];
    forall i | 0 <= i < |r| ensures r[i] == if i < m then buf[i] else buf[i + 1] {}
  }

  lemma {:induction false} SkippedSame(buf: seq<OutSeg>, sn: u32)
    ensures forall i :: 0 <= i < |buf| ==>
      Skipped(buf, sn)[i].sn == buf[i].sn && Skipped(buf, sn)[i].frag == buf[i].frag
  {
    if !(buf == [] || TimeDiff(sn, buf[0].sn) < 0) {
      SkippedSame(buf[1..], sn);
      forall i | 0 <= i < |buf|
        ensures Skipped(buf, sn)[i].sn == buf[i].sn && Skipped(buf, sn)[i].frag == buf[i].frag
      {
        if i > 0 {
          assert Skipped(buf, sn)[i] == Skipped(buf[1..], sn)[i - 1];
          assert buf[i] == buf[1..][i - 1];
        }
      }
    }
  }

  lemma OutstandingWindow(s: Sender, sn: u32)
    requires s.InFlight() <= IKCP_WND_MAX
    ensures Outstanding(s, sn) <==> Sub(sn, s.una) < s.InFlight()
  {
    WindowTest(sn, s.una, s.InFlight());
  }

  lemma WithoutOk(s: Sender, sn: u32, mtu: Mtu)
    requires SenderOk(s, mtu) && Sub(sn, s.una) < TWO31
    ensures SndRange(s.una, s.nxt, Without(s.buf, sn)) && SegsFit(mtu, Without(s.buf, sn))
  {
    var m := WithoutShape(s.buf, sn);
    hide Without, SndHead, FragsFit;
    if m < |s.buf| {
      SublistRange(s.una, s.nxt, s.buf, m);
      hide SndRange;
    }
  }

  lemma ParseAckKeeps(s: Sender, sn: u32, mtu: Mtu)
    requires SenderOk(s, mtu)
    ensures var s' := ParseAck(s, sn);
      SenderOk(s', mtu) && Sub(s'.una, s.una) <= s.InFlight() && s'.InFlight() <= s.InFlight()
  {
    InFlightBound(s, mtu);
    OutstandingWindow(s, sn);
    SenderOkRange(s, mtu);
    hide Outstanding, Without, SenderOk, Shrunk, SndRange, SegsFit;
    if Outstanding(s, sn) {
      WithoutOk(s, sn, mtu);
    }
    ShrunkOk(s, if Outstanding(s, sn) then Without(s.buf, sn) else s.buf, mtu);
  }

  lemma SenderOkRange(s: Sender, mtu: Mtu)
    requires SenderOk(s, mtu)
    ensures SndRange(s.una, s.nxt, s.buf) && SegsFit(mtu, s.buf)
  {
  }

  /** One step of una is at most as long as the numbers in flight; steps add up. */
  lemma Advance(a: u32, b: u32, c: u32, nxt: u32)
    requires Sub(nxt, a) <= IKCP_WND_MAX
    requires Sub(b, a) <= Sub(nxt, a) && Sub(c, b) <= Sub(nxt, b)
    ensures Sub(c, a) <= Sub(nxt, a)
  {
  }

  /** No segment, honest or not, moves una back or past nxt. */
  lemma AcknowledgeKeeps(s: Sender, w: Wire, mtu: Mtu)
    requires SenderOk(s, mtu)
    ensures var s' := Acknowledge(s, w);
      && SenderOk(s', mtu) && s'.nxt == s.nxt
      && Sub(s'.una, s.una) <= s.InFlight() && s'.InFlight() <= s.InFlight()
  {
    var m := DropBeforeSuffix(s.buf, w.una);
    var s1 := Shrunk(s, s.buf[m..]);
    assert s1 == Shrunk(s, DropBefore(s.buf, w.una));
    ShrunkOk(s, s.buf[m..], mtu);
    hide SenderOk, ParseAck, Shrunk, DropBefore;
    if w.cmd == IKCP_CMD_ACK {
      ParseAckKeeps(s1, w.sn, mtu);
      ParseAckNxt(s1, w.sn);
      ShrunkNxt(s, s.buf[m..]);
      InFlightBound(s, mtu);
      Advance(s.una, s1.una, ParseAck(s1, w.sn).una, s.nxt);
    } else {
      ShrunkNxt(s, s.buf[m..]);
    }
  }

  lemma ShrunkNxt(s: Sender, buf: seq<OutSeg>)
    ensures Shrunk(s, buf).nxt == s.nxt && Shrunk(s, buf).queue == s.queue
  {
  }

  lemma ParseAckNxt(s: Sender, sn: u32)
    ensures ParseAck(s, sn).nxt == s.nxt && ParseAck(s, sn).queue == s.queue
  {
  }

  lemma InFlightBound(s: Sender, mtu: Mtu)
    requires SenderOk(s, mtu)
    ensures s.InFlight() <= IKCP_WND_MAX
  {
  }

  // ---------------------------------------------------------------- the receive buffer

  lemma {:induction false} MoveReadyKeeps(r: Receiver)
    requires ReceiverOk(r)
    ensures ReceiverOk(MoveReady(r)) && Drained(MoveReady(r))
    decreases |r.buf|
  {
    if r.buf != [] && r.buf[0].sn == r.nxt && |r.queue| < r.wnd {
      var nxt := Add(r.nxt, 1);
      var rest := r.buf[1..];
      forall i | 0 <= i < |rest|
        ensures Sub(rest[i].sn, nxt) == Sub(r.buf[i + 1].sn, r.nxt) - 1
      {
        assert Sub(r.buf[0].sn, r.nxt) < Sub(r.buf[i + 1].sn, r.nxt);
        Rebase(rest[i].sn, r.nxt, nxt);
      }
      MoveReadyKeeps(r.(buf := rest, queue := r.queue + [r.buf[0].frag], nxt := nxt));
    }
  }

  /** Insertion puts the segment in front of every larger number and behind every smaller one,
      unless its number is there already. */
  lemma {:induction false} InsertShape(nxt: u32, wnd: u32, buf: seq<InSeg>, seg: InSeg) returns (m: nat)
    requires wnd < TWO31 && RcvRange(nxt, wnd, buf) && Sub(seg.sn, nxt) < wnd
    ensures m <= |buf|
    ensures forall i :: m <= i < |buf| ==> Sub(seg.sn, nxt) <= Sub(buf[i].sn, nxt)
    ensures forall i :: 0 <= i < m ==> Sub(buf[i].sn, nxt) < Sub(seg.sn, nxt)
    ensures if m < |buf| && buf[m].sn == seg.sn then Insert(buf, seg) == buf
            else Insert(buf, seg) == buf[..m] + [seg] + buf[m..]
  {
    hide RcvRange, Insert, Sub, TimeDiff;
    InsertBack(buf, seg);
    if buf == [] {
      m := 0;
    } else {
      var last, init := buf[|buf| - 1], buf[..|buf| - 1];
      RangeBack(nxt, wnd, buf);
      DiffFromBase(seg.sn, last.sn, nxt);
      if last.sn == seg.sn {
        m := |buf| - 1;
      } else if TimeDiff(seg.sn, last.sn) > 0 {
        m := |buf|;
      } else {
        m := InsertShape(nxt, wnd, init, seg);
        InsertLast(buf, seg, m);
      }
    }
  }

  /** The search for the place of a segment starts at the back. */
  lemma InsertBack(buf: seq<InSeg>, seg: InSeg)
    ensures Insert(buf, seg) ==
      if buf == [] then [seg]
      else if buf[|buf| - 1].sn == seg.sn then buf
      else if TimeDiff(seg.sn, buf[|buf| - 1].sn) > 0 then buf + [seg]
      else Insert(buf[..|buf| - 1], seg) + [buf[|buf| - 1]]
  {
    hide TimeDiff;
  }

  lemma RangeBack(nxt: u32, wnd: u32, buf: seq<InSeg>)
    requires RcvRange(nxt, wnd, buf) && buf != []
    ensures RcvRange(nxt, wnd, buf[..|buf| - 1]) && Sub(buf[|buf| - 1].sn, nxt) < wnd
    ensures forall i :: 0 <= i < |buf| - 1 ==> Sub(buf[i].sn, nxt) < Sub(buf[|buf| - 1].sn, nxt)
  {
    hide Sub;
  }

  lemma InsertLast(buf: seq<InSeg>, seg: InSeg, m: nat)
    requires buf != [] && m < |buf|
    ensures var init, last := buf[..|buf| - 1], buf[|buf| - 1];
      (init[..m] + [seg] + init[m..]) + [last] == buf[..m] + [seg] + buf[m..]
  {
  }

  lemma InsertedRange(nxt: u32, wnd: u32, buf: seq<InSeg>, seg: InSeg, m: nat)
    requires RcvRange(nxt, wnd, buf) && Sub(seg.sn, nxt) < wnd && m <= |buf|
    requires m < |buf| ==> Sub(seg.sn, nxt) < Sub(buf[m].sn, nxt)
    requires m > 0 ==> Sub(buf[m - 1].sn, nxt) < Sub(seg.sn, nxt)
    ensures RcvRange(nxt, wnd, buf[..m] + [seg] + buf[m..])
  {
    hide Sub;
    var r := buf[..m] + [seg] + buf[m..];
    forall i, j | 0 <= i < j < |r| ensures Sub(r[i].sn, nxt) < Sub(r[j].sn, nxt) {
      if i == m {
        assert r[j] == buf[j - 1];
      } else if j == m {
        assert r[i] == buf[i];
      } else {
        assert r[i] == buf[if i < m then i else i - 1] && r[j] == buf[if j < m then j else j - 1];
      }
    }
  }

  lemma InsertRange(nxt: u32, wnd: u32, buf: seq<InSeg>, seg: InSeg)
    requires wnd < TWO31 && RcvRange(nxt, wnd, buf) && Sub(seg.sn, nxt) < wnd
    ensures RcvRange(nxt, wnd, Insert(buf, seg))
  {
    hide Insert;
    var m := InsertShape(nxt, wnd, buf, seg);
    if !(m < |buf| && buf[m].sn == seg.sn) {
      if m < |buf| {
        DiffFromBase(seg.sn, buf[m].sn, nxt);
      }
      InsertedRange(nxt, wnd, buf, seg, m);
    }
  }

  lemma AcceptableWindow(r: Receiver, sn: u32)
    requires ReceiverOk(r)
    ensures Acceptable(r, sn) <==> Sub(sn, r.nxt) < r.wnd
  {
    WindowTest(sn, r.nxt, r.wnd);
  }

  lemma ParsePushKeeps(r: Receiver, w: Wire)
    requires ReceiverOk(r)
    ensures ReceiverOk(ParsePush(r, w))
    ensures Drained(r) ==> Drained(ParsePush(r, w))
  {
    AcceptableWindow(r, w.sn);
    var seg := InSeg(w.sn, Frag(w.frg, w.data));
    if Acceptable(r, w.sn) {
      InsertRange(r.nxt, r.maxWnd, r.buf, seg);
      MoveReadyKeeps(r.(buf := Insert(r.buf, seg)));
    }
  }

  lemma RecvKeeps(k: Kcb, len: int)
    requires Wf(k)
    ensures Wf(Recv(k, len).k)
    ensures Drained(k.rcv) || Recv(k, len).code >= 0 ==> Drained(Recv(k, len).k.rcv)
  {
    var n := MsgLen(k.rcv.queue);
    MoveReadyKeeps(if len < 0 then k.rcv else k.rcv.(queue := k.rcv.queue[n..]));
    hide MoveReady, MsgLen, PeekSize, DataOf, SenderOk;
  }

  // ---------------------------------------------------------------- input

  /** From k to k' nothing was broken, una did not move back, and no number was invented. */
  predicate Progress(k: Kcb, k': Kcb) {
    && Wf(k')
    && k'.conv == k.conv && k'.mtu == k.mtu && k'.stream == k.stream
    && k'.snd.nxt == k.snd.nxt
    && Sub(k'.snd.una, k.snd.una) <= k.snd.InFlight()
    && (Drained(k.rcv) ==> Drained(k'.rcv))
  }

  lemma InputSegKeeps(k: Kcb, w: Wire)
    requires Wf(k)
    ensures Progress(k, InputSeg(k, w))
  {
    AcknowledgeKeeps(k.snd, w, k.mtu);
    ParsePushKeeps(k.rcv, w);
    hide Acknowledge, ParsePush, SenderOk, ReceiverOk, Drained, Acked;
  }

  lemma ProgressTrans(k: Kcb, k1: Kcb, k2: Kcb)
    requires Wf(k) && Progress(k, k1) && Progress(k1, k2)
    ensures Progress(k, k2)
  {
    Advance(k.snd.una, k1.snd.una, k2.snd.una, k.snd.nxt);
  }

  lemma {:induction false} InputSegsKeep(k: Kcb, ws: seq<Wire>)
    requires Wf(k)
    ensures Progress(k, InputSegs(k, ws))
    decreases |ws|
  {
    if ws != [] {
      InputSegsKeep(k, ws[..|ws| - 1]);
      var k1 := InputSegs(k, ws[..|ws| - 1]);
      assert Wf(k1);
      InputSegKeeps(k1, ws[|ws| - 1]);
      ProgressTrans(k, k1, InputSeg(k1, ws[|ws| - 1]));
    }
  }

  lemma FastAckKeeps(k: Kcb, sn: u32)
    requires Wf(k)
    ensures Progress(k, k.(snd := ParseFastAck(k.snd, sn)))
  {
    SkippedSame(k.snd.buf, sn);
    hide Outstanding, Skipped;
  }

  /** For any bytes at all: the endpoint stays well formed, una never moves back, and no number
      is invented. */
  lemma InputKeeps(k: Kcb, d: seq<byte>)
    requires Wf(k)
    ensures Progress(k, Input(k, d).k)
  {
    if |d| >= IKCP_OVERHEAD {
      var p := ParseFrom(k.conv, d, 0);
      InputSegsKeep(k, p.segs);
      var k1 := InputSegs(k, p.segs);
      var m := MaxAck(p.segs);
      if p.code == 0 && m.Some? {
        assert Wf(k1);
        FastAckKeeps(k1, m.value);
        ProgressTrans(k, k1, k1.(snd := ParseFastAck(k1.snd, m.value)));
      }
    }
    hide ParseFrom, InputSegs, MaxAck, ParseFastAck, Wf;
  }

  // ---------------------------------------------------------------- flush

  lemma {:induction false} MoveToBufKeeps(s: Sender, wnd: u32, now: u32, rto: u32, mtu: Mtu)
    requires SenderOk(s, mtu) && wnd <= IKCP_WND_MAX
    ensures var s' := MoveToBuf(s, wnd, now, rto);
      && SenderOk(s', mtu) && s'.una == s.una
      && s'.InFlight() <= Max(s.InFlight(), wnd)
      && (s'.queue == [] || s'.InFlight() >= wnd)
    decreases |s.queue|
  {
    DiffFromBase(s.nxt, Add(s.una, wnd), s.una);
    if TimeDiff(s.nxt, Add(s.una, wnd)) < 0 && s.queue != [] {
      var s1 := s.(queue := s.queue[1..], buf := s.buf + [OutSeg(s.nxt, s.queue[0], now, rto, 0, 0)], nxt := Add(s.nxt, 1));
      assert s1.InFlight() == s.InFlight() + 1;
      assert SenderOk(s1, mtu);
      hide SenderOk;
      MoveToBufKeeps(s1, wnd, now, rto, mtu);
    }
  }

  lemma FilledKeeps(k: Kcb)
    requires Wf(k)
    ensures SenderOk(Filled(k), k.mtu) && Filled(k).una == k.snd.una
    ensures Filled(k).InFlight() <= Max(k.snd.InFlight(), k.wnd.snd)
  {
    hide SenderOk, ReceiverOk;
    MoveToBufKeeps(k.snd, Window(k.wnd), k.clock.current, k.clock.rxRto, k.mtu);
  }

  lemma TouchAllKeeps(s: Sender, c: Clock, mtu: Mtu)
    requires SenderOk(s, mtu)
    ensures SenderOk(s.(buf := TouchAll(c, s.buf)), mtu)
  {
    hide Touch;
  }

  /** Flushing keeps the endpoint well formed and never puts more segments in flight than the
      configured send window, unless there were more already. */
  lemma FlushKeeps(k: Kcb)
    requires Wf(k)
    ensures var k' := Flush(k).k;
      && Wf(k') && k'.rcv == k.rcv && k'.mtu == k.mtu && k'.conv == k.conv && k'.stream == k.stream
      && k'.snd.una == k.snd.una && k'.snd.InFlight() <= Max(k.snd.InFlight(), k.wnd.snd)
  {
    FilledKeeps(k);
    TouchAllKeeps(Filled(k), FlushClock(k), k.mtu);
    hide TouchAll, SenderOk, ReceiverOk, Filled, FlushWires, Exhausted, Probe;
  }

  lemma UpdateKeeps(k: Kcb, now: u32)
    requires Wf(k)
    ensures var k' := Update(k, now).k;
      && Wf(k') && k'.rcv == k.rcv && k'.mtu == k.mtu && k'.conv == k.conv && k'.stream == k.stream
      && k'.snd.una == k.snd.una && k'.snd.InFlight() <= Max(k.snd.InFlight(), k.wnd.snd)
  {
    hide SenderOk, ReceiverOk, Tick, Flush;
    FlushKeeps(k.(clock := Tick(k.clock, now).0));
  }

  // ---------------------------------------------------------------- packing

  /** A datagram as flush builds it: at least one segment, at most mtu bytes. */
  predicate Fits(mtu: int, ws: seq<Wire>) {
    ws != [] && 1 <= SizeAll(ws) <= mtu
  }

  function Flatten<T>(ss: seq<seq<T>>): seq<T> {
    if ss == [] then [] else Flatten(ss[..|ss| - 1]) + ss[|ss| - 1]
  }

  lemma SizeAllAppend(ws: seq<Wire>, w: Wire)
    ensures SizeAll(ws + [w]) == SizeAll(ws) + Size(w)
  {
    assert (ws + [w])[..|ws|] == ws;
  }

  lemma FlattenAppend<T>(ss: seq<seq<T>>, s: seq<T>)
    ensures Flatten(ss + [s]) == Flatten(ss) + s
  {
    assert (ss + [s])[..|ss|] == ss;
  }

  lemma OutputFlat(p: Packing)
    ensures Flatten(Output(p)) == Flatten(p.done) + p.cur
  {
    if p.cur != [] {
      FlattenAppend(p.done, p.cur);
    }
  }

  predicate Packed(mtu: int, p: Packing) {
    && (forall i :: 0 <= i < |p.done| ==> Fits(mtu, p.done[i]))
    && (p.cur != [] ==> Fits(mtu, p.cur))
  }

  lemma PackStepFits(mtu: int, p: Packing, w: Wire)
    requires Packed(mtu, p) && Size(w) <= mtu
    ensures Packed(mtu, PackStep(mtu, p, w))
  {
    SizeAllAppend(p.cur, w);
    SizeAllAppend([], w);
    assert [] + [w] == [w];
    hide SizeAll;
  }

  lemma PackStepFlat(mtu: int, p: Packing, w: Wire)
    ensures Flatten(Output(PackStep(mtu, p, w))) == Flatten(Output(p)) + [w]
  {
    OutputFlat(p);
    OutputFlat(PackStep(mtu, p, w));
    hide SizeAll, Flatten;
    assert Flatten(p.done) + (p.cur + [w]) == (Flatten(p.done) + p.cur) + [w];
  }

  lemma PackNothing(mtu: int)
    ensures Packed(mtu, Pack(mtu, [])) && Flatten(Output(Pack(mtu, []))) == []
  {
  }

  /** Packing loses, repeats and reorders nothing, and every datagram has size 1..mtu. */
  lemma {:induction false} PackFits(mtu: int, ws: seq<Wire>)
    requires forall i :: 0 <= i < |ws| ==> Size(ws[i]) <= mtu
    ensures var p := Pack(mtu, ws);
      Packed(mtu, p) && Flatten(Output(p)) == ws
    decreases |ws|
  {
    hide Packed, Flatten, Output;
    if ws != [] {
      var init, w := ws[..|ws| - 1], ws[|ws| - 1];
      PackFits(mtu, init);
      hide PackStep, Flatten, Output, Packed, Size;
      PackStepFits(mtu, Pack(mtu, init), w);
      PackStepFlat(mtu, Pack(mtu, init), w);
      assert init + [w] == ws;
    } else {
      PackNothing(mtu);
    }
  }

  predicate WireOk(k: Kcb, w: Wire) {
    w.conv == k.conv && KnownCmd(w.cmd) && Size(w) <= k.mtu
  }

  predicate AllOk(k: Kcb, ws: seq<Wire>) {
    forall i :: 0 <= i < |ws| ==> WireOk(k, ws[i])
  }

  lemma {:induction false} PushWiresOk(k: Kcb, c: Clock, buf: seq<OutSeg>)
    requires SegsFit(k.mtu, buf)
    ensures AllOk(k, PushWires(k.conv, k.rcv, c, buf))
    decreases |buf|
  {
    if buf != [] {
      PushWiresOk(k, c, buf[..|buf| - 1]);
      hide Due;
    }
  }

  lemma ControlWiresOk(k: Kcb)
    ensures AllOk(k, AckWires(k.conv, k.rcv, k.acks))
    ensures AllOk(k, ProbeWires(k.conv, k.rcv, FlushAsked(k), LastAck(k.acks)))
  {
  }

  lemma AllOkAppend(k: Kcb, a: seq<Wire>, b: seq<Wire>)
    requires AllOk(k, a) && AllOk(k, b)
    ensures AllOk(k, a + b)
  {
  }

  lemma FlushWiresOk(k: Kcb)
    requires Wf(k)
    ensures AllOk(k, FlushWires(k))
  {
    FilledKeeps(k);
    PushWiresOk(k, FlushClock(k), Filled(k).buf);
    ControlWiresOk(k);
    hide Filled, PushWires, AckWires, ProbeWires, AllOk, Wf;
    AllOkAppend(k, AckWires(k.conv, k.rcv, k.acks), ProbeWires(k.conv, k.rcv, FlushAsked(k), LastAck(k.acks)));
    AllOkAppend(k, AckWires(k.conv, k.rcv, k.acks) + ProbeWires(k.conv, k.rcv, FlushAsked(k), LastAck(k.acks)),
                PushWires(k.conv, k.rcv, FlushClock(k), Filled(k).buf));
  }

  /** A datagram a peer of the same conversation understands completely. */
  predicate Deliverable(k: Kcb, ws: seq<Wire>) {
    && Encodable(ws)
    && 1 <= |EncodeAll(ws)| <= k.mtu
    && ParseFrom(k.conv, EncodeAll(ws), 0) == Parsed(ws, 0)
  }

  /** Every datagram of a flush is nonempty, fits the mtu, and is understood completely by a
      peer of the same conversation; together the datagrams carry exactly the flushed segments,
      in order, every queued ack once and first. */
  lemma FlushOutput(k: Kcb)
    requires Wf(k) && k.clock.updated
    ensures var out := Flush(k).out;
      && Flatten(out) == FlushWires(k)
      && AckWires(k.conv, k.rcv, k.acks) <= FlushWires(k)
      && Flush(k).k.acks == []
      && (forall i :: 0 <= i < |out| ==> Deliverable(k, out[i]))
  {
    FlushWiresOk(k);
    AcksFirst(k);
    hide FlushWires, Wf, WireOk, Filled;
    assert Flush(k).k.acks == [];
    hide Flushed;
    var ws := FlushWires(k);
    forall i | 0 <= i < |ws| ensures Size(ws[i]) <= k.mtu {
      WireOkSize(k, ws[i]);
    }
    PackFits(k.mtu, ws);
    var out := Output(Pack(k.mtu, ws));
    hide Pack, Output;
    forall i | 0 <= i < |out| ensures Deliverable(k, out[i]) {
      PackedOutput(k.mtu, Pack(k.mtu, ws), i);
      forall j | 0 <= j < |out[i]| ensures WireOk(k, out[i][j]) {
        InFlatten(out, i, j);
      }
      ParseWhole(k, out[i]);
    }
  }

  /** The data segments of a flush are the due ones among those buffered. */
  lemma {:induction false} PushWiresDue(conv: u32, r: Receiver, c: Clock, buf: seq<OutSeg>, w: Wire)
    ensures w in PushWires(conv, r, c, buf) <==>
      exists i :: 0 <= i < |buf| && Due(c, buf[i]) && w == Push(conv, r, c.current, buf[i])
    decreases |buf|
  {
    if buf != [] {
      var init, s := buf[..|buf| - 1], buf[|buf| - 1];
      PushWiresDue(conv, r, c, init, w);
      hide Due, Push;
      if i :| 0 <= i < |init| && Due(c, init[i]) && w == Push(conv, r, c.current, init[i]) {
        assert buf[i] == init[i];
      } else {
        assert w !in PushWires(conv, r, c, init);
        forall i | 0 <= i < |buf| - 1 && Due(c, buf[i]) ensures w != Push(conv, r, c.current, buf[i]) {
          assert init[i] == buf[i];
        }
      }
    }
  }

  /** Behind the acks no flush emits another ack, and its data segments are the push segments. */
  lemma FlushWiresKinds(k: Kcb)
    ensures forall j :: |k.acks| <= j < |FlushWires(k)| ==> FlushWires(k)[j].cmd != IKCP_CMD_ACK
    ensures forall w: Wire :: w.cmd == IKCP_CMD_PUSH ==>
      (w in FlushWires(k) <==> w in PushWires(k.conv, k.rcv, FlushClock(k), Filled(k).buf))
  {
    var a := AckWires(k.conv, k.rcv, k.acks);
    var b := ProbeWires(k.conv, k.rcv, FlushAsked(k), LastAck(k.acks));
    var p := PushWires(k.conv, k.rcv, FlushClock(k), Filled(k).buf);
    forall w | w in p ensures w.cmd == IKCP_CMD_PUSH {
      PushWiresDue(k.conv, k.rcv, FlushClock(k), Filled(k).buf, w);
    }
    assert FlushWires(k) == a + b + p;
    hide FlushWires, PushWires, AckWires, Filled, FlushClock;
  }

  /** A flush sends a buffered segment if and only if it is due: in particular every segment the
      window has just admitted is sent at once, for the first time. */
  lemma FlushSendsDue(k: Kcb, i: nat)
    requires Wf(k) && k.clock.updated && i < |Filled(k).buf|
    ensures var s := Filled(k).buf[i];
      && (Push(k.conv, k.rcv, FlushClock(k).current, s) in Flatten(Flush(k).out) <==> Due(FlushClock(k), s))
      && (s.xmit == 0 ==> Due(FlushClock(k), s) && Flush(k).k.snd.buf[i].xmit == 1)
  {
    hide Due, Filled, FlushClock, FlushWires, Wf, PushWires, Flatten, Flush, SndRange;
    FlushOutput(k);
    FlushWiresKinds(k);
    FilledKeeps(k);
    PushIffDue(k.conv, k.rcv, FlushClock(k), Filled(k), i);
    FlushedAt(k, i);
  }

  /** The data segments are told apart by their numbers. */
  lemma PushIffDue(conv: u32, r: Receiver, c: Clock, s: Sender, i: nat)
    requires SndRange(s.una, s.nxt, s.buf) && i < |s.buf|
    ensures Push(conv, r, c.current, s.buf[i]) in PushWires(conv, r, c, s.buf) <==> Due(c, s.buf[i])
  {
    hide Due, PushWires, Sub, Unused;
    var w := Push(conv, r, c.current, s.buf[i]);
    PushWiresDue(conv, r, c, s.buf, w);
    if j :| 0 <= j < |s.buf| && Due(c, s.buf[j]) && w == Push(conv, r, c.current, s.buf[j]) {
      assert s.buf[j].sn == s.buf[i].sn;
    }
  }

  lemma FlushedAt(k: Kcb, i: nat)
    requires k.clock.updated && i < |Filled(k).buf|
    ensures i < |Flush(k).k.snd.buf| && Flush(k).k.snd.buf[i] == Touch(FlushClock(k), Filled(k).buf[i])
    ensures Filled(k).buf[i].xmit == 0 ==>
      Due(FlushClock(k), Filled(k).buf[i]) && Touch(FlushClock(k), Filled(k).buf[i]).xmit == 1
  {
    hide Filled, FlushClock, Exhausted, FlushWires;
  }

  lemma WireOkSize(k: Kcb, w: Wire)
    requires WireOk(k, w)
    ensures Size(w) <= k.mtu
  {
  }

  lemma PackedOutput(mtu: int, p: Packing, i: nat)
    requires Packed(mtu, p) && i < |Output(p)|
    ensures Fits(mtu, Output(p)[i])
  {
  }

  lemma AcksFirst(k: Kcb)
    ensures AckWires(k.conv, k.rcv, k.acks) <= FlushWires(k)
  {
  }

  lemma ParseWhole(k: Kcb, ws: seq<Wire>)
    requires AllOk(k, ws) && Fits(k.mtu, ws)
    ensures Deliverable(k, ws)
  {
    assert Encodable(ws);
    hide EncodeAll, SizeAll;
    assert EncodeAll(ws)[0..] == EncodeAll(ws);
    ParseOfEncode(k.conv, EncodeAll(ws), 0, ws);
  }

  lemma {:induction false} InFlatten<T>(ss: seq<seq<T>>, i: nat, j: nat)
    requires i < |ss| && j < |ss[i]|
    ensures ss[i][j] in Flatten(ss)
  {
    if i < |ss| - 1 {
      InFlatten(ss[..|ss| - 1], i, j);
    }
  }

  // ---------------------------------------------------------------- when to update next

  predicate Overdue(s: OutSeg, t: u32) {
    TimeDiff(t, s.resendTs) >= 0
  }

  lemma {:induction false} SoonestIs(buf: seq<OutSeg>, now: u32)
    ensures forall i :: 0 <= i < |buf| ==> Soonest(buf, now) <= TimeDiff(buf[i].resendTs, now)
    ensures Soonest(buf, now) == TWO31 - 1 ||
            exists i :: 0 <= i < |buf| && Soonest(buf, now) == TimeDiff(buf[i].resendTs, now)
  {
    hide TimeDiff;
    if buf != [] {
      var init := buf[..|buf| - 1];
      SoonestIs(init, now);
      forall i | 0 <= i < |buf| ensures Soonest(buf, now) <= TimeDiff(buf[i].resendTs, now) {
        assert i < |init| ==> init[i] == buf[i];
      }
      if i :| 0 <= i < |init| && Soonest(init, now) == TimeDiff(init[i].resendTs, now) {
        assert buf[i] == init[i];
      }
      assert buf[|buf| - 1] in buf;
    }
  }

  /** m milliseconds from now, seen from a time d milliseconds ahead of now. */
  lemma LaterDiff(now: u32, m: u32, ts: u32)
    requires m <= TimeDiff(ts, now)
    ensures TimeDiff(Add(now, m), ts) == m - TimeDiff(ts, now)
  {
  }

  /** Before the time check returns, an update would not flush, and no buffered segment is overdue. */
  lemma NothingBeforeCheck(k: Kcb, now: u32, m: u32)
    requires k.clock.updated && m < Sub(Check(k, now), now)
    ensures !Tick(k.clock, Add(now, m)).1
    ensures forall i :: 0 <= i < |k.snd.buf| ==> !Overdue(k.snd.buf[i], Add(now, m))
  {
    hide Soonest;
    SoonestIs(k.snd.buf, now);
    LaterDiff(now, m, k.clock.tsFlush);
    forall i | 0 <= i < |k.snd.buf| ensures !Overdue(k.snd.buf[i], Add(now, m)) {
      LaterDiff(now, m, k.snd.buf[i].resendTs);
    }
  }

  /** And the time it returns is not too early: an update would then flush, or a segment is overdue,
      or a whole interval has passed, or a segment was sent half the circle ago. */
  lemma SomethingAtCheck(k: Kcb, now: u32)
    requires k.clock.updated && k.clock.interval < TWO31
    ensures var t := Check(k, now);
      || Tick(k.clock, t).1
      || (exists i :: 0 <= i < |k.snd.buf| && (Overdue(k.snd.buf[i], t) || Sub(k.snd.buf[i].resendTs, now) == TWO31))
      || Sub(t, now) == k.clock.interval
  {
    hide Soonest;
    SoonestIs(k.snd.buf, now);
  }

  // ---------------------------------------------------------------- runs of one endpoint

  datatype Op =
    | DoSend(data: seq<byte>)
    | DoRecv(len: int)
    | DoInput(d: seq<byte>)
    | DoFlush
    | DoUpdate(now: u32)
    | DoTune(cwnd: u32, rto: u32)
    | DoNoDelay(nodelay: int, interval: int, resend: int, nc: int)
    | DoWndSize(snd: int, rcv: int)

  function Apply(k: Kcb, op: Op): Kcb {
    match op
    case DoSend(data) => Send(k, data).0
    case DoRecv(len) => Recv(k, len).k
    case DoInput(d) => Input(k, d).k
    case DoFlush => Flush(k).k
    case DoUpdate(now) => Update(k, now).k
    case DoTune(cwnd, rto) => Tune(k, cwnd, rto)
    case DoNoDelay(nodelay, interval, resend, nc) => NoDelay(k, nodelay, interval, resend, nc)
    case DoWndSize(snd, rcv) => if snd < TWO31 && rcv < TWO31 then WndSize(k, snd, rcv) else k
  }

  function ApplyAll(k: Kcb, ops: seq<Op>): Kcb {
    if ops == [] then k else Apply(ApplyAll(k, ops[..|ops| - 1]), ops[|ops| - 1])
  }

  lemma WndSizeKeeps(k: Kcb, snd: int, rcv: int)
    requires Wf(k) && snd < TWO31 && rcv < TWO31
    ensures Wf(WndSize(k, snd, rcv))
    ensures Drained(k.rcv) && WndSize(k, snd, rcv).rcv.wnd <= k.rcv.wnd ==> Drained(WndSize(k, snd, rcv).rcv)
  {
    hide SenderOk;
  }

  lemma SettingsKeep(k: Kcb, op: Op)
    requires Wf(k) && (op.DoTune? || op.DoNoDelay?)
    ensures Wf(Apply(k, op)) && Apply(k, op).rcv == k.rcv && Apply(k, op).snd == k.snd
  {
    hide SenderOk, ReceiverOk;
  }

  /** No operation breaks the endpoint, or moves snd_una back or past what was in flight.  Only
      enlarging the receive window can leave the expected number waiting, until the next segment
      or read. */
  lemma ApplyKeeps(k: Kcb, op: Op)
    requires Wf(k)
    ensures Wf(Apply(k, op)) && Sub(Apply(k, op).snd.una, k.snd.una) <= k.snd.InFlight()
    ensures Drained(k.rcv) && !(op.DoWndSize? && op.rcv > k.rcv.wnd) ==> Drained(Apply(k, op).rcv)
  {
    match op
    case DoSend(data) => SendKeeps(k, data);
    case DoRecv(len) => RecvKeeps(k, len);
    case DoInput(d) => InputKeeps(k, d);
    case DoFlush => FlushKeeps(k);
    case DoUpdate(now) => UpdateKeeps(k, now);
    case DoTune(cwnd, rto) => SettingsKeep(k, op);
    case DoNoDelay(nodelay, interval, resend, nc) => SettingsKeep(k, op);
    case DoWndSize(snd, rcv) =>
      if snd < TWO31 && rcv < TWO31 {
        WndSizeKeeps(k, snd, rcv);
      }
  }

  /** The receive window is configured before the run, or only reduced during it. */
  predicate NoGrowth(k: Kcb, ops: seq<Op>) {
    forall i :: 0 <= i < |ops| && ops[i].DoWndSize? ==> ops[i].rcv <= ApplyAll(k, ops[..i]).rcv.wnd
  }

  /** At every reachable state of an endpoint, whatever is sent, received and fed to it: both
      buffers are strictly increasing inside their windows on the circle, una is the head of
      snd_buf, the numbers in flight never exceed the largest configured send window, and
      rcv_buf never holds the expected number back from a queue that has room. */
  lemma {:induction false} EndpointInvariant(conv: u32, mtu: Mtu, stream: bool, ops: seq<Op>)
    ensures var k0 := Create(conv, mtu, stream);
      Wf(ApplyAll(k0, ops)) && (NoGrowth(k0, ops) ==> Drained(ApplyAll(k0, ops).rcv))
    decreases |ops|
  {
    var k0 := Create(conv, mtu, stream);
    if ops == [] {
      CreateWf(conv, mtu, stream);
    } else {
      var init, last := ops[..|ops| - 1], ops[|ops| - 1];
      EndpointInvariant(conv, mtu, stream, init);
      ApplyKeeps(ApplyAll(k0, init), last);
      if NoGrowth(k0, ops) {
        forall i | 0 <= i < |init| && init[i].DoWndSize? ensures init[i].rcv <= ApplyAll(k0, init[..i]).rcv.wnd {
          assert init[..i] == ops[..i] && init[i] == ops[i];
        }
      }
      hide Apply, Create, Wf, Drained;
    }
  }
}
