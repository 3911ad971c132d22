/** What the operations of an endpoint do, said of the fields of its state and of the segments it puts
    out: which segments an ack removes and a flush sends, and with which headers. */
module KcpEffects {
  import opened Options
  import opened Serial
  import opened KcpWire
  import opened KcpSpec
  import opened KcpInvariant

  // ---------------------------------------------------------------- messages

  /** Every fragment but the last is full, and the last one is not empty unless the message is. */
  lemma {:induction false} FragsFull(data: seq<byte>, mss: nat, stream: bool, n: nat, i: nat)
    requires mss > 0 && 1 <= n <= 128 && i < n && mss * (n - 1) < |data| + (if n == 1 then 1 else 0) && |data| <= mss * n
    ensures var f := Frags(data, mss, stream, n)[i].data;
      if i < n - 1 then |f| == mss else |f| == |data| - mss * (n - 1)
    decreases n
  {
    if n > 1 {
      TimesLess(mss, n);
      if i > 0 {
        FragsFull(data[mss..], mss, stream, n - 1, i - 1);
      }
    }
  }

  lemma TimesLess(mss: nat, n: nat)
    requires n > 1
    ensures mss * (n - 1) == mss * (n - 2) + mss && mss * n == mss * (n - 1) + mss && mss * (n - 1) >= mss
  {
  }

  /** A message is refused exactly if it needs more than 127 fragments, and cut into as few as can hold it. */
  lemma SendCode(k: Kcb, data: seq<byte>)
    requires !k.stream
    ensures var (k', code) := Send(k, data);
      && code == (if |data| > 127 * k.Mss() then -2 else 0)
      && (code == -2 ==> k' == k)
      && (code == 0 ==> var n := |k'.snd.queue| - |k.snd.queue|;
            n >= 1 && k.Mss() * (n - 1) < |data| + (if n == 1 then 1 else 0) && |data| <= k.Mss() * n)
  {
    hide Frags, FragCount;
    FragCountIs(|data|, k.Mss());
  }

  lemma FragCountIs(len: nat, mss: nat)
    requires mss > 0
    ensures var n := FragCount(len, mss);
      n >= 1 && mss * (n - 1) < len + (if n == 1 then 1 else 0) && len <= mss * n && (n >= 128 <==> len > 127 * mss)
  {
    if len > mss {
      Ceiling(len, mss, 1);
      Ceiling(len, mss, FragCount(len, mss));
      Ceiling(len, mss, 128);
    }
  }

  /** In stream mode the last queued segment is filled up first; only the bytes that do not fit into it make new
      segments, as few as can hold them, or are refused if they need more than 127. */
  lemma StreamFills(k: Kcb, data: seq<byte>)
    requires k.stream
    ensures var (k', code), q, mss := Send(k, data), k.snd.queue, k.Mss();
      var q', last := k'.snd.queue, |q| - 1;
      var room := if q != [] && |q[last].data| < mss then Min(|data|, mss - |q[last].data|) else 0;
      var rest, n := |data| - room, |q'| - |q|;
      && n >= 0 && (forall i :: 0 <= i < last ==> q'[i] == q[i])
      && (q != [] ==> q'[last].data == q[last].data + data[..room])
      && (code == if rest > 127 * mss then -2 else 0)
      && (if rest == 0 || code == -2 then n == 0 else mss * (n - 1) < rest + (if n == 1 then 1 else 0) && rest <= mss * n)
  {
    hide Frags, FragCount;
    var (q, rest) := Extend(k.snd.queue, k.Mss(), data);
    FragCountIs(|rest|, k.Mss());
  }

  lemma Ceiling(len: nat, mss: nat, n: nat)
    requires mss > 0 && n > 0
    ensures (len + mss - 1) / mss >= n <==> len > mss * (n - 1)
    ensures (len + mss - 1) / mss <= n <==> len <= mss * n
  {
    var q, r := (len + mss - 1) / mss, (len + mss - 1) % mss;
    assert len + mss - 1 == q * mss + r;
    MulOrder(q, n - 1, mss);
    MulOrder(q, n, mss);
    MulOrder(q, n + 1, mss);
  }

  lemma MulOrder(a: int, b: int, m: nat)
    requires m > 0
    ensures a <= b ==> a * m <= b * m
    ensures a >= b + 1 ==> a * m >= b * m + m
    ensures a <= b - 1 ==> a * m <= b * m - m
  {
    if a >= b + 1 {
      AtLeastOnce(a, b, a - b, m);
    } else if a <= b - 1 {
      AtLeastOnce(b, a, b - a, m);
    }
  }

  lemma AtLeastOnce(a: int, b: int, d: int, m: nat)
    requires a == b + d && d >= 1
    ensures a * m >= b * m + m
  {
    assert a * m == b * m + d * m;
    assert d * m == (d - 1) * m + m;
  }

  lemma {:induction false} MsgLenIs(q: seq<Frag>)
    ensures var n := MsgLen(q);
      && (forall i :: 0 <= i < n - 1 ==> q[i].frg != 0)
      && (q != [] && n < |q| ==> q[n - 1].frg == 0)
  {
    if q != [] && q[0].frg != 0 {
      MsgLenIs(q[1..]);
      forall i | 0 <= i < MsgLen(q) - 1 ensures q[i].frg != 0 {
        assert i > 0 ==> q[i] == q[1..][i - 1];
      }
    }
  }

  lemma {:induction false} ReadyAppends(r: Receiver)
    ensures r.queue <= MoveReady(r).queue
    decreases |r.buf|
  {
    if r.buf != [] && r.buf[0].sn == r.nxt && |r.queue| < r.wnd {
      ReadyAppends(r.(buf := r.buf[1..], queue := r.queue + [r.buf[0].frag], nxt := Add(r.nxt, 1)));
    }
  }

  /** The return codes of a read and what it takes: the fragments up to the first one numbered zero.  A peek leaves
      them queued.  The peer will be told the new window just when a full queue has room again. */
  lemma RecvTakes(k: Kcb, len: int) returns (n: nat)
    ensures var q, r := k.rcv.queue, Recv(k, len);
      && n <= |q| && (forall i :: 0 <= i < n - 1 ==> q[i].frg != 0) && (q != [] ==> n > 0)
      && (q != [] && n < |q| ==> q[n - 1].frg == 0)
      && (q == [] ==> r.code == -1)
      && (q != [] && q[0].frg != 0 && |q| < q[0].frg + 1 ==> r.code == -2)
      && (q != [] && (q[0].frg == 0 || |q| >= q[0].frg + 1) ==>
            r.code == if |DataOf(q[..n])| > Abs(len) then -3 else |DataOf(q[..n])|)
      && (r.code < 0 ==> r.k == k && r.data == [])
      && (r.code >= 0 ==>
            && r.data == DataOf(q[..n])
            && (if len < 0 then q else q[n..]) <= r.k.rcv.queue
            && (r.k.asked.tell <==> k.asked.tell || (|q| >= k.rcv.wnd && |r.k.rcv.queue| < k.rcv.wnd))
            && r.k.asked.send == k.asked.send && r.k.snd == k.snd && r.k.acks == k.acks)
  {
    hide MoveReady;
    var q := k.rcv.queue;
    n := MsgLen(q);
    MsgLenIs(q);
    ReadyAppends(if len < 0 then k.rcv else k.rcv.(queue := q[n..]));
    if q != [] && q[0].frg == 0 {
      assert q[..1][..0] == [] && [] + q[0].data == q[0].data;
      assert DataOf(q[..1]) == q[0].data;
    }
    hide MsgLen, DataOf;
  }

  // ---------------------------------------------------------------- acknowledgement

  /** A segment of a datagram leaves number sn unacknowledged: it lies at or behind the segment's una,
      unless that una is older than the sender's own, and the segment is no ack of it. */
  predicate Spares(w: Wire, una: u32, sn: u32) {
    (TimeDiff(w.una, una) < 0 || TimeDiff(w.una, sn) <= 0) && !(w.cmd == IKCP_CMD_ACK && w.sn == sn)
  }

  lemma {:induction false} DropBeforeStops(buf: seq<OutSeg>, una: u32) returns (m: nat)
    ensures m <= |buf| && DropBefore(buf, una) == buf[m..]
    ensures forall i :: 0 <= i < m ==> TimeDiff(una, buf[i].sn) > 0
    ensures m < |buf| ==> TimeDiff(una, buf[m].sn) <= 0
  {
    m := 0;
    if buf != [] && TimeDiff(una, buf[0].sn) > 0 {
      var m' := DropBeforeStops(buf[1..], una);
      m := m' + 1;
      forall i | 0 <= i < m ensures TimeDiff(una, buf[i].sn) > 0 {
        if i > 0 { assert buf[i] == buf[1..][i - 1]; }
      }
    }
  }

  /** Numbers increase, so una passes exactly the segments in front of the one it stops at. */
  lemma UnaPasses(s: Sender, una: u32, m: nat, i: nat)
    requires SndRange(s.una, s.nxt, s.buf) && SndHead(s.una, s.nxt, s.buf) && m <= |s.buf| && i < |s.buf|
    requires forall j :: 0 <= j < m ==> TimeDiff(una, s.buf[j].sn) > 0
    requires m < |s.buf| ==> TimeDiff(una, s.buf[m].sn) <= 0
    ensures i >= m <==> TimeDiff(una, s.una) < 0 || TimeDiff(una, s.buf[i].sn) <= 0
  {
    var d := Sub(una, s.una);
    assert Sub(s.buf[i].sn, s.una) <= IKCP_WND_MAX;
    if m < |s.buf| {
      assert i > m ==> Sub(s.buf[m].sn, s.una) < Sub(s.buf[i].sn, s.una);
    }
    if m > 0 {
      assert TimeDiff(una, s.buf[0].sn) > 0;
    }
  }

  lemma {:induction false} WithoutExact(base: u32, nxt: u32, buf: seq<OutSeg>, sn: u32)
    requires SndRange(base, nxt, buf) && Sub(sn, base) < TWO31
    ensures forall g :: g in Without(buf, sn) <==> g in buf && g.sn != sn
  {
    if buf != [] {
      assert buf == [buf[0]] + buf[1..];
      RangeRest(base, nxt, buf);
      DiffFromBase(sn, buf[0].sn, base);
      if sn == buf[0].sn || TimeDiff(sn, buf[0].sn) < 0 {
        forall i | 1 <= i < |buf| ensures buf[i].sn != sn {
          assert Sub(buf[0].sn, base) < Sub(buf[i].sn, base);
        }
        forall g | g in buf[1..] ensures g.sn != sn {
          var i :| 0 <= i < |buf| - 1 && buf[1..][i] == g;
          assert buf[i + 1] == g;
        }
      } else {
        WithoutExact(base, nxt, buf[1..], sn);
      }
    }
  }

  lemma RangeRest(base: u32, nxt: u32, buf: seq<OutSeg>)
    requires SndRange(base, nxt, buf) && buf != []
    ensures SndRange(base, nxt, buf[1..])
  {
  }

  lemma OutstandingIn(s: Sender, sn: u32)
    requires SndRange(s.una, s.nxt, s.buf) && exists g :: g in s.buf && g.sn == sn
    ensures Outstanding(s, sn) && Sub(sn, s.una) < TWO31
  {
    WindowTest(sn, s.una, s.InFlight());
  }

  lemma OutstandingNear(s: Sender, sn: u32)
    requires s.InFlight() <= IKCP_WND_MAX && Outstanding(s, sn)
    ensures Sub(sn, s.una) < TWO31
  {
    WindowTest(sn, s.una, s.InFlight());
  }

  /** What an ack removes from the buffer. */
  lemma AckRemoves(s: Sender, sn: u32, mtu: Mtu)
    requires SenderOk(s, mtu)
    ensures forall g :: g in ParseAck(s, sn).buf <==> g in s.buf && g.sn != sn
  {
    hide Without, Outstanding, SndHead, FragsFit, SegsFit, Sub;
    InFlightBound(s, mtu);
    if Outstanding(s, sn) {
      OutstandingNear(s, sn);
      WithoutExact(s.una, s.nxt, s.buf, sn);
    } else {
      forall g | g in s.buf ensures g.sn != sn {
        if g.sn == sn { OutstandingIn(s, sn); }
      }
    }
  }

  /** What una removes from the buffer. */
  lemma UnaRemoves(s: Sender, una: u32, mtu: Mtu)
    requires SenderOk(s, mtu)
    ensures forall g :: g in DropBefore(s.buf, una) <==>
      g in s.buf && (TimeDiff(una, s.una) < 0 || TimeDiff(una, g.sn) <= 0)
  {
    hide DropBefore, TimeDiff, Sub;
    var m := DropBeforeStops(s.buf, una);
    var r := s.buf[m..];
    forall i | 0 <= i < |s.buf|
      ensures i >= m <==> TimeDiff(una, s.una) < 0 || TimeDiff(una, s.buf[i].sn) <= 0
    {
      UnaPasses(s, una, m, i);
    }
    assert forall i :: 0 <= i < |r| ==> r[i] == s.buf[m + i];
    forall g | g in s.buf && (TimeDiff(una, s.una) < 0 || TimeDiff(una, g.sn) <= 0) ensures g in r {
      var i :| 0 <= i < |s.buf| && s.buf[i] == g;
      assert r[i - m] == g;
    }
  }

  /** Any segment of any datagram removes from snd_buf exactly what it acknowledges, by its una or as an
      ack.  What is left keeps its order, and snd_una is its first number, or snd_nxt. */
  lemma AcksRemove(k: Kcb, w: Wire)
    requires Wf(k)
    ensures var s, s' := k.snd, InputSeg(k, w).snd;
      && (forall g :: g in s'.buf <==> g in s.buf && Spares(w, s.una, g.sn))
      && (forall i, j :: 0 <= i < j < |s'.buf| ==> Sub(s'.buf[i].sn, s.una) < Sub(s'.buf[j].sn, s.una))
      && s'.una == (if s'.buf == [] then s.nxt else s'.buf[0].sn)
      && s'.nxt == s.nxt && s'.queue == s.queue
  {
    hide DropBefore, ParseAck, Sub, TimeDiff, SegsFit, FragsFit;
    var s := k.snd;
    var s1 := Shrunk(s, DropBefore(s.buf, w.una));
    UnaKeeps(s, w.una, k.mtu);
    UnaRemoves(s, w.una, k.mtu);
    if w.cmd == IKCP_CMD_ACK {
      AckRemoves(s1, w.sn, k.mtu);
      ParseAckNxt(s1, w.sn);
    }
    AcknowledgeKeeps(s, w, k.mtu);
    OrderKept(s, InputSeg(k, w).snd, k.mtu);
  }

  lemma UnaKeeps(s: Sender, una: u32, mtu: Mtu)
    requires SenderOk(s, mtu)
    ensures SenderOk(Shrunk(s, DropBefore(s.buf, una)), mtu)
  {
    var m := DropBeforeSuffix(s.buf, una);
    ShrunkOk(s, s.buf[m..], mtu);
    hide DropBefore, SenderOk;
  }

  /** Increasing from the new snd_una on is increasing from the old one on. */
  lemma OrderKept(s: Sender, s': Sender, mtu: Mtu)
    requires SenderOk(s, mtu) && SenderOk(s', mtu) && s'.nxt == s.nxt && Sub(s'.una, s.una) <= s.InFlight()
    ensures forall i, j :: 0 <= i < j < |s'.buf| ==> Sub(s'.buf[i].sn, s.una) < Sub(s'.buf[j].sn, s.una)
  {
    forall i, j | 0 <= i < j < |s'.buf| ensures Sub(s'.buf[i].sn, s.una) < Sub(s'.buf[j].sn, s.una) {
      assert Sub(s'.buf[i].sn, s'.una) < Sub(s'.buf[j].sn, s'.una) < Sub(s.nxt, s'.una);
    }
  }

  /** Not so old that its distance to a number in flight would wrap. */
  predicate Near(una: u32, base: u32) {
    TimeDiff(una, base) > IKCP_WND_MAX - TWO31
  }

  /** No segment of a datagram acknowledges number sn. */
  predicate Unacked(ws: seq<Wire>, sn: u32) {
    forall i :: 0 <= i < |ws| ==> TimeDiff(ws[i].una, sn) <= 0 && !(ws[i].cmd == IKCP_CMD_ACK && ws[i].sn == sn)
  }

  lemma UnackedNext(ws: seq<Wire>, w: Wire, sn: u32)
    ensures Unacked(ws + [w], sn) <==>
      Unacked(ws, sn) && TimeDiff(w.una, sn) <= 0 && !(w.cmd == IKCP_CMD_ACK && w.sn == sn)
  {
    hide TimeDiff;
    assert (ws + [w])[|ws|] == w;
    assert forall i :: 0 <= i < |ws| ==> (ws + [w])[i] == ws[i];
  }

  /** An una behind a later snd_una is behind every number from there on. */
  lemma SparesLater(w: Wire, base: u32, una: u32, nxt: u32, sn: u32)
    requires Sub(nxt, base) <= IKCP_WND_MAX && Sub(una, base) <= Sub(nxt, base) && Sub(sn, una) < Sub(nxt, una)
    requires Near(w.una, base)
    ensures Spares(w, una, sn) <==> TimeDiff(w.una, sn) <= 0 && !(w.cmd == IKCP_CMD_ACK && w.sn == sn)
  {
  }

  /** The same of all segments of a datagram together. */
  lemma {:induction false} SegsRemove(k: Kcb, ws: seq<Wire>)
    requires Wf(k) && forall i :: 0 <= i < |ws| ==> Near(ws[i].una, k.snd.una)
    ensures forall g :: g in InputSegs(k, ws).snd.buf <==> g in k.snd.buf && Unacked(ws, g.sn)
    decreases |ws|
  {
    hide Unacked, Spares, InputSeg, Near, Sub, TimeDiff;
    if ws == [] {
      forall g ensures Unacked(ws, g) { NothingUnacked(g); }
    } else {
      var init, w := ws[..|ws| - 1], ws[|ws| - 1];
      var k1 := InputSegs(k, init);
      SegsRemove(k, init);
      InputSegsKeep(k, init);
      AcksRemove(k1, w);
      assert init + [w] == ws;
      InFlightBound(k.snd, k.mtu);
      forall g | g in k1.snd.buf
        ensures Spares(w, k1.snd.una, g.sn) <==> TimeDiff(w.una, g.sn) <= 0 && !(w.cmd == IKCP_CMD_ACK && w.sn == g.sn)
      {
        SparesLater(w, k.snd.una, k1.snd.una, k.snd.nxt, g.sn);
      }
      forall g: OutSeg ensures Unacked(ws, g.sn) <==>
        Unacked(init, g.sn) && TimeDiff(w.una, g.sn) <= 0 && !(w.cmd == IKCP_CMD_ACK && w.sn == g.sn)
      {
        UnackedNext(init, w, g.sn);
      }
    }
  }

  lemma NothingUnacked(sn: u32)
    ensures Unacked([], sn)
  {
  }

  /** A later number than sn is acked in the datagram. */
  predicate Overtaken(ws: seq<Wire>, sn: u32) {
    exists i :: 0 <= i < |ws| && ws[i].cmd == IKCP_CMD_ACK && TimeDiff(ws[i].sn, sn) > 0
  }

  /** Acks of numbers that have been given out, none of them very old. */
  predicate AcksGenuine(ws: seq<Wire>, s: Sender) {
    forall i :: 0 <= i < |ws| && ws[i].cmd == IKCP_CMD_ACK ==> -0x4000_0000 <= TimeDiff(ws[i].sn, s.una) < s.InFlight()
  }

  lemma {:induction false} MaxAckIs(ws: seq<Wire>, s: Sender)
    requires AcksGenuine(ws, s) && s.InFlight() <= IKCP_WND_MAX
    ensures MaxAck(ws).None? ==> forall i :: 0 <= i < |ws| ==> ws[i].cmd != IKCP_CMD_ACK
    ensures MaxAck(ws).Some? ==>
      && (exists i :: 0 <= i < |ws| && ws[i].cmd == IKCP_CMD_ACK && ws[i].sn == MaxAck(ws).value)
      && (forall i :: 0 <= i < |ws| && ws[i].cmd == IKCP_CMD_ACK ==>
            TimeDiff(ws[i].sn, s.una) <= TimeDiff(MaxAck(ws).value, s.una))
    decreases |ws|
  {
    if ws != [] {
      var init, w := ws[..|ws| - 1], ws[|ws| - 1];
      assert forall i :: 0 <= i < |init| ==> init[i] == ws[i];
      MaxAckIs(init, s);
      var m := MaxAck(init);
      if w.cmd == IKCP_CMD_ACK && m.Some? {
        var i :| 0 <= i < |init| && init[i].cmd == IKCP_CMD_ACK && init[i].sn == m.value;
        assert ws[i].sn == m.value;
        NearDiff(w.sn, m.value, s.una);
      } else if m.Some? {
        var i :| 0 <= i < |init| && init[i].cmd == IKCP_CMD_ACK && init[i].sn == m.value;
        assert ws[i].sn == m.value;
      }
    }
  }

  lemma NearDiff(a: u32, b: u32, base: u32)
    requires -0x4000_0000 <= TimeDiff(a, base) <= IKCP_WND_MAX && -0x4000_0000 <= TimeDiff(b, base) <= IKCP_WND_MAX
    ensures TimeDiff(a, b) == TimeDiff(a, base) - TimeDiff(b, base)
  {
  }

  lemma {:induction false} SkippedExact(base: u32, nxt: u32, buf: seq<OutSeg>, sn: u32, i: nat)
    requires SndRange(base, nxt, buf) && Sub(sn, base) < TWO31 && i < |buf|
    ensures Skipped(buf, sn)[i] ==
      if TimeDiff(sn, buf[i].sn) > 0 then buf[i].(fastack := Add(buf[i].fastack, 1)) else buf[i]
  {
    DiffFromBase(sn, buf[0].sn, base);
    DiffFromBase(sn, buf[i].sn, base);
    if i > 0 {
      assert Sub(buf[0].sn, base) < Sub(buf[i].sn, base);
      if TimeDiff(sn, buf[0].sn) >= 0 {
        RangeRest(base, nxt, buf);
        SkippedExact(base, nxt, buf[1..], sn, i - 1);
      }
    }
  }

  lemma OvertakenIs(ws: seq<Wire>, s: Sender, sn: u32)
    requires AcksGenuine(ws, s) && s.InFlight() <= IKCP_WND_MAX && Sub(sn, s.una) < s.InFlight()
    ensures Overtaken(ws, sn) <==> MaxAck(ws).Some? && TimeDiff(MaxAck(ws).value, sn) > 0
  {
    hide MaxAck;
    MaxAckIs(ws, s);
    if MaxAck(ws).Some? {
      var j :| 0 <= j < |ws| && ws[j].cmd == IKCP_CMD_ACK && ws[j].sn == MaxAck(ws).value;
      NearDiff(ws[j].sn, sn, s.una);
      forall i | 0 <= i < |ws| && ws[i].cmd == IKCP_CMD_ACK
        ensures TimeDiff(ws[i].sn, sn) == TimeDiff(ws[i].sn, s.una) - TimeDiff(sn, s.una)
      {
        NearDiff(ws[i].sn, sn, s.una);
      }
    }
  }

  /** An acked number that is no longer outstanding lies behind everything that is. */
  lemma PassedBy(s: Sender, s1: Sender, m: u32, sn: u32)
    requires s.InFlight() <= IKCP_WND_MAX && s1.nxt == s.nxt && Sub(s1.una, s.una) <= s.InFlight()
    requires -0x4000_0000 <= TimeDiff(m, s.una) < s.InFlight() && Sub(sn, s1.una) < s1.InFlight()
    requires !Outstanding(s1, m)
    ensures TimeDiff(m, sn) <= 0
  {
  }

  /** A buffered segment after a datagram that does not acknowledge it: it was skipped once more if a
      later number was acked. */
  function Passed(g: OutSeg, ws: seq<Wire>): OutSeg {
    if Overtaken(ws, g.sn) then g.(fastack := Add(g.fastack, 1)) else g
  }

  lemma FastAckExact(s: Sender, s1: Sender, ws: seq<Wire>, i: nat)
    requires s.InFlight() <= IKCP_WND_MAX && s1.nxt == s.nxt && Sub(s1.una, s.una) <= s.InFlight()
    requires SndRange(s1.una, s1.nxt, s1.buf) && AcksGenuine(ws, s) && i < |s1.buf|
    requires Sub(s1.buf[i].sn, s.una) < s.InFlight()
    ensures var s2 := if MaxAck(ws).Some? then ParseFastAck(s1, MaxAck(ws).value) else s1;
      |s2.buf| == |s1.buf| && s2.buf[i] == Passed(s1.buf[i], ws)
  {
    hide MaxAck, Overtaken, Skipped, Outstanding, Sub, TimeDiff;
    MaxAckIs(ws, s);
    OvertakenIs(ws, s, s1.buf[i].sn);
    if MaxAck(ws).Some? {
      var m := MaxAck(ws).value;
      if Outstanding(s1, m) {
        OutstandingNear(s1, m);
        SkippedExact(s1.una, s1.nxt, s1.buf, m, i);
      } else {
        var j :| 0 <= j < |ws| && ws[j].cmd == IKCP_CMD_ACK && ws[j].sn == m;
        PassedBy(s, s1, m, s1.buf[i].sn);
      }
    }
  }

  /** A datagram accepted without error leaves in snd_buf exactly the segments none of its segments
      acknowledges; each counts one more skip just if a later number was acked, and is otherwise as it
      was.  The peer's window is the one its last segment advertises. */
  lemma InputAcks(k: Kcb, d: seq<byte>)
    requires Wf(k) && |d| >= IKCP_OVERHEAD
    requires var p := ParseFrom(k.conv, d, 0);
      p.code == 0 && AcksGenuine(p.segs, k.snd) && forall i :: 0 <= i < |p.segs| ==> Near(p.segs[i].una, k.snd.una)
    ensures var ws, k' := ParseFrom(k.conv, d, 0).segs, Input(k, d).k;
      && (forall g :: g in k.snd.buf && Unacked(ws, g.sn) ==> Passed(g, ws) in k'.snd.buf)
      && (forall h :: h in k'.snd.buf ==> exists g :: g in k.snd.buf && Unacked(ws, g.sn) && h == Passed(g, ws))
      && (ws != [] ==> k'.wnd.rmt == ws[|ws| - 1].wnd)
  {
    hide ParseFrom, InputSegs, Unacked, Overtaken, AcksGenuine, Near, MaxAck, ParseFastAck, Passed, Wf, Input;
    var ws := ParseFrom(k.conv, d, 0).segs;
    SegsRemove(k, ws);
    LastWindow(k, ws);
    InputTail(k, d);
    PassedSet(k.snd.buf, InputSegs(k, ws).snd.buf, Input(k, d).k.snd.buf, ws);
  }

  /** What a datagram does after its segments: it counts the skips. */
  lemma InputTail(k: Kcb, d: seq<byte>)
    requires Wf(k) && |d| >= IKCP_OVERHEAD
    requires var p := ParseFrom(k.conv, d, 0);
      p.code == 0 && AcksGenuine(p.segs, k.snd) && forall i :: 0 <= i < |p.segs| ==> Near(p.segs[i].una, k.snd.una)
    ensures var ws := ParseFrom(k.conv, d, 0).segs; var k1, k' := InputSegs(k, ws), Input(k, d).k;
      && k'.wnd == k1.wnd && |k'.snd.buf| == |k1.snd.buf|
      && forall i :: 0 <= i < |k1.snd.buf| ==> k'.snd.buf[i] == Passed(k1.snd.buf[i], ws)
  {
    hide ParseFrom, InputSegs, Unacked, Overtaken, AcksGenuine, Near, MaxAck, ParseFastAck, Passed, Sub;
    var ws := ParseFrom(k.conv, d, 0).segs;
    var k1, k' := InputSegs(k, ws), Input(k, d).k;
    SegsRemove(k, ws);
    InputSegsKeep(k, ws);
    InFlightBound(k.snd, k.mtu);
    FastAckLength(k1.snd, ws);
    forall i | 0 <= i < |k1.snd.buf| ensures k'.snd.buf[i] == Passed(k1.snd.buf[i], ws) {
      assert k1.snd.buf[i] in k.snd.buf;
      InFlightAt(k, k1.snd.buf[i]);
      FastAckExact(k.snd, k1.snd, ws, i);
    }
  }

  lemma PassedSet(buf: seq<OutSeg>, a: seq<OutSeg>, b: seq<OutSeg>, ws: seq<Wire>)
    requires forall g :: g in a <==> g in buf && Unacked(ws, g.sn)
    requires |b| == |a| && forall i :: 0 <= i < |a| ==> b[i] == Passed(a[i], ws)
    ensures forall g :: g in buf && Unacked(ws, g.sn) ==> Passed(g, ws) in b
    ensures forall h :: h in b ==> exists g :: g in buf && Unacked(ws, g.sn) && h == Passed(g, ws)
  {
    hide Unacked, Passed;
    forall g | g in buf && Unacked(ws, g.sn) ensures Passed(g, ws) in b {
      var i :| 0 <= i < |a| && a[i] == g;
      assert b[i] == Passed(g, ws);
    }
    forall h | h in b ensures exists g :: g in buf && Unacked(ws, g.sn) && h == Passed(g, ws) {
      var i :| 0 <= i < |b| && b[i] == h;
      assert a[i] in a;
    }
  }

  lemma InFlightAt(k: Kcb, g: OutSeg)
    requires Wf(k) && g in k.snd.buf
    ensures Sub(g.sn, k.snd.una) < k.snd.InFlight()
  {
  }

  lemma FastAckLength(s: Sender, ws: seq<Wire>)
    ensures MaxAck(ws).Some? ==> |ParseFastAck(s, MaxAck(ws).value).buf| == |s.buf|
  {
  }

  lemma LastWindow(k: Kcb, ws: seq<Wire>)
    ensures ws != [] ==> InputSegs(k, ws).wnd.rmt == ws[|ws| - 1].wnd
    ensures InputSegs(k, ws).wnd == k.wnd.(rmt := InputSegs(k, ws).wnd.rmt)
  {
  }

  // ---------------------------------------------------------------- reception

  /** Every data segment in the receive window, and every one from before it, is acked with its number and
      its time.  One in the window is then stored or was there already; numbers beyond the window are
      neither acked nor stored. */
  lemma DataAcked(k: Kcb, w: Wire)
    requires Wf(k) && w.cmd == IKCP_CMD_PUSH
    ensures var k', x := InputSeg(k, w), Sub(w.sn, k.rcv.nxt);
      && k'.acks == (if x < k.rcv.wnd || x >= TWO31 + k.rcv.wnd then k.acks + [Ack(w.sn, w.ts)] else k.acks)
      && (x < k.rcv.wnd ==> Arrived(k'.rcv, k.rcv.nxt, w.sn))
      && (x >= k.rcv.wnd ==> k'.rcv == k.rcv)
  {
    hide MoveReady, Insert, SenderOk;
    AcceptableWindow(k.rcv, w.sn);
    if Sub(w.sn, k.rcv.nxt) < k.rcv.wnd {
      var seg := InSeg(w.sn, Frag(w.frg, w.data));
      var r := k.rcv.(buf := Insert(k.rcv.buf, seg));
      InsertHolds(k.rcv, seg);
      InsertRange(k.rcv.nxt, k.rcv.maxWnd, k.rcv.buf, seg);
      RangeLength(r.nxt, r.maxWnd, r.buf);
      ReadyHolds(r, k.rcv.nxt, w.sn);
    }
  }

  /** Numbers that increase inside a window are at most as many as it is long. */
  lemma {:induction false} RangeLength(nxt: u32, wnd: u32, buf: seq<InSeg>)
    requires RcvRange(nxt, wnd, buf)
    ensures |buf| <= wnd && (buf != [] ==> Sub(buf[|buf| - 1].sn, nxt) >= |buf| - 1)
    decreases |buf|
  {
    if buf != [] {
      var last := |buf| - 1;
      hide Sub;
      RangeLength(nxt, wnd, buf[..last]);
      assert Sub(buf[last].sn, nxt) < wnd;
      if last > 0 {
        assert buf[..last][last - 1] == buf[last - 1];
        assert Sub(buf[last - 1].sn, nxt) < Sub(buf[last].sn, nxt);
      }
    }
  }

  /** The number waits in rcv_buf or has been passed on to the queue. */
  predicate Arrived(r: Receiver, base: u32, sn: u32) {
    Sub(sn, base) < Sub(r.nxt, base) || exists i :: 0 <= i < |r.buf| && r.buf[i].sn == sn
  }

  lemma InsertHolds(r: Receiver, seg: InSeg)
    requires ReceiverOk(r) && Sub(seg.sn, r.nxt) < r.wnd
    ensures Arrived(r.(buf := Insert(r.buf, seg)), r.nxt, seg.sn)
  {
    hide Insert, Sub, RcvRange;
    var m := InsertShape(r.nxt, r.maxWnd, r.buf, seg);
    var r' := r.(buf := Insert(r.buf, seg));
    assert m < |r'.buf| && r'.buf[m].sn == seg.sn;
  }

  lemma {:induction false} ReadyHolds(r: Receiver, base: u32, sn: u32)
    requires ReceiverOk(r) && Arrived(r, base, sn) && Sub(sn, base) < TWO31 && Sub(r.nxt, base) + |r.buf| <= TWO31
    ensures Arrived(MoveReady(r), base, sn)
    decreases |r.buf|
  {
    if r.buf != [] && r.buf[0].sn == r.nxt && |r.queue| < r.wnd {
      var r1 := r.(buf := r.buf[1..], queue := r.queue + [r.buf[0].frag], nxt := Add(r.nxt, 1));
      forall i | 0 <= i < |r1.buf| ensures Sub(r1.buf[i].sn, r1.nxt) == Sub(r.buf[i + 1].sn, r.nxt) - 1 {
        assert Sub(r.buf[0].sn, r.nxt) < Sub(r.buf[i + 1].sn, r.nxt);
      }
      assert ReceiverOk(r1);
      if Sub(sn, base) >= Sub(r1.nxt, base) {
        var i :| 0 <= i < |r.buf| && r.buf[i].sn == sn;
        assert i > 0 ==> r1.buf[i - 1].sn == sn;
      }
      ReadyHolds(r1, base, sn);
    }
  }

  // ---------------------------------------------------------------- flush: what goes out

  /** The window a header advertises: the free places of the receive queue, in 16 bits. */
  function Free(r: Receiver): int {
    if |r.queue| < r.wnd then (r.wnd - |r.queue|) % 0x1_0000 else 0
  }

  lemma {:induction false} PushHeaders(conv: u32, r: Receiver, c: Clock, buf: seq<OutSeg>)
    ensures forall w :: w in PushWires(conv, r, c, buf) ==>
      w.cmd == IKCP_CMD_PUSH && w.conv == conv && w.una == r.nxt && w.wnd == Free(r) && w.ts == c.current
    decreases |buf|
  {
    hide Due;
    if buf != [] {
      PushHeaders(conv, r, c, buf[..|buf| - 1]);
    }
  }

  /** Every segment put out carries the conversation, the next number expected and the free window of its
      sender; data carries the current time.  The acks that were queued come first, each with the number and
      time of what it acks. */
  lemma FlushHeaders(k: Kcb)
    requires Wf(k) && k.clock.updated
    ensures var out := Flatten(Flush(k).out);
      && (forall w :: w in out ==> w.conv == k.conv && w.una == k.rcv.nxt && w.wnd == Free(k.rcv))
      && (forall w :: w in out && w.cmd == IKCP_CMD_PUSH ==> w.ts == k.clock.current)
      && |k.acks| <= |out|
      && (forall i :: 0 <= i < |k.acks| ==>
            out[i].cmd == IKCP_CMD_ACK && out[i].sn == k.acks[i].sn && out[i].ts == k.acks[i].ts)
      && (forall i :: |k.acks| <= i < |out| ==> out[i].cmd != IKCP_CMD_ACK)
  {
    hide Flush, Flatten, Filled, PushWires, Wf;
    FlushOutput(k);
    FlushWiresKinds(k);
    PushHeaders(k.conv, k.rcv, FlushClock(k), Filled(k).buf);
    ProbeTime(k);
    var a := AckWires(k.conv, k.rcv, k.acks);
    forall w | w in a ensures w.conv == k.conv && w.una == k.rcv.nxt && w.wnd == Free(k.rcv) && w.cmd == IKCP_CMD_ACK {
      var i :| 0 <= i < |a| && a[i] == w;
    }
    forall i | 0 <= i < |k.acks| ensures FlushWires(k)[i] == a[i] {}
  }

  lemma ProbeTime(k: Kcb)
    ensures FlushClock(k).current == k.clock.current
  {
  }

  /** The datagram behind the i-th begins with a segment that did not fit into the i-th any more. */
  predicate Full(mtu: int, out: seq<seq<Wire>>, i: nat)
    requires i + 1 < |out|
  {
    out[i + 1] != [] && SizeAll(out[i]) + Size(out[i + 1][0]) > mtu
  }

  predicate Tight(mtu: int, out: seq<seq<Wire>>) {
    forall i :: 0 <= i < |out| - 1 ==> Full(mtu, out, i)
  }

  lemma {:induction false} PackTight(mtu: int, ws: seq<Wire>)
    ensures var p := Pack(mtu, ws); Tight(mtu, p.done + [p.cur]) && (p.cur == [] ==> p.done == [])
    decreases |ws|
  {
    hide PackStep, Tight;
    if ws == [] {
      var none: seq<seq<Wire>> := [];
      assert none + [[]] == [[]];
      NothingTight(mtu);
    } else {
      PackTight(mtu, ws[..|ws| - 1]);
      StepTight(mtu, Pack(mtu, ws[..|ws| - 1]), ws[|ws| - 1]);
    }
  }

  lemma StepTight(mtu: int, p: Packing, w: Wire)
    requires Tight(mtu, p.done + [p.cur]) && (p.cur == [] ==> p.done == [])
    ensures var q := PackStep(mtu, p, w); Tight(mtu, q.done + [q.cur]) && q.cur != []
  {
    hide SizeAll, Size;
    var q := PackStep(mtu, p, w);
    var a, b := p.done + [p.cur], q.done + [q.cur];
    forall i | 0 <= i < |b| - 1 ensures Full(mtu, b, i) {
      if i < |a| - 1 {
        assert Full(mtu, a, i) && b[i] == a[i] && b[i + 1][0] == a[i + 1][0];
      } else {
        assert b[i] == p.cur && b[i + 1] == [w];
      }
    }
  }

  /** A flush puts out as few datagrams as the order of the segments allows. */
  lemma FlushTight(k: Kcb)
    requires k.clock.updated
    ensures Tight(k.mtu, Flush(k).out)
  {
    hide Tight, Pack, FlushWires, Flushed;
    PackTight(k.mtu, FlushWires(k));
    NothingTight(k.mtu);
  }

  lemma NothingTight(mtu: int)
    ensures Tight(mtu, []) && Tight(mtu, [[]])
  {
  }

  /** The peer's window is asked for exactly if that was put off before, or the peer's window is closed and the
      time for a probe has come; the own window is told exactly if it was asked for or has reopened. */
  lemma FlushControls(k: Kcb)
    requires Wf(k) && k.clock.updated
    ensures var out, k' := Flatten(Flush(k).out), Flush(k).k;
      && ((exists w :: w in out && w.cmd == IKCP_CMD_WASK) <==>
            k.asked.send || (k.wnd.rmt == 0 && k.clock.probeWait != 0 && TimeDiff(k.clock.current, k.clock.tsProbe) >= 0))
      && ((exists w :: w in out && w.cmd == IKCP_CMD_WINS) <==> k.asked.tell)
      && k'.asked == Asked(false, false) && k'.acks == [] && k'.wnd == k.wnd && k'.rcv == k.rcv
  {
    hide Flatten, Filled, PushWires, Wf, Probe, Exhausted;
    FlushOutput(k);
    PushHeaders(k.conv, k.rcv, FlushClock(k), Filled(k).buf);
    var a := AckWires(k.conv, k.rcv, k.acks);
    var b := ProbeWires(k.conv, k.rcv, FlushAsked(k), LastAck(k.acks));
    forall w | w in a ensures w.cmd == IKCP_CMD_ACK {
      var i :| 0 <= i < |a| && a[i] == w;
    }
    hide FlushAsked, AckWires;
    if FlushAsked(k).send { assert b[0] in b; }
    if FlushAsked(k).tell { assert b[|b| - 1] in b; }
    assert forall w :: w in FlushWires(k) <==> w in a || w in b || w in PushWires(k.conv, k.rcv, FlushClock(k), Filled(k).buf);
  }

  /** While the peer's window stays closed, the wait between probes starts at seven seconds and grows by half
      each time, up to two minutes; the next probe is that wait away.  An open window ends the probing. */
  lemma FlushProbes(k: Kcb)
    requires Wf(k) && k.clock.updated
    ensures var c, c' := k.clock, Flush(k).k.clock;
      && (k.wnd.rmt != 0 ==> c'.probeWait == 0 && c'.tsProbe == 0)
      && (k.wnd.rmt == 0 && c.probeWait == 0 ==> c'.probeWait == 7000 && Sub(c'.tsProbe, c.current) == 7000)
      && (k.wnd.rmt == 0 && c.probeWait != 0 && TimeDiff(c.current, c.tsProbe) < 0 ==>
            c'.probeWait == c.probeWait && c'.tsProbe == c.tsProbe)
      && (k.wnd.rmt == 0 && 7000 <= c.probeWait <= 120000 && TimeDiff(c.current, c.tsProbe) >= 0 ==>
            c'.probeWait == Min(c.probeWait + c.probeWait / 2, 120000) && Sub(c'.tsProbe, c.current) == c'.probeWait)
      && c'.current == c.current && c'.tsFlush == c.tsFlush && c'.interval == c.interval && c'.rxRto == c.rxRto
  {
    hide Filled, FlushWires, Exhausted, Wf;
  }

  // ---------------------------------------------------------------- flush: which segments are sent

  /** From s to s' the first n queued fragments became numbered segments. */
  predicate TakenOver(s: Sender, s': Sender, n: nat, now: u32, rto: u32) {
    && n <= |s.queue| && s'.queue == s.queue[n..] && s'.nxt == (s.nxt + n) % TWO32 && s'.una == s.una
    && |s'.buf| == |s.buf| + n
    && (forall i :: 0 <= i < |s.buf| ==> s'.buf[i] == s.buf[i])
    && (forall i :: |s.buf| <= i < |s'.buf| ==>
          s'.buf[i] == OutSeg((s.nxt + (i - |s.buf|)) % TWO32, s.queue[i - |s.buf|], now, rto, 0, 0))
  }

  lemma TakenNext(s: Sender, s': Sender, m: nat, now: u32, rto: u32)
    requires s.queue != []
    requires TakenOver(s.(queue := s.queue[1..], buf := s.buf + [OutSeg(s.nxt, s.queue[0], now, rto, 0, 0)],
                          nxt := Add(s.nxt, 1)), s', m, now, rto)
    ensures TakenOver(s, s', m + 1, now, rto)
  {
    forall i | |s.buf| <= i < |s'.buf|
      ensures s'.buf[i] == OutSeg((s.nxt + (i - |s.buf|)) % TWO32, s.queue[i - |s.buf|], now, rto, 0, 0)
    {
      if i > |s.buf| {
        NextNumber(s.nxt, i - |s.buf| - 1);
        assert s.queue[1..][i - |s.buf| - 1] == s.queue[i - |s.buf|];
      }
    }
    NextNumber(s.nxt, m);
  }

  lemma {:induction false} MoveToBufParts(s: Sender, wnd: u32, now: u32, rto: u32) returns (n: nat)
    ensures TakenOver(s, MoveToBuf(s, wnd, now, rto), n, now, rto)
    decreases |s.queue|
  {
    n := 0;
    if TimeDiff(s.nxt, Add(s.una, wnd)) < 0 && s.queue != [] {
      hide TakenOver;
      var seg := OutSeg(s.nxt, s.queue[0], now, rto, 0, 0);
      var m := MoveToBufParts(s.(queue := s.queue[1..], buf := s.buf + [seg], nxt := Add(s.nxt, 1)), wnd, now, rto);
      TakenNext(s, MoveToBuf(s, wnd, now, rto), m, now, rto);
      n := m + 1;
    }
  }

  lemma NextNumber(nxt: u32, i: nat)
    ensures (Add(nxt, 1) + i) % TWO32 == (nxt + (i + 1)) % TWO32
  {
    if nxt + 1 == TWO32 {
      assert nxt + (i + 1) == TWO32 + i;
    }
  }

  /** A flush gives the next numbers to the segments in front of the queue and sends them behind those already
      buffered, which keep their numbers and contents. */
  lemma FlushNumbers(k: Kcb) returns (n: nat)
    requires k.clock.updated
    ensures var s, s' := k.snd, Flush(k).k.snd;
      && n <= |s.queue| && s'.queue == s.queue[n..] && s'.nxt == (s.nxt + n) % TWO32 && |s'.buf| == |s.buf| + n
      && (forall i :: 0 <= i < |s.buf| ==> s'.buf[i].sn == s.buf[i].sn && s'.buf[i].frag == s.buf[i].frag)
      && (forall i :: |s.buf| <= i < |s'.buf| ==>
            s'.buf[i].sn == (s.nxt + (i - |s.buf|)) % TWO32 && s'.buf[i].frag == s.queue[i - |s.buf|])
  {
    n := MoveToBufParts(k.snd, Window(k.wnd), k.clock.current, k.clock.rxRto);
    hide MoveToBuf, Window, Touch, Exhausted, Probe, FlushWires;
    var s, f, s' := k.snd, Filled(k), Flush(k).k.snd;
    forall i | 0 <= i < |f.buf| ensures s'.buf[i].sn == f.buf[i].sn && s'.buf[i].frag == f.buf[i].frag {
      assert s'.buf[i] == Touch(FlushClock(k), f.buf[i]);
    }
  }

  /** In flight are then no more segments than the smallest of the send window, the window the peer advertises
      and, unless it is switched off, the congestion window, or as many as before; fewer only if no more wait. */
  lemma FlushWindow(k: Kcb)
    requires Wf(k) && k.clock.updated
    ensures var w, s' := Min(Min(k.wnd.snd, k.wnd.rmt), if k.wnd.nocwnd then TWO32 else k.wnd.cwnd), Flush(k).k.snd;
      s'.InFlight() <= Max(k.snd.InFlight(), w) && (s'.queue != [] ==> s'.InFlight() >= w)
  {
    hide SenderOk, ReceiverOk, MoveToBuf, TouchAll, Exhausted, Probe, FlushWires;
    MoveToBufKeeps(k.snd, Window(k.wnd), k.clock.current, k.clock.rxRto, k.mtu);
  }

  /** The data segment that carries s at a given time. */
  function Carrier(k: Kcb, s: OutSeg): Wire {
    Wire(k.conv, IKCP_CMD_PUSH, s.frag.frg, Free(k.rcv), k.clock.current, s.sn, k.rcv.nxt, s.frag.data)
  }

  predicate Sends(k: Kcb, s: OutSeg) {
    Carrier(k, s) in Flatten(Flush(k).out)
  }

  /** Later segments have acked it often enough for it to be sent again early, and not too often. */
  predicate SkippedEnough(c: Clock, s: OutSeg) {
    s.fastack >= (if c.fastResend > 0 then c.fastResend else 0xffff_ffff) &&
    (Signed(s.xmit) <= c.fastLimit || c.fastLimit <= 0)
  }

  /** The timeout after a segment was found overdue: it at least doubles, or grows by half of itself, or by half
      of the current timeout (a half of a word with its top bit set is a negative half). */
  predicate BackedOff(c: Clock, rto: u32, rto': u32) {
    if c.nodelay == 0 then rto' == Add(rto, Max(rto, c.rxRto))
    else
      var step := if c.nodelay < 2 then rto else c.rxRto;
      if step < TWO31 then rto' == Add(rto, step / 2) else rto == Add(rto', (TWO32 - step) / 2)
  }

  lemma SendsIfDue(k: Kcb, i: nat)
    requires Wf(k) && k.clock.updated && i < |Filled(k).buf|
    ensures Sends(k, Filled(k).buf[i]) <==> Due(FlushClock(k), Filled(k).buf[i])
    ensures |Flush(k).k.snd.buf| == |Filled(k).buf|
    ensures Flush(k).k.snd.buf[i] == Touch(FlushClock(k), Filled(k).buf[i])
  {
    hide Due, Filled, FlushWires, Wf, Flatten, Exhausted, Touch;
    FlushSendsDue(k, i);
    ProbeTime(k);
    hide FlushClock;
  }

  lemma SettingsStay(k: Kcb)
    ensures var c, c' := k.clock, FlushClock(k);
      && c'.current == c.current && c'.rxRto == c.rxRto && c'.nodelay == c.nodelay
      && c'.fastResend == c.fastResend && c'.fastLimit == c.fastLimit && c'.deadLink == c.deadLink
  {
  }

  lemma FilledOld(k: Kcb, i: nat)
    requires i < |k.snd.buf|
    ensures i < |Filled(k).buf| && Filled(k).buf[i] == k.snd.buf[i]
  {
    var n := MoveToBufParts(k.snd, Window(k.wnd), k.clock.current, k.clock.rxRto);
    hide MoveToBuf, Window;
  }

  /** A segment that was sent before is sent again if and only if its time has come or it was skipped often
      enough.  An overdue one then waits longer than before, from now on; one sent early starts its wait anew and
      counts skips from zero; one not sent stays as it was. */
  lemma FlushResends(k: Kcb, i: nat)
    requires Wf(k) && k.clock.updated && i < |k.snd.buf| && k.snd.buf[i].xmit != 0
    ensures i < |Flush(k).k.snd.buf|
    ensures var c, s, s' := k.clock, k.snd.buf[i], Flush(k).k.snd.buf[i];
      && (Sends(k, s) <==> Overdue(s, c.current) || SkippedEnough(c, s))
      && (Overdue(s, c.current) ==>
            BackedOff(c, s.rto, s'.rto) && s' == s.(xmit := Add(s.xmit, 1), rto := s'.rto, resendTs := Add(c.current, s'.rto)))
      && (!Overdue(s, c.current) && SkippedEnough(c, s) ==>
            s' == s.(xmit := Add(s.xmit, 1), fastack := 0, resendTs := Add(c.current, s.rto)))
      && (!Overdue(s, c.current) && !SkippedEnough(c, s) ==> s' == s)
  {
    hide Filled, FlushClock, Flush, Wf, Sends;
    FilledOld(k, i);
    SendsIfDue(k, i);
    SettingsStay(k);
  }

  /** A segment that was never sent, in particular one the window has just admitted, is sent at once. */
  lemma FlushFirst(k: Kcb, i: nat)
    requires Wf(k) && k.clock.updated && i < |Flush(k).k.snd.buf|
    requires i < |k.snd.buf| ==> k.snd.buf[i].xmit == 0
    ensures var c, s' := k.clock, Flush(k).k.snd.buf[i];
      && Sends(k, s') && s'.xmit == 1 && s'.rto == c.rxRto
      && s'.resendTs == Add(Add(c.current, c.rxRto), if c.nodelay == 0 then c.rxRto / 8 else 0)
      && (i >= |k.snd.buf| ==> s'.fastack == 0)
  {
    hide Filled, FlushClock, Flush, Wf, Sends;
    FlushLength(k);
    SendsIfDue(k, i);
    SettingsStay(k);
    if i < |k.snd.buf| {
      FilledOld(k, i);
    } else {
      FilledNew(k, i);
    }
    SameCarrier(k, Filled(k).buf[i], Flush(k).k.snd.buf[i]);
  }

  lemma FilledNew(k: Kcb, i: nat)
    requires |k.snd.buf| <= i < |Filled(k).buf|
    ensures Filled(k).buf[i].xmit == 0 && Filled(k).buf[i].fastack == 0
  {
    var n := MoveToBufParts(k.snd, Window(k.wnd), k.clock.current, k.clock.rxRto);
    hide MoveToBuf, Window;
  }

  lemma FlushLength(k: Kcb)
    requires k.clock.updated
    ensures |Flush(k).k.snd.buf| == |Filled(k).buf|
  {
    hide Filled, FlushClock, FlushWires, Exhausted;
  }

  /** The link is given up exactly when a segment that a flush sends has been sent deadLink times. */
  lemma FlushDead(k: Kcb)
    requires Wf(k) && k.clock.updated
    ensures var k' := Flush(k).k;
      k'.clock.dead <==>
        (k.clock.dead || exists i :: 0 <= i < |k'.snd.buf| && Sends(k, k'.snd.buf[i]) && k'.snd.buf[i].xmit >= k.clock.deadLink)
  {
    hide Filled, FlushClock, FlushWires, Exhausted, Wf, Sends, TouchAll;
    var c, buf := FlushClock(k), Filled(k).buf;
    SettingsStay(k);
    ExhaustedIs(c, buf);
    DeadStays(k);
    assert Flush(k).k.snd.buf == TouchAll(c, buf);
    forall i | 0 <= i < |buf|
      ensures Flush(k).k.snd.buf[i] == Touch(c, buf[i]) && (Sends(k, Touch(c, buf[i])) <==> Due(c, buf[i]))
    {
      SendsIfDue(k, i);
      SameCarrier(k, buf[i], Touch(c, buf[i]));
    }
  }

  lemma DeadStays(k: Kcb)
    ensures FlushClock(k).dead == k.clock.dead
  {
  }

  lemma SameCarrier(k: Kcb, s: OutSeg, s': OutSeg)
    requires s'.sn == s.sn && s'.frag == s.frag
    ensures Sends(k, s) <==> Sends(k, s')
  {
    hide Flush, Flatten;
  }

  lemma {:induction false} ExhaustedIs(c: Clock, buf: seq<OutSeg>)
    ensures Exhausted(c, buf) <==>
      exists i :: 0 <= i < |buf| && Due(c, buf[i]) && Touch(c, buf[i]).xmit >= c.deadLink
    decreases |buf|
  {
    hide Due, Touch;
    if buf != [] {
      var init := buf[..|buf| - 1];
      ExhaustedIs(c, init);
      if i :| 0 <= i < |init| && Due(c, init[i]) && Touch(c, init[i]).xmit >= c.deadLink {
        assert buf[i] == init[i];
      }
      forall i | 0 <= i < |init| ensures buf[i] == init[i] {}
    }
  }

  // ---------------------------------------------------------------- updates

  /** The clock of an update is the time given.  It flushes if it is the first one, or the flush time has come, or lies
      more than ten seconds ahead; the next flush then lies ahead, an interval behind the last one or, if that is past
      or the clock has jumped, an interval behind now.  Otherwise the flush time stays. */
  lemma UpdateClock(k: Kcb, now: u32)
    requires Wf(k) && 0 < k.clock.interval <= 5000
    ensures var c, c' := k.clock, Update(k, now).k.clock;
      var d := TimeDiff(now, c.tsFlush);
      var due := !c.updated || d >= 0 || d < -10000;
      && c'.current == now && c'.updated
      && (due ==> Update(k, now) == Flush(k.(clock := c.(current := now, updated := true, tsFlush := c'.tsFlush))))
      && (!due ==> Update(k, now) == FlushResult(k.(clock := c.(current := now)), []))
      && (due ==> 0 < Sub(c'.tsFlush, now) <= c.interval)
      && (due && c.updated && 0 <= d < c.interval ==> Sub(c'.tsFlush, c.tsFlush) == c.interval)
      && (due && !(c.updated && 0 <= d < c.interval) ==> Sub(c'.tsFlush, now) == c.interval)
  {
    hide Flush;
    var k1 := k.(clock := Tick(k.clock, now).0);
    if k1.clock.updated {
      FlushTimes(k1);
    }
  }

  lemma FlushTimes(k: Kcb)
    ensures var c, c' := k.clock, Flush(k).k.clock;
      c'.current == c.current && c'.updated == c.updated && c'.tsFlush == c.tsFlush && c'.interval == c.interval
  {
    hide Filled, FlushWires, Exhausted;
  }

  // ---------------------------------------------------------------- an exchange

  /** An acknowledgement comes back.  When a data segment reaches y, in or below its window, the next flush of y puts
      out an ack of it, and this ack, whenever it reaches x, takes the segment out of x's buffer. */
  lemma AckComesBack(x: Kcb, y: Kcb, w: Wire)
    requires Wf(x) && Wf(y) && w.cmd == IKCP_CMD_PUSH && y.clock.updated
    requires Sub(w.sn, y.rcv.nxt) < y.rcv.wnd || Sub(w.sn, y.rcv.nxt) >= TWO31 + y.rcv.wnd
    ensures exists a :: a in Flatten(Flush(InputSeg(y, w)).out) && a.cmd == IKCP_CMD_ACK && a.sn == w.sn && a.ts == w.ts
    ensures forall a: Wire :: a.cmd == IKCP_CMD_ACK && a.sn == w.sn ==>
      forall g :: g in InputSeg(x, a).snd.buf ==> g in x.snd.buf && g.sn != w.sn
  {
    hide Flush, Flatten, Wf, Acked, ParsePush, Acknowledge;
    InputSegKeeps(y, w);
    var y1 := InputSeg(y, w);
    DataAcked(y, w);
    FlushHeaders(y1);
    var i := |y.acks|;
    assert y1.acks[i] == Ack(w.sn, w.ts);
    assert Flatten(Flush(y1).out)[i] in Flatten(Flush(y1).out);
    forall a: Wire | a.cmd == IKCP_CMD_ACK && a.sn == w.sn
      ensures forall g :: g in InputSeg(x, a).snd.buf ==> g in x.snd.buf && g.sn != w.sn
    {
      AcksRemove(x, a);
    }
  }

  /** A probe of the window is answered by the next flush, with the room there is then; nothing else asks for that. */
  lemma ProbeAnswered(k: Kcb, w: Wire)
    requires Wf(k) && k.clock.updated
    ensures var k1 := InputSeg(k, w);
      && (w.cmd == IKCP_CMD_WASK ==>
            exists a :: a in Flatten(Flush(k1).out) && a.cmd == IKCP_CMD_WINS && a.wnd == Free(k.rcv))
      && (w.cmd != IKCP_CMD_WASK ==> k1.asked == k.asked)
  {
    hide Flush, Flatten, Wf, Acknowledge, Free;
    InputSegKeeps(k, w);
    var k1 := InputSeg(k, w);
    if w.cmd == IKCP_CMD_WASK {
      FlushControls(k1);
      FlushHeaders(k1);
    }
  }
}
