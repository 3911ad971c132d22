/** The hierarchical timing wheel: 256 near slots and four levels of 64, holding timers by the
    digits of their 32-bit expiry. */
module TimerWheel {
  import opened Bits
  import opened Serial

  const TIME_NEAR := 256
  const TIME_LEVEL := 64

  datatype Node = Node(expire: u32, handle: u32)

  /** The number of ticks one slot of a level spans: 2^8, 2^14, 2^20, 2^26. */
  function Unit(level: nat): (u: int)
    requires level <= 3
    ensures u > 0
  {
    if level == 0 then 0x100 else if level == 1 then 0x4000 else if level == 2 then 0x10_0000 else 0x400_0000
  }

  function LevelSlot(level: nat, idx: nat): (s: nat)
    requires level <= 3 && idx < TIME_LEVEL
    ensures TIME_NEAR <= s < 512
  {
    TIME_NEAR + level * TIME_LEVEL + idx
  }

  /** The lowest level on which expiry and time differ by less than a whole turn. */
  function LevelOf(expire: u32, time: u32): (i: nat)
    ensures i <= 3
  {
    if expire / Unit(1) == time / Unit(1) then 0
    else if expire / Unit(2) == time / Unit(2) then 1
    else if expire / Unit(3) == time / Unit(3) then 2
    else 3
  }

  /** The one slot in which a node of that expiry belongs: 0..255 are the near slots, then come
      the four levels of 64. */
  function SlotOf(expire: u32, time: u32): (s: nat)
    ensures s < 512
  {
    if expire / TIME_NEAR == time / TIME_NEAR then expire % TIME_NEAR
    else
      var i := LevelOf(expire, time);
      LevelSlot(i, expire / Unit(i) % TIME_LEVEL)
  }

  /** Comparing words with their low bits set, as the code does, is comparing quotients. */
  lemma MaskComparesQuotients(x: u32, y: u32, level: nat)
    requires level <= 3
    ensures BitOr(x, Unit(level) - 1) == BitOr(y, Unit(level) - 1) <==> x / Unit(level) == y / Unit(level)
  {
    Powers();
    UnitPower(level);
    MaskedEqual(x, y, 8 + 6 * level);
  }

  lemma UnitPower(level: nat)
    requires level <= 3
    ensures Unit(level) == Power2(8 + 6 * level)
  {
    Powers();
  }

  /** A mask takes a remainder, a shift a quotient. */
  lemma UnitBits(x: u32, level: nat)
    requires level <= 3
    ensures BitAnd(x, Unit(level) - 1) == x % Unit(level)
    ensures BitAnd(ShiftRight(x, 8 + 6 * level), TIME_LEVEL - 1) == x / Unit(level) % TIME_LEVEL
    ensures BitAnd(x, TIME_NEAR - 1) == x % TIME_NEAR
  {
    Powers();
    UnitPower(level);
    MaskIsRemainder(x, 8 + 6 * level);
    MaskIsRemainder(x, 8);
    ShiftIsQuotient(x, 8 + 6 * level);
    MaskIsRemainder(ShiftRight(x, 8 + 6 * level), 6);
  }

  /** The slot a new time redistributes: that of its lowest nonzero digit above a turn of the
      near slots; 512 stands for none. */
  function CascadeSlot(ct: u32): (s: nat)
    ensures s == 512 || TIME_NEAR <= s < 512
  {
    if ct == 0 then LevelSlot(3, 0)
    else if ct % TIME_NEAR != 0 then 512
    else if ct / Unit(0) % TIME_LEVEL != 0 then LevelSlot(0, ct / Unit(0) % TIME_LEVEL)
    else if ct / Unit(1) % TIME_LEVEL != 0 then LevelSlot(1, ct / Unit(1) % TIME_LEVEL)
    else if ct / Unit(2) % TIME_LEVEL != 0 then LevelSlot(2, ct / Unit(2) % TIME_LEVEL)
    else LevelSlot(3, ct / Unit(3) % TIME_LEVEL)
  }

  // ---------------------------------------------------------------- digits and carries

  /** The digits of a time: one near digit and one per level. */
  datatype Digits = Digits(b: int, d0: int, d1: int, d2: int, d3: int) {
    predicate Ok() {
      0 <= b < 256 && 0 <= d0 < 64 && 0 <= d1 < 64 && 0 <= d2 < 64 && 0 <= d3 < 64
    }

    function Value(): int {
      b + 0x100 * d0 + 0x4000 * d1 + 0x10_0000 * d2 + 0x400_0000 * d3
    }

    function Slot(t: Digits): int {
      if d0 == t.d0 && d1 == t.d1 && d2 == t.d2 && d3 == t.d3 then b
      else if d1 == t.d1 && d2 == t.d2 && d3 == t.d3 then 256 + d0
      else if d2 == t.d2 && d3 == t.d3 then 320 + d1
      else if d3 == t.d3 then 384 + d2
      else 448 + d3
    }

    function Cascade(): int {
      if b != 0 then 512
      else if d0 != 0 then 256 + d0
      else if d1 != 0 then 320 + d1
      else if d2 != 0 then 384 + d2
      else 448 + d3
    }

    /** The next time, carrying, wrapping at the top. */
    function Next(): Digits {
      if b < 255 then Digits(b + 1, d0, d1, d2, d3)
      else if d0 < 63 then Digits(0, d0 + 1, d1, d2, d3)
      else if d1 < 63 then Digits(0, 0, d1 + 1, d2, d3)
      else if d2 < 63 then Digits(0, 0, 0, d2 + 1, d3)
      else if d3 < 63 then Digits(0, 0, 0, 0, d3 + 1)
      else Digits(0, 0, 0, 0, 0)
    }
  }

  function DigitsOf(x: u32): Digits {
    Digits(x % 256, x / 0x100 % 64, x / 0x4000 % 64, x / 0x10_0000 % 64, x / 0x400_0000)
  }

  lemma DigitsValue(x: u32)
    ensures DigitsOf(x).Ok() && DigitsOf(x).Value() == x
    ensures x / 0x100 == DigitsOf(x).d0 + 64 * (x / 0x4000)
    ensures x / 0x4000 == DigitsOf(x).d1 + 64 * (x / 0x10_0000)
    ensures x / 0x10_0000 == DigitsOf(x).d2 + 64 * DigitsOf(x).d3
  {
    assert x / 0x4000 == x / 0x100 / 64;
    assert x / 0x10_0000 == x / 0x4000 / 64;
    assert x / 0x400_0000 == x / 0x10_0000 / 64;
  }

  lemma TopDigit(x: u32)
    ensures x / 0x400_0000 % 64 == x / 0x400_0000
  {
  }

  /** Quotients agree when all digits from there on agree. */
  lemma QuotientsAgree(e: u32, t: u32)
    ensures var x, y := DigitsOf(e), DigitsOf(t);
      && (e / 0x10_0000 == t / 0x10_0000 <==> x.d2 == y.d2 && x.d3 == y.d3)
      && (e / 0x4000 == t / 0x4000 <==> x.d1 == y.d1 && x.d2 == y.d2 && x.d3 == y.d3)
      && (e / 0x100 == t / 0x100 <==> x.d0 == y.d0 && x.d1 == y.d1 && x.d2 == y.d2 && x.d3 == y.d3)
  {
    DigitsValue(e);
    DigitsValue(t);
    hide DigitsOf;
  }

  lemma SlotDigits(e: u32, t: u32)
    ensures SlotOf(e, t) == DigitsOf(e).Slot(DigitsOf(t))
  {
    QuotientsAgree(e, t);
    TopDigit(e);
  }

  lemma CascadeDigits(ct: u32)
    ensures CascadeSlot(ct) == DigitsOf(ct).Cascade()
  {
    TopDigit(ct);
  }

  lemma NextDigits(t: u32)
    ensures DigitsOf(Add(t, 1)) == DigitsOf(t).Next()
  {
    hide DigitsOf;
    DigitsValue(t);
    DigitsValue(Add(t, 1));
    NextValue(DigitsOf(t));
    UniqueDigits(DigitsOf(Add(t, 1)), DigitsOf(t).Next());
  }

  /** Carrying adds one, or starts again at zero. */
  lemma NextValue(x: Digits)
    requires x.Ok()
    ensures x.Next().Ok()
    ensures x.Next().Value() == if x.Value() == TWO32 - 1 then 0 else x.Value() + 1
  {
  }

  lemma UniqueDigits(x: Digits, y: Digits)
    requires x.Ok() && y.Ok() && x.Value() == y.Value()
    ensures x == y
  {
    UniqueDigit(0x400_0000, x.Value() - 0x400_0000 * x.d3, x.d3, y.Value() - 0x400_0000 * y.d3, y.d3);
    UniqueDigit(0x10_0000, x.b + 0x100 * x.d0 + 0x4000 * x.d1, x.d2, y.b + 0x100 * y.d0 + 0x4000 * y.d1, y.d2);
    UniqueDigit(0x4000, x.b + 0x100 * x.d0, x.d1, y.b + 0x100 * y.d0, y.d1);
    UniqueDigit(0x100, x.b, x.d0, y.b, y.d0);
  }

  lemma UniqueDigit(unit: int, lo: int, hi: int, lo': int, hi': int)
    requires 0 <= lo < unit && 0 <= lo' < unit && lo + unit * hi == lo' + unit * hi'
    ensures lo == lo' && hi == hi'
  {
    assert unit * (hi - hi') == lo' - lo;
    if hi != hi' {
      LeapOfUnit(unit, hi - hi');
    }
  }

  lemma LeapOfUnit(unit: int, d: int)
    requires unit > 0 && d != 0
    ensures unit * d >= unit || unit * d <= -unit
  {
  }

  /** A timer that is not yet due, seen at two successive times: unless it is in the slot being
      redistributed, its slot does not change; if it is, it moves to another slot. */
  lemma DigitsStep(e: Digits, t: Digits)
    requires e.Ok() && t.Ok()
    requires 0 < e.Value() - t.Value() < TWO31 || 0 < e.Value() - t.Value() + TWO32 < TWO31
    ensures var ct := t.Next();
      if e.Slot(t) == ct.Cascade() then e.Slot(ct) != ct.Cascade() else e.Slot(ct) == e.Slot(t)
  {
  }

  predicate Pending(e: u32, t: u32) {
    0 < Sub(e, t) < TWO31
  }

  lemma SlotStep(e: u32, t: u32)
    requires Pending(e, t)
    ensures var ct := Add(t, 1);
      if SlotOf(e, t) == CascadeSlot(ct) then SlotOf(e, ct) != CascadeSlot(ct) else SlotOf(e, ct) == SlotOf(e, t)
  {
    var ct := Add(t, 1);
    SlotDigits(e, t);
    SlotDigits(e, ct);
    CascadeDigits(ct);
    NextDigits(t);
    DigitsValue(e);
    DigitsValue(t);
    hide SlotOf, CascadeSlot, DigitsOf;
    DigitsStep(DigitsOf(e), DigitsOf(t));
  }

  /** The near slot of the time holds just what is due. */
  lemma DueSlot(e: u32, t: u32)
    ensures SlotOf(e, t) == t % TIME_NEAR <==> e == t
  {
    DigitsValue(e);
    DigitsValue(t);
    SlotDigits(e, t);
  }

  /** A timer not yet due is never in slot 0 of the three lower levels. */
  lemma NeverSlotZero(e: u32, t: u32)
    requires Pending(e, t)
    ensures SlotOf(e, t) !in {LevelSlot(0, 0), LevelSlot(1, 0), LevelSlot(2, 0)}
  {
    DigitsValue(e);
    DigitsValue(t);
    SlotDigits(e, t);
    hide DigitsOf, SlotOf;
  }

  // ---------------------------------------------------------------- lists in slots

  type Slots = s: seq<seq<Node>> | |s| == 512 witness seq(512, _ => [])

  /** The nodes of a list with a given expiry, in order. */
  function Only(l: seq<Node>, e: u32): seq<Node> {
    if l == [] then []
    else
      var rest := Only(l[..|l| - 1], e);
      var n := l[|l| - 1];
      if n.expire == e then rest + [n] else rest
  }

  function AddNode(slots: Slots, time: u32, n: Node): Slots {
    var s := SlotOf(n.expire, time);
    slots[s := slots[s] + [n]]
  }

  function AddNodes(slots: Slots, time: u32, l: seq<Node>): Slots {
    if l == [] then slots else AddNode(AddNodes(slots, time, l[..|l| - 1]), time, l[|l| - 1])
  }

  /** Empties a slot and adds its nodes anew. */
  function MoveList(slots: Slots, time: u32, s: nat): Slots
    requires s < 512
  {
    AddNodes(slots[s := []], time, slots[s])
  }

  function Shift(slots: Slots, ct: u32): Slots {
    var s := CascadeSlot(ct);
    if s == 512 then slots else MoveList(slots, ct, s)
  }

  // ---------------------------------------------------------------- the bag

  /** A timer as the caller thinks of it: the tick on which it is due, on an unbounded clock. */
  datatype Entry = Entry(due: nat, handle: u32)

  function Wrap(n: nat): u32 {
    n % TWO32
  }

  function NodeOf(x: Entry): Node {
    Node(Wrap(x.due), x.handle)
  }

  function NodesOf(l: seq<Entry>): (r: seq<Node>)
    ensures |r| == |l|
    ensures forall i :: 0 <= i < |l| ==> r[i] == NodeOf(l[i])
  {
    if l == [] then [] else NodesOf(l[..|l| - 1]) + [NodeOf(l[|l| - 1])]
  }

  /** The entries due at a tick, and the others, in the order they were added. */
  function DueAt(l: seq<Entry>, tick: nat): seq<Entry> {
    if l == [] then []
    else
      var rest := DueAt(l[..|l| - 1], tick);
      if l[|l| - 1].due == tick then rest + [l[|l| - 1]] else rest
  }

  function NotDueAt(l: seq<Entry>, tick: nat): seq<Entry> {
    if l == [] then []
    else
      var rest := NotDueAt(l[..|l| - 1], tick);
      if l[|l| - 1].due != tick then rest + [l[|l| - 1]] else rest
  }

  function Handles(l: seq<Node>): seq<u32> {
    if l == [] then [] else Handles(l[..|l| - 1]) + [l[|l| - 1].handle]
  }

  /** One handle for each node, in the same order. */
  lemma {:induction false} HandlesOf(l: seq<Node>)
    ensures |Handles(l)| == |l| && forall i :: 0 <= i < |l| ==> Handles(l)[i] == l[i].handle
    decreases |l|
  {
    if l != [] {
      HandlesOf(l[..|l| - 1]);
    }
  }

  lemma HandlesAre(l: seq<Node>, called: seq<u32>)
    requires |called| == |l| && forall i :: 0 <= i < |l| ==> called[i] == l[i].handle
    ensures [] + called == Handles(l)
  {
    HandlesOf(l);
    hide Handles;
  }

  /** What is called back for a list of entries: the handle of each, in the same order. */
  predicate CallsBack(called: seq<u32>, due: seq<Entry>) {
    |called| == |due| && forall i :: 0 <= i < |due| ==> called[i] == due[i].handle
  }

  lemma EntriesCalled(due: seq<Entry>)
    ensures CallsBack(Handles(NodesOf(due)), due)
  {
    hide Handles, NodesOf;
    HandlesOf(NodesOf(due));
  }

  /** Every entry lies ahead of now by less than half the 32-bit clock. */
  predicate Ahead(l: seq<Entry>, now: nat) {
    forall i :: 0 <= i < |l| ==> now < l[i].due < now + TWO31
  }

  /** The wheel holds exactly the pending entries: every list consists, expiry by expiry, of the
      pending nodes whose slot it is, in the order they were added. */
  ghost predicate Holds(slots: Slots, time: u32, l: seq<Node>) {
    forall s: nat, e: u32 :: s < 512 ==>
      Only(slots[s], e) == if SlotOf(e, time) == s then Only(l, e) else []
  }

  lemma OnlyAppend(l: seq<Node>, n: Node, e: u32)
    ensures Only(l + [n], e) == if n.expire == e then Only(l, e) + [n] else Only(l, e)
  {
    assert (l + [n])[..|l|] == l;
  }

  /** Adding a timer to the wheel is adding it to the bag. */
  lemma AddHolds(slots: Slots, time: u32, l: seq<Node>, n: Node)
    requires Holds(slots, time, l)
    ensures Holds(AddNode(slots, time, n), time, l + [n])
  {
    var slots' := AddNode(slots, time, n);
    hide SlotOf, Only;
    forall s: nat, e: u32 | s < 512
      ensures Only(slots'[s], e) == if SlotOf(e, time) == s then Only(l + [n], e) else []
    {
      OnlyAppend(l, n, e);
      OnlyAppend(slots[s], n, e);
    }
  }

  /** Adding a list: every slot gets the nodes that belong there behind those it has. */
  lemma {:induction false} AddNodesOnly(slots: Slots, time: u32, l: seq<Node>, s: nat, e: u32)
    requires s < 512
    ensures Only(AddNodes(slots, time, l)[s], e) ==
            Only(slots[s], e) + if SlotOf(e, time) == s then Only(l, e) else []
    decreases |l|
  {
    if l != [] {
      var init, n := l[..|l| - 1], l[|l| - 1];
      AddNodesOnly(slots, time, init, s, e);
      var mid := AddNodes(slots, time, init);
      OnlyAppend(mid[s], n, e);
      OnlyAppend(init, n, e);
      assert init + [n] == l;
      hide SlotOf, Only, AddNodes;
    }
  }

  /** Redistribution takes every node to its slot for the new time and loses no order. */
  lemma MoveListOnly(slots: Slots, ct: u32, c: nat, s: nat, e: u32)
    requires c < 512 && s < 512
    ensures Only(MoveList(slots, ct, c)[s], e) ==
            (if s == c then [] else Only(slots[s], e)) + (if SlotOf(e, ct) == s then Only(slots[c], e) else [])
  {
    AddNodesOnly(slots[c := []], ct, slots[c], s, e);
    hide SlotOf, AddNodes;
  }

  lemma ShiftHolds(slots: Slots, time: u32, l: seq<Node>)
    requires Holds(slots, time, l)
    requires forall i :: 0 <= i < |l| ==> Pending(l[i].expire, time)
    ensures Holds(Shift(slots, Add(time, 1)), Add(time, 1), l)
  {
    var ct := Add(time, 1);
    hide SlotOf, Shift, Only;
    forall s: nat, e: u32 | s < 512
      ensures Only(Shift(slots, ct)[s], e) == if SlotOf(e, ct) == s then Only(l, e) else []
    {
      ShiftHoldsAt(slots, time, l, s, e);
    }
  }

  lemma ShiftHoldsAt(slots: Slots, time: u32, l: seq<Node>, s: nat, e: u32)
    requires Holds(slots, time, l) && s < 512
    requires forall i :: 0 <= i < |l| ==> Pending(l[i].expire, time)
    ensures var ct := Add(time, 1);
      Only(Shift(slots, ct)[s], e) == if SlotOf(e, ct) == s then Only(l, e) else []
  {
    var ct := Add(time, 1);
    var c := CascadeSlot(ct);
    hide Only, SlotOf, CascadeSlot, MoveList, Pending;
    if Only(l, e) != [] {
      OnlySome(l, e);
      SlotStep(e, time);
    }
    assert Only(slots[s], e) == if SlotOf(e, time) == s then Only(l, e) else [];
    if c < 512 {
      MoveListOnly(slots, ct, c, s, e);
      assert Only(slots[c], e) == if SlotOf(e, time) == c then Only(l, e) else [];
    }
  }

  lemma {:induction false} OnlySome(l: seq<Node>, e: u32)
    requires Only(l, e) != []
    ensures exists i :: 0 <= i < |l| && l[i].expire == e
    decreases |l|
  {
    if l[|l| - 1].expire != e {
      OnlySome(l[..|l| - 1], e);
      var i :| 0 <= i < |l| - 1 && l[..|l| - 1][i].expire == e;
      assert l[i].expire == e;
    }
  }

  lemma {:induction false} OnlyAll(l: seq<Node>, e: u32)
    requires forall i :: 0 <= i < |l| ==> l[i].expire == e
    ensures Only(l, e) == l
    decreases |l|
  {
    if l != [] {
      OnlyAll(l[..|l| - 1], e);
    }
  }

  lemma {:induction false} OnlyMember(l: seq<Node>, i: nat)
    requires i < |l|
    ensures Only(l, l[i].expire) != []
    decreases |l|
  {
    if i < |l| - 1 {
      OnlyMember(l[..|l| - 1], i);
    }
  }

  /** The near slot of the time is, in order, exactly what is due now. */
  lemma NearIsDue(slots: Slots, time: u32, l: seq<Node>)
    requires Holds(slots, time, l)
    ensures slots[time % TIME_NEAR] == Only(l, time)
  {
    hide SlotOf, Only;
    var s := time % TIME_NEAR;
    var near := slots[s];
    forall i | 0 <= i < |near| ensures near[i].expire == time {
      OnlyMember(near, i);
      DueSlot(near[i].expire, time);
      assert Only(near, near[i].expire) == if SlotOf(near[i].expire, time) == s then Only(l, near[i].expire) else [];
    }
    OnlyAll(near, time);
    DueSlot(time, time);
  }

  /** Emptying the near slot takes exactly the due entries out of the bag. */
  lemma ExecuteHolds(slots: Slots, time: u32, l: seq<Node>, l': seq<Node>)
    requires Holds(slots, time, l)
    requires forall e: u32 :: Only(l', e) == if e == time then [] else Only(l, e)
    ensures Holds(slots[time % TIME_NEAR := []], time, l')
  {
    var slots': Slots := slots[time % TIME_NEAR := []];
    hide SlotOf, Only;
    forall s: nat, e: u32 | s < 512
      ensures Only(slots'[s], e) == if SlotOf(e, time) == s then Only(l', e) else []
    {
      DueSlot(e, time);
      OnlyNothing(e);
    }
  }

  lemma OnlyNothing(e: u32)
    ensures Only([], e) == []
  {
  }

  // ---------------------------------------------------------------- the bag and the 32-bit clock

  lemma WrapEqual(a: nat, b: nat)
    requires a < b + TWO32 && b < a + TWO32
    ensures Wrap(a) == Wrap(b) <==> a == b
  {
    assert a == a / TWO32 * TWO32 + Wrap(a);
    assert b == b / TWO32 * TWO32 + Wrap(b);
  }

  lemma WrapSub(a: nat, b: nat)
    requires b <= a < b + TWO32
    ensures Sub(Wrap(a), Wrap(b)) == a - b
  {
    assert a == a / TWO32 * TWO32 + Wrap(a);
    assert b == b / TWO32 * TWO32 + Wrap(b);
  }

  lemma WrapAdd(a: nat, n: u32)
    ensures Wrap(a + n) == Add(Wrap(a), n)
  {
    assert a == a / TWO32 * TWO32 + Wrap(a);
    if Wrap(a) + n < TWO32 {
      assert a + n == a / TWO32 * TWO32 + (Wrap(a) + n);
    } else {
      assert a + n == (a / TWO32 + 1) * TWO32 + (Wrap(a) + n - TWO32);
    }
  }

  lemma {:induction false} AheadPending(l: seq<Entry>, now: nat)
    requires Ahead(l, now)
    ensures forall i :: 0 <= i < |l| ==> Pending(NodesOf(l)[i].expire, Wrap(now))
  {
    hide Wrap;
    forall i | 0 <= i < |l| ensures Pending(NodesOf(l)[i].expire, Wrap(now)) {
      WrapSub(l[i].due, now);
      assert NodesOf(l)[i] == NodeOf(l[i]);
    }
  }

  /** Taking the entries due at a tick is taking the nodes with the wrapped expiry. */
  lemma {:induction false} DueNodes(l: seq<Entry>, now: nat, tick: nat)
    requires Ahead(l, now) && now < tick <= now + 1
    ensures NodesOf(DueAt(l, tick)) == Only(NodesOf(l), Wrap(tick))
    decreases |l|
  {
    hide Wrap, Only, NodesOf;
    if l == [] {
      NodesNothing(Wrap(tick));
    } else {
      var init, x := l[..|l| - 1], l[|l| - 1];
      DueNodes(init, now, tick);
      WrapEqual(x.due, tick);
      NodesAppend(init, x);
      NodesAppend(DueAt(init, tick), x);
      assert init + [x] == l;
      OnlyAppend(NodesOf(init), NodeOf(x), Wrap(tick));
    }
  }

  lemma NotDueStep(rest: seq<Node>, kept: seq<Node>, n: Node, tick: nat, due: nat, e: u32)
    requires n.expire == Wrap(due) && (Wrap(due) == Wrap(tick) <==> due == tick)
    requires Only(kept, e) == if e == Wrap(tick) then [] else Only(rest, e)
    ensures Only(if due == tick then kept else kept + [n], e) == if e == Wrap(tick) then [] else Only(rest + [n], e)
  {
    OnlyAppend(rest, n, e);
    OnlyAppend(kept, n, e);
    hide Wrap, Only;
  }

  lemma {:induction false} NotDueNodes(l: seq<Entry>, now: nat, tick: nat, e: u32)
    requires Ahead(l, now) && now < tick <= now + 1
    ensures Only(NodesOf(NotDueAt(l, tick)), e) == if e == Wrap(tick) then [] else Only(NodesOf(l), e)
    decreases |l|
  {
    hide Wrap, Only, NodesOf;
    if l == [] {
      NodesNothing(e);
    } else {
      var init, x := l[..|l| - 1], l[|l| - 1];
      NotDueNodes(init, now, tick, e);
      WrapEqual(x.due, tick);
      NodesAppend(init, x);
      NodesAppend(NotDueAt(init, tick), x);
      assert init + [x] == l;
      NotDueStep(NodesOf(init), NodesOf(NotDueAt(init, tick)), NodeOf(x), tick, x.due, e);
    }
  }

  lemma NodesNothing(e: u32)
    ensures NodesOf([]) == [] && Only([], e) == []
  {
  }

  lemma NodesAppend(l: seq<Entry>, x: Entry)
    ensures NodesOf(l + [x]) == NodesOf(l) + [NodeOf(x)]
  {
    assert (l + [x])[..|l|] == l;
  }

  lemma {:induction false} NotDueAhead(l: seq<Entry>, now: nat)
    requires Ahead(l, now)
    ensures Ahead(NotDueAt(l, now + 1), now + 1)
    decreases |l|
  {
    if l != [] {
      NotDueAhead(l[..|l| - 1], now);
    }
  }

  // ---------------------------------------------------------------- the wheel as a value

  datatype Wheel = Wheel(time: u32, slots: Slots)

  function Timeout(w: Wheel, handle: u32, delay: int): Wheel
    requires delay < TWO31
  {
    if delay <= 0 then w else w.(slots := AddNode(w.slots, w.time, Node(Add(delay, w.time), handle)))
  }

  /** One timer_execute: the handles of the near slot of the time are dispatched. */
  function Execute(w: Wheel): (Wheel, seq<u32>) {
    var s := w.time % TIME_NEAR;
    (w.(slots := w.slots[s := []]), Handles(w.slots[s]))
  }

  function Update(w: Wheel): (Wheel, seq<u32>) {
    var (w1, fired1) := Execute(w);
    var ct := Add(w1.time, 1);
    var (w2, fired2) := Execute(Wheel(ct, Shift(w1.slots, ct)));
    (w2, fired1 + fired2)
  }

  /** What the caller expects: pending entries on an unbounded clock. */
  datatype Bag = Bag(now: nat, pending: seq<Entry>)

  function BagTimeout(b: Bag, handle: u32, delay: int): Bag
    requires delay < TWO31
  {
    if delay <= 0 then b else b.(pending := b.pending + [Entry(b.now + delay, handle)])
  }

  function BagUpdate(b: Bag): (Bag, seq<Entry>) {
    (Bag(b.now + 1, NotDueAt(b.pending, b.now + 1)), DueAt(b.pending, b.now + 1))
  }

  ghost predicate Refines(w: Wheel, b: Bag) {
    w.time == Wrap(b.now) && Ahead(b.pending, b.now) && Holds(w.slots, w.time, NodesOf(b.pending))
  }

  lemma NewRefines()
    ensures Refines(Wheel(0, seq(512, _ => [])), Bag(0, []))
  {
  }

  lemma TimeoutRefines(w: Wheel, b: Bag, handle: u32, delay: int)
    requires Refines(w, b) && delay < TWO31
    ensures Refines(Timeout(w, handle, delay), BagTimeout(b, handle, delay))
  {
    hide Holds, AddNode, Wrap;
    if delay > 0 {
      var x := Entry(b.now + delay, handle);
      WrapAdd(b.now, delay);
      assert Add(delay, w.time) == Add(w.time, delay);
      NodesAppend(b.pending, x);
      AddHolds(w.slots, w.time, NodesOf(b.pending), NodeOf(x));
    }
  }

  /** Nothing is due before time is advanced: the first timer_execute finds an empty slot. */
  lemma NothingDueYet(w: Wheel, b: Bag)
    requires Refines(w, b)
    ensures w.slots[w.time % TIME_NEAR] == []
  {
    NearIsDue(w.slots, w.time, NodesOf(b.pending));
    AheadPending(b.pending, b.now);
    hide Holds, Wrap, Only;
    if Only(NodesOf(b.pending), w.time) != [] {
      OnlySome(NodesOf(b.pending), w.time);
    }
  }

  /** One update of the wheel dispatches exactly the entries due at the new tick, in the order
      they were added, and leaves a wheel that holds the others. */
  lemma UpdateRefines(w: Wheel, b: Bag)
    requires Refines(w, b)
    ensures Refines(Update(w).0, BagUpdate(b).0)
    ensures CallsBack(Update(w).1, BagUpdate(b).1)
  {
    hide Holds, Shift, Wrap, Only, DueAt, NotDueAt, Ahead, NodesOf, Handles, CallsBack;
    EntriesCalled(DueAt(b.pending, b.now + 1));
    var tick, ct, l := b.now + 1, Add(w.time, 1), NodesOf(b.pending);
    NothingDueYet(w, b);
    assert w.slots[w.time % TIME_NEAR := []] == w.slots;
    WrapAdd(b.now, 1);
    AheadPending(b.pending, b.now);
    AheadPendingNodes(b.pending, b.now);
    ShiftHolds(w.slots, w.time, l);
    var shifted := Shift(w.slots, ct);
    NearIsDue(shifted, ct, l);
    DueNodes(b.pending, b.now, tick);
    forall e: u32 ensures Only(NodesOf(NotDueAt(b.pending, tick)), e) == if e == ct then [] else Only(l, e) {
      NotDueNodes(b.pending, b.now, tick, e);
    }
    ExecuteHolds(shifted, ct, l, NodesOf(NotDueAt(b.pending, tick)));
    NotDueAhead(b.pending, b.now);
    HandlesNothing();
    assert [] + Handles(shifted[ct % TIME_NEAR]) == Handles(shifted[ct % TIME_NEAR]);
  }

  lemma AheadPendingNodes(l: seq<Entry>, now: nat)
    requires Ahead(l, now)
    ensures forall n: Node :: n in NodesOf(l) ==> Pending(n.expire, Wrap(now))
  {
    AheadPending(l, now);
  }

  lemma HandlesNothing()
    ensures Handles([]) == []
  {
  }

  /** At every reachable state each node sits in the one slot its expiry and the time select,
      and is still ahead of the time. */
  lemma InPlace(w: Wheel, b: Bag, s: nat, i: nat)
    requires Refines(w, b) && s < 512 && i < |w.slots[s]|
    ensures SlotOf(w.slots[s][i].expire, w.time) == s && Pending(w.slots[s][i].expire, w.time)
  {
    var e := w.slots[s][i].expire;
    OnlyMember(w.slots[s], i);
    AheadPending(b.pending, b.now);
    hide SlotOf, Only, Pending, Wrap;
    assert Only(w.slots[s], e) == if SlotOf(e, w.time) == s then Only(NodesOf(b.pending), e) else [];
    OnlySome(NodesOf(b.pending), e);
  }

  /** Slot 0 of the three lower levels is always empty. */
  lemma SlotZeroEmpty(w: Wheel, b: Bag, level: nat)
    requires Refines(w, b) && level <= 2
    ensures w.slots[LevelSlot(level, 0)] == []
  {
    var s := LevelSlot(level, 0);
    if w.slots[s] != [] {
      InPlace(w, b, s, 0);
      NeverSlotZero(w.slots[s][0].expire, w.time);
    }
  }

  // ---------------------------------------------------------------- runs

  datatype Op = AddTimer(handle: u32, delay: int) | Tick

  /** A run of the wheel and its dispatch log, tick by tick. */
  datatype WheelRun = WheelRun(w: Wheel, log: seq<seq<u32>>)

  /** A run of the bag: what was added, and what fired at which tick. */
  datatype BagRun = BagRun(b: Bag, added: seq<Entry>, log: seq<seq<Entry>>)

  function RunWheel(ops: seq<Op>): WheelRun {
    if ops == [] then WheelRun(Wheel(0, seq(512, _ => [])), [])
    else
      var r := RunWheel(ops[..|ops| - 1]);
      match ops[|ops| - 1]
      case AddTimer(h, d) => if d < TWO31 then r.(w := Timeout(r.w, h, d)) else r
      case Tick => var (w, fired) := Update(r.w); WheelRun(w, r.log + [fired])
  }

  function StepBag(r: BagRun, op: Op): BagRun {
    match op
    case AddTimer(h, d) =>
      if 0 < d < TWO31 then r.(b := BagTimeout(r.b, h, d), added := r.added + [Entry(r.b.now + d, h)]) else r
    case Tick => var (b, fired) := BagUpdate(r.b); BagRun(b, r.added, r.log + [fired])
  }

  function RunBag(ops: seq<Op>): BagRun {
    if ops == [] then BagRun(Bag(0, []), [], []) else StepBag(RunBag(ops[..|ops| - 1]), ops[|ops| - 1])
  }

  /** Every run of the wheel refines the run of the bag: tick by tick the same handles in the
      same order, also when the 32-bit clock wraps. */
  lemma {:induction false} WheelRefinesBag(ops: seq<Op>)
    ensures var r, s := RunWheel(ops), RunBag(ops);
      && Refines(r.w, s.b)
      && s.b.now == |s.log| == |r.log|
      && forall i :: 0 <= i < |r.log| ==> CallsBack(r.log[i], s.log[i])
    decreases |ops|
  {
    if ops == [] {
      NewRefines();
    } else {
      var init := ops[..|ops| - 1];
      WheelRefinesBag(init);
      var r, s := RunWheel(init), RunBag(init);
      hide Refines, Update, CallsBack, DueAt, NotDueAt;
      match ops[|ops| - 1]
      case AddTimer(h, d) =>
        if d < TWO31 {
          TimeoutRefines(r.w, s.b, h, d);
        }
      case Tick =>
        UpdateRefines(r.w, s.b);
    }
  }

  function Flat(log: seq<seq<Entry>>): seq<Entry> {
    if log == [] then [] else Flat(log[..|log| - 1]) + log[|log| - 1]
  }

  lemma {:induction false} DueSplit(l: seq<Entry>, tick: nat)
    ensures multiset(l) == multiset(DueAt(l, tick)) + multiset(NotDueAt(l, tick))
    ensures forall i :: 0 <= i < |DueAt(l, tick)| ==> DueAt(l, tick)[i].due == tick
    decreases |l|
  {
    if l != [] {
      DueSplit(l[..|l| - 1], tick);
      assert l[..|l| - 1] + [l[|l| - 1]] == l;
    }
  }

  lemma FlatAppend(log: seq<seq<Entry>>, x: seq<Entry>)
    ensures Flat(log + [x]) == Flat(log) + x
  {
    assert (log + [x])[..|log|] == log;
  }

  /** Every entry ever added is either still pending, and then due later, or has fired once;
      and whatever fired at the i-th update was due at tick i. */
  predicate Accounted(r: BagRun) {
    && multiset(r.added) == multiset(r.b.pending) + multiset(Flat(r.log))
    && Ahead(r.b.pending, r.b.now)
    && r.b.now == |r.log|
    && (forall i, j :: 0 <= i < |r.log| && 0 <= j < |r.log[i]| ==> r.log[i][j].due == i + 1)
  }

  lemma AddAccounted(r: BagRun, x: Entry)
    requires Accounted(r) && r.b.now < x.due < r.b.now + TWO31
    ensures Accounted(r.(b := r.b.(pending := r.b.pending + [x]), added := r.added + [x]))
  {
    hide Flat;
  }

  lemma TickAccounted(r: BagRun)
    requires Accounted(r)
    ensures var (b, fired) := BagUpdate(r.b); Accounted(BagRun(b, r.added, r.log + [fired]))
  {
    hide DueAt, NotDueAt, Flat;
    var tick := r.b.now + 1;
    NotDueAhead(r.b.pending, r.b.now);
    DueSplit(r.b.pending, tick);
    FlatAppend(r.log, DueAt(r.b.pending, tick));
    hide Ahead;
  }

  lemma StepAccounted(r: BagRun, op: Op)
    requires Accounted(r)
    ensures Accounted(StepBag(r, op))
  {
    hide Accounted, DueAt, NotDueAt;
    match op
    case AddTimer(h, d) =>
      if 0 < d < TWO31 {
        AddAccounted(r, Entry(r.b.now + d, h));
      }
    case Tick =>
      TickAccounted(r);
  }

  lemma NewAccounted()
    ensures Accounted(BagRun(Bag(0, []), [], []))
  {
  }

  /** Exactly once, and on time, over every run. */
  lemma {:induction false} ExactlyOnceOnTime(ops: seq<Op>)
    ensures Accounted(RunBag(ops))
    decreases |ops|
  {
    hide Accounted, StepBag;
    if ops == [] {
      NewAccounted();
    } else {
      ExactlyOnceOnTime(ops[..|ops| - 1]);
      StepAccounted(RunBag(ops[..|ops| - 1]), ops[|ops| - 1]);
    }
  }

  // ---------------------------------------------------------------- runs, said of the calls alone

  /** How many updates a run makes. */
  function Ticks(ops: seq<Op>): nat {
    if ops == [] then 0 else Ticks(ops[..|ops| - 1]) + if ops[|ops| - 1].Tick? then 1 else 0
  }

  /** The handles registered for a tick: by a call made delay ticks before it, in the order of the calls. */
  function RegisteredFor(ops: seq<Op>, tick: nat): seq<u32> {
    if ops == [] then []
    else
      var init := ops[..|ops| - 1];
      match ops[|ops| - 1]
      case AddTimer(h, d) =>
        if 0 < d < TWO31 && Ticks(init) + d == tick then RegisteredFor(init, tick) + [h] else RegisteredFor(init, tick)
      case Tick => RegisteredFor(init, tick)
  }

  /** What is known of a run so far: each past tick called back what was registered for it, and what
      is pending for a tick to come is what was registered for it. */
  ghost predicate OnSchedule(ops: seq<Op>, r: BagRun) {
    && r.b.now == |r.log| == Ticks(ops) && Ahead(r.b.pending, r.b.now)
    && (forall t: nat :: 1 <= t <= |r.log| ==> CallsBack(RegisteredFor(ops, t), r.log[t - 1]))
    && (forall t: nat :: t > |r.log| ==> CallsBack(RegisteredFor(ops, t), DueAt(r.b.pending, t)))
  }

  lemma DueAppend(l: seq<Entry>, x: Entry, tick: nat)
    ensures DueAt(l + [x], tick) == if x.due == tick then DueAt(l, tick) + [x] else DueAt(l, tick)
  {
    assert (l + [x])[..|l|] == l;
  }

  /** Taking out what is due at one tick leaves what is due at another. */
  lemma {:induction false} DueLater(l: seq<Entry>, tick: nat, t: nat)
    requires t != tick
    ensures DueAt(NotDueAt(l, tick), t) == DueAt(l, t)
    decreases |l|
  {
    if l != [] {
      var init, x := l[..|l| - 1], l[|l| - 1];
      DueLater(init, tick, t);
      DueAppend(NotDueAt(init, tick), x, t);
    }
  }

  lemma AddOnSchedule(ops: seq<Op>, r: BagRun, h: u32, d: int)
    requires OnSchedule(ops, r)
    ensures OnSchedule(ops + [AddTimer(h, d)], StepBag(r, AddTimer(h, d)))
  {
    hide DueAt, Ticks, RegisteredFor;
    NextRegistered(ops, AddTimer(h, d));
    if 0 < d < TWO31 {
      var x := Entry(r.b.now + d, h);
      forall t: nat | t > |r.log|
        ensures CallsBack(RegisteredFor(ops + [AddTimer(h, d)], t), DueAt(r.b.pending + [x], t))
      {
        DueAppend(r.b.pending, x, t);
      }
    }
  }

  lemma TickOnSchedule(ops: seq<Op>, r: BagRun)
    requires OnSchedule(ops, r)
    ensures OnSchedule(ops + [Tick], StepBag(r, Tick))
  {
    hide DueAt, NotDueAt, Ticks, RegisteredFor, CallsBack;
    NextRegistered(ops, Tick);
    NotDueAhead(r.b.pending, r.b.now);
    var tick := r.b.now + 1;
    forall t: nat | t > tick ensures DueAt(NotDueAt(r.b.pending, tick), t) == DueAt(r.b.pending, t) {
      DueLater(r.b.pending, tick, t);
    }
  }

  lemma NextRegistered(ops: seq<Op>, op: Op)
    ensures Ticks(ops + [op]) == Ticks(ops) + if op.Tick? then 1 else 0
    ensures forall t: nat ::
      RegisteredFor(ops + [op], t) ==
      (if op.AddTimer? && 0 < op.delay < TWO31 && Ticks(ops) + op.delay == t then RegisteredFor(ops, t) + [op.handle]
       else RegisteredFor(ops, t))
  {
    assert (ops + [op])[..|ops|] == ops;
  }

  lemma {:induction false} BagOnSchedule(ops: seq<Op>)
    ensures OnSchedule(ops, RunBag(ops))
    decreases |ops|
  {
    hide OnSchedule, StepBag;
    if ops == [] {
      NothingRegistered();
    } else {
      var init, last := ops[..|ops| - 1], ops[|ops| - 1];
      BagOnSchedule(init);
      assert init + [last] == ops;
      match last
      case AddTimer(h, d) => AddOnSchedule(init, RunBag(init), h, d);
      case Tick => TickOnSchedule(init, RunBag(init));
    }
  }

  lemma NothingRegistered()
    ensures OnSchedule([], BagRun(Bag(0, []), [], []))
  {
  }

  lemma SameCalls(a: seq<u32>, b: seq<u32>, due: seq<Entry>)
    requires CallsBack(a, due) && CallsBack(b, due)
    ensures a == b
  {
  }

  /** Over every run the t-th update calls back exactly the handles registered for tick t, in the
      order of their registration. */
  lemma FiresAsRegistered(ops: seq<Op>)
    ensures var log := RunWheel(ops).log;
      |log| == Ticks(ops) && forall t: nat :: 1 <= t <= |log| ==> log[t - 1] == RegisteredFor(ops, t)
  {
    hide RunWheel, RunBag, Ticks, RegisteredFor, CallsBack, Refines, DueAt;
    WheelRefinesBag(ops);
    BagOnSchedule(ops);
    var log, bag := RunWheel(ops).log, RunBag(ops).log;
    forall t: nat | 1 <= t <= |log| ensures log[t - 1] == RegisteredFor(ops, t) {
      SameCalls(log[t - 1], RegisteredFor(ops, t), bag[t - 1]);
    }
  }

  // ---------------------------------------------------------------- the wheel as an object

  /** The timer of timer.c: near holds 256 lists, t holds 4 times 64, level by level. */
  class Timer {
    var time: u32
    const near: array<seq<Node>>
    const t: array<seq<Node>>
    ghost var bag: Bag

    ghost function Contents(): Slots
      reads this, near, t
      requires near.Length == 256 && t.Length == 256
    {
      near[..] + t[..]
    }

    ghost function State(): Wheel
      reads this, near, t
      requires near.Length == 256 && t.Length == 256
    {
      Wheel(time, Contents())
    }

    ghost predicate Shape()
      reads this
    {
      near.Length == 256 && t.Length == 256 && near != t
    }

    /** The wheel holds exactly the timers of the bag, each in its slot. */
    ghost predicate Valid()
      reads this, near, t
    {
      Shape() && Refines(State(), bag)
    }

    constructor ()
      ensures Valid() && State() == Wheel(0, seq(512, _ => [])) && bag == Bag(0, [])
      ensures fresh(near) && fresh(t)
    {
      time := 0;
      near := new seq<Node>[256](_ => []);
      t := new seq<Node>[256](_ => []);
      bag := Bag(0, []);
      new;
      assert Contents() == seq(512, _ => []);
      NewRefines();
    }

    /** The lowest level whose mask hides the difference to the time. */
    method FindLevel(expire: u32) returns (i: nat)
      ensures i == LevelOf(expire, time)
    {
      hide BitOr;
      i := 0;
      var mask := TIME_NEAR * TIME_LEVEL;
      while i < 3
        invariant i <= 3 && (i < 3 ==> mask == Unit(i + 1))
        invariant forall j :: 1 <= j <= i ==> expire / Unit(j) != time / Unit(j)
      {
        MaskComparesQuotients(expire, time, i + 1);
        if BitOr(expire, mask - 1) == BitOr(time, mask - 1) {
          break;
        }
        i := i + 1;
        mask := mask * TIME_LEVEL;
      }
    }

    /** Links a node to the end of the list its expiry selects. */
    method AddTimerNode(node: Node)
      requires Shape()
      modifies near, t
      ensures Contents() == AddNode(old(Contents()), time, node)
    {
      hide BitOr, BitAnd, ShiftRight, LevelOf;
      ghost var was := Contents();
      var expire := node.expire;
      MaskComparesQuotients(expire, time, 0);
      UnitBits(expire, 0);
      if BitOr(expire, TIME_NEAR - 1) == BitOr(time, TIME_NEAR - 1) {
        var idx := BitAnd(expire, TIME_NEAR - 1);
        near[idx] := near[idx] + [node];
      } else {
        var i := FindLevel(expire);
        UnitBits(expire, i);
        var idx := BitAnd(ShiftRight(expire, 8 + i * 6), TIME_LEVEL - 1);
        t[i * TIME_LEVEL + idx] := t[i * TIME_LEVEL + idx] + [node];
      }
    }

    /** Empties one list of a level and links its nodes anew. */
    method MoveLevelList(level: nat, idx: nat)
      requires Shape() && level <= 3 && idx < TIME_LEVEL
      modifies near, t
      ensures Contents() == MoveList(old(Contents()), time, LevelSlot(level, idx))
    {
      var k := level * TIME_LEVEL + idx;
      var list := t[k];
      ghost var s := LevelSlot(level, idx);
      assert list == Contents()[s];
      ghost var cleared: Slots := Contents()[s := []];
      t[k] := [];
      assert Contents() == cleared;
      var i := 0;
      while i < |list|
        invariant i <= |list|
        invariant Contents() == AddNodes(cleared, time, list[..i])
      {
        AddTimerNode(list[i]);
        assert list[..i + 1][..i] == list[..i];
        i := i + 1;
      }
      assert list[..i] == list;
    }

    /** Advances the time by one and redistributes the list its digits select. */
    method TimerShift()
      requires Shape()
      modifies this`time, near, t
      ensures time == Add(old(time), 1)
      ensures Contents() == Shift(old(Contents()), time)
    {
      hide AddNode, MoveList, BitAnd, ShiftRight;
      time := Add(time, 1);
      var ct := time;
      if ct == 0 {
        MoveLevelList(3, 0);
      } else {
        var i, mask, rest := 0, TIME_NEAR, ShiftRight(ct, 8);
        DigitsValue(ct);
        UnitBits(ct, 0);
        while BitAnd(ct, mask - 1) == 0
          invariant i <= 3 && mask == Unit(i) && rest == ShiftRight(ct, 8 + 6 * i)
          invariant time == ct == old(Add(time, 1)) && Contents() == old(Contents())
          invariant BitAnd(ct, mask - 1) == ct % Unit(i)
          invariant i > 0 ==> ct % TIME_NEAR == 0
          invariant forall j :: 0 <= j < i ==> ct / Unit(j) % TIME_LEVEL == 0
          decreases 4 - i
        {
          UnitBits(ct, i);
          var idx := BitAnd(rest, TIME_LEVEL - 1);
          ShiftStep(ct, i);
          if idx != 0 {
            MoveLevelList(i, idx);
            return;
          }
          UnitBits(ct, i + 1);
          ShiftTwice(ct, 8 + 6 * i, 6);
          mask := mask * TIME_LEVEL;
          rest := ShiftRight(rest, 6);
          i := i + 1;
        }
        ShiftNone(ct, i);
      }
    }

    /** Calls back once per node, in list order. */
    method DispatchList(list: seq<Node>) returns (called: seq<u32>)
      requires list != []
      ensures |called| == |list| && forall j :: 0 <= j < |list| ==> called[j] == list[j].handle
    {
      called := [];
      var i := 0;
      while i < |list|
        invariant i <= |list|
        invariant |called| == i && forall j :: 0 <= j < i ==> called[j] == list[j].handle
      {
        called := called + [list[i].handle];
        i := i + 1;
      }
    }

    /** Dispatches the near list of the current time until it is empty. */
    method TimerExecute() returns (called: seq<u32>)
      requires Shape()
      modifies near
      ensures (Wheel(time, Contents()), called) == Execute(Wheel(time, old(Contents())))
    {
      hide BitAnd, ShiftRight, Handles;
      UnitBits(time, 0);
      var idx := BitAnd(time, TIME_NEAR - 1);
      ghost var was := Contents();
      called := [];
      assert near[idx] == was[idx];
      assert was[idx := was[idx]] == was;
      HandlesNothing();
      while near[idx] != []
        invariant Contents() == was[idx := near[idx]]
        invariant (near[idx] == was[idx] && called == []) || (near[idx] == [] && called == Handles(was[idx]))
        decreases |near[idx]|
      {
        var list := near[idx];
        near[idx] := [];
        var some := DispatchList(list);
        HandlesAre(list, some);
        called := called + some;
      }
    }

    /** One tick: what is called back is exactly what was due, in the order it was added. */
    method TimerUpdate() returns (called: seq<u32>)
      requires Valid()
      modifies this, near, t
      ensures Valid()
      ensures (State(), called) == Update(old(State()))
      ensures bag == BagUpdate(old(bag)).0
      ensures CallsBack(called, BagUpdate(old(bag)).1)
    {
      hide Refines, Shift, BagUpdate, CallsBack;
      UpdateRefines(State(), bag);
      var early := TimerExecute();
      TimerShift();
      var due := TimerExecute();
      called := early + due;
      bag := BagUpdate(bag).0;
    }

    /** Registers a timer: 1, or -1 for a delay that is not positive. */
    method TimeoutAfter(handle: u32, delay: int) returns (code: int)
      requires Valid() && delay < TWO31
      modifies `bag, near, t
      ensures Valid()
      ensures State() == Timeout(old(State()), handle, delay)
      ensures bag == BagTimeout(old(bag), handle, delay)
      ensures code == if delay <= 0 then -1 else 1
    {
      hide Refines, AddNode;
      TimeoutRefines(State(), bag, handle, delay);
      if delay <= 0 {
        return -1;
      }
      AddTimerNode(Node(Add(delay, time), handle));
      bag := BagTimeout(bag, handle, delay);
      code := 1;
    }
  }

  /** Each pass of the carry loop looks at the next digit; the top one cannot be zero too. */
  lemma ShiftStep(ct: u32, i: nat)
    requires ct != 0 && i <= 3 && ct % Unit(i) == 0 && (i > 0 ==> ct % TIME_NEAR == 0)
    requires forall j :: 0 <= j < i ==> ct / Unit(j) % TIME_LEVEL == 0
    ensures ct % TIME_NEAR == 0
    ensures ct / Unit(i) % TIME_LEVEL != 0 ==> CascadeSlot(ct) == LevelSlot(i, ct / Unit(i) % TIME_LEVEL)
    ensures i == 3 ==> ct / Unit(i) % TIME_LEVEL != 0
  {
    DigitsValue(ct);
    TopDigit(ct);
    if i == 3 {
      assert ct / Unit(0) % TIME_LEVEL == 0 && ct / Unit(1) % TIME_LEVEL == 0 && ct / Unit(2) % TIME_LEVEL == 0;
    }
  }

  /** The loop ends without moving anything only in its first pass. */
  lemma ShiftNone(ct: u32, i: nat)
    requires ct != 0 && i <= 3 && ct % Unit(i) != 0 && (i > 0 ==> ct % TIME_NEAR == 0)
    requires forall j :: 0 <= j < i ==> ct / Unit(j) % TIME_LEVEL == 0
    ensures i == 0 && CascadeSlot(ct) == 512
  {
    DigitsValue(ct);
    if i > 0 {
      CarryStops(ct, i);
    }
  }

  /** When all lower digits are zero, so is the remainder. */
  lemma CarryStops(ct: u32, i: nat)
    requires 0 < i <= 3 && ct % TIME_NEAR == 0
    requires forall j :: 0 <= j < i ==> ct / Unit(j) % TIME_LEVEL == 0
    ensures ct % Unit(i) == 0
  {
    DigitsValue(ct);
    assert ct / Unit(0) % TIME_LEVEL == 0;
    if i > 1 { assert ct / Unit(1) % TIME_LEVEL == 0; }
    if i > 2 { assert ct / Unit(2) % TIME_LEVEL == 0; }
  }
}
