/** The indexable skip list: nodes linked on several levels, every link labelled with the
    distance it spans. */
module SkipList {
  import opened Sequences
  import opened Serial
  import opened SkipOrder
  import opened SkipLinks

  class SkipList {
    const header: Node
    var tail: Node?
    var length: nat
    var level: nat
    ghost var nodes: seq<Node>  // the header, then the elements in order

    ghost predicate Shape()
      reads this, nodes
    {
      && |nodes| == length + 1
      && nodes[0] == header && header.height == SKIPLIST_MAXLEVEL
      && Distinct(nodes)
      && Shaped(nodes)
      && 1 <= level <= SKIPLIST_MAXLEVEL
    }

    /** The header has no links above the level of the list. */
    ghost predicate HighEnds()
      reads this, header
    {
      |header.forward| == SKIPLIST_MAXLEVEL && forall l :: level <= l < SKIPLIST_MAXLEVEL ==> header.forward[l] == null
    }

    ghost predicate Valid()
      reads this, nodes
    {
      && Shape() && Tall(nodes, level) && HighEnds()
      && Linked(nodes, level)
      && Backward(nodes)
      && tail == (if length == 0 then null else nodes[length])
      && Sorted(Items())
    }

    /** What the list stores, in order. */
    ghost function Items(): seq<Item>
      reads this
      requires |nodes| > 0
    {
      ItemsOf(nodes[1..])
    }

    constructor ()
      ensures Valid() && Items() == []
      ensures fresh(nodes)
    {
      header := new Node(SKIPLIST_MAXLEVEL, Item(0.0, Obj(0.0, [])));
      tail, length, level := null, 0, 1;
      new;
      nodes := [header];
      NothingYet();
    }

    /** The list of the header alone. */
    lemma NothingYet()
      requires nodes == [header] && tail == null && length == 0 && level == 1 && header.height == SKIPLIST_MAXLEVEL
      requires header.forward == seq(SKIPLIST_MAXLEVEL, _ => null) && header.span == seq(SKIPLIST_MAXLEVEL, _ => 0)
      requires header.backward == null
      ensures Valid() && Items() == []
    {
      hide HeightsOf, Less;
    }

    /** Follows the links of one level while go accepts what they lead to. */
    method Walk(x0: Node, l: nat, ghost p0: nat, go: Item -> bool, ghost k: nat)
      returns (x: Node, steps: int, ghost p: nat)
      requires Shape() && Linked(nodes, level) && Boundary(nodes, go, k)
      requires l < level && p0 <= k && nodes[p0] == x0 && l < x0.height
      ensures p < |nodes| && nodes[p] == x && l < x.height && steps == p - p0
      ensures p == Prev(HeightsOf(nodes), k, l)
    {
      ghost var hs := HeightsOf(nodes);
      x, steps, p := x0, 0, p0;
      while x.forward[l] != null && go(x.forward[l].item)
        invariant p0 <= p <= k && nodes[p] == x && l < x.height && steps == p - p0
        decreases k - p
      {
        ghost var q := Next(hs, p, l);
        assert x.forward[l] == At(nodes, q) && x.span[l] == Span(hs, p, l);
        steps := steps + x.span[l];
        x, p := x.forward[l], q;
      }
      assert x.forward[l] == At(nodes, Next(hs, p, l));
      CrossingStart(hs, k, p, l);
    }

    /** Descends from the top level; update[l] is the last node of level l up to position k, and
        rank[l] its position. */
    method Descend(go: Item -> bool, ghost k: nat) returns (update: seq<Node>, rank: seq<int>)
      requires Shape() && Linked(nodes, level) && Boundary(nodes, go, k)
      ensures |update| == |rank| == level && Found(nodes, level, update, rank, k)
    {
      hide HeightsOf, Prev, Next, Linked, Distinct, Shaped;
      ghost var hs := HeightsOf(nodes);
      var x := header;
      ghost var p := 0;
      var crossed := 0;
      update, rank := seq(level, _ => header), seq(level, _ => 0);
      var i := level;
      while i > 0
        invariant 0 <= i <= level && |update| == |rank| == level
        invariant 0 <= p <= k && nodes[p] == x && x.height >= i && crossed == p
        invariant forall l :: i <= l < level ==> rank[l] == Prev(hs, k, l) && update[l] == nodes[rank[l]]
      {
        i := i - 1;
        var steps: int;
        x, steps, p := Walk(x, i, p, go, k);
        crossed := crossed + steps;
        rank := rank[i := crossed];
        update := update[i := x];
      }
    }

    // -------------------------------------------------------------- insertion

    /** Prepares the header's links up to newLevel: each spans the whole list. */
    method Heighten(newLevel: nat, update0: seq<Node>, rank0: seq<int>) returns (update: seq<Node>, rank: seq<int>)
      requires |update0| == |rank0| == level <= newLevel <= |header.span|
      modifies header`span
      ensures |header.span| == old(|header.span|)
      ensures forall l :: 0 <= l < |header.span| ==>
        header.span[l] == if level <= l < newLevel then length else old(header.span[l])
      ensures update == update0 + seq(newLevel - level, _ => header)
      ensures rank == rank0 + seq(newLevel - level, _ => 0)
    {
      update, rank := update0, rank0;
      var i := level;
      while i < newLevel
        invariant level <= i <= newLevel && |header.span| == old(|header.span|)
        invariant forall l :: 0 <= l < |header.span| ==>
          header.span[l] == if level <= l < i then length else old(header.span[l])
        invariant update == update0 + seq(i - level, _ => header)
        invariant rank == rank0 + seq(i - level, _ => 0)
      {
        rank := rank + [0];
        update := update + [header];
        header.span := header.span[i := length];
        i := i + 1;
      }
    }

    /** Makes room on the header for a node taller than any before. */
    method Raise(newLevel: nat, ghost k: nat, update0: seq<Node>, rank0: seq<int>)
      returns (update: seq<Node>, rank: seq<int>)
      requires Shape() && Tall(nodes, level) && HighEnds() && Linked(nodes, level)
      requires newLevel <= SKIPLIST_MAXLEVEL && k < |nodes|
      requires Found(nodes, level, update0, rank0, k)
      modifies this`level, header`span
      ensures Shape() && Linked(nodes, level)
      ensures level == if newLevel > old(level) then newLevel else old(level)
      ensures Found(nodes, level, update, rank, k)
    {
      hide HeightsOf, Prev, Next, Linked, LinkedThen, At, Span;
      update, rank := update0, rank0;
      if newLevel > level {
        ghost var fw, sp := Forwards(nodes), Spans(nodes);
        Snapshot(nodes, level);
        update, rank := Heighten(newLevel, update0, rank0);
        DistinctAt(nodes, 0);
        RaisedLinked(nodes, level, newLevel, fw, sp);
        forall l | level <= l < newLevel ensures Prev(HeightsOf(nodes), k, l) == 0 {
          PrevHeader(nodes, k, l);
        }
        level := newLevel;
      }
    }

    /** Puts x behind u, the node at position r, on one level; d is the distance from u to the
        node before x. */
    method SpliceOne(x: Node, u: Node, i: nat, d: int, ghost r: nat)
      requires Distinct(nodes) && x !in nodes && r < |nodes| && nodes[r] == u
      requires i < |u.forward| == |u.span| && i < |x.forward| == |x.span|
      modifies x`forward, x`span, u`forward, u`span
      ensures x.forward == old(x.forward[i := u.forward[i]]) && x.span == old(x.span[i := u.span[i] - d])
      ensures Forwards(nodes) == Put(old(Forwards(nodes)), r, i, x)
      ensures Spans(nodes) == Put(old(Spans(nodes)), r, i, d + 1)
      ensures old(Shaped(nodes)) ==> Shaped(nodes)
    {
      hide Distinct, Forwards, Spans, Put;
      DistinctAt(nodes, r);
      ghost var fw, sp := Forwards(nodes), Spans(nodes);
      x.forward := x.forward[i := u.forward[i]];
      u.forward := u.forward[i := x];
      PutForward(nodes, fw, r, i, x);
      x.span := x.span[i := u.span[i] - d];
      u.span := u.span[i := d + 1];
      PutSpan(nodes, sp, r, i, d + 1);
    }

    lemma MarkedFits(n: nat, update: seq<Node>, rank: seq<int>)
      requires Shaped(nodes) && Marked(nodes, n, update, rank)
      ensures Fits(Forwards(nodes), rank) && Fits(Spans(nodes), rank) && |update| == |rank| == n
    {
    }

    lemma MarkedAt(update: seq<Node>, rank: seq<int>, l: nat)
      requires Shaped(nodes) && Marked(nodes, level, update, rank) && l < level
      ensures |rank| == |update| == level && 0 <= rank[l] < |nodes| && update[l] == nodes[rank[l]] && update[l] in nodes
      ensures l < |update[l].forward| == |update[l].span|
      ensures Forwards(nodes)[rank[l]] == update[l].forward && Spans(nodes)[rank[l]] == update[l].span
    {
    }

    /** One step of Splice: on level i the new node takes over the link of update[i]. */
    method SpliceAt(x: Node, u: Node, update: seq<Node>, rank: seq<int>, i: nat)
      requires Distinct(nodes) && Shaped(nodes) && Marked(nodes, level, update, rank)
      requires x !in nodes && |x.forward| == |x.span| == x.height <= level && i < x.height && update[i] == u
      modifies x`forward, x`span, u`forward, u`span
      ensures Shaped(nodes) && 0 <= rank[i] < |nodes| && i < |old(Forwards(nodes)[rank[i]])| == |old(Spans(nodes)[rank[i]])|
      ensures x.forward == old(x.forward)[i := old(Forwards(nodes)[rank[i]][i])]
      ensures x.span == old(x.span)[i := old(Spans(nodes)[rank[i]][i]) - (rank[0] - rank[i])]
      ensures Forwards(nodes) == Put(old(Forwards(nodes)), rank[i], i, x)
      ensures Spans(nodes) == Put(old(Spans(nodes)), rank[i], i, rank[0] - rank[i] + 1)
    {
      hide Distinct, Forwards, Spans, Put, Marked, Shaped;
      MarkedAt(update, rank, i);
      SpliceOne(x, u, i, rank[0] - rank[i], rank[i]);
    }

    /** The new node is linked on its first i levels, compared with a snapshot of all links. */
    ghost predicate Splicing(x: Node, rank: seq<int>, i: nat, fw: seq<seq<Node?>>, sp: seq<seq<int>>)
      requires Fits(fw, rank) && Fits(sp, rank) && i <= |rank|
      reads `nodes, x`forward, x`span, (set n | n in nodes)`forward, (set n | n in nodes)`span
    {
      && i <= x.height == |x.forward| == |x.span| && Shaped(nodes)
      && (forall l :: 0 <= l < i ==> x.forward[l] == fw[rank[l]][l])
      && (forall l :: 0 <= l < i ==> x.span[l] == sp[rank[l]][l] - (rank[0] - rank[l]))
      && Forwards(nodes) == Written(fw, rank, 0, i, Copies(x, |rank|))
      && Spans(nodes) == Written(sp, rank, 0, i, Gaps(rank))
    }

    /** The next level. */
    method SpliceNext(x: Node, u: Node, update: seq<Node>, rank: seq<int>, i: nat,
                      ghost fw: seq<seq<Node?>>, ghost sp: seq<seq<int>>)
      requires Distinct(nodes) && Shaped(nodes) && Marked(nodes, level, update, rank) && |rank| == |update| == level
      requires Fits(fw, rank) && Fits(sp, rank) && i < x.height <= level && x !in nodes && Splicing(x, rank, i, fw, sp)
      requires update[i] == u
      modifies x`forward, x`span, u`forward, u`span
      ensures Shaped(nodes) && Splicing(x, rank, i + 1, fw, sp)
    {
      hide Distinct, Forwards, Spans, Written, Put, Gaps, Fits, Copies, Marked, Shaped;
      ghost var fs, ss := Copies(x, |rank|), Gaps(rank);
      MarkedAt(update, rank, i);
      WrittenNext(fw, rank, 0, i, fs);
      WrittenNext(sp, rank, 0, i, ss);
      SpliceAt(x, u, update, rank, i);
    }

    /** Links the new node on its own levels, splitting the spans that cross it. */
    method Splice(x: Node, update: seq<Node>, rank: seq<int>)
      requires Distinct(nodes) && Shaped(nodes) && Marked(nodes, level, update, rank)
      requires x !in nodes && |x.forward| == |x.span| == x.height <= level
      modifies x`forward, x`span, (set n | n in nodes)`forward, (set n | n in nodes)`span
      ensures Shaped(nodes) && |x.forward| == |x.span| == x.height
      ensures Fits(old(Forwards(nodes)), rank) && Fits(old(Spans(nodes)), rank)
      ensures forall l :: 0 <= l < x.height ==> x.forward[l] == old(Forwards(nodes))[rank[l]][l]
      ensures forall l :: 0 <= l < x.height ==> x.span[l] == old(Spans(nodes))[rank[l]][l] - (rank[0] - rank[l])
      ensures Forwards(nodes) == Written(old(Forwards(nodes)), rank, 0, x.height, Copies(x, level))
      ensures Spans(nodes) == Written(old(Spans(nodes)), rank, 0, x.height, Gaps(rank))
    {
      hide Distinct, Forwards, Spans, Written, Gaps, Fits, Copies, Marked, Shaped;
      ghost var fw, sp := Forwards(nodes), Spans(nodes);
      MarkedFits(level, update, rank);
      WrittenNone(fw, rank, 0, Copies(x, level));
      WrittenNone(sp, rank, 0, Gaps(rank));
      var i := 0;
      while i < x.height
        invariant i <= x.height && Shaped(nodes) && Splicing(x, rank, i, fw, sp)
      {
        MarkedAt(update, rank, i);
        SpliceNext(x, update[i], update, rank, i, fw, sp);
        i := i + 1;
      }
    }

    /** Lengthens the spans that pass over the new node. */
    method Bump(from: nat, update: seq<Node>, ghost rank: seq<int>)
      requires Distinct(nodes) && Shaped(nodes) && Marked(nodes, level, update, rank) && from <= level
      modifies (set n | n in nodes)`span
      ensures Shaped(nodes) && Fits(old(Spans(nodes)), rank)
      ensures Spans(nodes) == Written(old(Spans(nodes)), rank, from, level, Column(old(Spans(nodes)), rank, 1))
    {
      hide Distinct, Forwards, Spans, Written, Fits, Column;
      ghost var sp := Spans(nodes);
      MarkedFits(level, update, rank);
      ghost var ss := Column(sp, rank, 1);
      WrittenNone(sp, rank, from, ss);
      var i := from;
      while i < level
        invariant from <= i <= level
        invariant Spans(nodes) == Written(sp, rank, from, i, ss)
      {
        WrittenAt(sp, rank, from, i, ss, rank[i], i);
        WrittenNext(sp, rank, from, i, ss);
        DistinctAt(nodes, rank[i]);
        update[i].span := update[i].span[i := update[i].span[i] + 1];
        i := i + 1;
      }
    }

    /** Links the new node behind position k on all levels. */
    method Link(x: Node, update: seq<Node>, rank: seq<int>, ghost k: nat)
      requires Shape() && Linked(nodes, level) && k < |nodes| && Found(nodes, level, update, rank, k)
      requires nodes[k].height > 0 && x !in nodes && |x.forward| == |x.span| == x.height <= level
      modifies x`forward, x`span, (set n | n in nodes)`forward, (set n | n in nodes)`span
      ensures Shaped(nodes) && |x.forward| == |x.span| == x.height
      ensures Shaped(WithNode(nodes, k, x)) && Linked(WithNode(nodes, k, x), level)
      ensures |header.forward| == SKIPLIST_MAXLEVEL
      ensures forall l :: level <= l < SKIPLIST_MAXLEVEL ==> header.forward[l] == old(header.forward[l])
    {
      hide HeightsOf, Prev, Next, Linked, LinkedThen, At, Span, Forwards, Spans, WithNode, Written, Copies, Gaps, Column,
        Found, Marked, Fits, Distinct, SplicedAll, Shaped, ShapedThen;
      ghost var fw, sp := Forwards(nodes), Spans(nodes);
      Snapshot(nodes, level);
      FoundMarked(nodes, level, update, rank, k);
      Splice(x, update, rank);
      ghost var sp1 := Spans(nodes);
      Bump(x.height, update, rank);
      SplicedTables(x, k, update, rank, fw, sp, sp1);
      SplicedLinked(nodes, x, level, k, fw, sp);
      HighLinks(fw, rank, x.height, Copies(x, level));
    }

    /** Links above the written levels stay as they are. */
    lemma HighLinks(fw: seq<seq<Node?>>, rank: seq<int>, n: nat, v: seq<Node?>)
      requires Shape() && Fits(fw, rank) && |fw| == |nodes|
      requires n <= level <= |rank| == |v| && Forwards(nodes) == Written(fw, rank, 0, n, v)
      ensures |header.forward| == SKIPLIST_MAXLEVEL
      ensures forall l :: level <= l < SKIPLIST_MAXLEVEL ==> header.forward[l] == fw[0][l]
    {
      hide Written;
      assert Forwards(nodes)[0] == header.forward;
      forall l | level <= l < SKIPLIST_MAXLEVEL ensures header.forward[l] == fw[0][l] {
        WrittenAt(fw, rank, 0, n, v, 0, l);
      }
    }

    /** What Splice and Bump do, level by level. */
    lemma SplicedTables(x: Node, k: nat, update: seq<Node>, rank: seq<int>,
                        fw: seq<seq<Node?>>, sp: seq<seq<int>>, sp1: seq<seq<int>>)
      requires Shape() && k < |nodes| && Found(nodes, level, update, rank, k) && ShapedThen(nodes, fw, sp)
      requires |x.forward| == |x.span| == x.height <= level
      requires Fits(fw, rank) && Fits(sp, rank) && Fits(sp1, rank)
      requires forall l :: 0 <= l < x.height ==> x.forward[l] == fw[rank[l]][l]
      requires forall l :: 0 <= l < x.height ==> x.span[l] == sp[rank[l]][l] - (rank[0] - rank[l])
      requires rank[0] == k
      requires Forwards(nodes) == Written(fw, rank, 0, x.height, Copies(x, level))
      requires sp1 == Written(sp, rank, 0, x.height, Gaps(rank))
      requires Spans(nodes) == Written(sp1, rank, x.height, level, Column(sp1, rank, 1))
      ensures SplicedAll(nodes, x, level, k, fw, sp)
    {
      hide HeightsOf, Prev, Written;
      forall p, l | 0 <= p < |nodes| && 0 <= l < nodes[p].height && l < level
        ensures SplicedAt(nodes, x, k, p, l, fw[p][l], sp[p][l])
      {
        WrittenAt(fw, rank, 0, x.height, Copies(x, level), p, l);
        WrittenAt(sp, rank, 0, x.height, Gaps(rank), p, l);
        WrittenAt(sp1, rank, x.height, level, Column(sp1, rank, 1), p, l);
      }
    }

    /** Inserts an element with any level the random generator may return. */
    method Insert(item: Item, newLevel: nat)
      requires Valid() && 1 <= newLevel <= SKIPLIST_MAXLEVEL
      modifies this, (set n | n in nodes)
      ensures Valid() && forall n :: n in nodes ==> n in old(nodes) || fresh(n)
      ensures var s := old(Items()); Items() == s[..Place(s, item)] + [item] + s[Place(s, item)..]
    {
      hide HeightsOf, Prev, Next, Linked, At, Span, WithNode, Found, Place, Sorted, Less, ItemsOf, Backward, Shaped,
        BackwardBut, Distinct, Tall, HighEnds;
      ghost var k := Place(Items(), item);
      var x, u := InsertForward(item, newLevel);
      ghost var after := WithNode(nodes, k, x);
      InsertReady(x, k, item);
      Complete(x, u, after, k);
    }

    /** What is known once the forward links are in place. */
    lemma InsertReady(x: Node, k: nat, item: Item)
      requires |nodes| == length + 1 && nodes[0] == header && Distinct(nodes) && Backward(nodes) && Sorted(Items())
      requires tail == (if length == 0 then null else nodes[length])
      requires x !in nodes && x.item == item && k == Place(Items(), item)
      ensures var after := WithNode(nodes, k, x);
        && Distinct(after) && k + 1 < |after| && after[0] == header && after[k] == nodes[k] && after[k + 1] == x
        && BackwardBut(after, k) && (k + 2 < |after| ==> tail == after[|after| - 1])
        && (forall n :: n in after <==> n in nodes || n == x)
        && ItemsOf(after[1..]) == Items()[..k] + [item] + Items()[k..] && Sorted(ItemsOf(after[1..]))
    {
      hide HeightsOf, Place, Sorted, Less, ItemsOf, Backward, BackwardBut, Distinct;
      WithDistinct(nodes, k, x);
      WithBackward(nodes, k, x);
      ItemsWith(nodes, k, x);
      InsertSorted(Items(), item);
    }

    /** Finds where the element belongs and links a new node behind it on all levels. */
    method InsertForward(item: Item, newLevel: nat) returns (x: Node, u: Node)
      requires Valid() && 1 <= newLevel <= SKIPLIST_MAXLEVEL
      modifies this`level, (set n | n in nodes)`forward, (set n | n in nodes)`span
      ensures fresh(x) && x.item == item && u == nodes[Place(Items(), item)]
      ensures 1 <= level <= SKIPLIST_MAXLEVEL && HighEnds()
      ensures var after := WithNode(nodes, Place(Items(), item), x);
        && Tall(after, level) && Shaped(after) && Linked(after, level)
        && |x.forward| > 0 && x.forward[0] == At(after, Place(Items(), item) + 2)
    {
      hide HeightsOf, Prev, Next, Linked, At, Span, WithNode, Found, Place, Sorted, Less, ItemsOf, Backward, Shaped, Distinct,
        Tall;
      ghost var k := Place(Items(), item);
      var update, rank := Locate(item, newLevel);
      x := new Node(newLevel, item);
      FoundMarked(nodes, level, update, rank, k);
      u := update[0];
      Link(x, update, rank, k);
      TallWith(nodes, k, x, old(level), level);
      FirstLink(WithNode(nodes, k, x), level, k + 1);
    }

    /** Finds the last node before the element on every level a node of newLevel levels needs. */
    method Locate(item: Item, newLevel: nat) returns (update: seq<Node>, rank: seq<int>)
      requires Valid() && 1 <= newLevel <= SKIPLIST_MAXLEVEL
      modifies this`level, header`span
      ensures Shape() && Linked(nodes, level) && HighEnds()
      ensures level == if newLevel > old(level) then newLevel else old(level)
      ensures Found(nodes, level, update, rank, Place(Items(), item)) && nodes[Place(Items(), item)].height > 0
    {
      hide HeightsOf, Prev, Next, Linked, At, Span, Found, Place, Sorted, Less, ItemsOf, Backward, Shaped, Distinct, Tall;
      ghost var k := Place(Items(), item);
      SomeLevel(nodes, level, k);
      var go := (y: Item) => Less(y, item);
      PlaceNodes(nodes, item, go);
      update, rank := Descend(go, k);
      update, rank := Raise(newLevel, k, update, rank);
    }

    /** Links the new node, at position k + 1 behind u, backwards. */
    method LinkBack(x: Node, u: Node, ghost after: seq<Node>, ghost k: nat)
      requires Distinct(after) && k + 1 < |after| && after[0] == header && after[k] == u && after[k + 1] == x
      requires |x.forward| > 0 && x.forward[0] == At(after, k + 2)
      requires BackwardBut(after, k)
      requires k + 2 < |after| ==> tail == after[|after| - 1]
      modifies (set n | n in after)`backward, `tail
      ensures Backward(after)
      ensures tail == after[|after| - 1]
    {
      DistinctAt(after, k + 1);
      if k + 2 < |after| { DistinctAt(after, k + 2); }
      DistinctAt(after, 0);
      assert k + 2 < |after| <==> x.forward[0] != null;
      hide Distinct;
      x.backward := if u == header then null else u;
      if x.forward[0] != null {
        x.forward[0].backward := x;
      } else {
        tail := x;
      }
    }

    /** Completes an insertion whose forward links are in place. */
    method Complete(x: Node, u: Node, ghost after: seq<Node>, ghost k: nat)
      requires Distinct(after) && k + 1 < |after| && after[0] == header && after[k] == u && after[k + 1] == x
      requires |x.forward| > 0 && x.forward[0] == At(after, k + 2)
      requires BackwardBut(after, k) && Shaped(after) && Linked(after, level) && HighEnds()
      requires k + 2 < |after| ==> tail == after[|after| - 1]
      modifies (set n | n in after)`backward, `tail, `length, `nodes
      ensures Backward(after) && Shaped(after) && Linked(after, level) && HighEnds()
      ensures tail == after[|after| - 1] && nodes == after && length == old(length) + 1
    {
      hide Distinct, Shaped, Linked, BackwardBut, Backward, At;
      LinkBack(x, u, after, k);
      length := length + 1;
      nodes := after;
    }

    // --------------------------------------------------------------- deletion

    /** Takes x off one level, where u is the last node before it. */
    method UnlinkOne(x: Node, u: Node, i: nat)
      requires x != u && i < |u.forward| == |u.span| && |x.forward| == |x.span| == x.height
      requires u.forward[i] == x <==> i < x.height
      modifies u`forward, u`span
      ensures u.forward == old(u.forward)[i := if i < x.height then old(x.forward[i]) else old(u.forward[i])]
      ensures u.span == old(u.span)[i := old(u.span[i]) - 1 + if i < x.height then old(x.span[i]) else 0]
    {
      if u.forward[i] == x {
        u.span := u.span[i := u.span[i] + x.span[i] - 1];
        u.forward := u.forward[i := x.forward[i]];
      } else {
        u.span := u.span[i := u.span[i] - 1];
      }
    }

    /** The same, said of the tables; x is at position d and u at position r. */
    method UnlinkAt(x: Node, u: Node, i: nat, ghost r: nat, ghost d: nat)
      requires Distinct(nodes) && r < |nodes| && nodes[r] == u && d < |nodes| && nodes[d] == x && r != d
      requires Shaped(nodes) && i < u.height && (u.forward[i] == x <==> i < x.height)
      modifies u`forward, u`span
      ensures Shaped(nodes)
      ensures Forwards(nodes) == Put(old(Forwards(nodes)), r, i, if i < x.height then old(x.forward[i]) else old(u.forward[i]))
      ensures Spans(nodes) == Put(old(Spans(nodes)), r, i, old(u.span[i]) - 1 + if i < x.height then old(x.span[i]) else 0)
    {
      hide Distinct, Forwards, Spans, Put;
      DistinctAt(nodes, r);
      ghost var fw, sp := Forwards(nodes), Spans(nodes);
      UnlinkOne(x, u, i);
      PutForward(nodes, fw, r, i, u.forward[i]);
      PutSpan(nodes, sp, r, i, u.span[i]);
    }

    /** Takes x, the node behind position k, off all levels. */
    method UnlinkAll(x: Node, update: seq<Node>, ghost rank: seq<int>, ghost k: nat)
      requires Shape() && Linked(nodes, level) && k + 1 < |nodes| && nodes[k + 1] == x
      requires level <= |update| <= SKIPLIST_MAXLEVEL && Found(nodes, |update|, update, rank, k)
      modifies (set n | n in nodes)`forward, (set n | n in nodes)`span
      ensures Shaped(nodes)
      ensures var fw := old(Forwards(nodes));
        && level <= |rank| && Fits(fw, rank) && |fw| == |nodes| && |fw[k + 1]| == x.height
        && Forwards(nodes) == Written(fw, rank, 0, level, NextForward(fw, rank, k + 1, x.height))
      ensures Unlinked(nodes, k, level, rank, old(Forwards(nodes)), old(Spans(nodes)), Forwards(nodes), Spans(nodes))
    {
      hide HeightsOf, Prev, Next, Linked, LinkedThen, At, Span, Forwards, Spans, Written, NextForward, NextSpan, Put,
        Found, Marked, Fits, Distinct, Shaped, ShapedThen;
      ghost var n := |update|;
      ghost var fw, sp := Forwards(nodes), Spans(nodes);
      Snapshot(nodes, level);
      FoundMarked(nodes, n, update, rank, k);
      MarkedFits(n, update, rank);
      RowShape(nodes, fw, sp, k + 1);
      ghost var fs, ss := NextForward(fw, rank, k + 1, x.height), NextSpan(sp, rank, k + 1, x.height);
      WrittenNone(fw, rank, 0, fs);
      WrittenNone(sp, rank, 0, ss);
      var i := 0;
      while i < level
        invariant 0 <= i <= level && Shaped(nodes)
        invariant Forwards(nodes) == Written(fw, rank, 0, i, fs)
        invariant Spans(nodes) == Written(sp, rank, 0, i, ss)
      {
        UnlinkReady(x, update, rank, k, i, fw, sp);
        WrittenNext(fw, rank, 0, i, fs);
        WrittenNext(sp, rank, 0, i, ss);
        UnlinkAt(x, update[i], i, rank[i], k + 1);
        i := i + 1;
      }
      MakeUnlinked(nodes, k, level, update, rank, fw, sp);
    }

    /** The links read by one step of UnlinkAll are still the original ones. */
    lemma UnlinkReady(x: Node, update: seq<Node>, rank: seq<int>, k: nat, i: nat,
                      fw: seq<seq<Node?>>, sp: seq<seq<int>>)
      requires Distinct(nodes) && Shaped(nodes) && k + 1 < |nodes| && nodes[k + 1] == x
      requires i < level <= |update| <= nodes[0].height && Found(nodes, |update|, update, rank, k)
      requires ShapedThen(nodes, fw, sp) && LinkedThen(nodes, level, fw, sp) && Fits(fw, rank) && Fits(sp, rank)
      requires Forwards(nodes) == Written(fw, rank, 0, i, NextForward(fw, rank, k + 1, x.height))
      requires Spans(nodes) == Written(sp, rank, 0, i, NextSpan(sp, rank, k + 1, x.height))
      ensures 0 <= rank[i] <= k && update[i] == nodes[rank[i]] && i < update[i].height
      ensures update[i].forward[i] == fw[rank[i]][i] && update[i].span[i] == sp[rank[i]][i]
      ensures i < x.height ==> x.forward[i] == fw[k + 1][i] && x.span[i] == sp[k + 1][i]
      ensures update[i].forward[i] == x <==> i < x.height
    {
      hide Written, Prev, Next, HeightsOf, At;
      var fs, ss := NextForward(fw, rank, k + 1, x.height), NextSpan(sp, rank, k + 1, x.height);
      assert rank[i] == Prev(HeightsOf(nodes), k, i);
      PrevUpTo(nodes, k, i);
      WrittenAt(fw, rank, 0, i, fs, rank[i], i);
      WrittenAt(sp, rank, 0, i, ss, rank[i], i);
      if i < x.height {
        WrittenAt(fw, rank, 0, i, fs, k + 1, i);
        WrittenAt(sp, rank, 0, i, ss, k + 1, i);
      }
      assert Forwards(nodes)[rank[i]] == nodes[rank[i]].forward && Forwards(nodes)[k + 1] == x.forward;
      assert Spans(nodes)[rank[i]] == nodes[rank[i]].span && Spans(nodes)[k + 1] == x.span;
      assert fw[rank[i]][i] == At(nodes, Next(HeightsOf(nodes), rank[i], i));
      LinksNext(nodes, k, i);
    }

    /** Takes x off the backward list; x is behind position k. */
    method UnlinkBack(x: Node, ghost after: seq<Node>, ghost k: nat)
      requires k < |after| && Distinct(after) && x !in after
      requires |x.forward| > 0 && x.forward[0] == At(after, k + 1) && BackwardPast(after, x, k)
      requires k + 1 < |after| ==> tail == after[|after| - 1]
      modifies (set n | n in after)`backward, `tail
      ensures Backward(after)
      ensures tail == if |after| == 1 then null else after[|after| - 1]
    {
      if k + 1 < |after| { DistinctAt(after, k + 1); }
      hide Distinct;
      if x.forward[0] != null {
        x.forward[0].backward := x.backward;
      } else {
        tail := x.backward;
      }
    }

    /** Lowers the level of the list to that of its tallest element. */
    method Shrink(ghost after: seq<Node>)
      requires |after| > 0 && after[0] == header && header.height == SKIPLIST_MAXLEVEL
      requires 1 <= level <= SKIPLIST_MAXLEVEL && HighEnds()
      requires Shaped(after) && Linked(after, level)
      requires HeightsUpTo(after, level)
      modifies `level
      ensures 1 <= level <= old(level) && HighEnds() && Linked(after, level) && Tall(after, level)
    {
      hide Shaped, Linked, Tall;
      while level > 1 && header.forward[level - 1] == null
        invariant 1 <= level <= old(level) && HighEnds()
        invariant forall p :: 1 <= p < |after| ==> 1 <= after[p].height <= level
      {
        LevelEmpty(after, old(level), level - 1);
        level := level - 1;
      }
      LevelLower(after, old(level), level);
      if level > 1 {
        LevelEmpty(after, old(level), level - 1);
      }
      MakeTall(after, level);
    }

    /** Takes x, the node behind position k, off the forward lists. */
    method DeleteForward(x: Node, update: seq<Node>, ghost rank: seq<int>, ghost k: nat, ghost after: seq<Node>)
      requires Shape() && Linked(nodes, level) && HighEnds() && k + 1 < |nodes| && nodes[k + 1] == x
      requires forall p :: 0 <= p < |nodes| ==> nodes[p].height > 0
      requires level <= |update| <= SKIPLIST_MAXLEVEL && Found(nodes, |update|, update, rank, k)
      requires after == Cut(nodes, k + 1)
      modifies (set n | n in nodes)`forward, (set n | n in nodes)`span
      ensures Shaped(after) && Linked(after, level) && HighEnds()
      ensures |x.forward| > 0 && x.forward[0] == At(after, k + 1)
    {
      hide HeightsOf, Prev, Next, Linked, LinkedThen, At, Span, Forwards, Spans, Written, NextForward, NextSpan,
        Found, Marked, Fits, Distinct, ShapedThen, Unlinked, Cut, WithNode;
      ghost var fw, sp := Forwards(nodes), Spans(nodes);
      UnlinkAll(x, update, rank, k);
      HighLinks(fw, rank, level, NextForward(fw, rank, k + 1, x.height));
      UnlinkedFirst(nodes, k, level, rank, fw, sp);
      WithWithout(nodes, k);
      UnlinkedLinked(after, x, k, level, rank, fw, sp);
    }

    /** Takes x off the backward list and lowers the level of the list. */
    method DeleteBackward(x: Node, ghost after: seq<Node>, ghost k: nat)
      requires k < |after| && Distinct(after) && x !in after && after[0] == header && header.height == SKIPLIST_MAXLEVEL
      requires |x.forward| > 0 && x.forward[0] == At(after, k + 1) && BackwardPast(after, x, k)
      requires (k + 1 < |after| ==> tail == after[|after| - 1]) && length == |after|
      requires 1 <= level <= SKIPLIST_MAXLEVEL && HighEnds() && Shaped(after) && Linked(after, level)
      requires HeightsUpTo(after, level)
      modifies (set n | n in after)`backward, `tail, `level, `length, `nodes
      ensures Backward(after) && Shaped(after) && Linked(after, level) && HighEnds() && Tall(after, level)
      ensures tail == (if |after| == 1 then null else after[|after| - 1]) && 1 <= level <= old(level)
      ensures nodes == after && length == |after| - 1
    {
      hide Distinct, Shaped, Linked, Backward, Behind, At, Tall, BackwardPast, HeightsUpTo;
      UnlinkBack(x, after, k);
      Shrink(after);
      length := length - 1;
      nodes := after;
    }

    /** The first half of a removal: x is off the forward lists, everything else is as before. */
    method DeleteFirst(x: Node, update: seq<Node>, ghost rank: seq<int>, ghost k: nat, ghost after: seq<Node>)
      requires Valid() && k + 1 < |nodes| && nodes[k + 1] == x && after == Cut(nodes, k + 1)
      requires level <= |update| <= SKIPLIST_MAXLEVEL && Found(nodes, |update|, update, rank, k)
      modifies (set n | n in nodes)`forward, (set n | n in nodes)`span
      ensures Shaped(after) && Linked(after, level) && HighEnds() && BackwardPast(after, x, k) && HeightsUpTo(after, level)
      ensures |x.forward| > 0 && x.forward[0] == At(after, k + 1)
    {
      hide HeightsOf, Prev, Next, Linked, At, Span, Found, Sorted, Less, ItemsOf, Backward, Shaped, Distinct,
        Cut, Behind, Tall, BackwardPast, HeightsUpTo;
      AllTall(nodes, level);
      WithoutHeights(nodes, level, k);
      WithoutBackward(nodes, k);
      DeleteForward(x, update, rank, k, after);
    }

    /** Removes x, the node behind position k. */
    method DeleteNode(x: Node, update: seq<Node>, ghost rank: seq<int>, ghost k: nat)
      requires Valid() && k + 1 < |nodes| && nodes[k + 1] == x
      requires level <= |update| <= SKIPLIST_MAXLEVEL && Found(nodes, |update|, update, rank, k)
      modifies this, (set n | n in nodes)
      ensures Valid() && nodes == Cut(old(nodes), k + 1) && level <= old(level)
      ensures Found(nodes, |update|, update, rank, k)
    {
      hide HeightsOf, Prev, Next, Linked, At, Span, Found, Sorted, Less, ItemsOf, Backward, Shaped, Distinct,
        Cut, Behind, Tall, BackwardPast, HeightsUpTo;
      ghost var after := Cut(nodes, k + 1);
      WithoutDistinct(nodes, k);
      WithoutSorted(nodes, k);
      WithoutFound(nodes, k, update, rank);
      if k + 1 < |after| { CutAt(nodes, k + 1, |after| - 1); }
      DeleteFirst(x, update, rank, k, after);
      DeleteBackward(x, after, k);
    }

    /** Deletes an element if it is stored. */
    method Delete(item: Item) returns (found: bool)
      requires Valid()
      modifies this, (set n | n in nodes)
      ensures Valid() && found == (item in old(Items()))
      ensures !found ==> Items() == old(Items())
      ensures var s := old(Items()); var k := Place(s, item);
        found ==> k < |s| && s[k] == item && Items() == s[..k] + s[k + 1..]
    {
      hide HeightsOf, Prev, Next, Linked, At, Span, Found, Place, Sorted, Less, ItemsOf, Backward, Shaped, Distinct, Tall;
      ghost var k := Place(Items(), item);
      var go := (y: Item) => Less(y, item);
      PlaceNodes(nodes, item, go);
      var update, rank := Descend(go, k);
      var x := Successor(update, rank, k);
      FoundAtPlace(Items(), item);
      found := x != null && x.item.score == item.score && x.item.obj == item.obj;
      if found {
        WithoutItems(nodes, k);
        DeleteNode(x, update, rank, k);
      }
    }

    /** The node behind the last one found on the first level. */
    method Successor(update: seq<Node>, ghost rank: seq<int>, ghost k: nat) returns (x: Node?)
      requires Valid() && k < |nodes| && level <= |update| <= SKIPLIST_MAXLEVEL && Found(nodes, |update|, update, rank, k)
      ensures Removable(x, update, rank, k)
    {
      FoundMarked(nodes, |update|, update, rank, k);
      FirstLink(nodes, level, k);
      x := update[0].forward[0];
    }

    /** Descends by position: the last node of every level up to position limit. */
    method DescendRank(limit: int, ghost k: nat) returns (update: seq<Node>, ghost rank: seq<int>, traversed: int)
      requires Shape() && Linked(nodes, level)
      requires k == (if limit < 0 then 0 else if limit < length then limit else length) && nodes[k].height > 0
      ensures |update| == |rank| == level && Found(nodes, level, update, rank, k) && traversed == k
    {
      hide HeightsOf, Prev, Next, Linked, Distinct, Shaped;
      ghost var hs := HeightsOf(nodes);
      PrevTall(nodes, k);
      var x := header;
      traversed := 0;
      update, rank := seq(level, _ => header), seq(level, _ => 0);
      var i := level;
      while i > 0
        invariant 0 <= i <= level && |update| == |rank| == level
        invariant 0 <= traversed <= k && nodes[traversed] == x && x.height >= i
        invariant i == 0 ==> traversed == Prev(hs, k, 0)
        invariant forall l :: i <= l < level ==> rank[l] == Prev(hs, k, l) && update[l] == nodes[rank[l]]
      {
        i := i - 1;
        x, traversed := WalkRank(x, i, traversed, limit, k);
        rank := rank[i := traversed];
        update := update[i := x];
      }
    }

    /** Follows the links of one level as far as they lead to positions up to limit. */
    method WalkRank(x0: Node, l: nat, p0: nat, limit: int, ghost k: nat) returns (x: Node, p: nat)
      requires Shape() && Linked(nodes, level)
      requires k == if limit < 0 then 0 else if limit < length then limit else length
      requires l < level && p0 <= k && nodes[p0] == x0 && l < x0.height
      ensures p <= k && nodes[p] == x && l < x.height && p == Prev(HeightsOf(nodes), k, l)
    {
      ghost var hs := HeightsOf(nodes);
      x, p := x0, p0;
      while x.forward[l] != null && p + x.span[l] <= limit
        invariant p0 <= p <= k && nodes[p] == x && l < x.height
        decreases k - p
      {
        ghost var q := Next(hs, p, l);
        assert x.forward[l] == At(nodes, q) && x.span[l] == Span(hs, p, l);
        p := p + x.span[l];
        x := x.forward[l];
      }
      assert x.forward[l] == At(nodes, Next(hs, p, l)) && x.span[l] == Span(hs, p, l);
      CrossingStart(hs, k, p, l);
    }

    /** Removes the elements with ranks from start to end, counted from 1, and returns them in the
        order they went. */
    method DeleteByRank(start: nat, end: nat) returns (removed: seq<Item>)
      requires Valid()
      modifies this, (set n | n in nodes)
      ensures Valid()
      ensures var s := old(Items()); var a := FirstRank(start, |s|); var b := LastRank(a, end, |s|);
        removed == s[a..b] && Items() == CutRange(s, a, b)
    {
      hide HeightsOf, Prev, Next, Linked, At, Span, Found, Sorted, ItemsOf, Backward, Shaped, Distinct, Tall,
        LastRank, CutRange;
      ghost var k := FirstRank(start, |Items()|);
      HeightAt(k);
      var update, rank, traversed := DescendRank(start - 1, k);
      traversed := traversed + 1;
      var x := Successor(update, rank, k);
      removed := RemoveRun(x, update, rank, traversed, end, k);
    }

    /** Removes nodes behind position k as long as their ranks are at most end. */
    method RemoveRun(x0: Node?, update: seq<Node>, ghost rank: seq<int>, traversed0: int, end: nat, ghost k: nat)
      returns (removed: seq<Item>)
      requires Valid() && Removable(x0, update, rank, k) && traversed0 == k + 1
      modifies this, (set n | n in nodes)
      ensures Valid()
      ensures var s := old(Items()); var b := LastRank(k, end, |s|); removed == s[k..b] && Items() == CutRange(s, k, b)
    {
      hide HeightsOf, Prev, Next, Linked, At, Span, Found, Sorted, ItemsOf, Backward, Shaped, Distinct, Tall,
        LastRank, CutRange;
      ghost var s, m := Items(), k;
      CutNone(s, k);
      var x, traversed := x0, traversed0;
      removed := [];
      while x != null && traversed <= end
        invariant Valid() && forall n :: n in nodes ==> n in old(nodes)
        invariant Removable(x, update, rank, k)
        invariant traversed == m + 1 && k <= m <= |s| && (m == k || m <= end)
        invariant removed == s[k..m] && Items() == CutRange(s, k, m)
        decreases |nodes|
      {
        CutNext(s, k, m);
        var item := x.item;
        x := RemoveNext(x, update, rank, k);
        removed := removed + [item];
        traversed := traversed + 1;
        m := m + 1;
      }
      CutDone(s, k, m, end);
    }

    /** x is the node behind position k, if any, and update says how to unlink it. */
    ghost predicate Removable(x: Node?, update: seq<Node>, rank: seq<int>, k: nat)
      requires Shape()
      reads this, nodes
    {
      && k < |nodes| && level <= |update| <= SKIPLIST_MAXLEVEL && Found(nodes, |update|, update, rank, k)
      && (x != null <==> k + 1 < |nodes|)
      && (x != null ==> x == nodes[k + 1] && x.item == Items()[k])
    }

    /** Removes x and returns the node that was behind it. */
    method RemoveNext(x: Node, update: seq<Node>, ghost rank: seq<int>, ghost k: nat) returns (next: Node?)
      requires Valid() && Removable(x, update, rank, k)
      modifies this, (set n | n in nodes)
      ensures Valid() && Removable(next, update, rank, k)
      ensures Items() == old(Items())[..k] + old(Items())[k + 1..]
      ensures |nodes| < old(|nodes|) && forall n :: n in nodes ==> n in old(nodes)
    {
      hide HeightsOf, Prev, Next, Linked, Span, Found, Sorted, ItemsOf, Backward, Shaped, Distinct, Tall, Cut;
      WithoutItems(nodes, k);
      WithoutSubset(nodes, k);
      next := Following(x, k + 1);
      DeleteNode(x, update, rank, k);
    }

    /** The node behind position p. */
    method Following(x: Node, ghost p: nat) returns (next: Node?)
      requires Valid() && 0 < p < |nodes| && nodes[p] == x
      ensures (next != null <==> p + 1 < |nodes|) && (next != null ==> next == nodes[p + 1])
    {
      FirstLink(nodes, level, p);
      next := x.forward[0];
    }

    lemma HeightAt(k: nat)
      requires Valid() && k < |nodes|
      ensures nodes[k].height > 0
    {
    }

    /** The removal as its caller asks for it: the bounds in either order, narrowed to 32 bits. */
    method DeleteRanks(start0: u64, end0: u64) returns (removed: seq<Item>)
      requires Valid()
      modifies this, (set n | n in nodes)
      ensures Valid()
      ensures var s := old(Items()); var x, y := Narrow(start0), Narrow(end0);
        var a := FirstRank(Min(x, y), |s|); var b := LastRank(a, Max(x, y), |s|);
        removed == s[a..b] == Ranked(s, x, y) && Items() == CutRange(s, a, b)
    {
      hide FirstRank, LastRank, CutRange, Narrow;
      var start, end := Narrow(start0), Narrow(end0);
      if start > end {
        start, end := end, start;
      }
      removed := DeleteByRank(start, end);
    }

    // ---------------------------------------------------------------- queries

    lemma ItemAt(p: nat)
      requires Valid() && 0 < p < |nodes|
      ensures Items()[p - 1] == nodes[p].item && nodes[p] != header && nodes[p].height > 0
    {
    }

    /** The heights of the nodes are those of a list of its level. */
    lemma HaveTowers()
      requires Valid()
      ensures Towers(HeightsOf(nodes), |Items()|, level)
    {
      if level > 1 {
        var p :| 1 <= p < |nodes| && nodes[p].height == level;
        assert HeightsOf(nodes)[p] == level;
      }
    }

    /** What the node found on one level means for the rank. */
    lemma RankStep(item: Item, i: nat, p: nat)
      requires Valid() && i < level && UpTo(Items(), item) < |nodes| && p == Prev(HeightsOf(nodes), UpTo(Items(), item), i)
      ensures p < |nodes| && (nodes[p] == header <==> p == 0)
      ensures RankIn(Items(), HeightsOf(nodes), item, i + 1) ==
        if nodes[p] != header && nodes[p].item.obj == item.obj then p else RankIn(Items(), HeightsOf(nodes), item, i)
    {
      hide Less, Sorted, Prefix, Linked, Next, Backward, Tall;
      DistinctAt(nodes, 0);
    }

    /** The rank of an element, counted from 1, or 0.  Where the descent stops only the object is
        compared. */
    method GetRank(item: Item) returns (rank: nat)
      requires Valid()
      ensures Towers(HeightsOf(nodes), |Items()|, level)
      ensures rank == RankIn(Items(), HeightsOf(nodes), item, level)
      ensures RankFound(Items(), item, rank)
    {
      hide Less, Sorted, Prefix, ItemsOf, Linked, HeightsOf, Next, Prev, Boundary, Downward, Backward, Shaped, Tall, Distinct,
        RankFound, RankIn, Towers;
      HaveTowers();
      RankInNone(Items(), HeightsOf(nodes), item);
      RankInFound(Items(), HeightsOf(nodes), item, level);
      var go := NotGreater(item);
      NotGreaterDownward(Items(), item);
      ghost var k := UpTo(Items(), item);
      PrefixNodes(nodes, go);
      var x := header;
      rank := 0;
      var i := level;
      while i > 0
        invariant 0 <= i <= level && 0 <= rank <= k && nodes[rank] == x && x.height >= i
        invariant RankIn(Items(), HeightsOf(nodes), item, level) == RankIn(Items(), HeightsOf(nodes), item, i)
      {
        i := i - 1;
        var steps: int;
        ghost var p;
        x, steps, p := Walk(x, i, rank, go, k);
        rank := rank + steps;
        PrevUpTo(nodes, k, i);
        RankStep(item, i, rank);
        if x != header && x.item.obj == item.obj {
          return;
        }
      }
      rank := 0;
    }

    lemma FirstRankAt(k: nat)
      requires Valid() && k < |nodes|
      ensures Prev(HeightsOf(nodes), k, 0) == k
    {
      PrevFirst(nodes, k);
    }

    /** The node of an element by its rank, counted from 1. */
    method GetNodeByRank(rank: nat) returns (x: Node?)
      requires Valid()
      ensures x == if 0 < rank <= length then nodes[rank] else null
    {
      if rank == 0 || rank > length {
        return null;
      }
      FirstRankAt(rank);
      x := Seek(rank);
    }

    /** The descent always meets the rank, at the latest on the first level. */
    method Seek(rank: nat) returns (x: Node)
      requires Shape() && Linked(nodes, level) && 0 < rank <= length && Prev(HeightsOf(nodes), rank, 0) == rank
      ensures x == nodes[rank]
    {
      hide HeightsOf, Prev, Next, Linked, Shaped, Distinct;
      x := header;
      var traversed := 0;
      var i := level;
      while traversed != rank
        invariant 0 <= i <= level && 0 <= traversed <= rank && nodes[traversed] == x && x.height >= i
        invariant i == 0 ==> traversed == rank
        decreases i
      {
        i := i - 1;
        x, traversed := WalkRank(x, i, traversed, rank, rank);
      }
    }

    /** Whether the scores of the list and the closed range [min, max] overlap as intervals. */
    method IsInRange(min: real, max: real) returns (r: bool)
      requires Valid()
      ensures r <==> Overlaps(Items(), min, max)
    {
      if min > max {
        return false;
      }
      if length > 0 {
        ItemAt(1);
        ItemAt(length);
      }
      FirstLink(nodes, level, 0);
      if tail == null || tail.item.score < min {
        return false;
      }
      var x := header.forward[0];
      if x == null || x.item.score > max {
        return false;
      }
      return true;
    }

    /** The last node whose element go accepts, for a test that accepts a front part of the list. */
    method LastAccepted(go: Item -> bool) returns (x: Node)
      requires Valid() && Downward(Items(), go)
      ensures Prefix(Items(), go) < |nodes| && x == nodes[Prefix(Items(), go)]
    {
      hide Prefix, Downward, Linked, Sorted, ItemsOf, Backward, Shaped, Tall, Distinct, Next, Prev, HeightsOf, Boundary;
      ghost var k := Prefix(Items(), go);
      PrefixNodes(nodes, go);
      FirstRankAt(k);
      x := header;
      ghost var p := 0;
      var i := level;
      while i > 0
        invariant 0 <= i <= level && 0 <= p <= k && nodes[p] == x && x.height >= i
        invariant i == 0 ==> p == k
      {
        i := i - 1;
        var steps: int;
        x, steps, p := Walk(x, i, p, go, k);
        PrevUpTo(nodes, k, i);
      }
    }

    /** The first node with a score of at least min, unless everything is out of range. */
    method FirstInRange(min: real, max: real) returns (x: Node?)
      requires Valid()
      ensures var k := Prefix(Items(), ScoreBelow(min));
        if Overlaps(Items(), min, max) then k + 1 < |nodes| && x == nodes[k + 1] else x == null
    {
      var any := IsInRange(min, max);
      if !any {
        return null;
      }
      ScoreDownward(Items(), min);
      ghost var k := Prefix(Items(), ScoreBelow(min));
      assert k < |Items()|;
      var u := LastAccepted(ScoreBelow(min));
      FirstLink(nodes, level, k);
      x := u.forward[0];
    }

    /** The last node with a score of at most max, unless everything is out of range. */
    method LastInRange(min: real, max: real) returns (x: Node?)
      requires Valid()
      ensures var k := Prefix(Items(), ScoreUpTo(max));
        if Overlaps(Items(), min, max) then 0 < k < |nodes| && x == nodes[k] else x == null
    {
      var any := IsInRange(min, max);
      if !any {
        return null;
      }
      ScoreDownward(Items(), max);
      assert Prefix(Items(), ScoreUpTo(max)) > 0;
      x := LastAccepted(ScoreUpTo(max));
    }

    /** The neighbour of the node at position p. */
    method Neighbour(x: Node, reverse: bool, ghost p: nat) returns (y: Node?)
      requires Valid() && 0 < p < |nodes| && nodes[p] == x
      ensures y == Element(if reverse then p - 1 else p + 1)
    {
      FirstLink(nodes, level, p);
      y := if reverse then x.backward else x.forward[0];
    }

    ghost function Element(p: int): Node?
      reads this
    {
      if 0 < p < |nodes| then nodes[p] else null
    }

    /** The elements with ranks from r1 to r2, in descending order if r2 is the smaller one. */
    method RankRange(r1: u64, r2: u64) returns (out: seq<Item>)
      requires Valid()
      ensures out == ListedRanks(Items(), r1, r2)
    {
      hide Sorted, ItemsOf, Linked, Backward, Shaped, Tall, Distinct, HighEnds, ListedRanks, Narrow, Signed;
      var reverse := r1 > r2;
      var rangelen := Signed(Narrow(if reverse then r1 - r2 + 1 else r2 - r1 + 1));
      var node := GetNodeByRank(r1);
      out := [];
      var n := 0;
      while node != null && n < rangelen
        invariant 0 <= n <= Max(rangelen, 0) && |out| == n
        invariant node == Element(if reverse then r1 - n else r1 + n)
        invariant RunOf(Items(), reverse, r1, out) && (out != [] ==> 0 < r1 <= length)
        decreases rangelen - n
      {
        ghost var p := if reverse then r1 - n else r1 + n;
        n := n + 1;
        ItemAt(p);
        RunNext(Items(), reverse, r1, out, node.item);
        out := out + [node.item];
        node := Neighbour(node, reverse, p);
      }
      RunBetween(Items(), r1, r2, out);
    }

    /** The elements with scores from s1 to s2, in descending order if s2 is the smaller one. */
    method ScoreRange(s1: real, s2: real) returns (out: seq<Item>)
      requires Valid()
      ensures out == if s1 <= s2 then Within(Items(), s1, s2) else Reverse(Within(Items(), s2, s1))
    {
      hide Sorted, ItemsOf, Linked, Backward, Shaped, Tall, Distinct, HighEnds, Within, Reverse, Prefix, Overlaps;
      var reverse := !(s1 <= s2);
      var node: Node?;
      ghost var start: nat;
      if !reverse {
        node := FirstInRange(s1, s2);
        start := Prefix(Items(), ScoreBelow(s1)) + 1;
        if node == null {
          NothingWithin(Items(), s1, s2);
          return [];
        }
        out := CollectUp(node, s2, start);
        RunUp(Items(), s1, s2, start, out);
      } else {
        node := LastInRange(s2, s1);
        start := Prefix(Items(), ScoreUpTo(s1));
        if node == null {
          NothingWithin(Items(), s2, s1);
          ReverseNone();
          return [];
        }
        out := CollectDown(node, s2, start);
        RunDown(Items(), s2, s1, start, out);
      }
    }

    /** Collects from a node upwards, up to a score. */
    method CollectUp(first: Node, s2: real, ghost start: nat) returns (out: seq<Item>)
      requires Valid() && 0 < start < |nodes| && nodes[start] == first
      ensures RunOf(Items(), false, start, out) && forall j :: 0 <= j < |out| ==> out[j].score <= s2
      ensures start + |out| <= length ==> Items()[start + |out| - 1].score > s2
    {
      hide Sorted, ItemsOf, Linked, Backward, Shaped, Tall, Distinct, HighEnds;
      var node: Node? := first;
      out := [];
      while node != null && node.item.score <= s2
        invariant node == Element(start + |out|)
        invariant RunOf(Items(), false, start, out) && forall j :: 0 <= j < |out| ==> out[j].score <= s2
        decreases |nodes| - |out|
      {
        ghost var p := start + |out|;
        ItemAt(p);
        out := out + [node.item];
        node := Neighbour(node, false, p);
      }
      if node != null { ItemAt(start + |out|); }
    }

    /** Collects from a node downwards, down to a score. */
    method CollectDown(first: Node, s2: real, ghost start: nat) returns (out: seq<Item>)
      requires Valid() && 0 < start < |nodes| && nodes[start] == first
      ensures RunOf(Items(), true, start, out) && forall j :: 0 <= j < |out| ==> out[j].score >= s2
      ensures |out| <= start && (|out| < start ==> Items()[start - |out| - 1].score < s2)
    {
      hide Sorted, ItemsOf, Linked, Backward, Shaped, Tall, Distinct, HighEnds;
      var node: Node? := first;
      out := [];
      while node != null && node.item.score >= s2
        invariant |out| <= start && node == Element(start - |out|)
        invariant RunOf(Items(), true, start, out) && forall j :: 0 <= j < |out| ==> out[j].score >= s2
        decreases start - |out|
      {
        ghost var p := start - |out|;
        ItemAt(p);
        out := out + [node.item];
        node := Neighbour(node, true, p);
      }
      if node != null { ItemAt(start - |out|); }
    }
  }
}
