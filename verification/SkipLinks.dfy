/** The nodes of a skip list and the tables of their links: what makes them correct, and what
    linking in a new node does to them. */
module SkipLinks {
  import opened Sequences
  import opened SkipOrder

  class Node {
    const item: Item
    const height: nat
    var forward: seq<Node?>
    var span: seq<int>
    var backward: Node?

    constructor (height: nat, item: Item)
      ensures this.item == item && this.height == height
      ensures forward == seq(height, _ => null) && span == seq(height, _ => 0) && backward == null
    {
      this.item, this.height := item, height;
      forward, span, backward := seq(height, _ => null), seq(height, _ => 0), null;
    }
  }

  // ---------------------------------------------------------------- tables of links

  function HeightsOf(nodes: seq<Node>): (hs: Heights)
    ensures |hs| == |nodes| && forall p :: 0 <= p < |nodes| ==> hs[p] == nodes[p].height
  {
    if nodes == [] then [] else HeightsOf(nodes[..|nodes| - 1]) + [nodes[|nodes| - 1].height]
  }

  function ItemsOf(nodes: seq<Node>): (s: seq<Item>)
    ensures |s| == |nodes| && forall p :: 0 <= p < |nodes| ==> s[p] == nodes[p].item
  {
    if nodes == [] then [] else ItemsOf(nodes[..|nodes| - 1]) + [nodes[|nodes| - 1].item]
  }

  function At(nodes: seq<Node>, q: nat): Node? {
    if q < |nodes| then nodes[q] else null
  }

  /** Every node has as many links as it is tall. */
  ghost predicate Shaped(nodes: seq<Node>)
    reads (set n | n in nodes)`forward, (set n | n in nodes)`span
  {
    forall p :: 0 <= p < |nodes| ==> |nodes[p].forward| == |nodes[p].span| == nodes[p].height
  }

  /** On every level each link leads to the next node of that level and its span is the true
      distance; the last link of a level leads nowhere and spans the rest of the list. */
  ghost predicate Linked(nodes: seq<Node>, level: nat)
    requires Shaped(nodes)
    reads (set n | n in nodes)`forward, (set n | n in nodes)`span
  {
    var hs := HeightsOf(nodes);
    forall p, l :: 0 <= p < |nodes| && 0 <= l < hs[p] && l < level ==>
      nodes[p].forward[l] == At(nodes, Next(hs, p, l)) && nodes[p].span[l] == Span(hs, p, l)
  }

  /** A snapshot of all links, and of all spans. */
  ghost function Forwards(nodes: seq<Node>): (t: seq<seq<Node?>>)
    reads (set n | n in nodes)`forward
    ensures |t| == |nodes| && forall p :: 0 <= p < |nodes| ==> t[p] == nodes[p].forward
  {
    if nodes == [] then [] else Forwards(nodes[..|nodes| - 1]) + [nodes[|nodes| - 1].forward]
  }

  ghost function Spans(nodes: seq<Node>): (t: seq<seq<int>>)
    reads (set n | n in nodes)`span
    ensures |t| == |nodes| && forall p :: 0 <= p < |nodes| ==> t[p] == nodes[p].span
  {
    if nodes == [] then [] else Spans(nodes[..|nodes| - 1]) + [nodes[|nodes| - 1].span]
  }

  /** The same as Shaped and Linked, said of a snapshot. */
  ghost predicate ShapedThen(nodes: seq<Node>, fw: seq<seq<Node?>>, sp: seq<seq<int>>) {
    |fw| == |sp| == |nodes| && forall p :: 0 <= p < |nodes| ==> |fw[p]| == |sp[p]| == nodes[p].height
  }

  ghost predicate LinkedThen(nodes: seq<Node>, level: nat, fw: seq<seq<Node?>>, sp: seq<seq<int>>)
    requires ShapedThen(nodes, fw, sp)
  {
    var hs := HeightsOf(nodes);
    forall p, l :: 0 <= p < |nodes| && 0 <= l < hs[p] && l < level ==>
      fw[p][l] == At(nodes, Next(hs, p, l)) && sp[p][l] == Span(hs, p, l)
  }

  lemma Snapshot(nodes: seq<Node>, level: nat)
    requires Shaped(nodes) && Linked(nodes, level)
    ensures ShapedThen(nodes, Forwards(nodes), Spans(nodes))
    ensures LinkedThen(nodes, level, Forwards(nodes), Spans(nodes))
  {
    hide HeightsOf, At, Next, Span, Forwards, Spans;
    var hs := HeightsOf(nodes);
    forall p, l | 0 <= p < |nodes| && 0 <= l < hs[p] && l < level
      ensures Forwards(nodes)[p][l] == At(nodes, Next(hs, p, l)) && Spans(nodes)[p][l] == Span(hs, p, l)
    {
      assert nodes[p].forward[l] == At(nodes, Next(hs, p, l));
    }
  }

  function Behind(nodes: seq<Node>, p: int): Node? {
    if 1 < p <= |nodes| then nodes[p - 1] else null
  }

  ghost predicate Backward(nodes: seq<Node>)
    reads (set n | n in nodes)`backward
  {
    forall p :: 0 <= p < |nodes| ==> nodes[p].backward == Behind(nodes, p)
  }

  /** The backward links are right, except at the new node behind position k and the one after it. */
  ghost predicate BackwardBut(nodes: seq<Node>, k: nat)
    reads (set n | n in nodes)`backward
  {
    forall p :: 0 <= p < |nodes| && p != k + 1 && p != k + 2 ==>
      nodes[p].backward == Behind(nodes, p)
  }

  /** The elements accepted by go are the first ones. */
  ghost predicate Boundary(nodes: seq<Node>, go: Item -> bool, k: nat) {
    k < |nodes| && forall j :: 1 <= j < |nodes| ==> (go(nodes[j].item) <==> j <= k)
  }

  /** update and rank describe, level by level, the last node up to position k. */
  ghost predicate Found(nodes: seq<Node>, level: nat, update: seq<Node>, rank: seq<int>, k: nat)
    requires k < |nodes| && nodes[0].height >= level
  {
    && |update| == |rank| == level
    && forall l :: 0 <= l < level ==>
         rank[l] == Prev(HeightsOf(nodes), k, l) && update[l] == nodes[rank[l]]
  }

  /** update[l] is a node of level l, at position rank[l]. */
  ghost predicate Marked(nodes: seq<Node>, level: nat, update: seq<Node>, rank: seq<int>) {
    && |update| == |rank| == level
    && forall l :: 0 <= l < level ==>
         0 <= rank[l] < |nodes| && update[l] == nodes[rank[l]] && nodes[rank[l]].height > l
  }

  lemma FoundMarked(nodes: seq<Node>, level: nat, update: seq<Node>, rank: seq<int>, k: nat)
    requires k < |nodes| && nodes[0].height >= level && Found(nodes, level, update, rank, k)
    ensures Marked(nodes, level, update, rank)
    ensures level > 0 && nodes[k].height > 0 ==> rank[0] == k
  {
    forall l | 0 <= l < level
      ensures 0 <= rank[l] < |nodes| && update[l] == nodes[rank[l]] && nodes[rank[l]].height > l
    {
      assert rank[l] == Prev(HeightsOf(nodes), k, l);
    }
  }

  /** level is the height of the tallest element, at least 1. */
  ghost predicate Tall(nodes: seq<Node>, level: nat) {
    && (forall p :: 1 <= p < |nodes| ==> 1 <= nodes[p].height <= level)
    && (level > 1 ==> exists p :: 1 <= p < |nodes| && nodes[p].height == level)
  }

  lemma AllTall(nodes: seq<Node>, level: nat)
    requires |nodes| > 0 && Tall(nodes, level) && nodes[0].height > 0
    ensures forall p :: 0 <= p < |nodes| ==> nodes[p].height > 0
  {
  }

  lemma PrevTall(nodes: seq<Node>, k: nat)
    requires k < |nodes| && nodes[k].height > 0 && nodes[0].height > 0
    ensures Prev(HeightsOf(nodes), k, 0) == k
  {
    hide HeightsOf;
  }

  lemma SomeLevel(nodes: seq<Node>, level: nat, p: nat)
    requires p < |nodes| && Tall(nodes, level) && nodes[0].height > 0
    ensures nodes[p].height > 0
  {
  }

  // ---------------------------------------------------------------- writing into a table

  function Put<T>(t: seq<seq<T>>, p: nat, l: nat, v: T): (r: seq<seq<T>>)
    requires p < |t| && l < |t[p]|
  {
    t[p := t[p][l := v]]
  }

  /** Changing one link of one node changes one entry of the table. */
  lemma PutForward(nodes: seq<Node>, fw: seq<seq<Node?>>, r: nat, i: nat, v: Node?)
    requires |fw| == |nodes| && r < |nodes| && i < |fw[r]| && nodes[r].forward == fw[r][i := v]
    requires forall p :: 0 <= p < |nodes| && p != r ==> nodes[p].forward == fw[p]
    ensures Forwards(nodes) == Put(fw, r, i, v)
  {
    hide Forwards;
  }

  lemma PutSpan(nodes: seq<Node>, sp: seq<seq<int>>, r: nat, i: nat, v: int)
    requires |sp| == |nodes| && r < |nodes| && i < |sp[r]| && nodes[r].span == sp[r][i := v]
    requires forall p :: 0 <= p < |nodes| && p != r ==> nodes[p].span == sp[p]
    ensures Spans(nodes) == Put(sp, r, i, v)
  {
    hide Spans;
  }

  /** Column l of the table has an entry in row rank[l]. */
  ghost predicate Fits<T>(t: seq<seq<T>>, rank: seq<int>) {
    forall l :: 0 <= l < |rank| ==> 0 <= rank[l] < |t| && l < |t[rank[l]]|
  }

  /** Writes v[l] at row rank[l] of column l, for the columns in [from, n). */
  function Written<T>(t: seq<seq<T>>, rank: seq<int>, from: nat, n: nat, v: seq<T>): (r: seq<seq<T>>)
    requires Fits(t, rank) && n <= |rank| == |v|
    ensures |r| == |t| && forall p :: 0 <= p < |t| ==> |r[p]| == |t[p]|
  {
    if n <= from then t else Put(Written(t, rank, from, n - 1, v), rank[n - 1], n - 1, v[n - 1])
  }

  lemma WrittenNone<T>(t: seq<seq<T>>, rank: seq<int>, from: nat, v: seq<T>)
    requires Fits(t, rank) && from <= |rank| == |v|
    ensures Written(t, rank, from, from, v) == t
  {
  }

  lemma {:induction false} WrittenNext<T>(t: seq<seq<T>>, rank: seq<int>, from: nat, n: nat, v: seq<T>)
    requires Fits(t, rank) && from <= n < |rank| == |v|
    ensures Written(t, rank, from, n + 1, v) == Put(Written(t, rank, from, n, v), rank[n], n, v[n])
    ensures Written(t, rank, from, n, v)[rank[n]][n] == t[rank[n]][n]
  {
    WrittenAt(t, rank, from, n, v, rank[n], n);
  }

  lemma {:induction false} WrittenAt<T>(t: seq<seq<T>>, rank: seq<int>, from: nat, n: nat, v: seq<T>, p: nat, l: nat)
    requires Fits(t, rank) && n <= |rank| == |v| && p < |t| && l < |t[p]|
    ensures Written(t, rank, from, n, v)[p][l] == if from <= l < n && p == rank[l] then v[l] else t[p][l]
  {
    if from < n {
      WrittenAt(t, rank, from, n - 1, v, p, l);
    }
  }

  function Copies(x: Node, n: nat): (c: seq<Node?>)
    ensures |c| == n && forall l :: 0 <= l < n ==> c[l] == x
  {
    seq(n, _ => x)
  }

  /** The distance from each marked node to the new node. */
  function Gaps(rank: seq<int>): (c: seq<int>)
    ensures |c| == |rank| && forall l :: 0 <= l < |rank| ==> c[l] == rank[0] - rank[l] + 1
  {
    seq(|rank|, l requires 0 <= l < |rank| => rank[0] - rank[l] + 1)
  }

  /** The marked entries of a table, each increased by d. */
  function Column(t: seq<seq<int>>, rank: seq<int>, d: int): (c: seq<int>)
    requires Fits(t, rank)
    ensures |c| == |rank| && forall l :: 0 <= l < |rank| ==> c[l] == t[rank[l]][l] + d
  {
    seq(|rank|, l requires 0 <= l < |rank| => t[rank[l]][l] + d)
  }

  function WithNode(nodes: seq<Node>, k: nat, x: Node): (r: seq<Node>)
    requires k < |nodes|
    ensures |r| == |nodes| + 1
    ensures forall p :: 0 <= p <= k ==> r[p] == nodes[p]
    ensures r[k + 1] == x
    ensures forall p :: k < p < |nodes| ==> r[p + 1] == nodes[p]
    ensures r[0] == nodes[0] && r[k] == nodes[k]
    ensures k + 1 < |nodes| ==> r[|nodes|] == nodes[|nodes| - 1]
  {
    nodes[..k + 1] + [x] + nodes[k + 1..]
  }

  lemma WithDistinct(nodes: seq<Node>, k: nat, x: Node)
    requires k < |nodes| && Distinct(nodes) && x !in nodes
    ensures Distinct(WithNode(nodes, k, x))
    ensures forall n :: n in WithNode(nodes, k, x) <==> n in nodes || n == x
  {
    var after := WithNode(nodes, k, x);
    forall p | 0 <= p < |nodes| ensures nodes[p] in after {
      assert nodes[p] == after[if p <= k then p else p + 1];
    }
  }

  lemma WithBackward(nodes: seq<Node>, k: nat, x: Node)
    requires k < |nodes| && Backward(nodes)
    ensures BackwardBut(WithNode(nodes, k, x), k)
  {
    var after := WithNode(nodes, k, x);
    hide WithNode;
    forall p | 0 <= p < |after| && p != k + 1 && p != k + 2
      ensures after[p].backward == Behind(after, p)
    {
      assert after[p] == nodes[if p <= k then p else p - 1];
      assert 1 < p ==> after[p - 1] == nodes[if p <= k then p - 1 else p - 2];
    }
  }

  lemma TallWith(nodes: seq<Node>, k: nat, x: Node, level: nat, level': nat)
    requires k < |nodes| && Tall(nodes, level) && x.height > 0 && nodes[0].height > 0
    requires level' == if x.height > level then x.height else level
    ensures Tall(WithNode(nodes, k, x), level')
    ensures forall p :: 0 <= p < |WithNode(nodes, k, x)| ==> WithNode(nodes, k, x)[p].height > 0
  {
    var after := WithNode(nodes, k, x);
    hide WithNode;
    forall p | 0 <= p < |after|
      ensures after[p].height > 0 && (p > 0 ==> after[p].height <= level')
    {
      assert p != k + 1 ==> after[p] == nodes[if p <= k then p else p - 1];
    }
    if level' > 1 {
      TopWith(nodes, k, x, level, level');
    }
  }

  lemma TopWith(nodes: seq<Node>, k: nat, x: Node, level: nat, level': nat)
    requires k < |nodes| && Tall(nodes, level) && level' > 1
    requires level' == if x.height > level then x.height else level
    ensures exists p :: 1 <= p <= |nodes| && WithNode(nodes, k, x)[p].height == level'
  {
    var after := WithNode(nodes, k, x);
    hide WithNode;
    if x.height >= level {
      assert after[k + 1].height == level';
    } else {
      var q :| 1 <= q < |nodes| && nodes[q].height == level;
      assert after[if q <= k then q else q + 1] == nodes[q];
    }
  }

  lemma ItemsWith(nodes: seq<Node>, k: nat, x: Node)
    requires k < |nodes|
    ensures ItemsOf(WithNode(nodes, k, x)[1..]) ==
            ItemsOf(nodes[1..])[..k] + [x.item] + ItemsOf(nodes[1..])[k..]
  {
    hide ItemsOf, WithNode;
    var a, s := ItemsOf(WithNode(nodes, k, x)[1..]), ItemsOf(nodes[1..]);
    var b := s[..k] + [x.item] + s[k..];
    forall p | 0 <= p < |a| ensures a[p] == b[p] {
      if p > k { assert WithNode(nodes, k, x)[p + 1] == nodes[p]; }
    }
  }

  /** The elements smaller than a given one are the ones before its place. */
  lemma PlaceNodes(nodes: seq<Node>, item: Item, go: Item -> bool)
    requires |nodes| > 0 && Sorted(ItemsOf(nodes[1..])) && forall y :: go(y) <==> Less(y, item)
    ensures Boundary(nodes, go, Place(ItemsOf(nodes[1..]), item))
  {
    var s := ItemsOf(nodes[1..]);
    hide ItemsOf, Place, Less, Sorted;
    forall j | 1 <= j < |nodes| ensures go(nodes[j].item) <==> j <= Place(s, item) {
      assert s[j - 1] == nodes[j].item;
      PlaceBoundary(s, item, j - 1);
    }
  }

  /** The first level links every node to its successor. */
  lemma FirstLink(nodes: seq<Node>, level: nat, p: nat)
    requires Shaped(nodes) && Linked(nodes, level) && p < |nodes| && level > 0
    requires forall q :: 0 <= q < |nodes| ==> nodes[q].height > 0
    ensures |nodes[p].forward| > 0 && nodes[p].forward[0] == At(nodes, p + 1)
    ensures |nodes[p].span| > 0 && nodes[p].span[0] == if p + 1 < |nodes| then 1 else 0
  {
    var hs := HeightsOf(nodes);
    hide HeightsOf;
    NextUnique(hs, p, 0, p + 1);
    assert nodes[p].forward[0] == At(nodes, Next(hs, p, 0));
  }

  lemma {:induction false} HeightsInserted(nodes: seq<Node>, k: nat, x: Node)
    requires k < |nodes|
    ensures HeightsOf(WithNode(nodes, k, x)) == Inserted(HeightsOf(nodes), k, x.height)
  {
    hide HeightsOf, WithNode;
    var a, b := HeightsOf(WithNode(nodes, k, x)), Inserted(HeightsOf(nodes), k, x.height);
    forall p | 0 <= p < |a| ensures a[p] == b[p] {
      if p > k + 1 { assert WithNode(nodes, k, x)[p] == nodes[p - 1]; }
    }
  }

  lemma AtInserted(nodes: seq<Node>, k: nat, x: Node, q: nat)
    requires k < |nodes|
    ensures q <= k ==> At(WithNode(nodes, k, x), q) == At(nodes, q)
    ensures q > k ==> At(WithNode(nodes, k, x), q + 1) == At(nodes, q)
    ensures At(WithNode(nodes, k, x), k + 1) == x
  {
    hide WithNode;
    if k < q < |nodes| { assert WithNode(nodes, k, x)[q + 1] == nodes[q]; }
  }

  /** A correct link of the old list, before or at position k, is correct after the splice. */
  lemma LinkBefore(nodes: seq<Node>, k: nat, x: Node, p: nat, l: nat, fw: Node?, sp: int)
    requires p <= k < |nodes| && l < nodes[p].height && l < nodes[0].height
    requires var hs := HeightsOf(nodes); fw == At(nodes, Next(hs, p, l)) && sp == Span(hs, p, l)
    ensures var here := p == Prev(HeightsOf(nodes), k, l);
      var nodes' := WithNode(nodes, k, x); var hs' := HeightsOf(nodes');
      && (if here && l < x.height then x else fw) == At(nodes', Next(hs', p, l))
      && (if here && l < x.height then k - p + 1 else if here then sp + 1 else sp) == Span(hs', p, l)
  {
    hide HeightsOf, WithNode, Inserted, Next, Prev, At;
    var hs := HeightsOf(nodes);
    var q := Next(hs, p, l);
    HeightsInserted(nodes, k, x);
    NextBefore(hs, k, x.height, p, l);
    AtInserted(nodes, k, x, q);
    InsertedSize(hs, k, x.height);
    if q > k {
      CrossingStart(hs, k, p, l);
    } else {
      PrevLater(hs, k, p, l);
    }
  }

  lemma InsertedSize(hs: Heights, k: nat, h: nat)
    requires k < |hs|
    ensures |Inserted(hs, k, h)| == |hs| + 1
  {
  }

  lemma PrevLater(hs: Heights, k: nat, p: nat, l: nat)
    requires p < |hs| && k < |hs| && hs[0] > l && Next(hs, p, l) <= k
    ensures Prev(hs, k, l) != p
  {
  }

  /** A correct link behind position k stays correct, one position further. */
  lemma LinkBehind(nodes: seq<Node>, k: nat, x: Node, p: nat, l: nat, fw: Node?, sp: int)
    requires k < p < |nodes| && l < nodes[p].height && l < nodes[0].height
    requires var hs := HeightsOf(nodes); fw == At(nodes, Next(hs, p, l)) && sp == Span(hs, p, l)
    ensures var nodes' := WithNode(nodes, k, x); var hs' := HeightsOf(nodes');
      fw == At(nodes', Next(hs', p + 1, l)) && sp == Span(hs', p + 1, l)
    ensures Prev(HeightsOf(nodes), k, l) != p
  {
    hide HeightsOf, WithNode, Inserted, Next, Prev, At;
    var hs := HeightsOf(nodes);
    HeightsInserted(nodes, k, x);
    NextBehind(hs, k, x.height, p, l);
    AtInserted(nodes, k, x, Next(hs, p, l));
    InsertedSize(hs, k, x.height);
  }

  /** The new node inherits the far part of every link that crossed its position. */
  lemma LinkNew(nodes: seq<Node>, k: nat, x: Node, l: nat, fw: Node?, sp: int)
    requires k < |nodes| && l < nodes[0].height
    requires var hs := HeightsOf(nodes); var u := Prev(hs, k, l); fw == At(nodes, Next(hs, u, l)) && sp == Span(hs, u, l)
    ensures var nodes' := WithNode(nodes, k, x); var hs' := HeightsOf(nodes');
      fw == At(nodes', Next(hs', k + 1, l)) && sp - (k - Prev(HeightsOf(nodes), k, l)) == Span(hs', k + 1, l)
  {
    hide HeightsOf, WithNode, Inserted, Next, Prev, At;
    var hs := HeightsOf(nodes);
    HeightsInserted(nodes, k, x);
    NextBehind(hs, k, x.height, k, l);
    PrevCrosses(hs, k, l);
    SameNext(hs, Prev(hs, k, l), k, l);
    AtInserted(nodes, k, x, Next(hs, k, l));
    InsertedSize(hs, k, x.height);
  }

  lemma SameNext(hs: Heights, p: nat, k: nat, l: nat)
    requires p <= k < |hs| && Next(hs, p, l) > k
    ensures Next(hs, k, l) == Next(hs, p, l)
  {
    NextUnique(hs, k, l, Next(hs, p, l));
  }

  lemma PrevHeader(nodes: seq<Node>, k: nat, l: nat)
    requires k < |nodes| && l < nodes[0].height
    requires forall p :: 1 <= p < |nodes| ==> nodes[p].height <= l
    ensures Prev(HeightsOf(nodes), k, l) == 0
  {
    PrevUnique(HeightsOf(nodes), k, l, 0);
  }

  /** Levels above all elements: the header's link leads nowhere and spans the whole list. */
  lemma RaisedLinked(nodes: seq<Node>, level: nat, newLevel: nat, fw: seq<seq<Node?>>, sp: seq<seq<int>>)
    requires |nodes| > 0 && ShapedThen(nodes, fw, sp) && LinkedThen(nodes, level, fw, sp) && Shaped(nodes)
    requires newLevel <= nodes[0].height
    requires forall p :: 1 <= p < |nodes| ==> nodes[p].height <= level
    requires forall p :: 0 <= p < |nodes| ==> nodes[p].forward == fw[p]
    requires forall p, l :: 0 <= p < |nodes| && 0 <= l < nodes[p].height && l < level ==> nodes[p].span[l] == sp[p][l]
    requires forall l :: level <= l < newLevel ==> nodes[0].forward[l] == null && nodes[0].span[l] == |nodes| - 1
    ensures Linked(nodes, newLevel)
  {
    var hs := HeightsOf(nodes);
    hide HeightsOf, At, Next;
    forall p, l | 0 <= p < |nodes| && 0 <= l < hs[p] && l < newLevel
      ensures nodes[p].forward[l] == At(nodes, Next(hs, p, l)) && nodes[p].span[l] == Span(hs, p, l)
    {
      if l >= level {
        assert p == 0;
        NextUnique(hs, 0, l, |hs|);
        AtEnd(nodes);
      } else {
        assert fw[p][l] == At(nodes, Next(hs, p, l));
      }
    }
  }

  lemma AtEnd(nodes: seq<Node>)
    ensures At(nodes, |nodes|) == null
  {
  }

  lemma ShapedWith(nodes: seq<Node>, k: nat, x: Node)
    requires k < |nodes| && Shaped(nodes) && |x.forward| == |x.span| == x.height
    ensures Shaped(WithNode(nodes, k, x))
  {
    var nodes' := WithNode(nodes, k, x);
    forall p' | 0 <= p' < |nodes'| ensures |nodes'[p'].forward| == |nodes'[p'].span| == nodes'[p'].height {
      if p' > k + 1 { assert nodes'[p'] == nodes[p' - 1]; }
    }
  }

  /** The effect of a splice behind position k on one link of the old list. */
  ghost predicate SplicedAt(nodes: seq<Node>, x: Node, k: nat, p: nat, l: nat, fw: Node?, sp: int)
    requires Shaped(nodes) && k < |nodes| && p < |nodes| && l < nodes[p].height && l < nodes[0].height
    reads nodes
  {
    var here := p == Prev(HeightsOf(nodes), k, l);
    && nodes[p].forward[l] == (if here && l < x.height then x else fw)
    && nodes[p].span[l] == (if here && l < x.height then k - p + 1 else if here then sp + 1 else sp)
  }

  /** The effect of a splice on all links, compared with a snapshot. */
  ghost predicate SplicedAll(nodes: seq<Node>, x: Node, level: nat, k: nat, fw: seq<seq<Node?>>, sp: seq<seq<int>>)
    requires k < |nodes| && 0 < level <= nodes[0].height && Shaped(nodes) && ShapedThen(nodes, fw, sp)
    reads nodes, x
  {
    && |x.forward| == |x.span| == x.height <= level
    && (forall p, l :: 0 <= p < |nodes| && 0 <= l < nodes[p].height && l < level ==>
          SplicedAt(nodes, x, k, p, l, fw[p][l], sp[p][l]))
    && (forall l :: 0 <= l < x.height ==> var u := Prev(HeightsOf(nodes), k, l);
          x.forward[l] == fw[u][l] && x.span[l] == sp[u][l] - (k - u))
  }

  lemma SplicedLink(nodes: seq<Node>, x: Node, level: nat, k: nat, fw: seq<seq<Node?>>, sp: seq<seq<int>>, p': nat, l: nat)
    requires k < |nodes| && 0 < level <= nodes[0].height && Shaped(nodes)
    requires ShapedThen(nodes, fw, sp) && LinkedThen(nodes, level, fw, sp) && SplicedAll(nodes, x, level, k, fw, sp)
    requires p' < |WithNode(nodes, k, x)| && l < WithNode(nodes, k, x)[p'].height && l < level
    ensures var nodes' := WithNode(nodes, k, x); var hs' := HeightsOf(nodes');
      && |nodes'[p'].forward| == |nodes'[p'].span| == nodes'[p'].height
      && nodes'[p'].forward[l] == At(nodes', Next(hs', p', l)) && nodes'[p'].span[l] == Span(hs', p', l)
  {
    hide Span, WithNode, HeightsOf, Prev, Next, At;
    var hs := HeightsOf(nodes);
    if p' <= k {
      assert SplicedAt(nodes, x, k, p', l, fw[p'][l], sp[p'][l]);
      LinkBefore(nodes, k, x, p', l, fw[p'][l], sp[p'][l]);
    } else if p' == k + 1 {
      var u := Prev(hs, k, l);
      LinkNew(nodes, k, x, l, fw[u][l], sp[u][l]);
    } else {
      var p := p' - 1;
      assert WithNode(nodes, k, x)[p + 1] == nodes[p];
      assert SplicedAt(nodes, x, k, p, l, fw[p][l], sp[p][l]);
      LinkBehind(nodes, k, x, p, l, fw[p][l], sp[p][l]);
    }
  }

  /** Splicing keeps every level a list of exactly the nodes tall enough, with exact spans. */
  lemma SplicedLinked(nodes: seq<Node>, x: Node, level: nat, k: nat, fw: seq<seq<Node?>>, sp: seq<seq<int>>)
    requires k < |nodes| && 0 < level <= nodes[0].height && Shaped(nodes)
    requires ShapedThen(nodes, fw, sp) && LinkedThen(nodes, level, fw, sp) && SplicedAll(nodes, x, level, k, fw, sp)
    ensures Shaped(WithNode(nodes, k, x)) && Linked(WithNode(nodes, k, x), level)
  {
    var nodes' := WithNode(nodes, k, x);
    var hs' := HeightsOf(nodes');
    ShapedWith(nodes, k, x);
    hide Span, WithNode, HeightsOf, Next, At, SplicedAll;
    forall p', l | 0 <= p' < |nodes'| && 0 <= l < hs'[p'] && l < level
      ensures nodes'[p'].forward[l] == At(nodes', Next(hs', p', l)) && nodes'[p'].span[l] == Span(hs', p', l)
    {
      SplicedLink(nodes, x, level, k, fw, sp, p', l);
    }
  }

  // ---------------------------------------------------------------- unlinking a node

  lemma WithWithout(nodes: seq<Node>, k: nat)
    requires k + 1 < |nodes|
    ensures WithNode(Cut(nodes, k + 1), k, nodes[k + 1]) == nodes
  {
  }

  /** What the last node before x links to, level by level, once x is gone; h is x's height and d
      its position. */
  function NextForward(fw: seq<seq<Node?>>, rank: seq<int>, d: nat, h: nat): (c: seq<Node?>)
    requires Fits(fw, rank) && d < |fw| && |fw[d]| == h
    ensures |c| == |rank| && forall l :: 0 <= l < |rank| ==> c[l] == if l < h then fw[d][l] else fw[rank[l]][l]
  {
    seq(|rank|, l requires 0 <= l < |rank| => if l < h then fw[d][l] else fw[rank[l]][l])
  }

  function NextSpan(sp: seq<seq<int>>, rank: seq<int>, d: nat, h: nat): (c: seq<int>)
    requires Fits(sp, rank) && d < |sp| && |sp[d]| == h
    ensures |c| == |rank| && forall l :: 0 <= l < |rank| ==> c[l] == sp[rank[l]][l] - 1 + if l < h then sp[d][l] else 0
  {
    seq(|rank|, l requires 0 <= l < |rank| => sp[rank[l]][l] - 1 + if l < h then sp[d][l] else 0)
  }

  /** A link before the removed node: the one that crossed it takes over its forward part. */
  lemma UnlinkBefore(after: seq<Node>, k: nat, x: Node, p: nat, l: nat, fw: Node?, sp: int, fx: Node?, sx: int)
    requires p <= k < |after| && l < after[p].height && l < after[0].height
    requires LinkIs(WithNode(after, k, x), p, l, fw, sp)
    requires l < x.height ==> LinkIs(WithNode(after, k, x), k + 1, l, fx, sx)
    ensures var here := p == Prev(HeightsOf(WithNode(after, k, x)), k, l);
      LinkIs(after, p, l, if here && l < x.height then fx else fw,
        if here then sp - 1 + (if l < x.height then sx else 0) else sp)
  {
    hide HeightsOf, WithNode, Inserted, Next, Prev, At;
    var hs' := HeightsOf(after);
    var q := Next(hs', p, l);
    HeightsInserted(after, k, x);
    InsertedSize(hs', k, x.height);
    PrevInserted(hs', k, x.height, l);
    NextBefore(hs', k, x.height, p, l);
    AtInserted(after, k, x, q);
    if q > k {
      CrossingStart(hs', k, p, l);
      NextBehind(hs', k, x.height, k, l);
      SameNext(hs', p, k, l);
    } else {
      PrevLater(hs', k, p, l);
    }
  }

  /** A link behind the removed node only moves one position forward. */
  lemma UnlinkBehind(after: seq<Node>, k: nat, x: Node, p: nat, l: nat, fw: Node?, sp: int)
    requires k < p < |after| && l < after[0].height
    requires LinkIs(WithNode(after, k, x), p + 1, l, fw, sp)
    ensures LinkIs(after, p, l, fw, sp)
  {
    hide HeightsOf, WithNode, Inserted, Next, Prev, At;
    var hs' := HeightsOf(after);
    HeightsInserted(after, k, x);
    InsertedSize(hs', k, x.height);
    NextBehind(hs', k, x.height, p, l);
    AtInserted(after, k, x, Next(hs', p, l));
  }

  /** fw and sp are the correct link and span of level l at position p. */
  ghost predicate LinkIs(nodes: seq<Node>, p: nat, l: nat, fw: Node?, sp: int) {
    p < |nodes| && fw == At(nodes, Next(HeightsOf(nodes), p, l)) && sp == Span(HeightsOf(nodes), p, l)
  }

  /** What unlinking the node behind position k does to the tables. */
  ghost predicate Unlinked(nodes: seq<Node>, k: nat, level: nat, rank: seq<int>, fw: seq<seq<Node?>>, sp: seq<seq<int>>,
                           fw': seq<seq<Node?>>, sp': seq<seq<int>>)
  {
    && k + 1 < |nodes| && level <= |rank| && nodes[0].height >= level
    && ShapedThen(nodes, fw, sp) && LinkedThen(nodes, level, fw, sp) && Fits(fw, rank) && Fits(sp, rank)
    && (forall l :: 0 <= l < level ==> rank[l] == Prev(HeightsOf(nodes), k, l))
    && fw' == Written(fw, rank, 0, level, NextForward(fw, rank, k + 1, nodes[k + 1].height))
    && sp' == Written(sp, rank, 0, level, NextSpan(sp, rank, k + 1, nodes[k + 1].height))
  }

  lemma MakeUnlinked(nodes: seq<Node>, k: nat, level: nat, update: seq<Node>, rank: seq<int>,
                     fw: seq<seq<Node?>>, sp: seq<seq<int>>)
    requires k + 1 < |nodes| && level <= |update| <= nodes[0].height && Found(nodes, |update|, update, rank, k)
    requires ShapedThen(nodes, fw, sp) && LinkedThen(nodes, level, fw, sp) && Fits(fw, rank) && Fits(sp, rank)
    requires Forwards(nodes) == Written(fw, rank, 0, level, NextForward(fw, rank, k + 1, nodes[k + 1].height))
    requires Spans(nodes) == Written(sp, rank, 0, level, NextSpan(sp, rank, k + 1, nodes[k + 1].height))
    ensures Unlinked(nodes, k, level, rank, fw, sp, Forwards(nodes), Spans(nodes))
  {
    hide LinkedThen, ShapedThen, Forwards, Spans, Written, NextForward, NextSpan, HeightsOf, Prev, Fits;
  }

  lemma RowShape(nodes: seq<Node>, fw: seq<seq<Node?>>, sp: seq<seq<int>>, d: nat)
    requires ShapedThen(nodes, fw, sp) && d < |nodes|
    ensures |fw| == |sp| == |nodes| && |fw[d]| == |sp[d]| == nodes[d].height
  {
  }

  lemma UnlinkedAt(nodes: seq<Node>, k: nat, level: nat, rank: seq<int>, fw: seq<seq<Node?>>, sp: seq<seq<int>>,
                   fw': seq<seq<Node?>>, sp': seq<seq<int>>, p: nat, l: nat)
    requires Unlinked(nodes, k, level, rank, fw, sp, fw', sp')
    requires p < |nodes| && l < level && l < nodes[p].height
    ensures |fw'| == |sp'| == |fw| == |sp| == |nodes|
    ensures |fw'[p]| == |sp'[p]| == |fw[p]| == |sp[p]| == nodes[p].height
    ensures LinkIs(nodes, p, l, fw[p][l], sp[p][l])
    ensures var here := p == Prev(HeightsOf(nodes), k, l); var h := nodes[k + 1].height;
      && fw'[p][l] == (if here && l < h then fw[k + 1][l] else fw[p][l])
      && sp'[p][l] == (if here then sp[p][l] - 1 + (if l < h then sp[k + 1][l] else 0) else sp[p][l])
  {
    hide HeightsOf, Prev, Written, Next, Span, At;
    assert rank[l] == Prev(HeightsOf(nodes), k, l);
    WrittenAt(fw, rank, 0, level, NextForward(fw, rank, k + 1, nodes[k + 1].height), p, l);
    WrittenAt(sp, rank, 0, level, NextSpan(sp, rank, k + 1, nodes[k + 1].height), p, l);
  }

  /** With every node on the first level, each links to its successor. */
  lemma FirstForward(nodes: seq<Node>, k: nat, f: Node?, s: int)
    requires k + 1 < |nodes| && LinkIs(nodes, k + 1, 0, f, s)
    requires forall p :: 0 <= p < |nodes| ==> nodes[p].height > 0
    ensures f == At(Cut(nodes, k + 1), k + 1)
  {
    hide Cut, HeightsOf, Next, Span;
    NextUnique(HeightsOf(nodes), k + 1, 0, k + 2);
    if k + 2 < |nodes| {
      CutAt(nodes, k + 1, k + 1);
    }
  }

  /** The removed node keeps its own links. */
  lemma UnlinkedFirst(nodes: seq<Node>, k: nat, level: nat, rank: seq<int>, fw: seq<seq<Node?>>, sp: seq<seq<int>>)
    requires k + 1 < |nodes| && level > 0 && forall p :: 0 <= p < |nodes| ==> nodes[p].height > 0
    requires Unlinked(nodes, k, level, rank, fw, sp, Forwards(nodes), Spans(nodes))
    ensures var x := nodes[k + 1]; |x.forward| > 0 && x.forward[0] == At(Cut(nodes, k + 1), k + 1)
  {
    hide Unlinked, LinkIs, Cut, HeightsOf, Prev, At;
    UnlinkedAt(nodes, k, level, rank, fw, sp, Forwards(nodes), Spans(nodes), k + 1, 0);
    PrevUpTo(nodes, k, 0);
    assert Forwards(nodes)[k + 1] == nodes[k + 1].forward;
    FirstForward(nodes, k, fw[k + 1][0], sp[k + 1][0]);
  }

  /** f and s are what the table holds for a remaining node after the unlinking. */
  lemma UnlinkedLink(after: seq<Node>, x: Node, k: nat, level: nat, rank: seq<int>, fw: seq<seq<Node?>>, sp: seq<seq<int>>,
                     fw': seq<seq<Node?>>, sp': seq<seq<int>>, p: nat, l: nat, f: Node?, s: int)
    requires k < |after| && p < |after| && l < after[p].height && l < level <= after[0].height
    requires |fw'| == |sp'| == |after| + 1
    requires var p' := if p <= k then p else p + 1;
      |fw'[p']| == |sp'[p']| == after[p].height && f == fw'[p'][l] && s == sp'[p'][l]
    requires Unlinked(WithNode(after, k, x), k, level, rank, fw, sp, fw', sp')
    ensures LinkIs(after, p, l, f, s)
  {
    hide WithNode, HeightsOf, Prev, LinkIs, Unlinked;
    var nodes := WithNode(after, k, x);
    var p' := if p <= k then p else p + 1;
    UnlinkedAt(nodes, k, level, rank, fw, sp, fw', sp', p', l);
    PrevUpTo(nodes, k, l);
    if p > k {
      UnlinkBehind(after, k, x, p, l, fw[p'][l], sp[p'][l]);
    } else if l < x.height {
      UnlinkedAt(nodes, k, level, rank, fw, sp, fw', sp', k + 1, l);
      UnlinkBefore(after, k, x, p, l, fw[p][l], sp[p][l], fw[k + 1][l], sp[k + 1][l]);
    } else {
      UnlinkBefore(after, k, x, p, l, fw[p][l], sp[p][l], null, 0);
    }
  }

  /** The last node of a level up to position k links to the node behind k just if that node has
      the level. */
  lemma LinksNext(nodes: seq<Node>, k: nat, l: nat)
    requires k + 1 < |nodes| && l < nodes[0].height && Distinct(nodes)
    ensures var hs := HeightsOf(nodes);
      At(nodes, Next(hs, Prev(hs, k, l), l)) == nodes[k + 1] <==> l < nodes[k + 1].height
  {
    var hs := HeightsOf(nodes);
    var q := Next(hs, Prev(hs, k, l), l);
    DistinctAt(nodes, k + 1);
    PrevCrosses(hs, k, l);
    hide Distinct, HeightsOf, Next, Prev;
    if q < |nodes| && l < nodes[k + 1].height {
      assert hs[k + 1] > l;
    }
  }

  lemma PrevUpTo(nodes: seq<Node>, k: nat, l: nat)
    requires k < |nodes| && l < nodes[0].height
    ensures Prev(HeightsOf(nodes), k, l) <= k
  {
  }

  lemma ShapedWithout(after: seq<Node>, k: nat, x: Node)
    requires k < |after| && Shaped(WithNode(after, k, x))
    ensures Shaped(after)
    ensures forall p :: 0 <= p < |after| ==> |after[p].forward| == |after[p].span| == after[p].height
  {
    var nodes := WithNode(after, k, x);
    forall p | 0 <= p < |after| ensures |after[p].forward| == |after[p].span| == after[p].height {
      assert nodes[if p <= k then p else p + 1] == after[p];
    }
  }

  /** Unlinking keeps every level a list of exactly the remaining nodes, with exact spans. */
  lemma UnlinkedLinked(after: seq<Node>, x: Node, k: nat, level: nat, rank: seq<int>,
                       fw: seq<seq<Node?>>, sp: seq<seq<int>>)
    requires k < |after| && level <= after[0].height && Shaped(WithNode(after, k, x))
    requires var nodes := WithNode(after, k, x); Unlinked(nodes, k, level, rank, fw, sp, Forwards(nodes), Spans(nodes))
    ensures Shaped(after) && Linked(after, level)
  {
    var nodes, hs' := WithNode(after, k, x), HeightsOf(after);
    ShapedWithout(after, k, x);
    hide Span, WithNode, HeightsOf, Next, At, Unlinked, Forwards, Spans, Shaped;
    forall p, l | 0 <= p < |after| && 0 <= l < hs'[p] && l < level
      ensures after[p].forward[l] == At(after, Next(hs', p, l)) && after[p].span[l] == Span(hs', p, l)
    {
      assert nodes[if p <= k then p else p + 1] == after[p];
      UnlinkedLink(after, x, k, level, rank, fw, sp, Forwards(nodes), Spans(nodes), p, l, after[p].forward[l], after[p].span[l]);
    }
  }

  lemma WithoutDistinct(nodes: seq<Node>, k: nat)
    requires k + 1 < |nodes| && Distinct(nodes)
    ensures Distinct(Cut(nodes, k + 1)) && nodes[k + 1] !in Cut(nodes, k + 1)
    ensures forall n :: n in Cut(nodes, k + 1) ==> n in nodes
  {
    var after := Cut(nodes, k + 1);
    hide Cut;
    forall p | 0 <= p < |after| ensures after[p] == nodes[if p <= k then p else p + 1] {
      CutAt(nodes, k + 1, p);
    }
  }

  /** The backward links once x, behind position k, is gone: only the next node's is wrong, and x
      has the right one. */
  ghost predicate BackwardPast(after: seq<Node>, x: Node, k: nat)
    reads (set n | n in after)`backward, x`backward
  {
    && x.backward == Behind(after, k + 1)
    && forall p :: 0 <= p < |after| && p != k + 1 ==> after[p].backward == Behind(after, p)
  }

  lemma WithoutBackward(nodes: seq<Node>, k: nat)
    requires k + 1 < |nodes| && Backward(nodes)
    ensures BackwardPast(Cut(nodes, k + 1), nodes[k + 1], k)
  {
    var after := Cut(nodes, k + 1);
    hide Cut;
    forall p | 0 <= p < |after| && p != k + 1 ensures after[p].backward == Behind(after, p) {
      CutAt(nodes, k + 1, p);
      if 1 < p { CutAt(nodes, k + 1, p - 1); }
    }
    CutAt(nodes, k + 1, k);
  }

  ghost predicate HeightsUpTo(nodes: seq<Node>, level: nat) {
    forall p :: 1 <= p < |nodes| ==> 1 <= nodes[p].height <= level
  }

  lemma WithoutHeights(nodes: seq<Node>, level: nat, k: nat)
    requires k + 1 < |nodes| && Tall(nodes, level)
    ensures HeightsUpTo(Cut(nodes, k + 1), level)
  {
    var after := Cut(nodes, k + 1);
    hide Cut;
    forall p | 1 <= p < |after| ensures 1 <= after[p].height <= level {
      CutAt(nodes, k + 1, p);
    }
  }

  lemma WithoutFound(nodes: seq<Node>, k: nat, update: seq<Node>, rank: seq<int>)
    requires k + 1 < |nodes| && |update| <= nodes[0].height && Found(nodes, |update|, update, rank, k)
    ensures var after := Cut(nodes, k + 1); after[0] == nodes[0] && Found(after, |update|, update, rank, k)
  {
    var after := Cut(nodes, k + 1);
    WithWithout(nodes, k);
    HeightsInserted(after, k, nodes[k + 1]);
    hide HeightsOf, Prev, WithNode;
    forall l | 0 <= l < |update|
      ensures rank[l] == Prev(HeightsOf(after), k, l) && update[l] == after[rank[l]]
    {
      assert rank[l] == Prev(HeightsOf(nodes), k, l);
      PrevInserted(HeightsOf(after), k, nodes[k + 1].height, l);
      PrevUpTo(after, k, l);
      CutAt(nodes, k + 1, rank[l]);
    }
  }

  lemma WithoutItems(nodes: seq<Node>, k: nat)
    requires k + 1 < |nodes|
    ensures ItemsOf(Cut(nodes, k + 1)[1..]) == ItemsOf(nodes[1..])[..k] + ItemsOf(nodes[1..])[k + 1..]
  {
    hide ItemsOf, Cut;
    var a, s := ItemsOf(Cut(nodes, k + 1)[1..]), ItemsOf(nodes[1..]);
    var b := s[..k] + s[k + 1..];
    forall p | 0 <= p < |a| ensures a[p] == b[p] {
      CutAt(nodes, k + 1, p + 1);
      assert b[p] == s[if p < k then p else p + 1];
      assert a[p] == Cut(nodes, k + 1)[p + 1].item;
    }
  }

  lemma WithoutSorted(nodes: seq<Node>, k: nat)
    requires k + 1 < |nodes| && Sorted(ItemsOf(nodes[1..]))
    ensures Sorted(ItemsOf(Cut(nodes, k + 1)[1..]))
  {
    WithoutItems(nodes, k);
    var a, s := ItemsOf(Cut(nodes, k + 1)[1..]), ItemsOf(nodes[1..]);
    hide ItemsOf, Cut, Less;
    forall i, j | 0 <= i < j < |a| ensures !Less(a[j], a[i]) {
      assert a[i] == s[if i < k then i else i + 1] && a[j] == s[if j < k then j else j + 1];
    }
  }

  /** A level the header does not link has no elements, and the other way round. */
  lemma LevelEmpty(nodes: seq<Node>, level: nat, l: nat)
    requires |nodes| > 0 && Shaped(nodes) && Linked(nodes, level) && l < level <= nodes[0].height
    ensures |nodes[0].forward| > l
    ensures nodes[0].forward[l] == null <==> forall p :: 1 <= p < |nodes| ==> nodes[p].height <= l
  {
    var hs := HeightsOf(nodes);
    var q := Next(hs, 0, l);
    assert nodes[0].forward[l] == At(nodes, q);
    hide HeightsOf, Next;
    if q < |nodes| {
      assert hs[q] > l;
    } else {
      forall p | 1 <= p < |nodes| ensures nodes[p].height <= l {
        assert hs[p] <= l;
      }
    }
  }

  lemma LevelLower(nodes: seq<Node>, level: nat, level': nat)
    requires Shaped(nodes) && Linked(nodes, level) && level' <= level
    ensures Linked(nodes, level')
  {
    hide HeightsOf, Next, Span, At;
  }

  lemma MakeTall(nodes: seq<Node>, level: nat)
    requires forall p :: 1 <= p < |nodes| ==> 1 <= nodes[p].height <= level
    requires level > 1 ==> exists p :: 1 <= p < |nodes| && nodes[p].height > level - 1
    ensures Tall(nodes, level)
  {
    if level > 1 {
      var p :| 1 <= p < |nodes| && nodes[p].height > level - 1;
      assert nodes[p].height == level;
    }
  }

  /** The elements a downward closed test accepts are the ones before its prefix ends. */
  lemma PrefixNodes(nodes: seq<Node>, go: Item -> bool)
    requires |nodes| > 0 && Downward(ItemsOf(nodes[1..]), go)
    ensures Boundary(nodes, go, Prefix(ItemsOf(nodes[1..]), go))
  {
    var s := ItemsOf(nodes[1..]);
    hide ItemsOf, Prefix;
    var k := Prefix(s, go);
    forall j | 1 <= j < |nodes| ensures go(nodes[j].item) <==> j <= k {
      assert s[j - 1] == nodes[j].item;
      if j > k {
        assert !go(s[k]);
      }
    }
  }

  lemma WithoutSubset(nodes: seq<Node>, k: nat)
    requires k + 1 < |nodes|
    ensures forall n :: n in Cut(nodes, k + 1) ==> n in nodes
    ensures k + 2 < |nodes| ==> Cut(nodes, k + 1)[k + 1] == nodes[k + 2]
  {
  }

  /** On the first level the last node up to position k is the one at k. */
  lemma PrevFirst(nodes: seq<Node>, k: nat)
    requires k < |nodes| && forall p :: 0 <= p < |nodes| ==> nodes[p].height > 0
    ensures Prev(HeightsOf(nodes), k, 0) == k
  {
  }
}
