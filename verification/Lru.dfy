/** The least-recently-used caches: a linked list, most recent first, and a map from keys to its
    nodes. */
module Lru {
  import opened Options
  import opened Sequences

  datatype Entry<K, V> = Entry(key: K, value: V, time: int)

  class Node<K, V> {
    var key: K
    var value: V
    var time: int
    var preNode: Node?<K, V>
    var nextNode: Node?<K, V>

    constructor (key: K, value: V, time: int, nextNode: Node?<K, V>)
      ensures this.key == key && this.value == value && this.time == time
      ensures this.nextNode == nextNode && preNode == null
    {
      this.key, this.value, this.time, this.nextNode, this.preNode := key, value, time, nextNode, null;
    }
  }

  // ---------------------------------------------------------------- recency lists as values

  function IndexOf<K(==), V>(s: seq<Entry<K, V>>, key: K): (i: nat)
    ensures i <= |s|
    ensures i < |s| ==> s[i].key == key
    ensures forall j :: 0 <= j < i ==> s[j].key != key
  {
    if s == [] || s[0].key == key then 0 else 1 + IndexOf(s[1..], key)
  }

  predicate Has<K(==), V>(s: seq<Entry<K, V>>, key: K) {
    IndexOf(s, key) < |s|
  }

  predicate DistinctKeys<K(==), V>(s: seq<Entry<K, V>>) {
    forall i, j :: 0 <= i < j < |s| ==> s[i].key != s[j].key
  }

  /** The entry at position i moves to the front. */
  function ToFront<K, V>(s: seq<Entry<K, V>>, i: nat): (r: seq<Entry<K, V>>)
    requires i < |s|
  {
    [s[i]] + s[..i] + s[i + 1..]
  }

  /** How many entries stay when room is made for one more. */
  function Kept(n: nat, maxSize: nat): (k: nat)
    requires maxSize > 0
    ensures k <= n
  {
    if n >= maxSize then maxSize - 1 else n
  }

  /** The list after setting a key: an old entry keeps its time, a new one drives out the least
      recent ones. */
  function AfterSet<K(==), V>(s: seq<Entry<K, V>>, key: K, value: V, now: int, maxSize: nat): seq<Entry<K, V>>
    requires maxSize > 0
  {
    var i := IndexOf(s, key);
    if i < |s| then [Entry(key, value, s[i].time)] + s[..i] + s[i + 1..]
    else [Entry(key, value, now)] + s[..Kept(|s|, maxSize)]
  }

  /** The entries driven out, the least recent one first. */
  function Evicted<K(==), V>(s: seq<Entry<K, V>>, key: K, maxSize: nat): seq<Entry<K, V>>
    requires maxSize > 0
  {
    if Has(s, key) then [] else Reverse(s[Kept(|s|, maxSize)..])
  }

  /** All entries but that of a key. */
  function RemoveKey<K(==), V>(s: seq<Entry<K, V>>, key: K): seq<Entry<K, V>> {
    if s == [] then []
    else RemoveKey(s[..|s| - 1], key) + if s[|s| - 1].key == key then [] else [s[|s| - 1]]
  }

  lemma {:induction false} RemoveAbsent<K, V>(s: seq<Entry<K, V>>, key: K)
    requires forall j :: 0 <= j < |s| ==> s[j].key != key
    ensures RemoveKey(s, key) == s
  {
    if s != [] {
      RemoveAbsent(s[..|s| - 1], key);
    }
  }

  lemma {:induction false} RemoveAt<K, V>(s: seq<Entry<K, V>>, i: nat)
    requires DistinctKeys(s) && i < |s|
    ensures RemoveKey(s, s[i].key) == s[..i] + s[i + 1..]
  {
    var front := s[..|s| - 1];
    if i == |s| - 1 {
      RemoveAbsent(front, s[i].key);
    } else {
      RemoveAt(front, i);
      assert s[..i] + s[i + 1..] == (front[..i] + front[i + 1..]) + [s[|s| - 1]];
    }
  }

  /** The entries whose keys are not in a set. */
  function FilterOut<K(==), V>(s: seq<Entry<K, V>>, keys: set<K>): seq<Entry<K, V>> {
    if s == [] then []
    else FilterOut(s[..|s| - 1], keys) + if s[|s| - 1].key in keys then [] else [s[|s| - 1]]
  }

  function KeySet<K(==)>(keys: seq<K>): set<K> {
    set k | k in keys
  }

  /** The entries that have not outlived their time. */
  function Fresh<K, V>(s: seq<Entry<K, V>>, now: int, delayTime: int): seq<Entry<K, V>> {
    if s == [] then []
    else Fresh(s[..|s| - 1], now, delayTime) + if now - s[|s| - 1].time > delayTime then [] else [s[|s| - 1]]
  }

  /** One entry stays exactly if no more than delayTime has passed since its time, and each is judged on its own:
      the entries that stay keep their order. */
  lemma {:induction false} FreshIs<K, V>(s: seq<Entry<K, V>>, t: seq<Entry<K, V>>, e: Entry<K, V>, now: int, delayTime: int)
    ensures Fresh(s + t, now, delayTime) == Fresh(s, now, delayTime) + Fresh(t, now, delayTime)
    ensures Fresh([e], now, delayTime) == if now <= e.time + delayTime then [e] else []
    decreases |t|
  {
    assert [e][..0] == [];
    if t == [] {
      assert s + t == s;
    } else {
      FreshIs(s, t[..|t| - 1], e, now, delayTime);
      assert (s + t)[..|s + t| - 1] == s + t[..|t| - 1];
    }
  }

  lemma {:induction false} FilterNone<K, V>(s: seq<Entry<K, V>>)
    ensures FilterOut(s, {}) == s
  {
    if s != [] {
      FilterNone(s[..|s| - 1]);
    }
  }

  lemma {:induction false} FilterMore<K, V>(s: seq<Entry<K, V>>, keys: set<K>, key: K)
    ensures RemoveKey(FilterOut(s, keys), key) == FilterOut(s, keys + {key})
  {
    if s != [] {
      FilterMore(s[..|s| - 1], keys, key);
      var f := FilterOut(s[..|s| - 1], keys);
      if s[|s| - 1].key in keys {
        assert FilterOut(s, keys) == f;
      } else {
        assert (f + [s[|s| - 1]])[..|f|] == f;
      }
    }
  }

  /** A key that is not filtered out keeps its entry. */
  lemma {:induction false} FilterKeeps<K, V>(s: seq<Entry<K, V>>, keys: set<K>, i: nat)
    requires i < |s| && s[i].key !in keys
    ensures s[i] in FilterOut(s, keys)
  {
    if i < |s| - 1 {
      FilterKeeps(s[..|s| - 1], keys, i);
    }
  }

  lemma {:induction false} FilterWithin<K, V>(s: seq<Entry<K, V>>, keys: set<K>, e: Entry<K, V>)
    requires e in FilterOut(s, keys)
    ensures e in s
  {
    if s != [] && e in FilterOut(s[..|s| - 1], keys) {
      FilterWithin(s[..|s| - 1], keys, e);
    }
  }

  lemma {:induction false} FilterFresh<K, V>(s: seq<Entry<K, V>>, keys: set<K>, now: int, delayTime: int)
    requires forall i :: 0 <= i < |s| ==> (s[i].key in keys <==> now - s[i].time > delayTime)
    ensures FilterOut(s, keys) == Fresh(s, now, delayTime)
  {
    if s != [] {
      FilterFresh(s[..|s| - 1], keys, now, delayTime);
    }
  }

  /** The two cases of a set, for a key that is not there and for one that is. */
  lemma SetSpec<K, V>(s: seq<Entry<K, V>>, key: K, value: V, now: int, maxSize: nat)
    requires maxSize > 0
    ensures !Has(s, key) ==>
      && AfterSet(s, key, value, now, maxSize) == [Entry(key, value, now)] + s[..Kept(|s|, maxSize)]
      && Evicted(s, key, maxSize) == Reverse(s[Kept(|s|, maxSize)..])
    ensures !Has(s, key) && s == [] ==>
      && AfterSet(s, key, value, now, maxSize) == [Entry(key, value, now)]
      && Evicted(s, key, maxSize) == []
    ensures !Has(s, key) && |s| == 1 == maxSize ==>
      && AfterSet(s, key, value, now, maxSize) == [Entry(key, value, now)]
      && Evicted(s, key, maxSize) == s
    ensures Has(s, key) ==> var i := IndexOf(s, key);
      && i < |s| && AfterSet(s, key, value, now, maxSize) == [Entry(key, value, s[i].time)] + s[..i] + s[i + 1..]
      && Evicted(s, key, maxSize) == []
  {
    if !Has(s, key) && |s| == 1 == maxSize {
      assert s[0..] == s;
      assert Reverse(s) == s;
    }
  }

  lemma KeptFits(n: nat, maxSize: nat)
    requires maxSize > 0
    ensures Kept(n, maxSize) < maxSize && Kept(n, maxSize) == if n < maxSize then n else maxSize - 1
  {
  }

  lemma ReversedTwice<K, V>(s: seq<Entry<K, V>>)
    ensures Reverse(Reverse(s)) == s
  {
  }

  /** Setting a key that is there drives out nothing: its entry gets the value and the front place, but keeps its time. */
  lemma SetKnown<K, V>(s: seq<Entry<K, V>>, i: nat, value: V, now: int, maxSize: nat)
    requires maxSize > 0 && DistinctKeys(s) && i < |s|
    ensures AfterSet(s, s[i].key, value, now, maxSize) == [Entry(s[i].key, value, s[i].time)] + s[..i] + s[i + 1..]
    ensures Evicted(s, s[i].key, maxSize) == []
  {
    hide AfterSet, Evicted, IndexOf;
    SetSpec(s, s[i].key, value, now, maxSize);
  }

  /** A new key drives out only as many entries as make room for it, the least recent ones, and loses none without
      reporting it: what stays and what goes are the old list. */
  lemma SetConserves<K, V>(s: seq<Entry<K, V>>, key: K, value: V, now: int, maxSize: nat)
    requires maxSize > 0 && !Has(s, key)
    ensures |AfterSet(s, key, value, now, maxSize)| == if |s| < maxSize then |s| + 1 else maxSize
    ensures |s| < maxSize ==> Evicted(s, key, maxSize) == []
    ensures AfterSet(s, key, value, now, maxSize) + Reverse(Evicted(s, key, maxSize)) == [Entry(key, value, now)] + s
  {
    hide AfterSet, Evicted, Has, Reverse, Kept;
    SetSpec(s, key, value, now, maxSize);
    KeptFits(|s|, maxSize);
    var m := Kept(|s|, maxSize);
    ReversedTwice(s[m..]);
    var e := Entry(key, value, now);
    assert ([e] + s[..m]) + s[m..] == [e] + s;
  }

  lemma FrontDistinct<K, V>(s: seq<Entry<K, V>>, i: nat, e: Entry<K, V>)
    requires DistinctKeys(s) && i < |s| && e.key == s[i].key
    ensures DistinctKeys([e] + s[..i] + s[i + 1..]) && DistinctKeys(s[..i] + s[i + 1..])
  {
    var r := s[..i] + s[i + 1..];
    forall p | 0 <= p < |r| ensures r[p] == s[if p < i then p else p + 1] {
    }
    assert [e] + s[..i] + s[i + 1..] == [e] + r;
  }

  lemma {:induction false} AbsentAfterRemove<K, V>(s: seq<Entry<K, V>>, key: K)
    ensures forall j :: 0 <= j < |RemoveKey(s, key)| ==> RemoveKey(s, key)[j].key != key
  {
    if s != [] {
      AbsentAfterRemove(s[..|s| - 1], key);
    }
  }

  /** Every operation keeps the keys different. */
  lemma OperationsKeepDistinct<K, V>(s: seq<Entry<K, V>>, key: K, value: V, now: int, maxSize: nat)
    requires DistinctKeys(s) && maxSize > 0
    ensures DistinctKeys(AfterSet(s, key, value, now, maxSize))
    ensures Has(s, key) ==> DistinctKeys(ToFront(s, IndexOf(s, key)))
    ensures DistinctKeys(RemoveKey(s, key)) && !Has(RemoveKey(s, key), key)
  {
    hide RemoveKey, AfterSet, Evicted, Reverse;
    SetSpec(s, key, value, now, maxSize);
    AbsentAfterRemove(s, key);
    if Has(s, key) {
      var i := IndexOf(s, key);
      RemoveAt(s, i);
      FrontDistinct(s, i, s[i]);
      FrontDistinct(s, i, Entry(key, value, s[i].time));
    } else {
      RemoveAbsent(s, key);
    }
  }

  // ---------------------------------------------------------------- the cache

  function At<K, V>(nodes: seq<Node<K, V>>, i: int): Node?<K, V> {
    if 0 <= i < |nodes| then nodes[i] else null
  }

  ghost predicate Linked<K, V>(nodes: seq<Node<K, V>>)
    reads (set n | n in nodes)`preNode, (set n | n in nodes)`nextNode
  {
    forall i :: 0 <= i < |nodes| ==> nodes[i].nextNode == At(nodes, i + 1) && nodes[i].preNode == At(nodes, i - 1)
  }

  /** The map leads from exactly the keys in the list to their nodes. */
  ghost predicate Mapped<K, V>(nodes: seq<Node<K, V>>, key2Node: map<K, Node<K, V>>)
    reads (set n | n in nodes)`key
  {
    && (forall i :: 0 <= i < |nodes| ==> nodes[i].key in key2Node && key2Node[nodes[i].key] == nodes[i])
    && (forall k :: k in key2Node ==> key2Node[k] in nodes && key2Node[k].key == k)
  }

  ghost function Entries<K, V>(nodes: seq<Node<K, V>>): (s: seq<Entry<K, V>>)
    reads (set n | n in nodes)`key, (set n | n in nodes)`value, (set n | n in nodes)`time
    ensures |s| == |nodes|
    ensures forall i :: 0 <= i < |nodes| ==> s[i] == Entry(nodes[i].key, nodes[i].value, nodes[i].time)
  {
    if nodes == [] then []
    else
      var n := nodes[|nodes| - 1];
      Entries(nodes[..|nodes| - 1]) + [Entry(n.key, n.value, n.time)]
  }

  class Cache<K(==), V> {
    var maxSize: int
    var delayTime: int
    var key2Node: map<K, Node<K, V>>
    var cacheHead: Node?<K, V>
    var cacheTail: Node?<K, V>
    var count: int
    ghost var nodes: seq<Node<K, V>>

    ghost predicate Valid()
      reads `key2Node, `cacheHead, `cacheTail, `count, `nodes, nodes
    {
      && Distinct(nodes) && Linked(nodes) && Mapped(nodes, key2Node)
      && cacheHead == At(nodes, 0) && cacheTail == At(nodes, |nodes| - 1) && count == |nodes|
    }

    /** What is stored, most recent first. */
    ghost function Contents(): seq<Entry<K, V>>
      reads `nodes, nodes
    {
      Entries(nodes)
    }

    constructor (capacity: int, delayTime: int)
      ensures Valid() && Contents() == [] && maxSize == capacity && this.delayTime == delayTime && fresh(nodes)
    {
      maxSize, this.delayTime := capacity, delayTime;
      key2Node, cacheHead, cacheTail, count, nodes := map[], null, null, 0, [];
    }

    method SetMaxSize(maxSize: int)
      modifies `maxSize
      ensures this.maxSize == if maxSize > 0 then maxSize else old(this.maxSize)
    {
      if maxSize > 0 {
        this.maxSize := maxSize;
      }
    }

    /** The link changes of PushFront, for a node that is not the first. */
    method Relink(node: Node<K, V>, ghost i: nat)
      requires Distinct(nodes) && Linked(nodes) && 0 < i < |nodes| && nodes[i] == node && cacheHead == nodes[0]
      modifies (set n | n in nodes)`preNode, (set n | n in nodes)`nextNode
      ensures FrontLinks(nodes, i)
    {
      hide Distinct, Linked, CutLinks, FrontLinks;
      UnlinkNeighbours(node, i);
      LinkFirst(node, i);
    }

    method LinkFirst(node: Node<K, V>, ghost i: nat)
      requires Distinct(nodes) && 0 < i < |nodes| && CutLinks(nodes, i) && nodes[i] == node && cacheHead == nodes[0]
      modifies (set n | n in nodes)`preNode, (set n | n in nodes)`nextNode
      ensures FrontLinks(nodes, i)
    {
      hide Distinct;
      DistinctAt(nodes, i);
      DistinctAt(nodes, 0);
      node.nextNode := cacheHead;
      node.preNode := null;
      cacheHead.preNode := node;
    }

    /** Moves a node to the front. */
    method PushFront(node: Node<K, V>, ghost i: nat)
      requires Distinct(nodes) && Linked(nodes) && i < |nodes| && nodes[i] == node
      requires cacheHead == At(nodes, 0) && cacheTail == At(nodes, |nodes| - 1)
      modifies `cacheHead, `cacheTail, `nodes, (set n | n in nodes)`preNode, (set n | n in nodes)`nextNode
      ensures nodes == Fronted(old(nodes), i)
      ensures Distinct(nodes) && Linked(nodes) && cacheHead == At(nodes, 0) && cacheTail == At(nodes, |nodes| - 1)
    {
      hide Distinct, Linked, Fronted, FrontLinks;
      FrontedFacts(nodes, i);
      EndsAt(nodes, i);
      if node == cacheHead {
        return;
      }
      if node == cacheTail {
        cacheTail := node.preNode;
      }
      Relink(node, i);
      FrontedLinked(nodes, i);
      cacheHead := node;
      nodes := Fronted(nodes, i);
    }

    /** The node of a key stands where the list has the key. */
    lemma Find(key: K)
      requires Valid()
      ensures key in key2Node <==> Has(Contents(), key)
      ensures var i := IndexOf(Contents(), key); i < |nodes| ==> key2Node[key] == nodes[i]
      ensures DistinctKeys(Contents())
    {
      MapFinds(nodes, key2Node, key);
    }

    method Check(key: K) returns (v: Option<V>)
      requires Valid()
      ensures var i := IndexOf(Contents(), key);
        v == if i < |Contents()| then Some(Contents()[i].value) else None
    {
      Find(key);
      if cacheHead == null {
        return None;
      }
      if key in key2Node {
        return Some(key2Node[key].value);
      }
      return None;
    }

    /** A hit becomes the most recent entry; its time stays. */
    method Get(key: K) returns (v: Option<V>)
      requires Valid()
      modifies `cacheHead, `cacheTail, `nodes, (set n | n in nodes)`preNode, (set n | n in nodes)`nextNode
      ensures Valid()
      ensures var s := old(Contents()); var i := IndexOf(s, key);
        if i < |s| then v == Some(s[i].value) && Contents() == [s[i]] + s[..i] + s[i + 1..]
        else v == None && Contents() == s
    {
      hide Valid, Entries, IndexOf;
      Find(key);
      CountIs();
      if cacheHead == null {
        return None;
      }
      if key !in key2Node {
        return None;
      }
      ghost var i := IndexOf(Contents(), key);
      var node := key2Node[key];
      MoveFront(node, i);
      HeadIs();
      v := Some(cacheHead.value);
    }

    lemma HeadIs()
      requires Valid()
      ensures nodes != [] ==> cacheHead == nodes[0]
    {
    }

    /** The link changes of Remove. */
    method Unlink(node: Node<K, V>, ghost i: nat)
      requires Distinct(nodes) && Linked(nodes) && i < |nodes| && nodes[i] == node
      requires cacheHead == At(nodes, 0) && cacheTail == At(nodes, |nodes| - 1)
      modifies `cacheHead, `cacheTail, (set n | n in nodes)`preNode, (set n | n in nodes)`nextNode
      ensures CutLinks(nodes, i)
      ensures cacheHead == At(nodes, if i == 0 then 1 else 0)
      ensures cacheTail == At(nodes, if i == |nodes| - 1 then |nodes| - 2 else |nodes| - 1)
    {
      hide Distinct, Linked, CutLinks;
      EndsAt(nodes, i);
      if node == cacheHead {
        cacheHead := node.nextNode;
      }
      if node == cacheTail {
        cacheTail := node.preNode;
      }
      UnlinkNeighbours(node, i);
    }

    /** The two writes are to different nodes, so their order does not matter. */
    method UnlinkNeighbours(node: Node<K, V>, ghost i: nat)
      requires Distinct(nodes) && Linked(nodes) && i < |nodes| && nodes[i] == node
      modifies (set n | n in nodes)`preNode, (set n | n in nodes)`nextNode
      ensures CutLinks(nodes, i)
    {
      hide Distinct, At;
      AtFacts(nodes, i - 1);
      AtFacts(nodes, i + 1);
      if i > 0 { DistinctAt(nodes, i - 1); }
      if i + 1 < |nodes| { DistinctAt(nodes, i + 1); }
      assert node.nextNode == At(nodes, i + 1) && node.preNode == At(nodes, i - 1);
      if node.nextNode != null {
        node.nextNode.preNode := node.preNode;
      }
      if node.preNode != null {
        node.preNode.nextNode := node.nextNode;
      }
    }

    /** Removes a key, if it is there. */
    method Remove(key: K) returns (v: Option<V>)
      requires Valid()
      modifies `cacheHead, `cacheTail, `nodes, `key2Node, `count,
        (set n | n in nodes)`preNode, (set n | n in nodes)`nextNode
      ensures Valid() && forall n :: n in nodes ==> n in old(nodes)
      ensures var s := old(Contents()); var i := IndexOf(s, key);
        v == (if i < |s| then Some(s[i].value) else None) && Contents() == RemoveKey(s, key)
    {
      hide Distinct, Linked, Mapped, Entries, IndexOf, DistinctKeys, RemoveKey, Cut, CutLinks;
      Find(key);
      NotFound(Contents(), key);
      if cacheHead == null {
        return None;
      }
      if key !in key2Node {
        return None;
      }
      ghost var i, before := IndexOf(Contents(), key), nodes;
      var node := key2Node[key];
      CutFacts(before, i);
      CutContents(before, i, key2Node, key);
      Unlink(node, i);
      CutLinked(before, i);
      key2Node := key2Node - {key};
      count := count - 1;
      nodes := Cut(before, i);
      v := Some(node.value);
    }

    /** Drops the last node of at least two. */
    method EvictLast() returns (e: Entry<K, V>)
      requires Valid() && |nodes| >= 2
      modifies `cacheTail, `nodes, `key2Node, `count, (set n | n in nodes)`nextNode
      ensures Valid() && nodes == old(nodes)[..|old(nodes)| - 1]
      ensures Contents() == old(Contents())[..|old(nodes)| - 1] && e == old(Contents())[|old(nodes)| - 1]
    {
      hide Distinct, Linked, Mapped, Entries;
      ghost var before := nodes;
      e := Entry(cacheTail.key, cacheTail.value, cacheTail.time);
      LastFacts(before, key2Node);
      key2Node := key2Node - {cacheTail.key};
      DropLast();
      count := count - 1;
      nodes := before[..|before| - 1];
    }

    /** The link changes of EvictLast. */
    method DropLast()
      requires Distinct(nodes) && Linked(nodes) && |nodes| >= 2 && cacheTail == nodes[|nodes| - 1]
      modifies `cacheTail, (set n | n in nodes)`nextNode
      ensures Linked(nodes[..|nodes| - 1]) && cacheTail == nodes[|nodes| - 2]
    {
      hide Distinct;
      DistinctAt(nodes, |nodes| - 2);
      cacheTail.preNode.nextNode := null;
      cacheTail := cacheTail.preNode;
    }

    /** Evicts least recent nodes until there is room for one more.  With room for only one node in
        all, the last one has no predecessor to become the tail, and the loop breaks down. */
    method MakeRoom() returns (ok: bool, evicted: seq<Entry<K, V>>)
      requires Valid() && maxSize >= 1 && |nodes| > 0 && (maxSize == 1 ==> |nodes| > 1)
      modifies `cacheTail, `nodes, `key2Node, `count, (set n | n in nodes)`nextNode
      ensures ok <==> maxSize > 1
      ensures ok ==> Valid() && |nodes| > 0 && (forall n :: n in nodes ==> n in old(nodes))
      ensures ok ==> var s := old(Contents()); var m := Kept(|s|, maxSize);
        Contents() == s[..m] && evicted == Reverse(s[m..])
    {
      hide Valid, Entries, Reverse;
      evicted := [];
      ghost var s := Contents();
      ReversedNone(s);
      CountIs();
      while count >= maxSize
        invariant Valid() && count == |nodes| && 0 < |nodes| <= |s| && (|nodes| < |s| ==> |nodes| >= maxSize - 1)
        invariant forall n :: n in nodes ==> n in old(nodes)
        invariant Contents() == s[..|nodes|] && evicted == Reverse(s[|nodes|..])
        decreases |nodes|
      {
        if cacheHead == cacheTail {
          SingleNode();
          return false, evicted;
        }
        ReversedMore(s, |nodes|);
        TwoNodes();
        var e := EvictLast();
        CountIs();
        evicted := evicted + [e];
      }
      ok := true;
    }

    lemma CountIs()
      requires Valid()
      ensures count == |nodes| == |Contents()| && (cacheHead == null <==> nodes == [])
    {
    }

    lemma SingleNode()
      requires Valid() && |nodes| > 0 && cacheHead == cacheTail
      ensures |nodes| == 1
    {
      if |nodes| > 1 {
        DistinctAt(nodes, 0);
      }
    }

    lemma TwoNodes()
      requires Valid() && |nodes| > 0 && cacheHead != cacheTail
      ensures |nodes| >= 2
    {
    }

    /** Stores the first entry. */
    method AddOnly(key: K, value: V, now: int)
      requires Valid() && cacheHead == null && key !in key2Node
      modifies `cacheHead, `cacheTail, `nodes, `key2Node, `count
      ensures Valid() && fresh(nodes) && Contents() == [Entry(key, value, now)]
    {
      NoKeys();
      var node := new Node(key, value, now, null);
      key2Node := key2Node[key := node];
      cacheHead := node;
      cacheTail := cacheHead;
      count := count + 1;
      nodes := [node];
    }

    lemma NoKeys()
      requires Valid() && cacheHead == null
      ensures nodes == [] && key2Node == map[]
    {
      assert nodes == [];
    }

    /** Puts a new key before the others. */
    method AddFront(key: K, value: V, now: int)
      requires Valid() && cacheHead != null && key !in key2Node
      modifies `cacheHead, `nodes, `key2Node, `count, cacheHead`preNode
      ensures Valid() && (forall n :: n in nodes ==> n in old(nodes) || fresh(n))
      ensures Contents() == [Entry(key, value, now)] + old(Contents())
    {
      hide Valid, Entries;
      var node := new Node(key, value, now, cacheHead);
      Prepend(node);
    }

    /** Makes a new node, which already leads to the head, the first one. */
    method Prepend(node: Node<K, V>)
      requires Valid() && cacheHead != null && node !in nodes && node.key !in key2Node
      requires node.nextNode == cacheHead && node.preNode == null
      modifies `cacheHead, `nodes, `key2Node, `count, cacheHead`preNode
      ensures Valid() && nodes == [node] + old(nodes)
      ensures Contents() == [Entry(node.key, node.value, node.time)] + old(Contents())
    {
      hide Distinct, Linked, Mapped, Entries;
      PrependContents(nodes, node, key2Node);
      LinkFront(node);
      cacheHead, key2Node, count, nodes := node, key2Node[node.key := node], count + 1, [node] + nodes;
    }

    method LinkFront(node: Node<K, V>)
      requires nodes != [] && Linked(nodes) && Distinct(nodes) && node !in nodes && cacheHead == nodes[0]
      requires node.nextNode == cacheHead && node.preNode == null
      modifies cacheHead`preNode
      ensures Linked([node] + nodes)
    {
      hide Distinct, At;
      ghost var r := [node] + nodes;
      DistinctAt(nodes, 0);
      cacheHead.preNode := node;
      forall j | 0 <= j < |r| ensures r[j].nextNode == At(r, j + 1) && r[j].preNode == At(r, j - 1) {
        AtPrepended(node, nodes, j + 1);
        AtPrepended(node, nodes, j - 1);
        AtFacts(nodes, j);
      }
    }

    /** With room for one node only, it is reused for the new key. */
    method ReplaceOnly(key: K, value: V, now: int)
      requires Valid() && |nodes| == 1 && key !in key2Node
      modifies `key2Node, (set n | n in nodes)`key, (set n | n in nodes)`value, (set n | n in nodes)`time
      ensures Valid() && Contents() == [Entry(key, value, now)]
    {
      OneKey();
      key2Node := key2Node - {cacheHead.key};
      cacheHead.key := key;
      cacheHead.value := value;
      cacheHead.time := now;
      key2Node := key2Node[key := cacheHead];
    }

    lemma OneKey()
      requires Valid() && |nodes| == 1
      ensures key2Node - {nodes[0].key} == map[] && cacheHead == nodes[0]
    {
    }

    /** A hit takes the new value and moves to the front; its time stays. */
    method Hit(key: K, value: V)
      requires Valid() && key in key2Node
      modifies `cacheHead, `cacheTail, `nodes, (set n | n in nodes)`preNode, (set n | n in nodes)`nextNode,
        (set n | n in nodes)`value
      ensures Valid()
      ensures forall n :: n in nodes ==> n in old(nodes)
      ensures var s := old(Contents()); var i := IndexOf(s, key);
        i < |s| && Contents() == [Entry(key, value, s[i].time)] + s[..i] + s[i + 1..]
    {
      hide Valid, Entries, IndexOf, ToFront;
      Find(key);
      ghost var i := IndexOf(Contents(), key);
      var node := key2Node[key];
      ChangeValue(node, i, value);
      ghost var t := Contents();
      MoveFront(node, i);
      FrontOf(t, i);
    }

    method ChangeValue(node: Node<K, V>, ghost i: nat, value: V)
      requires Valid() && i < |nodes| && nodes[i] == node
      modifies node`value
      ensures Valid()
      ensures var s := old(Contents()); i < |s| && Contents() == s[i := Entry(s[i].key, value, s[i].time)]
    {
      hide Distinct, Linked, Mapped, Entries;
      ghost var s := Contents();
      DistinctAt(nodes, i);
      node.value := value;
      ValueContents(s, nodes, i, value);
    }

    /** Moves a node to the front of the recency list. */
    method MoveFront(node: Node<K, V>, ghost i: nat)
      requires Valid() && i < |nodes| && nodes[i] == node
      modifies `cacheHead, `cacheTail, `nodes, (set n | n in nodes)`preNode, (set n | n in nodes)`nextNode
      ensures Valid() && (forall n :: n in nodes ==> n in old(nodes)) && nodes != [] && nodes[0] == node
      ensures var s := old(Contents()); i < |s| && Contents() == ToFront(s, i)
    {
      hide Distinct, Linked, Mapped, Fronted, Entries, ToFront;
      ghost var before := nodes;
      PushFront(node, i);
      FrontedSame(before, i);
      FrontedAt(before, i, 0);
      FrontedContents(before, i, key2Node);
    }

    /** Sets a key.  Evicted entries are reported in the order their callbacks run; the call breaks
        down exactly when a new key meets a limit of one that more than one entry exceeds. */
    method Set(key: K, value: V, bForce: bool, now: int) returns (r: SetResult<K, V>)
      requires Valid()
      modifies this, (set n | n in nodes)
      ensures old(maxSize) < 1 ==>
        r == Done([]) && Valid() && Contents() == old(Contents()) && maxSize == old(maxSize)
      ensures old(maxSize) >= 1 ==>
        && maxSize == (if bForce then old(maxSize) + 1 else old(maxSize))
        && var s := old(Contents());
        && (r == Broken <==> !Has(s, key) && maxSize == 1 && |s| > 1)
        && (r != Broken ==> Valid() && r == Done(Evicted(s, key, maxSize)) && Contents() == AfterSet(s, key, value, now, maxSize))
      ensures r != Broken ==> forall n :: n in nodes ==> n in old(nodes) || fresh(n)
    {
      hide Valid, Entries, Evicted, AfterSet, Has, Reverse, Kept, IndexOf;
      if maxSize < 1 {
        return Done([]);
      }
      if bForce {
        maxSize := maxSize + 1;
      }
      Find(key);
      CountIs();
      SetSpec(Contents(), key, value, now, maxSize);
      if cacheHead == null {
        NoKeys();
        AddOnly(key, value, now);
        return Done([]);
      }
      if key !in key2Node {
        r := SetNew(key, value, now);
      } else {
        Hit(key, value);
        r := Done([]);
      }
    }

    /** Sets a key that is not there, in a cache that is not empty. */
    method SetNew(key: K, value: V, now: int) returns (r: SetResult<K, V>)
      requires Valid() && cacheHead != null && key !in key2Node && maxSize >= 1
      modifies `cacheHead, `cacheTail, `nodes, `key2Node, `count, (set n | n in nodes)
      ensures var s := old(Contents());
        && (r == Broken <==> maxSize == 1 && |s| > 1)
        && (r != Broken ==> Valid() && r == Done(Evicted(s, key, maxSize)) && Contents() == AfterSet(s, key, value, now, maxSize))
      ensures r != Broken ==> forall n :: n in nodes ==> n in old(nodes) || fresh(n)
    {
      hide Valid, Entries, Evicted, AfterSet, Has, Reverse;
      Find(key);
      CountIs();
      SetSpec(Contents(), key, value, now, maxSize);
      if count == maxSize && cacheHead == cacheTail {
        SingleNode();
        LastEntry();
        var e := Entry(cacheTail.key, cacheTail.value, cacheTail.time);
        ReplaceOnly(key, value, now);
        return Done([e]);
      }
      TwoOrRoom();
      ghost var s := Contents();
      var ok, evicted := MakeRoom();
      if !ok {
        return Broken;
      }
      StillAbsent(s, Kept(|s|, maxSize), key);
      Find(key);
      CountIs();
      HeadIn();
      AddFront(key, value, now);
      return Done(evicted);
    }

    lemma HeadIn()
      requires Valid() && nodes != []
      ensures cacheHead != null && cacheHead in nodes
    {
    }

    lemma LastEntry()
      requires Valid() && |nodes| == 1
      ensures cacheTail != null && Contents() == [Entry(cacheTail.key, cacheTail.value, cacheTail.time)]
      ensures cacheHead == cacheTail
    {
    }

    lemma TwoOrRoom()
      requires Valid() && cacheHead != null && !(count == maxSize && cacheHead == cacheTail)
      ensures |nodes| > 0 && (|nodes| == 1 ==> count != maxSize)
    {
    }

    /** The keys of the expired entries, in whatever order the map yields them. */
    method ExpiredKeys(now: int) returns (rmKeys: seq<K>)
      requires Valid()
      ensures forall i, j :: 0 <= i < j < |rmKeys| ==> rmKeys[i] != rmKeys[j]
      ensures forall k :: k in rmKeys <==> k in key2Node && now - key2Node[k].time > delayTime
    {
      hide Valid;
      rmKeys := [];
      var todo := key2Node.Keys;
      while todo != {}
        invariant todo <= key2Node.Keys
        invariant forall i, j :: 0 <= i < j < |rmKeys| ==> rmKeys[i] != rmKeys[j]
        invariant forall k :: k in rmKeys <==> k in key2Node && k !in todo && now - key2Node[k].time > delayTime
        decreases |todo|
      {
        var key :| key in todo;
        if now - key2Node[key].time > delayTime {
          rmKeys := rmKeys + [key];
        }
        todo := todo - {key};
      }
    }

    lemma KeysAreExpired(rmKeys: seq<K>, now: int)
      requires Valid()
      requires forall k :: k in rmKeys <==> k in key2Node && now - key2Node[k].time > delayTime
      ensures var s := Contents();
        && (forall i :: 0 <= i < |s| ==> (s[i].key in rmKeys <==> now - s[i].time > delayTime))
        && (forall k :: k in rmKeys ==> Has(s, k))
    {
      forall k | k in rmKeys ensures Has(Contents(), k) {
        Find(k);
      }
    }

    /** Removes the expired entries and reports each once; the others keep their order. */
    method TimeoutCheck(now: int) returns (removed: seq<Entry<K, V>>)
      requires Valid()
      modifies this, (set n | n in nodes)
      ensures Valid() && forall n :: n in nodes ==> n in old(nodes)
      ensures Contents() == Fresh(old(Contents()), now, delayTime) && maxSize == old(maxSize)
      ensures delayTime == old(delayTime)
      ensures DistinctKeys(removed)
      ensures forall e :: e in removed <==> e in old(Contents()) && now - e.time > delayTime
    {
      hide Valid, Entries, FilterOut, Fresh, DistinctKeys, Has;
      var rmKeys := ExpiredKeys(now);
      ghost var s := Contents();
      KeysAreExpired(rmKeys, now);
      removed := RemoveAll(rmKeys);
      Listed(s, rmKeys, removed, now, delayTime);
      FilterFresh(s, KeySet(rmKeys), now, delayTime);
    }

    /** Removes different keys that are all there, and reports their entries in the same order. */
    method RemoveAll(rmKeys: seq<K>) returns (removed: seq<Entry<K, V>>)
      requires Valid() && forall k :: k in rmKeys ==> Has(Contents(), k)
      requires forall i, j :: 0 <= i < j < |rmKeys| ==> rmKeys[i] != rmKeys[j]
      modifies `cacheHead, `cacheTail, `nodes, `key2Node, `count, (set n | n in nodes)`preNode, (set n | n in nodes)`nextNode
      ensures Valid() && (forall n :: n in nodes ==> n in old(nodes)) && DistinctKeys(old(Contents()))
      ensures var s := old(Contents());
        && Contents() == FilterOut(s, KeySet(rmKeys))
        && |removed| == |rmKeys|
        && forall j :: 0 <= j < |removed| ==> removed[j] in s && removed[j].key == rmKeys[j]
    {
      hide Valid, Entries, FilterOut, RemoveKey, DistinctKeys, KeySet, Has, Removing;
      ghost var s := Contents();
      AllDistinct();
      removed := [];
      var i := 0;
      ghost var gone := {};
      FilterNone(s);
      RemovingStart(s, rmKeys);
      while i < |rmKeys|
        invariant 0 <= i <= |rmKeys| && Valid() && forall n :: n in nodes ==> n in old(nodes)
        invariant Contents() == FilterOut(s, gone) && Removing(s, rmKeys, i, gone, removed)
      {
        NotGone(s, rmKeys, i, gone, removed);
        StillThere(s, gone, rmKeys[i]);
        FilterMore(s, gone, rmKeys[i]);
        var e := RemoveOne(rmKeys[i]);
        FilterWithin(s, gone, e);
        RemovingNext(s, rmKeys, i, gone, removed, e);
        removed := removed + [e];
        gone := gone + {rmKeys[i]};
        i := i + 1;
      }
      RemovingEnd(s, rmKeys, gone, removed);
    }

    /** Removes a key that is there and reports its entry. */
    method RemoveOne(key: K) returns (e: Entry<K, V>)
      requires Valid() && Has(Contents(), key)
      modifies `cacheHead, `cacheTail, `nodes, `key2Node, `count, (set n | n in nodes)`preNode, (set n | n in nodes)`nextNode
      ensures Valid() && (forall n :: n in nodes ==> n in old(nodes))
      ensures e in old(Contents()) && e.key == key && Contents() == RemoveKey(old(Contents()), key)
    {
      hide Valid, Entries, RemoveKey, DistinctKeys, Has, IndexOf;
      Find(key);
      NodeEntry(key);
      var node := key2Node[key];
      e := Entry(node.key, node.value, node.time);
      var v := Remove(key);
    }

    lemma AllDistinct()
      requires Valid()
      ensures DistinctKeys(Contents())
    {
      if nodes != [] { Find(nodes[0].key); }
    }

    lemma NodeEntry(key: K)
      requires Valid() && key in key2Node
      ensures var n := key2Node[key]; n.key == key && Entry(n.key, n.value, n.time) in Contents()
    {
      var j :| 0 <= j < |nodes| && nodes[j] == key2Node[key];
      assert Contents()[j].key == key;
    }

    /** The only entry of a key. */
    lemma OneEntry(key: K)
      requires Valid() && key in key2Node
      ensures var n := key2Node[key];
        n.key == key && forall e :: e in Contents() && e.key == key <==> e == Entry(n.key, n.value, n.time)
    {
      NodeEntry(key);
      AllDistinct();
    }

    lemma KeysThere()
      requires Valid()
      ensures forall e :: e in Contents() ==> e.key in key2Node
    {
    }

    /** The entries whose callbacks clean schedules, in whatever order the map yields their keys. */
    method CalledBack() returns (called: seq<Entry<K, V>>)
      requires Valid()
      ensures DistinctKeys(called) && forall e :: e in called <==> e in Contents()
    {
      hide Valid, Entries;
      called := [];
      KeysThere();
      var todo := key2Node.Keys;
      while todo != {}
        invariant todo <= key2Node.Keys && DistinctKeys(called)
        invariant forall e :: e in called <==> e in Contents() && e.key !in todo
        decreases |todo|
      {
        var key :| key in todo;
        OneEntry(key);
        var node := key2Node[key];
        called := called + [Entry(node.key, node.value, node.time)];
        todo := todo - {key};
      }
    }

    /** Empties the cache; the callback of every entry is scheduled once. */
    method Clean() returns (called: seq<Entry<K, V>>)
      requires Valid()
      modifies `cacheHead, `cacheTail, `nodes, `key2Node, `count
      ensures Valid() && Contents() == []
      ensures DistinctKeys(called) && forall e :: e in called <==> e in old(Contents())
    {
      hide Distinct, Linked, Mapped, Entries, DistinctKeys;
      called := CalledBack();
      EmptyFacts<K, V>();
      key2Node, cacheHead, cacheTail, count, nodes := map[], null, null, 0, [];
    }
  }

  lemma TwoSets<K, V>(a: K, b: K, c: K, value: V, now: int)
    requires a != b && a != c && b != c
    ensures var s := [Entry(b, value, now), Entry(a, value, now)];
      && AfterSet<K, V>([], a, value, now, 2) == s[1..] && AfterSet(s[1..], b, value, now, 2) == s
      && !Has<K, V>([], a) && !Has(s[1..], b) && !Has(s, c)
  {
  }

  /** Two entries, then a capacity of one: the next new key breaks the cache. */
  method LowerCapacity<K(==), V>(a: K, b: K, c: K, value: V, now: int) returns (r: SetResult<K, V>)
    requires a != b && a != c && b != c
    ensures r == Broken
  {
    hide AfterSet, Has, Evicted, Cache.Valid, Entries;
    TwoSets(a, b, c, value, now);
    var cache := new Cache<K, V>(2, 86400);
    r := cache.Set(a, value, false, now);
    r := cache.Set(b, value, false, now);
    cache.SetMaxSize(1);
    r := cache.Set(c, value, false, now);
  }

  lemma EmptyFacts<K, V>()
    ensures Distinct<Node<K, V>>([]) && Linked<K, V>([]) && Mapped<K, V>([], map[]) && Entries<K, V>([]) == []
  {
  }

  /** The first i keys are gone, and their entries reported. */
  ghost predicate Removing<K, V>(s: seq<Entry<K, V>>, rmKeys: seq<K>, i: nat, gone: set<K>, removed: seq<Entry<K, V>>) {
    && |removed| == i <= |rmKeys| && gone == KeySet(rmKeys[..i])
    && forall j :: 0 <= j < i ==> removed[j] in s && removed[j].key == rmKeys[j]
  }

  lemma RemovingStart<K, V>(s: seq<Entry<K, V>>, rmKeys: seq<K>)
    ensures Removing(s, rmKeys, 0, {}, [])
  {
  }

  lemma NotGone<K, V>(s: seq<Entry<K, V>>, rmKeys: seq<K>, i: nat, gone: set<K>, removed: seq<Entry<K, V>>)
    requires Removing(s, rmKeys, i, gone, removed) && i < |rmKeys|
    requires forall i, j :: 0 <= i < j < |rmKeys| ==> rmKeys[i] != rmKeys[j]
    ensures rmKeys[i] !in gone
  {
  }

  lemma RemovingNext<K, V>(s: seq<Entry<K, V>>, rmKeys: seq<K>, i: nat, gone: set<K>, removed: seq<Entry<K, V>>, e: Entry<K, V>)
    requires Removing(s, rmKeys, i, gone, removed) && i < |rmKeys| && e in s && e.key == rmKeys[i]
    ensures Removing(s, rmKeys, i + 1, gone + {rmKeys[i]}, removed + [e])
  {
    assert rmKeys[..i + 1] == rmKeys[..i] + [rmKeys[i]];
  }

  lemma RemovingEnd<K, V>(s: seq<Entry<K, V>>, rmKeys: seq<K>, gone: set<K>, removed: seq<Entry<K, V>>)
    requires Removing(s, rmKeys, |rmKeys|, gone, removed)
    ensures gone == KeySet(rmKeys) && |removed| == |rmKeys|
    ensures forall j :: 0 <= j < |removed| ==> removed[j] in s && removed[j].key == rmKeys[j]
  {
    assert rmKeys[..|rmKeys|] == rmKeys;
  }

  /** A key that is still to be removed is still there. */
  lemma StillThere<K, V>(s: seq<Entry<K, V>>, gone: set<K>, key: K)
    requires key !in gone && Has(s, key)
    ensures Has(FilterOut(s, gone), key)
  {
    var i := IndexOf(s, key);
    FilterKeeps(s, gone, i);
    var f := FilterOut(s, gone);
    var j :| 0 <= j < |f| && f[j] == s[i];
    assert f[j].key == key;
  }

  lemma Listed<K, V>(s: seq<Entry<K, V>>, rmKeys: seq<K>, removed: seq<Entry<K, V>>, now: int, delayTime: int)
    requires DistinctKeys(s) && |removed| == |rmKeys|
    requires forall i :: 0 <= i < |s| ==> (s[i].key in rmKeys <==> now - s[i].time > delayTime)
    requires forall i, j :: 0 <= i < j < |rmKeys| ==> rmKeys[i] != rmKeys[j]
    requires forall j :: 0 <= j < |removed| ==> removed[j] in s && removed[j].key == rmKeys[j]
    ensures DistinctKeys(removed)
    ensures forall e :: e in removed <==> e in s && now - e.time > delayTime
  {
    forall e | e in removed ensures e in s && now - e.time > delayTime {
      var j :| 0 <= j < |removed| && removed[j] == e;
      var i :| 0 <= i < |s| && s[i] == e;
      assert s[i].key in rmKeys;
    }
    forall e | e in s && now - e.time > delayTime ensures e in removed {
      var i :| 0 <= i < |s| && s[i] == e;
      var j :| 0 <= j < |rmKeys| && rmKeys[j] == e.key;
      var i' :| 0 <= i' < |s| && s[i'] == removed[j];
    }
  }

  datatype SetResult<K, V> = Done(evicted: seq<Entry<K, V>>) | Broken

  lemma StillAbsent<K, V>(s: seq<Entry<K, V>>, m: nat, key: K)
    requires !Has(s, key) && m <= |s|
    ensures !Has(s[..m], key)
  {
    assert forall j :: 0 <= j < m ==> s[..m][j].key == s[j].key;
  }

  /** Changing one value changes one entry. */
  lemma ValueContents<K, V>(s: seq<Entry<K, V>>, nodes: seq<Node<K, V>>, i: nat, value: V)
    requires |s| == |nodes| && i < |nodes| && nodes[i].value == value
    requires forall p :: 0 <= p < |nodes| ==>
      s[p].key == nodes[p].key && s[p].time == nodes[p].time && (p != i ==> s[p].value == nodes[p].value)
    ensures Entries(nodes) == s[i := Entry(s[i].key, value, s[i].time)]
  {
    hide Entries;
  }

  lemma PrependContents<K, V>(b: seq<Node<K, V>>, node: Node<K, V>, key2Node: map<K, Node<K, V>>)
    requires Distinct(b) && Mapped(b, key2Node) && node !in b && node.key !in key2Node
    ensures Distinct([node] + b) && Mapped([node] + b, key2Node[node.key := node])
    ensures Entries([node] + b) == [Entry(node.key, node.value, node.time)] + Entries(b)
  {
    hide Entries;
    var r, m := [node] + b, key2Node[node.key := node];
    forall k | k in m ensures m[k] in r && m[k].key == k {
      if k != node.key {
        var j :| 0 <= j < |b| && b[j] == key2Node[k];
        assert r[j + 1] == b[j];
      } else {
        assert r[0] == node;
      }
    }
  }

  lemma ReversedNone<K, V>(s: seq<Entry<K, V>>)
    ensures Reverse(s[|s|..]) == [] && s[..|s|] == s
  {
  }

  lemma ReversedMore<K, V>(s: seq<Entry<K, V>>, m: nat)
    requires 0 < m <= |s|
    ensures Reverse(s[m - 1..]) == Reverse(s[m..]) + [s[m - 1]]
    ensures s[..m][..m - 1] == s[..m - 1] && s[..m][m - 1] == s[m - 1]
  {
    assert s[m - 1..][1..] == s[m..];
  }

  lemma NotFound<K, V>(s: seq<Entry<K, V>>, key: K)
    ensures IndexOf(s, key) == |s| ==> RemoveKey(s, key) == s
  {
    if IndexOf(s, key) == |s| {
      RemoveAbsent(s, key);
    }
  }

  lemma CutFacts<K, V>(nodes: seq<Node<K, V>>, i: nat)
    requires i < |nodes| && Distinct(nodes)
    ensures Distinct(Cut(nodes, i)) && forall n :: n in Cut(nodes, i) ==> n in nodes
    ensures At(Cut(nodes, i), 0) == At(nodes, if i == 0 then 1 else 0)
    ensures At(Cut(nodes, i), |nodes| - 2) == At(nodes, if i == |nodes| - 1 then |nodes| - 2 else |nodes| - 1)
  {
    forall j | 0 <= j < |nodes| - 1 ensures Cut(nodes, i)[j] == nodes[if j < i then j else j + 1] {
      CutAt(nodes, i, j);
    }
    hide Cut;
  }

  /** The links as Remove leaves them, in terms of the old list; the removed node's do not matter. */
  ghost predicate CutLinks<K, V>(b: seq<Node<K, V>>, i: nat)
    requires i < |b|
    reads (set n | n in b)`preNode, (set n | n in b)`nextNode
  {
    forall j :: 0 <= j < |b| && j != i ==>
      && b[j].nextNode == (if j == i - 1 then At(b, i + 1) else At(b, j + 1))
      && b[j].preNode == (if j == i + 1 then At(b, i - 1) else At(b, j - 1))
  }

  lemma AtCut<K, V>(b: seq<Node<K, V>>, i: nat, q: int)
    requires i < |b|
    ensures At(Cut(b, i), q) == At(b, if q < i then q else q + 1)
  {
    if 0 <= q < |b| - 1 { CutAt(b, i, q); }
  }

  lemma CutLinked<K, V>(b: seq<Node<K, V>>, i: nat)
    requires i < |b| && CutLinks(b, i)
    ensures Linked(Cut(b, i))
  {
    hide Cut, At;
    var r := Cut(b, i);
    forall j | 0 <= j < |r| ensures r[j].nextNode == At(r, j + 1) && r[j].preNode == At(r, j - 1) {
      CutAt(b, i, j);
      AtCut(b, i, j + 1);
      AtCut(b, i, j - 1);
    }
  }

  lemma CutEntries<K, V>(b: seq<Node<K, V>>, i: nat, key: K)
    requires i < |b| && DistinctKeys(Entries(b)) && b[i].key == key
    ensures Entries(Cut(b, i)) == RemoveKey(Entries(b), key)
  {
    hide Entries, Cut, RemoveKey, DistinctKeys;
    RemoveAt(Entries(b), i);
    EntriesCut(b, i);
    CutIs(Entries(b), i);
  }

  lemma EntriesCut<K, V>(b: seq<Node<K, V>>, i: nat)
    requires i < |b|
    ensures Entries(Cut(b, i)) == Cut(Entries(b), i)
  {
    hide Entries, Cut;
    forall j | 0 <= j < |b| - 1 ensures Entries(Cut(b, i))[j] == Cut(Entries(b), i)[j] {
      CutAt(b, i, j);
      CutAt(Entries(b), i, j);
    }
  }

  lemma CutIs<T>(s: seq<T>, i: nat)
    requires i < |s|
    ensures Cut(s, i) == s[..i] + s[i + 1..]
  {
  }

  lemma CutMapped<K, V>(b: seq<Node<K, V>>, i: nat, key2Node: map<K, Node<K, V>>, key: K)
    requires i < |b| && Mapped(b, key2Node) && DistinctKeys(Entries(b)) && b[i].key == key
    ensures Mapped(Cut(b, i), key2Node - {key})
  {
    hide Entries, Cut;
    var r, m := Cut(b, i), key2Node - {key};
    forall j | 0 <= j < |r| ensures r[j].key in m && m[r[j].key] == r[j] {
      CutAt(b, i, j);
      var q := if j < i then j else j + 1;
      assert Entries(b)[i].key == key && Entries(b)[q].key == b[q].key;
    }
    forall k | k in m ensures m[k] in r && m[k].key == k {
      var j :| 0 <= j < |b| && b[j] == key2Node[k];
      CutAt(b, i, if j < i then j else j - 1);
    }
  }

  lemma CutContents<K, V>(b: seq<Node<K, V>>, i: nat, key2Node: map<K, Node<K, V>>, key: K)
    requires i < |b| && Mapped(b, key2Node) && Distinct(b) && b[i].key == key
    ensures Mapped(Cut(b, i), key2Node - {key})
    ensures Entries(Cut(b, i)) == RemoveKey(Entries(b), key)
  {
    hide Entries, Cut, RemoveKey, Distinct, Mapped, DistinctKeys;
    MapFinds(b, key2Node, key);
    CutEntries(b, i, key);
    CutMapped(b, i, key2Node, key);
  }

  lemma LastFacts<K, V>(b: seq<Node<K, V>>, key2Node: map<K, Node<K, V>>)
    requires |b| >= 2 && Distinct(b) && Mapped(b, key2Node)
    ensures var r := b[..|b| - 1]; var key := b[|b| - 1].key;
      && Distinct(r) && Mapped(r, key2Node - {key})
      && Entries(r) == Entries(b)[..|b| - 1]
  {
    var r, key := b[..|b| - 1], b[|b| - 1].key;
    MapFinds(b, key2Node, key);
    var m := key2Node - {key};
    hide Entries;
    forall j | 0 <= j < |r| ensures r[j].key in m && m[r[j].key] == r[j] {
      assert b[j].key in key2Node;
      assert Entries(b)[j].key != Entries(b)[|b| - 1].key;
    }
    forall k | k in m ensures m[k] in r && m[k].key == k {
      var j :| 0 <= j < |b| && b[j] == key2Node[k];
      assert r[j] == b[j];
    }
  }

  lemma MapFinds<K, V>(nodes: seq<Node<K, V>>, key2Node: map<K, Node<K, V>>, key: K)
    requires Mapped(nodes, key2Node) && Distinct(nodes)
    ensures key in key2Node <==> Has(Entries(nodes), key)
    ensures var i := IndexOf(Entries(nodes), key); i < |nodes| ==> key in key2Node && key2Node[key] == nodes[i]
    ensures DistinctKeys(Entries(nodes))
  {
    hide Entries, IndexOf;
    var s := Entries(nodes);
    var i := IndexOf(s, key);
    if i < |s| {
      assert nodes[i].key == key;
    }
    if key in key2Node {
      var j :| 0 <= j < |nodes| && nodes[j] == key2Node[key];
      assert s[j].key == key;
    }
    forall i, j | 0 <= i < j < |s| ensures s[i].key != s[j].key {
      assert key2Node[nodes[i].key] == nodes[i];
      assert key2Node[nodes[j].key] == nodes[j];
    }
  }

  lemma FrontOf<K, V>(t: seq<Entry<K, V>>, i: nat)
    requires i < |t|
    ensures forall e :: ToFront(t[i := e], i) == [e] + t[..i] + t[i + 1..]
    ensures ToFront(t, i) == [t[i]] + t[..i] + t[i + 1..]
  {
  }

  lemma FrontedContents<K, V>(b: seq<Node<K, V>>, i: nat, key2Node: map<K, Node<K, V>>)
    requires i < |b| && Mapped(b, key2Node)
    ensures Mapped(Fronted(b, i), key2Node)
    ensures Entries(Fronted(b, i)) == ToFront(Entries(b), i)
  {
    hide Entries, Fronted, Mapped, ToFront;
    FrontedMapped(b, i, key2Node);
    EntriesFronted(b, i);
  }

  lemma FrontedMapped<K, V>(b: seq<Node<K, V>>, i: nat, key2Node: map<K, Node<K, V>>)
    requires i < |b| && Mapped(b, key2Node)
    ensures Mapped(Fronted(b, i), key2Node)
  {
    hide Fronted;
    var r := Fronted(b, i);
    FrontedSame(b, i);
    forall j | 0 <= j < |r| ensures r[j].key in key2Node && key2Node[r[j].key] == r[j] {
      FrontedAt(b, i, j);
    }
  }

  lemma EntriesFronted<K, V>(b: seq<Node<K, V>>, i: nat)
    requires i < |b|
    ensures Entries(Fronted(b, i)) == ToFront(Entries(b), i)
  {
    hide Entries, Fronted, ToFront;
    ToFrontAt(Entries(b), i, 0);
    forall j | 0 <= j < |b| ensures Entries(Fronted(b, i))[j] == ToFront(Entries(b), i)[j] {
      FrontedAt(b, i, j);
      ToFrontAt(Entries(b), i, j);
    }
  }

  lemma ToFrontAt<K, V>(s: seq<Entry<K, V>>, i: nat, j: nat)
    requires i < |s| && j < |s|
    ensures |ToFront(s, i)| == |s| && ToFront(s, i)[j] == s[if j == 0 then i else if j <= i then j - 1 else j]
  {
  }

  lemma AtPrepended<K, V>(node: Node<K, V>, b: seq<Node<K, V>>, i: int)
    ensures At([node] + b, i) == if i == 0 then node else At(b, i - 1)
    ensures i < 0 ==> At([node] + b, i) == null
  {
  }

  lemma AtFacts<K, V>(nodes: seq<Node<K, V>>, i: int)
    ensures At(nodes, i) != null <==> 0 <= i < |nodes|
    ensures 0 <= i < |nodes| ==> At(nodes, i) == nodes[i]
  {
  }

  /** A node is the first, or the last, just if it stands there. */
  lemma EndsAt<K, V>(nodes: seq<Node<K, V>>, i: nat)
    requires Distinct(nodes) && Linked(nodes) && i < |nodes|
    ensures nodes[i] == nodes[0] <==> i == 0
    ensures nodes[i] == nodes[|nodes| - 1] <==> i == |nodes| - 1
    ensures nodes[i].preNode == At(nodes, i - 1) && nodes[i].nextNode == At(nodes, i + 1)
  {
    DistinctAt(nodes, i);
  }

  /** The node at position i comes first. */
  function Fronted<K, V>(nodes: seq<Node<K, V>>, i: nat): (r: seq<Node<K, V>>)
    requires i < |nodes|
    ensures |r| == |nodes|
  {
    [nodes[i]] + nodes[..i] + nodes[i + 1..]
  }

  lemma FrontedAt<K, V>(nodes: seq<Node<K, V>>, i: nat, j: nat)
    requires i < |nodes| && j < |nodes|
    ensures Fronted(nodes, i)[j] == nodes[if j == 0 then i else if j <= i then j - 1 else j]
  {
  }

  lemma FrontedFacts<K, V>(nodes: seq<Node<K, V>>, i: nat)
    requires i < |nodes| && Distinct(nodes)
    ensures Distinct(Fronted(nodes, i))
    ensures Fronted(nodes, i)[0] == nodes[i]
    ensures Fronted(nodes, i)[|nodes| - 1] == if i == |nodes| - 1 && i > 0 then nodes[i - 1] else nodes[|nodes| - 1]
    ensures i == 0 ==> Fronted(nodes, i) == nodes
  {
    var r := Fronted(nodes, i);
    forall j | 0 <= j < |nodes| ensures r[j] == nodes[if j == 0 then i else if j <= i then j - 1 else j] {
      FrontedAt(nodes, i, j);
    }
    hide Fronted;
  }

  lemma FrontedSame<K, V>(nodes: seq<Node<K, V>>, i: nat)
    requires i < |nodes|
    ensures forall n :: n in Fronted(nodes, i) <==> n in nodes
  {
    var r := Fronted(nodes, i);
    forall j | 0 <= j < |nodes| ensures nodes[j] in r && r[j] in nodes {
      assert r[if j == i then 0 else if j < i then j + 1 else j] == nodes[j];
    }
  }

  /** The links as PushFront leaves them, in terms of the old list. */
  ghost predicate FrontLinks<K, V>(b: seq<Node<K, V>>, i: nat)
    requires 0 < i < |b|
    reads (set n | n in b)`preNode, (set n | n in b)`nextNode
  {
    forall j :: 0 <= j < |b| ==>
      && b[j].nextNode == (if j == i then b[0] else if j == i - 1 then At(b, i + 1) else At(b, j + 1))
      && b[j].preNode == (if j == i then null else if j == i + 1 then b[i - 1] else if j == 0 then b[i] else At(b, j - 1))
  }

  lemma FrontedLinked<K, V>(b: seq<Node<K, V>>, i: nat)
    requires 0 < i < |b| && FrontLinks(b, i)
    ensures Linked(Fronted(b, i))
  {
    var r := Fronted(b, i);
    hide Fronted;
    forall j | 0 <= j < |r| ensures r[j].nextNode == At(r, j + 1) && r[j].preNode == At(r, j - 1) {
      FrontedAt(b, i, j);
      if j + 1 < |r| { FrontedAt(b, i, j + 1); }
      if j > 0 { FrontedAt(b, i, j - 1); }
    }
  }
}
