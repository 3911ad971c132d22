/** The hash table: bucket chains and the application-order list over the same handles. */
module HashTable {
  import opened Bits
  import opened Serial
  import opened Sequences
  import opened HashOrder
  import opened HashSort

  const HASH_INITIAL_NUM_BUCKETS := 32
  const HASH_INITIAL_NUM_BUCKETS_LOG2 := 5
  const HASH_BKT_CAPACITY_THRESH := 10

  datatype Bucket = Bucket(hh_head: Handle?, count: nat, expand_mult: nat)

  /** The bucket of a hash value: with a power of two its remainder (Bits.MaskIsRemainder). */
  function ToBkt(hashv: u32, n: nat): (b: nat)
    requires n > 0
    ensures b < n
  {
    BitAnd(hashv, n - 1)
  }

  // ---------------------------------------------------------------- chains

  /** A bucket chain, linked both ways. */
  ghost predicate HList(c: seq<Handle>)
    reads Nodes(c)`hh_next, Nodes(c)`hh_prev
  {
    && Distinct(c)
    && (forall i :: 0 <= i < |c| ==> c[i].hh_next == At(c, i + 1))
    && (forall i :: 0 <= i < |c| ==> c[i].hh_prev == At(c, i - 1))
  }

  /** Every chain is linked, and holds only nodes of u. */
  ghost predicate Chained(u: set<Handle>, chains: seq<seq<Handle>>)
    reads u`hh_next, u`hh_prev
  {
    forall b :: 0 <= b < |chains| ==> Nodes(chains[b]) <= u && HList(chains[b])
  }

  /** Every node stands in the bucket its hash value selects. */
  ghost predicate Placed(chains: seq<seq<Handle>>) {
    forall b, x :: 0 <= b < |chains| && x in chains[b] ==> ToBkt(x.hashv, |chains|) == b
  }

  /** Every node of u stands in its bucket. */
  ghost predicate Complete(u: set<Handle>, chains: seq<seq<Handle>>)
    requires |chains| > 0
  {
    forall x :: x in u ==> x in chains[ToBkt(x.hashv, |chains|)]
  }

  /** The buckets know the head and the length of their chains. */
  ghost predicate Heads(buckets: array<Bucket>, chains: seq<seq<Handle>>)
    reads buckets
  {
    && buckets.Length == |chains|
    && forall b :: 0 <= b < |chains| ==> buckets[b].hh_head == At(chains[b], 0) && buckets[b].count == |chains[b]|
  }

  /** The number of nodes in all chains. */
  function Total(chains: seq<seq<Handle>>): nat {
    if chains == [] then 0 else Total(chains[..|chains| - 1]) + |chains[|chains| - 1]|
  }

  lemma {:induction false} TotalUpdate(chains: seq<seq<Handle>>, b: nat, c: seq<Handle>)
    requires b < |chains|
    ensures Total(chains[b := c]) == Total(chains) - |chains[b]| + |c|
  {
    var n := |chains| - 1;
    if b == n {
      assert chains[b := c][..n] == chains[..n];
    } else {
      TotalUpdate(chains[..n], b, c);
      assert chains[b := c][..n] == chains[..n][b := c];
    }
  }

  function Over(n: nat, ideal: nat): nat {
    if n > ideal then n - ideal else 0
  }

  /** By how much the chains exceed an ideal length, all together. */
  function Excess(chains: seq<seq<Handle>>, ideal: nat): nat {
    if chains == [] then 0 else Excess(chains[..|chains| - 1], ideal) + Over(|chains[|chains| - 1]|, ideal)
  }

  lemma {:induction false} ExcessUpdate(chains: seq<seq<Handle>>, b: nat, c: seq<Handle>, ideal: nat)
    requires b < |chains|
    ensures Excess(chains[b := c], ideal) == Excess(chains, ideal) - Over(|chains[b]|, ideal) + Over(|c|, ideal)
  {
    var n := |chains| - 1;
    if b == n {
      assert chains[b := c][..n] == chains[..n];
    } else {
      ExcessUpdate(chains[..n], b, c, ideal);
      assert chains[b := c][..n] == chains[..n][b := c];
    }
  }

  // ---------------------------------------------------------------- linking into a chain

  lemma PrependChain(c: seq<Handle>, e: Handle)
    requires Distinct(c) && e !in c
    ensures Distinct([e] + c) && Nodes([e] + c) == Nodes(c) + {e}
    ensures At([e] + c, 0) == e && |[e] + c| == |c| + 1
  {
    forall n | n in Nodes(c) ensures n in [e] + c {
      var i :| 0 <= i < |c| && c[i] == n;
      assert ([e] + c)[i + 1] == n;
    }
    assert ([e] + c)[0] == e;
  }

  /** Puts a node before a chain. */
  method LinkFirst(e: Handle, first: Handle?, ghost c: seq<Handle>)
    requires HList(c) && e !in c && first == At(c, 0)
    modifies e`hh_next, e`hh_prev, (if first == null then {} else {first})`hh_prev
    ensures HList([e] + c)
  {
    PrependChain(c, e);
    e.hh_next := first;
    e.hh_prev := null;
    if first != null {
      first.hh_prev := e;
    }
  }

  // ---------------------------------------------------------------- taking a node out

  lemma AtCut(s: seq<Handle>, i: nat, q: int)
    requires i < |s|
    ensures At(Cut(s, i), q) == At(s, if q < i then q else q + 1)
  {
    if 0 <= q < |s| - 1 { CutAt(s, i, q); }
  }

  lemma CutNodes(s: seq<Handle>, i: nat)
    requires i < |s| && Distinct(s)
    ensures Distinct(Cut(s, i)) && Nodes(Cut(s, i)) == Nodes(s) - {s[i]}
  {
    var r := Cut(s, i);
    forall j | 0 <= j < |r| ensures r[j] == s[if j < i then j else j + 1] {
      CutAt(s, i, j);
    }
    forall x | x in Nodes(s) && x != s[i] ensures x in r {
      var j :| 0 <= j < |s| && s[j] == x;
      assert r[if j < i then j else j - 1] == x;
    }
    hide Cut;
  }

  lemma AtFacts(s: seq<Handle>, i: int)
    ensures At(s, i) != null <==> 0 <= i < |s|
    ensures 0 <= i < |s| ==> At(s, i) == s[i]
  {
  }

  /** The chain links once node i is out; its own do not matter. */
  ghost predicate HLinksCut(c: seq<Handle>, i: nat)
    requires i < |c|
    reads Nodes(c)`hh_next, Nodes(c)`hh_prev
  {
    forall j :: 0 <= j < |c| && j != i ==>
      && c[j].hh_next == (if j == i - 1 then At(c, i + 1) else At(c, j + 1))
      && c[j].hh_prev == (if j == i + 1 then At(c, i - 1) else At(c, j - 1))
  }

  lemma HListCut(c: seq<Handle>, i: nat)
    requires i < |c| && Distinct(c) && HLinksCut(c, i)
    ensures HList(Cut(c, i))
  {
    hide Cut, At;
    CutNodes(c, i);
    var r := Cut(c, i);
    forall j | 0 <= j < |r| ensures r[j].hh_next == At(r, j + 1) && r[j].hh_prev == At(r, j - 1) {
      CutAt(c, i, j);
      AtCut(c, i, j + 1);
      AtCut(c, i, j - 1);
    }
  }

  /** Takes a node out of its chain; returns the new head. */
  method UnlinkHandle(e: Handle, first: Handle?, ghost c: seq<Handle>, ghost i: nat) returns (head: Handle?)
    requires HList(c) && i < |c| && c[i] == e && first == At(c, 0)
    modifies Nodes(c)`hh_next, Nodes(c)`hh_prev
    ensures HList(Cut(c, i)) && head == At(Cut(c, i), 0)
  {
    hide Distinct, HLinksCut, Cut;
    HandleAt(c, i);
    head := first;
    if head == e {
      head := e.hh_next;
    }
    AtCut(c, i, 0);
    UnlinkLinks(e, c, i);
    HListCut(c, i);
  }

  lemma HandleAt(c: seq<Handle>, i: nat)
    requires HList(c) && i < |c|
    ensures c[i].hh_next == At(c, i + 1) && c[i].hh_prev == At(c, i - 1) && (At(c, 0) == c[i] <==> i == 0)
  {
    DistinctAt(c, i);
  }

  method UnlinkLinks(e: Handle, ghost c: seq<Handle>, ghost i: nat)
    requires HList(c) && i < |c| && c[i] == e
    modifies Nodes(c)`hh_next, Nodes(c)`hh_prev
    ensures HLinksCut(c, i)
  {
    hide Distinct, At;
    AtFacts(c, i - 1);
    AtFacts(c, i + 1);
    if i > 0 { DistinctAt(c, i - 1); }
    if i + 1 < |c| { DistinctAt(c, i + 1); }
    assert e.hh_next == At(c, i + 1) && e.hh_prev == At(c, i - 1);
    if e.hh_prev != null {
      e.hh_prev.hh_next := e.hh_next;
    }
    if e.hh_next != null {
      e.hh_next.hh_prev := e.hh_prev;
    }
  }

  // ---------------------------------------------------------------- distribution, as a function

  /** The chains once a node is put before the chain of its bucket. */
  function Place(chains: seq<seq<Handle>>, e: Handle): (r: seq<seq<Handle>>)
    requires |chains| > 0
    ensures |r| == |chains|
  {
    var b := ToBkt(e.hashv, |chains|);
    chains[b := [e] + chains[b]]
  }

  function PlaceAll(chains: seq<seq<Handle>>, todo: seq<Handle>): (r: seq<seq<Handle>>)
    requires |chains| > 0
    ensures |r| == |chains|
    decreases |todo|
  {
    if todo == [] then chains else PlaceAll(Place(chains, todo[0]), todo[1..])
  }

  function Flat(chains: seq<seq<Handle>>): seq<Handle> {
    if chains == [] then [] else chains[0] + Flat(chains[1..])
  }

  function EmptyChains(n: nat): (r: seq<seq<Handle>>)
    ensures |r| == n && forall b :: 0 <= b < n ==> r[b] == []
  {
    seq(n, _ => [])
  }

  /** No node of todo stands in a chain, or occurs twice. */
  ghost predicate Pending(chains: seq<seq<Handle>>, todo: seq<Handle>) {
    Distinct(todo) && forall b, x :: 0 <= b < |chains| && x in chains[b] ==> x !in todo
  }

  ghost predicate AllDistinct(chains: seq<seq<Handle>>) {
    forall b :: 0 <= b < |chains| ==> Distinct(chains[b])
  }

  lemma PlacePending(chains: seq<seq<Handle>>, todo: seq<Handle>)
    requires |chains| > 0 && todo != [] && Pending(chains, todo) && Placed(chains) && AllDistinct(chains)
    ensures Pending(Place(chains, todo[0]), todo[1..])
    ensures Placed(Place(chains, todo[0])) && AllDistinct(Place(chains, todo[0]))
    ensures forall b :: 0 <= b < |chains| ==> todo[0] !in chains[b]
  {
    var e, r := todo[0], Place(chains, todo[0]);
    var k := ToBkt(e.hashv, |chains|);
    hide Distinct, ToBkt;
    TailNodes(todo);
    assert e in todo;
    PrependChain(chains[k], e);
    forall b, x | 0 <= b < |r| && x in r[b] ensures x !in todo[1..] && ToBkt(x.hashv, |r|) == b {
      if b == k && x !in chains[k] {
        assert x in Nodes([e] + chains[k]);
        assert x == e;
      } else {
        assert x in chains[b];
        assert x in Nodes(todo[1..]) ==> x in Nodes(todo);
      }
    }
  }

  /** Distribution puts every node, old or new, in its bucket, once. */
  lemma {:induction false} PlaceAllFacts(chains: seq<seq<Handle>>, todo: seq<Handle>)
    requires |chains| > 0 && Pending(chains, todo) && Placed(chains) && AllDistinct(chains)
    ensures var r := PlaceAll(chains, todo);
      && Placed(r) && AllDistinct(r)
      && (forall b, x :: 0 <= b < |chains| && x in chains[b] ==> x in r[b])
      && (forall x :: x in todo ==> x in r[ToBkt(x.hashv, |r|)])
      && (forall b, x :: 0 <= b < |r| && x in r[b] ==> x in chains[b] || x in todo)
    decreases |todo|
  {
    if todo != [] {
      var c := Place(chains, todo[0]);
      var r := PlaceAll(c, todo[1..]);
      PlacePending(chains, todo);
      PlaceAllFacts(c, todo[1..]);
      assert Distinct(todo);
      TailNodes(todo);
      hide Distinct, ToBkt, Placed, Pending;
      var k := ToBkt(todo[0].hashv, |chains|);
      forall b, x | 0 <= b < |chains| && x in chains[b] ensures x in r[b] {
        assert x in c[b];
      }
      assert todo[0] in c[k];
      forall x | x in todo ensures x in r[ToBkt(x.hashv, |r|)] {
        if x != todo[0] { assert x in todo[1..]; }
      }
      forall b, x | 0 <= b < |r| && x in r[b] ensures x in chains[b] || x in todo {
        if x in todo[1..] {
          assert x in Nodes(todo[1..]);
          assert x in Nodes(todo);
        } else if x !in chains[b] {
          assert x == todo[0];
        }
      }
    }
  }

  // ---------------------------------------------------------------- linking into the buckets

  lemma ChainAt(u: set<Handle>, chains: seq<seq<Handle>>, buckets: array<Bucket>, b: nat)
    requires Chained(u, chains) && Heads(buckets, chains) && b < |chains|
    ensures HList(chains[b]) && Nodes(chains[b]) <= u && buckets[b].hh_head == At(chains[b], 0)
    ensures buckets[b].count == |chains[b]| && (buckets[b].hh_head != null ==> buckets[b].hh_head in Nodes(chains[b]))
  {
  }

  /** Puts a node before the chain of its bucket, with a new expansion multiplier. */
  method Attach(e: Handle, b: nat, mult: nat, buckets: array<Bucket>, ghost u: set<Handle>, ghost chains: seq<seq<Handle>>)
    requires Chained(u, chains) && Heads(buckets, chains) && Placed(chains) && |chains| > 0
    requires e in u && b == ToBkt(e.hashv, |chains|) && forall d :: 0 <= d < |chains| ==> e !in chains[d]
    modifies buckets, e`hh_next, u`hh_prev
    ensures Chained(u, Place(chains, e)) && Heads(buckets, Place(chains, e))
    ensures forall d :: 0 <= d < |chains| ==> buckets[d].expand_mult == if d == b then mult else old(buckets[d].expand_mult)
  {
    hide HList, ToBkt;
    ChainAt(u, chains, buckets, b);
    var first, count := buckets[b].hh_head, buckets[b].count;
    PrependHead(chains[b], e);
    OthersApart(chains, b, first, e);
    LinkFirst(e, first, chains[b]);
    buckets[b] := Bucket(e, count + 1, mult);
  }

  lemma PrependHead(c: seq<Handle>, e: Handle)
    ensures At([e] + c, 0) == e && |[e] + c| == |c| + 1 && Nodes([e] + c) == Nodes(c) + {e}
  {
    forall n | n in Nodes(c) ensures n in [e] + c {
      var i :| 0 <= i < |c| && c[i] == n;
      assert ([e] + c)[i + 1] == n;
    }
    assert ([e] + c)[0] == e;
  }

  /** The nodes touched in one bucket are in no other chain. */
  lemma OthersApart(chains: seq<seq<Handle>>, b: nat, first: Handle?, e: Handle)
    requires Placed(chains) && b < |chains| && first == At(chains[b], 0)
    requires forall d :: 0 <= d < |chains| ==> e !in chains[d]
    ensures forall d :: 0 <= d < |chains| && d != b ==> e !in Nodes(chains[d]) && (first != null ==> first !in Nodes(chains[d]))
  {
    hide ToBkt;
    if first != null {
      assert first in chains[b];
      var k := ToBkt(first.hashv, |chains|);
      assert k == b;
      forall d | 0 <= d < |chains| && d != b ensures first !in Nodes(chains[d]) {
        assert k != d;
      }
    }
  }

  // ---------------------------------------------------------------- redistributing

  lemma {:induction false} PlaceAllConcat(chains: seq<seq<Handle>>, a: seq<Handle>, b: seq<Handle>)
    requires |chains| > 0
    ensures PlaceAll(chains, a + b) == PlaceAll(PlaceAll(chains, a), b)
    decreases |a|
  {
    hide Place;
    if a == [] {
      assert a + b == b;
    } else {
      assert (a + b)[1..] == a[1..] + b;
      PlaceAllConcat(Place(chains, a[0]), a[1..], b);
    }
  }

  lemma {:induction false} PlaceAllTotal(chains: seq<seq<Handle>>, todo: seq<Handle>)
    requires |chains| > 0
    ensures Total(PlaceAll(chains, todo)) == Total(chains) + |todo|
    decreases |todo|
  {
    if todo != [] {
      var b := ToBkt(todo[0].hashv, |chains|);
      TotalUpdate(chains, b, [todo[0]] + chains[b]);
      PlaceAllTotal(Place(chains, todo[0]), todo[1..]);
    }
  }

  lemma {:induction false} EmptyTotal(n: nat, ideal: nat)
    ensures Total(EmptyChains(n)) == 0 && Excess(EmptyChains(n), ideal) == 0
  {
    if n > 0 {
      EmptyTotal(n - 1, ideal);
      assert EmptyChains(n)[..n - 1] == EmptyChains(n - 1);
    }
  }

  lemma {:induction false} FlatNext(chains: seq<seq<Handle>>, i: nat)
    requires i < |chains|
    ensures Flat(chains[..i + 1]) == Flat(chains[..i]) + chains[i]
    ensures Flat(chains[i..]) == chains[i] + Flat(chains[i + 1..])
  {
    assert chains[i..][1..] == chains[i + 1..];
    if i == 0 {
      assert chains[..1] == [chains[0]];
      assert chains[..1][1..] == [];
      assert chains[..0] == [];
    } else {
      FlatNext(chains[1..], i - 1);
      assert chains[..i + 1][1..] == chains[1..][..i] && chains[..i][1..] == chains[1..][..i - 1];
      assert chains[0] + (Flat(chains[1..][..i - 1]) + chains[i]) == (chains[0] + Flat(chains[1..][..i - 1])) + chains[i];
    }
  }

  lemma {:induction false} FlatTotal(chains: seq<seq<Handle>>)
    ensures |Flat(chains)| == Total(chains)
  {
    if chains != [] {
      var n := |chains| - 1;
      FlatTotal(chains[..n]);
      FlatNext(chains, n);
      assert chains[..n + 1] == chains;
    }
  }

  lemma {:induction false} FlatMembers(chains: seq<seq<Handle>>, x: Handle)
    ensures x in Flat(chains) <==> exists b :: 0 <= b < |chains| && x in chains[b]
  {
    if chains != [] {
      var rest := chains[1..];
      assert Flat(chains) == chains[0] + Flat(rest);
      FlatMembers(rest, x);
      hide Flat;
      if x in chains[0] {
      } else if exists b :: 0 <= b < |rest| && x in rest[b] {
        var b :| 0 <= b < |rest| && x in rest[b];
        assert x in chains[b + 1];
      } else {
        forall b | 0 <= b < |chains| ensures x !in chains[b] {
          assert b > 0 ==> chains[b] == rest[b - 1];
        }
      }
    }
  }

  lemma ConcatDistinct(a: seq<Handle>, b: seq<Handle>)
    requires Distinct(a) && Distinct(b) && forall x :: x in a ==> x !in b
    ensures Distinct(a + b)
  {
    forall i, j | 0 <= i < j < |a + b| ensures (a + b)[i] != (a + b)[j] {
      if i < |a| <= j {
        assert a[i] in a && b[j - |a|] in b;
      }
    }
  }

  /** Different chains have different nodes. */
  ghost predicate ChainsApart(chains: seq<seq<Handle>>) {
    forall b, d, x :: 0 <= b < |chains| && 0 <= d < |chains| && x in chains[b] && x in chains[d] ==> b == d
  }

  lemma {:induction false} FlatDistinct(chains: seq<seq<Handle>>)
    requires AllDistinct(chains) && ChainsApart(chains)
    ensures Distinct(Flat(chains))
  {
    if chains != [] {
      var rest := chains[1..];
      forall b, d, x | 0 <= b < |rest| && 0 <= d < |rest| && x in rest[b] && x in rest[d] ensures b == d {
        assert x in chains[b + 1] && x in chains[d + 1];
      }
      FlatDistinct(rest);
      forall b, x | 0 <= b < |rest| && x in chains[0] ensures x !in rest[b] {
        assert rest[b] == chains[b + 1];
      }
      forall x | x in chains[0] ensures x !in Flat(rest) {
        FlatMembers(rest, x);
      }
      ConcatDistinct(chains[0], Flat(rest));
    }
  }

  lemma PlacedApart(chains: seq<seq<Handle>>)
    requires Placed(chains)
    ensures ChainsApart(chains)
  {
    hide ToBkt;
    forall b, d, x | 0 <= b < |chains| && 0 <= d < |chains| && x in chains[b] && x in chains[d] ensures b == d {
      var k := ToBkt(x.hashv, |chains|);
      assert k == b;
    }
  }

  /** A chain that is only linked forward. */
  ghost predicate HNext(c: seq<Handle>)
    reads Nodes(c)`hh_next
  {
    forall i :: 0 <= i < |c| ==> c[i].hh_next == At(c, i + 1)
  }

  /** Only long chains have an expansion multiplier. */
  ghost predicate Multipliers(buckets: array<Bucket>, chains: seq<seq<Handle>>, ideal: nat)
    requires ideal > 0
    reads buckets
  {
    buckets.Length == |chains|
    && forall b :: 0 <= b < |chains| ==>
         buckets[b].expand_mult == if |chains[b]| > ideal then |chains[b]| / ideal else 0
  }

  /** The new buckets as far as they are filled. */
  ghost predicate Filling(u: set<Handle>, buckets: array<Bucket>, chains: seq<seq<Handle>>, ideal: nat, nonideal: nat, todo: seq<Handle>)
    requires ideal > 0
    reads buckets, u`hh_next, u`hh_prev
  {
    && |chains| > 0 && Chained(u, chains) && Heads(buckets, chains) && Placed(chains) && AllDistinct(chains)
    && Pending(chains, todo) && Nodes(todo) <= u
    && nonideal == Excess(chains, ideal) && Multipliers(buckets, chains, ideal)
  }

  /** Moves the first node still to do into its new bucket. */
  method MoveNode(e: Handle, buckets: array<Bucket>, ideal: nat, nonideal0: nat,
                  ghost u: set<Handle>, ghost chains: seq<seq<Handle>>, ghost todo: seq<Handle>)
    returns (nonideal: nat)
    requires ideal > 0 && Filling(u, buckets, chains, ideal, nonideal0, todo) && todo != [] && todo[0] == e
    modifies buckets, e`hh_next, u`hh_prev
    ensures Filling(u, buckets, Place(chains, e), ideal, nonideal, todo[1..])
  {
    hide Chained, Placed, AllDistinct, Pending, ToBkt, Excess;
    ghost var n := |chains|;
    PlacePending(chains, todo);
    TodoHead(u, todo);
    var b := ToBkt(e.hashv, buckets.Length);
    nonideal := nonideal0;
    var mult := buckets[b].expand_mult;
    var count := buckets[b].count + 1;
    if count > ideal {
      nonideal := nonideal + 1;
      mult := count / ideal;
    }
    ExcessUpdate(chains, b, [e] + chains[b], ideal);
    Attach(e, b, mult, buckets, u, chains);
  }

  lemma TodoHead(u: set<Handle>, todo: seq<Handle>)
    requires todo != [] && Nodes(todo) <= u
    ensures todo[0] in u && Nodes(todo[1..]) <= u
  {
    assert todo[0] in Nodes(todo);
    forall x | x in Nodes(todo[1..]) ensures x in u {
      assert x in Nodes(todo);
    }
  }

  /** Moves a whole old chain. */
  method MoveChain(first: Handle?, buckets: array<Bucket>, ideal: nat, nonideal0: nat, ghost u: set<Handle>,
                   ghost chains0: seq<seq<Handle>>, ghost c: seq<Handle>, ghost later: seq<Handle>)
    returns (nonideal: nat)
    requires ideal > 0 && Filling(u, buckets, chains0, ideal, nonideal0, c + later) && HNext(c) && first == At(c, 0)
    modifies buckets, Nodes(c)`hh_next, u`hh_prev
    ensures |chains0| > 0 && Filling(u, buckets, PlaceAll(chains0, c), ideal, nonideal, later)
  {
    hide Filling, Place, PlaceAll, HNext, Distinct;
    FillingSize(u, buckets, chains0, ideal, nonideal0, c + later);
    var thh := first;
    nonideal := nonideal0;
    ghost var chains, rest := chains0, c;
    while thh != null
      invariant |chains| == |chains0| && Filling(u, buckets, chains, ideal, nonideal, rest + later)
      invariant Distinct(rest) && Nodes(rest) <= Nodes(c) && HNext(rest) && thh == At(rest, 0)
      invariant PlaceAll(chains, rest) == PlaceAll(chains0, c)
      decreases |rest|
    {
      HNextTail(rest);
      PlaceFirst(chains, rest, later);
      var nxt := thh.hh_next;
      ghost var e := thh;
      nonideal := MoveNode(thh, buckets, ideal, nonideal, u, chains, rest + later);
      chains := Place(chains, e);
      rest := rest[1..];
      thh := nxt;
    }
    NoneLeft(chains, rest, later);
  }

  lemma PlaceFirst(chains: seq<seq<Handle>>, rest: seq<Handle>, later: seq<Handle>)
    requires |chains| > 0 && rest != []
    ensures PlaceAll(chains, rest) == PlaceAll(Place(chains, rest[0]), rest[1..])
    ensures (rest + later)[0] == rest[0] && (rest + later)[1..] == rest[1..] + later
  {
    hide Place, PlaceAll;
    PlaceAllFirst(chains, rest);
  }

  lemma PlaceAllFirst(chains: seq<seq<Handle>>, todo: seq<Handle>)
    requires |chains| > 0 && todo != []
    ensures PlaceAll(chains, todo) == PlaceAll(Place(chains, todo[0]), todo[1..])
  {
    hide Place;
  }

  lemma NoneLeft(chains: seq<seq<Handle>>, rest: seq<Handle>, later: seq<Handle>)
    requires |chains| > 0 && At(rest, 0) == null
    ensures PlaceAll(chains, rest) == chains && rest + later == later
  {
  }

  lemma FillingSize(u: set<Handle>, buckets: array<Bucket>, chains: seq<seq<Handle>>, ideal: nat, nonideal: nat, todo: seq<Handle>)
    requires ideal > 0 && Filling(u, buckets, chains, ideal, nonideal, todo)
    ensures |chains| > 0 && |chains| == buckets.Length && Distinct(todo)
    ensures forall c, later :: todo == c + later ==> Distinct(c)
  {
    forall c, later | todo == c + later ensures Distinct(c) {
      assert forall i :: 0 <= i < |c| ==> c[i] == todo[i];
    }
  }

  lemma HNextTail(c: seq<Handle>)
    requires HNext(c) && Distinct(c) && At(c, 0) != null
    ensures c != [] && At(c, 0) == c[0] && c[0].hh_next == At(c[1..], 0) && HNext(c[1..]) && Distinct(c[1..])
    ensures Nodes(c[1..]) <= Nodes(c) && c[0] in Nodes(c) && c[0] !in Nodes(c[1..])
  {
    TailNodes(c);
    forall i | 0 <= i < |c| - 1 ensures c[1..][i].hh_next == At(c[1..], i + 1) {
      assert c[1..][i] == c[i + 1];
    }
  }

  // ---------------------------------------------------------------- all the old buckets

  lemma PlacedFlat(u: set<Handle>, chains: seq<seq<Handle>>)
    requires Chained(u, chains) && Placed(chains)
    ensures Distinct(Flat(chains)) && Nodes(Flat(chains)) <= u && AllDistinct(chains)
    ensures forall b, d :: 0 <= b < d < |chains| ==> Nodes(chains[b]) !! Nodes(chains[d])
    ensures forall b :: 0 <= b < |chains| ==> HNext(chains[b])
  {
    PlacedApart(chains);
    assert AllDistinct(chains);
    FlatDistinct(chains);
    forall x | x in Flat(chains) ensures x in u {
      FlatMembers(chains, x);
      var b :| 0 <= b < |chains| && x in chains[b];
      assert x in Nodes(chains[b]);
    }
  }

  lemma NothingFilled(u: set<Handle>, buckets: array<Bucket>, n: nat, ideal: nat, todo: seq<Handle>)
    requires n > 0 && ideal > 0 && buckets.Length == n && Distinct(todo) && Nodes(todo) <= u
    requires forall b :: 0 <= b < n ==> buckets[b] == Bucket(null, 0, 0)
    ensures Filling(u, buckets, EmptyChains(n), ideal, 0, todo)
  {
    EmptyTotal(n, ideal);
  }

  lemma NextChain(chains: seq<seq<Handle>>, n: nat, i: nat)
    requires n > 0 && i < |chains|
    ensures Flat(chains[i..]) == chains[i] + Flat(chains[i + 1..])
    ensures PlaceAll(PlaceAll(EmptyChains(n), Flat(chains[..i])), chains[i]) == PlaceAll(EmptyChains(n), Flat(chains[..i + 1]))
  {
    hide PlaceAll, Flat, EmptyChains;
    FlatNext(chains, i);
    PlaceAllConcat(EmptyChains(n), Flat(chains[..i]), chains[i]);
  }

  /** Moves all nodes from the old buckets to the new ones. */
  method Redistribute(old_buckets: array<Bucket>, buckets: array<Bucket>, ideal: nat, ghost u: set<Handle>, ghost chains: seq<seq<Handle>>)
    returns (nonideal: nat)
    requires Chained(u, chains) && Heads(old_buckets, chains) && Placed(chains)
    requires ideal > 0 && buckets != old_buckets && buckets.Length > 0
    requires forall b :: 0 <= b < buckets.Length ==> buckets[b] == Bucket(null, 0, 0)
    modifies buckets, u`hh_next, u`hh_prev
    ensures Filling(u, buckets, PlaceAll(EmptyChains(buckets.Length), Flat(chains)), ideal, nonideal, [])
  {
    hide Filling, PlaceAll, Flat, EmptyChains, Chained, Placed, Distinct, AllDistinct, HNext;
    PlacedFlat(u, chains);
    ghost var n := buckets.Length;
    NothingFilled(u, buckets, n, ideal, Flat(chains));
    nonideal := 0;
    var i := 0;
    assert chains[0..] == chains && chains[..0] == [];
    FromNothing(n);
    while i < old_buckets.Length
      invariant i <= old_buckets.Length == |chains|
      invariant Filling(u, buckets, PlaceAll(EmptyChains(n), Flat(chains[..i])), ideal, nonideal, Flat(chains[i..]))
      invariant forall b :: i <= b < |chains| ==> HNext(chains[b])
    {
      NextChain(chains, n, i);
      ChainWithin(u, chains, i);
      nonideal := MoveChain(old_buckets[i].hh_head, buckets, ideal, nonideal, u,
                            PlaceAll(EmptyChains(n), Flat(chains[..i])), chains[i], Flat(chains[i + 1..]));
      i := i + 1;
    }
    assert chains[i..] == [] && chains[..i] == chains;
    FlatNothing();
  }

  lemma FromNothing(n: nat)
    requires n > 0
    ensures PlaceAll(EmptyChains(n), Flat([])) == EmptyChains(n)
  {
  }

  lemma FlatNothing()
    ensures Flat([]) == []
  {
  }

  /** Chains that are done have been relinked, but their nodes are still of u. */
  lemma ChainWithin(u: set<Handle>, chains: seq<seq<Handle>>, i: nat)
    requires i < |chains| && Nodes(Flat(chains)) <= u
    ensures Nodes(chains[i]) <= u
  {
    forall x | x in chains[i] ensures x in u {
      FlatMembers(chains, x);
      assert x in Nodes(Flat(chains));
    }
  }

  /** Once all nodes are moved, the new chains hold what the old ones held. */
  lemma Redistributed(u: set<Handle>, chains: seq<seq<Handle>>, n: nat)
    requires n > 0 && |chains| > 0 && Placed(chains) && Complete(u, chains) && Distinct(Flat(chains))
    ensures var r := PlaceAll(EmptyChains(n), Flat(chains)); |r| == n && Complete(u, r) && Total(r) == Total(chains)
  {
    var todo := Flat(chains);
    var r := PlaceAll(EmptyChains(n), todo);
    PlaceAllFacts(EmptyChains(n), todo);
    PlaceAllTotal(EmptyChains(n), todo);
    EmptyTotal(n, 1);
    FlatTotal(chains);
    forall x | x in u ensures x in r[ToBkt(x.hashv, n)] {
      assert x in chains[ToBkt(x.hashv, |chains|)];
      FlatMembers(chains, x);
    }
  }

  // ---------------------------------------------------------------- the application order

  /** Puts a node at the end of the application list. */
  method AppendList(tail: Handle, add: Handle, ghost s: seq<Handle>)
    requires List(s) && s != [] && tail == s[|s| - 1] && add !in s
    modifies tail`next, add`next, add`prev
    ensures List(s + [add])
  {
    PushNodes(s, add);
    DistinctAt(s, |s| - 1);
    add.next := null;
    add.prev := tail;
    tail.next := add;
  }

  /** The list links once node i is out; its own do not matter. */
  ghost predicate LinksCut(s: seq<Handle>, i: nat)
    requires i < |s|
    reads Nodes(s)`next, Nodes(s)`prev
  {
    forall j :: 0 <= j < |s| && j != i ==>
      && s[j].next == (if j == i - 1 then At(s, i + 1) else At(s, j + 1))
      && s[j].prev == (if j == i + 1 then At(s, i - 1) else At(s, j - 1))
  }

  lemma ListCut(s: seq<Handle>, i: nat)
    requires i < |s| && Distinct(s) && LinksCut(s, i)
    ensures List(Cut(s, i))
  {
    hide Cut, At;
    CutNodes(s, i);
    var r := Cut(s, i);
    forall j | 0 <= j < |r| ensures r[j].next == At(r, j + 1) && r[j].prev == At(r, j - 1) {
      CutAt(s, i, j);
      AtCut(s, i, j + 1);
      AtCut(s, i, j - 1);
    }
  }

  /** Takes a node out of the application list; returns the new ends. */
  method UnlinkOrder(e: Handle, head0: Handle, tail0: Handle, ghost s: seq<Handle>, ghost i: nat)
    returns (head: Handle?, tail: Handle?)
    requires List(s) && |s| > 1 && i < |s| && s[i] == e && head0 == s[0] && tail0 == s[|s| - 1]
    modifies Nodes(s)`next, Nodes(s)`prev
    ensures List(Cut(s, i)) && head == Cut(s, i)[0] && tail == Cut(s, i)[|s| - 2]
  {
    hide Distinct, Cut, LinksCut, At, List;
    OrderEnds(s, i);
    head, tail := head0, tail0;
    if e == tail {
      tail := e.prev;
    }
    if e.prev == null {
      head := e.next;
    }
    CutAt(s, i, 0);
    CutAt(s, i, |s| - 2);
    UnlinkOrderLinks(e, s, i);
    ListCut(s, i);
  }

  lemma OrderEnds(s: seq<Handle>, i: nat)
    requires List(s) && i < |s| && |s| > 1
    ensures s[i] == s[|s| - 1] <==> i == |s| - 1
    ensures i > 0 ==> s[i].prev == s[i - 1]
    ensures s[i].prev == null <==> i == 0
    ensures i + 1 < |s| ==> s[i].next == s[i + 1]
    ensures Distinct(s)
  {
    DistinctAt(s, i);
  }

  method UnlinkOrderLinks(e: Handle, ghost s: seq<Handle>, ghost i: nat)
    requires List(s) && i < |s| && s[i] == e
    modifies Nodes(s)`next, Nodes(s)`prev
    ensures LinksCut(s, i)
  {
    hide Distinct, At;
    AtFacts(s, i - 1);
    AtFacts(s, i + 1);
    if i > 0 { DistinctAt(s, i - 1); }
    if i + 1 < |s| { DistinctAt(s, i + 1); }
    assert e.next == At(s, i + 1) && e.prev == At(s, i - 1);
    if e.prev != null {
      e.prev.next := e.next;
    }
    if e.next != null {
      e.next.prev := e.prev;
    }
  }

  // ---------------------------------------------------------------- the table

  /** The quotient, rounded up, as the code computes it with a shift and a mask. */
  function CeilShift(n: nat, k: nat): nat {
    ShiftRight(n, k) + if BitAnd(n, Power2(k) - 1) != 0 then 1 else 0
  }

  lemma CeilShiftIsCeiling(n: nat, k: nat)
    ensures (CeilShift(n, k) - 1) * Power2(k) < n <= CeilShift(n, k) * Power2(k)
    ensures n > 0 ==> CeilShift(n, k) > 0
  {
    hide Power2, BitAnd, ShiftRight;
    MaskIsRemainder(n, k);
    ShiftIsQuotient(n, k);
    Ceiling(n, Power2(k), CeilShift(n, k));
  }

  lemma Ceiling(n: nat, p: nat, c: nat)
    requires p > 0 && c == n / p + if n % p != 0 then 1 else 0
    ensures (c - 1) * p < n <= c * p && (n > 0 ==> c > 0)
  {
    var q, r := n / p, n % p;
    assert n == q * p + r;
    Around(q, p);
  }

  lemma Around(q: int, p: int)
    ensures (q - 1) * p == q * p - p && (q + 1) * p == q * p + p
  {
  }

  /** A node cut out of its chain is in no chain any more. */
  lemma CutChains(u: set<Handle>, chains: seq<seq<Handle>>, b: nat, k: nat, e: Handle)
    requires |chains| > 0 && Placed(chains) && Complete(u, chains) && AllDistinct(chains)
    requires forall d :: 0 <= d < |chains| ==> Nodes(chains[d]) <= u
    requires b < |chains| && k < |chains[b]| && chains[b][k] == e && b == ToBkt(e.hashv, |chains|)
    ensures var r := chains[b := Cut(chains[b], k)];
      && Placed(r) && Complete(u - {e}, r) && Total(r) == Total(chains) - 1 && AllDistinct(r)
      && forall d :: 0 <= d < |r| ==> Nodes(r[d]) <= u - {e}
  {
    hide ToBkt, Distinct, Cut, Total;
    var c := chains[b];
    var r := chains[b := Cut(c, k)];
    CutNodes(c, k);
    TotalUpdate(chains, b, Cut(c, k));
    forall d, x: Handle | 0 <= d < |r| && x in r[d] ensures ToBkt(x.hashv, |r|) == d && x in u && x != e {
      if d == b {
        assert x in Nodes(Cut(c, k));
      } else {
        assert x in Nodes(chains[d]);
      }
    }
    forall x | x in u - {e} ensures x in r[ToBkt(x.hashv, |r|)] {
      if ToBkt(x.hashv, |r|) == b {
        assert x in Nodes(Cut(c, k));
      }
    }
  }

  /** Cutting one chain leaves the others linked. */
  lemma OthersLinked(u: set<Handle>, chains: seq<seq<Handle>>, b: nat)
    requires Chained(u, chains) && Placed(chains) && b < |chains|
    ensures forall d :: 0 <= d < |chains| && d != b ==> Nodes(chains[d]) !! Nodes(chains[b])
    ensures AllDistinct(chains)
  {
    PlacedApart(chains);
  }

  lemma HeadsLength(buckets: array<Bucket>, chains: seq<seq<Handle>>)
    requires Heads(buckets, chains)
    ensures buckets.Length == |chains|
  {
  }

  lemma FillingFacts(u: set<Handle>, buckets: array<Bucket>, chains: seq<seq<Handle>>, ideal: nat, nonideal: nat, todo: seq<Handle>)
    requires ideal > 0 && Filling(u, buckets, chains, ideal, nonideal, todo)
    ensures Chained(u, chains) && Heads(buckets, chains) && Placed(chains)
    ensures nonideal == Excess(chains, ideal) && Multipliers(buckets, chains, ideal)
  {
  }

  /** No buckets hold anything. */
  lemma NothingHeld(buckets: array<Bucket>, n: nat)
    requires n > 0 && buckets.Length == n && forall b :: 0 <= b < n ==> buckets[b] == Bucket(null, 0, 0)
    ensures Chained(Nodes([]), EmptyChains(n)) && Heads(buckets, EmptyChains(n)) && Placed(EmptyChains(n))
    ensures Complete(Nodes([]), EmptyChains(n)) && Total(EmptyChains(n)) == 0
  {
    EmptyTotal(n, 0);
  }

  lemma PowerNext(k: nat)
    ensures Power2(k + 1) == 2 * Power2(k)
  {
  }

  lemma ThirtyTwo()
    ensures Power2(HASH_INITIAL_NUM_BUCKETS_LOG2) == HASH_INITIAL_NUM_BUCKETS
  {
    assert Power2(2) == 4;
    assert Power2(4) == 16;
  }

  /** A new node is in no chain, and its bucket then holds it. */
  lemma PlacedNew(s: seq<Handle>, e: Handle, chains: seq<seq<Handle>>)
    requires |chains| > 0 && Chained(Nodes(s), chains) && Placed(chains) && Complete(Nodes(s), chains) && e !in s
    ensures Chained(Nodes(s + [e]), chains)
    ensures forall b :: 0 <= b < |chains| ==> e !in chains[b]
    ensures Placed(Place(chains, e)) && Complete(Nodes(s + [e]), Place(chains, e))
    ensures Total(Place(chains, e)) == Total(chains) + 1
  {
    hide ToBkt, HList, Total;
    var k := ToBkt(e.hashv, |chains|);
    TotalUpdate(chains, k, [e] + chains[k]);
    forall b, x | 0 <= b < |chains| && x in chains[b] ensures x in s {
      assert x in Nodes(chains[b]);
    }
    forall x | x in s ensures x in chains[ToBkt(x.hashv, |chains|)] {
      assert x in Nodes(s);
    }
  }

  lemma BucketsAreNoHandles(buckets: array<Bucket>, s: seq<Handle>)
    ensures forall x :: x in Nodes(s) ==> x as object != buckets
  {
  }

  lemma StandsAt(u: set<Handle>, chains: seq<seq<Handle>>, e: Handle)
    requires |chains| > 0 && Complete(u, chains) && e in u
    ensures e in chains[ToBkt(e.hashv, |chains|)]
  {
  }

  lemma ListDistinct(s: seq<Handle>)
    requires List(s)
    ensures Distinct(s)
  {
  }

  lemma SoleNode(s: seq<Handle>, i: nat)
    requires List(s) && i < |s|
    ensures s[i].prev == null && s[i].next == null <==> |s| == 1
    ensures Distinct(s) && (|s| == 1 ==> Cut(s, i) == [] && List([]))
  {
    AtFacts(s, i + 1);
    AtFacts(s, i - 1);
  }

  lemma CutMembers(s: seq<Handle>, i: nat)
    requires i < |s|
    ensures forall x :: x in Cut(s, i) ==> x in s
  {
  }

  lemma SortedMembers(s: seq<Handle>, t: seq<Handle>, cmp: Cmp<Handle>)
    requires t == SortFrom(s, 1, cmp)
    ensures |t| == |s| && forall x :: x in t ==> x in s
  {
    SortSame(s, 1, cmp);
    SameNodes(t, s);
    hide SortFrom;
    assert |multiset(t)| == |multiset(s)|;
    forall x | x in t ensures x in s {
      assert x in Nodes(t);
      assert x in Nodes(s);
    }
  }

  lemma SortNothing(cmp: Cmp<Handle>)
    ensures SortFrom<Handle>([], 1, cmp) == []
  {
    SortedMembers([], SortFrom<Handle>([], 1, cmp), cmp);
  }

  class Table {
    const hash: seq<byte> -> u32
    var head: Handle?             // the first handle in application order; null for no table
    var tail: Handle?
    var buckets: array<Bucket>
    var log2_num_buckets: nat
    var num_items: nat
    var ideal_chain_maxlen: nat
    var nonideal_items: nat
    var ineff_expands: nat
    var noexpand: bool
    ghost var app: seq<Handle>
    ghost var chains: seq<seq<Handle>>

    /** The bucket chains hold exactly the nodes of s, each in its bucket. */
    ghost predicate Holds(s: seq<Handle>)
      reads `chains, `buckets, `log2_num_buckets, `num_items, buckets, Nodes(s)`hh_next, Nodes(s)`hh_prev
    {
      && |chains| == Power2(log2_num_buckets)
      && Chained(Nodes(s), chains) && Heads(buckets, chains) && Placed(chains)
      && Complete(Nodes(s), chains) && Total(chains) == num_items == |s|
    }

    ghost predicate Valid()
      reads this, buckets, Nodes(app)
    {
      && (head == null ==> app == [])
      && (head != null ==> app != [] && head == app[0] && tail == app[|app| - 1] && Holds(app))
      && List(app)
      && Keyed(app)
    }

    /** Hash values are those of the keys, and no key occurs twice. */
    ghost predicate Keyed(s: seq<Handle>) {
      && (forall x :: x in s ==> x.hashv == hash(x.key))
      && (forall x, y :: x in s && y in s && x.key == y.key ==> x == y)
    }

    lemma KeyedSub(s: seq<Handle>, t: seq<Handle>)
      requires Keyed(s) && forall x :: x in t ==> x in s
      ensures Keyed(t)
    {
    }

    lemma KeyedPush(s: seq<Handle>, add: Handle)
      requires Keyed(s) && add.hashv == hash(add.key) && forall x :: x in s ==> x.key != add.key
      ensures Keyed(s + [add])
    {
    }

    /** As an expansion leaves it: the ideal chain length is the number of items over the number of
        buckets, rounded up, and the items above it are counted. */
    ghost predicate Spread()
      reads `chains, `buckets, `num_items, `ideal_chain_maxlen, `nonideal_items, buckets
    {
      && ideal_chain_maxlen > 0
      && (ideal_chain_maxlen - 1) * |chains| < num_items <= ideal_chain_maxlen * |chains|
      && nonideal_items == Excess(chains, ideal_chain_maxlen)
      && Multipliers(buckets, chains, ideal_chain_maxlen)
    }

    /** One more node in this bucket calls for an expansion. */
    ghost predicate Full(b: nat)
      requires b < buckets.Length
      reads `buckets, `noexpand, buckets
    {
      buckets[b].count + 1 >= (buckets[b].expand_mult + 1) * HASH_BKT_CAPACITY_THRESH && !noexpand
    }

    /** The multipliers are those of an earlier state of the buckets. */
    ghost predicate SameMultipliers(before: seq<Bucket>)
      reads `buckets, buckets
    {
      |before| == buckets.Length && forall b :: 0 <= b < |before| ==> buckets[b].expand_mult == before[b].expand_mult
    }

    constructor (hash: seq<byte> -> u32)
      ensures Valid() && app == [] && this.hash == hash
    {
      this.hash := hash;
      head, tail, buckets := null, null, new Bucket[0];
      log2_num_buckets, num_items, ideal_chain_maxlen, nonideal_items, ineff_expands, noexpand := 0, 0, 0, 0, 0, false;
      app, chains := [], [];
    }

    /** Finds the handle of a key. */
    method Find(key: seq<byte>) returns (out: Handle?)
      requires Valid()
      ensures out != null ==> out in app && out.key == key
      ensures out == null ==> forall x :: x in app ==> x.key != key
    {
      out := null;
      if head != null {
        var hashv := hash(key);
        var b := ToBkt(hashv, buckets.Length);
        FindFacts(key, b);
        out := FindInBkt(b, key, hashv);
      }
    }

    lemma FindFacts(key: seq<byte>, b: nat)
      requires Valid() && head != null && buckets.Length == |chains| > 0 && b == ToBkt(hash(key), |chains|)
      ensures forall x :: x in app && x.key == key ==> x.hashv == hash(key) && x in chains[b]
      ensures forall x :: x in chains[b] ==> x in app && x.hashv == hash(x.key)
    {
      hide ToBkt, HList, List;
      forall x | x in chains[b] ensures x in app {
        assert x in Nodes(chains[b]);
      }
    }

    /** Walks a chain. */
    method FindInBkt(b: nat, key: seq<byte>, hashv: u32) returns (out: Handle?)
      requires Holds(app) && b < |chains|
      ensures out != null ==> out in chains[b] && out.hashv == hashv && out.key == key
      ensures out == null ==> forall x :: x in chains[b] ==> !(x.hashv == hashv && x.key == key)
    {
      ChainAt(Nodes(app), chains, buckets, b);
      ghost var c := chains[b];
      out := buckets[b].hh_head;
      ghost var i := 0;
      while out != null
        invariant 0 <= i <= |c| && out == At(c, i)
        invariant forall j :: 0 <= j < i ==> !(c[j].hashv == hashv && c[j].key == key)
        decreases |c| - i
      {
        if out.hashv == hashv && |out.key| == |key| {
          if out.key == key {
            break;
          }
        }
        out := out.hh_next;
        i := i + 1;
      }
    }

    // -------------------------------------------------------------- expanding

    /** Moves all nodes into twice as many buckets. */
    method Double(ideal: nat) returns (nonideal: nat)
      requires Holds(app) && ideal > 0
      modifies `buckets, `log2_num_buckets, `chains, Nodes(app)`hh_next, Nodes(app)`hh_prev
      ensures Holds(app) && fresh(buckets)
      ensures log2_num_buckets == old(log2_num_buckets) + 1 && |old(chains)| > 0
      ensures chains == PlaceAll(EmptyChains(2 * |old(chains)|), Flat(old(chains)))
      ensures nonideal == Excess(chains, ideal) && Multipliers(buckets, chains, ideal)
    {
      hide Chained, Heads, Placed, Complete, Total, Filling, PlaceAll, EmptyChains, Flat, Excess, Distinct,
        Power2, Multipliers, HList;
      HeadsLength(buckets, chains);
      PowerNext(log2_num_buckets);
      var n := 2 * buckets.Length;
      var newBuckets := new Bucket[n](_ => Bucket(null, 0, 0));
      ghost var before, u := chains, Nodes(app);
      PlacedFlat(u, before);
      Redistributed(u, before, n);
      nonideal := Redistribute(buckets, newBuckets, ideal, u, before);
      chains := PlaceAll(EmptyChains(n), Flat(before));
      FillingFacts(u, newBuckets, chains, ideal, nonideal, []);
      log2_num_buckets := log2_num_buckets + 1;
      buckets := newBuckets;
    }

    /** Doubles the number of buckets, and gives up doubling when it has twice not spread the items. */
    method ExpandBuckets()
      requires Holds(app) && app != []
      modifies `buckets, `log2_num_buckets, `ideal_chain_maxlen, `nonideal_items, `ineff_expands, `noexpand, `chains
      modifies Nodes(app)`hh_next, Nodes(app)`hh_prev
      ensures Holds(app) && Spread() && fresh(buckets)
      ensures log2_num_buckets == old(log2_num_buckets) + 1 && |old(chains)| > 0
      ensures chains == PlaceAll(EmptyChains(2 * |old(chains)|), Flat(old(chains)))
      ensures ineff_expands == (if nonideal_items > num_items / 2 then old(ineff_expands) + 1 else 0)
      ensures noexpand == (old(noexpand) || ineff_expands > 1)
    {
      hide Chained, Heads, Placed, Complete, Total, Excess, CeilShift, Power2, Multipliers, PlaceAll, EmptyChains, Flat;
      CeilShiftIsCeiling(num_items, log2_num_buckets + 1);
      ideal_chain_maxlen := CeilShift(num_items, log2_num_buckets + 1);
      nonideal_items := Double(ideal_chain_maxlen);
      ineff_expands := if nonideal_items > num_items / 2 then ineff_expands + 1 else 0;
      if ineff_expands > 1 {
        noexpand := true;
      }
    }

    // -------------------------------------------------------------- adding

    /** The table of a first item. */
    method MakeTable(add: Handle)
      modifies this
      ensures fresh(buckets) && buckets.Length > 0 && Holds([]) && log2_num_buckets == HASH_INITIAL_NUM_BUCKETS_LOG2 && tail == add && !noexpand
      ensures head == old(head) && app == old(app)
      ensures forall b :: 0 <= b < buckets.Length ==> buckets[b] == Bucket(null, 0, 0)
    {
      hide Chained, Heads, Placed, Complete, Total, EmptyChains, Power2;
      tail := add;
      buckets := new Bucket[HASH_INITIAL_NUM_BUCKETS](_ => Bucket(null, 0, 0));
      log2_num_buckets := HASH_INITIAL_NUM_BUCKETS_LOG2;
      num_items, ideal_chain_maxlen, nonideal_items, ineff_expands, noexpand := 0, 0, 0, 0, false;
      chains := EmptyChains(HASH_INITIAL_NUM_BUCKETS);
      NothingHeld(buckets, HASH_INITIAL_NUM_BUCKETS);
      ThirtyTwo();
    }

    /** Puts a node that the list already has into its bucket. */
    method AddToTable(add: Handle, ghost s: seq<Handle>)
      requires Holds(s) && app == s + [add] && Distinct(s) && add !in s
      modifies `buckets, `log2_num_buckets, `num_items, `ideal_chain_maxlen, `nonideal_items, `ineff_expands, `noexpand, `chains
      modifies buckets, Nodes(app)`hh_next, Nodes(app)`hh_prev
      ensures Holds(app) && (buckets == old(buckets) || fresh(buckets))
      ensures |old(chains)| == old(buckets).Length > 0
      ensures old(Full(ToBkt(add.hashv, buckets.Length))) ==> log2_num_buckets == old(log2_num_buckets) + 1 && Spread()
      ensures !old(Full(ToBkt(add.hashv, buckets.Length))) ==>
        log2_num_buckets == old(log2_num_buckets) && chains == Place(old(chains), add)
        && buckets == old(buckets) && SameMultipliers(old(buckets[..])) && noexpand == old(noexpand)
    {
      hide Chained, Placed, Complete, Total, BitAnd, List, Excess;
      HeadsLength(buckets, chains);
      PlacedNew(s, add, chains);
      PushNodes(s, add);
      num_items := num_items + 1;
      var b := ToBkt(add.hashv, buckets.Length);
      ghost var before := chains;
      var mult := buckets[b].expand_mult;
      Attach(add, b, mult, buckets, Nodes(app), chains);
      chains := Place(chains, add);
      if buckets[b].count >= (mult + 1) * HASH_BKT_CAPACITY_THRESH && !noexpand {
        ExpandBuckets();
      }
    }

    /** Adds a node with a new key at the end. */
    method Add(add: Handle)
      requires Valid() && add !in app && add.hashv == hash(add.key) && forall x :: x in app ==> x.key != add.key
      modifies this, buckets, Nodes(app), add
      ensures Valid() && app == old(app) + [add] && head != null
      ensures old(head) == null ==> log2_num_buckets == HASH_INITIAL_NUM_BUCKETS_LOG2
      ensures old(head) != null ==> old(buckets).Length > 0
      ensures old(head) != null && old(Full(ToBkt(add.hashv, buckets.Length))) ==>
        log2_num_buckets == old(log2_num_buckets) + 1 && Spread()
      ensures old(head) != null && !old(Full(ToBkt(add.hashv, buckets.Length))) ==>
        log2_num_buckets == old(log2_num_buckets) && chains == Place(old(chains), add)
        && buckets == old(buckets) && SameMultipliers(old(buckets[..])) && noexpand == old(noexpand)
    {
      hide Holds, Spread, Full, Place, ToBkt, List, Keyed;
      ghost var s := app;
      ListDistinct(s);
      KeyedPush(s, add);
      if head == null {
        FirstItem(add);
      } else {
        AppendList(tail, add, s);
        tail := add;
      }
      app := s + [add];
      AddToTable(add, s);
    }

    /** The list and the table of a first item. */
    method FirstItem(add: Handle)
      modifies this, add`next, add`prev
      ensures fresh(buckets) && buckets.Length > 0 && Holds([]) && log2_num_buckets == HASH_INITIAL_NUM_BUCKETS_LOG2
      ensures head == add && tail == add && List([] + [add]) && app == old(app)
      ensures !Full(ToBkt(add.hashv, buckets.Length))
    {
      hide Holds, ToBkt;
      add.next := null;
      add.prev := null;
      MakeTable(add);
      head := add;
    }

    // -------------------------------------------------------------- deleting

    /** Takes a node out of its bucket. */
    method DelInBkt(del: Handle, ghost i: nat)
      requires Holds(app) && Distinct(app) && i < |app| && app[i] == del
      modifies `num_items, `chains, buckets, Nodes(app)`hh_next, Nodes(app)`hh_prev
      ensures Holds(Cut(app, i)) && SameMultipliers(old(buckets[..]))
    {
      hide HList, Placed, Complete, Total, ToBkt, Distinct, AllDistinct, Cut;
      HeadsLength(buckets, chains);
      var b := ToBkt(del.hashv, buckets.Length);
      ghost var u, c := Nodes(app), chains[b];
      StandsAt(u, chains, del);
      ghost var k :| 0 <= k < |c| && c[k] == del;
      ChainAt(u, chains, buckets, b);
      OthersLinked(u, chains, b);
      CutChains(u, chains, b, k, del);
      CutNodes(app, i);
      var count, mult := buckets[b].count, buckets[b].expand_mult;
      var first := UnlinkHandle(del, buckets[b].hh_head, c, k);
      buckets[b] := Bucket(first, count - 1, mult);
      num_items := num_items - 1;
      chains := chains[b := Cut(c, k)];
    }

    /** Deletes a node. */
    method Delete(del: Handle, ghost i: nat)
      requires Valid() && i < |app| && app[i] == del
      modifies this, buckets, Nodes(app)
      ensures Valid() && app == Cut(old(app), i)
      ensures head == null <==> app == []
      ensures log2_num_buckets == old(log2_num_buckets) && noexpand == old(noexpand)
      ensures head != null ==> buckets == old(buckets) && SameMultipliers(old(buckets[..]))
    {
      hide Holds, List, Distinct, Keyed, Cut;
      SoleNode(app, i);
      CutMembers(app, i);
      ghost var rest := Cut(app, i);
      KeyedSub(app, rest);
      if del.prev == null && del.next == null {
        head := null;
      } else {
        head, tail := UnlinkOrder(del, head, tail, app, i);
        BucketsAreNoHandles(buckets, rest);
        DelInBkt(del, i);
      }
      app := rest;
    }

    // -------------------------------------------------------------- sorting

    lemma HoldsSame(s: seq<Handle>, t: seq<Handle>)
      requires Holds(s) && Nodes(s) == Nodes(t) && |s| == |t|
      ensures Holds(t)
    {
    }

    lemma SortedApp(s: seq<Handle>, cmp: Cmp<Handle>)
      ensures multiset(SortFrom(s, 1, cmp)) == multiset(s)
      ensures TotalOn(cmp, Nodes(s)) ==>
        && Sorted(SortFrom(s, 1, cmp), cmp)
        && forall x :: x in s ==> Ties(SortFrom(s, 1, cmp), x, cmp) == Ties(s, x, cmp)
    {
      hide SortFrom, TotalOn, Sorted, Ties;
      SortSame(s, 1, cmp);
      if TotalOn(cmp, Nodes(s)) {
        SortCorrect(s, cmp, Nodes(s));
      }
    }

    /** Sorts the application order; the buckets are not touched. */
    method SortItems(cmp: Cmp<Handle>)
      requires Valid()
      modifies `head, `tail, `app, Nodes(app)`next, Nodes(app)`prev
      ensures Valid() && app == SortFrom(old(app), 1, cmp) && multiset(app) == multiset(old(app))
      ensures TotalOn(cmp, Nodes(old(app))) ==>
        Sorted(app, cmp) && forall x :: x in old(app) ==> Ties(app, x, cmp) == Ties(old(app), x, cmp)
    {
      hide Holds, List, SortFrom, Keyed, TotalOn, Sorted, Ties;
      SortedApp(app, cmp);
      if head != null {
        ghost var sorted := SortFrom(app, 1, cmp);
        SortedMembers(app, sorted, cmp);
        KeyedSub(app, sorted);
        head, tail := Sort(head, cmp, app);
        HoldsSame(app, sorted);
        app := sorted;
      } else {
        SortNothing(cmp);
      }
    }
  }
}
