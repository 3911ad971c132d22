/** The order of the elements of a sorted set, and the geometry of skip-list levels. */
module SkipOrder {
  import opened Sequences
  import opened Serial

  /** A member with its score.  The plain sorted set is the case where all stamps are equal. */
  datatype Item = Item(score: real, obj: Obj)

  datatype Obj = Obj(stamp: real, name: seq<byte>)

  /** memcmp on the common length, then the shorter string first. */
  predicate BytesLess(a: seq<byte>, b: seq<byte>) {
    b != [] && (a == [] || a[0] < b[0] || (a[0] == b[0] && BytesLess(a[1..], b[1..])))
  }

  /** Larger stamps come first. */
  predicate ObjLess(a: Obj, b: Obj) {
    if a.stamp == b.stamp then BytesLess(a.name, b.name) else a.stamp > b.stamp
  }

  predicate Less(a: Item, b: Item) {
    a.score < b.score || (a.score == b.score && ObjLess(a.obj, b.obj))
  }

  lemma {:induction false} BytesIrreflexive(a: seq<byte>)
    ensures !BytesLess(a, a)
  {
    if a != [] {
      BytesIrreflexive(a[1..]);
    }
  }

  lemma {:induction false} BytesTrichotomy(a: seq<byte>, b: seq<byte>)
    ensures BytesLess(a, b) || BytesLess(b, a) || a == b
    ensures !(BytesLess(a, b) && BytesLess(b, a))
    decreases |a|
  {
    if a != [] && b != [] {
      BytesTrichotomy(a[1..], b[1..]);
      assert a == [a[0]] + a[1..] && b == [b[0]] + b[1..];
    }
  }

  lemma {:induction false} BytesTransitive(a: seq<byte>, b: seq<byte>, c: seq<byte>)
    requires BytesLess(a, b) && BytesLess(b, c)
    ensures BytesLess(a, c)
    decreases |a|
  {
    if a != [] && a[0] == b[0] == c[0] {
      BytesTransitive(a[1..], b[1..], c[1..]);
    }
  }

  /** One string comes before another: they agree up to a byte that is smaller, or up to the first one's end. */
  ghost predicate Precedes(a: seq<byte>, b: seq<byte>) {
    exists i: nat :: i <= |a| && i < |b| && a[..i] == b[..i] && (i < |a| ==> a[i] < b[i])
  }

  lemma {:induction false} BytesLessIs(a: seq<byte>, b: seq<byte>)
    ensures BytesLess(a, b) <==> Precedes(a, b)
    decreases |a|
  {
    if a == [] || b == [] || a[0] != b[0] {
      PrecedesStart(a, b);
    } else {
      BytesLessIs(a[1..], b[1..]);
      PrecedesRest(a, b);
    }
  }

  lemma PrecedesStart(a: seq<byte>, b: seq<byte>)
    requires a == [] || b == [] || a[0] != b[0]
    ensures Precedes(a, b) <==> b != [] && (a == [] || a[0] < b[0])
  {
    if b != [] && (a == [] || a[0] < b[0]) {
      assert a[..0] == b[..0];
    }
    forall i | 0 < i <= |a| && i <= |b| ensures a[..i] != b[..i] {
      assert a[..i][0] == a[0] && b[..i][0] == b[0];
    }
  }

  lemma PrecedesRest(a: seq<byte>, b: seq<byte>)
    requires a != [] && b != [] && a[0] == b[0]
    ensures Precedes(a, b) <==> Precedes(a[1..], b[1..])
  {
    if i: nat :| i <= |a| && i < |b| && a[..i] == b[..i] && (i < |a| ==> a[i] < b[i]) {
      assert a[1..][..i - 1] == a[..i][1..] && b[1..][..i - 1] == b[..i][1..];
    }
    if i: nat :| i < |a| && i + 1 < |b| && a[1..][..i] == b[1..][..i] && (i + 1 < |a| ==> a[1..][i] < b[1..][i]) {
      assert a[..i + 1] == [a[0]] + a[1..][..i] && b[..i + 1] == [b[0]] + b[1..][..i];
    }
  }

  /** The smaller score comes first, then the larger stamp, then the name that precedes the other. */
  lemma LessIs(a: Item, b: Item)
    ensures Less(a, b) <==>
      || a.score < b.score
      || (a.score == b.score && a.obj.stamp > b.obj.stamp)
      || (a.score == b.score && a.obj.stamp == b.obj.stamp && Precedes(a.obj.name, b.obj.name))
  {
    BytesLessIs(a.obj.name, b.obj.name);
  }

  /** The order is a strict total order. */
  lemma LessTotal(a: Item, b: Item)
    ensures Less(a, b) || Less(b, a) || a == b
    ensures !(Less(a, b) && Less(b, a)) && !Less(a, a)
  {
    BytesTrichotomy(a.obj.name, b.obj.name);
    BytesIrreflexive(a.obj.name);
  }

  lemma LessTransitive(a: Item, b: Item, c: Item)
    requires Less(a, b) && Less(b, c)
    ensures Less(a, c)
  {
    if BytesLess(a.obj.name, b.obj.name) && BytesLess(b.obj.name, c.obj.name) {
      BytesTransitive(a.obj.name, b.obj.name, c.obj.name);
    }
  }

  /** Sorted, equal elements allowed. */
  predicate Sorted(s: seq<Item>) {
    forall i, j :: 0 <= i < j < |s| ==> !Less(s[j], s[i])
  }

  /** How many leading elements are smaller than x: where x is inserted or found. */
  function Place(s: seq<Item>, x: Item): (k: nat)
    ensures k <= |s|
  {
    if s == [] || !Less(s[0], x) then 0 else 1 + Place(s[1..], x)
  }

  lemma LessNotLess(a: Item, b: Item, x: Item)
    requires !Less(b, a) && !Less(a, x)
    ensures !Less(b, x)
  {
    if Less(b, x) {
      LessTotal(a, b);
      LessTotal(a, x);
      if a != x && a != b {
        LessTransitive(b, x, a);
      }
    }
  }

  /** In a sorted list exactly the elements before its place are smaller. */
  lemma {:induction false} PlaceBoundary(s: seq<Item>, x: Item, j: nat)
    requires Sorted(s) && j < |s|
    ensures Less(s[j], x) <==> j < Place(s, x)
  {
    if Less(s[0], x) {
      if j > 0 {
        PlaceBoundary(s[1..], x, j - 1);
      }
    } else if j > 0 {
      LessNotLess(s[0], s[j], x);
    }
  }

  /** Inserting at its place keeps a list sorted. */
  lemma InsertSorted(s: seq<Item>, x: Item)
    requires Sorted(s)
    ensures Sorted(s[..Place(s, x)] + [x] + s[Place(s, x)..])
  {
    var k := Place(s, x);
    var t := s[..k] + [x] + s[k..];
    hide Place, Less;
    forall i, j | 0 <= i < j < |t| ensures !Less(t[j], t[i]) {
      if i == k {
        PlaceBoundary(s, x, j - 1);
      } else if j == k {
        PlaceBoundary(s, x, i);
        LessTotal(s[i], x);
      } else {
        assert t[i] == s[if i < k then i else i - 1] && t[j] == s[if j < k then j else j - 1];
      }
    }
  }

  /** Deleting what was just inserted gives the old list back, whatever equal elements it had. */
  lemma InsertThenDelete(s: seq<Item>, x: Item)
    requires Sorted(s)
    ensures var k := Place(s, x); var t := s[..k] + [x] + s[k..];
      Place(t, x) == k && t[k] == x && t[..k] + t[k + 1..] == s
  {
    var k := Place(s, x);
    var t := s[..k] + [x] + s[k..];
    InsertSorted(s, x);
    hide Place, Less;
    LessTotal(x, x);
    PlaceBoundary(t, x, k);
    if k > 0 {
      PlaceBoundary(s, x, k - 1);
      PlaceBoundary(t, x, k - 1);
    }
  }

  /** An element is stored just if it stands at its place. */
  lemma FoundAtPlace(s: seq<Item>, x: Item)
    requires Sorted(s)
    ensures x in s <==> Place(s, x) < |s| && s[Place(s, x)] == x
  {
    hide Place, Less;
    var k := Place(s, x);
    if x in s {
      var j :| 0 <= j < |s| && s[j] == x;
      PlaceBoundary(s, x, j);
      LessTotal(x, x);
      PlaceBoundary(s, x, k);
      LessTotal(s[k], x);
    }
  }

  /** How many leading elements go accepts. */
  function Prefix(s: seq<Item>, go: Item -> bool): (k: nat)
    ensures k <= |s|
    ensures forall j :: 0 <= j < k ==> go(s[j])
    ensures k < |s| ==> !go(s[k])
  {
    if s == [] || !go(s[0]) then 0 else 1 + Prefix(s[1..], go)
  }

  /** A test that accepts everything before an element it accepts. */
  ghost predicate Downward(s: seq<Item>, go: Item -> bool) {
    forall i, j :: 0 <= i < j < |s| && go(s[j]) ==> go(s[i])
  }

  lemma NotLessChain(a: Item, b: Item, x: Item)
    requires !Less(b, a) && Less(x, a)
    ensures Less(x, b)
  {
    LessTotal(a, b);
    if a != b {
      LessTransitive(x, a, b);
    }
  }

  function NotGreater(x: Item): Item -> bool {
    y => !Less(x, y)
  }

  function ScoreBelow(bound: real): Item -> bool {
    (y: Item) => y.score < bound
  }

  function ScoreUpTo(bound: real): Item -> bool {
    (y: Item) => y.score <= bound
  }

  lemma NotGreaterDownward(s: seq<Item>, x: Item)
    requires Sorted(s)
    ensures Downward(s, NotGreater(x))
  {
    hide Less;
    forall i, j | 0 <= i < j < |s| && NotGreater(x)(s[j]) ensures NotGreater(x)(s[i]) {
      if Less(x, s[i]) {
        NotLessChain(s[i], s[j], x);
      }
    }
  }

  /** The rank the descent for x ends at: that of the last element not greater than x. */
  function UpTo(s: seq<Item>, x: Item): (k: nat)
    ensures k <= |s|
  {
    Prefix(s, NotGreater(x))
  }

  /** What a rank found for x tells: an element with x's object, not greater than x, and there is
      one if the last element not greater than x has x's object. */
  ghost predicate RankFound(s: seq<Item>, x: Item, rank: nat) {
    && rank <= |s|
    && (rank > 0 ==> s[rank - 1].obj == x.obj && !Less(x, s[rank - 1]))
    && (UpTo(s, x) > 0 && s[UpTo(s, x) - 1].obj == x.obj ==> rank > 0)
  }

  /** For a stored element whose object is stored once it is the element's index. */
  lemma RankOfStored(s: seq<Item>, x: Item, rank: nat)
    requires Sorted(s) && RankFound(s, x, rank) && x in s
    requires forall i, j :: 0 <= i < j < |s| ==> s[i].obj != s[j].obj
    ensures rank > 0 && s[rank - 1] == x
  {
    hide Less, Prefix;
    NotGreaterDownward(s, x);
    var k := UpTo(s, x);
    var j :| 0 <= j < |s| && s[j] == x;
    LessTotal(x, x);
    assert NotGreater(x)(s[j]);
    assert j < k;
    assert NotGreater(x)(s[k - 1]);
    LessTotal(x, s[k - 1]);
    assert s[k - 1] == x;
  }

  /** An object that is not stored, or only with a larger score, is not found. */
  lemma RankOfAbsent(s: seq<Item>, x: Item, rank: nat)
    requires RankFound(s, x, rank)
    requires forall i :: 0 <= i < |s| && s[i].obj == x.obj ==> s[i].score > x.score
    ensures rank == 0
  {
  }

  /** The rank the caller means: that of the element, or 0. */
  ghost predicate RankRight(s: seq<Item>, x: Item, rank: nat) {
    if x in s then 0 < rank <= |s| && s[rank - 1] == x else rank == 0
  }

  /** Scores never decrease along a sorted list. */
  lemma ScoresAscend(s: seq<Item>, i: nat, j: nat)
    requires Sorted(s) && i <= j < |s|
    ensures s[i].score <= s[j].score
  {
  }

  lemma ScoreDownward(s: seq<Item>, bound: real)
    requires Sorted(s)
    ensures Downward(s, ScoreBelow(bound)) && Downward(s, ScoreUpTo(bound))
  {
    forall i, j | 0 <= i < j < |s| ensures s[i].score <= s[j].score {
      ScoresAscend(s, i, j);
    }
  }

  /** The elements whose score lies in a closed range, in order. */
  function Within(s: seq<Item>, lo: real, hi: real): (r: seq<Item>) {
    if s == [] then []
    else if lo <= s[0].score <= hi then [s[0]] + Within(s[1..], lo, hi)
    else Within(s[1..], lo, hi)
  }

  lemma {:induction false} WithinConcat(s: seq<Item>, t: seq<Item>, lo: real, hi: real)
    ensures Within(s + t, lo, hi) == Within(s, lo, hi) + Within(t, lo, hi)
  {
    if s == [] {
      assert s + t == t;
    } else {
      WithinConcat(s[1..], t, lo, hi);
      assert (s + t)[1..] == s[1..] + t;
      Assoc([s[0]], Within(s[1..], lo, hi), Within(t, lo, hi));
    }
  }

  lemma {:induction false} NoneWithin(s: seq<Item>, lo: real, hi: real)
    requires forall i :: 0 <= i < |s| ==> !(lo <= s[i].score <= hi)
    ensures Within(s, lo, hi) == []
  {
    if s != [] {
      NoneWithin(s[1..], lo, hi);
    }
  }

  lemma {:induction false} AllWithin(s: seq<Item>, lo: real, hi: real)
    requires forall i :: 0 <= i < |s| ==> lo <= s[i].score <= hi
    ensures Within(s, lo, hi) == s
  {
    if s != [] {
      AllWithin(s[1..], lo, hi);
    }
  }

  /** In a sorted list they are consecutive: behind all smaller scores, before all larger ones. */
  lemma WithinSlice(s: seq<Item>, lo: real, hi: real, a: nat, b: nat)
    requires a <= b <= |s|
    requires forall i :: 0 <= i < a ==> s[i].score < lo
    requires forall i :: a <= i < b ==> lo <= s[i].score <= hi
    requires forall i :: b <= i < |s| ==> s[i].score > hi
    ensures Within(s, lo, hi) == s[a..b]
  {
    hide Within;
    NoneWithin(s[..a], lo, hi);
    AllWithin(s[a..b], lo, hi);
    NoneWithin(s[b..], lo, hi);
    WithinConcat(s[a..b], s[b..], lo, hi);
    WithinConcat(s[..a], s[a..b] + s[b..], lo, hi);
    assert s == s[..a] + (s[a..b] + s[b..]);
  }

  /** The position a removal by rank starts at, and the one it ends before. */
  function FirstRank(start: nat, n: nat): (a: nat)
    ensures a <= n
  {
    if start == 0 then 0 else if start <= n then start - 1 else n
  }

  function LastRank(a: nat, end: nat, n: nat): (b: nat)
    requires a <= n
    ensures a <= b <= n
  {
    if end <= a then a else if end < n then end else n
  }

  /** The elements with ranks between two bounds in either order. */
  function Ranked(s: seq<Item>, x: nat, y: nat): seq<Item> {
    var a := FirstRank(Min(x, y), |s|);
    s[a..LastRank(a, Max(x, y), |s|)]
  }

  /** The element with rank r, counted from 1, is among them exactly if r lies between the bounds, both included. */
  lemma RankedIs(s: seq<Item>, x: nat, y: nat, r: nat)
    requires 1 <= r <= |s|
    ensures var a := FirstRank(Min(x, y), |s|); var b := LastRank(a, Max(x, y), |s|);
      (a <= r - 1 < b <==> x <= r <= y || y <= r <= x) && Ranked(s, x, y) == s[a..b]
  {
  }

  /** When narrowing two bounds to 32 bits does not change which ranks of n lie between them. */
  predicate BoundsKept(n: nat, x: u64, y: u64) {
    var lo, hi := Min(x, y), Max(x, y);
    || hi < TWO32
    || n == 0
    || (lo > n && ((Narrow(lo) > n && Narrow(hi) > n) || Narrow(lo) == Narrow(hi) == 0))
    || (lo <= n && (Narrow(hi) >= n || (lo == n == 1 && Narrow(hi) == 0)))
  }

  /** A removal by rank takes the elements it is asked to take exactly when narrowing the bounds
      keeps what lies between them. */
  lemma NarrowedRanks(s: seq<Item>, x: u64, y: u64)
    requires |s| < TWO32 && forall i, j :: 0 <= i < j < |s| ==> s[i] != s[j]
    ensures Ranked(s, Narrow(x), Narrow(y)) == Ranked(s, x, y) <==> BoundsKept(|s|, x, y)
  {
    var n, lo, hi := |s|, Min(x, y), Max(x, y);
    var lo', hi' := Min(Narrow(x), Narrow(y)), Max(Narrow(x), Narrow(y));
    var a := FirstRank(lo, n);
    var b := LastRank(a, hi, n);
    var a' := FirstRank(lo', n);
    var b' := LastRank(a', hi', n);
    SameSlice(s, a, b, a', b');
    NarrowBelow(lo);
    NarrowBelow(hi);
    hide Narrow;
  }

  lemma NarrowBelow(x: nat)
    ensures x < TWO32 ==> Narrow(x) == x
  {
  }

  lemma SameSlice(s: seq<Item>, a: nat, b: nat, a': nat, b': nat)
    requires a <= b <= |s| && a' <= b' <= |s| && forall i, j :: 0 <= i < j < |s| ==> s[i] != s[j]
    ensures s[a..b] == s[a'..b'] <==> (a == b && a' == b') || (a == a' && b == b')
  {
    if s[a..b] == s[a'..b'] && a < b {
      assert s[a..b][0] == s[a'..b'][0];
    }
  }

  /** The bounds 1 and 2^32 take one element instead of all. */
  lemma OneInsteadOfAll(s: seq<Item>)
    requires 1 < |s| < TWO32
    ensures Ranked(s, 1, TWO32) == s && Ranked(s, Narrow(1), Narrow(TWO32)) == s[..1]
  {
  }

  function CutRange(s: seq<Item>, a: nat, b: nat): (r: seq<Item>)
    requires a <= b <= |s|
    ensures |r| == |s| - (b - a)
  {
    s[..a] + s[b..]
  }

  lemma CutNone(s: seq<Item>, k: nat)
    requires k <= |s|
    ensures CutRange(s, k, k) == s && s[k..k] == []
  {
  }

  lemma CutNext(s: seq<Item>, k: nat, m: nat)
    requires k <= m < |s|
    ensures var t := CutRange(s, k, m); t[..k] + t[k + 1..] == CutRange(s, k, m + 1) && t[k] == s[m]
    ensures s[k..m] + [s[m]] == s[k..m + 1]
  {
  }

  lemma CutDone(s: seq<Item>, k: nat, m: nat, end: nat)
    requires k <= m <= |s| && (m == k || m <= end) && (m == |s| || m >= end)
    ensures m == LastRank(k, end, |s|)
  {
  }

  lemma ReverseNone()
    ensures Reverse<Item>([]) == []
  {
  }

  /** The elements between two ranks, counted from 1; a second bound below the first asks for
      descending order.  The first bound must be the rank of an element, the second is clipped. */
  function BetweenRanks(s: seq<Item>, r1: nat, r2: nat): (r: seq<Item>) {
    if r1 == 0 || r1 > |s| then []
    else if r1 <= r2 then s[r1 - 1..if r2 <= |s| then r2 else |s|]
    else Reverse(s[if r2 > 0 then r2 - 1 else 0..r1])
  }

  /** How many elements are listed at most: the length of the rank range, stored in an int. */
  function RunLimit(r1: u64, r2: u64): int {
    Signed(Narrow(if r1 <= r2 then r2 - r1 + 1 else r1 - r2 + 1))
  }

  /** The elements listed between two ranks. */
  function ListedRanks(s: seq<Item>, r1: u64, r2: u64): (r: seq<Item>) {
    var n := RunLimit(r1, r2);
    if r1 == 0 || r1 > |s| || n <= 0 then []
    else if r1 <= r2 then s[r1 - 1..Min(r1 - 1 + n, |s|)]
    else Reverse(s[Max(r1 - n, 0)..r1])
  }

  /** How many elements there are from a rank on. */
  function Available(n: nat, r1: u64, r2: u64): int {
    if r1 <= r2 then n - r1 + 1 else r1
  }

  /** The list is that of the elements between the ranks exactly when it starts nowhere, or the
      length of the range fits an int, or what is left of it is enough all the same. */
  lemma ListedExact(s: seq<Item>, r1: u64, r2: u64)
    ensures ListedRanks(s, r1, r2) == BetweenRanks(s, r1, r2) <==>
            r1 == 0 || r1 > |s| || (if r1 <= r2 then r2 - r1 else r1 - r2) < TWO31 - 1
            || RunLimit(r1, r2) >= Available(|s|, r1, r2)
  {
    hide Narrow, Signed, FromRank, ListedRanks, BetweenRanks;
    var d := if r1 <= r2 then r2 - r1 else r1 - r2;
    NarrowAtMost(d + 1);
    if 0 < r1 <= |s| {
      ListedFrom(s, r1, r2);
      BetweenFrom(s, r1, r2);
    } else {
      NoneListed(s, r1, r2);
    }
  }

  lemma ListedFrom(s: seq<Item>, r1: u64, r2: u64)
    requires 0 < r1 <= |s|
    ensures ListedRanks(s, r1, r2) ==
            FromRank(s, r1, r1 > r2, Min(Max(RunLimit(r1, r2), 0), Available(|s|, r1, r2)))
  {
    hide RunLimit, Reverse;
    ReverseNone();
    var n := RunLimit(r1, r2);
    var m := Min(Max(n, 0), Available(|s|, r1, r2));
    if n > 0 && r1 <= r2 {
      assert Min(r1 - 1 + n, |s|) == r1 - 1 + m;
    } else if n > 0 {
      assert Max(r1 - n, 0) == r1 - m;
    }
  }

  lemma BetweenFrom(s: seq<Item>, r1: u64, r2: u64)
    requires 0 < r1 <= |s|
    ensures var d := if r1 <= r2 then r2 - r1 else r1 - r2;
      BetweenRanks(s, r1, r2) == FromRank(s, r1, r1 > r2, Min(d + 1, Available(|s|, r1, r2)))
  {
    hide Reverse;
  }

  lemma NoneListed(s: seq<Item>, r1: u64, r2: u64)
    requires r1 == 0 || r1 > |s|
    ensures ListedRanks(s, r1, r2) == [] == BetweenRanks(s, r1, r2)
  {
  }

  /** The n elements from a rank on, upwards or downwards. */
  function FromRank(s: seq<Item>, r1: nat, reverse: bool, n: nat): (r: seq<Item>)
    requires 0 < r1 <= |s| && n <= (if reverse then r1 else |s| - r1 + 1)
    ensures |r| == n
  {
    if reverse then Reverse(s[r1 - n..r1]) else s[r1 - 1..r1 - 1 + n]
  }

  /** A range that reaches far beyond the list can list nothing at all. */
  lemma ListedNothing(s: seq<Item>)
    requires 0 < |s| < TWO31
    ensures ListedRanks(s, 1, 0x7fff_ffff_ffff_ffff) == [] && BetweenRanks(s, 1, 0x7fff_ffff_ffff_ffff) == s
  {
  }

  /** Swapping the bounds reverses the answer exactly when both are ranks of elements, or neither
      can be one, or the length of the range is not positive as an int. */
  lemma SwappedRanks(s: seq<Item>, r1: u64, r2: u64)
    requires r1 <= r2 && |s| < TWO31
    ensures ListedRanks(s, r2, r1) == Reverse(ListedRanks(s, r1, r2)) <==>
            RunLimit(r1, r2) <= 0 || (1 <= r1 && r2 <= |s|) || r1 > |s| || (r1 == 0 && (r2 == 0 || r2 > |s|))
  {
    hide Narrow, Signed;
    NarrowAtMost(r2 - r1 + 1);
    var up, down := ListedRanks(s, r1, r2), ListedRanks(s, r2, r1);
    assert |Reverse(up)| == |up|;
    if r1 == r2 && 1 <= r1 <= |s| {
      assert s[r1 - 1..r1] == [s[r1 - 1]];
      assert Reverse([s[r1 - 1]]) == [s[r1 - 1]];
    }
  }

  /** Three elements, asked for from the first to the fourth and back: no reversal. */
  lemma NotReversed(a: Item, b: Item, c: Item)
    ensures ListedRanks([a, b, c], 1, 4) == [a, b, c] && ListedRanks([a, b, c], 4, 1) == []
    ensures Reverse([a, b, c]) != []
  {
  }

  /** out lists consecutive elements from rank start on, upwards or downwards. */
  ghost predicate RunOf(s: seq<Item>, reverse: bool, start: nat, out: seq<Item>) {
    forall j :: 0 <= j < |out| ==>
      0 < RankAt(reverse, start, j) <= |s| && out[j] == s[RankAt(reverse, start, j) - 1]
  }

  function RankAt(reverse: bool, start: int, j: int): int {
    if reverse then start - j else start + j
  }

  lemma RunAt(s: seq<Item>, reverse: bool, start: nat, out: seq<Item>, j: nat)
    requires RunOf(s, reverse, start, out) && j < |out|
    ensures var p := if reverse then start - j else start + j; 0 < p <= |s| && out[j] == s[p - 1]
  {
    assert 0 < RankAt(reverse, start, j) <= |s|;
  }

  lemma RunNext(s: seq<Item>, reverse: bool, start: nat, out: seq<Item>, x: Item)
    requires RunOf(s, reverse, start, out)
    requires var p := if reverse then start - |out| else start + |out|; 0 < p <= |s| && x == s[p - 1]
    ensures RunOf(s, reverse, start, out + [x])
  {
  }

  lemma RunBetween(s: seq<Item>, r1: u64, r2: u64, out: seq<Item>)
    requires RunOf(s, r1 > r2, r1, out)
    requires 0 < r1 <= |s| || out == []
    requires var reverse := r1 > r2; var n := |out|; var limit := Max(RunLimit(r1, r2), 0);
      n <= limit && (n == limit || (if reverse then r1 - n <= 0 || r1 - n > |s| else r1 + n <= 0 || r1 + n > |s|))
    ensures out == ListedRanks(s, r1, r2)
  {
    hide RunLimit;
    var b := ListedRanks(s, r1, r2);
    if out != [] {
      RunAt(s, r1 > r2, r1, out, |out| - 1);
    }
    assert |out| == |b|;
    forall j | 0 <= j < |out| ensures out[j] == b[j] {
      RunAt(s, r1 > r2, r1, out, j);
    }
  }

  /** Whether the scores of a list and a closed range overlap as intervals. */
  predicate Overlaps(s: seq<Item>, lo: real, hi: real) {
    lo <= hi && s != [] && s[|s| - 1].score >= lo && s[0].score <= hi
  }

  /** They do if some score is not below the range and some score is not above it. */
  lemma OverlapsIs(s: seq<Item>, lo: real, hi: real)
    requires Sorted(s)
    ensures Overlaps(s, lo, hi) <==>
      lo <= hi && (exists i :: 0 <= i < |s| && s[i].score >= lo) && (exists i :: 0 <= i < |s| && s[i].score <= hi)
  {
    forall i | 0 <= i < |s| ensures s[0].score <= s[i].score <= s[|s| - 1].score {
      ScoresAscend(s, 0, i);
      ScoresAscend(s, i, |s| - 1);
    }
  }

  lemma NothingWithin(s: seq<Item>, lo: real, hi: real)
    requires Sorted(s) && !Overlaps(s, lo, hi)
    ensures Within(s, lo, hi) == []
  {
    if s != [] {
      forall i | 0 <= i < |s| ensures s[0].score <= s[i].score <= s[|s| - 1].score {
        ScoresAscend(s, 0, i);
        ScoresAscend(s, i, |s| - 1);
      }
      NoneWithin(s, lo, hi);
    }
  }

  lemma BelowSplit(s: seq<Item>, bound: real)
    requires Sorted(s)
    ensures forall i :: 0 <= i < |s| ==> (s[i].score < bound <==> i < Prefix(s, ScoreBelow(bound)))
  {
    var k := Prefix(s, ScoreBelow(bound));
    hide Sorted, Prefix;
    forall i | 0 <= i < |s| ensures s[i].score < bound <==> i < k {
      if i < k {
        assert ScoreBelow(bound)(s[i]);
      } else {
        assert !ScoreBelow(bound)(s[k]);
        ScoresAscend(s, k, i);
      }
    }
  }

  lemma UpToSplit(s: seq<Item>, bound: real)
    requires Sorted(s)
    ensures forall i :: 0 <= i < |s| ==> (s[i].score <= bound <==> i < Prefix(s, ScoreUpTo(bound)))
  {
    var k := Prefix(s, ScoreUpTo(bound));
    hide Sorted, Prefix;
    forall i | 0 <= i < |s| ensures s[i].score <= bound <==> i < k {
      if i < k {
        assert ScoreUpTo(bound)(s[i]);
      } else {
        assert !ScoreUpTo(bound)(s[k]);
        ScoresAscend(s, k, i);
      }
    }
  }

  lemma RunSlice(s: seq<Item>, reverse: bool, start: nat, out: seq<Item>)
    requires RunOf(s, reverse, start, out) && (out == [] ==> 0 < start <= |s| + 1)
    ensures !reverse ==> 0 < start <= start + |out| <= |s| + 1 && out == s[start - 1..start - 1 + |out|]
    ensures reverse && start <= |s| ==> |out| <= start && out == Reverse(s[start - |out|..start])
  {
    if out != [] {
      RunAt(s, reverse, start, out, |out| - 1);
      RunAt(s, reverse, start, out, 0);
    }
    hide RunOf, Reverse;
    if !reverse {
      var t := s[start - 1..start - 1 + |out|];
      forall j | 0 <= j < |out| ensures out[j] == t[j] {
        RunAt(s, reverse, start, out, j);
      }
    } else if start <= |s| {
      var t := Reverse(s[start - |out|..start]);
      forall j | 0 <= j < |out| ensures out[j] == t[j] {
        RunAt(s, reverse, start, out, j);
      }
    }
  }

  /** Upwards from the first score of at least lo, until one is above hi. */
  lemma RunUp(s: seq<Item>, lo: real, hi: real, start: nat, out: seq<Item>)
    requires Sorted(s) && RunOf(s, false, start, out) && start == Prefix(s, ScoreBelow(lo)) + 1
    requires forall j :: 0 <= j < |out| ==> out[j].score <= hi
    requires start + |out| <= |s| ==> s[start + |out| - 1].score > hi
    ensures out == Within(s, lo, hi)
  {
    hide Sorted, RunOf, Prefix, Within;
    RunSlice(s, false, start, out);
    var a, b := start - 1, start - 1 + |out|;
    BelowSplit(s, lo);
    forall i | b <= i < |s| ensures s[i].score > hi {
      ScoresAscend(s, b, i);
    }
    forall i | a <= i < b ensures s[i].score <= hi {
      assert s[i] == out[i - a];
    }
    WithinSlice(s, lo, hi, a, b);
  }

  /** Downwards from the last score of at most hi, until one is below lo. */
  lemma RunDown(s: seq<Item>, lo: real, hi: real, start: nat, out: seq<Item>)
    requires Sorted(s) && RunOf(s, true, start, out) && 0 < start == Prefix(s, ScoreUpTo(hi))
    requires forall j :: 0 <= j < |out| ==> out[j].score >= lo
    requires |out| < start ==> s[start - |out| - 1].score < lo
    ensures out == Reverse(Within(s, lo, hi))
  {
    hide Sorted, RunOf, Prefix, Within, Reverse;
    RunSlice(s, true, start, out);
    var a, b := start - |out|, start;
    UpToSplit(s, hi);
    forall i | 0 <= i < a ensures s[i].score < lo {
      ScoresAscend(s, i, a - 1);
    }
    forall i | a <= i < b ensures s[i].score >= lo {
      assert s[i] == out[b - 1 - i];
    }
    WithinSlice(s, lo, hi, a, b);
  }

  // ---------------------------------------------------------------- levels

  /** Heights of the nodes by position; position 0 is the header. */
  type Heights = seq<nat>

  /** The next position of a node taller than l, or |hs| if there is none. */
  function Next(hs: Heights, p: nat, l: nat): (q: nat)
    requires p < |hs|
    ensures p < q <= |hs|
    ensures q < |hs| ==> hs[q] > l
    ensures forall r :: p < r < q ==> hs[r] <= l
    decreases |hs| - p
  {
    if p + 1 == |hs| || hs[p + 1] > l then p + 1 else Next(hs, p + 1, l)
  }

  /** The last position up to k of a node taller than l. */
  function Prev(hs: Heights, k: nat, l: nat): (p: nat)
    requires k < |hs| && hs[0] > l
    ensures p <= k && hs[p] > l
    ensures forall r :: p < r <= k ==> hs[r] <= l
  {
    if hs[k] > l then k else Prev(hs, k - 1, l)
  }

  /** What the span of level l at position p must be: the distance to the next node of that
      level, or to the end of the list. */
  function Span(hs: Heights, p: nat, l: nat): (d: int)
    requires p < |hs|
  {
    (if Next(hs, p, l) < |hs| then Next(hs, p, l) else |hs| - 1) - p
  }

  lemma NextUnique(hs: Heights, p: nat, l: nat, q: nat)
    requires p < q <= |hs| && (q < |hs| ==> hs[q] > l)
    requires forall r :: p < r < q ==> hs[r] <= l
    ensures Next(hs, p, l) == q
  {
    var n := Next(hs, p, l);
    assert n < |hs| ==> hs[n] > l;
  }

  lemma PrevUnique(hs: Heights, k: nat, l: nat, p: nat)
    requires k < |hs| && hs[0] > l && p <= k && hs[p] > l
    requires forall r :: p < r <= k ==> hs[r] <= l
    ensures Prev(hs, k, l) == p
  {
    var n := Prev(hs, k, l);
    assert hs[n] > l;
  }

  function Inserted(hs: Heights, k: nat, h: nat): Heights
    requires k < |hs|
  {
    hs[..k + 1] + [h] + hs[k + 1..]
  }

  /** Inserting a node behind position k, seen from a position not behind it. */
  lemma NextBefore(hs: Heights, k: nat, h: nat, p: nat, l: nat)
    requires p <= k < |hs|
    ensures var q := Next(hs, p, l);
      Next(Inserted(hs, k, h), p, l) == if q <= k then q else if h > l then k + 1 else q + 1
  {
    var q, hs' := Next(hs, p, l), Inserted(hs, k, h);
    var q' := if q <= k then q else if h > l then k + 1 else q + 1;
    forall r | p < r < q' ensures hs'[r] <= l {
      assert hs'[r] == if r <= k then hs[r] else if r == k + 1 then h else hs[r - 1];
    }
    NextUnique(hs', p, l, q');
  }

  /** Seen from the new node, and from the nodes behind it. */
  lemma NextBehind(hs: Heights, k: nat, h: nat, p: nat, l: nat)
    requires k <= p < |hs|
    ensures Next(Inserted(hs, k, h), p + 1, l) == Next(hs, p, l) + 1
  {
    var q, hs' := Next(hs, p, l), Inserted(hs, k, h);
    forall r | p + 1 < r < q + 1 ensures hs'[r] <= l {
      assert hs'[r] == hs[r - 1];
    }
    NextUnique(hs', p + 1, l, q + 1);
  }

  /** A link that crosses position k starts at the last node of its level up to k. */
  lemma CrossingStart(hs: Heights, k: nat, p: nat, l: nat)
    requires p <= k < |hs| && hs[0] > l && hs[p] > l && Next(hs, p, l) > k
    ensures Prev(hs, k, l) == p
  {
    PrevUnique(hs, k, l, p);
  }

  lemma PrevCrosses(hs: Heights, k: nat, l: nat)
    requires k < |hs| && hs[0] > l
    ensures Next(hs, Prev(hs, k, l), l) > k
  {
  }

  lemma PrevInserted(hs: Heights, k: nat, h: nat, l: nat)
    requires k < |hs| && hs[0] > l
    ensures Prev(Inserted(hs, k, h), k, l) == Prev(hs, k, l)
  {
    var p, hs' := Prev(hs, k, l), Inserted(hs, k, h);
    forall r | p < r <= k ensures hs'[r] <= l {
      assert hs'[r] == hs[r];
    }
    PrevUnique(hs', k, l, p);
  }

  // ---------------------------------------------------------------- the rank a descent finds

  const SKIPLIST_MAXLEVEL := 32

  /** The heights of a list of n elements of a given level: those of the header and of the elements. */
  ghost predicate Towers(hs: Heights, n: nat, level: nat) {
    && |hs| == n + 1 && hs[0] == SKIPLIST_MAXLEVEL && 1 <= level <= SKIPLIST_MAXLEVEL
    && (forall p :: 1 <= p <= n ==> 1 <= hs[p] <= level)
    && (level > 1 ==> exists p :: 1 <= p <= n && hs[p] == level)
  }

  /** The rank found on the levels below a given one: on the highest of them on which the last node
      not greater than x has x's object, the position of that node. */
  function RankIn(s: seq<Item>, hs: Heights, x: Item, level: nat): nat
    requires |hs| == |s| + 1 && hs[0] >= level
  {
    if level == 0 then 0
    else
      var p := Prev(hs, UpTo(s, x), level - 1);
      if p > 0 && s[p - 1].obj == x.obj then p else RankIn(s, hs, x, level - 1)
  }

  lemma {:induction false} RankInLevels(s: seq<Item>, hs: Heights, x: Item, level: nat)
    requires |hs| == |s| + 1 && hs[0] >= level
    ensures var rank := RankIn(s, hs, x, level); var k := UpTo(s, x);
      && rank <= k
      && (rank > 0 ==> s[rank - 1].obj == x.obj && exists l :: 0 <= l < level && Prev(hs, k, l) == rank)
      && (rank == 0 ==> forall l :: 0 <= l < level ==> Prev(hs, k, l) == 0 || s[Prev(hs, k, l) - 1].obj != x.obj)
  {
    hide Prefix, Prev;
    if level > 0 {
      RankInLevels(s, hs, x, level - 1);
    }
  }

  lemma RankInNone(s: seq<Item>, hs: Heights, x: Item)
    requires |hs| == |s| + 1
    ensures RankIn(s, hs, x, 0) == 0
  {
  }

  /** What is known of the rank whatever the heights. */
  lemma RankInFound(s: seq<Item>, hs: Heights, x: Item, level: nat)
    requires Towers(hs, |s|, level)
    ensures RankFound(s, x, RankIn(s, hs, x, level))
  {
    hide RankIn, Less;
    RankInLevels(s, hs, x, level);
    var k := UpTo(s, x);
    assert forall j :: 0 <= j < k ==> NotGreater(x)(s[j]);
    assert Prev(hs, k, 0) == k;
  }

  /** Something between a position and k is at least as tall. */
  ghost predicate Hidden(hs: Heights, q: nat, k: nat)
    requires q < |hs| && k < |hs|
  {
    exists r :: q < r <= k && hs[r] >= hs[q]
  }

  /** A node is the last one up to k on some level unless it is hidden. */
  lemma LastOnSomeLevel(hs: Heights, q: nat, k: nat, level: nat)
    requires 1 <= q <= k < |hs| && hs[0] >= level && 1 <= hs[q] <= level
    ensures (exists l :: 0 <= l < level && Prev(hs, k, l) == q) <==> !Hidden(hs, q, k)
  {
    if !Hidden(hs, q, k) {
      PrevUnique(hs, k, hs[q] - 1, q);
    }
  }

  /** A stored object, asked for with a larger score, is found exactly if its node is taller than
      all nodes between it and the place of the larger score. */
  lemma RankOfStale(s: seq<Item>, hs: Heights, x: Item, level: nat, i: nat)
    requires Sorted(s) && forall i, j :: 0 <= i < j < |s| ==> s[i].obj != s[j].obj
    requires Towers(hs, |s|, level) && i < |s| && s[i].obj == x.obj && s[i].score < x.score
    ensures i + 1 <= UpTo(s, x)
    ensures RankIn(s, hs, x, level) == if Hidden(hs, i + 1, UpTo(s, x)) then 0 else i + 1
  {
    hide RankIn, Prev, Hidden, Prefix;
    NotGreaterDownward(s, x);
    assert NotGreater(x)(s[i]);
    RankInLevels(s, hs, x, level);
    LastOnSomeLevel(hs, i + 1, UpTo(s, x), level);
  }

  /** For given heights the rank found is the right one if and only if the object is not stored
      with a smaller score, or the node that holds it so is hidden from the descent. */
  lemma RankExactAt(s: seq<Item>, hs: Heights, x: Item, level: nat)
    requires Sorted(s) && forall i, j :: 0 <= i < j < |s| ==> s[i].obj != s[j].obj
    requires Towers(hs, |s|, level)
    ensures RankRight(s, x, RankIn(s, hs, x, level)) <==>
      forall i :: 0 <= i < |s| && s[i].obj == x.obj && s[i].score < x.score ==> Hidden(hs, i + 1, UpTo(s, x))
  {
    hide RankIn, Hidden, Prefix, Less;
    if i :| 0 <= i < |s| && s[i].obj == x.obj && s[i].score < x.score {
      RankOfStale(s, hs, x, level, i);
    } else {
      RankInFound(s, hs, x, level);
      if x in s {
        RankOfStored(s, x, RankIn(s, hs, x, level));
      } else {
        forall i | 0 <= i < |s| && s[i].obj == x.obj ensures s[i].score > x.score {
          assert s[i] in s && s[i] != x;
        }
        RankOfAbsent(s, x, RankIn(s, hs, x, level));
      }
    }
  }

  /** Heights 1 everywhere but at one element, which has 2. */
  function Tower(n: nat, q: nat): (hs: Heights)
    requires 1 <= q <= n
    ensures |hs| == n + 1 && hs[0] == SKIPLIST_MAXLEVEL
    ensures forall p :: 1 <= p <= n ==> hs[p] == if p == q then 2 else 1
  {
    seq(n + 1, p => if p == 0 then SKIPLIST_MAXLEVEL else if p == q then 2 else 1)
  }

  /** The rank found is right for all heights the random generator may choose, if and only if the
      object is not stored with a smaller score. */
  lemma RankExact(s: seq<Item>, x: Item)
    requires Sorted(s) && forall i, j :: 0 <= i < j < |s| ==> s[i].obj != s[j].obj
    ensures (forall hs, level :: Towers(hs, |s|, level) ==> RankRight(s, x, RankIn(s, hs, x, level))) <==>
      forall i :: 0 <= i < |s| && s[i].obj == x.obj ==> s[i].score >= x.score
  {
    hide RankIn, RankRight, Sorted;
    if i :| 0 <= i < |s| && s[i].obj == x.obj && s[i].score < x.score {
      StaleFound(s, x, i);
      assert !RankRight(s, x, RankIn(s, Tower(|s|, i + 1), x, 2));
    } else {
      forall hs, level | Towers(hs, |s|, level) ensures RankRight(s, x, RankIn(s, hs, x, level)) {
        RankExactAt(s, hs, x, level);
      }
    }
  }

  /** The heights that betray a stale object. */
  lemma StaleFound(s: seq<Item>, x: Item, i: nat)
    requires Sorted(s) && forall i, j :: 0 <= i < j < |s| ==> s[i].obj != s[j].obj
    requires i < |s| && s[i].obj == x.obj && s[i].score < x.score
    ensures var hs := Tower(|s|, i + 1); Towers(hs, |s|, 2) && !RankRight(s, x, RankIn(s, hs, x, 2))
  {
    hide RankIn, RankRight, Prefix, Less, Hidden, Sorted;
    var hs := Tower(|s|, i + 1);
    assert hs[i + 1] == 2;
    RankOfStale(s, hs, x, 2, i);
    NothingTaller(hs, i + 1, UpTo(s, x));
    RankExactAt(s, hs, x, 2);
  }

  lemma NothingTaller(hs: Heights, q: nat, k: nat)
    requires q < |hs| && k < |hs| && forall r :: q < r <= k ==> hs[r] < hs[q]
    ensures !Hidden(hs, q, k)
  {
  }

  /** Asked for with a larger score than it has, an only element is found all the same. */
  lemma RankOfStaleScore(o: Obj)
    ensures RankIn([Item(1.0, o)], [SKIPLIST_MAXLEVEL, 1], Item(2.0, o), 1) == 1
    ensures Item(2.0, o) !in [Item(1.0, o)]
  {
    var s, x := [Item(1.0, o)], Item(2.0, o);
    assert NotGreater(x)(s[0]);
    assert UpTo(s, x) == 1;
  }
}
