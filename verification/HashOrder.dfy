/** Merge sort as a function on sequences: what each pass of the in-place sort computes, and why
    the passes end in a stable sorted permutation. */
module HashOrder {
  import opened Sequences

  /** A comparison in the C style: at most 0 means the first element may stand before the second. */
  type Cmp<!T> = (T, T) -> int

  /** cmp orders the elements of u totally, ties allowed. */
  ghost predicate TotalOn<T>(cmp: Cmp<T>, u: set<T>) {
    && (forall a, b :: a in u && b in u ==> cmp(a, b) <= 0 || cmp(b, a) <= 0)
    && (forall a, b, c :: a in u && b in u && c in u && cmp(a, b) <= 0 && cmp(b, c) <= 0 ==> cmp(a, c) <= 0)
  }

  ghost predicate In<T>(s: seq<T>, u: set<T>) {
    forall i :: 0 <= i < |s| ==> s[i] in u
  }

  ghost predicate Sorted<T>(s: seq<T>, cmp: Cmp<T>) {
    forall i, j :: 0 <= i < j < |s| ==> cmp(s[i], s[j]) <= 0
  }

  /** The elements that tie with x, in order. */
  function Ties<T>(s: seq<T>, x: T, cmp: Cmp<T>): (r: seq<T>) {
    if s == [] then []
    else if cmp(s[0], x) <= 0 && cmp(x, s[0]) <= 0 then [s[0]] + Ties(s[1..], x, cmp)
    else Ties(s[1..], x, cmp)
  }

  /** The smaller head first, the left one if they tie. */
  function Merge<T>(a: seq<T>, b: seq<T>, cmp: Cmp<T>): (r: seq<T>)
    ensures |r| == |a| + |b|
    decreases |a| + |b|
  {
    if a == [] then b
    else if b == [] then a
    else if cmp(a[0], b[0]) <= 0 then [a[0]] + Merge(a[1..], b, cmp)
    else [b[0]] + Merge(a, b[1..], cmp)
  }

  function Size<T>(s: seq<T>, k: nat): (n: nat)
    ensures n <= |s| && n <= k
  {
    if |s| < k then |s| else k
  }

  function First<T>(s: seq<T>, k: nat): (r: seq<T>)
  {
    s[..Size(s, k)]
  }

  function Rest<T>(s: seq<T>, k: nat): (r: seq<T>)
    ensures |r| == |s| - Size(s, k)
  {
    s[Size(s, k)..]
  }

  /** One pass: neighbouring runs of k elements are merged. */
  function MergePass<T>(s: seq<T>, k: nat, cmp: Cmp<T>): (r: seq<T>)
    requires k > 0
    ensures |r| == |s|
    decreases |s|
  {
    if s == [] then []
    else
      var t := Rest(s, k);
      Merge(First(s, k), First(t, k), cmp) + MergePass(Rest(t, k), k, cmp)
  }

  /** Passes with runs twice as long each time, until one merge is enough. */
  function SortFrom<T>(s: seq<T>, k: nat, cmp: Cmp<T>): (r: seq<T>)
    requires k > 0
    ensures |r| == |s|
    decreases if |s| > k then |s| - k else 0
  {
    var t := MergePass(s, k, cmp);
    if |s| <= 2 * k then t else SortFrom(t, 2 * k, cmp)
  }

  // ---------------------------------------------------------------- permutation

  lemma MergeHead<T>(a: seq<T>, b: seq<T>, cmp: Cmp<T>)
    ensures a == [] ==> Merge(a, b, cmp) == b
    ensures b == [] ==> Merge(a, b, cmp) == a
    ensures a != [] && b != [] ==>
      Merge(a, b, cmp) == if cmp(a[0], b[0]) <= 0 then [a[0]] + Merge(a[1..], b, cmp) else [b[0]] + Merge(a, b[1..], cmp)
  {
  }

  lemma {:induction false} MergeSame<T>(a: seq<T>, b: seq<T>, cmp: Cmp<T>)
    ensures multiset(Merge(a, b, cmp)) == multiset(a) + multiset(b)
    decreases |a| + |b|
  {
    hide Merge;
    MergeHead(a, b, cmp);
    if a != [] && b != [] {
      if cmp(a[0], b[0]) <= 0 {
        MergeSame(a[1..], b, cmp);
        assert a == [a[0]] + a[1..];
      } else {
        MergeSame(a, b[1..], cmp);
        assert b == [b[0]] + b[1..];
      }
    }
  }

  lemma SplitSame<T>(s: seq<T>, k: nat)
    ensures multiset(First(s, k)) + multiset(Rest(s, k)) == multiset(s)
  {
    assert s == First(s, k) + Rest(s, k);
  }

  lemma {:induction false} PassSame<T>(s: seq<T>, k: nat, cmp: Cmp<T>)
    requires k > 0
    ensures multiset(MergePass(s, k, cmp)) == multiset(s)
    decreases |s|
  {
    hide First, Rest, Merge;
    if s != [] {
      var t := Rest(s, k);
      PassSame(Rest(t, k), k, cmp);
      MergeSame(First(s, k), First(t, k), cmp);
      SplitSame(s, k);
      SplitSame(t, k);
    }
  }

  /** The sort keeps exactly the same elements, whatever the comparison. */
  lemma {:induction false} SortSame<T>(s: seq<T>, k: nat, cmp: Cmp<T>)
    requires k > 0
    ensures multiset(SortFrom(s, k, cmp)) == multiset(s)
    decreases if |s| > k then |s| - k else 0
  {
    hide MergePass;
    PassSame(s, k, cmp);
    if |s| > 2 * k {
      SortSame(MergePass(s, k, cmp), 2 * k, cmp);
    }
  }

  // ---------------------------------------------------------------- order

  lemma InMultiset<T>(s: seq<T>, u: set<T>, t: seq<T>)
    requires In(s, u) && multiset(t) == multiset(s)
    ensures In(t, u)
  {
    forall i | 0 <= i < |t| ensures t[i] in u {
      assert t[i] in multiset(t);
      assert t[i] in s;
    }
  }

  lemma InMerge<T>(a: seq<T>, b: seq<T>, cmp: Cmp<T>, u: set<T>)
    requires In(a, u) && In(b, u)
    ensures In(Merge(a, b, cmp), u)
    ensures forall i :: 0 <= i < |a| + |b| ==> Merge(a, b, cmp)[i] in a || Merge(a, b, cmp)[i] in b
  {
    MergeSame(a, b, cmp);
    var r := Merge(a, b, cmp);
    hide Merge;
    forall i | 0 <= i < |r| ensures r[i] in a || r[i] in b {
      assert r[i] in multiset(r);
    }
  }

  lemma {:induction false} MergeSorted<T>(a: seq<T>, b: seq<T>, cmp: Cmp<T>, u: set<T>)
    requires TotalOn(cmp, u) && In(a, u) && In(b, u) && Sorted(a, cmp) && Sorted(b, cmp)
    ensures Sorted(Merge(a, b, cmp), cmp)
    decreases |a| + |b|
  {
    if a != [] && b != [] {
      if cmp(a[0], b[0]) <= 0 {
        MergeSorted(a[1..], b, cmp, u);
        InMerge(a[1..], b, cmp, u);
        HeadFirst(a[0], a[1..], b, Merge(a[1..], b, cmp), cmp, u);
      } else {
        MergeSorted(a, b[1..], cmp, u);
        InMerge(a, b[1..], cmp, u);
        HeadFirst(b[0], b[1..], a, Merge(a, b[1..], cmp), cmp, u);
      }
    }
  }

  /** An element not after any of a, and not after the head of b, goes before them all. */
  lemma HeadFirst<T>(x: T, a: seq<T>, b: seq<T>, r: seq<T>, cmp: Cmp<T>, u: set<T>)
    requires TotalOn(cmp, u) && x in u && In(a, u) && In(b, u) && Sorted(r, cmp)
    requires forall i :: 0 <= i < |a| ==> cmp(x, a[i]) <= 0
    requires b != [] && Sorted(b, cmp) && cmp(x, b[0]) <= 0
    requires forall i :: 0 <= i < |r| ==> r[i] in a || r[i] in b
    ensures Sorted([x] + r, cmp)
  {
    forall i | 0 <= i < |r| ensures cmp(x, r[i]) <= 0 {
      if r[i] in b {
        var j :| 0 <= j < |b| && b[j] == r[i];
        assert j > 0 ==> cmp(b[0], b[j]) <= 0;
      }
    }
  }

  /** The list is a chain of sorted runs of k elements, the last one perhaps shorter. */
  ghost predicate Runs<T>(s: seq<T>, k: nat, cmp: Cmp<T>)
    requires k > 0
    decreases |s|
  {
    s == [] || (Sorted(First(s, k), cmp) && Runs(Rest(s, k), k, cmp))
  }

  lemma {:induction false} RunsOfOne<T>(s: seq<T>, cmp: Cmp<T>)
    ensures Runs(s, 1, cmp)
    decreases |s|
  {
    if s != [] {
      RunsOfOne(Rest(s, 1), cmp);
    }
  }

  lemma InParts<T>(s: seq<T>, k: nat, u: set<T>)
    requires In(s, u)
    ensures In(First(s, k), u) && In(Rest(s, k), u)
  {
  }

  /** A first run and what follows it. */
  lemma RunsOfConcat<T>(a: seq<T>, b: seq<T>, k: nat, cmp: Cmp<T>)
    requires k > 0 && Sorted(a, cmp) && |a| <= k && (|a| < k ==> b == []) && Runs(b, k, cmp)
    ensures Runs(a + b, k, cmp)
  {
    hide Sorted;
    if a != [] {
      assert First(a + b, k) == a;
      assert Rest(a + b, k) == b;
    } else {
      assert a + b == [];
    }
  }

  lemma {:induction false} PassRuns<T>(s: seq<T>, k: nat, cmp: Cmp<T>, u: set<T>)
    requires k > 0 && TotalOn(cmp, u) && In(s, u) && Runs(s, k, cmp)
    ensures Runs(MergePass(s, k, cmp), 2 * k, cmp)
    decreases |s|
  {
    hide First, Rest, Merge, Sorted, TotalOn, In;
    if s != [] {
      var t := Rest(s, k);
      InParts(s, k, u);
      InParts(t, k, u);
      NoRun(cmp);
      MergeSorted(First(s, k), First(t, k), cmp, u);
      PassRuns(Rest(t, k), k, cmp, u);
      SizesOfParts(s, k);
      RunsOfConcat(Merge(First(s, k), First(t, k), cmp), MergePass(Rest(t, k), k, cmp), 2 * k, cmp);
    }
  }

  lemma NoRun<T>(cmp: Cmp<T>)
    ensures Sorted([], cmp)
    ensures forall k: nat :: First<T>([], k) == []
  {
  }

  lemma SizesOfParts<T>(s: seq<T>, k: nat)
    ensures var t := Rest(s, k); var n := |First(s, k)| + |First(t, k)|;
      n <= 2 * k && (n < 2 * k ==> Rest(t, k) == [])
  {
  }

  lemma OneRun<T>(s: seq<T>, k: nat, cmp: Cmp<T>)
    requires k > 0 && Runs(s, k, cmp) && |s| <= k
    ensures Sorted(s, cmp)
  {
    assert First(s, k) == s;
  }

  /** The sort ends with a sorted list. */
  lemma {:induction false} SortSorted<T>(s: seq<T>, k: nat, cmp: Cmp<T>, u: set<T>)
    requires k > 0 && TotalOn(cmp, u) && In(s, u) && Runs(s, k, cmp)
    ensures Sorted(SortFrom(s, k, cmp), cmp)
    decreases if |s| > k then |s| - k else 0
  {
    hide MergePass, Runs, In, TotalOn, Sorted;
    var t := MergePass(s, k, cmp);
    PassRuns(s, k, cmp, u);
    PassSame(s, k, cmp);
    InMultiset(s, u, t);
    if |s| <= 2 * k {
      OneRun(t, 2 * k, cmp);
    } else {
      SortSorted(t, 2 * k, cmp, u);
    }
  }

  // ---------------------------------------------------------------- stability

  lemma {:induction false} TiesConcat<T>(a: seq<T>, b: seq<T>, x: T, cmp: Cmp<T>)
    ensures Ties(a + b, x, cmp) == Ties(a, x, cmp) + Ties(b, x, cmp)
  {
    if a == [] {
      assert a + b == b;
    } else {
      TiesConcat(a[1..], b, x, cmp);
      assert (a + b)[1..] == a[1..] + b;
      Assoc([a[0]], Ties(a[1..], x, cmp), Ties(b, x, cmp));
    }
  }

  lemma {:induction false} NoTies<T>(s: seq<T>, x: T, cmp: Cmp<T>)
    requires forall i :: 0 <= i < |s| ==> !(cmp(s[i], x) <= 0 && cmp(x, s[i]) <= 0)
    ensures Ties(s, x, cmp) == []
  {
    if s != [] {
      NoTies(s[1..], x, cmp);
    }
  }

  lemma TieLeft<T>(e: T, a: seq<T>, b: seq<T>, m: seq<T>, x: T, cmp: Cmp<T>)
    requires Ties(m, x, cmp) == Ties(a, x, cmp) + Ties(b, x, cmp)
    ensures Ties([e] + m, x, cmp) == Ties([e] + a, x, cmp) + Ties(b, x, cmp)
  {
    TiesOfHead(e, m, x, cmp);
    TiesOfHead(e, a, x, cmp);
    hide Ties;
    Assoc([e], Ties(a, x, cmp), Ties(b, x, cmp));
  }

  lemma TieRight<T>(e: T, a: seq<T>, b: seq<T>, m: seq<T>, x: T, cmp: Cmp<T>)
    requires Ties(m, x, cmp) == Ties(a, x, cmp) + Ties(b, x, cmp)
    requires cmp(e, x) <= 0 && cmp(x, e) <= 0 ==> Ties(a, x, cmp) == []
    ensures Ties([e] + m, x, cmp) == Ties(a, x, cmp) + Ties([e] + b, x, cmp)
  {
    TiesOfHead(e, m, x, cmp);
    TiesOfHead(e, b, x, cmp);
    hide Ties;
  }

  /** Merging keeps ties in order: those of the left run come first. */
  lemma {:induction false} MergeStable<T>(a: seq<T>, b: seq<T>, x: T, cmp: Cmp<T>, u: set<T>)
    requires TotalOn(cmp, u) && In(a, u) && In(b, u) && x in u && Sorted(a, cmp)
    ensures Ties(Merge(a, b, cmp), x, cmp) == Ties(a, x, cmp) + Ties(b, x, cmp)
    decreases |a| + |b|
  {
    hide Ties, TotalOn;
    EmptyTies(x, cmp);
    if a == [] || b == [] {
    } else if cmp(a[0], b[0]) <= 0 {
      MergeStable(a[1..], b, x, cmp, u);
      TieLeft(a[0], a[1..], b, Merge(a[1..], b, cmp), x, cmp);
      assert [a[0]] + a[1..] == a;
    } else {
      MergeStable(a, b[1..], x, cmp, u);
      if cmp(b[0], x) <= 0 && cmp(x, b[0]) <= 0 {
        AllAfter(a, b[0], x, cmp, u);
        NoTies(a, x, cmp);
      }
      TieRight(b[0], a, b[1..], Merge(a, b[1..], cmp), x, cmp);
      assert [b[0]] + b[1..] == b;
    }
  }

  lemma EmptyTies<T>(x: T, cmp: Cmp<T>)
    ensures Ties([], x, cmp) == []
  {
  }

  lemma TiesOfHead<T>(e: T, s: seq<T>, x: T, cmp: Cmp<T>)
    ensures Ties([e] + s, x, cmp) ==
            if cmp(e, x) <= 0 && cmp(x, e) <= 0 then [e] + Ties(s, x, cmp) else Ties(s, x, cmp)
  {
    assert ([e] + s)[1..] == s;
  }

  /** If y ties with x and stands strictly before the head of a sorted list, nothing in the list
      ties with x. */
  lemma AllAfter<T>(a: seq<T>, y: T, x: T, cmp: Cmp<T>, u: set<T>)
    requires TotalOn(cmp, u) && In(a, u) && a != [] && Sorted(a, cmp) && x in u && y in u
    requires cmp(a[0], y) > 0 && cmp(y, x) <= 0 && cmp(x, y) <= 0
    ensures forall i :: 0 <= i < |a| ==> !(cmp(a[i], x) <= 0 && cmp(x, a[i]) <= 0)
  {
    forall i | 0 <= i < |a| ensures cmp(a[i], x) > 0 {
      var e := a[i];
      assert i == 0 || cmp(a[0], e) <= 0;
      assert cmp(e, x) <= 0 ==> cmp(e, y) <= 0;
    }
  }

  lemma {:induction false} PassStable<T>(s: seq<T>, k: nat, x: T, cmp: Cmp<T>, u: set<T>)
    requires k > 0 && TotalOn(cmp, u) && In(s, u) && Runs(s, k, cmp) && x in u
    ensures Ties(MergePass(s, k, cmp), x, cmp) == Ties(s, x, cmp)
    decreases |s|
  {
    hide First, Rest, Merge, Sorted, TotalOn, In, Ties;
    if s != [] {
      var t := Rest(s, k);
      var a, b, c := First(s, k), First(t, k), Rest(t, k);
      InParts(s, k, u);
      InParts(t, k, u);
      PassStable(c, k, x, cmp, u);
      MergeStable(a, b, x, cmp, u);
      TiesConcat(Merge(a, b, cmp), MergePass(c, k, cmp), x, cmp);
      TiesConcat(b, c, x, cmp);
      TiesConcat(a, t, x, cmp);
      Parts(s, k);
      Parts(t, k);
      Assoc(Ties(a, x, cmp), Ties(b, x, cmp), Ties(c, x, cmp));
    }
  }

  lemma Parts<T>(s: seq<T>, k: nat)
    ensures s == First(s, k) + Rest(s, k)
  {
  }

  /** The sort is stable: the elements that tie with any x keep their order. */
  lemma {:induction false} SortStable<T>(s: seq<T>, k: nat, x: T, cmp: Cmp<T>, u: set<T>)
    requires k > 0 && TotalOn(cmp, u) && In(s, u) && Runs(s, k, cmp) && x in u
    ensures Ties(SortFrom(s, k, cmp), x, cmp) == Ties(s, x, cmp)
    decreases if |s| > k then |s| - k else 0
  {
    hide MergePass, Runs, In, TotalOn, Ties;
    var t := MergePass(s, k, cmp);
    PassStable(s, k, x, cmp, u);
    PassRuns(s, k, cmp, u);
    PassSame(s, k, cmp);
    InMultiset(s, u, t);
    if |s| > 2 * k {
      SortStable(t, 2 * k, x, cmp, u);
    }
  }

  /** The whole sort of any list: sorted, a permutation, and stable. */
  lemma SortCorrect<T>(s: seq<T>, cmp: Cmp<T>, u: set<T>)
    requires TotalOn(cmp, u) && In(s, u)
    ensures Sorted(SortFrom(s, 1, cmp), cmp)
    ensures multiset(SortFrom(s, 1, cmp)) == multiset(s)
    ensures forall x :: x in u ==> Ties(SortFrom(s, 1, cmp), x, cmp) == Ties(s, x, cmp)
  {
    hide SortFrom, Runs, TotalOn, In, Sorted, Ties;
    RunsOfOne(s, cmp);
    SortSorted(s, 1, cmp, u);
    SortSame(s, 1, cmp);
    forall x | x in u ensures Ties(SortFrom(s, 1, cmp), x, cmp) == Ties(s, x, cmp) {
      SortStable(s, 1, x, cmp, u);
    }
  }
}
