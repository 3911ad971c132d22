/** The handles of a hash table, and the in-place merge sort of the list that keeps them in the
    order the application added them. */
module HashSort {
  import opened Serial
  import opened Sequences
  import opened HashOrder

  class Handle {
    const key: seq<byte>
    const hashv: u32
    var next: Handle?     // application order
    var prev: Handle?
    var hh_next: Handle?  // chain of the bucket
    var hh_prev: Handle?

    constructor (key: seq<byte>, hashv: u32)
      ensures this.key == key && this.hashv == hashv
    {
      this.key, this.hashv := key, hashv;
      next, prev, hh_next, hh_prev := null, null, null, null;
    }
  }

  function At(s: seq<Handle>, i: int): Handle? {
    if 0 <= i < |s| then s[i] else null
  }

  ghost function Nodes(s: seq<Handle>): (u: set<Handle>) {
    set n | n in s
  }

  /** Each node leads to the next one, the last to nothing. */
  ghost predicate Chain(s: seq<Handle>)
    reads Nodes(s)`next
  {
    forall i :: 0 <= i < |s| ==> s[i].next == At(s, i + 1)
  }

  /** The same, except that the last node may lead anywhere. */
  ghost predicate OpenChain(s: seq<Handle>)
    reads Nodes(s)`next
  {
    forall i :: 0 <= i < |s| && i != |s| - 1 ==> s[i].next == At(s, i + 1)
  }

  ghost predicate BackChain(s: seq<Handle>)
    reads Nodes(s)`prev
  {
    forall i :: 0 <= i < |s| ==> s[i].prev == At(s, i - 1)
  }

  ghost predicate List(s: seq<Handle>)
    reads Nodes(s)`next, Nodes(s)`prev
  {
    Distinct(s) && Chain(s) && BackChain(s)
  }

  /** No node occurs twice. */
  ghost predicate Apart(a: seq<Handle>, b: seq<Handle>, c: seq<Handle>) {
    && Distinct(a) && Distinct(b) && Distinct(c)
    && Nodes(a) !! Nodes(b) && Nodes(a) !! Nodes(c) && Nodes(b) !! Nodes(c)
  }

  lemma TailNodes(s: seq<Handle>)
    requires s != [] && Distinct(s)
    ensures Distinct(s[1..]) && Nodes(s[1..]) == Nodes(s) - {s[0]}
  {
    forall n | n in Nodes(s) && n != s[0] ensures n in s[1..] {
      var i :| 0 <= i < |s| && s[i] == n;
      assert s[1..][i - 1] == n;
    }
  }

  lemma PushNodes(s: seq<Handle>, e: Handle)
    requires Distinct(s) && e !in s
    ensures Distinct(s + [e]) && Nodes(s + [e]) == Nodes(s) + {e}
  {
    forall n | n in Nodes(s) ensures n in s + [e] {
      var i :| 0 <= i < |s| && s[i] == n;
      assert (s + [e])[i] == n;
    }
    assert (s + [e])[|s|] == e;
  }

  lemma MoveLeft(out: seq<Handle>, p: seq<Handle>, q: seq<Handle>)
    requires Apart(out, p, q) && p != []
    ensures Distinct(out + [p[0]]) && Apart(out + [p[0]], p[1..], q)
    ensures Nodes(out + [p[0]]) == Nodes(out) + {p[0]} && Nodes(p[1..]) == Nodes(p) - {p[0]}
  {
    hide Distinct;
    TailNodes(p);
    assert p[0] in Nodes(p);
    PushNodes(out, p[0]);
  }

  lemma MoveRight(out: seq<Handle>, p: seq<Handle>, q: seq<Handle>)
    requires Apart(out, p, q) && q != []
    ensures Distinct(out + [q[0]]) && Apart(out + [q[0]], p, q[1..])
    ensures Nodes(out + [q[0]]) == Nodes(out) + {q[0]} && Nodes(q[1..]) == Nodes(q) - {q[0]}
  {
    hide Distinct;
    TailNodes(q);
    assert q[0] in Nodes(q);
    PushNodes(out, q[0]);
  }

  // ---------------------------------------------------------------- appending to the output

  /** The output list so far, with its head and tail. */
  ghost predicate Output(out: seq<Handle>, list: Handle?, tail: Handle?)
    reads Nodes(out)`next, Nodes(out)`prev
  {
    OpenChain(out) && BackChain(out) && list == At(out, 0) && tail == At(out, |out| - 1)
  }

  method Append(list0: Handle?, tail0: Handle?, e: Handle, ghost out: seq<Handle>) returns (list: Handle?, tail: Handle?)
    requires Distinct(out + [e]) && Output(out, list0, tail0)
    modifies (if tail0 == null then {} else {tail0})`next, e`prev
    ensures Output(out + [e], list, tail)
  {
    if out != [] { LastDistinct(out, e); }
    list, tail := list0, tail0;
    if tail != null {
      tail.next := e;
    } else {
      list := e;
    }
    e.prev := tail;
    tail := e;
  }

  lemma LastDistinct(out: seq<Handle>, e: Handle)
    requires Distinct(out + [e]) && out != []
    ensures forall i :: 0 <= i < |out| ==> out[i] != e && (i != |out| - 1 ==> out[i] != out[|out| - 1])
  {
    var s := out + [e];
    forall i | 0 <= i < |out| ensures out[i] != e && (i != |out| - 1 ==> out[i] != out[|out| - 1]) {
      assert s[i] != s[|out|];
      assert i != |out| - 1 ==> s[i] != s[|out| - 1];
    }
  }

  // ---------------------------------------------------------------- one merge

  /** What a merge has still to do: the rest of the left run, and the rest of the list, of which at
      most qsize nodes belong to the right run. */
  function Left(out: seq<Handle>, p: seq<Handle>, q: seq<Handle>, qsize: nat, cmp: Cmp<Handle>): seq<Handle> {
    out + Merge(p, First(q, qsize), cmp) + Rest(q, qsize)
  }

  lemma TakeLeft(out: seq<Handle>, p: seq<Handle>, q: seq<Handle>, qsize: nat, cmp: Cmp<Handle>)
    requires p != [] && (qsize == 0 || q == [] || cmp(p[0], q[0]) <= 0)
    ensures Left(out, p, q, qsize, cmp) == Left(out + [p[0]], p[1..], q, qsize, cmp)
  {
    var b := First(q, qsize);
    assert Merge(p, b, cmp) == [p[0]] + Merge(p[1..], b, cmp) by {
      if b == [] {
        assert p == [p[0]] + p[1..];
      }
    }
    hide Merge, First, Rest;
    assert out + ([p[0]] + Merge(p[1..], b, cmp)) == (out + [p[0]]) + Merge(p[1..], b, cmp);
  }

  lemma TakeRight(out: seq<Handle>, p: seq<Handle>, q: seq<Handle>, qsize: nat, cmp: Cmp<Handle>)
    requires q != [] && qsize > 0 && (p == [] || cmp(p[0], q[0]) > 0)
    ensures Left(out, p, q, qsize, cmp) == Left(out + [q[0]], p, q[1..], qsize - 1, cmp)
  {
    var b := First(q, qsize);
    assert b[0] == q[0] && b[1..] == First(q[1..], qsize - 1);
    assert Rest(q, qsize) == Rest(q[1..], qsize - 1);
    assert Merge(p, b, cmp) == [b[0]] + Merge(p, b[1..], cmp) by {
      if p == [] {
        assert b == [b[0]] + b[1..];
      }
    }
    hide Merge, First, Rest;
    assert out + ([q[0]] + Merge(p, b[1..], cmp)) == (out + [q[0]]) + Merge(p, b[1..], cmp);
  }

  lemma NothingLeft(out: seq<Handle>, q: seq<Handle>, qsize: nat, cmp: Cmp<Handle>)
    requires qsize == 0 || q == []
    ensures Left(out, [], q, qsize, cmp) == out + q
  {
  }

  /** The state of a merge: nodes are output, or in the rest of the left run, or in the rest of the
      list. */
  ghost predicate Merging(u: set<Handle>, out: seq<Handle>, p: seq<Handle>, q: seq<Handle>, list: Handle?, tail: Handle?)
    reads u`next, u`prev
  {
    && Nodes(out) <= u && Nodes(p) <= u && Nodes(q) <= u
    && Apart(out, p, q) && Output(out, list, tail) && OpenChain(p) && Chain(q)
  }

  lemma TailOpen(p: seq<Handle>)
    requires OpenChain(p) && p != []
    ensures OpenChain(p[1..]) && (|p| > 1 ==> p[0].next == p[1])
  {
    forall i | 0 <= i < |p| - 1 && i != |p| - 2 ensures p[1..][i].next == At(p[1..], i + 1) {
      assert p[1..][i] == p[i + 1];
    }
  }

  lemma TailChain(q: seq<Handle>)
    requires Chain(q) && q != []
    ensures Chain(q[1..]) && q[0].next == At(q[1..], 0)
  {
    forall i | 0 <= i < |q| - 1 ensures q[1..][i].next == At(q[1..], i + 1) {
      assert q[1..][i] == q[i + 1];
    }
  }

  lemma TailIn(out: seq<Handle>, list: Handle?, tail: Handle?)
    requires Output(out, list, tail)
    ensures (tail == null <==> out == []) && (tail != null ==> tail in Nodes(out))
  {
  }

  /** Outputs the head of the left run. */
  method OutputLeft(list0: Handle?, tail0: Handle?, e: Handle, ghost u: set<Handle>,
                    ghost out: seq<Handle>, ghost p: seq<Handle>, ghost q: seq<Handle>)
    returns (list: Handle?, tail: Handle?)
    requires Merging(u, out, p, q, list0, tail0) && p != [] && e == p[0]
    modifies u`next, u`prev
    ensures Merging(u, out + [e], p[1..], q, list, tail)
  {
    hide Distinct, Chain, OpenChain, Output;
    MoveLeft(out, p, q);
    TailOpen(p);
    TailIn(out, list0, tail0);
    list, tail := Append(list0, tail0, e, out);
  }

  /** Outputs the head of the right run. */
  method OutputRight(list0: Handle?, tail0: Handle?, e: Handle, ghost u: set<Handle>,
                     ghost out: seq<Handle>, ghost p: seq<Handle>, ghost q: seq<Handle>)
    returns (list: Handle?, tail: Handle?)
    requires Merging(u, out, p, q, list0, tail0) && q != [] && e == q[0]
    modifies u`next, u`prev
    ensures Merging(u, out + [e], p, q[1..], list, tail)
  {
    hide Distinct, Chain, OpenChain, Output;
    MoveRight(out, p, q);
    TailChain(q);
    TailIn(out, list0, tail0);
    list, tail := Append(list0, tail0, e, out);
  }

  /** Merges the psize nodes from p0 on with the up to insize nodes from q0 on. */
  method MergeRuns(p0: Handle, psize0: nat, q0: Handle?, insize: nat, list0: Handle?, tail0: Handle?, cmp: Cmp<Handle>,
                   ghost u: set<Handle>, ghost out0: seq<Handle>, ghost left0: seq<Handle>, ghost right0: seq<Handle>)
    returns (q: Handle?, list: Handle?, tail: Handle?, ghost out: seq<Handle>)
    requires Merging(u, out0, left0, right0, list0, tail0) && psize0 == |left0| > 0 && p0 == left0[0] && q0 == At(right0, 0)
    modifies u`next, u`prev
    ensures out == out0 + Merge(left0, First(right0, insize), cmp)
    ensures Merging(u, out, [], Rest(right0, insize), list, tail) && q == At(Rest(right0, insize), 0)
  {
    hide Merging, Left, Merge, First, Rest;
    var p: Handle?, psize, qsize := p0, psize0, insize;
    q, list, tail, out := q0, list0, tail0, out0;
    ghost var left, right := left0, right0;
    while psize != 0 || (qsize != 0 && q != null)
      invariant psize == |left| && (|left| > 0 ==> p == left[0]) && q == At(right, 0)
      invariant Merging(u, out, left, right, list, tail)
      invariant Left(out, left, right, qsize, cmp) == Left(out0, left0, right0, insize, cmp)
      invariant Rest(right, qsize) == Rest(right0, insize)
      decreases psize + |right|
    {
      var e: Handle;
      MergingHeads(u, out, left, right, list, tail);
      if psize == 0 || !(qsize == 0 || q == null || cmp(p, q) <= 0) {
        TakeRight(out, left, right, qsize, cmp);
        RestNext(right, qsize);
        e := q;
        q := q.next;
        qsize := qsize - 1;
        list, tail := OutputRight(list, tail, e, u, out, left, right);
        out, right := out + [e], right[1..];
      } else {
        TakeLeft(out, left, right, qsize, cmp);
        e := p;
        p := p.next;
        psize := psize - 1;
        list, tail := OutputLeft(list, tail, e, u, out, left, right);
        out, left := out + [e], left[1..];
      }
    }
    MergeEnds(out, left, right, qsize, cmp, out0, left0, right0, insize);
  }

  lemma MergingHeads(u: set<Handle>, out: seq<Handle>, p: seq<Handle>, q: seq<Handle>, list: Handle?, tail: Handle?)
    requires Merging(u, out, p, q, list, tail)
    ensures |p| > 1 ==> p[0].next == p[1]
    ensures q != [] ==> q[0].next == At(q[1..], 0)
    ensures q == [] <==> At(q, 0) == null
  {
    if p != [] { TailOpen(p); }
    if q != [] { TailChain(q); }
  }

  lemma RestNext(q: seq<Handle>, qsize: nat)
    requires q != [] && qsize > 0
    ensures Rest(q[1..], qsize - 1) == Rest(q, qsize)
  {
  }

  lemma MergeEnds(out: seq<Handle>, p: seq<Handle>, q: seq<Handle>, qsize: nat, cmp: Cmp<Handle>,
                  out0: seq<Handle>, p0: seq<Handle>, q0: seq<Handle>, insize: nat)
    requires p == [] && (qsize == 0 || q == [])
    requires Left(out, p, q, qsize, cmp) == Left(out0, p0, q0, insize, cmp) && Rest(q, qsize) == Rest(q0, insize)
    ensures out == out0 + Merge(p0, First(q0, insize), cmp) && q == Rest(q0, insize)
  {
    NothingLeft(out, q, qsize, cmp);
    assert Rest(q, qsize) == q;
    var x := out0 + Merge(p0, First(q0, insize), cmp);
    hide Merge;
    assert x + q == out + q;
    assert |x| == |out|;
    assert x == (x + q)[..|x|] && out == (out + q)[..|out|];
  }

  // ---------------------------------------------------------------- passes

  /** Steps over one run: psize nodes, at most insize. */
  method SkipRun(p: Handle, insize: nat, ghost rest: seq<Handle>) returns (q: Handle?, psize: nat)
    requires Chain(rest) && rest != [] && p == rest[0] && insize > 0
    ensures psize == Size(rest, insize) && q == At(rest, psize)
  {
    q, psize := p, 0;
    var i := 0;
    while i < insize
      invariant i == psize <= insize && psize < |rest| && q == rest[psize]
    {
      psize := psize + 1;
      assert rest[psize - 1].next == At(rest, psize);
      q := q.next;
      if q == null {
        return;
      }
      i := i + 1;
    }
  }

  lemma SplitChain(rest: seq<Handle>, k: nat)
    requires Chain(rest) && Distinct(rest)
    ensures OpenChain(First(rest, k)) && Chain(Rest(rest, k))
    ensures Distinct(First(rest, k)) && Distinct(Rest(rest, k))
    ensures Nodes(First(rest, k)) <= Nodes(rest) && Nodes(Rest(rest, k)) <= Nodes(rest) && Nodes(First(rest, k)) !! Nodes(Rest(rest, k))
  {
    var n := Size(rest, k);
    var a, b := First(rest, k), Rest(rest, k);
    forall i | 0 <= i < |a| && i != |a| - 1 ensures a[i].next == At(a, i + 1) {
      assert a[i] == rest[i];
    }
    forall i | 0 <= i < |b| ensures b[i].next == At(b, i + 1) {
      assert b[i] == rest[n + i];
    }
    forall x | x in a ensures x !in b {
      var i :| 0 <= i < |a| && a[i] == x;
      assert rest[i] == x;
    }
  }

  lemma StartMerge(u: set<Handle>, out: seq<Handle>, rest: seq<Handle>, k: nat, list: Handle?, tail: Handle?)
    requires Merging(u, out, [], rest, list, tail)
    ensures Merging(u, out, First(rest, k), Rest(rest, k), list, tail)
  {
    hide Distinct, Chain, OpenChain, Output, First, Rest;
    SplitChain(rest, k);
  }

  lemma PassNext(out: seq<Handle>, rest: seq<Handle>, k: nat, cmp: Cmp<Handle>)
    requires k > 0 && rest != []
    ensures var t := Rest(rest, k); var m := Merge(First(rest, k), First(t, k), cmp);
      out + MergePass(rest, k, cmp) == (out + m) + MergePass(Rest(t, k), k, cmp)
    ensures |First(rest, k)| > 0 && First(rest, k)[0] == rest[0] && |First(rest, k)| == Size(rest, k)
    ensures At(Rest(rest, k), 0) == At(rest, Size(rest, k)) && |Rest(Rest(rest, k), k)| < |rest|
  {
    var t := Rest(rest, k);
    var m := Merge(First(rest, k), First(t, k), cmp);
    assert MergePass(rest, k, cmp) == m + MergePass(Rest(t, k), k, cmp);
    hide MergePass;
    assert out + (m + MergePass(Rest(t, k), k, cmp)) == (out + m) + MergePass(Rest(t, k), k, cmp);
  }

  /** One merge of a pass. */
  method PassStep(p: Handle, insize: nat, first0: Handle?, last0: Handle?, cmp: Cmp<Handle>,
                  ghost u: set<Handle>, ghost out0: seq<Handle>, ghost rest: seq<Handle>)
    returns (q: Handle?, first: Handle?, last: Handle?, ghost out: seq<Handle>)
    requires Merging(u, out0, [], rest, first0, last0) && rest != [] && p == rest[0] && insize > 0
    modifies u`next, u`prev
    ensures Merging(u, out, [], Rest(Rest(rest, insize), insize), first, last)
    ensures q == At(Rest(Rest(rest, insize), insize), 0) && |Rest(Rest(rest, insize), insize)| < |rest|
    ensures out + MergePass(Rest(Rest(rest, insize), insize), insize, cmp) == out0 + MergePass(rest, insize, cmp)
  {
    hide Merging, MergePass, First, Rest, Chain, Distinct, Merge;
    PassNext(out0, rest, insize, cmp);
    MergingChain(u, out0, rest, first0, last0);
    var psize: nat;
    q, psize := SkipRun(p, insize, rest);
    StartMerge(u, out0, rest, insize, first0, last0);
    q, first, last, out := MergeRuns(p, psize, q, insize, first0, last0, cmp, u, out0, First(rest, insize), Rest(rest, insize));
  }

  /** One pass over the list; nmerges tells whether it was the last one needed. */
  method Pass(list0: Handle, insize: nat, cmp: Cmp<Handle>, ghost s: seq<Handle>)
    returns (list: Handle, tail: Handle, nmerges: nat)
    requires Chain(s) && Distinct(s) && s != [] && list0 == s[0] && insize > 0
    modifies Nodes(s)`next, Nodes(s)`prev
    ensures List(MergePass(s, insize, cmp)) && Nodes(MergePass(s, insize, cmp)) == Nodes(s)
    ensures list == MergePass(s, insize, cmp)[0] && tail == MergePass(s, insize, cmp)[|s| - 1]
    ensures nmerges <= 1 <==> |s| <= 2 * insize
  {
    hide Merging, MergePass, First, Rest, Chain, Distinct, OpenChain, Output, List;
    var p: Handle? := list0;
    var first: Handle?, last: Handle? := null, null;
    nmerges := 0;
    ghost var u, out, rest := Nodes(s), [], s;
    BeginPass(u, s);
    assert [] + MergePass(s, insize, cmp) == MergePass(s, insize, cmp);
    while p != null
      invariant Merging(u, out, [], rest, first, last) && p == At(rest, 0)
      invariant out + MergePass(rest, insize, cmp) == MergePass(s, insize, cmp)
      invariant nmerges == 0 ==> |rest| == |s|
      invariant nmerges == 1 ==> |rest| == if |s| <= 2 * insize then 0 else |s| - 2 * insize
      invariant nmerges > 1 ==> |s| > 2 * insize
      decreases |rest|
    {
      HeadIs(rest);
      nmerges := nmerges + 1;
      ThirdRun(rest, insize);
      p, first, last, out := PassStep(p, insize, first, last, cmp, u, out, rest);
      rest := Rest(Rest(rest, insize), insize);
    }
    HeadIs(rest);
    list, tail := FinishPass(first, last, insize, cmp, u, out, rest, s);
  }

  /** Closes the list that a pass has built. */
  method FinishPass(first: Handle?, last: Handle?, insize: nat, cmp: Cmp<Handle>,
                    ghost u: set<Handle>, ghost out: seq<Handle>, ghost rest: seq<Handle>, ghost s: seq<Handle>)
    returns (list: Handle, tail: Handle)
    requires Merging(u, out, [], rest, first, last) && rest == [] && s != [] && insize > 0 && u == Nodes(s)
    requires out + MergePass(rest, insize, cmp) == MergePass(s, insize, cmp)
    modifies u`next
    ensures List(MergePass(s, insize, cmp)) && Nodes(MergePass(s, insize, cmp)) == Nodes(s)
    ensures list == MergePass(s, insize, cmp)[0] && tail == MergePass(s, insize, cmp)[|s| - 1]
  {
    hide Merging, MergePass, Chain, Distinct, OpenChain, Output, List;
    PassDone(out, s, insize, cmp);
    EndMerge(u, out, first, last);
    CloseTail(last, out);
    list, tail := first, last;
  }

  lemma HeadIs(rest: seq<Handle>)
    ensures At(rest, 0) == null <==> rest == []
    ensures rest != [] ==> At(rest, 0) == rest[0]
  {
  }

  lemma ThirdRun(s: seq<Handle>, k: nat)
    ensures |Rest(Rest(s, k), k)| == if |s| <= 2 * k then 0 else |s| - 2 * k
  {
  }

  lemma BeginPass(u: set<Handle>, s: seq<Handle>)
    requires Chain(s) && Distinct(s) && u == Nodes(s)
    ensures Merging(u, [], [], s, null, null)
  {
  }

  lemma MergingChain(u: set<Handle>, out: seq<Handle>, rest: seq<Handle>, list: Handle?, tail: Handle?)
    requires Merging(u, out, [], rest, list, tail)
    ensures Chain(rest)
  {
  }

  lemma PassDone(out: seq<Handle>, s: seq<Handle>, k: nat, cmp: Cmp<Handle>)
    requires k > 0 && s != [] && out + MergePass([], k, cmp) == MergePass(s, k, cmp)
    ensures out == MergePass(s, k, cmp) && |out| == |s| && Nodes(out) == Nodes(s)
  {
    assert out + [] == out;
    PassSame(s, k, cmp);
    hide MergePass;
    SameNodes(out, s);
  }

  lemma SameNodes(a: seq<Handle>, b: seq<Handle>)
    requires multiset(a) == multiset(b)
    ensures Nodes(a) == Nodes(b)
  {
    forall n | n in Nodes(a) ensures n in b {
      assert n in multiset(a);
    }
    forall n | n in Nodes(b) ensures n in a {
      assert n in multiset(b);
    }
  }

  lemma EndMerge(u: set<Handle>, out: seq<Handle>, list: Handle?, tail: Handle?)
    requires Merging(u, out, [], [], list, tail) && out != []
    ensures OpenChain(out) && BackChain(out) && Distinct(out)
    ensures list == out[0] && tail == out[|out| - 1] && tail in Nodes(out)
  {
  }

  /** Ending the last link closes the list. */
  method CloseTail(tail: Handle, ghost out: seq<Handle>)
    requires Distinct(out) && BackChain(out) && OpenChain(out) && out != [] && tail == out[|out| - 1]
    modifies tail`next
    ensures List(out)
  {
    tail.next := null;
  }

  /** Sorts the list in place. */
  method Sort(head: Handle, cmp: Cmp<Handle>, ghost s: seq<Handle>) returns (list: Handle, tail: Handle)
    requires List(s) && s != [] && head == s[0]
    modifies Nodes(s)`next, Nodes(s)`prev
    ensures List(SortFrom(s, 1, cmp)) && Nodes(SortFrom(s, 1, cmp)) == Nodes(s)
    ensures list == SortFrom(s, 1, cmp)[0] && tail == SortFrom(s, 1, cmp)[|s| - 1]
  {
    hide MergePass, Chain, Distinct, BackChain;
    list, tail := head, head;
    var insize := 1;
    var looping := true;
    ghost var t := s;
    while looping
      invariant insize > 0 && |t| == |s| && List(t) && Nodes(t) == Nodes(s) && list == t[0]
      invariant looping ==> SortFrom(t, insize, cmp) == SortFrom(s, 1, cmp)
      invariant !looping ==> t == SortFrom(s, 1, cmp) && tail == t[|t| - 1]
      decreases looping, if |s| > insize then |s| - insize else 0
    {
      var nmerges: nat;
      ghost var t' := MergePass(t, insize, cmp);
      SortStep(t, insize, cmp);
      list, tail, nmerges := Pass(list, insize, cmp, t);
      t := t';
      if nmerges <= 1 {
        looping := false;
      }
      insize := insize * 2;
    }
  }

  lemma SortStep(s: seq<Handle>, k: nat, cmp: Cmp<Handle>)
    requires k > 0
    ensures SortFrom(s, k, cmp) == if |s| <= 2 * k then MergePass(s, k, cmp) else SortFrom(MergePass(s, k, cmp), 2 * k, cmp)
  {
    hide MergePass;
  }
}
