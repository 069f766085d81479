/**
 Bottom-up mergesort on sequences: what `core_list_mergesort` computes, and that this is a stable sort.
 A comparison may depend on a state, which every comparison may change.
 */
module StableMerge {

  /** What a comparison of two elements answers in a state, and the state after it. */
  datatype Comparator<!A, !S> = Comparator(cmp: (A, A, S) -> int, after: (A, A, S) -> S)

  function Least(a: nat, b: nat): nat {
    if a < b then a else b
  }

  /** Merges two runs; equal elements come from `p`. The second result is the state after all comparisons. */
  function Merge<A, S>(p: seq<A>, q: seq<A>, c: Comparator<A, S>, st: S): (r: (seq<A>, S))
    decreases |p| + |q|
  {
    if p == [] then (q, st)
    else if q == [] then (p, st)
    else if c.cmp(p[0], q[0], st) <= 0 then
      var (rest, t) := Merge(p[1..], q, c, c.after(p[0], q[0], st));
      ([p[0]] + rest, t)
    else
      var (rest, t) := Merge(p, q[1..], c, c.after(p[0], q[0], st));
      ([q[0]] + rest, t)
  }

  /** One pass: consecutive pairs of runs of length `w` are merged. */
  function Pass<A, S>(s: seq<A>, w: nat, c: Comparator<A, S>, st: S): (r: (seq<A>, S))
    requires w > 0
    decreases |s|
  {
    if s == [] then ([], st)
    else
      var mid, end := Least(w, |s|), Least(2 * w, |s|);
      var (block, t) := Merge(s[..mid], s[mid..end], c, st);
      var (rest, u) := Pass(s[end..], w, c, t);
      (block + rest, u)
  }

  lemma {:induction false} MergePermutes<A, S>(p: seq<A>, q: seq<A>, c: Comparator<A, S>, st: S)
    ensures multiset(Merge(p, q, c, st).0) == multiset(p) + multiset(q)
    ensures |Merge(p, q, c, st).0| == |p| + |q|
    decreases |p| + |q|
  {
    if p != [] && q != [] {
      if c.cmp(p[0], q[0], st) <= 0 {
        MergePermutes(p[1..], q, c, c.after(p[0], q[0], st));
        assert p == [p[0]] + p[1..];
      } else {
        MergePermutes(p, q[1..], c, c.after(p[0], q[0], st));
        assert q == [q[0]] + q[1..];
      }
    }
  }

  lemma {:induction false} PassPermutes<A, S>(s: seq<A>, w: nat, c: Comparator<A, S>, st: S)
    requires w > 0
    ensures multiset(Pass(s, w, c, st).0) == multiset(s)
    ensures |Pass(s, w, c, st).0| == |s|
    decreases |s|
  {
    if s != [] {
      var mid, end := Least(w, |s|), Least(2 * w, |s|);
      MergePermutes(s[..mid], s[mid..end], c, st);
      PassPermutes(s[end..], w, c, Merge(s[..mid], s[mid..end], c, st).1);
      assert s == s[..mid] + s[mid..end] + s[end..];
    }
  }

  /** Passes with doubling run length until one merge covers the list. */
  function Sort<A, S>(s: seq<A>, w: nat, c: Comparator<A, S>, st: S): (r: (seq<A>, S))
    requires w > 0
    decreases |s| - w
  {
    var (out, t) := Pass(s, w, c, st);
    PassPermutes(s, w, c, st);
    if |s| <= 2 * w then (out, t) else Sort(out, 2 * w, c, t)
  }

  /** Whatever the comparator answers, the result is a permutation. */
  lemma {:induction false} SortPermutes<A, S>(s: seq<A>, w: nat, c: Comparator<A, S>, st: S)
    requires w > 0
    ensures multiset(Sort(s, w, c, st).0) == multiset(s)
    ensures |Sort(s, w, c, st).0| == |s|
    decreases |s| - w
  {
    PassPermutes(s, w, c, st);
    if |s| > 2 * w {
      var (out, t) := Pass(s, w, c, st);
      SortPermutes(out, 2 * w, c, t);
    }
  }

  // ----- the states that comparisons of elements of `dom` stay in -----

  ghost predicate Within<A>(s: seq<A>, dom: iset<A>) {
    forall i :: 0 <= i < |s| ==> s[i] in dom
  }

  ghost predicate Kept<A, S>(dom: iset<A>, states: iset<S>, c: Comparator<A, S>) {
    forall a, b, st :: a in dom && b in dom && st in states ==> c.after(a, b, st) in states
  }

  lemma {:induction false} MergeWithin<A, S>(p: seq<A>, q: seq<A>, c: Comparator<A, S>, st: S, dom: iset<A>)
    requires Within(p, dom) && Within(q, dom)
    ensures Within(Merge(p, q, c, st).0, dom)
    decreases |p| + |q|
  {
    if p != [] && q != [] {
      if c.cmp(p[0], q[0], st) <= 0 {
        MergeWithin(p[1..], q, c, c.after(p[0], q[0], st), dom);
      } else {
        MergeWithin(p, q[1..], c, c.after(p[0], q[0], st), dom);
      }
    }
  }

  lemma {:induction false} MergeKeeps<A, S>(p: seq<A>, q: seq<A>, c: Comparator<A, S>, st: S,
                                            dom: iset<A>, states: iset<S>)
    requires Kept(dom, states, c) && Within(p, dom) && Within(q, dom) && st in states
    ensures Merge(p, q, c, st).1 in states
    decreases |p| + |q|
  {
    if p != [] && q != [] {
      if c.cmp(p[0], q[0], st) <= 0 {
        MergeKeeps(p[1..], q, c, c.after(p[0], q[0], st), dom, states);
      } else {
        MergeKeeps(p, q[1..], c, c.after(p[0], q[0], st), dom, states);
      }
    }
  }

  lemma {:induction false} PassKeeps<A, S>(s: seq<A>, w: nat, c: Comparator<A, S>, st: S,
                                           dom: iset<A>, states: iset<S>)
    requires w > 0 && Kept(dom, states, c) && Within(s, dom) && st in states
    ensures Within(Pass(s, w, c, st).0, dom) && Pass(s, w, c, st).1 in states
    decreases |s|
  {
    if s != [] {
      var mid, end := Least(w, |s|), Least(2 * w, |s|);
      MergeWithin(s[..mid], s[mid..end], c, st, dom);
      MergeKeeps(s[..mid], s[mid..end], c, st, dom, states);
      PassKeeps(s[end..], w, c, Merge(s[..mid], s[mid..end], c, st).1, dom, states);
    }
  }

  /** Sorting keeps what every comparison keeps. */
  lemma {:induction false} SortKeeps<A, S>(s: seq<A>, w: nat, c: Comparator<A, S>, st: S,
                                           dom: iset<A>, states: iset<S>)
    requires w > 0 && Kept(dom, states, c) && Within(s, dom) && st in states
    ensures Sort(s, w, c, st).1 in states
    decreases |s| - w
  {
    PassKeeps(s, w, c, st, dom, states);
    PassPermutes(s, w, c, st);
    if |s| > 2 * w {
      var out := Pass(s, w, c, st);
      SortKeeps(out.0, 2 * w, c, out.1, dom, states);
    }
  }

  // ----- comparators that implement a total preorder -----

  ghost predicate Preorder<A>(dom: iset<A>, le: (A, A) -> bool) {
    && (forall a, b :: a in dom && b in dom ==> le(a, b) || le(b, a))
    && (forall a, b, c :: a in dom && b in dom && c in dom && le(a, b) && le(b, c) ==> le(a, c))
  }

  /** On the elements of `dom` the comparator always answers as the total preorder `le` does, in all these states. */
  ghost predicate Implements<A, S>(dom: iset<A>, states: iset<S>, c: Comparator<A, S>, le: (A, A) -> bool) {
    && Preorder(dom, le) && Kept(dom, states, c)
    && (forall a, b, st :: a in dom && b in dom && st in states ==> (c.cmp(a, b, st) <= 0 <==> le(a, b)))
  }

  ghost predicate Sorted<A>(s: seq<A>, le: (A, A) -> bool) {
    forall i, j :: 0 <= i < j < |s| ==> le(s[i], s[j])
  }

  /** The elements equivalent to `x`, in order. */
  ghost function Class<A>(s: seq<A>, x: A, le: (A, A) -> bool): seq<A> {
    if s == [] then []
    else (if le(s[0], x) && le(x, s[0]) then [s[0]] else []) + Class(s[1..], x, le)
  }

  lemma {:induction false} ClassConcat<A>(s: seq<A>, t: seq<A>, x: A, le: (A, A) -> bool)
    ensures Class(s + t, x, le) == Class(s, x, le) + Class(t, x, le)
  {
    if s == [] {
      assert s + t == t;
    } else {
      assert (s + t)[1..] == s[1..] + t;
      ClassConcat(s[1..], t, x, le);
    }
  }

  /** Each class keeps its members in their order: the definition of a stable rearrangement. */
  ghost predicate SameClasses<A>(s: seq<A>, t: seq<A>, dom: iset<A>, le: (A, A) -> bool) {
    forall x :: x in dom ==> Class(s, x, le) == Class(t, x, le)
  }

  lemma {:induction false} ClassEmpty<A>(s: seq<A>, x: A, le: (A, A) -> bool)
    requires forall i :: 0 <= i < |s| ==> !(le(s[i], x) && le(x, s[i]))
    ensures Class(s, x, le) == []
  {
    if s != [] {
      ClassEmpty(s[1..], x, le);
    }
  }

  /** An element strictly below every element of a run can be moved in front of it. */
  lemma MoveInFront<A>(p: seq<A>, y: A, t: seq<A>, x: A, dom: iset<A>, le: (A, A) -> bool)
    requires Preorder(dom, le) && Within(p, dom) && y in dom && x in dom
    requires forall i :: 0 <= i < |p| ==> !le(p[i], y)
    ensures Class([y] + (p + t), x, le) == Class(p + ([y] + t), x, le)
  {
    ClassConcat([y], p + t, x, le);
    ClassConcat(p, t, x, le);
    ClassConcat(p, [y] + t, x, le);
    ClassConcat([y], t, x, le);
    if le(y, x) && le(x, y) {
      ClassEmpty(p, x, le);
    } else {
      assert Class([y], x, le) == [];
    }
  }

  lemma {:induction false} MergeStable<A, S>(p: seq<A>, q: seq<A>, c: Comparator<A, S>, st: S,
                                          dom: iset<A>, states: iset<S>, le: (A, A) -> bool)
    requires Implements(dom, states, c, le) && st in states && Within(p, dom) && Within(q, dom)
    requires Sorted(p, le) && Sorted(q, le)
    ensures SameClasses(Merge(p, q, c, st).0, p + q, dom, le)
    decreases |p| + |q|
  {
    if p == [] {
      assert p + q == q;
    } else if q == [] {
      assert p + q == p;
    } else if c.cmp(p[0], q[0], st) <= 0 {
      MergeStable(p[1..], q, c, c.after(p[0], q[0], st), dom, states, le);
      assert p + q == [p[0]] + (p[1..] + q);
      forall x | x in dom
        ensures Class(Merge(p, q, c, st).0, x, le) == Class(p + q, x, le)
      {
        ClassConcat([p[0]], Merge(p[1..], q, c, c.after(p[0], q[0], st)).0, x, le);
        ClassConcat([p[0]], p[1..] + q, x, le);
      }
    } else {
      var r := Merge(p, q[1..], c, c.after(p[0], q[0], st)).0;
      MergeStable(p, q[1..], c, c.after(p[0], q[0], st), dom, states, le);
      assert q == [q[0]] + q[1..];
      forall x | x in dom
        ensures Class(Merge(p, q, c, st).0, x, le) == Class(p + q, x, le)
      {
        ClassConcat([q[0]], r, x, le);
        ClassConcat([q[0]], p + q[1..], x, le);
        MoveInFront(p, q[0], q[1..], x, dom, le);
      }
    }
  }

  /** `x` is below every element of `s`. */
  ghost predicate Below<A>(x: A, s: seq<A>, le: (A, A) -> bool) {
    forall i :: 0 <= i < |s| ==> le(x, s[i])
  }

  lemma {:induction false} MergeBelow<A, S>(x: A, p: seq<A>, q: seq<A>, c: Comparator<A, S>, st: S, le: (A, A) -> bool)
    requires Below(x, p, le) && Below(x, q, le)
    ensures Below(x, Merge(p, q, c, st).0, le)
    decreases |p| + |q|
  {
    if p != [] && q != [] {
      if c.cmp(p[0], q[0], st) <= 0 {
        MergeBelow(x, p[1..], q, c, c.after(p[0], q[0], st), le);
      } else {
        MergeBelow(x, p, q[1..], c, c.after(p[0], q[0], st), le);
      }
    }
  }

  lemma {:induction false} MergeSorted<A, S>(p: seq<A>, q: seq<A>, c: Comparator<A, S>, st: S,
                                          dom: iset<A>, states: iset<S>, le: (A, A) -> bool)
    requires Implements(dom, states, c, le) && st in states && Within(p, dom) && Within(q, dom)
    requires Sorted(p, le) && Sorted(q, le)
    ensures Sorted(Merge(p, q, c, st).0, le)
    decreases |p| + |q|
  {
    if p != [] && q != [] {
      if c.cmp(p[0], q[0], st) <= 0 {
        MergeSorted(p[1..], q, c, c.after(p[0], q[0], st), dom, states, le);
        MergeBelow(p[0], p[1..], q, c, c.after(p[0], q[0], st), le);
      } else {
        MergeSorted(p, q[1..], c, c.after(p[0], q[0], st), dom, states, le);
        assert le(q[0], p[0]);
        MergeBelow(q[0], p, q[1..], c, c.after(p[0], q[0], st), le);
      }
    }
  }

  // ----- passes: sorted runs of length w become sorted runs of length 2w -----

  ghost predicate RunsSorted<A>(s: seq<A>, w: nat, le: (A, A) -> bool)
    requires w > 0
    decreases |s|
  {
    s == [] || (Sorted(s[..Least(w, |s|)], le) && RunsSorted(s[Least(w, |s|)..], w, le))
  }

  /** The first two runs of a list of sorted runs. */
  lemma FirstTwoRuns<A>(s: seq<A>, w: nat, le: (A, A) -> bool)
    requires w > 0 && s != [] && RunsSorted(s, w, le)
    ensures var mid, end := Least(w, |s|), Least(2 * w, |s|);
            Sorted(s[..mid], le) && Sorted(s[mid..end], le) && RunsSorted(s[end..], w, le)
  {
    var mid, end := Least(w, |s|), Least(2 * w, |s|);
    var tail := s[mid..];
    if tail != [] {
      assert tail[..Least(w, |tail|)] == s[mid..end] && tail[Least(w, |tail|)..] == s[end..];
    }
  }

  lemma MergedBlock<A, S>(p: seq<A>, q: seq<A>, c: Comparator<A, S>, st: S,
                          dom: iset<A>, states: iset<S>, le: (A, A) -> bool)
    requires Implements(dom, states, c, le) && st in states && Within(p, dom) && Within(q, dom)
    requires Sorted(p, le) && Sorted(q, le)
    ensures Merge(p, q, c, st).1 in states
    ensures var r := Merge(p, q, c, st).0;
            |r| == |p| + |q| && Within(r, dom) && Sorted(r, le) && SameClasses(r, p + q, dom, le)
  {
    MergeKeeps(p, q, c, st, dom, states);
    MergeWithin(p, q, c, st, dom);
    MergeSorted(p, q, c, st, dom, states, le);
    MergeStable(p, q, c, st, dom, states, le);
    MergePermutes(p, q, c, st);
  }

  lemma ClassesConcat<A>(a: seq<A>, b: seq<A>, s: seq<A>, t: seq<A>, dom: iset<A>, le: (A, A) -> bool)
    requires SameClasses(a, s, dom, le) && SameClasses(b, t, dom, le)
    ensures SameClasses(a + b, s + t, dom, le)
  {
    forall x | x in dom
      ensures Class(a + b, x, le) == Class(s + t, x, le)
    {
      ClassConcat(a, b, x, le);
      ClassConcat(s, t, x, le);
    }
  }

  lemma {:induction false} PassMergesRuns<A, S>(s: seq<A>, w: nat, c: Comparator<A, S>, st: S,
                                             dom: iset<A>, states: iset<S>, le: (A, A) -> bool)
    requires w > 0 && Implements(dom, states, c, le) && st in states && Within(s, dom) && RunsSorted(s, w, le)
    ensures var r := Pass(s, w, c, st).0;
            Within(r, dom) && RunsSorted(r, 2 * w, le) && SameClasses(r, s, dom, le)
    ensures Pass(s, w, c, st).1 in states
    decreases |s|
  {
    hide Implements;
    hide Merge;
    hide SameClasses;
    hide RunsSorted;
    if s == [] {
      NothingToMerge(w, dom, le);
    } else {
      var mid, end := Least(w, |s|), Least(2 * w, |s|);
      var p, q, t := s[..mid], s[mid..end], s[end..];
      FirstTwoRuns(s, w, le);
      var block := Merge(p, q, c, st);
      MergedBlock(p, q, c, st, dom, states, le);
      PassMergesRuns(t, w, c, block.1, dom, states, le);
      PassPermutes(t, w, c, block.1);
      var rest := Pass(t, w, c, block.1);
      assert Pass(s, w, c, st) == (block.0 + rest.0, rest.1);
      BlockFirst(block.0, rest.0, w, le);
      ClassesConcat(block.0, rest.0, p + q, t, dom, le);
      assert s == (p + q) + t;
    }
  }

  lemma NothingToMerge<A>(w: nat, dom: iset<A>, le: (A, A) -> bool)
    requires w > 0
    ensures RunsSorted([], 2 * w, le) && SameClasses([], [], dom, le)
  {
  }

  lemma BlockFirst<A>(block: seq<A>, rest: seq<A>, w: nat, le: (A, A) -> bool)
    requires w > 0 && 0 < |block| <= 2 * w && (rest != [] ==> |block| == 2 * w)
    requires Sorted(block, le) && RunsSorted(rest, 2 * w, le)
    ensures RunsSorted(block + rest, 2 * w, le)
  {
    var s := block + rest;
    assert s[..Least(2 * w, |s|)] == block && s[Least(2 * w, |s|)..] == rest;
  }

  lemma {:induction false} SingletonRuns<A>(s: seq<A>, le: (A, A) -> bool)
    ensures RunsSorted(s, 1, le)
  {
    if s != [] {
      SingletonRuns(s[1..], le);
    }
  }

  lemma {:induction false} SortFromRuns<A, S>(s: seq<A>, w: nat, c: Comparator<A, S>, st: S,
                                           dom: iset<A>, states: iset<S>, le: (A, A) -> bool)
    requires w > 0 && Implements(dom, states, c, le) && st in states && Within(s, dom) && RunsSorted(s, w, le)
    ensures var r := Sort(s, w, c, st).0; Sorted(r, le) && SameClasses(r, s, dom, le)
    decreases |s| - w
  {
    var out := Pass(s, w, c, st);
    PassMergesRuns(s, w, c, st, dom, states, le);
    PassPermutes(s, w, c, st);
    if |s| <= 2 * w {
      if s != [] {
        assert out.0[..Least(2 * w, |out.0|)] == out.0;
      }
    } else {
      SortFromRuns(out.0, 2 * w, c, out.1, dom, states, le);
    }
  }

  /** For a comparator that implements a total preorder, the result is the stable sort of the input. */
  lemma SortIsStableSort<A, S>(s: seq<A>, c: Comparator<A, S>, st: S, dom: iset<A>, states: iset<S>, le: (A, A) -> bool)
    requires Implements(dom, states, c, le) && st in states && Within(s, dom)
    ensures var r := Sort(s, 1, c, st).0;
            Sorted(r, le) && SameClasses(r, s, dom, le) && multiset(r) == multiset(s)
  {
    SingletonRuns(s, le);
    SortFromRuns(s, 1, c, st, dom, states, le);
    SortPermutes(s, 1, c, st);
  }

  // ----- what the comparisons do to the state -----

  /** A comparison marks both of its elements, and no comparison removes a mark. */
  ghost predicate Marks<A, S>(dom: iset<A>, states: iset<S>, c: Comparator<A, S>, marked: (A, S) -> bool) {
    && Kept(dom, states, c)
    && (forall a, b, st :: a in dom && b in dom && st in states ==>
          marked(a, c.after(a, b, st)) && marked(b, c.after(a, b, st)))
    && (forall x, a, b, st :: x in dom && a in dom && b in dom && st in states && marked(x, st) ==>
          marked(x, c.after(a, b, st)))
  }

  ghost predicate AllMarked<A, S>(s: seq<A>, marked: (A, S) -> bool, st: S) {
    forall x :: x in s ==> marked(x, st)
  }

  ghost predicate StaysMarked<A, S>(dom: iset<A>, marked: (A, S) -> bool, before: S, after: S) {
    forall x :: x in dom && marked(x, before) ==> marked(x, after)
  }

  lemma {:induction false} MergeMarks<A, S>(p: seq<A>, q: seq<A>, c: Comparator<A, S>, st: S,
                                            dom: iset<A>, states: iset<S>, marked: (A, S) -> bool)
    requires Marks(dom, states, c, marked) && Within(p, dom) && Within(q, dom) && st in states
    ensures StaysMarked(dom, marked, st, Merge(p, q, c, st).1)
    ensures p != [] && q != [] ==> marked(p[0], Merge(p, q, c, st).1) && marked(q[0], Merge(p, q, c, st).1)
    decreases |p| + |q|
  {
    if p != [] && q != [] {
      if c.cmp(p[0], q[0], st) <= 0 {
        MergeMarks(p[1..], q, c, c.after(p[0], q[0], st), dom, states, marked);
      } else {
        MergeMarks(p, q[1..], c, c.after(p[0], q[0], st), dom, states, marked);
      }
    }
  }

  /** Every run of at least two elements is marked. */
  ghost predicate RunsMarked<A, S>(s: seq<A>, w: nat, marked: (A, S) -> bool, st: S)
    requires w > 0
    decreases |s|
  {
    s != [] ==>
      && (w > 1 && |s| > 1 ==> AllMarked(s[..Least(w, |s|)], marked, st))
      && RunsMarked(s[Least(w, |s|)..], w, marked, st)
  }

  lemma {:induction false} RunsStayMarked<A, S>(s: seq<A>, w: nat, dom: iset<A>, marked: (A, S) -> bool,
                                                before: S, after: S)
    requires w > 0 && Within(s, dom) && RunsMarked(s, w, marked, before) && StaysMarked(dom, marked, before, after)
    ensures RunsMarked(s, w, marked, after)
    decreases |s|
  {
    if s != [] {
      RunsStayMarked(s[Least(w, |s|)..], w, dom, marked, before, after);
    }
  }

  lemma FirstTwoMarked<A, S>(s: seq<A>, w: nat, marked: (A, S) -> bool, st: S)
    requires w > 0 && s != [] && RunsMarked(s, w, marked, st)
    ensures var mid, end := Least(w, |s|), Least(2 * w, |s|);
            && (mid > 1 ==> AllMarked(s[..mid], marked, st))
            && (end - mid > 1 ==> AllMarked(s[mid..end], marked, st))
            && RunsMarked(s[end..], w, marked, st)
  {
    var mid, end := Least(w, |s|), Least(2 * w, |s|);
    var tail := s[mid..];
    if tail != [] {
      assert tail[..Least(w, |tail|)] == s[mid..end] && tail[Least(w, |tail|)..] == s[end..];
    }
  }

  /** Merging two runs, of which only single elements may be unmarked, marks everything. */
  lemma BlockMarked<A, S>(p: seq<A>, q: seq<A>, c: Comparator<A, S>, st: S,
                          dom: iset<A>, states: iset<S>, marked: (A, S) -> bool)
    requires Marks(dom, states, c, marked) && Within(p, dom) && Within(q, dom) && st in states && p != []
    requires |p| > 1 ==> AllMarked(p, marked, st)
    requires |q| > 1 ==> AllMarked(q, marked, st)
    ensures |p| + |q| > 1 ==> AllMarked(Merge(p, q, c, st).0, marked, Merge(p, q, c, st).1)
    ensures StaysMarked(dom, marked, st, Merge(p, q, c, st).1)
  {
    var r := Merge(p, q, c, st);
    MergeMarks(p, q, c, st, dom, states, marked);
    MergePermutes(p, q, c, st);
    if |p| + |q| > 1 {
      forall x | x in r.0
        ensures marked(x, r.1)
      {
        assert x in multiset(r.0);
        assert x in p || x in q;
      }
    }
  }

  lemma FirstBlockMarked<A, S>(block: seq<A>, rest: seq<A>, w: nat, marked: (A, S) -> bool, st: S)
    requires w > 0 && 0 < |block| <= 2 * w && (rest != [] ==> |block| == 2 * w)
    requires |block| > 1 ==> AllMarked(block, marked, st)
    requires RunsMarked(rest, 2 * w, marked, st)
    ensures RunsMarked(block + rest, 2 * w, marked, st)
  {
    var s := block + rest;
    assert s[..Least(2 * w, |s|)] == block && s[Least(2 * w, |s|)..] == rest;
  }

  lemma {:induction false} PassMarks<A, S>(s: seq<A>, w: nat, c: Comparator<A, S>, st: S,
                                           dom: iset<A>, states: iset<S>, marked: (A, S) -> bool)
    requires w > 0 && Marks(dom, states, c, marked) && Within(s, dom) && st in states
    requires RunsMarked(s, w, marked, st)
    ensures RunsMarked(Pass(s, w, c, st).0, 2 * w, marked, Pass(s, w, c, st).1)
    ensures StaysMarked(dom, marked, st, Pass(s, w, c, st).1)
    decreases |s|
  {
    if s != [] {
      var mid, end := Least(w, |s|), Least(2 * w, |s|);
      var p, q, tail := s[..mid], s[mid..end], s[end..];
      FirstTwoMarked(s, w, marked, st);
      var block := Merge(p, q, c, st);
      BlockMarked(p, q, c, st, dom, states, marked);
      MergePermutes(p, q, c, st);
      MergeWithin(p, q, c, st, dom);
      MergeKeeps(p, q, c, st, dom, states);
      RunsStayMarked(tail, w, dom, marked, st, block.1);
      PassMarks(tail, w, c, block.1, dom, states, marked);
      PassPermutes(tail, w, c, block.1);
      var r := Pass(tail, w, c, block.1);
      BlockStaysMarked(block.0, dom, marked, block.1, r.1);
      FirstBlockMarked(block.0, r.0, w, marked, r.1);
    }
  }

  lemma BlockStaysMarked<A, S>(block: seq<A>, dom: iset<A>, marked: (A, S) -> bool, before: S, after: S)
    requires Within(block, dom) && StaysMarked(dom, marked, before, after)
    ensures AllMarked(block, marked, before) ==> AllMarked(block, marked, after)
  {
  }

  lemma {:induction false} SortMarks<A, S>(s: seq<A>, w: nat, c: Comparator<A, S>, st: S,
                                           dom: iset<A>, states: iset<S>, marked: (A, S) -> bool)
    requires w > 0 && |s| > 1 && Marks(dom, states, c, marked) && Within(s, dom) && st in states
    requires RunsMarked(s, w, marked, st)
    ensures AllMarked(Sort(s, w, c, st).0, marked, Sort(s, w, c, st).1)
    decreases |s| - w
  {
    var out := Pass(s, w, c, st);
    PassMarks(s, w, c, st, dom, states, marked);
    PassKeeps(s, w, c, st, dom, states);
    PassPermutes(s, w, c, st);
    if |s| <= 2 * w {
      assert out.0[..Least(2 * w, |out.0|)] == out.0;
    } else {
      SortMarks(out.0, 2 * w, c, out.1, dom, states, marked);
    }
  }

  lemma {:induction false} SingletonsMarked<A, S>(s: seq<A>, marked: (A, S) -> bool, st: S)
    ensures RunsMarked(s, 1, marked, st)
  {
    if s != [] {
      SingletonsMarked(s[1..], marked, st);
    }
  }

  /** Sorting two or more elements compares every one of them at least once. */
  lemma EveryElementCompared<A, S>(s: seq<A>, c: Comparator<A, S>, st: S,
                                   dom: iset<A>, states: iset<S>, marked: (A, S) -> bool)
    requires |s| > 1 && Marks(dom, states, c, marked) && Within(s, dom) && st in states
    ensures AllMarked(s, marked, Sort(s, 1, c, st).1)
  {
    SingletonsMarked(s, marked, st);
    SortMarks(s, 1, c, st, dom, states, marked);
    SortPermutes(s, 1, c, st);
    var r := Sort(s, 1, c, st);
    forall x | x in s
      ensures marked(x, r.1)
    {
      assert x in multiset(r.0);
    }
  }

  // ----- comparators that settle the rank of an element when they first look at it -----

  /** In a state from which `good` ones are reached, a comparison answers as `le` does. */
  ghost predicate Foretells<A, S>(dom: iset<A>, states: iset<S>, c: Comparator<A, S>, le: (A, A) -> bool,
                                  good: S -> bool)
  {
    && Kept(dom, states, c)
    && (forall a, b, st :: a in dom && b in dom && st in states && good(c.after(a, b, st)) ==>
          good(st) && (c.cmp(a, b, st) <= 0 <==> le(a, b)))
  }

  /** The comparator that answers as `le` does and changes the state as `c` does. */
  function Answering<A, S>(c: Comparator<A, S>, le: (A, A) -> bool): Comparator<A, S> {
    Comparator((a: A, b: A, st: S) => if le(a, b) then 0 else 1, c.after)
  }

  lemma {:induction false} MergeForetold<A, S>(p: seq<A>, q: seq<A>, c: Comparator<A, S>, st: S, dom: iset<A>,
                                               states: iset<S>, le: (A, A) -> bool, good: S -> bool)
    requires Foretells(dom, states, c, le, good) && Within(p, dom) && Within(q, dom) && st in states
    requires good(Merge(p, q, c, st).1)
    ensures good(st) && Merge(p, q, Answering(c, le), st) == Merge(p, q, c, st)
    decreases |p| + |q|
  {
    if p != [] && q != [] {
      if c.cmp(p[0], q[0], st) <= 0 {
        MergeForetold(p[1..], q, c, c.after(p[0], q[0], st), dom, states, le, good);
      } else {
        MergeForetold(p, q[1..], c, c.after(p[0], q[0], st), dom, states, le, good);
      }
    }
  }

  lemma {:induction false} PassForetold<A, S>(s: seq<A>, w: nat, c: Comparator<A, S>, st: S, dom: iset<A>,
                                              states: iset<S>, le: (A, A) -> bool, good: S -> bool)
    requires w > 0 && Foretells(dom, states, c, le, good) && Within(s, dom) && st in states
    requires good(Pass(s, w, c, st).1)
    ensures good(st) && Pass(s, w, Answering(c, le), st) == Pass(s, w, c, st)
    decreases |s|
  {
    if s != [] {
      var mid, end := Least(w, |s|), Least(2 * w, |s|);
      MergeKeeps(s[..mid], s[mid..end], c, st, dom, states);
      PassForetold(s[end..], w, c, Merge(s[..mid], s[mid..end], c, st).1, dom, states, le, good);
      MergeForetold(s[..mid], s[mid..end], c, st, dom, states, le, good);
    }
  }

  lemma {:induction false} SortForetold<A, S>(s: seq<A>, w: nat, c: Comparator<A, S>, st: S, dom: iset<A>,
                                              states: iset<S>, le: (A, A) -> bool, good: S -> bool)
    requires w > 0 && Foretells(dom, states, c, le, good) && Within(s, dom) && st in states
    requires good(Sort(s, w, c, st).1)
    ensures good(st) && Sort(s, w, Answering(c, le), st) == Sort(s, w, c, st)
    decreases |s| - w
  {
    var out := Pass(s, w, c, st);
    PassKeeps(s, w, c, st, dom, states);
    PassPermutes(s, w, c, st);
    if |s| > 2 * w {
      SortForetold(out.0, 2 * w, c, out.1, dom, states, le, good);
    }
    PassForetold(s, w, c, st, dom, states, le, good);
  }

  /** Then the result is the stable sort by the order that shows afterwards. */
  lemma SortByOutcome<A, S>(s: seq<A>, c: Comparator<A, S>, st: S, dom: iset<A>, states: iset<S>,
                            le: (A, A) -> bool, good: S -> bool)
    requires Foretells(dom, states, c, le, good) && Preorder(dom, le) && Within(s, dom) && st in states
    requires good(Sort(s, 1, c, st).1)
    ensures var r := Sort(s, 1, c, st).0;
            Sorted(r, le) && SameClasses(r, s, dom, le) && multiset(r) == multiset(s)
  {
    SortForetold(s, 1, c, st, dom, states, le, good);
    SortIsStableSort(s, Answering(c, le), st, dom, states, le);
  }
}
