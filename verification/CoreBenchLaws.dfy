/**
 The list benchmark as laws on the run of its find loop: what every find meets, how the list is rearranged and counted,
 and what the final value is made of. They name none of the functions by which the step is computed.
 */
module CoreBenchLaws {
  import opened StableMerge
  import opened CoreData
  import opened CoreList
  import opened CoreBench

  /** By index, or for a negative index by the low byte of the data. */
  predicate Wanted(c: Cell, data: Contents, idx: int, low: int) {
    if idx >= 0 then c.info.idx == idx else At(data, c.info) % 0x100 == low
  }

  ghost predicate Missing(s: seq<Cell>, data: Contents, idx: int, low: int) {
    forall j :: 0 <= j < |s| ==> !Wanted(s[j], data, idx, low)
  }

  ghost predicate FirstWanted(s: seq<Cell>, data: Contents, idx: int, low: int, k: nat) {
    k < |s| && Wanted(s[k], data, idx, low) && forall j :: 0 <= j < k ==> !Wanted(s[j], data, idx, low)
  }

  lemma MatchIsFirst(s: seq<Cell>, data: Contents, idx: int, low: int)
    ensures var k := FirstMatch(s, data, idx, low);
            if k < |s| then FirstWanted(s, data, idx, low, k) else Missing(s, data, idx, low)
  {
  }

  lemma FirstIsMatch(s: seq<Cell>, data: Contents, idx: int, low: int, k: nat)
    requires FirstWanted(s, data, idx, low, k)
    ensures FirstMatch(s, data, idx, low) == k
  {
    var i := FirstMatch(s, data, idx, low);
    assert i < k ==> !Wanted(s[i], data, idx, low);
    assert i > k ==> !Matches(s[k].info, data, idx, low);
  }

  // ----- one round -----

  ghost predicate Backwards(s: seq<Cell>, out: seq<Cell>) {
    |out| == |s| && forall j :: 0 <= j < |s| ==> out[j] == s[|s| - 1 - j]
  }

  /** Where the entry at place `j` was: the order is reversed, but the entry before `k` moves to the second place. */
  function Origin(n: nat, k: nat, j: nat): (i: nat)
    requires k < n && j < n
    ensures i < n
  {
    if k == 0 || k == n - 1 || j == 0 || j > n - k then n - 1 - j else if j == 1 then k - 1 else n - j
  }

  ghost predicate BackwardsCached(s: seq<Cell>, k: nat, out: seq<Cell>)
    requires k < |s|
  {
    |out| == |s| && forall j :: 0 <= j < |s| ==> out[j] == s[Origin(|s|, k, j)]
  }

  /** A list and the counters, between two rounds. */
  datatype Moment = Moment(cells: seq<Cell>, tally: Tally)

  /** A miss counts bit 8 of the second entry's data, a hit on odd data bit 9 of that; all in 16 bits. */
  ghost predicate RoundLaw(data: Contents, i: int, a: Moment, b: Moment) {
    var t, u, low := a.tally, b.tally, i % 0x100;
    && (Missing(a.cells, data, t.idx, low) ==>
          && |a.cells| >= 2 && Backwards(a.cells, b.cells)
          && u.missed == (t.missed + 1) % 0x10000 && u.found == t.found
          && u.retval == (t.retval + At(data, b.cells[1].info) / 0x100 % 2) % 0x10000)
    && (forall k: nat :: FirstWanted(a.cells, data, t.idx, low, k) ==>
          var x := At(data, a.cells[k].info);
          && BackwardsCached(a.cells, k, b.cells)
          && u.found == (t.found + 1) % 0x10000 && u.missed == t.missed
          && u.retval == (t.retval + if x % 2 == 1 then x / 0x200 % 2 else 0) % 0x10000)
    && (t.idx < 0 ==> u.idx == t.idx)
    && (0 <= t.idx < 0x7fff ==> u.idx == t.idx + 1)
  }

  lemma BackwardsReversed(s: seq<Cell>)
    ensures Backwards(s, Reversed(s))
  {
  }

  lemma CachedIndex(s: seq<Cell>, k: nat, j: nat)
    requires k < |s| && j < |s|
    ensures var out := SplicedAny(Reversed(s), |s| - 1 - k); |out| == |s| && out[j] == s[Origin(|s|, k, j)]
  {
    if k > 0 {
      hide Spliced;
      SplicedIndex(Reversed(s), |s| - 1 - k, j);
    }
  }

  lemma CachedReversed(s: seq<Cell>, k: nat)
    requires k < |s|
    ensures BackwardsCached(s, k, SplicedAny(Reversed(s), |s| - 1 - k))
  {
    hide SplicedAny;
    hide Reversed;
    hide Origin;
    CachedIndex(s, k, 0);
    forall j | 0 <= j < |s|
      ensures SplicedAny(Reversed(s), |s| - 1 - k)[j] == s[Origin(|s|, k, j)]
    {
      CachedIndex(s, k, j);
    }
  }

  lemma RoundLawful(s: seq<Cell>, data: Contents, i: int, t: Tally)
    requires |s| >= 2
    ensures var r := Round(s, data, i, t); RoundLaw(data, i, Moment(s, t), Moment(r.0, r.1))
  {
    hide FirstMatch;
    hide Reversed;
    hide SplicedAny;
    hide BackwardsCached;
    var low := i % 0x100;
    MatchIsFirst(s, data, t.idx, low);
    var k := FirstMatch(s, data, t.idx, low);
    BackwardsReversed(s);
    if k < |s| {
      CachedReversed(s, k);
      forall j: nat | FirstWanted(s, data, t.idx, low, j)
        ensures j == k
      {
        FirstIsMatch(s, data, t.idx, low, j);
      }
    }
  }

  // ----- the run of the loop -----

  ghost predicate Lawful(data: Contents, i: int, run: seq<Moment>) {
    forall j :: 0 <= j < |run| - 1 ==> RoundLaw(data, i + j, run[j], run[j + 1])
  }

  lemma {:induction false} RoundsLawful(s: seq<Cell>, data: Contents, i: int, n: int, t: Tally)
    returns (run: seq<Moment>)
    requires |s| >= 2
    ensures |run| == (if i < n then n - i else 0) + 1 && run[0] == Moment(s, t)
    ensures Lawful(data, i, run)
    ensures var r := Rounds(s, data, i, n, t); run[|run| - 1] == Moment(r.0, r.1)
    decreases n - i
  {
    hide RoundLaw;
    hide Round;
    RoundsStep(s, data, i, n, t);
    if i < n {
      var r := Round(s, data, i, t);
      RoundLawful(s, data, i, t);
      var rest := RoundsLawful(r.0, data, i + 1, n, r.1);
      run := [Moment(s, t)] + rest;
      forall j | 0 <= j < |run| - 1
        ensures RoundLaw(data, i + j, run[j], run[j + 1])
      {
        if j > 0 {
          assert RoundLaw(data, i + 1 + (j - 1), rest[j - 1], rest[j]);
        }
      }
    } else {
      run := [Moment(s, t)];
    }
  }

  // ----- the whole step -----

  /** The entries without the second one. */
  ghost predicate WithoutSecond(s: seq<Cell>, short: seq<Cell>) {
    && |short| == |s| - 1
    && forall j :: 0 <= j < |short| ==> short[j].info == s[if j == 0 then 0 else j + 1].info
  }

  /** The entries from the one searched for, or else from the second one, to the end. */
  ghost predicate CountLaw(short: seq<Cell>, data: Contents, idx: int, low: int, count: nat) {
    && (Missing(short, data, idx, low) ==> count == |short| - 1)
    && (forall k: nat :: FirstWanted(short, data, idx, low, k) ==> count == |short| - k)
  }

  /** The list and the memory after the first sort, which takes place for a positive index only. */
  ghost predicate SortLaw(finderIdx: int, before: seq<Cell>, m: Memory, after: seq<Cell>, n: Memory) {
    && (finderIdx <= 0 ==> after == before && n == m)
    && (finderIdx > 0 ==>
          && SameHighBytes(m, n) && multiset(after) == multiset(before)
          && (forall c :: c in before ==> IsCached(At(n.data, c.info)))
          && Sorted(after, ResultLe(n)) && SameClasses(after, before, (iset c | c in before), ResultLe(n)))
  }

  /**
   The step's value: four for every hit less one for every miss and the bits counted; then the checksum taking in the
   first entry's data once for every entry left in `short`, and once more for every other entry of the whole list.
   */
  ghost predicate ValueLaw(s: seq<Cell>, k: Kernels, m: Memory, t: Tally, after: seq<Cell>, n: Memory, low: int,
                           short: seq<Cell>, count: nat, retval: int) {
    && after != [] && s != [] && WithoutSecond(after, short) && CountLaw(short, n.data, t.idx, low, count)
    && var first := Repeated(k, At(n.data, after[0].info), count, (t.retval + 4 * t.found - t.missed) % 0x10000);
       retval == Repeated(k, Rebuilt(At(m.data, s[0].info)), |s| - 1, first)
  }

  lemma ShuffledLawful(s: seq<Cell>, findNum: int, finderIdx: int, k: Kernels, m: Memory) returns (run: seq<Moment>)
    requires |s| >= 2 && Holds(m, s)
    ensures |run| == (if 0 < findNum then findNum else 0) + 1 && run[0] == Moment(s, Tally(0, 0, 0, finderIdx))
    ensures Lawful(m.data, 0, run)
    ensures var r := Shuffled(s, findNum, finderIdx, k, m);
            var last := run[|run| - 1];
            last.tally == r.1 && SortLaw(finderIdx, last.cells, m, r.0, r.2)
  {
    hide Lawful;
    var t := Tally(0, 0, 0, finderIdx);
    run := RoundsLawful(s, m.data, 0, findNum, t);
    RoundsPermute(s, m.data, 0, findNum, t);
    var cells := Rounds(s, m.data, 0, findNum, t).0;
    HoldsPermuted(m, s, cells);
    if finderIdx > 0 {
      ComplexSortsByResult(cells, k, m, (iset c | c in cells));
    }
  }

  lemma CountLawful(short: seq<Cell>, data: Contents, idx: int, low: int)
    requires |short| >= 1
    ensures CountLaw(short, data, idx, low, NodesFrom(short, data, idx, low))
  {
    hide FirstMatch;
    MatchIsFirst(short, data, idx, low);
    forall k: nat | FirstWanted(short, data, idx, low, k)
      ensures FirstMatch(short, data, idx, low) == k
    {
      FirstIsMatch(short, data, idx, low, k);
    }
  }

  lemma RemovedIsShort(s: seq<Cell>)
    requires |s| >= 3
    ensures WithoutSecond(s, Removed(s, 1))
  {
    forall j | 0 <= j < |s| - 1
      ensures |Removed(s, 1)| == |s| - 1 && Removed(s, 1)[j].info == s[if j == 0 then 0 else j + 1].info
    {
      RemovedIndex(s, 1, j);
    }
  }

  /** Every benchmark step follows the laws, from the first find to the value it returns. */
  lemma BenchLawful(s: seq<Cell>, findNum: int, finderIdx: int, k: Kernels, m: Memory)
    returns (run: seq<Moment>, after: seq<Cell>, n: Memory, short: seq<Cell>, count: nat)
    requires |s| >= 3 && IndexesIncrease(s) && Holds(m, s)
    ensures |run| == (if 0 < findNum then findNum else 0) + 1 && run[0] == Moment(s, Tally(0, 0, 0, finderIdx))
    ensures Lawful(m.data, 0, run) && SortLaw(finderIdx, run[|run| - 1].cells, m, after, n)
    ensures ValueLaw(s, k, m, run[|run| - 1].tally, after, n, if 0 < findNum then (findNum - 1) % 0x100 else 0,
                     short, count, Bench(s, findNum, finderIdx, k, m).retval)
  {
    hide Lawful;
    hide SortLaw;
    hide Shuffled;
    hide Removed;
    hide NodesFrom;
    hide Sort;
    hide Repeated;
    hide Rebuilt;
    run := ShuffledLawful(s, findNum, finderIdx, k, m);
    var r := Shuffled(s, findNum, finderIdx, k, m);
    ShuffledPermutes(s, findNum, finderIdx, k, m);
    after, n := r.0, r.2;
    short := Removed(after, 1);
    RemovedIsShort(after);
    count := NodesFrom(short, n.data, r.1.idx, LastLow(findNum));
    CountLawful(short, n.data, r.1.idx, LastLow(findNum));
    BenchRestores(s, findNum, finderIdx, k, m);
  }
}
