/** The CoreMark list benchmark: what a step computes, and that it leaves the list as it was. */
module CoreBench {
  import opened StableMerge
  import opened CoreData
  import opened CoreList

  // ----- the finds -----

  /** The counters of the find loop, 16 bits wide, and the index looked for. */
  datatype Tally = Tally(retval: int, found: int, missed: int, idx: int)

  /** A 16-bit index goes on unless it is negative. */
  function NextIndex(idx: int): int {
    if idx < 0 then idx else if idx == 0x7fff then -0x8000 else idx + 1
  }

  /** No node was found: the byte above that of the second entry counts. */
  function Missed(t: Tally, second: Int16): Tally {
    Tally((t.retval + HighByte(second) % 2) % 0x10000, t.found, (t.missed + 1) % 0x10000, NextIndex(t.idx))
  }

  function Found(t: Tally, x: Int16): Tally {
    Tally((t.retval + if x % 2 == 1 then x / 0x200 % 2 else 0) % 0x10000, (t.found + 1) % 0x10000, t.missed,
          NextIndex(t.idx))
  }

  /** Find, reverse, and move the node after the found one to the second place. */
  function Round(s: seq<Cell>, data: Contents, i: int, t: Tally): (r: (seq<Cell>, Tally))
    requires |s| >= 2
    ensures |r.0| == |s|
  {
    var k := FirstMatch(s, data, t.idx, i % 0x100);
    var back := Reversed(s);
    if k == |s| then (back, Missed(t, At(data, back[1].info)))
    else
      SplicedPermutesAny(back, |s| - 1 - k);
      (SplicedAny(back, |s| - 1 - k), Found(t, At(data, s[k].info)))
  }

  /** `Spliced`, when there is a next node. */
  function SplicedAny(s: seq<Cell>, p: nat): seq<Cell> {
    if p + 1 < |s| then Spliced(s, p) else s
  }

  lemma SplicedPermutesAny(s: seq<Cell>, p: nat)
    ensures multiset(SplicedAny(s, p)) == multiset(s) && |SplicedAny(s, p)| == |s|
  {
    if p + 1 < |s| {
      SplicedPermutes(s, p);
    }
  }

  function Rounds(s: seq<Cell>, data: Contents, i: int, n: int, t: Tally): (r: (seq<Cell>, Tally))
    requires |s| >= 2
    ensures |r.0| == |s|
    decreases n - i
  {
    if i >= n then (s, t)
    else
      var r := Round(s, data, i, t);
      Rounds(r.0, data, i + 1, n, r.1)
  }

  lemma {:induction false} ReversedPermutes(s: seq<Cell>)
    ensures multiset(Reversed(s)) == multiset(s)
  {
    if s != [] {
      ReversedPermutes(s[1..]);
      assert s == [s[0]] + s[1..];
    }
  }

  lemma RoundPermutes(s: seq<Cell>, data: Contents, i: int, t: Tally)
    requires |s| >= 2
    ensures multiset(Round(s, data, i, t).0) == multiset(s)
  {
    hide FirstMatch;
    hide Missed;
    hide Found;
    hide SplicedAny;
    hide Reversed;
    ReversedPermutes(s);
    var k := FirstMatch(s, data, t.idx, i % 0x100);
    if k < |s| {
      SplicedPermutesAny(Reversed(s), |s| - 1 - k);
    }
  }

  /** Any number of finds, reversals and splices permutes the list. */
  lemma {:induction false} RoundsPermute(s: seq<Cell>, data: Contents, i: int, n: int, t: Tally)
    requires |s| >= 2
    ensures multiset(Rounds(s, data, i, n, t).0) == multiset(s)
    decreases n - i
  {
    if i < n {
      RoundPermutes(s, data, i, t);
      var r := Round(s, data, i, t);
      RoundsPermute(r.0, data, i + 1, n, r.1);
    }
  }

  // ----- the whole step -----

  /** `crc16` of one value, over and over. */
  function Repeated(k: Kernels, x: Int16, n: nat, crc: int): int {
    if n == 0 then crc else Repeated(k, x, n - 1, k.crc(x % 0x10000, crc))
  }

  datatype Outcome = Outcome(cells: seq<Cell>, retval: int, memory: Memory)

  /** What is searched for after `n` finds. */
  function LastLow(n: int): int {
    if n > 0 then (n - 1) % 0x100 else 0
  }

  /** The find loop and, for a positive index, the sort by calculated values. */
  function Shuffled(s: seq<Cell>, findNum: int, finderIdx: int, k: Kernels, m: Memory): (seq<Cell>, Tally, Memory)
    requires |s| >= 2
  {
    var (cells, t) := Rounds(s, m.data, 0, findNum, Tally(0, 0, 0, finderIdx));
    if finderIdx > 0 then
      var r := Sort(cells, 1, OnCells(Complex(k)), m);
      (r.0, t, r.1)
    else
      (cells, t, m)
  }

  /** The number of nodes from the found one, or else from the second one, to the end. */
  function NodesFrom(s: seq<Cell>, data: Contents, idx: int, low: int): (n: nat)
    requires |s| >= 1
  {
    var k := FirstMatch(s, data, idx, low);
    if k < |s| then |s| - k else |s| - 1
  }

  /** The sum over the list from which the second entry is removed. */
  function FirstSum(s: seq<Cell>, k: Kernels, m: Memory, idx: int, low: int, retval: int): int
    requires |s| >= 3
  {
    var short := Removed(s, 1);
    Repeated(k, Data(m, short[0].info), NodesFrom(short, m.data, idx, low), retval)
  }

  /** `core_bench_list` on sequences of cells. */
  function Bench(s: seq<Cell>, findNum: int, finderIdx: int, k: Kernels, m: Memory): Outcome
    requires |s| >= 3
  {
    ShuffledPermutes(s, findNum, finderIdx, k, m);
    var (cells, t, n) := Shuffled(s, findNum, finderIdx, k, m);
    var r1 := FirstSum(cells, k, n, t.idx, LastLow(findNum), (t.retval + t.found * 4 - t.missed) % 0x10000);
    var sorted := Sort(cells, 1, OnCells(ByIndex(true)), n);
    SortPermutes(cells, 1, OnCells(ByIndex(true)), n);
    Outcome(sorted.0, Repeated(k, Data(sorted.1, sorted.0[0].info), |s| - 1, r1), sorted.1)
  }

  lemma ShuffledPermutes(s: seq<Cell>, findNum: int, finderIdx: int, k: Kernels, m: Memory)
    requires |s| >= 2
    ensures var r := Shuffled(s, findNum, finderIdx, k, m); multiset(r.0) == multiset(s) && |r.0| == |s|
  {
    var t := Tally(0, 0, 0, finderIdx);
    RoundsPermute(s, m.data, 0, findNum, t);
    SortPermutes(Rounds(s, m.data, 0, findNum, t).0, 1, OnCells(Complex(k)), m);
  }

  // ----- sorting by index -----

  predicate IndexLe(a: Cell, b: Cell) {
    a.info.idx <= b.info.idx
  }

  predicate IndexesIncrease(s: seq<Cell>) {
    forall i, j :: 0 <= i < j < |s| ==> s[i].info.idx < s[j].info.idx
  }

  lemma SameFirst(s: seq<Cell>, t: seq<Cell>)
    requires IndexesIncrease(s) && multiset(s) == multiset(t) && s != []
    requires forall i, j :: 0 <= i < j < |t| ==> IndexLe(t[i], t[j])
    ensures t != [] && s[0] == t[0] && multiset(s[1..]) == multiset(t[1..])
  {
    hide NodesOf;
    SameNodes(s, t);
    assert t[0] in s && s[0] in t;
    var i :| 0 <= i < |s| && s[i] == t[0];
    var j :| 0 <= j < |t| && t[j] == s[0];
    assert s[0].info.idx == t[0].info.idx;
    assert s == [s[0]] + s[1..] && t == [t[0]] + t[1..];
    assert multiset(s[1..]) == multiset(s) - multiset{s[0]};
    assert multiset(t[1..]) == multiset(t) - multiset{t[0]};
  }

  /** With distinct indexes there is only one sorted order. */
  lemma {:induction false} SortedOnce(s: seq<Cell>, t: seq<Cell>)
    requires IndexesIncrease(s) && multiset(s) == multiset(t)
    requires forall i, j :: 0 <= i < j < |t| ==> IndexLe(t[i], t[j])
    ensures s == t
  {
    if s == [] {
      SameNodes(s, t);
    } else {
      SameFirst(s, t);
      SortedOnce(s[1..], t[1..]);
      assert s == [s[0]] + s[1..] && t == [t[0]] + t[1..];
    }
  }

  /** Every entry's data is in the memory. */
  predicate Holds(m: Memory, s: seq<Cell>) {
    forall c :: c in s ==> c.info in m.data
  }

  /** The entries and the states that the sorts go through. */
  ghost predicate Range(s: seq<Cell>, m: Memory, dom: iset<Cell>, states: iset<Memory>) {
    && Holds(m, s) && Within(s, dom) && m in states
    && (forall c :: c in dom ==> c in s)
    && (forall n :: n in states ==> SameHighBytes(m, n))
  }

  lemma RangeOf(s: seq<Cell>, m: Memory) returns (dom: iset<Cell>, states: iset<Memory>)
    requires Holds(m, s)
    ensures Range(s, m, dom, states)
    ensures forall n: Memory :: SameHighBytes(m, n) ==> n in states
  {
    dom := iset c: Cell | c in s;
    states := iset n: Memory | SameHighBytes(m, n);
  }

  lemma IndexImplements(s: seq<Cell>, m: Memory, dom: iset<Cell>, states: iset<Memory>)
    requires Range(s, m, dom, states)
    requires forall n: Memory :: SameHighBytes(m, n) ==> n in states
    ensures Implements(dom, states, OnCells(ByIndex(true)), IndexLe)
    ensures Marks(dom, states, OnCells(ByIndex(true)), IsRebuilt)
  {
    forall a, b, n | a in dom && b in dom && n in states
      ensures OnCells(ByIndex(true)).after(a, b, n) in states
      ensures IsRebuilt(a, OnCells(ByIndex(true)).after(a, b, n)) && IsRebuilt(b, OnCells(ByIndex(true)).after(a, b, n))
    {
      IndexRebuilds(a.info, b.info, n);
    }
    forall x, a, b, n | x in dom && a in dom && b in dom && n in states && IsRebuilt(x, n)
      ensures IsRebuilt(x, OnCells(ByIndex(true)).after(a, b, n))
    {
      IndexRebuilds(a.info, b.info, n);
    }
  }

  predicate IsRebuilt(c: Cell, m: Memory) {
    Data(m, c.info) == Rebuilt(Data(m, c.info))
  }

  /** Sorting any permutation of a list with increasing indexes by index restores it, and rebuilds all low bytes. */
  lemma SortByIndexRestores(s: seq<Cell>, t: seq<Cell>, m: Memory)
    requires IndexesIncrease(s) && multiset(s) == multiset(t) && |s| >= 2 && Holds(m, s)
    ensures var r := Sort(t, 1, OnCells(ByIndex(true)), m);
            && r.0 == s && r.1.data.Keys == m.data.Keys
            && forall c :: c in s ==> r.1.data[c.info] == Rebuilt(m.data[c.info])
  {
    var c := OnCells(ByIndex(true));
    SameNodes(s, t);
    var dom, states := RangeOf(t, m);
    IndexImplements(t, m, dom, states);
    SortIsStableSort(t, c, m, dom, states, IndexLe);
    SortedOnce(s, Sort(t, 1, c, m).0);
    EveryElementCompared(t, c, m, dom, states, IsRebuilt);
    SortKeeps(t, 1, c, m, dom, states);
    var n := Sort(t, 1, c, m).1;
    forall x | x in s
      ensures n.data[x.info] == Rebuilt(m.data[x.info])
    {
      assert x in t && IsRebuilt(x, n);
      RebuiltByHighByte(m.data[x.info], n.data[x.info]);
    }
  }

  // ----- sorting by calculated values -----

  predicate HasResult(c: Cell, m: Memory) {
    IsCached(Data(m, c.info))
  }

  /** The order of the results that are cached in `m`. */
  function ResultLe(m: Memory): (Cell, Cell) -> bool {
    (a: Cell, b: Cell) => Data(m, a.info) % 0x80 <= Data(m, b.info) % 0x80
  }

  ghost function LeadsTo(m: Memory): Memory -> bool {
    (n: Memory) => KeepsCached(n, m)
  }

  lemma ComplexForetells(s: seq<Cell>, k: Kernels, m: Memory, last: Memory, dom: iset<Cell>, states: iset<Memory>)
    requires Range(s, m, dom, states) && last in states
    requires forall n: Memory :: SameHighBytes(m, n) ==> n in states
    ensures Foretells(dom, states, OnCells(Complex(k)), ResultLe(last), LeadsTo(last))
    ensures Marks(dom, states, OnCells(Complex(k)), HasResult)
  {
    forall a, b, n | a in dom && b in dom && n in states
      ensures var n' := OnCells(Complex(k)).after(a, b, n);
              n' in states && HasResult(a, n') && HasResult(b, n')
    {
      ComplexSettles(k, a.info, b.info, n);
    }
    forall x, a, b, n | x in dom && a in dom && b in dom && n in states && HasResult(x, n)
      ensures HasResult(x, OnCells(Complex(k)).after(a, b, n))
    {
      ComplexSettles(k, a.info, b.info, n);
    }
    forall a, b, n | a in dom && b in dom && n in states && LeadsTo(last)(OnCells(Complex(k)).after(a, b, n))
      ensures LeadsTo(last)(n) && (OnCells(Complex(k)).cmp(a, b, n) <= 0 <==> ResultLe(last)(a, b))
    {
      ComplexSettles(k, a.info, b.info, n);
    }
  }

  /**
   The sort with `cmp_complex`, which calculates values as it goes and caches them in the entries, is the stable sort
   by the values that are cached when it is done; no high byte has changed.
   */
  lemma ComplexSortsByResult(s: seq<Cell>, k: Kernels, m: Memory, dom: iset<Cell>)
    requires |s| >= 2 && Holds(m, s) && dom == (iset c: Cell | c in s)
    ensures var r := Sort(s, 1, OnCells(Complex(k)), m);
            && SameHighBytes(m, r.1)
            && (forall c :: c in s ==> IsCached(r.1.data[c.info]))
            && Sorted(r.0, ResultLe(r.1)) && SameClasses(r.0, s, dom, ResultLe(r.1)) && multiset(r.0) == multiset(s)
  {
    var c := OnCells(Complex(k));
    var last := Sort(s, 1, c, m).1;
    ComplexKeepsHighBytes(s, k, m);
    var states := iset n: Memory | SameHighBytes(m, n);
    ComplexForetells(s, k, m, last, dom, states);
    SortByOutcome(s, c, m, dom, states, ResultLe(last), LeadsTo(last));
    EveryElementCompared(s, c, m, dom, states, HasResult);
  }

  lemma ComplexKeepsHighBytes(s: seq<Cell>, k: Kernels, m: Memory)
    requires Holds(m, s)
    ensures SameHighBytes(m, Sort(s, 1, OnCells(Complex(k)), m).1)
  {
    var dom, states := RangeOf(s, m);
    ComplexForetells(s, k, m, m, dom, states);
    SortKeeps(s, 1, OnCells(Complex(k)), m, dom, states);
  }

  // ----- the step restores the list -----

  lemma HoldsPermuted(m: Memory, s: seq<Cell>, t: seq<Cell>)
    requires Holds(m, s) && multiset(s) == multiset(t)
    ensures Holds(m, t)
  {
    SameNodes(s, t);
  }

  lemma ShuffledKeepsHighBytes(s: seq<Cell>, findNum: int, finderIdx: int, k: Kernels, m: Memory)
    requires |s| >= 2 && Holds(m, s)
    ensures SameHighBytes(m, Shuffled(s, findNum, finderIdx, k, m).2)
  {
    var t := Tally(0, 0, 0, finderIdx);
    RoundsPermute(s, m.data, 0, findNum, t);
    HoldsPermuted(m, s, Rounds(s, m.data, 0, findNum, t).0);
    ComplexKeepsHighBytes(Rounds(s, m.data, 0, findNum, t).0, k, m);
  }

  /** The order is restored, and every entry's data is its high byte twice. */
  lemma BenchRestores(s: seq<Cell>, findNum: int, finderIdx: int, k: Kernels, m: Memory)
    requires |s| >= 3 && IndexesIncrease(s) && Holds(m, s)
    ensures var r := Bench(s, findNum, finderIdx, k, m);
            && r.cells == s && r.memory.data.Keys == m.data.Keys
            && forall c :: c in s ==> r.memory.data[c.info] == Rebuilt(m.data[c.info])
  {
    hide Shuffled;
    hide Rebuilt;
    ShuffledPermutes(s, findNum, finderIdx, k, m);
    ShuffledKeepsHighBytes(s, findNum, finderIdx, k, m);
    var (cells, t, n) := Shuffled(s, findNum, finderIdx, k, m);
    assert Holds(n, s);
    SortByIndexRestores(s, cells, n);
    forall c | c in s
      ensures Rebuilt(n.data[c.info]) == Rebuilt(m.data[c.info])
    {
      RebuiltByHighByte(n.data[c.info], m.data[c.info]);
    }
  }

  /** So the data is as before if and only if both bytes of every entry were equal. */
  lemma BenchRestoresDataExactly(s: seq<Cell>, findNum: int, finderIdx: int, k: Kernels, m: Memory)
    requires |s| >= 3 && IndexesIncrease(s) && Holds(m, s)
    ensures (forall c :: c in s ==> Data(Bench(s, findNum, finderIdx, k, m).memory, c.info) == Data(m, c.info))
       <==> (forall c :: c in s ==> Data(m, c.info) % 0x100 == HighByte(Data(m, c.info)) % 0x100)
  {
    BenchRestores(s, findNum, finderIdx, k, m);
  }

  // ----- core_bench_list on the heap -----

  lemma RoundsStep(s: seq<Cell>, data: Contents, i: int, n: int, t: Tally)
    requires |s| >= 2
    ensures i < n ==> var r := Round(s, data, i, t); Rounds(s, data, i, n, t) == Rounds(r.0, data, i + 1, n, r.1)
    ensures i >= n ==> Rounds(s, data, i, n, t) == (s, t)
  {
  }

  /** The part of a round after the reversal. */
  method TallyRound(list: ListHead, thisFind: ListHead?, retval0: int, found0: int, missed0: int, idx0: int,
                    ghost infos: set<ListData>, ghost s: seq<Cell>, ghost p: nat)
    returns (retval: int, found: int, missed: int, idx: int, ghost cells: seq<Cell>)
    requires IsList(list, s) && DataIn(s, infos) && |s| >= 2 && p < |s|
    requires thisFind == null || thisFind == s[p].node
    modifies NodesOf(s)`next
    ensures NodesOf(cells) == NodesOf(s) && IsList(list, cells)
    ensures var t := Tally(retval0, found0, missed0, idx0);
            && cells == (if thisFind == null then s else SplicedAny(s, p))
            && Tally(retval, found, missed, idx)
            == if thisFind == null then Missed(t, s[1].info.data16) else Found(t, s[p].info.data16)
  {
    hide IsList;
    hide HighByte;
    hide Missed;
    hide Found;
    hide SplicedAny;
    ghost var t := Tally(retval0, found0, missed0, idx0);
    retval, found, missed, cells := retval0, found0, missed0, s;
    idx := NextIndex(idx0);
    FirstOfList(list, s);
    InfoAt(list, s, 1);
    InfoAt(list, s, p);
    if thisFind == null {
      missed := (missed + 1) % 0x10000;
      retval := (retval + HighByte(list.next.info.data16) % 2) % 0x10000;
      IsMissed(t, list.next.info.data16);
    } else {
      found := (found + 1) % 0x10000;
      var bonus := if thisFind.info.data16 % 2 == 1 then thisFind.info.data16 / 0x200 % 2 else 0;
      retval := (retval + bonus) % 0x10000;
      IsFound(t, thisFind.info.data16);
      cells := CacheNext(list, thisFind, s, p);
    }
  }

  lemma ReversedData(s: seq<Cell>, infos: set<ListData>, p: nat)
    requires DataIn(s, infos) && |s| >= 2 && p < |s|
    ensures var back := Reversed(s);
            && DataIn(back, infos) && back[p] == s[|s| - 1 - p]
            && At(DataOf(infos), back[p].info) == back[p].info.data16
            && At(DataOf(infos), back[1].info) == back[1].info.data16
  {
    var back := Reversed(s);
    assert back[1] == s[|s| - 2];
    assert DataIn(back, infos);
  }

  /** One round of the find loop. */
  method FindRound(list0: ListHead, i: int, retval0: int, found0: int, missed0: int, idx0: int,
                   ghost infos: set<ListData>, ghost s: seq<Cell>)
    returns (list: ListHead, retval: int, found: int, missed: int, idx: int, ghost cells: seq<Cell>)
    requires IsList(list0, s) && DataIn(s, infos) && |s| >= 2
    modifies NodesOf(s)`next
    ensures (cells, Tally(retval, found, missed, idx))
         == Round(s, DataOf(infos), i, Tally(retval0, found0, missed0, idx0))
    ensures NodesOf(cells) == NodesOf(s) && IsList(list, cells)
  {
    hide IsList;
    hide FirstMatch;
    hide Missed;
    hide Found;
    hide SplicedAny;
    hide Reversed;
    hide DataIn;
    hide DataOf;
    hide Distinct;
    hide At;
    var thisFind := Find(list0, idx0, i % 0x100, infos, s);
    ghost var k: nat := FirstMatch(s, DataOf(infos), idx0, i % 0x100);
    ghost var back := Reversed(s);
    list := Reverse(list0, s);
    ghost var p: nat := if k < |s| then |s| - 1 - k else 0;
    ReversedData(s, infos, p);
    retval, found, missed, idx, cells :=
      TallyRound(list, thisFind, retval0, found0, missed0, idx0, infos, back, p);
  }

  lemma IsMissed(t: Tally, x: Int16)
    ensures Missed(t, x)
         == Tally((t.retval + HighByte(x) % 2) % 0x10000, t.found, (t.missed + 1) % 0x10000, NextIndex(t.idx))
  {
  }

  lemma IsFound(t: Tally, x: Int16)
    ensures Found(t, x)
         == Tally((t.retval + if x % 2 == 1 then x / 0x200 % 2 else 0) % 0x10000, (t.found + 1) % 0x10000, t.missed,
                  NextIndex(t.idx))
  {
  }

  /** Cache the next node, if any, at the head of the list. */
  method CacheNext(list: ListHead, found: ListHead, ghost s: seq<Cell>, ghost p: nat) returns (ghost cells: seq<Cell>)
    requires IsList(list, s) && p < |s| && found == s[p].node
    modifies NodesOf(s)`next
    ensures cells == SplicedAny(s, p) && NodesOf(cells) == NodesOf(s) && IsList(list, cells)
  {
    cells := s;
    NextOf(s, p);
    if found.next != null {
      Splice(list, found, s, p);
      cells := Spliced(s, p);
    }
  }

  lemma SourceIn(s: seq<Cell>, infos: set<ListData>, k: nat)
    requires DataIn(s, infos) && k < |s|
    ensures s[k].info in infos
  {
  }

  lemma AtData(infos: set<ListData>, d: ListData)
    requires d in infos
    ensures At(DataOf(infos), d) == d.data16
  {
  }

  lemma InfoAt(list: ListHead, s: seq<Cell>, i: nat)
    requires IsList(list, s) && i < |s|
    ensures s[i].node.info == s[i].info
  {
  }

  lemma NextOf(s: seq<Cell>, p: nat)
    requires p < |s| && IsList(s[0].node, s)
    ensures s[p].node.next == NodeAt(s, p + 1)
  {
    assert LinksOf(s)[s[p].node] == s[p].node.next;
    assert p + 1 < |s| ==> LinksOf(s)[s[p].node] == s[p + 1].node;
  }

  lemma FirstOfList(list: ListHead, s: seq<Cell>)
    requires IsList(list, s) && s != []
    ensures list == s[0].node && list.next == NodeAt(s, 1) && list.info == s[0].info
  {
    NextOf(s, 0);
  }

  /** The find loop. */
  method FindRounds(list0: ListHead, findNum: int, finderIdx: int, ghost infos: set<ListData>, ghost s: seq<Cell>)
    returns (list: ListHead, retval: int, found: int, missed: int, idx: int, low: int, ghost cells: seq<Cell>)
    requires IsList(list0, s) && DataIn(s, infos) && |s| >= 2
    modifies NodesOf(s)`next
    ensures (cells, Tally(retval, found, missed, idx))
         == Rounds(s, DataOf(infos), 0, findNum, Tally(0, 0, 0, finderIdx))
    ensures low == LastLow(findNum)
    ensures NodesOf(cells) == NodesOf(s) && IsList(list, cells)
  {
    hide Rounds;
    hide Round;
    hide IsList;
    hide DataIn;
    hide DataOf;
    hide Distinct;
    list, cells := list0, s;
    retval, found, missed, idx, low := 0, 0, 0, finderIdx, 0;
    var i := 0;
    ghost var data := DataOf(infos);
    while i < findNum
      invariant multiset(cells) == multiset(s) && NodesOf(cells) == NodesOf(s) && IsList(list, cells)
      invariant |cells| == |s| && DataIn(cells, infos)
      invariant low == LastLow(i) && (i == 0 || i <= findNum)
      invariant Rounds(cells, data, i, findNum, Tally(retval, found, missed, idx))
             == Rounds(s, data, 0, findNum, Tally(0, 0, 0, finderIdx))
    {
      low := i % 0x100;
      ghost var before, t := cells, Tally(retval, found, missed, idx);
      RoundsStep(before, data, i, findNum, t);
      list, retval, found, missed, idx, cells := FindRound(list, i, retval, found, missed, idx, infos, cells);
      RoundPermutes(before, data, i, t);
      SameNodes(before, cells);
      DataStaysIn(before, cells, infos);
      i := i + 1;
    }
    RoundsStep(cells, data, i, findNum, Tally(retval, found, missed, idx));
  }

  /** A loop that takes in the first entry's data once for every node from `finder` on. */
  method CrcLoop(list: ListHead, start: ListHead?, retval0: int, k: Kernels, ghost s: seq<Cell>, ghost j: nat)
    returns (retval: int)
    requires IsList(list, s) && j <= |s| && start == NodeAt(s, j)
    ensures retval == Repeated(k, list.info.data16, |s| - j, retval0)
  {
    retval := retval0;
    var finder := start;
    ghost var i := j;
    while finder != null
      invariant j <= i <= |s| && finder == NodeAt(s, i)
      invariant Repeated(k, list.info.data16, |s| - i, retval) == Repeated(k, list.info.data16, |s| - j, retval0)
      decreases |s| - i
    {
      retval := k.crc(list.info.data16 % 0x10000, retval);
      NextOf(s, i);
      finder, i := finder.next, i + 1;
    }
  }

  /** Remove the second entry, search and sum up, and put the entry back. */
  method RemoveAndRestore(list: ListHead, idx: int, low: int, retval0: int, k: Kernels,
                          ghost infos: set<ListData>, ghost s: seq<Cell>)
    returns (retval: int)
    requires IsList(list, s) && |s| >= 3 && DataIn(s, infos)
    modifies NodesOf(s)
    ensures IsList(list, s)
    ensures var short := Removed(s, 1);
            retval == Repeated(k, At(DataOf(infos), short[0].info), NodesFrom(short, DataOf(infos), idx, low), retval0)
  {
    hide IsList;
    hide Removed;
    hide DataIn;
    hide FirstMatch;
    hide Repeated;
    hide Distinct;
    FirstOfList(list, s);
    EachOnce(list, s);
    ghost var short := Removed(s, 1);
    var remover := Remove(list.next, s, 1);
    RemovedIndex(s, 1, 0);
    RemovedIndex(s, 1, 1);
    RemovedData(s, infos);
    RemovedNodes(s, 1);
    var finder := Find(list, idx, low, infos, short);
    ghost var j: nat := FirstMatch(short, DataOf(infos), idx, low);
    FirstOfList(list, short);
    if finder == null {
      finder := list.next;
      j := 1;
    }
    retval := CrcLoop(list, finder, retval0, k, short, j);
    UndoRemove(remover, list.next, s, 1);
  }

  lemma EachOnce(list: ListHead, s: seq<Cell>)
    requires IsList(list, s)
    ensures Distinct(s)
  {
  }

  lemma RemovedData(s: seq<Cell>, infos: set<ListData>)
    requires |s| >= 3 && DataIn(s, infos)
    ensures DataIn(Removed(s, 1), infos)
  {
    forall j | 0 <= j < |s| - 1
      ensures |Removed(s, 1)| == |s| - 1 && Removed(s, 1)[j].info in infos
    {
      RemovedIndex(s, 1, j);
    }
  }

  /** The find loop and the first sort, on the heap. */
  method Shuffle(list0: ListHead, findNum: int, finderIdx: int, k: Kernels, res: CoreResults,
                 ghost infos: set<ListData>, ghost s: seq<Cell>)
    returns (list: ListHead, retval: int, found: int, missed: int, idx: int, low: int, ghost cells: seq<Cell>)
    requires IsList(list0, s) && |s| >= 2 && DataIn(s, infos)
    modifies NodesOf(s)`next, res, infos`data16
    ensures (cells, Tally(retval, found, missed, idx), Now(infos, res))
         == Shuffled(s, findNum, finderIdx, k, old(Now(infos, res)))
    ensures low == LastLow(findNum)
    ensures multiset(cells) == multiset(s) && NodesOf(cells) == NodesOf(s)
    ensures IsList(list, cells) && DataIn(cells, infos)
  {
    hide IsList;
    hide DataIn;
    hide DataOf;
    hide Rounds;
    hide Sort;
    ghost var m, start := Now(infos, res), Tally(0, 0, 0, finderIdx);
    list, retval, found, missed, idx, low, cells := FindRounds(list0, findNum, finderIdx, infos, s);
    RoundsPermute(s, m.data, 0, findNum, start);
    DataStaysIn(s, cells, infos);
    assert Now(infos, res) == m;
    if finderIdx > 0 {
      list, cells := MergeSort(list, Complex(k), res, infos, cells);
    }
    ShuffledPermutes(s, findNum, finderIdx, k, m);
    DataStaysIn(s, cells, infos);
    SameNodes(s, cells);
  }

  /** The removal undone, the sort by index and the sums over the list. */
  method Finish(list0: ListHead, idx: int, low: int, retval0: int, k: Kernels, res: CoreResults,
                ghost infos: set<ListData>, ghost s: seq<Cell>)
    returns (retval: int, list: ListHead, ghost sorted: seq<Cell>)
    requires IsList(list0, s) && |s| >= 3 && DataIn(s, infos)
    modifies NodesOf(s), res, infos`data16
    ensures (sorted, Now(infos, res)) == Sort(s, 1, OnCells(ByIndex(true)), old(Now(infos, res)))
    ensures |sorted| == |s| && IsList(list, sorted)
    ensures retval == Repeated(k, Data(Now(infos, res), sorted[0].info), |s| - 1,
                               FirstSum(s, k, old(Now(infos, res)), idx, low, retval0))
  {
    hide IsList;
    hide Sort;
    hide Repeated;
    hide Removed;
    hide OnCells;
    hide DataIn;
    ghost var m := Now(infos, res);
    retval := RemoveAndRestore(list0, idx, low, retval0, k, infos, s);
    assert Now(infos, res) == m;
    list, sorted := MergeSort(list0, ByIndex(true), res, infos, s);
    SortPermutes(s, 1, OnCells(ByIndex(true)), m);
    FirstOfList(list, sorted);
    DataStaysIn(s, sorted, infos);
    SourceIn(sorted, infos, 0);
    AtData(infos, sorted[0].info);
    retval := CrcLoop(list, list.next, retval, k, sorted, 1);
  }

  /** `core_bench_list`. */
  method BenchList(list0: ListHead, findNum: int, finderIdx: int, k: Kernels, res: CoreResults,
                   ghost infos: set<ListData>, ghost s: seq<Cell>)
    returns (retval: int, list: ListHead)
    requires IsList(list0, s) && |s| >= 3 && IndexesIncrease(s) && DataIn(s, infos)
    modifies NodesOf(s), res, infos`data16
    ensures IsList(list, s)
    ensures forall i :: 0 <= i < |s| ==> s[i].info.data16 == Rebuilt(old(s[i].info.data16))
    ensures Outcome(s, retval, Now(infos, res)) == Bench(s, findNum, finderIdx, k, old(Now(infos, res)))
  {
    hide IsList;
    hide Shuffled;
    hide Sort;
    hide Repeated;
    hide FirstSum;
    hide IndexesIncrease;
    hide Rebuilt;
    ghost var m := Now(infos, res);
    var found: int, missed: int, idx: int, low: int;
    ghost var cells: seq<Cell>, sorted: seq<Cell>;
    list, retval, found, missed, idx, low, cells := Shuffle(list0, findNum, finderIdx, k, res, infos, s);
    SameNodes(s, cells);
    retval := (retval + found * 4 - missed) % 0x10000;
    retval, list, sorted := Finish(list, idx, low, retval, k, res, infos, cells);
    BenchRestores(s, findNum, finderIdx, k, m);
    forall i | 0 <= i < |s|
      ensures s[i].info.data16 == Rebuilt(old(s[i].info.data16))
    {
      assert s[i] in s;
    }
  }
}
