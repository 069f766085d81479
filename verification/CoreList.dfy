/** The CoreMark linked list: nodes relinked in place. */
module CoreList {
  import opened StableMerge
  import opened CoreData

  class ListHead {
    var next: ListHead?
    var info: ListData

    constructor (i: ListData)
      ensures info == i && next == null
    {
      info, next := i, null;
    }
  }

  /** A node together with the data it points to. */
  datatype Cell = Cell(node: ListHead, info: ListData)

  ghost function NodesOf(s: seq<Cell>): set<ListHead> {
    set c | c in s :: c.node
  }

  ghost predicate Distinct(s: seq<Cell>) {
    forall i, j :: 0 <= i < j < |s| ==> s[i].node != s[j].node
  }

  /** The node at position `i`, or NULL past the end. */
  ghost function NodeAt(s: seq<Cell>, i: nat): ListHead? {
    if i < |s| then s[i].node else null
  }

  ghost predicate InfosOf(s: seq<Cell>)
    reads NodesOf(s)`info
  {
    forall i :: 0 <= i < |s| ==> s[i].node in NodesOf(s) && s[i].node.info == s[i].info
  }

  /** A snapshot of the `next` fields. */
  type Links = map<ListHead, ListHead?>

  ghost function LinksOf(s: seq<Cell>): (links: Links)
    reads NodesOf(s)`next
    ensures links.Keys == NodesOf(s)
  {
    map n: ListHead | n in NodesOf(s) :: n.next
  }

  /** Each node links to the one after it, the last to NULL. */
  ghost predicate Chained(links: Links, s: seq<Cell>) {
    && (forall k :: 0 <= k < |s| ==> s[k].node in links)
    && (forall k :: 0 <= k < |s| && k == |s| - 1 ==> links[s[k].node] == null)
    && (forall k, m :: 0 <= k < m < |s| && m == k + 1 ==> links[s[k].node] == s[m].node)
  }

  /** `p` is the head of the NULL-terminated list with cells `s`. */
  ghost predicate IsList(p: ListHead?, s: seq<Cell>)
    reads NodesOf(s)
  {
    && Distinct(s) && InfosOf(s) && p == NodeAt(s, 0)
    && Chained(LinksOf(s), s)
  }

  // ----- core_list_mergesort -----

  /** Positions of `s` not yet moved to the output: the rest of the left run, and all from `qi` on. */
  ghost predicate Waiting(s: seq<Cell>, pi: nat, mid: nat, qi: nat, k: int) {
    pi <= k < mid || qi <= k < |s|
  }

  /** The output so far is linked from `list` to `tail`. */
  ghost predicate Output(links: Links, s: seq<Cell>, out: seq<Cell>, list: ListHead?, tail: ListHead?) {
    && Distinct(out)
    && (forall i :: 0 <= i < |out| ==> out[i] in s && out[i].node in links)
    && (forall i, j :: 0 <= i < j < |out| && j == i + 1 ==> links[out[i].node] == out[j].node)
    && list == NodeAt(out, 0)
    && tail == if out == [] then null else out[|out| - 1].node
  }

  /** The waiting nodes are not in the output and still have their old links. */
  ghost predicate Untouched(links: Links, s: seq<Cell>, pi: nat, mid: nat, qi: nat, out: seq<Cell>) {
    && links.Keys == NodesOf(s) && Distinct(s)
    && (forall i, k :: 0 <= i < |out| && 0 <= k < |s| && Waiting(s, pi, mid, qi, k) ==> out[i].node != s[k].node)
    && (forall k :: 0 <= k < |s| ==> s[k].node in links)
    && (forall k :: 0 <= k < |s| && k == |s| - 1 && Waiting(s, pi, mid, qi, k) ==> links[s[k].node] == null)
    && (forall k, m :: 0 <= k < m < |s| && m == k + 1 && Waiting(s, pi, mid, qi, k) ==> links[s[k].node] == s[m].node)
  }

  /** The state inside a pass. */
  ghost predicate Moving(links: Links, s: seq<Cell>, pi: nat, mid: nat, qi: nat, out: seq<Cell>,
                         list: ListHead?, tail: ListHead?)
  {
    Output(links, s, out, list, tail) && Untouched(links, s, pi, mid, qi, out)
  }

  /** Comparing two cells compares their data. */
  function OnCells(o: Order): Comparator<Cell, Memory> {
    Comparator((a: Cell, b: Cell, m: Memory) => Compared(o, a.info, b.info, m).0,
               (a: Cell, b: Cell, m: Memory) => Compared(o, a.info, b.info, m).1)
  }

  ghost predicate DataIn(s: seq<Cell>, infos: set<ListData>) {
    forall i :: 0 <= i < |s| ==> s[i].info in infos
  }

  ghost function LinkBehind(links: Links, tail: ListHead?, e: ListHead): Links {
    if tail != null then links[tail := e] else links
  }

  lemma LinkedOutput(links: Links, s: seq<Cell>, out: seq<Cell>, list: ListHead?, tail: ListHead?, k: nat)
    requires Output(links, s, out, list, tail) && k < |s| && s[k].node in links
    requires forall i :: 0 <= i < |out| ==> out[i].node != s[k].node
    ensures Output(LinkBehind(links, tail, s[k].node), s, out + [s[k]],
                   if tail != null then list else s[k].node, s[k].node)
  {
  }

  lemma LinkedUntouched(links: Links, s: seq<Cell>, pi: nat, mid: nat, qi: nat, out: seq<Cell>,
                        list: ListHead?, tail: ListHead?, k: nat, left: bool)
    requires Moving(links, s, pi, mid, qi, out, list, tail) && k < |s|
    requires if left then k == pi && pi < mid <= qi else k == qi && mid <= qi
    ensures Untouched(LinkBehind(links, tail, s[k].node), s, if left then pi + 1 else pi, mid,
                      if left then qi else qi + 1, out + [s[k]])
  {
    var pi', qi' := if left then pi + 1 else pi, if left then qi else qi + 1;
    forall j | 0 <= j < |s| && Waiting(s, pi', mid, qi', j)
      ensures Waiting(s, pi, mid, qi, j) && j != k
    {
    }
    if tail != null {
      assert out[|out| - 1].node == tail;
    }
  }

  /** Take `e` off its run and link it behind `tail`; `next` is where its run goes on. */
  method Move(e: ListHead, list0: ListHead?, tail0: ListHead?,
              ghost s: seq<Cell>, ghost pi: nat, ghost mid: nat, ghost qi: nat, ghost out: seq<Cell>,
              ghost k: nat, ghost left: bool)
    returns (next: ListHead?, list: ListHead?, tail: ListHead)
    requires Moving(LinksOf(s), s, pi, mid, qi, out, list0, tail0)
    requires k < |s| && e == s[k].node
    requires if left then k == pi && pi < mid <= qi else k == qi && mid <= qi
    modifies NodesOf(s)`next
    ensures Moving(LinksOf(s), s, if left then pi + 1 else pi, mid, if left then qi else qi + 1, out + [s[k]],
                   list, tail)
    ensures tail == e && next == NodeAt(s, k + 1)
  {
    ghost var links := LinksOf(s);
    assert Waiting(s, pi, mid, qi, k);
    next := e.next;
    list := list0;
    if tail0 != null {
      assert tail0 in links;
      tail0.next := e;
    } else {
      list := e;
    }
    tail := e;
    LinkedOutput(links, s, out, list0, tail0, k);
    LinkedUntouched(links, s, pi, mid, qi, out, list0, tail0, k, left);
    assert LinksOf(s) == LinkBehind(links, tail0, e);
  }

  /** Step up to `insize` places along from `p`, counting them. */
  method StepAlong(p: ListHead, insize: nat, ghost s: seq<Cell>, ghost b: nat, ghost out: seq<Cell>,
                   ghost list: ListHead?, ghost tail: ListHead?)
    returns (q: ListHead?, psize: nat)
    requires insize > 0 && b < |s| && p == s[b].node
    requires Moving(LinksOf(s), s, b, b, b, out, list, tail)
    ensures b + psize == Least(b + insize, |s|) && q == NodeAt(s, b + psize)
  {
    q, psize := p, 0;
    for i := 0 to insize
      invariant psize == i && b + i < |s| && q == s[b + i].node
    {
      assert Waiting(s, b, b, b, b + i) && s[b + i].node in LinksOf(s);
      assert b + i + 1 < |s| ==> LinksOf(s)[s[b + i].node] == s[b + i + 1].node;
      psize := psize + 1;
      q := q.next;
      if q == null {
        break;
      }
    }
  }

  /** Where the cursors of a merge stand: left run at `pi` of `[..mid]`, right run at `qi` of `[..end]`. */
  ghost predicate Cursors(s: seq<Cell>, pi: nat, mid: nat, qi: nat, end: nat, insize: nat,
                          p: ListHead?, q: ListHead?, psize: nat, qsize: nat)
  {
    && pi <= mid <= qi <= end <= |s| && end == Least(mid + insize, |s|)
    && psize == mid - pi && qsize == insize - (qi - mid)
    && (psize > 0 ==> p == s[pi].node)
    && q == NodeAt(s, qi)
  }

  /** What is still to be merged, by positions. */
  ghost function Rest(s: seq<Cell>, pi: nat, mid: nat, qi: nat, end: nat, o: Order, m: Memory): (seq<Cell>, Memory)
    requires pi <= mid <= qi <= end <= |s|
    decreases mid - pi + end - qi
  {
    if pi == mid && qi == end then ([], m)
    else
      var n := if pi < mid && qi < end then Compared(o, s[pi].info, s[qi].info, m).1 else m;
      if pi < mid && (qi < end ==> Compared(o, s[pi].info, s[qi].info, m).0 <= 0) then
        var r := Rest(s, pi + 1, mid, qi, end, o, n);
        ([s[pi]] + r.0, r.1)
      else
        var r := Rest(s, pi, mid, qi + 1, end, o, n);
        ([s[qi]] + r.0, r.1)
  }

  lemma {:induction false} RestIsMerge(s: seq<Cell>, pi: nat, mid: nat, qi: nat, end: nat, o: Order, m: Memory)
    requires pi <= mid <= qi <= end <= |s|
    ensures Rest(s, pi, mid, qi, end, o, m) == Merge(s[pi..mid], s[qi..end], OnCells(o), m)
    decreases mid - pi + end - qi
  {
    hide Compared;
    var left, right := s[pi..mid], s[qi..end];
    if pi == mid && qi == end {
      assert left == [] && right == [];
    } else {
      var r := if pi < mid && qi < end then Compared(o, s[pi].info, s[qi].info, m) else (0, m);
      if pi < mid && (qi < end ==> r.0 <= 0) {
        RestIsMerge(s, pi + 1, mid, qi, end, o, r.1);
        assert left == [s[pi]] + s[pi + 1..mid] && left[1..] == s[pi + 1..mid];
        assert s[pi + 1..mid] + [] == s[pi + 1..mid];
      } else {
        RestIsMerge(s, pi, mid, qi + 1, end, o, r.1);
        assert right == [s[qi]] + s[qi + 1..end] && right[1..] == s[qi + 1..end];
      }
    }
  }

  /** From output `out`, with `rest` still to be merged, the merge ends in `goal`. */
  ghost predicate Leads(goal: (seq<Cell>, Memory), out: seq<Cell>, rest: (seq<Cell>, Memory)) {
    goal.0 == out + rest.0 && goal.1 == rest.1
  }

  /** The left run goes next unless it is empty or compares greater; only two nonempty runs are compared. */
  ghost predicate Choice(s: seq<Cell>, pi: nat, mid: nat, qi: nat, end: nat, o: Order, m: Memory,
                         left: bool, n: Memory)
  {
    && pi <= mid <= qi <= end <= |s|
    && n == (if pi < mid && qi < end then Compared(o, s[pi].info, s[qi].info, m).1 else m)
    && (left ==> pi < mid && (qi < end ==> Compared(o, s[pi].info, s[qi].info, m).0 <= 0))
    && (!left ==> qi < end && (pi < mid ==> Compared(o, s[pi].info, s[qi].info, m).0 > 0))
  }

  lemma Taken(s: seq<Cell>, pi: nat, mid: nat, qi: nat, end: nat, o: Order, m: Memory,
              out: seq<Cell>, goal: (seq<Cell>, Memory), left: bool, n: Memory)
    requires Choice(s, pi, mid, qi, end, o, m, left, n)
    requires Leads(goal, out, Rest(s, pi, mid, qi, end, o, m))
    ensures Leads(goal, out + [s[if left then pi else qi]],
                  Rest(s, if left then pi + 1 else pi, mid, if left then qi else qi + 1, end, o, n))
  {
    hide Compared;
  }

  /** Decide whether the next element of the merge comes from the left run. */
  method Pick(p: ListHead?, q: ListHead?, psize: nat, qsize: nat,
              o: Order, res: CoreResults, ghost infos: set<ListData>,
              ghost s: seq<Cell>, ghost pi: nat, ghost mid: nat, ghost qi: nat, ghost end: nat, ghost insize: nat)
    returns (takeLeft: bool)
    requires Cursors(s, pi, mid, qi, end, insize, p, q, psize, qsize) && InfosOf(s) && DataIn(s, infos)
    requires psize > 0 || (qsize > 0 && q != null)
    modifies res, infos`data16
    ensures Choice(s, pi, mid, qi, end, o, old(Now(infos, res)), takeLeft, Now(infos, res))
  {
    hide Compared;
    if psize == 0 {
      takeLeft := false;
    } else if qsize == 0 || q == null {
      takeLeft := true;
    } else {
      var answer := res.Compare(p.info, q.info, o, infos);
      takeLeft := answer <= 0;
    }
  }

  /** One round of the merge loop: pick the next element, advance its run, link it. */
  method MergeStep(p0: ListHead?, q0: ListHead?, psize0: nat, qsize0: nat, list0: ListHead?, tail0: ListHead?,
                   o: Order, res: CoreResults, ghost infos: set<ListData>,
                   ghost s: seq<Cell>, ghost pi: nat, ghost mid: nat, ghost qi: nat, ghost end: nat,
                   ghost insize: nat, ghost out: seq<Cell>)
    returns (p: ListHead?, q: ListHead?, psize: nat, qsize: nat, list: ListHead?, tail: ListHead, left: bool)
    requires Cursors(s, pi, mid, qi, end, insize, p0, q0, psize0, qsize0) && InfosOf(s) && DataIn(s, infos)
    requires psize0 > 0 || (qsize0 > 0 && q0 != null)
    requires Moving(LinksOf(s), s, pi, mid, qi, out, list0, tail0)
    modifies NodesOf(s)`next, res, infos`data16
    ensures Choice(s, pi, mid, qi, end, o, old(Now(infos, res)), left, Now(infos, res))
    ensures Cursors(s, if left then pi + 1 else pi, mid, if left then qi else qi + 1, end, insize, p, q, psize, qsize)
    ensures Moving(LinksOf(s), s, if left then pi + 1 else pi, mid, if left then qi else qi + 1,
                   out + [s[if left then pi else qi]], list, tail)
    ensures psize + qsize < psize0 + qsize0
  {
    hide Now;
    hide Compared;
    hide Output;
    hide Untouched;
    hide Moving;
    hide DataIn;
    p, q, psize, qsize := p0, q0, psize0, qsize0;
    left := Pick(p, q, psize, qsize, o, res, infos, s, pi, mid, qi, end, insize);
    if left {
      p, list, tail := Move(p, list0, tail0, s, pi, mid, qi, out, pi, true);
      psize := psize - 1;
    } else {
      q, list, tail := Move(q, list0, tail0, s, pi, mid, qi, out, qi, false);
      qsize := qsize - 1;
    }
  }

  lemma AllWaiting(s: seq<Cell>, b: nat, out: seq<Cell>, list: ListHead?, tail: ListHead?)
    requires b <= |s| && Moving(LinksOf(s), s, b, b, b, out, list, tail)
    ensures forall mid: nat :: b <= mid <= |s| ==> Moving(LinksOf(s), s, b, mid, mid, out, list, tail)
  {
    forall mid: nat | b <= mid <= |s|
      ensures Moving(LinksOf(s), s, b, mid, mid, out, list, tail)
    {
      forall k | 0 <= k < |s| && Waiting(s, b, mid, mid, k)
        ensures Waiting(s, b, b, b, k)
      {
      }
    }
  }

  /** The merge loop. */
  method MergeRuns(p0: ListHead?, q0: ListHead?, psize0: nat, qsize0: nat, list0: ListHead?, tail0: ListHead?,
                   o: Order, res: CoreResults, ghost infos: set<ListData>,
                   ghost s: seq<Cell>, ghost b: nat, ghost mid: nat, ghost end: nat, ghost insize: nat,
                   ghost out0: seq<Cell>, ghost goal: (seq<Cell>, Memory))
    returns (q: ListHead?, list: ListHead?, tail: ListHead?)
    requires Cursors(s, b, mid, mid, end, insize, p0, q0, psize0, qsize0) && InfosOf(s) && DataIn(s, infos)
    requires b < mid
    requires Moving(LinksOf(s), s, b, mid, mid, out0, list0, tail0)
    requires Leads(goal, out0, Rest(s, b, mid, mid, end, o, Now(infos, res)))
    modifies NodesOf(s)`next, res, infos`data16
    ensures Moving(LinksOf(s), s, mid, mid, end, goal.0, list, tail) && tail != null
    ensures Now(infos, res) == goal.1 && q == NodeAt(s, end)
  {
    hide Now;
    hide Compared;
    hide Moving;
    hide Choice;
    var p: ListHead?, psize: nat, qsize: nat := p0, psize0, qsize0;
    q, list, tail := q0, list0, tail0;
    ghost var pi: nat, qi: nat, out := b, mid, out0;
    while psize > 0 || (qsize > 0 && q != null)
      invariant Cursors(s, pi, mid, qi, end, insize, p, q, psize, qsize)
      invariant InfosOf(s)
      invariant Moving(LinksOf(s), s, pi, mid, qi, out, list, tail)
      invariant tail != null || psize > 0
      invariant Leads(goal, out, Rest(s, pi, mid, qi, end, o, Now(infos, res)))
      decreases psize + qsize
    {
      ghost var before := Now(infos, res);
      var left: bool;
      p, q, psize, qsize, list, tail, left :=
        MergeStep(p, q, psize, qsize, list, tail, o, res, infos, s, pi, mid, qi, end, insize, out);
      Taken(s, pi, mid, qi, end, o, before, out, goal, left, Now(infos, res));
      out := out + [s[if left then pi else qi]];
      pi, qi := if left then pi + 1 else pi, if left then qi else qi + 1;
    }
    assert out + [] == out;
  }

  /** The merge of one pair of runs, starting at position `b` of the pass's input. */
  method MergeBlock(p0: ListHead, insize: nat, o: Order, res: CoreResults, ghost infos: set<ListData>,
                    list0: ListHead?, tail0: ListHead?,
                    ghost s: seq<Cell>, ghost b: nat, ghost out0: seq<Cell>)
    returns (p: ListHead?, list: ListHead?, tail: ListHead?, ghost out: seq<Cell>, ghost end: nat)
    requires insize > 0 && b < |s| && p0 == s[b].node && InfosOf(s) && DataIn(s, infos)
    requires Moving(LinksOf(s), s, b, b, b, out0, list0, tail0)
    modifies NodesOf(s)`next, res, infos`data16
    ensures end == Least(b + 2 * insize, |s|) && p == NodeAt(s, end)
    ensures Moving(LinksOf(s), s, end, end, end, out, list, tail) && tail != null
    ensures var mid := Least(b + insize, |s|);
            && mid <= end && out == out0 + Rest(s, b, mid, mid, end, o, old(Now(infos, res))).0
            && Now(infos, res) == Rest(s, b, mid, mid, end, o, old(Now(infos, res))).1
  {
    hide Moving;
    hide Now;
    hide Rest;
    hide Compared;
    hide DataIn;
    hide InfosOf;
    AllWaiting(s, b, out0, list0, tail0);
    var q: ListHead?, psize: nat := StepAlong(p0, insize, s, b, out0, list0, tail0);
    ghost var mid: nat := b + psize;
    end := Least(mid + insize, |s|);
    ghost var rest := Rest(s, b, mid, mid, end, o, Now(infos, res));
    out := out0 + rest.0;
    p, list, tail :=
      MergeRuns(p0, q, psize, insize, list0, tail0, o, res, infos, s, b, mid, end, insize, out0, (out, rest.1));
    NothingLeftWaits(s, mid, end, out, list, tail);
  }

  lemma NothingLeftWaits(s: seq<Cell>, mid: nat, end: nat, out: seq<Cell>, list: ListHead?, tail: ListHead?)
    requires Moving(LinksOf(s), s, mid, mid, end, out, list, tail)
    ensures Moving(LinksOf(s), s, end, end, end, out, list, tail)
  {
    assert forall k :: Waiting(s, end, end, end, k) ==> Waiting(s, mid, mid, end, k);
  }

  // ----- passes -----

  /** What a pass still has to produce from position `b` on. */
  ghost function PassFrom(s: seq<Cell>, b: nat, insize: nat, o: Order, m: Memory): (seq<Cell>, Memory)
    requires insize > 0 && b <= |s|
    decreases |s| - b
  {
    if b == |s| then ([], m)
    else
      var mid, end := Least(b + insize, |s|), Least(b + 2 * insize, |s|);
      var block := Rest(s, b, mid, mid, end, o, m);
      var r := PassFrom(s, end, insize, o, block.1);
      (block.0 + r.0, r.1)
  }

  lemma {:induction false} PassFromIsPass(s: seq<Cell>, b: nat, insize: nat, o: Order, m: Memory)
    requires insize > 0 && b <= |s|
    ensures PassFrom(s, b, insize, o, m) == Pass(s[b..], insize, OnCells(o), m)
    decreases |s| - b
  {
    hide Rest;
    hide Merge;
    hide OnCells;
    if b < |s| {
      var t := s[b..];
      var mid, end := Least(b + insize, |s|), Least(b + 2 * insize, |s|);
      var k, e := Least(insize, |t|), Least(2 * insize, |t|);
      assert mid == b + k && end == b + e;
      assert t[..k] == s[b..mid];
      assert t[k..e] == s[mid..end];
      assert t[e..] == s[end..];
      RestIsMerge(s, b, mid, mid, end, o, m);
      PassFromIsPass(s, end, insize, o, Rest(s, b, mid, mid, end, o, m).1);
    }
  }

  lemma PassStep(s: seq<Cell>, b: nat, insize: nat, o: Order, m: Memory,
                 out: seq<Cell>, goal: (seq<Cell>, Memory))
    requires insize > 0 && b < |s| && Leads(goal, out, PassFrom(s, b, insize, o, m))
    ensures var mid, end := Least(b + insize, |s|), Least(b + 2 * insize, |s|);
            var block := Rest(s, b, mid, mid, end, o, m);
            Leads(goal, out + block.0, PassFrom(s, end, insize, o, block.1))
  {
    var mid, end := Least(b + insize, |s|), Least(b + 2 * insize, |s|);
    var block := Rest(s, b, mid, mid, end, o, m);
    var r := PassFrom(s, end, insize, o, block.1);
    assert out + (block.0 + r.0) == (out + block.0) + r.0;
  }

  lemma StartOfPass(list: ListHead?, s: seq<Cell>)
    requires IsList(list, s)
    ensures Moving(LinksOf(s), s, 0, 0, 0, [], null, null)
  {
  }

  /** Ending the output with NULL makes it a list again. */
  lemma EndOfPass(links: Links, s: seq<Cell>, out: seq<Cell>, list: ListHead?, tail: ListHead)
    requires Moving(links, s, |s|, |s|, |s|, out, list, tail) && multiset(out) == multiset(s)
    ensures tail in links
    ensures NodesOf(out) == NodesOf(s) && out != []
    ensures Chained(links[tail := null], out) && Distinct(out) && list == NodeAt(out, 0)
  {
    SameNodes(out, s);
  }

  lemma SameNodes(a: seq<Cell>, b: seq<Cell>)
    requires multiset(a) == multiset(b)
    ensures NodesOf(a) == NodesOf(b) && |a| == |b|
    ensures forall c :: c in a <==> c in b
  {
    assert forall c :: c in a <==> c in multiset(a);
    assert forall c :: c in b <==> c in multiset(b);
    assert |a| == |multiset(a)| == |multiset(b)| == |b|;
  }

  /** The loop over the pairs of runs. */
  method MergeBlocks(list0: ListHead, insize: nat, o: Order, res: CoreResults, ghost infos: set<ListData>,
                     ghost s: seq<Cell>)
    returns (head: ListHead?, tail: ListHead?, nmerges: nat, ghost out: seq<Cell>)
    requires insize > 0 && IsList(list0, s) && DataIn(s, infos)
    modifies NodesOf(s)`next, res, infos`data16
    ensures Moving(LinksOf(s), s, |s|, |s|, |s|, out, head, tail) && tail != null
    ensures (out, Now(infos, res)) == PassFrom(s, 0, insize, o, old(Now(infos, res)))
    ensures nmerges <= 1 <==> |s| <= 2 * insize
  {
    hide Now;
    hide Rest;
    hide Output;
    hide Untouched;
    StartOfPass(list0, s);
    var p: ListHead? := list0;
    head, tail := null, null;
    nmerges, out := 0, [];
    ghost var b: nat := 0;
    ghost var goal := PassFrom(s, 0, insize, o, Now(infos, res));
    assert [] + goal.0 == goal.0;
    while p != null
      invariant b <= |s| && p == NodeAt(s, b) && InfosOf(s)
      invariant Moving(LinksOf(s), s, b, b, b, out, head, tail)
      invariant b > 0 ==> tail != null
      invariant nmerges == 0 <==> b == 0
      invariant nmerges <= 1 <==> b <= 2 * insize
      invariant nmerges >= 1 ==> b == |s| || b >= 2 * insize
      invariant Leads(goal, out, PassFrom(s, b, insize, o, Now(infos, res)))
      decreases |s| - b
    {
      nmerges := nmerges + 1;
      PassStep(s, b, insize, o, Now(infos, res), out, goal);
      p, head, tail, out, b := MergeBlock(p, insize, o, res, infos, head, tail, s, b, out);
    }
    assert out + [] == out;
  }

  /** One pass over the list. */
  method MergePass(list0: ListHead, insize: nat, o: Order, res: CoreResults, ghost infos: set<ListData>,
                   ghost s: seq<Cell>)
    returns (list: ListHead, nmerges: nat, ghost out: seq<Cell>)
    requires insize > 0 && IsList(list0, s) && DataIn(s, infos)
    modifies NodesOf(s)`next, res, infos`data16
    ensures NodesOf(out) == NodesOf(s) && IsList(list, out)
    ensures (out, Now(infos, res)) == Pass(s, insize, OnCells(o), old(Now(infos, res)))
    ensures nmerges <= 1 <==> |s| <= 2 * insize
  {
    hide Now;
    hide PassFrom;
    hide Pass;
    hide Untouched;
    var tail: ListHead?;
    ghost var m := Now(infos, res);
    list, tail, nmerges, out := MergeBlocks(list0, insize, o, res, infos, s);
    PassPermutation(s, insize, o, m, out);
    EndOfPass(LinksOf(s), s, out, list, tail);
    Terminate(list, tail, s, out);
  }

  lemma PassPermutation(s: seq<Cell>, insize: nat, o: Order, m: Memory, out: seq<Cell>)
    requires insize > 0 && out == PassFrom(s, 0, insize, o, m).0
    ensures PassFrom(s, 0, insize, o, m) == Pass(s, insize, OnCells(o), m)
    ensures multiset(out) == multiset(s)
  {
    PassFromIsPass(s, 0, insize, o, m);
    assert s[0..] == s;
    PassPermutes(s, insize, OnCells(o), m);
  }

  /** `tail->next = NULL`. */
  method Terminate(list: ListHead?, tail: ListHead, ghost s: seq<Cell>, ghost out: seq<Cell>)
    requires NodesOf(out) == NodesOf(s) && tail in NodesOf(s) && multiset(out) == multiset(s) && InfosOf(s)
    requires Chained(LinksOf(s)[tail := null], out) && Distinct(out) && list == NodeAt(out, 0)
    modifies NodesOf(s)`next
    ensures IsList(list, out)
  {
    ghost var links := LinksOf(s);
    tail.next := null;
    assert LinksOf(out) == links[tail := null];
    SameNodes(out, s);
    InfosTransfer(out, s);
  }

  lemma InfosTransfer(out: seq<Cell>, s: seq<Cell>)
    requires InfosOf(s) && forall c :: c in out <==> c in s
    ensures InfosOf(out)
  {
    forall i | 0 <= i < |out|
      ensures out[i].node in NodesOf(out) && out[i].node.info == out[i].info
    {
      assert out[i] in s;
    }
  }

  lemma SortStep(s: seq<Cell>, w: nat, o: Order, m: Memory)
    requires w > 0
    ensures var r := Pass(s, w, OnCells(o), m);
            && |r.0| == |s| && multiset(r.0) == multiset(s)
            && Sort(s, w, OnCells(o), m) == if |s| <= 2 * w then r else Sort(r.0, w * 2, OnCells(o), r.1)
  {
    hide Compared;
    hide OnCells;
    hide Pass;
    PassPermutes(s, w, OnCells(o), m);
  }

  /** `core_list_mergesort`: relinks the nodes of a non-empty list into `Sort` order. */
  method MergeSort(list0: ListHead, o: Order, res: CoreResults, ghost infos: set<ListData>, ghost s: seq<Cell>)
    returns (list: ListHead, ghost out: seq<Cell>)
    requires IsList(list0, s) && DataIn(s, infos)
    modifies NodesOf(s)`next, res, infos`data16
    ensures NodesOf(out) == NodesOf(s) && IsList(list, out)
    ensures (out, Now(infos, res)) == Sort(s, 1, OnCells(o), old(Now(infos, res)))
  {
    hide IsList;
    hide Sort;
    hide Pass;
    hide Now;
    hide DataIn;
    var insize: nat, nmerges: nat := 1, 0;
    list, out := list0, s;
    while true
      invariant insize > 0 && NodesOf(out) == NodesOf(s) && IsList(list, out) && DataIn(out, infos)
      invariant Sort(s, 1, OnCells(o), old(Now(infos, res))) == Sort(out, insize, OnCells(o), Now(infos, res))
      invariant |out| == |s|
      decreases |s| - insize
    {
      ghost var before := out;
      SortStep(out, insize, o, Now(infos, res));
      list, nmerges, out := MergePass(list, insize, o, res, infos, out);
      DataStaysIn(before, out, infos);
      if nmerges <= 1 {
        return;
      }
      insize := insize * 2;
    }
  }

  lemma DataStaysIn(s: seq<Cell>, out: seq<Cell>, infos: set<ListData>)
    requires multiset(out) == multiset(s) && DataIn(s, infos)
    ensures DataIn(out, infos)
  {
    SameNodes(out, s);
    forall i | 0 <= i < |out|
      ensures out[i].info in infos
    {
      assert out[i] in s;
    }
  }

  // ----- the other list operations -----

  /** Whether `core_list_find` stops at this data. */
  predicate Matches(d: ListData, data: Contents, idx: int, data16: int) {
    if idx >= 0 then d.idx == idx else At(data, d) % 0x100 == data16
  }

  /** The first matching position, or the length. */
  function FirstMatch(s: seq<Cell>, data: Contents, idx: int, data16: int): (k: nat)
    ensures k <= |s| && (k < |s| ==> Matches(s[k].info, data, idx, data16))
    ensures forall i :: 0 <= i < k ==> !Matches(s[i].info, data, idx, data16)
  {
    if s == [] || Matches(s[0].info, data, idx, data16) then 0 else 1 + FirstMatch(s[1..], data, idx, data16)
  }

  /** `core_list_find`: the first matching node. */
  method Find(list: ListHead, idx: int, data16: int, ghost infos: set<ListData>, ghost s: seq<Cell>)
    returns (r: ListHead?)
    requires IsList(list, s) && DataIn(s, infos)
    ensures r == NodeAt(s, FirstMatch(s, DataOf(infos), idx, data16))
  {
    r := list;
    ghost var k: nat, data := 0, DataOf(infos);
    while r != null && !(if idx >= 0 then r.info.idx == idx else r.info.data16 % 0x100 == data16)
      invariant k <= |s| && r == NodeAt(s, k)
      invariant forall i :: 0 <= i < k ==> !Matches(s[i].info, data, idx, data16)
      decreases |s| - k
    {
      assert LinksOf(s)[s[k].node] == r.next;
      assert k + 1 < |s| ==> LinksOf(s)[s[k].node] == s[k + 1].node;
      r, k := r.next, k + 1;
    }
    assert k < |s| ==> Matches(s[k].info, data, idx, data16);
  }

  function Reversed(s: seq<Cell>): (r: seq<Cell>)
    ensures |r| == |s| && forall i :: 0 <= i < |s| ==> r[i] == s[|s| - 1 - i]
  {
    if s == [] then [] else Reversed(s[1..]) + [s[0]]
  }

  /** `core_list_reverse`. */
  method Reverse(list0: ListHead, ghost s: seq<Cell>) returns (r: ListHead)
    requires IsList(list0, s)
    modifies NodesOf(s)`next
    ensures NodesOf(Reversed(s)) == NodesOf(s) && IsList(r, Reversed(s))
  {
    var list: ListHead?, next: ListHead? := list0, null;
    ghost var k: nat := 0;
    while list != null
      invariant k <= |s| && list == NodeAt(s, k)
      invariant next == if k == 0 then null else s[k - 1].node
      invariant forall i, j :: 0 <= i < j < k && j == i + 1 ==> s[j].node.next == s[i].node
      invariant k > 0 ==> s[0].node.next == null
      invariant forall i, j :: k <= i < j < |s| && j == i + 1 ==> s[i].node.next == s[j].node
      invariant k < |s| ==> s[|s| - 1].node.next == null
      decreases |s| - k
    {
      var tmp := list.next;
      list.next := next;
      next := list;
      list := tmp;
      k := k + 1;
    }
    r := next;
    ReversedIsList(r, s);
  }

  lemma ReversedIsList(r: ListHead, s: seq<Cell>)
    requires s != [] && Distinct(s) && InfosOf(s) && r == s[|s| - 1].node
    requires s[0].node.next == null
    requires forall i, j :: 0 <= i < j < |s| && j == i + 1 ==> s[j].node.next == s[i].node
    ensures NodesOf(Reversed(s)) == NodesOf(s) && IsList(r, Reversed(s))
  {
    var t := Reversed(s);
    forall c | c in s
      ensures c in t
    {
      var i :| 0 <= i < |s| && s[i] == c;
      assert t[|s| - 1 - i] == c;
    }
    assert forall i :: 0 <= i < |t| ==> t[i] in s;
    assert NodesOf(t) == NodesOf(s);
    forall i, j | 0 <= i < j < |t| && j == i + 1
      ensures LinksOf(t)[t[i].node] == t[j].node
    {
      assert t[i] == s[|s| - 1 - i] && t[j] == s[|s| - 1 - j];
    }
    InfosTransfer(t, s);
  }

  /** The node after position `p` moved to just behind the head. */
  function Spliced(s: seq<Cell>, p: nat): seq<Cell>
    requires p + 1 < |s|
  {
    if p == 0 then s else [s[0], s[p + 1]] + s[1..p + 1] + s[p + 2..]
  }

  lemma SplicedPermutes(s: seq<Cell>, p: nat)
    requires p + 1 < |s|
    ensures multiset(Spliced(s, p)) == multiset(s) && |Spliced(s, p)| == |s|
  {
    if p != 0 {
      assert s == [s[0]] + s[1..p + 1] + [s[p + 1]] + s[p + 2..];
    }
  }

  /** Where the cell at position `j` of the spliced list comes from. */
  function SplicedFrom(p: nat, j: nat): nat {
    if p == 0 || j == 0 || j > p + 1 then j else if j == 1 then p + 1 else j - 1
  }

  lemma SplicedIndex(s: seq<Cell>, p: nat, j: nat)
    requires p + 1 < |s| && j < |s|
    ensures |Spliced(s, p)| == |s| && SplicedFrom(p, j) < |s| && Spliced(s, p)[j] == s[SplicedFrom(p, j)]
  {
    if p != 0 {
      assert |s[1..p + 1]| == p;
    }
  }

  ghost function Relink(links: Links, n: ListHead, to: ListHead?): Links {
    links[n := to]
  }

  /** The three assignments of the splice, on the links. */
  ghost function SplicedLinks(links: Links, s: seq<Cell>, p: nat): Links
    requires Chained(links, s) && p + 1 < |s|
  {
    var cut := Relink(links, s[p].node, links[s[p + 1].node]);
    Relink(Relink(cut, s[p + 1].node, cut[s[0].node]), s[0].node, s[p + 1].node)
  }

  /** The link after the splice, position by position. */
  lemma SplicedLink(links: Links, s: seq<Cell>, p: nat, j: nat)
    requires Distinct(s) && Chained(links, s) && p + 1 < |s| && j < |s|
    ensures var to := if j == 0 then p + 1 else if j == p + 1 then 1 else if j == p then p + 2 else j + 1;
            SplicedLinks(links, s, p)[s[j].node] == if p == 0 then NodeAt(s, j + 1) else NodeAt(s, to)
  {
    assert links[s[0].node] == s[1].node;
    assert p + 2 < |s| ==> links[s[p + 1].node] == s[p + 2].node;
    assert j + 1 < |s| ==> links[s[j].node] == s[j + 1].node;
  }

  lemma SplicedChain(links: Links, s: seq<Cell>, p: nat)
    requires Distinct(s) && Chained(links, s) && p + 1 < |s| && links.Keys == NodesOf(s)
    ensures Chained(SplicedLinks(links, s, p), Spliced(s, p)) && Distinct(Spliced(s, p))
    ensures Spliced(s, p)[0] == s[0]
  {
    var t, after := Spliced(s, p), SplicedLinks(links, s, p);
    SplicedIndex(s, p, 0);
    forall j | 0 <= j < |t|
      ensures t[j].node in after
    {
      SplicedIndex(s, p, j);
    }
    forall j | 0 <= j < |t| && j == |t| - 1
      ensures after[t[j].node] == null
    {
      SplicedIndex(s, p, j);
      SplicedLink(links, s, p, SplicedFrom(p, j));
    }
    forall j, m | 0 <= j < m < |t| && m == j + 1
      ensures after[t[j].node] == t[m].node
    {
      SplicedIndex(s, p, j);
      SplicedIndex(s, p, m);
      SplicedLink(links, s, p, SplicedFrom(p, j));
    }
    forall j, m | 0 <= j < m < |t|
      ensures t[j].node != t[m].node
    {
      SplicedIndex(s, p, j);
      SplicedIndex(s, p, m);
    }
  }

  /** The pointer updates that cache the node after a found one at the head of the list. */
  method RelinkFound(list: ListHead, found: ListHead, finder: ListHead, ghost s: seq<Cell>)
    requires list in NodesOf(s) && found in NodesOf(s) && finder in NodesOf(s) && found.next == finder
    modifies NodesOf(s)`next
    ensures var links := old(LinksOf(s));
            var cut := Relink(links, found, links[finder]);
            LinksOf(s) == Relink(Relink(cut, finder, cut[list]), list, finder)
  {
    ghost var links := LinksOf(s);
    found.next := finder.next;
    ghost var cut := Relink(links, found, links[finder]);
    assert LinksOf(s) == cut;
    finder.next := list.next;
    ghost var moved := Relink(cut, finder, cut[list]);
    assert LinksOf(s) == moved;
    list.next := finder;
  }

  method Splice(list: ListHead, found: ListHead, ghost s: seq<Cell>, ghost p: nat)
    requires IsList(list, s) && p + 1 < |s| && found == s[p].node
    modifies NodesOf(s)`next
    ensures NodesOf(Spliced(s, p)) == NodesOf(s) && IsList(list, Spliced(s, p))
  {
    ghost var links, t := LinksOf(s), Spliced(s, p);
    SplicedChain(links, s, p);
    SplicedPermutes(s, p);
    SameNodes(t, s);
    InfosTransfer(t, s);
    assert links[found] == s[p + 1].node && s[p + 1] in s && s[p] in s && s[0] in s;
    var finder := found.next;
    RelinkFound(list, found, finder, s);
    assert LinksOf(t) == SplicedLinks(links, s, p);
  }

  /** `s` with the data of node `k + 1` moved into node `k` and node `k + 1` gone. */
  function Removed(s: seq<Cell>, k: nat): seq<Cell>
    requires k + 1 < |s|
  {
    s[..k] + [Cell(s[k].node, s[k + 1].info)] + s[k + 2..]
  }

  lemma RemovedIndex(s: seq<Cell>, k: nat, j: nat)
    requires k + 1 < |s| && j < |s| - 1
    ensures |Removed(s, k)| == |s| - 1
    ensures Removed(s, k)[j] == if j == k then Cell(s[k].node, s[k + 1].info) else s[if j < k then j else j + 1]
  {
  }

  /** The nodes that stay. */
  lemma RemovedNodes(s: seq<Cell>, k: nat)
    requires k + 1 < |s| && Distinct(s)
    ensures NodesOf(Removed(s, k)) == NodesOf(s) - {s[k + 1].node}
    ensures Distinct(Removed(s, k))
  {
    var t := Removed(s, k);
    forall j, m | 0 <= j < m < |t|
      ensures t[j].node != t[m].node && t[j].node in NodesOf(s) - {s[k + 1].node}
    {
      RemovedIndex(s, k, j);
      RemovedIndex(s, k, m);
    }
    RemovedIndex(s, k, |t| - 1);
    forall j | 0 <= j < |s| && j != k + 1
      ensures s[j].node in NodesOf(t)
    {
      RemovedIndex(s, k, if j <= k then j else j - 1);
      assert t[if j <= k then j else j - 1] in t;
    }
    forall n | n in NodesOf(t)
      ensures n in NodesOf(s) - {s[k + 1].node}
    {
      var j :| 0 <= j < |t| && t[j].node == n;
      RemovedIndex(s, k, j);
    }
  }

  lemma RemovedChain(links: Links, s: seq<Cell>, k: nat)
    requires k + 1 < |s| && Distinct(s) && Chained(links, s)
    ensures Chained(Relink(Relink(links, s[k].node, NodeAt(s, k + 2)), s[k + 1].node, null), Removed(s, k))
  {
    var t, after := Removed(s, k), Relink(Relink(links, s[k].node, NodeAt(s, k + 2)), s[k + 1].node, null);
    forall j | 0 <= j < |t|
      ensures t[j].node in after && (j == |t| - 1 ==> after[t[j].node] == null)
    {
      RemovedIndex(s, k, j);
    }
    forall j, m | 0 <= j < m < |t| && m == j + 1
      ensures after[t[j].node] == t[m].node
    {
      RemovedIndex(s, k, j);
      RemovedIndex(s, k, m);
      assert j < k ==> links[s[j].node] == s[m].node;
      assert j > k ==> links[s[j + 1].node] == s[m + 1].node;
    }
  }

  /** `core_list_remove`: the data is removed, the unlinked node is the one after. */
  method Remove(item: ListHead, ghost s: seq<Cell>, ghost k: nat) returns (ret: ListHead)
    requires k + 1 < |s| && IsList(s[0].node, s) && item == s[k].node
    modifies NodesOf(s)
    ensures IsList(s[0].node, Removed(s, k))
    ensures ret == s[k + 1].node && ret.info == s[k].info && ret.next == null
  {
    ghost var links, t := LinksOf(s), Removed(s, k);
    RemovedChain(links, s, k);
    RemovedNodes(s, k);
    RemovedIndex(s, k, 0);
    assert links[s[k].node] == s[k + 1].node;
    assert k + 2 < |s| ==> links[s[k + 1].node] == s[k + 2].node;
    ret := item.next;
    var tmp := item.info;
    item.info := ret.info;
    ret.info := tmp;
    item.next := item.next.next;
    ret.next := null;
    assert LinksOf(s) == Relink(Relink(links, s[k].node, NodeAt(s, k + 2)), s[k + 1].node, null);
    forall j | 0 <= j < |t|
      ensures t[j].node in NodesOf(t) && t[j].node.info == t[j].info
    {
      RemovedIndex(s, k, j);
      assert t[j] in t;
    }
  }

  lemma RestoredChain(links: Links, s: seq<Cell>, k: nat)
    requires k + 1 < |s| && Distinct(s) && Chained(links, Removed(s, k))
    ensures s[k].node in links
    ensures Chained(Relink(Relink(links, s[k + 1].node, links[s[k].node]), s[k].node, s[k + 1].node), s)
  {
    var t := Removed(s, k);
    RemovedIndex(s, k, k);
    assert t[k].node in links;
    var after := Relink(Relink(links, s[k + 1].node, links[s[k].node]), s[k].node, s[k + 1].node);
    forall j | 0 <= j < |s|
      ensures s[j].node in after && (j == |s| - 1 ==> after[s[j].node] == null)
    {
      RemovedIndex(s, k, if j <= k then j else j - 1);
    }
    forall j, m | 0 <= j < m < |s| && m == j + 1
      ensures after[s[j].node] == s[m].node
    {
      RemovedIndex(s, k, if j <= k then j else j - 1);
      if j < k {
        RemovedIndex(s, k, m);
        assert links[t[j].node] == t[m].node;
      } else if j > k {
        RemovedIndex(s, k, j);
        assert links[t[j - 1].node] == t[j].node;
      }
    }
  }

  /** `core_list_undo_remove` right after `core_list_remove` restores every link and data pointer. */
  method UndoRemove(removed: ListHead, modified: ListHead, ghost s: seq<Cell>, ghost k: nat)
    requires k + 1 < |s| && Distinct(s) && IsList(s[0].node, Removed(s, k))
    requires removed == s[k + 1].node && removed.info == s[k].info && modified == s[k].node
    modifies NodesOf(s)
    ensures IsList(s[0].node, s)
  {
    hide Removed;
    ghost var t := Removed(s, k);
    ghost var links := LinksOf(t);
    RestoredChain(links, s, k);
    RemovedNodes(s, k);
    RemovedIndex(s, k, k);
    assert t[k].node.info == t[k].info;
    forall j | 0 <= j < |s| && j != k && j != k + 1
      ensures s[j].node.info == s[j].info
    {
      RemovedIndex(s, k, if j < k then j else j - 1);
    }
    var tmp := removed.info;
    removed.info := modified.info;
    modified.info := tmp;
    removed.next := modified.next;
    modified.next := removed;
    assert LinksOf(s) == Relink(Relink(links, removed, links[modified]), modified, removed);
    forall j | 0 <= j < |s|
      ensures s[j].node in NodesOf(s) && s[j].node.info == s[j].info
    {
      assert s[j] in s;
    }
  }
}
