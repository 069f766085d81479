/**
 What the search for recursive dependencies is for: if it finds none, the symbols can be ranked so that every value is
 calculated from values of lower rank.
 */
module DependencyRank {
  import opened Options
  import opened TristateExpr
  import D = DependencyCheck
  import V = SymbolValues

  /** The walk's expression `d`, in which symbols are numbers, is the expression `e`. */
  predicate Denotes(d: D.DepExpr, e: Expr, symbols: seq<Symbol>) {
    match d
    case Leaf(i) => e.Symb? && i < |symbols| && symbols[i] == e.sym
    case Not(a) => e.Not? && Denotes(a, e.arg, symbols)
    case Junction(l, r) => e.IsJunction() && Denotes(l, e.left, symbols) && Denotes(r, e.right, symbols)
    case Relation(i, j) =>
      e.Compare? && i < |symbols| && symbols[i] == e.lhs && j < |symbols| && symbols[j] == e.rhs
  }

  predicate DenotesPtr(d: Option<D.DepExpr>, p: ExprPtr, symbols: seq<Symbol>) {
    match d
    case None => p.Null?
    case Some(x) => p.Ptr? && Denotes(x, p.expr, symbols)
  }

  /** Texts belong to prompts, comments and menus. */
  predicate DenotesProp(d: D.Property, p: V.Property, symbols: seq<Symbol>) {
    && (p.kind == V.Default <==> d.kind == D.DEFAULT)
    && (p.hasText ==> d.kind in {D.PROMPT, D.COMMENT, D.MENU})
    && DenotesPtr(d.visible, p.visible, symbols)
    && (p.kind == V.Default ==> DenotesPtr(d.expr, p.expr, symbols))
  }

  predicate DenotesInfo(d: D.Info, i: V.Info, symbols: seq<Symbol>) {
    && DenotesPtr(d.dirDep, i.dirDep, symbols) && DenotesPtr(d.revDep, i.revDep, symbols)
    && DenotesPtr(d.implied, i.implied, symbols)
    && |d.props| == |i.props| && forall k :: 0 <= k < |d.props| ==> DenotesProp(d.props[k], i.props[k], symbols)
  }

  /** The table holds the definitions of all symbols that have any. */
  ghost predicate Holds(t: D.Table, c: V.Config, symbols: seq<Symbol>) {
    && |t| == |symbols|
    && (forall i, j :: 0 <= i < j < |symbols| ==> symbols[i] != symbols[j])
    && (forall i :: 0 <= i < |symbols| && symbols[i].Sym? ==> DenotesInfo(t[i], c.info(symbols[i]), symbols))
    && (forall s: Symbol, x: Symbol :: s.Sym? && s !in symbols ==> !V.Needs(c.info(s), x))
  }

  lemma {:induction false} LeafOccurs(d: D.DepExpr, e: Expr, symbols: seq<Symbol>, x: Symbol) returns (j: nat)
    requires Denotes(d, e, symbols) && x in V.Leaves(e)
    ensures j < |symbols| && symbols[j] == x && D.Occurs(j, d)
  {
    match d
    case Leaf(i) => j := i;
    case Not(a) => j := LeafOccurs(a, e.arg, symbols, x);
    case Junction(l, r) =>
      if x in V.Leaves(e.left) {
        j := LeafOccurs(l, e.left, symbols, x);
      } else {
        j := LeafOccurs(r, e.right, symbols, x);
      }
    case Relation(i, k) => j := if x == e.lhs then i else k;
  }

  /** A symbol that is needed is at the end of an edge. */
  lemma NeedIsEdge(t: D.Table, c: V.Config, symbols: seq<Symbol>, i: nat, x: Symbol) returns (j: nat)
    requires Holds(t, c, symbols) && i < |t| && symbols[i].Sym? && V.Needs(c.info(symbols[i]), x)
    ensures j < |t| && symbols[j] == x && D.Edge(t, i, j)
  {
    var d, n := t[i], c.info(symbols[i]);
    var e: D.DepExpr;
    if x in V.LeavesOf(n.dirDep) {
      e := d.dirDep.value;
      j := LeafOccurs(e, n.dirDep.expr, symbols, x);
    } else if x in V.LeavesOf(n.revDep) {
      e := d.revDep.value;
      j := LeafOccurs(e, n.revDep.expr, symbols, x);
    } else if x in V.LeavesOf(n.implied) {
      e := d.implied.value;
      j := LeafOccurs(e, n.implied.expr, symbols, x);
    } else {
      var k :| 0 <= k < |n.props| && x in V.PropLeaves(n.props[k]);
      var p, q := n.props[k], d.props[k];
      assert DenotesProp(q, p, symbols);
      if (p.hasText || p.kind == V.Default) && x in V.LeavesOf(p.visible) {
        e := q.visible.value;
        j := LeafOccurs(e, p.visible.expr, symbols, x);
      } else {
        e := q.expr.value;
        j := LeafOccurs(e, p.expr.expr, symbols, x);
      }
      assert q in d.props && D.PropExpression(q, e);
    }
    assert D.Expression(d, e);
    D.EdgeExact(t, i, j);
  }

  // ----- from the order in which checks end to ranks -----

  /** The place of `s` in `symbols`, or its length. */
  function Number(s: Symbol, symbols: seq<Symbol>): (i: nat)
    ensures i <= |symbols| && (i < |symbols| ==> symbols[i] == s) && (i < |symbols| <==> s in symbols)
  {
    if symbols == [] || symbols[0] == s then 0 else 1 + Number(s, symbols[1..])
  }

  /** The first place of `i` in `done`, or its length. */
  function Place(i: nat, done: seq<nat>): (k: nat)
    ensures k <= |done| && (k < |done| ==> done[k] == i) && i !in done[..k] && (k < |done| <==> i in done)
  {
    if done == [] || done[0] == i then 0
    else
      var k := Place(i, done[1..]);
      assert done[..k + 1] == [done[0]] + done[1..][..k];
      1 + k
  }

  function RankBy(symbols: seq<Symbol>, done: seq<nat>): Symbol -> nat {
    (s: Symbol) => Place(Number(s, symbols), done)
  }

  /** Ranked by when their checks ended, needed symbols come first. */
  lemma OrderedIsAcyclic(t: D.Table, c: V.Config, symbols: seq<Symbol>, done: seq<nat>)
    requires Holds(t, c, symbols) && D.Ordered(t, done) && forall i: nat :: i < |t| ==> i in done
    ensures V.Acyclic(c, RankBy(symbols, done))
  {
    var rank := RankBy(symbols, done);
    forall s: Symbol, x: Symbol | s.Sym? && V.Needs(c.info(s), x)
      ensures rank(x) < rank(s)
    {
      assert s in symbols;
      var i := Number(s, symbols);
      var j := NeedIsEdge(t, c, symbols, i, x);
      assert Number(x, symbols) == j;
      var k := Place(i, done);
      assert done[k] == i && j in done[..k];
      EarlierPlace(j, done, k);
    }
  }

  lemma EarlierPlace(j: nat, done: seq<nat>, k: nat)
    requires k <= |done| && j in done[..k]
    ensures Place(j, done) < k
  {
    var i :| 0 <= i < k && done[i] == j;
    FirstPlace(j, done, i);
  }

  lemma {:induction false} FirstPlace(j: nat, done: seq<nat>, i: nat)
    requires i < |done| && done[i] == j
    ensures Place(j, done) <= i
    decreases i
  {
    if done[0] != j {
      FirstPlace(j, done[1..], i - 1);
    }
  }

  /** The check of a configuration: if nothing is found, the symbols' values are well defined. */
  method CheckConfiguration(t: D.Table, ghost c: V.Config, ghost symbols: seq<Symbol>)
    returns (bad: bool, ghost rank: Symbol -> nat)
    requires D.Closed(t) && Holds(t, c, symbols)
    ensures bad <==> D.HasCycle(t)
    ensures !bad ==> V.Acyclic(c, rank)
  {
    var checker := new D.Checker(t);
    bad := checker.CheckAll();
    rank := RankBy(symbols, checker.done);
    if !bad {
      OrderedIsAcyclic(t, c, symbols, checker.done);
    }
  }
}
