/** The search for recursive dependencies: a depth-first walk on two flags per symbol. */
module DependencyCheck {
  import opened Options

  /** A dependency expression, as far as the walk looks at it; symbols are numbers. */
  datatype DepExpr = Leaf(s: nat) | Not(e: DepExpr) | Junction(l: DepExpr, r: DepExpr) | Relation(a: nat, b: nat)

  datatype PropType = PROMPT | COMMENT | MENU | DEFAULT | CHOICE | SELECT | IMPLY | RANGE | SYMBOL

  datatype Property = Property(kind: PropType, visible: Option<DepExpr>, expr: Option<DepExpr>)

  datatype Info = Info(dirDep: Option<DepExpr>, revDep: Option<DepExpr>, implied: Option<DepExpr>, props: seq<Property>)

  type Table = seq<Info>

  // ----- the dependency graph -----

  function ExprDeps(e: DepExpr): set<nat> {
    match e
    case Leaf(s) => {s}
    case Not(e) => ExprDeps(e)
    case Junction(l, r) => ExprDeps(l) + ExprDeps(r)
    case Relation(a, b) => {a, b}
  }

  function OptDeps(e: Option<DepExpr>): set<nat> {
    if e.None? then {} else ExprDeps(e.value)
  }

  /** Properties whose condition is no dependency of the symbol itself. */
  predicate Skipped(p: Property) { p.kind in {CHOICE, SELECT, IMPLY} }

  function PropDeps(p: Property): set<nat> {
    if Skipped(p) then {}
    else OptDeps(p.visible) + (if p.kind == DEFAULT then OptDeps(p.expr) else {})
  }

  function PropsDeps(ps: seq<Property>): set<nat> {
    if ps == [] then {} else PropsDeps(ps[..|ps| - 1]) + PropDeps(ps[|ps| - 1])
  }

  function Deps(i: Info): set<nat> {
    OptDeps(i.dirDep) + OptDeps(i.revDep) + OptDeps(i.implied) + PropsDeps(i.props)
  }

  // ----- the same graph, by where a symbol is mentioned -----

  predicate Occurs(s: nat, e: DepExpr) {
    match e
    case Leaf(a) => s == a
    case Not(a) => Occurs(s, a)
    case Junction(l, r) => Occurs(s, l) || Occurs(s, r)
    case Relation(a, b) => s == a || s == b
  }

  /** `e` is an expression that the symbol's value depends on. */
  ghost predicate Expression(i: Info, e: DepExpr) {
    || i.dirDep == Some(e) || i.revDep == Some(e) || i.implied == Some(e)
    || exists p :: p in i.props && PropExpression(p, e)
  }

  /** The condition of a property, unless it selects, implies or makes a choice, and the value of a default. */
  predicate PropExpression(p: Property, e: DepExpr) {
    || (p.visible == Some(e) && p.kind != CHOICE && p.kind != SELECT && p.kind != IMPLY)
    || (p.expr == Some(e) && p.kind == DEFAULT)
  }

  /** There is an edge exactly to the symbols that occur in such an expression. */
  lemma EdgeExact(t: Table, a: nat, b: nat)
    requires a < |t|
    ensures Edge(t, a, b) <==> exists e :: Expression(t[a], e) && Occurs(b, e)
  {
    var i := t[a];
    if Edge(t, a, b) {
      if b in OptDeps(i.dirDep) {
        OccursExact(b, i.dirDep.value);
      } else if b in OptDeps(i.revDep) {
        OccursExact(b, i.revDep.value);
      } else if b in OptDeps(i.implied) {
        OccursExact(b, i.implied.value);
      } else {
        var p := PropsDepsExact(i.props, b);
        var e := if b in OptDeps(p.visible) then p.visible.value else p.expr.value;
        OccursExact(b, e);
        assert PropExpression(p, e);
      }
    }
    if e :| Expression(i, e) && Occurs(b, e) {
      OccursExact(b, e);
      if p :| p in i.props && PropExpression(p, e) {
        PropsDepsHolds(i.props, p);
      }
    }
  }

  lemma {:induction false} OccursExact(s: nat, e: DepExpr)
    ensures Occurs(s, e) <==> s in ExprDeps(e)
  {
    match e
    case Not(a) => OccursExact(s, a);
    case Junction(l, r) =>
      OccursExact(s, l);
      OccursExact(s, r);
    case _ =>
  }

  lemma {:induction false} PropsDepsExact(ps: seq<Property>, b: nat) returns (p: Property)
    requires b in PropsDeps(ps)
    ensures p in ps && b in PropDeps(p)
    decreases |ps|
  {
    p := ps[|ps| - 1];
    if b !in PropDeps(p) {
      p := PropsDepsExact(ps[..|ps| - 1], b);
    }
  }

  lemma {:induction false} PropsDepsHolds(ps: seq<Property>, p: Property)
    requires p in ps
    ensures PropDeps(p) <= PropsDeps(ps)
    decreases |ps|
  {
    if p != ps[|ps| - 1] {
      PropsDepsHolds(ps[..|ps| - 1], p);
    }
  }

  ghost predicate Closed(t: Table) {
    forall s, d :: 0 <= s < |t| && d in Deps(t[s]) ==> d < |t|
  }

  predicate Edge(t: Table, a: nat, b: nat) {
    a < |t| && b in Deps(t[a])
  }

  ghost predicate IsPath(t: Table, p: seq<nat>) {
    forall i, j :: 0 <= i && j == i + 1 && j < |p| ==> Edge(t, p[i], p[j])
  }

  ghost predicate IsCycle(t: Table, p: seq<nat>) {
    |p| >= 2 && p[0] == p[|p| - 1] && IsPath(t, p)
  }

  ghost predicate HasCycle(t: Table) {
    exists p :: IsCycle(t, p)
  }

  /** The symbol depends on itself. */
  ghost predicate OnCycle(t: Table, s: nat) {
    exists p :: IsCycle(t, p) && p[0] == s
  }

  /** All targets are dependencies of the innermost symbol being checked. */
  ghost predicate FromTop(t: Table, checking: seq<nat>, targets: set<nat>) {
    forall s :: s in targets ==> s < |t| && (checking != [] ==> Edge(t, checking[|checking| - 1], s))
  }

  // ----- an order in which every symbol comes after its dependencies -----

  ghost predicate Ordered(t: Table, done: seq<nat>) {
    forall i, d :: 0 <= i < |done| && done[i] < |t| && d in Deps(t[done[i]]) ==> d in done[..i]
  }

  lemma {:induction false} PathDescends(t: Table, done: seq<nat>, p: seq<nat>, i: nat)
    requires Ordered(t, done) && IsPath(t, p) && |p| >= 2 && i < |done| && p[0] == done[i] && p[0] < |t|
    ensures p[|p| - 1] in done[..i]
    decreases |p|
  {
    assert Edge(t, p[0], p[1]);
    var k :| 0 <= k < i && done[k] == p[1];
    if |p| > 2 {
      assert IsPath(t, p[1..]) by {
        forall a, b | 0 <= a && b == a + 1 && b < |p[1..]| ensures Edge(t, p[1..][a], p[1..][b]) {
          assert Edge(t, p[a + 1], p[b + 1]);
        }
      }
      assert Edge(t, p[1], p[2]);
      PathDescends(t, done, p[1..], k);
    }
  }

  lemma OrderedSnoc(t: Table, done: seq<nat>, s: nat)
    requires Ordered(t, done) && s < |t| && forall d :: d in Deps(t[s]) ==> d in done
    ensures Ordered(t, done + [s])
  {
    var longer := done + [s];
    forall i, d | 0 <= i < |longer| && longer[i] < |t| && d in Deps(t[longer[i]]) ensures d in longer[..i] {
      if i < |done| {
        assert longer[i] == done[i] && longer[..i] == done[..i];
      } else {
        assert longer[..i] == done;
      }
    }
  }

  /** The first occurrence of a symbol in the order. */
  lemma {:induction false} FirstOccurrence(done: seq<nat>, s: nat) returns (i: nat)
    requires s in done
    ensures i < |done| && done[i] == s && s !in done[..i]
  {
    if s in done[..|done| - 1] {
      i := FirstOccurrence(done[..|done| - 1], s);
      assert done[..|done| - 1][..i] == done[..i];
    } else {
      i := |done| - 1;
    }
  }

  /** If all symbols are in such an order, nothing depends on itself. */
  lemma OrderedMeansAcyclic(t: Table, done: seq<nat>)
    requires Ordered(t, done) && forall s: nat :: s < |t| ==> s in done
    ensures !HasCycle(t)
  {
    forall p | IsCycle(t, p) ensures false {
      assert Edge(t, p[0], p[1]);
      var i := FirstOccurrence(done, p[0]);
      PathDescends(t, done, p, i);
    }
  }

  /** A path that comes back to one of its symbols closes a cycle. */
  lemma PathCloses(t: Table, p: seq<nat>, k: nat, s: nat)
    requires IsPath(t, p) && k < |p| && p[k] == s && Edge(t, p[|p| - 1], s)
    ensures HasCycle(t) && OnCycle(t, s)
  {
    var c := p[k..] + [s];
    forall i, j | 0 <= i && j == i + 1 && j < |c| ensures Edge(t, c[i], c[j]) {
      if j < |p[k..]| {
        assert Edge(t, p[k + i], p[k + j]);
      }
    }
    assert IsCycle(t, c) && c[0] == s;
  }

  class Checker {
    const table: Table
    /** `SYMBOL_CHECK` and `SYMBOL_CHECKED`. */
    const check: array<bool>
    const checked: array<bool>
    /** The symbols being checked, innermost last. */
    var stack: seq<nat>
    /** Symbols whose check has finished, while no cycle has been found. */
    ghost var done: seq<nat>
    ghost var found: bool

    constructor (t: Table)
      requires Closed(t)
      ensures table == t && fresh(check) && fresh(checked) && Inv() && stack == [] && done == [] && !found
      ensures forall s: nat :: s < |table| ==> !check[s] && !checked[s]
    {
      table := t;
      check := new bool[|t|](_ => false);
      checked := new bool[|t|](_ => false);
      stack, done, found := [], [], false;
    }

    /** The flags against the symbols being checked. */
    ghost predicate Flags(checking: seq<nat>)
      reads check, checked
    {
      && check.Length == |table| && checked.Length == |table| && check != checked
      && (forall s: nat :: s < |table| ==> (check[s] <==> s in checking) && (check[s] ==> checked[s]))
      && (forall i :: 0 <= i < |checking| ==> checking[i] < |table|)
    }

    ghost predicate InvWith(checking: seq<nat>)
      reads this, check, checked
    {
      && Closed(table) && Flags(checking) && IsPath(table, checking)
      && (found ==> HasCycle(table))
      && (!found ==> Ordered(table, done) && forall s: nat :: s < |table| ==> (checked[s] && !check[s] <==> s in done))
    }

    ghost predicate Inv()
      reads this, check, checked
    {
      InvWith(stack)
    }

    ghost function White(): set<nat>
      reads this, checked
    {
      set s: nat | s < |table| && s < checked.Length && !checked[s]
    }

    /** What every step of the walk keeps, and what its answer says. */
    twostate predicate Walked(new r: Option<nat>, targets: set<nat>)
      reads this, check, checked
    {
      && check.Length == |table| && checked.Length == |table|
      && stack == old(stack) && White() <= old(White())
      && (old(found) ==> found)
      && (r.Some? ==> found && OnCycle(table, r.value))
      && (r.None? && !old(found) ==> !found)
      && (!found ==> forall s :: s in targets ==> s in done)
      && (!found ==> forall s :: s in old(done) ==> s in done)
      && forall s: nat :: s < |table| ==> check[s] == old(check[s])
    }

    /** `sym_check_deps` */
    method CheckDeps(s: nat) returns (r: Option<nat>)
      requires Inv() && FromTop(table, stack, {s})
      modifies this`stack, this`done, this`found, check, checked
      ensures Inv() && Walked(r, {s}) && s !in White()
      decreases White(), 0
    {
      assert s in {s};
      if check[s] {
        if stack != [] {
          var k :| 0 <= k < |stack| && stack[k] == s;
          PathCloses(table, stack, k, s);
        }
        found := true;
        return Some(s);
      }
      if checked[s] {
        return None;
      }
      check[s], checked[s] := true, true;
      assert s in old(White()) && s !in White() && White() <= old(White());
      r := CheckSymDeps(s);
      check[s] := false;
      if !found {
        OrderedSnoc(table, done, s);
        done := done + [s];
      }
    }

    /** `sym_check_expr_deps` */
    method CheckExprDeps(e: DepExpr) returns (r: Option<nat>)
      requires Inv() && FromTop(table, stack, ExprDeps(e))
      modifies this`stack, this`done, this`found, check, checked
      ensures Inv() && Walked(r, ExprDeps(e))
      decreases White(), 1, e
    {
      match e
      case Junction(a, b) =>
        r := CheckExprDeps(a);
        if r.Some? { return; }
        r := CheckExprDeps(b);
      case Not(a) =>
        r := CheckExprDeps(a);
      case Relation(a, b) =>
        r := CheckDeps(a);
        if r.Some? { return; }
        r := CheckDeps(b);
      case Leaf(s) =>
        r := CheckDeps(s);
    }

    method CheckOptDeps(e: Option<DepExpr>) returns (r: Option<nat>)
      requires Inv() && FromTop(table, stack, OptDeps(e))
      modifies this`stack, this`done, this`found, check, checked
      ensures Inv() && Walked(r, OptDeps(e))
      decreases White(), 2
    {
      if e.Some? {
        r := CheckExprDeps(e.value);
      } else {
        r := None;
      }
    }

    method CheckPropDeps(p: Property) returns (r: Option<nat>)
      requires Inv() && FromTop(table, stack, PropDeps(p))
      modifies this`stack, this`done, this`found, check, checked
      ensures Inv() && Walked(r, PropDeps(p))
      decreases White(), 3
    {
      r := None;
      if p.kind == CHOICE || p.kind == SELECT || p.kind == IMPLY { return; }
      r := CheckOptDeps(p.visible);
      if r.Some? { return; }
      if p.kind != DEFAULT { return; }
      r := CheckOptDeps(p.expr);
    }

    /** The loop over the properties. */
    method CheckPropsDeps(ps: seq<Property>) returns (r: Option<nat>)
      requires Inv() && FromTop(table, stack, PropsDeps(ps))
      modifies this`stack, this`done, this`found, check, checked
      ensures Inv() && Walked(r, PropsDeps(ps))
      decreases White(), 4
    {
      r := None;
      for i := 0 to |ps|
        invariant r.None? && Inv() && Walked(r, PropsDeps(ps[..i]))
      {
        assert ps[..i + 1][..i] == ps[..i];
        PropsDepsPart(ps, i + 1);
        r := CheckPropDeps(ps[i]);
        if r.Some? { return; }
      }
      assert ps[..|ps|] == ps;
    }

    /** `sym_check_sym_deps`, for a symbol whose flags have just been set. */
    method CheckSymDeps(s: nat) returns (r: Option<nat>)
      requires s < |table| && InvWith(stack + [s])
      modifies this`stack, this`done, this`found, check, checked
      ensures InvWith(stack + [s]) && Walked(r, Deps(table[s]))
      decreases White(), 5
    {
      stack := stack + [s];
      r := CheckAllDeps(table[s]);
      stack := stack[..|stack| - 1];
    }

    method CheckAllDeps(info: Info) returns (r: Option<nat>)
      requires Inv() && FromTop(table, stack, Deps(info))
      modifies this`stack, this`done, this`found, check, checked
      ensures Inv() && Walked(r, Deps(info))
      decreases White(), 5, 0
    {
      r := CheckOptDeps(info.dirDep);
      if r.Some? { return; }
      r := CheckOptDeps(info.revDep);
      if r.Some? { return; }
      r := CheckOptDeps(info.implied);
      if r.Some? { return; }
      r := CheckPropsDeps(info.props);
    }

    /** The parser's loop over all symbols. */
    method CheckAll() returns (bad: bool)
      requires Closed(table) && check.Length == |table| && checked.Length == |table| && check != checked
      requires forall s: nat :: s < |table| ==> !check[s] && !checked[s]
      requires stack == [] && done == [] && !found
      modifies this`stack, this`done, this`found, check, checked
      ensures bad <==> HasCycle(table)
      ensures !bad ==> Ordered(table, done) && forall s: nat :: s < |table| ==> s in done
      ensures forall s: nat :: s < |table| ==> !check[s] && checked[s]
      ensures stack == []
    {
      bad := false;
      for s := 0 to |table|
        invariant Inv() && stack == [] && found == bad
        invariant forall i: nat :: i < s ==> i !in White()
      {
        var r := CheckDeps(s);
        if r.Some? {
          bad := true;
        }
      }
      forall s: nat | s < |table| ensures checked[s] && !check[s] {
        assert s !in White();
      }
      if !bad {
        OrderedMeansAcyclic(table, done);
      }
    }
  }

  lemma {:induction false} PropsDepsPart(ps: seq<Property>, i: nat)
    requires i <= |ps|
    ensures PropsDeps(ps[..i]) <= PropsDeps(ps)
    decreases |ps|
  {
    if i < |ps| {
      PropsDepsPart(ps[..|ps| - 1], i);
      assert ps[..|ps| - 1][..i] == ps[..i];
    } else {
      assert ps[..i] == ps;
    }
  }
}
