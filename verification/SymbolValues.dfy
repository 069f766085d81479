/** Symbol values: the plain recursive definition. */
module SymbolValues {
  import opened Options
  import opened TristateExpr

  datatype PropKind = Default | Other

  /** A property: `hasText` makes it a prompt; `visible` is its condition. */
  datatype Property = Property(kind: PropKind, hasText: bool, visible: ExprPtr, expr: ExprPtr)

  datatype Info = Info(dirDep: ExprPtr, revDep: ExprPtr, implied: ExprPtr, props: seq<Property>, noWrite: bool)

  /**
   * Everything a calculation reads and does not change: the symbols' definitions and user values, the value of the
   * modules symbol, and the order of two symbols' strings given their tristates.
   */
  datatype Config = Config(info: Symbol -> Info, user: Symbol -> Option<Tristate>, modules: Tristate,
                           compare: (Symbol, Tristate, Symbol, Tristate) -> int)

  // ----- dependencies -----

  function Leaves(e: Expr): set<Symbol> {
    match e
    case Symb(s) => {s}
    case Not(a) => Leaves(a)
    case And(l, r) => Leaves(l) + Leaves(r)
    case Or(l, r) => Leaves(l) + Leaves(r)
    case Compare(_, a, b) => {a, b}
  }

  function LeavesOf(p: ExprPtr): set<Symbol> {
    if p.Null? then {} else Leaves(p.expr)
  }

  function PropLeaves(p: Property): set<Symbol> {
    (if p.hasText || p.kind == Default then LeavesOf(p.visible) else {})
    + (if p.kind == Default then LeavesOf(p.expr) else {})
  }

  /** The symbols whose values a symbol's value is calculated from. */
  ghost predicate Needs(i: Info, x: Symbol) {
    || x in LeavesOf(i.dirDep) || x in LeavesOf(i.revDep) || x in LeavesOf(i.implied)
    || exists k :: 0 <= k < |i.props| && x in PropLeaves(i.props[k])
  }

  /** No symbol needs itself, however indirectly: needed symbols have smaller ranks. */
  ghost predicate Acyclic(c: Config, rank: Symbol -> nat) {
    forall s: Symbol, x: Symbol :: s.Sym? && Needs(c.info(s), x) ==> rank(x) < rank(s)
  }

  // ----- values -----

  /** `sym_get_type` */
  function TypeOf(c: Config, s: Symbol): SymbolType {
    if s.Type() == TristateType && c.modules == NO then Boolean else s.Type()
  }

  predicate HasTristateValue(s: Symbol) { s.Type() == Boolean || s.Type() == TristateType }

  /** A bool has no m. */
  function Round(t: Tristate, boolean: bool): Tristate {
    if t == MOD && boolean then YES else t
  }

  /** What a calculation leaves in a symbol. */
  datatype Outcome = Outcome(visible: Tristate, dirDep: Tristate, revDep: Tristate, implied: Tristate, tri: Tristate,
                             write: bool)

  const NOTHING := Outcome(NO, NO, NO, NO, NO, false)

  ghost predicate Below(rank: Symbol -> nat, n: nat, xs: set<Symbol>) {
    forall x :: x in xs ==> rank(x) < n
  }

  ghost function ExprVal(c: Config, rank: Symbol -> nat, e: Expr, n: nat): Tristate
    requires Acyclic(c, rank) && Below(rank, n, Leaves(e))
    decreases 2 * n, 0, e
  {
    match e
    case Symb(s) => SymVal(c, rank, s)
    case Not(a) => 2 - ExprVal(c, rank, a, n)
    case And(l, r) => Min(ExprVal(c, rank, l, n), ExprVal(c, rank, r, n))
    case Or(l, r) => Max(ExprVal(c, rank, l, n), ExprVal(c, rank, r, n))
    case Compare(rel, a, b) => OfBool(Holds(rel, c.compare(a, SymVal(c, rank, a), b, SymVal(c, rank, b))))
  }

  ghost function PtrVal(c: Config, rank: Symbol -> nat, p: ExprPtr, n: nat, missing: Tristate): Tristate
    requires Acyclic(c, rank) && Below(rank, n, LeavesOf(p))
    decreases 2 * n, 1
  {
    if p.Null? then missing else ExprVal(c, rank, p.expr, n)
  }

  ghost predicate PropsBelow(rank: Symbol -> nat, n: nat, ps: seq<Property>) {
    forall k :: 0 <= k < |ps| ==> Below(rank, n, PropLeaves(ps[k]))
  }

  /** The loosest prompt condition. */
  ghost function PromptVal(c: Config, rank: Symbol -> nat, ps: seq<Property>, n: nat): Tristate
    requires Acyclic(c, rank) && PropsBelow(rank, n, ps)
    decreases 2 * n, 2, |ps|
  {
    if ps == [] then NO
    else
      var last := ps[|ps| - 1];
      var before := PromptVal(c, rank, ps[..|ps| - 1], n);
      if last.hasText then Max(before, PtrVal(c, rank, last.visible, n, YES)) else before
  }

  /** The first default whose condition is not n, joined with its condition. */
  ghost function DefaultVal(c: Config, rank: Symbol -> nat, ps: seq<Property>, n: nat): Tristate
    requires Acyclic(c, rank) && PropsBelow(rank, n, ps)
    decreases 2 * n, 2, |ps|
  {
    if ps == [] then NO
    else if ps[0].kind == Default && PtrVal(c, rank, ps[0].visible, n, YES) != NO then
      Min(PtrVal(c, rank, ps[0].expr, n, YES), PtrVal(c, rank, ps[0].visible, n, YES))
    else
      DefaultVal(c, rank, ps[1..], n)
  }

  /** The symbol that a default names, for symbols whose value is a string. */
  ghost function DefaultSymbol(c: Config, rank: Symbol -> nat, ps: seq<Property>, n: nat): Option<Symbol>
    requires Acyclic(c, rank) && PropsBelow(rank, n, ps)
    decreases 2 * n, 2, |ps|
  {
    if ps == [] then None
    else if ps[0].kind == Default && PtrVal(c, rank, ps[0].visible, n, YES) != NO then
      if ps[0].expr.Ptr? && ps[0].expr.expr.Symb? then Some(ps[0].expr.expr.sym) else None
    else
      DefaultSymbol(c, rank, ps[1..], n)
  }

  ghost predicate InfoBelow(rank: Symbol -> nat, n: nat, i: Info) {
    && Below(rank, n, LeavesOf(i.dirDep)) && Below(rank, n, LeavesOf(i.revDep)) && Below(rank, n, LeavesOf(i.implied))
    && PropsBelow(rank, n, i.props)
  }

  /** The value of a symbol that has a type, from the values of lower symbols. */
  ghost function Calculated(c: Config, rank: Symbol -> nat, s: Symbol, n: nat): Outcome
    requires Acyclic(c, rank) && InfoBelow(rank, n, c.info(s))
    decreases 2 * n, 3
  {
    var i := c.info(s);
    var boolean := TypeOf(c, s) == Boolean;
    var visible := Round(PromptVal(c, rank, i.props, n), TypeOf(c, s) != TristateType);
    var dirDep := Round(PtrVal(c, rank, i.dirDep, n, YES), boolean);
    var revDep := Round(PtrVal(c, rank, i.revDep, n, NO), boolean);
    var implied := Round(PtrVal(c, rank, i.implied, n, NO), boolean);
    if !HasTristateValue(s) then
      var byDefault := !(visible != NO && c.user(s).Some?) && DefaultSymbol(c, rank, i.props, n).Some?;
      Outcome(visible, dirDep, revDep, implied, NO, (visible != NO || byDefault) && !i.noWrite)
    else
      var user := if visible != NO then c.user(s) else None;
      var default := if user.Some? then NO else DefaultVal(c, rank, i.props, n);
      var w := Weighed(user, visible, dirDep, revDep, implied, default);
      Outcome(visible, dirDep, revDep, implied, Round(w.0, boolean), w.1 && !i.noWrite)
  }

  /** The value before rounding and the write flag of a bool or tristate. */
  function Weighed(user: Option<Tristate>, visible: Tristate, dirDep: Tristate, revDep: Tristate, implied: Tristate,
                   default: Tristate): (Tristate, bool)
  {
    if user.Some? then (Max(Min(user.value, visible), revDep), true)
    else
      var weak := if implied != NO then Min(Max(default, implied), dirDep) else default;
      (Max(weak, revDep), visible != NO || revDep != NO || default != NO || implied != NO)
  }

  lemma InfoIsBelow(c: Config, rank: Symbol -> nat, s: Symbol)
    requires Acyclic(c, rank) && s.Sym?
    ensures InfoBelow(rank, rank(s), c.info(s))
  {
    var i := c.info(s);
    forall x | x in LeavesOf(i.dirDep) || x in LeavesOf(i.revDep) || x in LeavesOf(i.implied)
      ensures rank(x) < rank(s)
    {
      assert Needs(i, x);
    }
    forall k, x | 0 <= k < |i.props| && x in PropLeaves(i.props[k]) ensures rank(x) < rank(s) {
      assert Needs(i, x);
    }
  }

  ghost function SymOutcome(c: Config, rank: Symbol -> nat, s: Symbol): Outcome
    requires Acyclic(c, rank)
    decreases 2 * rank(s) + 1, 0
  {
    match s
    case SymYes => NOTHING.(tri := YES)
    case SymMod => NOTHING.(tri := MOD)
    case SymNo => NOTHING
    case Sym(_, _, _) =>
      if s.Type() == Unknown then NOTHING
      else
        InfoIsBelow(c, rank, s);
        Calculated(c, rank, s, rank(s))
  }

  ghost function SymVal(c: Config, rank: Symbol -> nat, s: Symbol): Tristate
    requires Acyclic(c, rank)
    decreases 2 * rank(s) + 1, 1
  {
    SymOutcome(c, rank, s).tri
  }

  // ----- the definition does not depend on the ranks, nor on user values higher up -----

  /** The configurations differ at most in user values of symbols of rank `n` and more. */
  ghost predicate AgreeBelow(c: Config, d: Config, rank: Symbol -> nat, n: nat) {
    && c.info == d.info && c.modules == d.modules && c.compare == d.compare
    && forall x: Symbol :: rank(x) < n ==> c.user(x) == d.user(x)
  }

  lemma {:induction false} SameExpr(c: Config, r: Symbol -> nat, d: Config, q: Symbol -> nat, e: Expr, n: nat, m: nat)
    requires Acyclic(c, r) && Acyclic(d, q) && AgreeBelow(c, d, r, n)
    requires Below(r, n, Leaves(e)) && Below(q, m, Leaves(e))
    ensures ExprVal(c, r, e, n) == ExprVal(d, q, e, m)
    decreases 2 * n, 0, e
  {
    match e
    case Symb(s) => SameSym(c, r, d, q, s);
    case Not(a) => SameExpr(c, r, d, q, a, n, m);
    case And(a, b) =>
      SameExpr(c, r, d, q, a, n, m);
      SameExpr(c, r, d, q, b, n, m);
    case Or(a, b) =>
      SameExpr(c, r, d, q, a, n, m);
      SameExpr(c, r, d, q, b, n, m);
    case Compare(_, a, b) =>
      SameSym(c, r, d, q, a);
      SameSym(c, r, d, q, b);
  }

  lemma {:induction false} SamePtr(c: Config, r: Symbol -> nat, d: Config, q: Symbol -> nat, p: ExprPtr, n: nat, m: nat,
                                   missing: Tristate)
    requires Acyclic(c, r) && Acyclic(d, q) && AgreeBelow(c, d, r, n)
    requires Below(r, n, LeavesOf(p)) && Below(q, m, LeavesOf(p))
    ensures PtrVal(c, r, p, n, missing) == PtrVal(d, q, p, m, missing)
    decreases 2 * n, 1
  {
    if p.Ptr? {
      SameExpr(c, r, d, q, p.expr, n, m);
    }
  }

  lemma {:induction false} SamePrompts(c: Config, r: Symbol -> nat, d: Config, q: Symbol -> nat, ps: seq<Property>,
                                       n: nat, m: nat)
    requires Acyclic(c, r) && Acyclic(d, q) && AgreeBelow(c, d, r, n)
    requires PropsBelow(r, n, ps) && PropsBelow(q, m, ps)
    ensures PromptVal(c, r, ps, n) == PromptVal(d, q, ps, m)
    decreases 2 * n, 2, |ps|
  {
    if ps != [] {
      var last := ps[|ps| - 1];
      SamePrompts(c, r, d, q, ps[..|ps| - 1], n, m);
      if last.hasText {
        assert LeavesOf(last.visible) <= PropLeaves(last);
        SamePtr(c, r, d, q, last.visible, n, m, YES);
      }
    }
  }

  lemma {:induction false} SameDefault(c: Config, r: Symbol -> nat, d: Config, q: Symbol -> nat, ps: seq<Property>,
                                       n: nat, m: nat)
    requires Acyclic(c, r) && Acyclic(d, q) && AgreeBelow(c, d, r, n)
    requires PropsBelow(r, n, ps) && PropsBelow(q, m, ps)
    ensures DefaultVal(c, r, ps, n) == DefaultVal(d, q, ps, m)
    ensures DefaultSymbol(c, r, ps, n) == DefaultSymbol(d, q, ps, m)
    decreases 2 * n, 2, |ps|
  {
    if ps != [] {
      if ps[0].kind == Default {
        assert LeavesOf(ps[0].visible) <= PropLeaves(ps[0]) && LeavesOf(ps[0].expr) <= PropLeaves(ps[0]);
        SamePtr(c, r, d, q, ps[0].visible, n, m, YES);
        SamePtr(c, r, d, q, ps[0].expr, n, m, YES);
      }
      SameDefault(c, r, d, q, ps[1..], n, m);
    }
  }

  lemma AgreeParts(c: Config, d: Config, rank: Symbol -> nat, n: nat, s: Symbol)
    requires AgreeBelow(c, d, rank, n)
    ensures c.info == d.info && TypeOf(c, s) == TypeOf(d, s)
  {
  }

  /** The parts of a calculation that do not look at the symbol's own user value. */
  lemma {:induction false} SameParts(c: Config, r: Symbol -> nat, d: Config, q: Symbol -> nat, s: Symbol,
                                     n: nat, m: nat)
    requires Acyclic(c, r) && Acyclic(d, q) && AgreeBelow(c, d, r, n)
    requires InfoBelow(r, n, c.info(s)) && InfoBelow(q, m, d.info(s))
    ensures var x, y := Calculated(c, r, s, n), Calculated(d, q, s, m);
            && x.visible == y.visible && x.dirDep == y.dirDep && x.revDep == y.revDep && x.implied == y.implied
            && (c.user(s) == d.user(s) ==> x == y)
    decreases 2 * n, 3
  {
    var i := c.info(s);
    hide PromptVal;
    hide PtrVal;
    hide DefaultVal;
    hide DefaultSymbol;
    hide Acyclic;
    hide AgreeBelow;
    hide Weighed;
    hide Round;
    AgreeParts(c, d, r, n, s);
    SamePrompts(c, r, d, q, i.props, n, m);
    SameDefault(c, r, d, q, i.props, n, m);
    SamePtr(c, r, d, q, i.dirDep, n, m, YES);
    SamePtr(c, r, d, q, i.revDep, n, m, NO);
    SamePtr(c, r, d, q, i.implied, n, m, NO);
  }

  lemma {:induction false} SameSym(c: Config, r: Symbol -> nat, d: Config, q: Symbol -> nat, s: Symbol)
    requires Acyclic(c, r) && Acyclic(d, q) && AgreeBelow(c, d, r, r(s) + 1)
    ensures SymOutcome(c, r, s) == SymOutcome(d, q, s)
    decreases 2 * r(s) + 1, 0
  {
    if s.Sym? && s.Type() != Unknown {
      InfoIsBelow(c, r, s);
      InfoIsBelow(d, q, s);
      SameParts(c, r, d, q, s, r(s), q(s));
    }
  }

  /** Any two rankings give the same values. */
  lemma RankIrrelevant(c: Config, r: Symbol -> nat, q: Symbol -> nat, s: Symbol)
    requires Acyclic(c, r) && Acyclic(c, q)
    ensures SymVal(c, r, s) == SymVal(c, q, s)
  {
    SameSym(c, r, c, q, s);
  }

  /** Expressions have their ordinary value under the calculated values of the symbols. */
  lemma {:induction false} ExprValIsValue(c: Config, rank: Symbol -> nat, e: Expr, n: nat, v: Valuation)
    requires Acyclic(c, rank) && Below(rank, n, Leaves(e))
    requires forall s: Symbol :: v.tri(s) == SymVal(c, rank, s)
    requires forall a: Symbol, b: Symbol :: v.cmp(a, b) == c.compare(a, SymVal(c, rank, a), b, SymVal(c, rank, b))
    ensures ExprVal(c, rank, e, n) == Value(e, v)
    decreases e
  {
    match e
    case Symb(_) =>
    case Not(a) => ExprValIsValue(c, rank, a, n, v);
    case And(a, b) =>
      ExprValIsValue(c, rank, a, n, v);
      ExprValIsValue(c, rank, b, n, v);
    case Or(a, b) =>
      ExprValIsValue(c, rank, a, n, v);
      ExprValIsValue(c, rank, b, n, v);
    case Compare(_, _, _) =>
  }

  // ----- user values -----

  function WithUser(c: Config, s: Symbol, val: Tristate): Config {
    c.(user := (x: Symbol) => if x == s then Some(val) else c.user(x))
  }

  /** `sym_tristate_within_range`, on the symbol's calculated fields. */
  predicate Accepts(c: Config, s: Symbol, out: Outcome, val: Tristate) {
    && out.visible != NO && TypeOf(c, s) in {Boolean, TristateType}
    && !(TypeOf(c, s) == Boolean && val == MOD)
    && out.visible > out.revDep && out.revDep <= val <= out.visible
  }

  lemma UserKeepsAcyclic(c: Config, rank: Symbol -> nat, s: Symbol, val: Tristate)
    requires Acyclic(c, rank)
    ensures Acyclic(WithUser(c, s, val), rank)
  {
  }

  /**
   * With a visible symbol, the stored value is the calculated value exactly when it lies between the reverse
   * dependency and the looser of visibility and reverse dependency, and is not m for a bool.
   */
  lemma StoredValue(c: Config, rank: Symbol -> nat, s: Symbol, val: Tristate)
    requires Acyclic(c, rank) && s.Sym? && HasTristateValue(s)
    ensures Acyclic(WithUser(c, s, val), rank)
    ensures var out, tri := SymOutcome(c, rank, s), SymVal(WithUser(c, s, val), rank, s);
            && (out.visible != NO ==>
                 (tri == val <==> out.revDep <= val <= Max(out.visible, out.revDep)
                                  && !(TypeOf(c, s) == Boolean && val == MOD)))
            && (Accepts(c, s, out, val) ==> tri == val)
  {
    var d := WithUser(c, s, val);
    UserKeepsAcyclic(c, rank, s, val);
    InfoIsBelow(c, rank, s);
    InfoIsBelow(d, rank, s);
    SameParts(c, rank, d, rank, s, rank(s), rank(s));
    assert d.user(s) == Some(val);
  }
}
