/**
 What a symbol's calculated fields have to satisfy, given the values of the symbols its expressions mention: laws that
 say nothing about how the fields are found, and that only one assignment of values satisfies.
 */
module SymbolLaws {
  import opened Options
  import opened TristateExpr
  import opened SymbolValues

  // ----- the laws -----

  function ValueOr(p: ExprPtr, v: Valuation, missing: Tristate): Tristate {
    if p.Null? then missing else Value(p.expr, v)
  }

  /** A bool is never m; m becomes y then, and nothing else changes. */
  predicate RoundsTo(x: Tristate, boolean: bool, r: Tristate) {
    && (boolean ==> r != MOD)
    && x <= r
    && (x != MOD || !boolean ==> r == x)
  }

  predicate IsPrompt(i: Info, k: int) {
    0 <= k < |i.props| && i.props[k].hasText
  }

  function Condition(i: Info, k: nat, v: Valuation): Tristate
    requires k < |i.props|
  {
    ValueOr(i.props[k].visible, v, YES)
  }

  /** `t` is the loosest condition of a prompt, or n if there is none. */
  ghost predicate Loosest(i: Info, v: Valuation, t: Tristate) {
    && (forall k :: IsPrompt(i, k) ==> Condition(i, k, v) <= t)
    && (t != NO ==> exists k :: IsPrompt(i, k) && Condition(i, k, v) == t)
  }

  /** Default number `k` is the first whose condition is not n. */
  ghost predicate FirstDefault(i: Info, v: Valuation, k: int) {
    && 0 <= k < |i.props| && i.props[k].kind == Default && Condition(i, k, v) != NO
    && forall j :: 0 <= j < k && i.props[j].kind == Default ==> Condition(i, j, v) == NO
  }

  /** The value that the defaults give. */
  ghost predicate IsDefault(i: Info, v: Valuation, d: Tristate) {
    || (exists k :: FirstDefault(i, v, k) && d == Min(ValueOr(i.props[k].expr, v, YES), Condition(i, k, v)))
    || ((forall k :: 0 <= k < |i.props| && i.props[k].kind == Default ==> Condition(i, k, v) == NO) && d == NO)
  }

  predicate UserCounts(c: Config, s: Symbol, out: Outcome) {
    out.visible != NO && c.user(s).Some?
  }

  /** Visibility and the three kinds of dependencies. */
  ghost predicate DependenciesLawful(c: Config, v: Valuation, s: Symbol, out: Outcome) {
    var i, boolean := c.info(s), TypeOf(c, s) == Boolean;
    && (exists t :: Loosest(i, v, t) && RoundsTo(t, TypeOf(c, s) != TristateType, out.visible))
    && RoundsTo(ValueOr(i.dirDep, v, YES), boolean, out.dirDep)
    && RoundsTo(ValueOr(i.revDep, v, NO), boolean, out.revDep)
    && RoundsTo(ValueOr(i.implied, v, NO), boolean, out.implied)
  }

  /** The value of a bool or tristate, where the defaults give `d`. */
  predicate ValueLawful(c: Config, s: Symbol, out: Outcome, d: Tristate) {
    var boolean := TypeOf(c, s) == Boolean;
    // never below what selects it, never m for a bool
    && out.revDep <= out.tri && (boolean ==> out.tri != MOD)
    // a user value counts as far as the symbol is visible
    && (UserCounts(c, s, out) ==> RoundsTo(Max(Min(c.user(s).value, out.visible), out.revDep), boolean, out.tri))
    // otherwise the default counts
    && (!UserCounts(c, s, out) && out.implied == NO ==> RoundsTo(Max(d, out.revDep), boolean, out.tri))
    // and is raised by what implies the symbol, as far as its direct dependencies allow
    && (!UserCounts(c, s, out) && out.implied != NO ==>
          && Min(out.implied, out.dirDep) <= out.tri <= Max(out.dirDep, out.revDep)
          && RoundsTo(Max(Min(Max(d, out.implied), out.dirDep), out.revDep), boolean, out.tri))
    // written unless nothing speaks for it
    && (out.write <==> !c.info(s).noWrite
                       && (out.visible != NO || out.revDep != NO || out.implied != NO || d != NO))
  }

  ghost predicate Lawful(c: Config, v: Valuation, s: Symbol, out: Outcome) {
    && DependenciesLawful(c, v, s, out)
    && (HasTristateValue(s) ==> forall d :: IsDefault(c.info(s), v, d) ==> ValueLawful(c, s, out, d))
    && (!HasTristateValue(s) ==> out.tri == NO)
  }

  /** The strings of two symbols compare as their values say. */
  ghost predicate Compares(c: Config, v: Valuation) {
    forall a: Symbol, b: Symbol :: v.cmp(a, b) == c.compare(a, v.tri(a), b, v.tri(b))
  }

  /** An assignment of fields to all symbols that obeys every law. */
  ghost predicate AllLawful(c: Config, v: Valuation, out: Symbol -> Outcome) {
    && v.tri(SymYes) == YES && v.tri(SymMod) == MOD && v.tri(SymNo) == NO
    && Compares(c, v)
    && forall s: Symbol :: s.Sym? ==>
         (if s.Type() == Unknown then v.tri(s) == NO else Lawful(c, v, s, out(s)) && v.tri(s) == out(s).tri)
  }

  /** The defaults give one value. */
  lemma {:induction false} DefaultExists(i: Info, v: Valuation) returns (d: Tristate)
    ensures IsDefault(i, v, d)
    ensures forall e :: IsDefault(i, v, e) ==> e == d
  {
    var k := 0;
    while k < |i.props| && !(i.props[k].kind == Default && Condition(i, k, v) != NO)
      invariant 0 <= k <= |i.props|
      invariant forall j :: 0 <= j < k && i.props[j].kind == Default ==> Condition(i, j, v) == NO
    {
      k := k + 1;
    }
    if k < |i.props| {
      d := Min(ValueOr(i.props[k].expr, v, YES), Condition(i, k, v));
      assert FirstDefault(i, v, k);
      forall e | IsDefault(i, v, e) ensures e == d {
        if j :| FirstDefault(i, v, j) && e == Min(ValueOr(i.props[j].expr, v, YES), Condition(i, j, v)) {
          assert j == k;
        }
      }
    } else {
      d := NO;
    }
  }

  // ----- the definition obeys them -----

  /** The valuation that the definition calculates. */
  ghost predicate Under(c: Config, rank: Symbol -> nat, v: Valuation)
    requires Acyclic(c, rank)
  {
    && (forall s: Symbol :: v.tri(s) == SymVal(c, rank, s))
    && Compares(c, v)
  }

  lemma PtrValIsValue(c: Config, rank: Symbol -> nat, p: ExprPtr, n: nat, missing: Tristate, v: Valuation)
    requires Acyclic(c, rank) && Under(c, rank, v) && Below(rank, n, LeavesOf(p))
    ensures PtrVal(c, rank, p, n, missing) == ValueOr(p, v, missing)
  {
    if p.Ptr? {
      ExprValIsValue(c, rank, p.expr, n, v);
    }
  }

  /** The loosest of the first `m` prompts. */
  lemma {:induction false} PromptsLoosest(c: Config, rank: Symbol -> nat, i: Info, m: nat, n: nat, v: Valuation)
    requires Acyclic(c, rank) && Under(c, rank, v) && m <= |i.props| && PropsBelow(rank, n, i.props)
    ensures PropsBelow(rank, n, i.props[..m])
    ensures var t := PromptVal(c, rank, i.props[..m], n);
            && (forall k :: IsPrompt(i, k) && k < m ==> Condition(i, k, v) <= t)
            && (t != NO ==> exists k :: IsPrompt(i, k) && k < m && Condition(i, k, v) == t)
  {
    if m != 0 {
      var ps, last := i.props[..m], i.props[m - 1];
      assert ps[..m - 1] == i.props[..m - 1];
      PromptsLoosest(c, rank, i, m - 1, n, v);
      if last.hasText {
        assert LeavesOf(last.visible) <= PropLeaves(last);
        PtrValIsValue(c, rank, last.visible, n, YES, v);
        assert IsPrompt(i, m - 1);
        var before := PromptVal(c, rank, i.props[..m - 1], n);
        assert PromptVal(c, rank, ps, n) == Max(before, Condition(i, m - 1, v));
      }
    }
  }

  /** The defaults from number `m` on, where none before it has a condition that is not n. */
  lemma {:induction false} DefaultLawful(c: Config, rank: Symbol -> nat, i: Info, m: nat, n: nat, v: Valuation)
    requires Acyclic(c, rank) && Under(c, rank, v) && m <= |i.props| && PropsBelow(rank, n, i.props)
    requires forall j :: 0 <= j < m && i.props[j].kind == Default ==> Condition(i, j, v) == NO
    ensures PropsBelow(rank, n, i.props[m..]) && IsDefault(i, v, DefaultVal(c, rank, i.props[m..], n))
    decreases |i.props| - m
  {
    if m < |i.props| {
      var ps, p := i.props[m..], i.props[m];
      assert ps[0] == p && ps[1..] == i.props[m + 1..];
      if p.kind == Default {
        assert LeavesOf(p.visible) <= PropLeaves(p) && LeavesOf(p.expr) <= PropLeaves(p);
        PtrValIsValue(c, rank, p.visible, n, YES, v);
        PtrValIsValue(c, rank, p.expr, n, YES, v);
      }
      if p.kind == Default && Condition(i, m, v) != NO {
        assert FirstDefault(i, v, m);
      } else {
        DefaultLawful(c, rank, i, m + 1, n, v);
      }
    }
  }

  lemma CalculatedDependencies(c: Config, rank: Symbol -> nat, s: Symbol, n: nat, v: Valuation)
    requires Acyclic(c, rank) && Under(c, rank, v) && InfoBelow(rank, n, c.info(s))
    ensures DependenciesLawful(c, v, s, Calculated(c, rank, s, n))
  {
    hide Acyclic;
    hide PromptVal;
    hide PtrVal;
    hide DefaultVal;
    hide DefaultSymbol;
    hide Weighed;
    var i := c.info(s);
    assert i.props[..|i.props|] == i.props;
    PromptsLoosest(c, rank, i, |i.props|, n, v);
    PtrValIsValue(c, rank, i.dirDep, n, YES, v);
    PtrValIsValue(c, rank, i.revDep, n, NO, v);
    PtrValIsValue(c, rank, i.implied, n, NO, v);
    assert Loosest(i, v, PromptVal(c, rank, i.props, n));
  }

  lemma CalculatedValue(c: Config, rank: Symbol -> nat, s: Symbol, n: nat, v: Valuation)
    requires Acyclic(c, rank) && Under(c, rank, v) && InfoBelow(rank, n, c.info(s)) && HasTristateValue(s)
    ensures forall d :: IsDefault(c.info(s), v, d) ==> ValueLawful(c, s, Calculated(c, rank, s, n), d)
  {
    hide Acyclic;
    hide PromptVal;
    hide PtrVal;
    hide DefaultVal;
    hide DefaultSymbol;
    hide IsDefault;
    var i := c.info(s);
    var d := DefaultExists(i, v);
    assert i.props[0..] == i.props;
    DefaultLawful(c, rank, i, 0, n, v);
    assert DefaultVal(c, rank, i.props, n) == d;
  }

  /** Every symbol with a type obeys the laws, under the calculated values. */
  lemma SymbolLawful(c: Config, rank: Symbol -> nat, s: Symbol, v: Valuation)
    requires Acyclic(c, rank) && Under(c, rank, v) && s.Sym? && s.Type() != Unknown
    ensures Lawful(c, v, s, SymOutcome(c, rank, s))
  {
    hide DependenciesLawful;
    hide ValueLawful;
    hide IsDefault;
    InfoIsBelow(c, rank, s);
    CalculatedDependencies(c, rank, s, rank(s), v);
    if HasTristateValue(s) {
      CalculatedValue(c, rank, s, rank(s), v);
    }
  }

  // ----- and nothing else does -----

  lemma {:induction false} ValueAgrees(c: Config, e: Expr, v: Valuation, w: Valuation)
    requires Compares(c, v) && Compares(c, w) && forall x :: x in Leaves(e) ==> v.tri(x) == w.tri(x)
    ensures Value(e, v) == Value(e, w)
  {
    match e
    case Symb(s) => assert s in Leaves(e);
    case Not(a) => ValueAgrees(c, a, v, w);
    case And(a, b) =>
      ValueAgrees(c, a, v, w);
      ValueAgrees(c, b, v, w);
    case Or(a, b) =>
      ValueAgrees(c, a, v, w);
      ValueAgrees(c, b, v, w);
    case Compare(_, a, b) =>
      assert a in Leaves(e) && b in Leaves(e);
  }

  lemma ValueOrAgrees(c: Config, p: ExprPtr, v: Valuation, w: Valuation, missing: Tristate)
    requires Compares(c, v) && Compares(c, w) && forall x :: x in LeavesOf(p) ==> v.tri(x) == w.tri(x)
    ensures ValueOr(p, v, missing) == ValueOr(p, w, missing)
  {
    if p.Ptr? {
      ValueAgrees(c, p.expr, v, w);
    }
  }

  /** What a symbol's laws look at is the same under both valuations. */
  ghost predicate SameView(i: Info, v: Valuation, w: Valuation) {
    && ValueOr(i.dirDep, v, YES) == ValueOr(i.dirDep, w, YES)
    && ValueOr(i.revDep, v, NO) == ValueOr(i.revDep, w, NO)
    && ValueOr(i.implied, v, NO) == ValueOr(i.implied, w, NO)
    && (forall k :: 0 <= k < |i.props| && (i.props[k].hasText || i.props[k].kind == Default) ==>
          Condition(i, k, v) == Condition(i, k, w))
    && (forall k :: 0 <= k < |i.props| && i.props[k].kind == Default ==>
          ValueOr(i.props[k].expr, v, YES) == ValueOr(i.props[k].expr, w, YES))
  }

  lemma NeedsAgree(c: Config, i: Info, v: Valuation, w: Valuation)
    requires Compares(c, v) && Compares(c, w) && forall x: Symbol :: Needs(i, x) ==> v.tri(x) == w.tri(x)
    ensures SameView(i, v, w)
  {
    ValueOrAgrees(c, i.dirDep, v, w, YES);
    ValueOrAgrees(c, i.revDep, v, w, NO);
    ValueOrAgrees(c, i.implied, v, w, NO);
    forall k | 0 <= k < |i.props| && (i.props[k].hasText || i.props[k].kind == Default)
      ensures Condition(i, k, v) == Condition(i, k, w)
    {
      assert forall x :: x in LeavesOf(i.props[k].visible) ==> x in PropLeaves(i.props[k]) && Needs(i, x);
      ValueOrAgrees(c, i.props[k].visible, v, w, YES);
    }
    forall k | 0 <= k < |i.props| && i.props[k].kind == Default
      ensures ValueOr(i.props[k].expr, v, YES) == ValueOr(i.props[k].expr, w, YES)
    {
      assert forall x :: x in LeavesOf(i.props[k].expr) ==> x in PropLeaves(i.props[k]) && Needs(i, x);
      ValueOrAgrees(c, i.props[k].expr, v, w, YES);
    }
  }

  lemma DependenciesUnique(c: Config, v: Valuation, w: Valuation, s: Symbol, o: Outcome, p: Outcome)
    requires SameView(c.info(s), v, w) && DependenciesLawful(c, v, s, o) && DependenciesLawful(c, w, s, p)
    ensures o.visible == p.visible && o.dirDep == p.dirDep && o.revDep == p.revDep && o.implied == p.implied
  {
    var i := c.info(s);
    var t :| Loosest(i, v, t) && RoundsTo(t, TypeOf(c, s) != TristateType, o.visible);
    var u :| Loosest(i, w, u) && RoundsTo(u, TypeOf(c, s) != TristateType, p.visible);
    LoosestUnique(i, v, w, t, u);
    LoosestUnique(i, w, v, u, t);
  }

  lemma LoosestUnique(i: Info, v: Valuation, w: Valuation, t: Tristate, u: Tristate)
    requires SameView(i, v, w) && Loosest(i, v, t) && Loosest(i, w, u)
    ensures t <= u
  {
    if t != NO {
      var k :| IsPrompt(i, k) && Condition(i, k, v) == t;
      assert Condition(i, k, w) <= u;
    }
  }

  lemma LawfulUnique(c: Config, v: Valuation, w: Valuation, s: Symbol, o: Outcome, p: Outcome)
    requires SameView(c.info(s), v, w) && Lawful(c, v, s, o) && Lawful(c, w, s, p)
    ensures o.tri == p.tri
  {
    hide SameView;
    hide DependenciesLawful;
    hide IsDefault;
    DependenciesUnique(c, v, w, s, o, p);
    if HasTristateValue(s) {
      var d := DefaultExists(c.info(s), v);
      SameDefaults(c.info(s), v, w, d);
      ValueUnique(c, s, o, p, d);
    }
  }

  lemma SameDefaults(i: Info, v: Valuation, w: Valuation, d: Tristate)
    requires SameView(i, v, w) && IsDefault(i, v, d)
    ensures IsDefault(i, w, d)
  {
    if k :| FirstDefault(i, v, k) && d == Min(ValueOr(i.props[k].expr, v, YES), Condition(i, k, v)) {
      assert FirstDefault(i, w, k);
    }
  }

  lemma ValueUnique(c: Config, s: Symbol, o: Outcome, p: Outcome, d: Tristate)
    requires ValueLawful(c, s, o, d) && ValueLawful(c, s, p, d)
    requires o.visible == p.visible && o.dirDep == p.dirDep && o.revDep == p.revDep && o.implied == p.implied
    ensures o.tri == p.tri
  {
  }

  /** Without cycles there is only one lawful assignment of values, that of the definition. */
  lemma {:induction false} LawsDetermine(c: Config, rank: Symbol -> nat, v: Valuation, w: Valuation,
                                         out: Symbol -> Outcome, s: Symbol)
    requires Acyclic(c, rank) && Under(c, rank, v) && AllLawful(c, w, out)
    ensures w.tri(s) == SymVal(c, rank, s)
    decreases rank(s)
  {
    hide Lawful;
    hide SymOutcome;
    hide Calculated;
    SimpleValues(c, rank, s);
    if s.Sym? && s.Type() != Unknown {
      forall x: Symbol | Needs(c.info(s), x)
        ensures w.tri(x) == v.tri(x)
      {
        LawsDetermine(c, rank, v, w, out, x);
      }
      NeedsAgree(c, c.info(s), w, v);
      SymbolLawful(c, rank, s, v);
      LawfulUnique(c, w, v, s, out(s), SymOutcome(c, rank, s));
    }
  }

  lemma SimpleValues(c: Config, rank: Symbol -> nat, s: Symbol)
    requires Acyclic(c, rank)
    ensures s == SymYes ==> SymVal(c, rank, s) == YES
    ensures s == SymMod ==> SymVal(c, rank, s) == MOD
    ensures s == SymNo || (s.Sym? && s.Type() == Unknown) ==> SymVal(c, rank, s) == NO
    ensures SymVal(c, rank, s) == SymOutcome(c, rank, s).tri
  {
  }
}
