/** The memoised calculation of symbol values: flags and cached values updated in place. */
module SymbolEvaluator {
  import opened Options
  import opened TristateExpr
  import opened SymbolValues
  import opened SymbolLaws

  /** The fields of `struct symbol` that a calculation writes; `valid` is `SYMBOL_VALID`. */
  datatype State = State(valid: bool, out: Outcome)

  class Evaluator {
    var config: Config
    var state: map<Symbol, State>
    ghost const rank: Symbol -> nat
    /** The symbols whose calculation has begun and not ended. */
    ghost var busy: set<Symbol>

    constructor (c: Config, ghost r: Symbol -> nat)
      requires Acyclic(c, r)
      ensures config == c && rank == r && busy == {} && Inv()
      ensures forall s: Symbol :: s.Sym? ==> !Get(s).valid
    {
      config, rank, busy := c, r, {};
      state := map[];
      new;
      forall s: Symbol | Get(s).valid ensures Right(s) {
        assert SymOutcome(config, rank, s).tri == Get(s).out.tri;
      }
    }

    /** The three constants are valid from the start. */
    function Get(s: Symbol): State
      reads this`state
    {
      if s in state then state[s]
      else
        match s
        case SymYes => State(true, NOTHING.(tri := YES))
        case SymMod => State(true, NOTHING.(tri := MOD))
        case SymNo => State(true, NOTHING)
        case Sym(_, _, _) => State(false, NOTHING)
    }

    /** The cached fields are those of the definition; a symbol without a type only gets a value. */
    ghost predicate Right(s: Symbol)
      reads this
      requires Acyclic(config, rank)
    {
      && Get(s).out.tri == SymVal(config, rank, s)
      && (s.Sym? && s.Type() != Unknown ==> Get(s).out == SymOutcome(config, rank, s))
    }

    ghost predicate Inv()
      reads this
    {
      && Acyclic(config, rank)
      && (forall s: Symbol :: s in state ==> s.Sym?)
      && (forall s: Symbol :: s in busy ==> s.Sym?)
      && (forall s: Symbol :: Get(s).valid && s !in busy ==> Right(s))
    }

    /** The symbols being calculated all rank at least `n`. */
    ghost predicate BusyAbove(n: nat)
      reads this
    {
      forall b :: b in busy ==> n <= rank(b)
    }

    /** What every part of a calculation keeps: valid symbols stay valid, unfinished ones are left alone. */
    twostate predicate Keeps()
      reads this
    {
      && Inv() && busy == old(busy) && config == old(config)
      && (forall s: Symbol :: old(Get(s)).valid ==> Get(s).valid)
      && (forall s: Symbol :: s in busy ==> Get(s) == old(Get(s)))
    }

    method Put(s: Symbol, x: State)
      requires s.Sym?
      modifies this`state
      ensures forall t: Symbol :: Get(t) == if t == s then x else old(Get(t))
      ensures forall t: Symbol :: t in state ==> t == s || t in old(state)
    {
      state := state[s := x];
    }

    /** `expr_calc_value` */
    method CalcExpr(e: Expr, ghost n: nat) returns (r: Tristate)
      requires Inv() && BusyAbove(n) && Below(rank, n, Leaves(e))
      modifies this`state, this`busy
      ensures Keeps() && r == ExprVal(config, rank, e, n)
      decreases 2 * n, 0, e
    {
      match e
      case Symb(s) =>
        CalcValue(s);
        r := Get(s).out.tri;
      case And(a, b) =>
        var val1 := CalcExpr(a, n);
        var val2 := CalcExpr(b, n);
        r := Min(val1, val2);
      case Or(a, b) =>
        var val1 := CalcExpr(a, n);
        var val2 := CalcExpr(b, n);
        r := Max(val1, val2);
      case Not(a) =>
        var val1 := CalcExpr(a, n);
        r := 2 - val1;
      case Compare(rel, a, b) =>
        CalcValue(a);
        CalcValue(b);
        r := OfBool(Holds(rel, config.compare(a, Get(a).out.tri, b, Get(b).out.tri)));
    }

    method CalcPtr(p: ExprPtr, ghost n: nat, missing: Tristate) returns (r: Tristate)
      requires Inv() && BusyAbove(n) && Below(rank, n, LeavesOf(p))
      modifies this`state, this`busy
      ensures Keeps() && r == PtrVal(config, rank, p, n, missing)
      decreases 2 * n, 1
    {
      if p.Null? {
        r := missing;
      } else {
        r := CalcExpr(p.expr, n);
      }
    }

    /** The loop over the prompts in `sym_calc_visibility`. */
    method CalcPrompts(ps: seq<Property>, ghost n: nat) returns (tri: Tristate)
      requires Inv() && BusyAbove(n) && PropsBelow(rank, n, ps)
      modifies this`state, this`busy
      ensures Keeps() && tri == PromptVal(config, rank, ps, n)
      decreases 2 * n, 2
    {
      tri := NO;
      for k := 0 to |ps|
        invariant Keeps() && PropsBelow(rank, n, ps[..k]) && tri == PromptVal(config, rank, ps[..k], n)
      {
        assert ps[..k + 1][..k] == ps[..k];
        if ps[k].hasText {
          assert LeavesOf(ps[k].visible) <= PropLeaves(ps[k]);
          var visible := CalcPtr(ps[k].visible, n, YES);
          tri := Max(tri, visible);
        }
      }
      assert ps[..|ps|] == ps;
    }

    /** `sym_get_default_prop`: the first default whose condition is not n, with the value of that condition. */
    method FindDefault(ps: seq<Property>, ghost n: nat) returns (found: Option<(Property, Tristate)>)
      requires Inv() && BusyAbove(n) && PropsBelow(rank, n, ps)
      modifies this`state, this`busy
      ensures Keeps()
      ensures found.None? ==> DefaultVal(config, rank, ps, n) == NO && DefaultSymbol(config, rank, ps, n) == None
      ensures found.Some? ==> var (p, visible) := found.value;
        && p in ps && p.kind == Default && Below(rank, n, PropLeaves(p))
        && DefaultVal(config, rank, ps, n) == Min(PtrVal(config, rank, p.expr, n, YES), visible)
        && DefaultSymbol(config, rank, ps, n)
        == if p.expr.Ptr? && p.expr.expr.Symb? then Some(p.expr.expr.sym) else None
      decreases 2 * n, 2
    {
      for k := 0 to |ps|
        invariant Keeps() && PropsBelow(rank, n, ps[k..])
        invariant DefaultVal(config, rank, ps, n) == DefaultVal(config, rank, ps[k..], n)
        invariant DefaultSymbol(config, rank, ps, n) == DefaultSymbol(config, rank, ps[k..], n)
      {
        assert ps[k..][1..] == ps[k + 1..] && ps[k..][0] == ps[k];
        if ps[k].kind == Default {
          assert LeavesOf(ps[k].visible) <= PropLeaves(ps[k]) && LeavesOf(ps[k].expr) <= PropLeaves(ps[k]);
          var visible := CalcPtr(ps[k].visible, n, YES);
          if visible != NO {
            return Some((ps[k], visible));
          }
        }
      }
      found := None;
    }

    /** Like `Keeps`, while the fields of `s` itself are being filled in. */
    twostate predicate Fills(s: Symbol)
      reads this
    {
      && Inv() && busy == old(busy) && config == old(config)
      && (forall t: Symbol :: old(Get(t)).valid ==> Get(t).valid)
      && (forall t: Symbol :: t in busy && t != s ==> Get(t) == old(Get(t)))
    }

    /** The symbol is the lowest one being calculated. */
    ghost predicate Filling(s: Symbol)
      reads this
    {
      && Inv() && s in busy && s.Type() != Unknown && BusyAbove(rank(s))
      && InfoBelow(rank, rank(s), config.info(s)) && Get(s).valid
    }

    ghost function Spec(s: Symbol): Outcome
      reads this
      requires Acyclic(config, rank) && InfoBelow(rank, rank(s), config.info(s))
    {
      Calculated(config, rank, s, rank(s))
    }

    method SetOut(s: Symbol, out: Outcome)
      requires Inv() && s in busy
      modifies this`state
      ensures Fills(s) && Get(s) == State(true, out)
    {
      Put(s, State(true, out));
      forall t: Symbol | Get(t).valid && t !in busy ensures Right(t) {
        assert old(Get(t)).valid && old(Right(t));
      }
    }

    /** An expression's value, with m rounded up for a bool. */
    method CalcRounded(p: ExprPtr, ghost n: nat, missing: Tristate, boolean: bool) returns (tri: Tristate)
      requires Inv() && BusyAbove(n) && Below(rank, n, LeavesOf(p))
      modifies this`state, this`busy
      ensures Keeps() && tri == Round(PtrVal(config, rank, p, n, missing), boolean)
      decreases 2 * n, 2
    {
      tri := CalcPtr(p, n, missing);
      if tri == MOD && boolean {
        tri := YES;
      }
    }

    /** `sym_calc_visibility` */
    method CalcVisibility(s: Symbol)
      requires Filling(s)
      modifies this`state, this`busy
      ensures Fills(s) && Filling(s)
      ensures Get(s).out == Spec(s).(tri := old(Get(s)).out.tri, write := old(Get(s)).out.write)
      decreases 2 * rank(s), 4
    {
      var tri := CalcPrompts(config.info(s).props, rank(s));
      if tri == MOD && (s.Type() != TristateType || config.modules == NO) {
        tri := YES;
      }
      SetOut(s, Get(s).out.(visible := tri));
      CalcDependencies(s);
    }

    /** Direct dependencies, then the others. */
    method CalcDependencies(s: Symbol)
      requires Filling(s)
      modifies this`state, this`busy
      ensures Fills(s) && Filling(s)
      ensures var was, spec := old(Get(s)).out, Spec(s);
              Get(s).out == was.(dirDep := spec.dirDep, revDep := spec.revDep, implied := spec.implied)
      decreases 2 * rank(s), 3, 1
    {
      var tri := CalcRounded(config.info(s).dirDep, rank(s), YES, TypeOf(config, s) == Boolean);
      SetOut(s, Get(s).out.(dirDep := tri));
      CalcReverse(s);
    }

    /** Reverse and weak reverse dependencies. */
    method CalcReverse(s: Symbol)
      requires Filling(s)
      modifies this`state, this`busy
      ensures Fills(s) && Filling(s)
      ensures Get(s).out == old(Get(s)).out.(revDep := Spec(s).revDep, implied := Spec(s).implied)
      decreases 2 * rank(s), 3, 0
    {
      var i, boolean := config.info(s), TypeOf(config, s) == Boolean;
      var tri := CalcRounded(i.revDep, rank(s), NO, boolean);
      SetOut(s, Get(s).out.(revDep := tri));
      tri := CalcRounded(i.implied, rank(s), NO, boolean);
      SetOut(s, Get(s).out.(implied := tri));
    }

    /** The bool and tristate case of `sym_calc_value`, from the visibilities to the new value. */
    method CalcTristate(s: Symbol) returns (newval: Tristate)
      requires Filling(s) && HasTristateValue(s)
      requires Get(s).out == Spec(s).(tri := NO, write := Get(s).out.write)
      requires Get(s).out.write == (Get(s).out.visible != NO)
      modifies this`state, this`busy
      ensures Fills(s) && Filling(s)
      ensures newval == Spec(s).tri
      ensures Get(s).out == Spec(s).(tri := NO, write := Get(s).out.write)
      ensures Spec(s).write == (Get(s).out.write && !config.info(s).noWrite)
      decreases 2 * rank(s), 3
    {
      var i := config.info(s);
      newval := NO;
      if Get(s).out.visible != NO && config.user(s).Some? {
        newval := Min(config.user(s).value, Get(s).out.visible);
      } else {
        if Get(s).out.revDep != NO {
          SetOut(s, Get(s).out.(write := true));
        }
        var found := FindDefault(i.props, rank(s));
        if found.Some? {
          var (prop, visible) := found.value;
          var val := CalcPtr(prop.expr, rank(s), YES);
          newval := Min(val, visible);
          if newval != NO {
            SetOut(s, Get(s).out.(write := true));
          }
        }
        if Get(s).out.implied != NO {
          SetOut(s, Get(s).out.(write := true));
          newval := Max(newval, Get(s).out.implied);
          newval := Min(newval, Get(s).out.dirDep);
        }
      }
      newval := Max(newval, Get(s).out.revDep);
      if newval == MOD && TypeOf(config, s) == Boolean {
        newval := YES;
      }
    }

    /** The string case: only the symbol named by the default is looked at. */
    method CalcText(s: Symbol)
      requires Filling(s) && !HasTristateValue(s)
      requires Get(s).out == Spec(s).(tri := NO, write := Get(s).out.write)
      requires Get(s).out.write == (Get(s).out.visible != NO)
      modifies this`state, this`busy
      ensures Fills(s) && Filling(s)
      ensures Get(s).out == Spec(s).(tri := NO, write := Get(s).out.write)
      ensures Spec(s).write == (Get(s).out.write && !config.info(s).noWrite)
      decreases 2 * rank(s), 3
    {
      if Get(s).out.visible != NO && config.user(s).Some? { return; }
      var found := FindDefault(config.info(s).props, rank(s));
      if found.Some? && found.value.0.expr.Ptr? && found.value.0.expr.expr.Symb? {
        SetOut(s, Get(s).out.(write := true));
        CalcValue(found.value.0.expr.expr.sym);
      }
    }

    /** The calculation of a symbol with a type, once it is marked valid. */
    method Fill(s: Symbol)
      requires Filling(s)
      modifies this`state, this`busy
      ensures Fills(s) && Get(s) == State(true, Spec(s))
      decreases 2 * rank(s), 5
    {
      SetOut(s, Get(s).out.(write := false));
      CalcVisibility(s);
      if Get(s).out.visible != NO {
        SetOut(s, Get(s).out.(write := true));
      }
      SetOut(s, Get(s).out.(tri := NO));
      var newval := NO;
      if HasTristateValue(s) {
        newval := CalcTristate(s);
      } else {
        CalcText(s);
      }
      SetOut(s, Get(s).out.(tri := newval));
      if config.info(s).noWrite {
        SetOut(s, Get(s).out.(write := false));
      }
    }

    /** `sym_calc_value` */
    method CalcValue(s: Symbol)
      requires Inv() && BusyAbove(rank(s) + 1)
      modifies this`state, this`busy
      ensures Keeps() && Get(s).valid
      decreases 2 * rank(s) + 1
    {
      if Get(s).valid { return; }
      var out := Get(s).out;
      Begin(s);
      if s.Type() == Unknown {
        SetOut(s, out.(tri := NO));
      } else {
        InfoIsBelow(config, rank, s);
        Fill(s);
      }
      busy := busy - {s};
      assert Right(s);
      forall t: Symbol | Get(t).valid && t !in busy ensures Right(t) {
      }
    }

    /** Mark a symbol valid before it is calculated. */
    method Begin(s: Symbol)
      requires Inv() && s.Sym? && s !in busy
      modifies this`state, this`busy
      ensures Inv() && busy == old(busy) + {s} && config == old(config)
      ensures forall t: Symbol :: Get(t) == if t == s then State(true, old(Get(s)).out) else old(Get(t))
    {
      Put(s, State(true, Get(s).out));
      busy := busy + {s};
      forall t: Symbol | Get(t).valid && t !in busy ensures Right(t) {
        assert old(Get(t)).valid && old(Right(t));
      }
    }

    /** Any requests in any order: every requested symbol has the value of the definition and obeys the laws. */
    method Request(order: seq<Symbol>)
      requires Inv() && busy == {}
      modifies this`state, this`busy
      ensures Inv() && busy == {} && config == old(config)
      ensures forall s :: s in order ==> Get(s).valid && Get(s).out.tri == SymVal(config, rank, s)
      ensures forall s, v: Valuation :: s in order && s.Sym? && s.Type() != Unknown && Under(config, rank, v) ==>
                Lawful(config, v, s, Get(s).out)
    {
      hide Lawful;
      for k := 0 to |order|
        invariant Inv() && busy == {} && config == old(config)
        invariant forall s :: s in order[..k] ==> Get(s).valid
      {
        CalcValue(order[k]);
        assert order[..k + 1] == order[..k] + [order[k]];
      }
      assert order[..|order|] == order;
      forall s | s in order ensures Get(s).out.tri == SymVal(config, rank, s) {
        assert Right(s);
      }
      forall s, v: Valuation | s in order && s.Sym? && s.Type() != Unknown && Under(config, rank, v)
        ensures Lawful(config, v, s, Get(s).out)
      {
        assert Right(s);
        SymbolLawful(config, rank, s, v);
      }
    }

    // ----- user values -----

    /** `sym_tristate_within_range` */
    method WithinRange(s: Symbol, val: Tristate) returns (ok: bool)
      ensures ok == Accepts(config, s, Get(s).out, val)
    {
      var typ, out := TypeOf(config, s), Get(s).out;
      if out.visible == NO { return false; }
      if typ != Boolean && typ != TristateType { return false; }
      if typ == Boolean && val == MOD { return false; }
      if out.visible <= out.revDep { return false; }
      return out.revDep <= val <= out.visible;
    }

    /** `sym_set_tristate_value`; a value equal to the current one is stored without any test. */
    method SetTristateValue(s: Symbol, val: Tristate) returns (ok: bool)
      requires Inv() && busy == {} && s.Sym?
      modifies this`state, this`config
      ensures ok == (old(Get(s)).out.tri == val || Accepts(old(config), s, old(Get(s)).out, val))
      ensures config == if ok then WithUser(old(config), s, val) else old(config)
      ensures Acyclic(config, rank)
      ensures !ok || old(Get(s)).out.tri == val ==> state == old(state)
      ensures ok && old(Get(s)).out.tri != val ==> Inv() && forall t: Symbol :: t.Sym? ==> !Get(t).valid
    {
      var oldval := Get(s).out.tri;
      if oldval != val {
        var within := WithinRange(s, val);
        if !within { return false; }
      }
      UserKeepsAcyclic(config, rank, s, val);
      config := WithUser(config, s, val);
      if oldval != val {
        state := map t | t in state :: state[t].(valid := false);
        forall t: Symbol | Get(t).valid ensures Right(t) {
          assert SymOutcome(config, rank, t).tri == Get(t).out.tri;
        }
      }
      return true;
    }

    /** An accepted value is what the next calculation gives. */
    method StoreAndCalculate(s: Symbol, val: Tristate) returns (ok: bool)
      requires Inv() && busy == {} && s.Sym? && Get(s).valid && HasTristateValue(s)
      modifies this`state, this`config, this`busy
      ensures Accepts(old(config), s, old(Get(s)).out, val) ==> ok && Get(s).valid && Get(s).out.tri == val
    {
      assert Right(s);
      var oldval := Get(s).out.tri;
      ok := SetTristateValue(s, val);
      if ok && oldval != val {
        StoredValue(old(config), rank, s, val);
        CalcValue(s);
        assert Right(s);
      }
    }
  }
}
