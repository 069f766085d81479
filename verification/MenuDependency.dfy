/**
 The dependency tests of automatic submenu creation: which symbols an expression mentions, when it
 is off without a symbol, and the "superset" test of `menu_finalize`.
 */
module MenuDependency {
  import opened Options
  import opened TristateExpr
  import opened ExprEquality
  import opened ExprJoin
  import opened ExprTransform
  import opened ExprDups
  import opened ExprHeap
  import opened DupsHeap

  // ----- expr_contains_symbol and expr_depends_symbol -----

  predicate ContainsSymbol(e: Expr, s: Symbol) {
    match e
    case And(l, r) => ContainsSymbol(l, s) || ContainsSymbol(r, s)
    case Or(l, r) => ContainsSymbol(l, s) || ContainsSymbol(r, s)
    case Symb(t) => t == s
    case Compare(_, a, b) => a == s || b == s
    case Not(a) => ContainsSymbol(a, s)
  }

  predicate DependsSymbol(e: Expr, s: Symbol) {
    match e
    case And(l, r) => DependsSymbol(l, s) || DependsSymbol(r, s)
    case Symb(t) => t == s
    case Compare(rel, a, b) =>
      a == s && ((rel == Equal && (b == SymYes || b == SymMod)) || (rel == Unequal && b == SymNo))
    case _ => false
  }

  ghost predicate AgreeExcept(v: Valuation, w: Valuation, s: Symbol) {
    && (forall t: Symbol :: t != s ==> v.tri(t) == w.tri(t))
    && (forall a: Symbol, b: Symbol :: a != s && b != s ==> v.cmp(a, b) == w.cmp(a, b))
  }

  /** An expression that does not contain a symbol does not see it change. */
  lemma {:induction false} UncontainedIrrelevant(e: Expr, s: Symbol, v: Valuation, w: Valuation)
    requires !ContainsSymbol(e, s) && AgreeExcept(v, w, s)
    ensures Value(e, v) == Value(e, w)
  {
    match e
    case And(l, r) =>
      UncontainedIrrelevant(l, s, v, w);
      UncontainedIrrelevant(r, s, v, w);
    case Or(l, r) =>
      UncontainedIrrelevant(l, s, v, w);
      UncontainedIrrelevant(r, s, v, w);
    case Not(a) => UncontainedIrrelevant(a, s, v, w);
    case _ =>
  }

  /** An "absolute" dependency on a bool or tristate symbol is off whenever the symbol is off. */
  lemma {:induction false} DependsMeansBounded(e: Expr, s: Symbol, v: Valuation)
    requires DependsSymbol(e, s) && s.HasTristateText() && Consistent(v) && v.tri(s) == NO
    ensures Value(e, v) == NO
    ensures ContainsSymbol(e, s)
  {
    if e.And? {
      if DependsSymbol(e.left, s) {
        DependsMeansBounded(e.left, s, v);
      } else {
        DependsMeansBounded(e.right, s, v);
      }
    }
  }

  // ----- expr_trans_compare(e, type, &symbol_no) -----

  /** `differs` is `type == E_UNEQUAL`. */
  function TransCompareNo(e: Expr, differs: bool): Expr {
    match e
    case And(l, r) =>
      var off := Or(TransCompareNo(l, false), TransCompareNo(r, false));
      if differs then Not(off) else off
    case Or(l, r) =>
      var off := And(TransCompareNo(l, false), TransCompareNo(r, false));
      if differs then Not(off) else off
    case Not(a) => TransCompareNo(a, !differs)
    case Compare(_, _, _) => if differs then e else Not(e)
    case Symb(s) => Compare(if differs then Unequal else Equal, s, SymNo)
  }

  /** The valuation in which every symbol that does not compare equal to n counts as y, so m counts as y. */
  function Collapse(v: Valuation): Valuation {
    Valuation((s: Symbol) => OfBool(v.cmp(s, SymNo) != 0), v.cmp)
  }

  /** No string, int or hex symbol stands alone. */
  predicate OverTristates(e: Expr) {
    match e
    case Symb(s) => s.HasTristateText()
    case Not(a) => OverTristates(a)
    case And(l, r) => OverTristates(l) && OverTristates(r)
    case Or(l, r) => OverTristates(l) && OverTristates(r)
    case Compare(_, _, _) => true
  }

  /** Exactly what the inserted comparisons compute: the expression over symbols collapsed to n and y. */
  lemma {:induction false} TransCompareCollapses(e: Expr, differs: bool, v: Valuation)
    ensures Value(TransCompareNo(e, differs), v)
         == if differs then Value(e, Collapse(v)) else 2 - Value(e, Collapse(v))
  {
    match e
    case And(l, r) =>
      TransCompareCollapses(l, false, v);
      TransCompareCollapses(r, false, v);
    case Or(l, r) =>
      TransCompareCollapses(l, false, v);
      TransCompareCollapses(r, false, v);
    case Not(a) => TransCompareCollapses(a, !differs, v);
    case _ =>
  }

  /** Every negated subexpression is n or y. */
  predicate NegatesTwoValued(e: Expr, v: Valuation) {
    match e
    case Not(a) => Value(a, v) != MOD && NegatesTwoValued(a, v)
    case And(l, r) => NegatesTwoValued(l, v) && NegatesTwoValued(r, v)
    case Or(l, r) => NegatesTwoValued(l, v) && NegatesTwoValued(r, v)
    case _ => true
  }

  /** Under that condition the collapsed value says whether the expression is not n. */
  lemma {:induction false} CollapseIsNotNo(e: Expr, v: Valuation)
    requires Consistent(v) && OverTristates(e) && NegatesTwoValued(e, v)
    ensures Value(e, Collapse(v)) == OfBool(Value(e, v) != NO)
  {
    match e
    case And(l, r) =>
      CollapseIsNotNo(l, v);
      CollapseIsNotNo(r, v);
    case Or(l, r) =>
      CollapseIsNotNo(l, v);
      CollapseIsNotNo(r, v);
    case Not(a) => CollapseIsNotNo(a, v);
    case _ =>
  }

  /** For a negated symbol the documented `!A -> A=n` meets "!A is not n" iff the symbol is not m. */
  lemma NegatedSymbolExact(s: Symbol, v: Valuation)
    requires Consistent(v) && s.HasTristateText()
    ensures Value(TransCompareNo(Not(Symb(s)), true), v) == OfBool(Value(Not(Symb(s)), v) != NO)
       <==> v.tri(s) != MOD
  {
    TransCompareCollapses(Not(Symb(s)), true, v);
  }

  // ----- the superset test -----

  /** If removing what is common leaves y of the second expression, the first is never above it. */
  lemma SupersetImpliesBelow(dep: Expr, base: Expr, v: Valuation)
    requires Consistent(v) && EliminateEq(dep, base).1 == Symb(SymYes)
    ensures Value(dep, v) <= Value(base, v)
  {
    var k := EliminateEqShareContext(dep, base, v);
    FillMonotone(k, Value(EliminateEq(dep, base).0, v), YES);
  }

  lemma FillMonotone(k: Context, x: Tristate, y: Tristate)
    requires x <= y
    ensures Fill(k, x) <= Fill(k, y)
  {
  }

  /**
   Exactly when the test finds a superset, for conjunctions of literals: every operand of the second occurs in the
   first as often, and one of the two is a && or the second is y. Two single literals are never compared.
   */
  lemma SupersetExact(dep: Expr, base: Expr)
    requires LiteralRegion(Conj, dep) && LiteralRegion(Conj, base)
    ensures EliminateEq(dep, base).1 == Symb(SymYes)
       <==> Operands(Conj, base) <= Operands(Conj, dep) && (dep.And? || base.And? || base == Symb(SymYes))
  {
    if dep.And? || base.And? {
      var r := EliminateEqLeaves(Conj, dep, base);
      CommonOperandsRemoved(Conj, dep, base);
      RegionCollapses(Conj, r.0);
      RegionCollapses(Conj, r.1);
      EliminateEqIsLeaves(dep, base);
      DifferenceEmpty(Operands(Conj, base), Operands(Conj, dep));
      EmptyRegion(Conj, r.1, EliminateYn(r.1));
    }
  }

  lemma EliminateEqIsLeaves(e1: Expr, e2: Expr)
    requires e1.And? || e2.And?
    requires LiteralRegion(Conj, e1) && LiteralRegion(Conj, e2)
    ensures var r := EliminateEqLeaves(Conj, e1, e2); EliminateEq(e1, e2) == (EliminateYn(r.0), EliminateYn(r.1))
  {
    hide EliminateEqLeaves;
    hide EliminateYn;
    hide LiteralRegion;
    hide Operands;
    NoOtherJunction(e1);
    NoOtherJunction(e2);
    CommonOperandsRemoved(Conj, e1, e2);
    NoOtherJunction(EliminateEqLeaves(Conj, e1, e2).1);
  }

  lemma NoOtherJunction(e: Expr)
    requires LiteralRegion(Conj, e)
    ensures !e.Or?
  {
  }

  lemma DifferenceEmpty(a: multiset<Expr>, b: multiset<Expr>)
    ensures a <= b <==> a - b == multiset{}
  {
    if a <= b {
      assert forall x :: (a - b)[x] == 0;
    } else {
      var x :| a[x] > b[x];
      assert (a - b)[x] > 0;
    }
  }

  lemma EmptyRegion(op: Junction, e: Expr, r: Expr)
    requires Collapsed(op, e, r)
    ensures r == Unit(op) <==> Operands(op, e) == multiset{}
  {
  }

  /** A symbol is not found to be a superset of itself. */
  lemma SingleLiteralMissed(a: Expr)
    requires IsLiteral(a)
    ensures EliminateEq(a, a).1 != Symb(SymYes) && Operands(Conj, a) <= Operands(Conj, a)
  {
    SupersetExact(a, a);
  }

  /** `expr_trans_compare(p, E_UNEQUAL, &symbol_no)`. */
  function ComparedToNo(p: ExprPtr): Expr {
    match p
    case Null => Not(Symb(SymNo))
    case Ptr(e) => TransCompareNo(e, true)
  }

  /** `r` has the value of the comparison and nothing in it joins. */
  ghost predicate Prepared(p: ExprPtr, r: Expr) {
    SameValue(r, ComparedToNo(p)) && Settled(r)
  }

  /** New nodes for an expression. */
  method Build(st: Store, e: Expr) returns (c: Cell, ghost t: Shape)
    modifies st`live
    ensures c == t.cell && Stores(t, e) && Separate(t) && fresh(Cells(t)) && st.live == old(st.live) + Cells(t)
    decreases e
  {
    match e {
      case Symb(_) =>
        c, t := AllocLiteral(st, e);
      case Compare(_, _, _) =>
        c, t := AllocLiteral(st, e);
      case Not(x) =>
        var l: Cell;
        ghost var a: Shape;
        l, a := Build(st, x);
        c := st.AllocNot(l);
        t := One(c, a);
      case _ =>
        c, t := BuildBoth(st, e);
    }
  }

  method BuildBoth(st: Store, e: Expr) returns (c: Cell, ghost t: Shape)
    requires e.IsJunction()
    modifies st`live
    ensures c == t.cell && Stores(t, e) && Separate(t) && fresh(Cells(t)) && st.live == old(st.live) + Cells(t)
    decreases e, 0
  {
    hide Stores;
    hide Separate;
    var l: Cell, r: Cell;
    ghost var a: Shape, b: Shape;
    l, a := Build(st, e.left);
    r, b := Build(st, e.right);
    c, t := AllocJunction(st, e.Op(), l, r, a, e.left, b, e.right);
  }

  /** `expr_alloc_two` */
  method AllocJunction(st: Store, op: Junction, l: Cell, r: Cell,
                       ghost a: Shape, ghost x: Expr, ghost b: Shape, ghost y: Expr)
    returns (c: Cell, ghost t: Shape)
    requires l == a.cell && r == b.cell && Stores(a, x) && Stores(b, y) && Separate(a) && Separate(b)
    requires Cells(a) !! Cells(b) && Cells(a) + Cells(b) <= st.live
    modifies st`live
    ensures fresh(c) && t == Two(c, a, b) && Stores(t, Join(op, x, y)) && Separate(t)
    ensures Cells(t) == {c} + Cells(a) + Cells(b) && st.live == old(st.live) + {c}
  {
    hide Stores;
    hide Separate;
    c := new Cell(KindOf(op), l, r, SymNo, SymNo);
    t := Two(c, a, b);
    Assembled(op, c, a, x, b, y);
    st.live := st.live + {c};
  }

  /** `expr_eliminate_dups(expr_transform(expr_trans_compare(p, E_UNEQUAL, &symbol_no)))`, in new nodes. */
  method Normalized(st: Store, p: ExprPtr) returns (c: Cell, ghost t: Shape, ghost r: Expr)
    modifies st
    ensures c == t.cell && Stores(t, r) && Separate(t) && fresh(Cells(t))
    ensures Prepared(p, r)
    ensures st.live == old(st.live) + Cells(t) && st.transCount == old(st.transCount)
  {
    hide Stores;
    hide Separate;
    hide Cells;
    hide Settled;
    ghost var x := ComparedToNo(p);
    c, t := Build(st, ComparedToNo(p));
    c, t := st.TransformInPlace(c, t, x);
    t, r := EliminateDups(st, c, t, Transform(x));
    forall v: Valuation | Consistent(v)
      ensures Value(Transform(x), v) == Value(x, v)
    {
      TransformPreservesValue(x, v);
    }
  }

  /** Comparing with n says whether `p` is not n. */
  ghost predicate Faithful(p: ExprPtr, v: Valuation) {
    ValueOf(p, Collapse(v)) == OfBool(ValueOf(p, v) != NO)
  }

  ghost predicate Producible(v: Valuation) {
    Consistent(v) && SeparatesConstants(v)
  }

  /** What the comparison of `p` with n computes, and so exactly when it is y iff `p` is not n. */
  lemma ComparedToNoExact(p: ExprPtr, v: Valuation)
    requires Consistent(v)
    ensures Value(ComparedToNo(p), v) == ValueOf(p, Collapse(v))
    ensures Value(ComparedToNo(p), v) == OfBool(ValueOf(p, v) != NO) <==> Faithful(p, v)
    ensures p.Ptr? && OverTristates(p.expr) && NegatesTwoValued(p.expr, v) ==> Faithful(p, v)
  {
    if p.Ptr? {
      TransCompareCollapses(p.expr, true, v);
      if OverTristates(p.expr) && NegatesTwoValued(p.expr, v) {
        CollapseIsNotNo(p.expr, v);
      }
    }
  }

  /** Where the comparisons are faithful, an entry that passed the test is off whenever the base dependency is. */
  lemma SupersetTransfers(dep: ExprPtr, base: ExprPtr, v: Valuation)
    requires ValueOf(dep, Collapse(v)) <= ValueOf(base, Collapse(v))
    requires Faithful(dep, v) && Faithful(base, v)
    ensures ValueOf(dep, v) != NO ==> ValueOf(base, v) != NO
  {
  }

  /**
   Elsewhere it need not be: `!s && !a` passes the test for an entry with dependency `a=n`, because both negated symbols
   are compared with n, but when `a` is m and `s` is n the first is m and the second n.
   */
  lemma NegatedTristateNested(s: Symbol, a: Symbol) returns (dep: Expr, base: Expr, v: Valuation)
    requires s.Type() == TristateType && a.Type() == TristateType && s != a
    ensures dep == And(Not(Symb(s)), Not(Symb(a))) && base == Compare(Equal, a, SymNo)
    ensures ContainsSymbol(dep, s) && !DependsSymbol(dep, s)
    ensures EliminateEq(Transform(ComparedToNo(Ptr(dep))), Transform(ComparedToNo(Ptr(base)))).1 == Symb(SymYes)
    ensures Producible(v) && Value(dep, v) == MOD && Value(base, v) == NO
    ensures !Faithful(Ptr(dep), v) && Faithful(Ptr(base), v)
  {
    dep, base, v := And(Not(Symb(s)), Not(Symb(a))), Compare(Equal, a, SymNo), Only(a, MOD);
    NegatedTristateValues(s, a);
    NegatedTristateTest(s, a);
  }

  lemma NegatedTristateValues(s: Symbol, a: Symbol)
    requires s.Type() == TristateType && a.Type() == TristateType && s != a
    ensures var dep, base, v := And(Not(Symb(s)), Not(Symb(a))), Compare(Equal, a, SymNo), Only(a, MOD);
            && Producible(v) && Value(dep, v) == MOD && Value(base, v) == NO
            && Value(dep, Collapse(v)) == NO && Value(base, Collapse(v)) == NO
  {
    var v := Only(a, MOD);
    OnlyIsProducible(a, MOD);
    assert IsTriple(SymNo) && TriOf(SymNo, a, MOD) == NO;
    assert v.cmp(a, SymNo) != 0 && v.tri(a) == MOD && v.tri(s) == NO;
    var c := Collapse(v);
    assert c.tri(a) == YES && c.cmp(a, SymNo) != 0;
    assert Value(Symb(a), c) == YES && Value(Symb(a), v) == MOD && Value(Symb(s), v) == NO;
    assert Value(Not(Symb(a)), c) == NO && Value(Not(Symb(a)), v) == MOD && Value(Not(Symb(s)), v) == YES;
  }

  lemma NegatedTristateTest(s: Symbol, a: Symbol)
    requires s.Type() == TristateType && a.Type() == TristateType && s != a
    ensures var dep, base := And(Not(Symb(s)), Not(Symb(a))), Compare(Equal, a, SymNo);
            EliminateEq(Transform(ComparedToNo(Ptr(dep))), Transform(ComparedToNo(Ptr(base)))).1 == Symb(SymYes)
  {
    hide EliminateEq;
    var dep := And(Not(Symb(s)), Not(Symb(a)));
    var p, q := Compare(Unequal, s, SymNo), Compare(Unequal, a, SymNo);
    var x, y := Compare(Equal, s, SymNo), Compare(Equal, a, SymNo);
    assert TransCompareNo(Symb(s), true) == p && TransCompareNo(Symb(a), true) == q;
    assert TransCompareNo(Not(Symb(s)), false) == p;
    assert TransCompareNo(Not(Symb(a)), false) == q;
    assert ComparedToNo(Ptr(dep)) == Not(Or(p, q));
    assert Transform(Or(p, q)) == Or(p, q);
    assert Transform(Not(p)) == x && Transform(Not(q)) == y;
    assert Transform(And(Not(p), Not(q))) == And(x, y);
    assert Operands(Conj, And(x, y)) == multiset{x, y} && Operands(Conj, y) == multiset{y};
    SupersetExact(And(x, y), y);
  }

  /** The superset test on prepared expressions: the first is used up, the second is kept. */
  method IsSuperset(st: Store, c1: Cell, c2: Cell, ghost t1: Shape, ghost e1: Expr, ghost t2: Shape, ghost e2: Expr)
    returns (superset: bool)
    requires c1 == t1.cell && c2 == t2.cell && Pair(t1, e1, t2, e2) && Cells(t1) + Cells(t2) <= st.live
    modifies st, Cells(t1)
    ensures superset <==> EliminateEq(e1, e2).1 == Symb(SymYes)
    ensures st.live == old(st.live) - Cells(t1)
  {
    hide Stores;
    hide Separate;
    hide Cells;
    hide EliminateEq;
    ghost var r := EliminateEq(e1, e2);
    ghost var u1: Shape, u2: Shape;
    var d1: Cell, d2: Cell;
    d2, u2 := st.Copy(c2, t2, e2);
    d1, d2, u1, u2 := st.EliminateEqInPlace(c1, d2, t1, e1, u2, e2);
    st.FreeAll(d1, u1, r.0);
    KindTells(u2, r.1);
    superset := d2.kind == KSymbol && d2.sym == SymYes;
    st.FreeAll(d2, u2, r.1);
  }

  /** The test by which `menu_finalize` puts an entry with dependencies `dep` under `sym`;
   nothing it allocates stays. */
  method BelongsUnder(st: Store, dep: ExprPtr, base: ExprPtr, sym: Symbol)
    returns (nested: bool, ghost d: Expr, ghost b: Expr)
    requires sym.HasTristateText()
    modifies st
    ensures st.live == old(st.live)
    ensures Prepared(base, b)
    ensures dep.Ptr? && ContainsSymbol(dep.expr, sym) && !DependsSymbol(dep.expr, sym) ==> Prepared(dep, d)
    ensures nested <==> dep.Ptr? && ContainsSymbol(dep.expr, sym) &&
                        (DependsSymbol(dep.expr, sym) || EliminateEq(d, b).1 == Symb(SymYes))
    ensures dep.Ptr? && DependsSymbol(dep.expr, sym) ==> nested
    ensures nested && DependsSymbol(dep.expr, sym) ==>
              forall v: Valuation :: Producible(v) && ValueOf(dep, v) != NO ==> v.tri(sym) != NO
    ensures nested && !DependsSymbol(dep.expr, sym) ==>
              forall v: Valuation :: Producible(v) ==> ValueOf(dep, Collapse(v)) <= ValueOf(base, Collapse(v))
  {
    hide Stores;
    hide Separate;
    hide Cells;
    hide EliminateEq;
    hide Settled;
    hide ContainsSymbol;
    hide DependsSymbol;
    var c2: Cell;
    ghost var t2: Shape;
    c2, t2, b := Normalized(st, base);
    d := Symb(SymYes);
    if dep.Ptr? {
      TestMeaning(dep.expr, sym);
    }
    if dep.Null? || !ContainsSymbol(dep.expr, sym) {
      nested := false;
    } else if DependsSymbol(dep.expr, sym) {
      nested := true;
    } else {
      var c1: Cell;
      ghost var t1: Shape;
      c1, t1, d := Normalized(st, dep);
      nested := IsSuperset(st, c1, c2, t1, d, t2, b);
      if nested {
        SupersetMeaning(dep, base, d, b);
      }
    }
    st.FreeAll(c2, t2, b);
  }

  lemma TestMeaning(e: Expr, s: Symbol)
    requires s.HasTristateText()
    ensures DependsSymbol(e, s) ==> ContainsSymbol(e, s)
    ensures DependsSymbol(e, s) ==> forall v: Valuation :: Producible(v) && Value(e, v) != NO ==> v.tri(s) != NO
  {
    if DependsSymbol(e, s) {
      DependsContains(e, s);
      forall v: Valuation | Producible(v) && v.tri(s) == NO
        ensures Value(e, v) == NO
      {
        DependsMeansBounded(e, s, v);
      }
    }
  }

  lemma SupersetMeaning(dep: ExprPtr, base: ExprPtr, d: Expr, b: Expr)
    requires Prepared(dep, d) && Prepared(base, b) && EliminateEq(d, b).1 == Symb(SymYes)
    ensures forall v: Valuation :: Producible(v) ==> ValueOf(dep, Collapse(v)) <= ValueOf(base, Collapse(v))
  {
    hide EliminateEq;
    forall v: Valuation | Producible(v)
      ensures ValueOf(dep, Collapse(v)) <= ValueOf(base, Collapse(v))
    {
      SupersetImpliesBelow(d, b, v);
      ComparedToNoExact(dep, v);
      ComparedToNoExact(base, v);
    }
  }

  // ----- passing dependencies down -----

  /** `rewrite_m`: m holds only as far as modules are enabled. */
  function RewriteM(e: Expr, modules: Symbol): Expr {
    match e
    case Not(a) => Not(RewriteM(a, modules))
    case And(l, r) => And(RewriteM(l, modules), RewriteM(r, modules))
    case Or(l, r) => Or(RewriteM(l, modules), RewriteM(r, modules))
    case Symb(s) => if s == SymMod then And(e, Symb(modules)) else e
    case Compare(_, _, _) => e
  }

  function TriWithM(v: Valuation, x: Tristate, s: Symbol): Tristate {
    if s == SymMod then x else v.tri(s)
  }

  function WithM(v: Valuation, x: Tristate): Valuation {
    Valuation((s: Symbol) => TriWithM(v, x, s), v.cmp)
  }

  lemma {:induction false} RewriteMLimitsM(e: Expr, modules: Symbol, v: Valuation)
    requires Consistent(v)
    ensures Value(RewriteM(e, modules), v) == Value(e, WithM(v, Min(MOD, v.tri(modules))))
  {
    match e
    case Not(a) => RewriteMLimitsM(a, modules, v);
    case And(l, r) =>
      RewriteMLimitsM(l, modules, v);
      RewriteMLimitsM(r, modules, v);
    case Or(l, r) =>
      RewriteMLimitsM(l, modules, v);
      RewriteMLimitsM(r, modules, v);
    case _ =>
  }

  /** `expr_alloc_and`. */
  function AllocAnd(p: ExprPtr, q: ExprPtr): ExprPtr {
    if p.Null? then q else if q.Null? then p else Ptr(And(p.expr, q.expr))
  }

  /** An entry's dependency once `menu_finalize` has passed `parent` down to it. */
  ghost predicate PassedDown(parent: ExprPtr, dep: ExprPtr, modules: Symbol, r: ExprPtr) {
    forall v: Valuation :: Producible(v) ==>
      ValueOf(r, v) == Min(ValueOf(parent, v), ValueOf(dep, WithM(v, Min(MOD, v.tri(modules)))))
  }

  /** The loop body of `menu_finalize` that combines a dependency with that of the parent, in new nodes. */
  method PassDown(st: Store, parent: ExprPtr, dep: ExprPtr, modules: Symbol)
    returns (c: Cell?, ghost t: Option<Shape>, ghost r: ExprPtr)
    modifies st
    ensures PassedDown(parent, dep, modules, r)
    ensures r.Null? <==> parent.Null? && dep.Null?
    ensures c == null <==> r.Null?
    ensures r.Ptr? ==> t.Some? && c == t.value.cell && Stores(t.value, r.expr)
    ensures r.Ptr? ==> Separate(t.value) && fresh(Cells(t.value))
    ensures r.Ptr? ==> Settled(r.expr)
    ensures r.Ptr? ==> st.live == old(st.live) + Cells(t.value)
    ensures r.Null? ==> st.live == old(st.live)
  {
    hide Stores;
    hide Separate;
    hide Cells;
    hide Settled;
    c, t, r := Combined(st, parent, dep, modules);
    CombinedMeaning(parent, dep, modules);
    if c != null {
      ghost var x := r.expr;
      ghost var f: Expr;
      ghost var u: Shape;
      u, f := EliminateDups(st, c, t.value, x);
      t, r := Some(u), Ptr(f);
    }
  }

  /** The conjunction before `expr_eliminate_dups`. */
  ghost function CombinedExpr(parent: ExprPtr, dep: ExprPtr, modules: Symbol): ExprPtr {
    AllocAnd(parent, if dep.Null? then Null else Ptr(Transform(RewriteM(dep.expr, modules))))
  }

  lemma CombinedMeaning(parent: ExprPtr, dep: ExprPtr, modules: Symbol)
    ensures PassedDown(parent, dep, modules, CombinedExpr(parent, dep, modules))
  {
    forall v: Valuation | Producible(v)
      ensures ValueOf(CombinedExpr(parent, dep, modules), v)
           == Min(ValueOf(parent, v), ValueOf(dep, WithM(v, Min(MOD, v.tri(modules)))))
    {
      if dep.Ptr? {
        TransformPreservesValue(RewriteM(dep.expr, modules), v);
        RewriteMLimitsM(dep.expr, modules, v);
      }
    }
  }

  method Combined(st: Store, parent: ExprPtr, dep: ExprPtr, modules: Symbol)
    returns (c: Cell?, ghost t: Option<Shape>, ghost r: ExprPtr)
    modifies st
    ensures r == CombinedExpr(parent, dep, modules) && (c == null <==> r.Null?)
    ensures r.Ptr? ==> t.Some? && c == t.value.cell && Stores(t.value, r.expr)
    ensures r.Ptr? ==> Separate(t.value) && fresh(Cells(t.value))
    ensures st.live == if r.Ptr? then old(st.live) + Cells(t.value) else old(st.live)
  {
    hide Stores;
    hide Separate;
    hide Cells;
    hide Transform;
    r := CombinedExpr(parent, dep, modules);
    c, t := null, None;
    var own: Cell?;
    ghost var a: Shape, b: Shape;
    if dep.Ptr? {
      own, b := Build(st, RewriteM(dep.expr, modules));
      own, b := st.TransformInPlace(own, b, RewriteM(dep.expr, modules));
      c, t := own, Some(b);
    }
    if parent.Ptr? {
      var copied: Cell;
      copied, a := Build(st, parent.expr);
      c, t := copied, Some(a);
      if dep.Ptr? {
        ghost var both: Shape;
        c, both := AllocJunction(st, Conj, copied, own, a, parent.expr, b, Transform(RewriteM(dep.expr, modules)));
        t := Some(both);
      }
    }
  }

  lemma {:induction false} DependsContains(e: Expr, s: Symbol)
    requires DependsSymbol(e, s)
    ensures ContainsSymbol(e, s)
  {
    if e.And? {
      if DependsSymbol(e.left, s) {
        DependsContains(e.left, s);
      } else {
        DependsContains(e.right, s);
      }
    }
  }
}
