/**
 `expr_join_or` and `expr_join_and`: when two operands of a || or && are together equivalent to one
 expression, that expression.
 */
module ExprJoin {
  import opened TristateExpr
  import opened ExprEquality

  /** The first part of both functions: only literals over one bool or tristate symbol go further. */
  function JoinedSymbol(e1: Expr, e2: Expr): (r: ExprPtr)
    ensures r.Ptr? ==> r.expr.Symb?
  {
    if !(IsAtom(e1) || e1.Not?) || !(IsAtom(e2) || e2.Not?) then Null
    else if e1.Not? && !IsAtom(e1.arg) then Null
    else if e2.Not? && !e2.arg.Symb? then Null
    else
      var sym1 := AtomSymbol(if e1.Not? then e1.arg else e1);
      var sym2 := AtomSymbol(if e2.Not? then e2.arg else e2);
      if sym1 != sym2 || (sym1.Type() != Boolean && sym1.Type() != TristateType) then Null
      else Ptr(Symb(sym1))
  }

  predicate IsAtom(e: Expr) {
    e.Symb? || (e.Compare? && (e.rel == Equal || e.rel == Unequal))
  }

  function AtomSymbol(e: Expr): Symbol
    requires IsAtom(e)
  {
    if e.Symb? then e.sym else e.lhs
  }

  predicate Tests(e: Expr, rel: Relation, c: Symbol) {
    e.Compare? && e.rel == rel && e.rhs == c
  }

  /** `e1` and `e2` are, in either order, the tests `rel b` and `rel c`. */
  predicate EitherWay(e1: Expr, e2: Expr, rel: Relation, b: Symbol, c: Symbol) {
    (Tests(e1, rel, b) && Tests(e2, rel, c)) || (Tests(e1, rel, c) && Tests(e2, rel, b))
  }

  predicate SymbolAndTest(e1: Expr, e2: Expr, rel: Relation, c: Symbol) {
    (e1.Symb? && Tests(e2, rel, c)) || (e2.Symb? && Tests(e1, rel, c))
  }

  function JoinOr(e1: Expr, e2: Expr): ExprPtr {
    if ExprEq(e1, e2) then Ptr(e1)
    else
      var j := JoinedSymbol(e1, e2);
      if j.Null? then Null
      else
        var sym := j.expr.sym;
        if sym.Type() == TristateType && EitherWay(e1, e2, Equal, SymYes, SymMod) then
          Ptr(Compare(Unequal, sym, SymNo))
        else if sym.Type() == TristateType && EitherWay(e1, e2, Equal, SymYes, SymNo) then
          Ptr(Compare(Unequal, sym, SymMod))
        else if sym.Type() == TristateType && EitherWay(e1, e2, Equal, SymMod, SymNo) then
          Ptr(Compare(Unequal, sym, SymYes))
        else if sym.Type() == Boolean &&
                ((e1.Not? && e1.arg.Symb? && e2.Symb?) || (e2.Not? && e2.arg.Symb? && e1.Symb?)) then
          Ptr(Symb(SymYes))
        else Null
  }

  function JoinAnd(e1: Expr, e2: Expr): ExprPtr {
    if ExprEq(e1, e2) then Ptr(e1)
    else
      var j := JoinedSymbol(e1, e2);
      if j.Null? then Null
      else
        var sym := j.expr.sym;
        if SymbolAndTest(e1, e2, Equal, SymYes) then Ptr(Compare(Equal, sym, SymYes))
        else if SymbolAndTest(e1, e2, Unequal, SymNo) then Ptr(Symb(sym))
        else if SymbolAndTest(e1, e2, Unequal, SymMod) then Ptr(Compare(Equal, sym, SymYes))
        else if sym.Type() != TristateType then Null
        else if e1.Compare? && e1.rel == Equal && e2.Compare? && e2.rel == Unequal
                && e2.rhs.IsConst() && e1.rhs.IsConst() then
          Ptr(if e1.rhs != e2.rhs then Compare(Equal, sym, e1.rhs) else Symb(SymNo))
        else if e1.Compare? && e1.rel == Unequal && e2.Compare? && e2.rel == Equal
                && e1.rhs.IsConst() && e2.rhs.IsConst() then
          Ptr(if e2.rhs != e1.rhs then Compare(Equal, sym, e2.rhs) else Symb(SymNo))
        else if EitherWay(e1, e2, Unequal, SymYes, SymNo) then Ptr(Compare(Equal, sym, SymMod))
        else if EitherWay(e1, e2, Unequal, SymYes, SymMod) then Ptr(Compare(Equal, sym, SymNo))
        else if EitherWay(e1, e2, Unequal, SymMod, SymNo) then Ptr(Compare(Equal, sym, SymYes))
        else Null
  }

  function JoinWith(op: Junction, e1: Expr, e2: Expr): ExprPtr {
    if op == Conj then JoinAnd(e1, e2) else JoinOr(e1, e2)
  }

  lemma JoinOrSound(e1: Expr, e2: Expr, v: Valuation)
    requires Consistent(v) && JoinOr(e1, e2).Ptr?
    ensures Value(JoinOr(e1, e2).expr, v) == Max(Value(e1, v), Value(e2, v))
  {
    if ExprEq(e1, e2) {
      ExprEqSound(e1, e2, v);
    } else {
      var s := JoinedSymbol(e1, e2).expr.sym;
      assert s.HasTristateText();
    }
  }

  /** No tristate symbol compares equal to two different constants. */
  ghost predicate SeparatesConstants(v: Valuation) {
    forall s: Symbol, b: Symbol, c: Symbol ::
      s.Type() == TristateType && b.IsConst() && c.IsConst() && v.cmp(s, b) == 0 && v.cmp(s, c) == 0 ==> b == c
  }

  lemma JoinAndSound(e1: Expr, e2: Expr, v: Valuation)
    requires Consistent(v) && SeparatesConstants(v) && JoinAnd(e1, e2).Ptr?
    ensures Value(JoinAnd(e1, e2).expr, v) == Min(Value(e1, v), Value(e2, v))
  {
    if ExprEq(e1, e2) {
      ExprEqSound(e1, e2, v);
    } else {
      var s := JoinedSymbol(e1, e2).expr.sym;
      assert s.HasTristateText();
    }
  }

  /** `expr_join_and` keeps the value of every pair exactly under the valuations that separate constants. */
  lemma JoinAndExact(v: Valuation)
    requires Consistent(v)
    ensures SeparatesConstants(v) <==>
            forall e1: Expr, e2: Expr :: JoinAnd(e1, e2).Ptr? ==>
              Value(JoinAnd(e1, e2).expr, v) == Min(Value(e1, v), Value(e2, v))
  {
    if SeparatesConstants(v) {
      forall e1: Expr, e2: Expr | JoinAnd(e1, e2).Ptr?
        ensures Value(JoinAnd(e1, e2).expr, v) == Min(Value(e1, v), Value(e2, v))
      {
        JoinAndSound(e1, e2, v);
      }
    } else {
      var s: Symbol, b: Symbol, c: Symbol :|
        s.Type() == TristateType && b.IsConst() && c.IsConst() && v.cmp(s, b) == 0 && v.cmp(s, c) == 0 && b != c;
      var e1, e2 := Compare(Equal, s, b), Compare(Unequal, s, c);
      assert JoinAnd(e1, e2) == Ptr(e1);
      assert Value(e1, v) == YES && Value(e2, v) == NO;
    }
  }

  // ----- which pairs join -----

  predicate IsTriple(c: Symbol) {
    c == SymYes || c == SymMod || c == SymNo
  }

  /** The symbol itself, or a test of it for = or != against n, m or y. */
  predicate IsTestOf(e: Expr, s: Symbol) {
    || e == Symb(s)
    || (e.Compare? && (e.rel == Equal || e.rel == Unequal) && e.lhs == s && IsTriple(e.rhs))
  }

  /** `f` is `e1 op e2` under every valuation the kconfig core can produce. */
  ghost predicate Represents(f: Expr, op: Junction, e1: Expr, e2: Expr) {
    forall v: Valuation :: Consistent(v) && SeparatesConstants(v) ==>
      Value(f, v) == Apply(op, Value(e1, v), Value(e2, v))
  }

  function TriOf(t: Symbol, s: Symbol, x: Tristate): Tristate {
    if t == s then x else if t == SymYes then YES else if t == SymMod then MOD else NO
  }

  /** `s` is `x`, every other symbol is n. */
  function Only(s: Symbol, x: Tristate): Valuation {
    Valuation((t: Symbol) => TriOf(t, s, x),
              (a: Symbol, b: Symbol) => if IsTriple(b) then TriOf(a, s, x) - TriOf(b, s, x) else 1)
  }

  /** Every value of a symbol occurs in some valuation, so the theorems over valuations speak of something. */
  lemma OnlyIsProducible(s: Symbol, x: Tristate)
    requires s.Sym? && (s.Type() == Boolean ==> x != MOD)
    ensures Consistent(Only(s, x)) && SeparatesConstants(Only(s, x)) && Only(s, x).tri(s) == x
    ensures forall c :: IsTriple(c) ==> (Only(s, x).cmp(s, c) == 0 <==> x == TriOf(c, s, x))
  {
  }

  /** What the values of `s` are sent to by a test of it. */
  lemma TestValues(e: Expr, s: Symbol, x: Tristate)
    requires s.Type() == TristateType && IsTestOf(e, s)
    ensures var w := Value(e, Only(s, x));
            && (e.Symb? ==> w == x)
            && (e.Compare? ==> (w == YES || w == NO) && (w == YES <==> ((x == TriOf(e.rhs, s, x)) == (e.rel == Equal))))
  {
    OnlyIsProducible(s, x);
  }

  /** The conjunction of two tests of a tristate symbol is joined whenever a test of it says the same. */
  lemma JoinAndComplete(e1: Expr, e2: Expr, f: Expr, s: Symbol)
    requires s.Type() == TristateType && IsTestOf(e1, s) && IsTestOf(e2, s) && IsTestOf(f, s)
    requires Represents(f, Conj, e1, e2)
    ensures JoinAnd(e1, e2).Ptr? && Represents(JoinAnd(e1, e2).expr, Conj, e1, e2)
  {
    forall x: Tristate
      ensures Value(f, Only(s, x)) == Min(Value(e1, Only(s, x)), Value(e2, Only(s, x)))
    {
      OnlyIsProducible(s, x);
    }
    JoinableBySamples(e1, e2, f, s);
    forall v: Valuation | Consistent(v) && SeparatesConstants(v)
      ensures Value(JoinAnd(e1, e2).expr, v) == Min(Value(e1, v), Value(e2, v))
    {
      JoinAndSound(e1, e2, v);
    }
  }

  lemma JoinableBySamples(e1: Expr, e2: Expr, f: Expr, s: Symbol)
    requires s.Type() == TristateType && IsTestOf(e1, s) && IsTestOf(e2, s) && IsTestOf(f, s)
    requires forall x: Tristate :: Value(f, Only(s, x)) == Min(Value(e1, Only(s, x)), Value(e2, Only(s, x)))
    ensures JoinAnd(e1, e2).Ptr?
  {
    hide Value;
    hide Only;
    var v0, v1, v2 := Only(s, NO), Only(s, MOD), Only(s, YES);
    TestValues(e1, s, NO);
    TestValues(e1, s, MOD);
    TestValues(e1, s, YES);
    TestValues(e2, s, NO);
    TestValues(e2, s, MOD);
    TestValues(e2, s, YES);
    TestValues(f, s, NO);
    TestValues(f, s, MOD);
    TestValues(f, s, YES);
    assert Value(f, v0) == Min(Value(e1, v0), Value(e2, v0));
    assert Value(f, v1) == Min(Value(e1, v1), Value(e2, v1));
    assert Value(f, v2) == Min(Value(e1, v2), Value(e2, v2));
  }

  /** A disjunction of different tests of one symbol is joined exactly if both test for equality. */
  lemma JoinOrOfTests(e1: Expr, e2: Expr, s: Symbol)
    requires s.Type() == TristateType && IsTestOf(e1, s) && IsTestOf(e2, s) && e1 != e2
    ensures JoinOr(e1, e2).Ptr? <==> e1.Compare? && e1.rel == Equal && e2.Compare? && e2.rel == Equal
  {
  }

  /** So a disjunction may stay although one of its operands says the same. */
  lemma JoinOrIncomplete(s: Symbol)
    requires s.Type() == TristateType
    ensures var e1, e2 := Symb(s), Compare(Equal, s, SymYes);
            JoinOr(e1, e2).Null? && Represents(e1, Disj, e1, e2)
  {
  }

  /** Equal operands always join, whatever they are about, to one of them. */
  lemma JoinEqual(op: Junction, e1: Expr, e2: Expr)
    requires ExprEq(e1, e2)
    ensures JoinWith(op, e1, e2) == Ptr(e1)
  {
  }

  lemma UnjoinedDiffer(op: Junction, e1: Expr, e2: Expr)
    requires JoinWith(op, e1, e2).Null?
    ensures !ExprEq(e1, e2)
  {
  }

  /** In a conjunction about a bool exactly the symbol and a test that it is y, not n or not m join. */
  lemma JoinAndOfBool(e1: Expr, e2: Expr, s: Symbol)
    requires s.Type() == Boolean && (IsTestOf(e1, s) || e1 == Not(Symb(s))) && (IsTestOf(e2, s) || e2 == Not(Symb(s)))
    requires e1 != e2
    ensures JoinAnd(e1, e2).Ptr? <==> (e1 == Symb(s) && ImpliesBool(e2, s)) || (ImpliesBool(e1, s) && e2 == Symb(s))
  {
  }

  predicate ImpliesBool(e: Expr, s: Symbol) {
    e in {Compare(Equal, s, SymYes), Compare(Unequal, s, SymNo), Compare(Unequal, s, SymMod)}
  }

  /** Exactly a bool and its negation join to y. */
  lemma JoinOrOfBool(e1: Expr, e2: Expr, s: Symbol)
    requires s.Type() == Boolean && (IsTestOf(e1, s) || e1 == Not(Symb(s))) && (IsTestOf(e2, s) || e2 == Not(Symb(s)))
    requires e1 != e2
    ensures JoinOr(e1, e2).Ptr? <==> (e1 == Symb(s) && e2 == Not(Symb(s))) || (e1 == Not(Symb(s)) && e2 == Symb(s))
  {
  }

  function CmpAlso(s: Symbol, two: Symbol, a: Symbol, b: Symbol): int {
    if a == s && b == two then 0 else Only(s, YES).cmp(a, b)
  }

  /**
   The condition can fail: constants are compared by number, so a tristate that is y equals the constant 2 as well, and
   joining `s=y && s!=2` to `s=y` makes y of n.
   */
  lemma NumericConstant(s: Symbol, two: Symbol) returns (v: Valuation, e1: Expr, e2: Expr)
    requires s.Type() == TristateType && two.Sym? && two.IsConst() && two != s
    ensures Consistent(v) && !SeparatesConstants(v) && v.tri(s) == YES
    ensures e1 == Compare(Equal, s, SymYes) && e2 == Compare(Unequal, s, two) && JoinAnd(e1, e2) == Ptr(e1)
    ensures Value(e1, v) == YES && Min(Value(e1, v), Value(e2, v)) == NO
  {
    OnlyIsProducible(s, YES);
    v := Only(s, YES).(cmp := (a: Symbol, b: Symbol) => CmpAlso(s, two, a, b));
    e1, e2 := Compare(Equal, s, SymYes), Compare(Unequal, s, two);
    assert v.cmp(s, two) == 0 && v.cmp(s, SymYes) == 0;
  }

  lemma JoinWithSound(op: Junction, e1: Expr, e2: Expr, v: Valuation)
    requires Consistent(v) && SeparatesConstants(v) && JoinWith(op, e1, e2).Ptr?
    ensures Value(JoinWith(op, e1, e2).expr, v) == Apply(op, Value(e1, v), Value(e2, v))
  {
    if op == Conj {
      JoinAndSound(e1, e2, v);
    } else {
      JoinOrSound(e1, e2, v);
    }
  }

  /** Joining never grows the pair: the unit that replaces the first operand has size 1. */
  lemma JoinWithShrinks(op: Junction, e1: Expr, e2: Expr)
    requires JoinWith(op, e1, e2).Ptr?
    ensures Size(JoinWith(op, e1, e2).expr) <= Size(e1)
  {
  }
}
