/**
 `expr_eliminate_yn`, `expr_eliminate_eq` and `expr_eq`: constant elimination, removal of operands
 common to two expressions, and the structural equality test built from them.
 */
module ExprEquality {
  import opened TristateExpr

  // ----- expr_eliminate_yn -----

  /** Removes y and n operands below && and ||, bottom up; other nodes stop the descent. */
  function EliminateYn(e: Expr): (r: Expr)
    ensures Size(r) <= Size(e)
  {
    match e
    case And(l, r) =>
      var l', r' := EliminateYn(l), EliminateYn(r);
      if l' == Symb(SymNo) then Symb(SymNo)
      else if l' == Symb(SymYes) then r'
      else if r' == Symb(SymNo) then Symb(SymNo)
      else if r' == Symb(SymYes) then l'
      else And(l', r')
    case Or(l, r) =>
      var l', r' := EliminateYn(l), EliminateYn(r);
      if l' == Symb(SymNo) then r'
      else if l' == Symb(SymYes) then Symb(SymYes)
      else if r' == Symb(SymNo) then l'
      else if r' == Symb(SymYes) then Symb(SymYes)
      else Or(l', r')
    case _ => e
  }

  predicate IsYesNo(e: Expr) {
    e == Symb(SymYes) || e == Symb(SymNo)
  }

  /** Some && or || in the part the walk reaches has y or n as a direct operand. */
  predicate HasConstantOperand(e: Expr) {
    e.IsJunction() &&
    (IsYesNo(e.left) || IsYesNo(e.right) || HasConstantOperand(e.left) || HasConstantOperand(e.right))
  }

  lemma {:induction false} EliminateYnPreservesValue(e: Expr, v: Valuation)
    requires v.tri(SymYes) == YES && v.tri(SymNo) == NO
    ensures Value(EliminateYn(e), v) == Value(e, v)
  {
    if e.IsJunction() {
      EliminateYnPreservesValue(e.left, v);
      EliminateYnPreservesValue(e.right, v);
    }
  }

  lemma {:induction false} EliminateYnRemovesConstants(e: Expr)
    ensures !HasConstantOperand(EliminateYn(e))
    ensures HasConstantOperand(e) ==> Size(EliminateYn(e)) < Size(e)
    ensures !HasConstantOperand(e) ==> EliminateYn(e) == e
  {
    if e.IsJunction() {
      EliminateYnRemovesConstants(e.left);
      EliminateYnRemovesConstants(e.right);
    }
  }

  // ----- expr_eliminate_eq and expr_eq -----

  /** `expr_eq` on two non-NULL expressions. */
  function ExprEq(e1: Expr, e2: Expr): bool
    decreases Size(e1) + Size(e2), 2
  {
    match (e1, e2)
    case (Compare(r1, a1, b1), Compare(r2, a2, b2)) => r1 == r2 && a1 == a2 && b1 == b2
    case (Symb(s1), Symb(s2)) => s1 == s2
    case (Not(a1), Not(a2)) => ExprEq(a1, a2)
    case (And(_, _), And(_, _)) =>
      var (f1, f2) := EliminateEq(e1, e2);
      f1.Symb? && f2.Symb? && f1.sym == f2.sym
    case (Or(_, _), Or(_, _)) =>
      var (f1, f2) := EliminateEq(e1, e2);
      f1.Symb? && f2.Symb? && f1.sym == f2.sym
    case _ => false
  }

  /** `__expr_eliminate_eq`: every pair of equal leaves of the two `op` regions becomes a pair of units. */
  function EliminateEqLeaves(op: Junction, e1: Expr, e2: Expr): (r: (Expr, Expr))
    ensures Size(r.0) <= Size(e1) && Size(r.1) <= Size(e2)
    ensures e1.Is(op) ==> r.0.Is(op)
    ensures e2.Is(op) ==> r.1.Is(op)
    decreases Size(e1) + Size(e2), if e1.Is(op) || e2.Is(op) then 0 else 3
  {
    if e1.Is(op) then
      var (l, f2) := EliminateEqLeaves(op, e1.left, e2);
      var (r, g2) := EliminateEqLeaves(op, e1.right, f2);
      (Join(op, l, r), g2)
    else if e2.Is(op) then
      var (f1, l) := EliminateEqLeaves(op, e1, e2.left);
      var (g1, r) := EliminateEqLeaves(op, f1, e2.right);
      (g1, Join(op, l, r))
    else if e1 == e2 && IsYesNo(e1) then
      (e1, e2)
    else if !ExprEq(e1, e2) then
      (e1, e2)
    else
      (Unit(op), Unit(op))
  }

  /** `expr_eliminate_eq` on two non-NULL expressions. */
  function EliminateEq(e1: Expr, e2: Expr): (r: (Expr, Expr))
    ensures Size(r.0) <= Size(e1) && Size(r.1) <= Size(e2)
    decreases Size(e1) + Size(e2), 1
  {
    var (f1, f2) := if e1.IsJunction() then EliminateEqLeaves(e1.Op(), e1, e2) else (e1, e2);
    var (g1, g2) :=
      if f2.IsJunction() && !(f1.IsJunction() && f1.Op() == f2.Op())
      then EliminateEqLeaves(f2.Op(), f1, f2) else (f1, f2);
    (EliminateYn(g1), EliminateYn(g2))
  }

  lemma LeavesCompared(op: Junction, e1: Expr, e2: Expr)
    requires !e1.Is(op) && !e2.Is(op)
    ensures EliminateEqLeaves(op, e1, e2)
         == if (e1 == e2 && IsYesNo(e1)) || !ExprEq(e1, e2) then (e1, e2) else (Unit(op), Unit(op))
  {
  }

  lemma LeavesFirst(op: Junction, e1: Expr, e2: Expr)
    requires e1.Is(op)
    ensures var f := EliminateEqLeaves(op, e1.left, e2);
            var g := EliminateEqLeaves(op, e1.right, f.1);
            EliminateEqLeaves(op, e1, e2) == (Join(op, f.0, g.0), g.1)
  {
  }

  lemma LeavesSecond(op: Junction, e1: Expr, e2: Expr)
    requires !e1.Is(op) && e2.Is(op)
    ensures var f := EliminateEqLeaves(op, e1, e2.left);
            var g := EliminateEqLeaves(op, f.0, e2.right);
            EliminateEqLeaves(op, e1, e2) == (g.0, Join(op, f.1, g.1))
  {
  }

  // ----- one common context is stripped from both sides -----

  lemma ComposeContexts(op: Junction, e: Expr, l: Expr, r: Expr, c1: Tristate, c2: Tristate, v: Valuation)
    requires e.Is(op)
    requires Value(e.left, v) == Apply(op, c1, Value(l, v)) && Value(e.right, v) == Apply(op, c2, Value(r, v))
    ensures Value(e, v) == Apply(op, Apply(op, c1, c2), Value(Join(op, l, r), v))
  {
    assert e == Join(op, e.left, e.right);
    ValueJoin(op, e.left, e.right, v);
    ValueJoin(op, l, r, v);
  }

  /** The value of `e1` and of `e2` is that of what is left of each, put in one and the same context. */
  lemma {:induction false} LeavesShareContext(op: Junction, e1: Expr, e2: Expr, v: Valuation) returns (c: Tristate)
    requires Consistent(v)
    ensures var r := EliminateEqLeaves(op, e1, e2);
            && Value(e1, v) == Apply(op, c, Value(r.0, v))
            && Value(e2, v) == Apply(op, c, Value(r.1, v))
    decreases Size(e1) + Size(e2), if e1.Is(op) || e2.Is(op) then 0 else 3
  {
    if e1.Is(op) {
      var r1 := EliminateEqLeaves(op, e1.left, e2);
      var r2 := EliminateEqLeaves(op, e1.right, r1.1);
      var c1 := LeavesShareContext(op, e1.left, e2, v);
      var c2 := LeavesShareContext(op, e1.right, r1.1, v);
      c := Apply(op, c1, c2);
      assert EliminateEqLeaves(op, e1, e2) == (Join(op, r1.0, r2.0), r2.1);
      ComposeContexts(op, e1, r1.0, r2.0, c1, c2, v);
    } else if e2.Is(op) {
      var r1 := EliminateEqLeaves(op, e1, e2.left);
      var r2 := EliminateEqLeaves(op, r1.0, e2.right);
      var c1 := LeavesShareContext(op, e1, e2.left, v);
      var c2 := LeavesShareContext(op, r1.0, e2.right, v);
      c := Apply(op, c1, c2);
      assert EliminateEqLeaves(op, e1, e2) == (r2.0, Join(op, r1.1, r2.1));
      ComposeContexts(op, e2, r1.1, r2.1, c1, c2, v);
    } else if (e1 == e2 && IsYesNo(e1)) || !ExprEq(e1, e2) {
      c := if op == Conj then YES else NO;
    } else {
      ExprEqSound(e1, e2, v);
      c := Value(e1, v);
    }
  }

  /** A two-level monotone context: first `outer`, then `inner` closest to the hole. */
  datatype Context = Context(outer: Junction, a: Tristate, inner: Junction, b: Tristate)

  function Fill(k: Context, x: Tristate): Tristate {
    Apply(k.outer, k.a, Apply(k.inner, k.b, x))
  }

  lemma {:induction false} EliminateEqShareContext(e1: Expr, e2: Expr, v: Valuation) returns (k: Context)
    requires Consistent(v)
    ensures var r := EliminateEq(e1, e2);
            && Value(e1, v) == Fill(k, Value(r.0, v))
            && Value(e2, v) == Fill(k, Value(r.1, v))
    decreases Size(e1) + Size(e2), 1
  {
    k := Context(Conj, YES, Conj, YES);
    var f1, f2 := e1, e2;
    if e1.IsJunction() {
      var c := LeavesShareContext(e1.Op(), e1, e2, v);
      k := k.(outer := e1.Op(), a := c);
      var r := EliminateEqLeaves(e1.Op(), e1, e2);
      f1, f2 := r.0, r.1;
    }
    var g1, g2 := f1, f2;
    if f2.IsJunction() && !(f1.IsJunction() && f1.Op() == f2.Op()) {
      var c := LeavesShareContext(f2.Op(), f1, f2, v);
      k := k.(inner := f2.Op(), b := c);
      var r := EliminateEqLeaves(f2.Op(), f1, f2);
      g1, g2 := r.0, r.1;
    }
    EliminateYnPreservesValue(g1, v);
    EliminateYnPreservesValue(g2, v);
  }

  lemma {:induction false} ExprEqSound(e1: Expr, e2: Expr, v: Valuation)
    requires Consistent(v) && ExprEq(e1, e2)
    ensures Value(e1, v) == Value(e2, v)
    decreases Size(e1) + Size(e2), 2
  {
    if e1.Not? {
      ExprEqSound(e1.arg, e2.arg, v);
    } else if e1.IsJunction() {
      var k := EliminateEqShareContext(e1, e2, v);
    }
  }

  /** `expr_eq` with its NULL case: a missing expression is y. */
  predicate ExprEqPtr(p: ExprPtr, q: ExprPtr) {
    if p.Null? || q.Null? then (p.Null? || p.expr == Symb(SymYes)) && (q.Null? || q.expr == Symb(SymYes))
    else ExprEq(p.expr, q.expr)
  }

  lemma ExprEqPtrSound(p: ExprPtr, q: ExprPtr, v: Valuation)
    requires Consistent(v) && ExprEqPtr(p, q)
    ensures ValueOf(p, v) == ValueOf(q, v)
  {
    if p.Ptr? && q.Ptr? {
      ExprEqSound(p.expr, q.expr, v);
    }
  }

  // ----- exactly the common operands go: order and parentheses are irrelevant, multiplicity is not -----

  predicate IsLiteral(e: Expr) {
    match e
    case Symb(s) => s != SymYes && s != SymNo
    case Compare(_, _, _) => true
    case Not(a) => IsLiteral(a)
    case _ => false
  }

  predicate LiteralRegion(op: Junction, e: Expr) {
    if e.Is(op) then LiteralRegion(op, e.left) && LiteralRegion(op, e.right)
    else e == Unit(op) || IsLiteral(e)
  }

  ghost function Operands(op: Junction, e: Expr): multiset<Expr> {
    if e.Is(op) then Operands(op, e.left) + Operands(op, e.right)
    else if e == Unit(op) then multiset{}
    else multiset{e}
  }

  lemma {:induction false} LiteralEq(x: Expr, y: Expr)
    requires IsLiteral(x) && (IsLiteral(y) || IsYesNo(y))
    ensures ExprEq(x, y) <==> x == y
    ensures ExprEq(y, x) <==> x == y
  {
    if x.Not? && y.Not? {
      LiteralEq(x.arg, y.arg);
    }
  }

  lemma SplitDifference(l: multiset<Expr>, r: multiset<Expr>, m: multiset<Expr>)
    ensures (l - m) + (r - (m - l)) == (l + r) - m
    ensures (m - l) - r == m - (l + r)
  {
    forall x: Expr
      ensures ((l - m) + (r - (m - l)))[x] == ((l + r) - m)[x] && ((m - l) - r)[x] == (m - (l + r))[x]
    {
    }
  }

  lemma RegionJoin(op: Junction, l: Expr, r: Expr)
    ensures Operands(op, Join(op, l, r)) == Operands(op, l) + Operands(op, r)
    ensures LiteralRegion(op, Join(op, l, r)) <==> LiteralRegion(op, l) && LiteralRegion(op, r)
  {
  }

  ghost predicate Difference(op: Junction, r: (Expr, Expr), e1: Expr, e2: Expr) {
    && LiteralRegion(op, r.0) && LiteralRegion(op, r.1)
    && Operands(op, r.0) == Operands(op, e1) - Operands(op, e2)
    && Operands(op, r.1) == Operands(op, e2) - Operands(op, e1)
  }

  lemma DifferenceStep(op: Junction, a: Expr, b: Expr, e: Expr, r1: (Expr, Expr), r2: (Expr, Expr))
    requires Difference(op, r1, a, e) && Difference(op, r2, b, r1.1)
    ensures Difference(op, (Join(op, r1.0, r2.0), r2.1), Join(op, a, b), e)
  {
    RegionJoin(op, a, b);
    RegionJoin(op, r1.0, r2.0);
    SplitDifference(Operands(op, a), Operands(op, b), Operands(op, e));
  }

  lemma LeafDifference(op: Junction, e1: Expr, e2: Expr, r: (Expr, Expr))
    requires LiteralRegion(op, e1) && LiteralRegion(op, e2) && !e1.Is(op) && !e2.Is(op)
    requires r == if e1 == e2 then (Unit(op), Unit(op)) else (e1, e2)
    ensures Difference(op, r, e1, e2)
  {
  }

  lemma LeafOutcome(op: Junction, e1: Expr, e2: Expr)
    requires LiteralRegion(op, e1) && LiteralRegion(op, e2) && !e1.Is(op) && !e2.Is(op)
    ensures EliminateEqLeaves(op, e1, e2) == if e1 == e2 then (Unit(op), Unit(op)) else (e1, e2)
  {
    if IsLiteral(e1) {
      LiteralEq(e1, e2);
    } else if IsLiteral(e2) {
      LiteralEq(e2, e1);
    }
  }

  lemma {:induction false} CommonOperandsRemoved(op: Junction, e1: Expr, e2: Expr)
    requires LiteralRegion(op, e1) && LiteralRegion(op, e2)
    ensures Difference(op, EliminateEqLeaves(op, e1, e2), e1, e2)
    decreases Size(e1) + Size(e2), if e1.Is(op) || e2.Is(op) then 0 else 3
  {
    hide EliminateEqLeaves;
    if e1.Is(op) {
      LeavesFirst(op, e1, e2);
      var r1 := EliminateEqLeaves(op, e1.left, e2);
      CommonOperandsRemoved(op, e1.left, e2);
      CommonOperandsRemoved(op, e1.right, r1.1);
      DifferenceStep(op, e1.left, e1.right, e2, r1, EliminateEqLeaves(op, e1.right, r1.1));
    } else if e2.Is(op) {
      LeavesSecond(op, e1, e2);
      var r1 := EliminateEqLeaves(op, e1, e2.left);
      CommonOperandsRemoved(op, e1, e2.left);
      CommonOperandsRemoved(op, r1.0, e2.right);
      var r2 := EliminateEqLeaves(op, r1.0, e2.right);
      DifferenceStep(op, e2.left, e2.right, e1, (r1.1, r1.0), (r2.1, r2.0));
    } else {
      LeafOutcome(op, e1, e2);
      LeafDifference(op, e1, e2, EliminateEqLeaves(op, e1, e2));
    }
  }

  ghost predicate Collapsed(op: Junction, e: Expr, r: Expr) {
    && LiteralRegion(op, r) && Operands(op, r) == Operands(op, e)
    && (r.Is(op) ==> |Operands(op, e)| >= 2)
    && (!r.Is(op) ==> Operands(op, e) == if r == Unit(op) then multiset{} else multiset{r})
  }

  lemma CollapseStep(op: Junction, a: Expr, b: Expr, l: Expr, r: Expr)
    requires Collapsed(op, a, l) && Collapsed(op, b, r)
    ensures Collapsed(op, Join(op, a, b), if l == Unit(op) then r else if r == Unit(op) then l else Join(op, l, r))
  {
    RegionJoin(op, a, b);
    RegionJoin(op, l, r);
  }

  lemma YnJunction(op: Junction, e: Expr)
    requires e.Is(op)
    requires LiteralRegion(op, EliminateYn(e.left)) && LiteralRegion(op, EliminateYn(e.right))
    ensures var l, r := EliminateYn(e.left), EliminateYn(e.right);
            EliminateYn(e) == if l == Unit(op) then r else if r == Unit(op) then l else Join(op, l, r)
  {
  }

  /** What constant elimination leaves of a region of literals tells which operands it had. */
  lemma {:induction false} RegionCollapses(op: Junction, e: Expr)
    requires LiteralRegion(op, e)
    ensures Collapsed(op, e, EliminateYn(e))
  {
    if !e.Is(op) {
      assert EliminateYn(e) == e by {
        assert e == Unit(op) || IsLiteral(e);
      }
    } else {
      RegionCollapses(op, e.left);
      RegionCollapses(op, e.right);
      YnJunction(op, e);
      CollapseStep(op, e.left, e.right, EliminateYn(e.left), EliminateYn(e.right));
      assert Join(op, e.left, e.right) == e;
    }
  }

  /**
   What `expr_eliminate_eq` leaves of two expressions, of which at least one is a region and the other a region or a
   literal: the operands of each that the other does not have, without constants.
   */
  lemma EliminateEqExact(op: Junction, e1: Expr, e2: Expr)
    requires LiteralRegion(op, e1) && LiteralRegion(op, e2) && (e1.Is(op) || e2.Is(op))
    ensures var r := EliminateEq(e1, e2);
            && Difference(op, r, e1, e2)
            && !HasConstantOperand(r.0) && !HasConstantOperand(r.1)
  {
    hide EliminateEqLeaves;
    hide EliminateYn;
    CommonOperandsRemoved(op, e1, e2);
    var f := EliminateEqLeaves(op, e1, e2);
    assert EliminateEq(e1, e2) == (EliminateYn(f.0), EliminateYn(f.1));
    RegionCollapses(op, f.0);
    RegionCollapses(op, f.1);
    EliminateYnRemovesConstants(f.0);
    EliminateYnRemovesConstants(f.1);
  }

  /** `expr_eq` of two regions looks at what is left of both. */
  lemma ExprEqOfRegions(op: Junction, e1: Expr, e2: Expr)
    requires e1.Is(op) && e2.Is(op)
    ensures var r := EliminateEqLeaves(op, e1, e2);
            var f1, f2 := EliminateYn(r.0), EliminateYn(r.1);
            ExprEq(e1, e2) <==> f1.Symb? && f1 == f2
  {
    hide EliminateEqLeaves;
    hide EliminateYn;
    var r := EliminateEqLeaves(op, e1, e2);
    assert r.0.Is(op) && r.1.Is(op);
    assert EliminateEq(e1, e2) == (EliminateYn(r.0), EliminateYn(r.1));
  }

  /** Two regions without common operands are left with one and the same symbol only if both are empty. */
  lemma SameRemainder(op: Junction, a: Expr, b: Expr, f1: Expr, f2: Expr, m: multiset<Expr>, n: multiset<Expr>)
    requires Collapsed(op, a, f1) && Collapsed(op, b, f2)
    requires Operands(op, a) == m - n && Operands(op, b) == n - m
    ensures f1.Symb? && f1 == f2 <==> m == n
  {
    hide Operands;
    hide LiteralRegion;
    if m == n {
      assert m - n == multiset{} && n - m == multiset{};
    } else if f1.Symb? && f1 == f2 {
      assert Operands(op, a) == Operands(op, b);
      EqualDifferences(m, n);
      assert false;
    }
  }

  lemma EqualDifferences(m: multiset<Expr>, n: multiset<Expr>)
    requires m - n == n - m
    ensures m == n
  {
    forall x: Expr
      ensures m[x] == n[x]
    {
      assert (m - n)[x] == (n - m)[x];
    }
  }

  /** `expr_eq` on two && (or two ||) of literals holds iff both have the same operands, counted with multiplicity. */
  lemma {:induction false} ExprEqIffSameOperands(op: Junction, e1: Expr, e2: Expr)
    requires e1.Is(op) && e2.Is(op) && LiteralRegion(op, e1) && LiteralRegion(op, e2)
    ensures ExprEq(e1, e2) <==> Operands(op, e1) == Operands(op, e2)
  {
    hide EliminateEqLeaves;
    hide EliminateYn;
    hide ExprEq;
    hide Operands;
    var r := EliminateEqLeaves(op, e1, e2);
    CommonOperandsRemoved(op, e1, e2);
    RegionCollapses(op, r.0);
    RegionCollapses(op, r.1);
    ExprEqOfRegions(op, e1, e2);
    SameRemainder(op, r.0, r.1, EliminateYn(r.0), EliminateYn(r.1), Operands(op, e1), Operands(op, e2));
  }

  /** The comment above `expr_eq` speaks of sets of operands; the code counts them. */
  lemma RepeatedOperandIsNotEqual(a: Symbol, b: Symbol)
    requires a != b && IsLiteral(Symb(a)) && IsLiteral(Symb(b))
    ensures !ExprEq(And(And(Symb(a), Symb(a)), Symb(b)), And(Symb(a), Symb(b)))
  {
    var e1, e2 := And(And(Symb(a), Symb(a)), Symb(b)), And(Symb(a), Symb(b));
    assert LiteralRegion(Conj, e1.left) && LiteralRegion(Conj, e2);
    ExprEqIffSameOperands(Conj, e1, e2);
    assert Operands(Conj, e1)[Symb(a)] == 2;
  }
}
