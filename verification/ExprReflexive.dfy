/** `expr_eq` holds of every expression and itself, constants inside regions and nested regions included. */
module ExprReflexive {
  import opened TristateExpr
  import opened ExprEquality

  // ----- the operands of a region, in order -----

  function LeafCount(op: Junction, e: Expr): (n: nat)
    ensures n >= 1
  {
    if e.Is(op) then LeafCount(op, e.left) + LeafCount(op, e.right) else 1
  }

  function LeafAt(op: Junction, e: Expr, i: nat): (x: Expr)
    requires i < LeafCount(op, e)
    ensures !x.Is(op) && Size(x) <= Size(e)
  {
    if !e.Is(op) then e
    else
      var k := LeafCount(op, e.left);
      if i < k then LeafAt(op, e.left, i) else LeafAt(op, e.right, i - k)
  }

  /** The walk over a region and its twin has done `n` operands: these are units, or the constants they were. */
  function Done(op: Junction, e: Expr, n: nat): Expr
    requires n <= LeafCount(op, e)
  {
    if n == 0 then e
    else if !e.Is(op) then (if IsYesNo(e) then e else Unit(op))
    else
      var k := LeafCount(op, e.left);
      Join(op, Done(op, e.left, if n < k then n else k), Done(op, e.right, if n < k then 0 else n - k))
  }

  predicate AllConstants(op: Junction, e: Expr) {
    if e.Is(op) then AllConstants(op, e.left) && AllConstants(op, e.right) else IsYesNo(e)
  }

  lemma {:induction false} DoneIsConstant(op: Junction, e: Expr)
    ensures AllConstants(op, Done(op, e, LeafCount(op, e)))
  {
    if e.Is(op) {
      DoneIsConstant(op, e.left);
      DoneIsConstant(op, e.right);
    }
  }

  lemma {:induction false} ConstantsCollapse(op: Junction, e: Expr)
    requires AllConstants(op, e)
    ensures IsYesNo(EliminateYn(e))
  {
    if e.Is(op) {
      ConstantsCollapse(op, e.left);
      ConstantsCollapse(op, e.right);
    }
  }

  // ----- the walk -----

  /** An operand finds nothing among constants. */
  lemma {:induction false} AmongConstants(op: Junction, x: Expr, e: Expr)
    requires !x.Is(op) && AllConstants(op, e)
    ensures EliminateEqLeaves(op, x, e) == (x, e)
  {
    if e.Is(op) {
      AmongConstants(op, x, e.left);
      AmongConstants(op, x, e.right);
    }
  }

  /** Neither does a constant among operands. */
  lemma {:induction false} ConstantAmong(op: Junction, x: Expr, e: Expr)
    requires IsYesNo(x)
    ensures EliminateEqLeaves(op, x, e) == (x, e)
  {
    if e.Is(op) {
      ConstantAmong(op, x, e.left);
      ConstantAmong(op, x, e.right);
    }
  }

  /** Operand `n` meets itself. */
  lemma {:induction false} OperandMet(op: Junction, e: Expr, n: nat)
    requires n < LeafCount(op, e) && ExprEq(LeafAt(op, e, n), LeafAt(op, e, n))
    ensures var x := LeafAt(op, e, n);
            EliminateEqLeaves(op, x, Done(op, e, n)) == (if IsYesNo(x) then x else Unit(op), Done(op, e, n + 1))
  {
    hide ExprEq;
    var x := LeafAt(op, e, n);
    if e.Is(op) {
      hide EliminateEqLeaves;
      var k := LeafCount(op, e.left);
      LeavesSecond(op, x, Done(op, e, n));
      if n < k {
        OperandMet(op, e.left, n);
        ConstantAmong(op, if IsYesNo(x) then x else Unit(op), e.right);
      } else {
        DoneIsConstant(op, e.left);
        AmongConstants(op, x, Done(op, e.left, k));
        OperandMet(op, e.right, n - k);
      }
    } else {
      LeavesCompared(op, x, x);
    }
  }

  /** The operands of `x` are those of `e` from the `n`-th on. */
  ghost predicate SitsAt(op: Junction, x: Expr, e: Expr, n: nat) {
    && n + LeafCount(op, x) <= LeafCount(op, e)
    && forall i :: 0 <= i < LeafCount(op, x) ==> LeafAt(op, x, i) == LeafAt(op, e, n + i)
  }

  ghost predicate OperandsReflexive(op: Junction, e: Expr) {
    forall i :: 0 <= i < LeafCount(op, e) ==> ExprEq(LeafAt(op, e, i), LeafAt(op, e, i))
  }

  lemma SitsParts(op: Junction, x: Expr, e: Expr, n: nat)
    requires x.Is(op) && SitsAt(op, x, e, n)
    ensures SitsAt(op, x.left, e, n) && SitsAt(op, x.right, e, n + LeafCount(op, x.left))
  {
    var k := LeafCount(op, x.left);
    forall i | 0 <= i < k
      ensures LeafAt(op, x.left, i) == LeafAt(op, e, n + i)
    {
      assert LeafAt(op, x, i) == LeafAt(op, x.left, i);
    }
    forall i | 0 <= i < LeafCount(op, x.right)
      ensures LeafAt(op, x.right, i) == LeafAt(op, e, n + k + i)
    {
      assert LeafAt(op, x, k + i) == LeafAt(op, x.right, i);
    }
  }

  /** The walk over a part `x` of `e` settles just the operands of `x`, in both copies. */
  lemma {:induction false} RegionMet(op: Junction, x: Expr, e: Expr, n: nat)
    requires SitsAt(op, x, e, n) && OperandsReflexive(op, e)
    ensures EliminateEqLeaves(op, x, Done(op, e, n))
         == (Done(op, x, LeafCount(op, x)), Done(op, e, n + LeafCount(op, x)))
    decreases x
  {
    hide EliminateEqLeaves;
    hide ExprEq;
    if x.Is(op) {
      SitsParts(op, x, e, n);
      LeavesFirst(op, x, Done(op, e, n));
      RegionMet(op, x.left, e, n);
      RegionMet(op, x.right, e, n + LeafCount(op, x.left));
    } else {
      assert LeafAt(op, x, 0) == LeafAt(op, e, n);
      OperandMet(op, e, n);
    }
  }

  /** Every expression equals itself. */
  lemma {:induction false} ExprEqReflexive(e: Expr)
    ensures ExprEq(e, e)
    decreases Size(e)
  {
    if e.Not? {
      ExprEqReflexive(e.arg);
    } else if e.IsJunction() {
      var op := e.Op();
      forall i | 0 <= i < LeafCount(op, e)
        ensures ExprEq(LeafAt(op, e, i), LeafAt(op, e, i))
      {
        LeafSmaller(op, e, i);
        ExprEqReflexive(LeafAt(op, e, i));
      }
      RegionMet(op, e, e, 0);
      DoneIsConstant(op, e);
      ConstantsCollapse(op, Done(op, e, LeafCount(op, e)));
      ExprEqOfRegions(op, e, e);
    }
  }

  lemma LeafSmaller(op: Junction, e: Expr, i: nat)
    requires e.Is(op) && i < LeafCount(op, e)
    ensures Size(LeafAt(op, e, i)) < Size(e)
  {
  }

  lemma ExprEqPtrReflexive(p: ExprPtr)
    ensures ExprEqPtr(p, p)
  {
    if p.Ptr? {
      ExprEqReflexive(p.expr);
    }
  }
}
