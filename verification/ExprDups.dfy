/**
 What the walk of `expr_eliminate_dups` keeps and achieves. Both slot arguments of the walk point into one and the same
 tree; `DupsHeap` carries it out.
 */
module ExprDups {
  import opened TristateExpr
  import opened ExprEquality
  import opened ExprJoin
  import opened ExprSlots

  /** Equal under every valuation the kconfig core can produce. */
  ghost predicate SameValue(e: Expr, f: Expr) {
    forall v: Valuation :: Consistent(v) && SeparatesConstants(v) ==> Value(e, v) == Value(f, v)
  }

  /** No two operands of `e` join, at the top level and inside each operand that is a && or || itself. */
  ghost predicate Settled(e: Expr)
    decreases Size(e)
  {
    e.IsJunction() ==>
      forall a: Path, b: Path :: IsLeaf(e.Op(), e, a) && IsLeaf(e.Op(), e, b) && a != b ==>
        && JoinWith(e.Op(), RegionAt(e.Op(), e, a), RegionAt(e.Op(), e, b)).Null?
        && (a != [] ==> Settled(RegionAt(e.Op(), e, a)))
  }

  /** No two operands are equal, at the top level and inside each operand that is a && or || itself. */
  ghost predicate Deduplicated(e: Expr)
    decreases Size(e)
  {
    e.IsJunction() ==>
      forall a: Path, b: Path :: IsLeaf(e.Op(), e, a) && IsLeaf(e.Op(), e, b) && a != b ==>
        && !ExprEq(RegionAt(e.Op(), e, a), RegionAt(e.Op(), e, b))
        && (a != [] ==> Deduplicated(RegionAt(e.Op(), e, a)))
  }

  /** No literal occurs twice among the operands, at any level. */
  ghost predicate OnceEach(e: Expr)
    decreases Size(e)
  {
    e.IsJunction() ==>
      && (forall x: Expr :: IsLiteral(x) ==> Operands(e.Op(), e)[x] <= 1)
      && (forall a: Path :: IsLeaf(e.Op(), e, a) && a != [] ==> OnceEach(RegionAt(e.Op(), e, a)))
  }

  /** Where nothing joins, nothing is equal. */
  lemma {:induction false} SettledDeduplicates(e: Expr)
    requires Settled(e)
    ensures Deduplicated(e)
    decreases Size(e)
  {
    if e.IsJunction() {
      forall a: Path, b: Path | IsLeaf(e.Op(), e, a) && IsLeaf(e.Op(), e, b) && a != b
        ensures !ExprEq(RegionAt(e.Op(), e, a), RegionAt(e.Op(), e, b))
        ensures a != [] ==> Deduplicated(RegionAt(e.Op(), e, a))
      {
        var x, y := RegionAt(e.Op(), e, a), RegionAt(e.Op(), e, b);
        UnjoinedDiffer(e.Op(), x, y);
        if a != [] {
          SettledDeduplicates(x);
        }
      }
    }
  }

  lemma {:induction false} OperandPath(op: Junction, e: Expr, x: Expr) returns (a: Path)
    requires Operands(op, e)[x] >= 1
    ensures IsLeaf(op, e, a) && RegionAt(op, e, a) == x
  {
    if e.Is(op) {
      if Operands(op, e.left)[x] >= 1 {
        var p := OperandPath(op, e.left, x);
        a := [L] + p;
        assert a[1..] == p;
      } else {
        var p := OperandPath(op, e.right, x);
        a := [R] + p;
        assert a[1..] == p;
      }
    } else {
      a := [];
    }
  }

  /** An operand that occurs twice is in two places. */
  lemma {:induction false} TwoPaths(op: Junction, e: Expr, x: Expr) returns (a: Path, b: Path)
    requires Operands(op, e)[x] >= 2
    ensures IsLeaf(op, e, a) && IsLeaf(op, e, b) && a != b && RegionAt(op, e, a) == x && RegionAt(op, e, b) == x
  {
    var p: Path, q: Path;
    if Operands(op, e.left)[x] >= 2 {
      p, q := TwoPaths(op, e.left, x);
      a, b := [L] + p, [L] + q;
    } else if Operands(op, e.right)[x] >= 2 {
      p, q := TwoPaths(op, e.right, x);
      a, b := [R] + p, [R] + q;
    } else {
      p := OperandPath(op, e.left, x);
      q := OperandPath(op, e.right, x);
      a, b := [L] + p, [R] + q;
    }
    assert a[1..] == p && b[1..] == q;
  }

  lemma {:induction false} DeduplicatedOnce(e: Expr)
    requires Deduplicated(e)
    ensures OnceEach(e)
    decreases Size(e)
  {
    if e.IsJunction() {
      var op := e.Op();
      forall x: Expr | IsLiteral(x)
        ensures Operands(op, e)[x] <= 1
      {
        if Operands(op, e)[x] >= 2 {
          var a, b := TwoPaths(op, e, x);
          LiteralEq(x, x);
        }
      }
      forall a: Path | IsLeaf(op, e, a) && a != []
        ensures OnceEach(RegionAt(op, e, a))
      {
        var b := OtherPath(op, e, a);
        DeduplicatedOnce(RegionAt(op, e, a));
      }
    }
  }

  /** A && or || has another operand beside each. */
  lemma OtherPath(op: Junction, e: Expr, a: Path) returns (b: Path)
    requires e.Is(op) && IsLeaf(op, e, a)
    ensures IsLeaf(op, e, b) && a != b
  {
    var side := if a[0] == L then R else L;
    var p := SomePath(op, Child(e, side));
    b := [side] + p;
    assert b[1..] == p;
  }

  lemma {:induction false} SomePath(op: Junction, e: Expr) returns (p: Path)
    ensures IsLeaf(op, e, p)
  {
    if e.Is(op) {
      var q := SomePath(op, e.left);
      p := [L] + q;
      assert p[1..] == q;
    } else {
      p := [];
    }
  }

  ghost predicate NoJoins(op: Junction, e: Expr, p1: Path, p2: Path) {
    forall a: Path, b: Path :: IsLeaf(op, e, a) && IsLeaf(op, e, b) && p1 <= a && p2 <= b && a != b ==>
      && JoinWith(op, RegionAt(op, e, a), RegionAt(op, e, b)).Null?
      && Settled(RegionAt(op, e, a))
  }

  /** What walking slots `p1`, `p2` of region `e` did: `f` is the region afterwards. */
  ghost predicate Walked(op: Junction, e: Expr, p1: Path, p2: Path, f: Expr, joined: bool) {
    && SameSpine(op, e, f)
    && Size(f) <= Size(e)
    && SameValue(e, f)
    && (joined ==> HasConstantOperand(f))
    && (!joined ==> f == e && NoJoins(op, e, p1, p2))
  }

  lemma LeafBelow(op: Junction, e: Expr, p: Path, a: Path)
    requires InRegion(op, e, p) && IsLeaf(op, e, a) && p <= a
    ensures RegionAt(op, e, p).Is(op) ==> p + [L] <= a || p + [R] <= a
    ensures !RegionAt(op, e, p).Is(op) ==> p == a
  {
    RegionPrefix(op, e, a, p);
    if p != a {
      var side := a[|p|];
      assert p + [side] <= a && (side == L || side == R);
    }
  }

  lemma SplitFirst(op: Junction, e: Expr, p1: Path, p2: Path, f: Expr, g: Expr, j: bool, k: bool)
    requires InRegion(op, e, p1) && InRegion(op, e, p2) && RegionAt(op, e, p1).Is(op)
    requires Walked(op, e, p1 + [L], p2, f, j) && Walked(op, f, p1 + [R], p2, g, k)
    ensures Walked(op, e, p1, p2, g, j || k)
  {
    SameSpineTrans(op, e, f, g);
    forall a: Path | IsLeaf(op, e, a) && p1 <= a
      ensures p1 + [L] <= a || p1 + [R] <= a
    {
      LeafBelow(op, e, p1, a);
    }
  }

  lemma SplitSecond(op: Junction, e: Expr, p1: Path, p2: Path, f: Expr, g: Expr, j: bool, k: bool)
    requires InRegion(op, e, p1) && InRegion(op, e, p2) && RegionAt(op, e, p2).Is(op)
    requires Walked(op, e, p1, p2 + [L], f, j) && Walked(op, f, p1, p2 + [R], g, k)
    ensures Walked(op, e, p1, p2, g, j || k)
  {
    SameSpineTrans(op, e, f, g);
    forall a: Path | IsLeaf(op, e, a) && p2 <= a
      ensures p2 + [L] <= a || p2 + [R] <= a
    {
      LeafBelow(op, e, p2, a);
    }
  }

  /** Slots `p1` and `p2` are the same pointer: nothing to compare. */
  lemma SameLeaf(op: Junction, e: Expr, p: Path)
    requires IsLeaf(op, e, p)
    ensures Walked(op, e, p, p, e, false)
  {
    SameSpineRefl(op, e);
    forall a: Path | IsLeaf(op, e, a) && p <= a
      ensures a == p
    {
      LeafBelow(op, e, p, a);
    }
  }

  /** The leaf in slot `p` was itself walked as a region of the other connective. */
  lemma InnerWalked(op: Junction, e: Expr, p: Path, x: Expr, joined: bool)
    requires IsLeaf(op, e, p) && p != [] && RegionAt(op, e, p).IsJunction()
    requires Walked(RegionAt(op, e, p).Op(), RegionAt(op, e, p), [], [], x, joined)
    ensures var f := Put(e, p, x);
            && IsLeaf(op, f, p) && RegionAt(op, f, p) == x
            && SameSpine(op, e, f) && Size(f) <= Size(e) && SameValue(e, f)
            && (joined ==> HasConstantOperand(f))
            && (!joined ==> f == e && Settled(x))
  {
    PutLeafSpine(op, e, p, x);
    PutThenAt(e, p, x);
    PutAt(e, p);
    SameSpineRegion(op, e, Put(e, p, x), p);
    forall v: Valuation | Consistent(v) && SeparatesConstants(v)
      ensures Value(Put(e, p, x), v) == Value(e, v)
    {
      PutSameValue(e, p, x, v);
    }
    if joined {
      ConstantBelowSlot(Put(e, p, x), p);
    }
  }

  /** The two leaves did not join. */
  lemma LeavesKept(op: Junction, e: Expr, p1: Path, p2: Path)
    requires IsLeaf(op, e, p1) && IsLeaf(op, e, p2) && p1 != p2
    requires Settled(RegionAt(op, e, p1))
    requires JoinWith(op, RegionAt(op, e, p1), RegionAt(op, e, p2)).Null?
    ensures Walked(op, e, p1, p2, e, false)
  {
    SameSpineRefl(op, e);
    forall a: Path, b: Path | IsLeaf(op, e, a) && IsLeaf(op, e, b) && p1 <= a && p2 <= b
      ensures a == p1 && b == p2
    {
      LeafBelow(op, e, p1, a);
      LeafBelow(op, e, p2, b);
    }
  }

  /** The two leaves joined: a unit in the first slot, the joined expression in the second. */
  lemma LeavesJoined(op: Junction, e: Expr, p1: Path, p2: Path)
    requires IsLeaf(op, e, p1) && IsLeaf(op, e, p2) && p1 != p2
    requires JoinWith(op, RegionAt(op, e, p1), RegionAt(op, e, p2)).Ptr?
    ensures HasSlot(e, p1) && HasSlot(Put(e, p1, Unit(op)), p2)
    ensures Walked(op, e, p1, p2,
                   Put(Put(e, p1, Unit(op)), p2, JoinWith(op, RegionAt(op, e, p1), RegionAt(op, e, p2)).expr), true)
  {
    var e1, e2 := RegionAt(op, e, p1), RegionAt(op, e, p2);
    var x := JoinWith(op, e1, e2).expr;
    JoinWithShrinks(op, e1, e2);
    LeavesApart(op, e, p1, p2);
    var u := Put(e, p1, Unit(op));
    PutElsewhere(e, p1, p2, Unit(op));
    PutThenAt(e, p1, Unit(op));
    PutLeafSpine(op, e, p1, Unit(op));
    SameSpineRegion(op, e, u, p2);
    var f := Put(u, p2, x);
    PutThenAt(u, p2, x);
    PutLeafSpine(op, u, p2, x);
    SameSpineTrans(op, e, u, f);
    PutElsewhere(u, p2, p1, x);
    ConstantBelowSlot(f, p1);
    forall v: Valuation | Consistent(v) && SeparatesConstants(v)
      ensures Value(f, v) == Value(e, v)
    {
      JoinWithSound(op, e1, e2, v);
      JoinedOperands(op, e, p1, p2, x, v);
    }
  }

  lemma WalkedFromJoin(op: Junction, e: Expr, f: Expr, g: Expr, p1: Path, p2: Path, k: bool)
    requires SameSpine(op, e, f) && Size(f) <= Size(e) && SameValue(e, f) && HasConstantOperand(f)
    requires Walked(op, f, p1, p2, g, k)
    ensures Walked(op, e, p1, p2, g, true)
  {
    SameSpineTrans(op, e, f, g);
  }

  /** A walk of the whole region against itself that joins nothing shows the region is settled. */
  lemma WholeRegionSettled(e: Expr)
    requires e.IsJunction() && NoJoins(e.Op(), e, [], [])
    ensures Settled(e)
  {
  }

  lemma KeepsRegion(op: Junction, e: Expr, f: Expr, p1: Path, p2: Path)
    requires InRegion(op, e, p1) && InRegion(op, e, p2) && SameSpine(op, e, f)
    ensures InRegion(op, f, p1) && InRegion(op, f, p2)
    ensures RegionAt(op, e, p1).Is(op) ==> RegionAt(op, f, p1).Is(op)
    ensures RegionAt(op, e, p2).Is(op) ==> RegionAt(op, f, p2).Is(op)
    ensures SpineSize(op, RegionAt(op, e, p1)) == SpineSize(op, RegionAt(op, f, p1))
    ensures SpineSize(op, RegionAt(op, e, p2)) == SpineSize(op, RegionAt(op, f, p2))
  {
    SameSpineRegion(op, e, f, p1);
    SameSpineRegion(op, e, f, p2);
    SameSpineSize(op, RegionAt(op, e, p1), RegionAt(op, f, p1));
    SameSpineSize(op, RegionAt(op, e, p2), RegionAt(op, f, p2));
  }

  lemma EliminateYnSameValue(e: Expr)
    ensures SameValue(e, EliminateYn(e))
  {
    forall v: Valuation | Consistent(v)
      ensures Value(EliminateYn(e), v) == Value(e, v)
    {
      EliminateYnPreservesValue(e, v);
    }
  }
}
