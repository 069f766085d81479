/**
 Expressions as linked nodes: `expr_copy`, `expr_free`, `expr_eliminate_yn`, `expr_eliminate_eq`, `expr_eq` and
 `expr_transform` as they overwrite, allocate and free nodes. What they do to the expressions is what the functions of
 `ExprEquality` and `ExprTransform` say; nothing is freed twice, and what is live afterwards is exactly what the results
 consist of.
 */
module ExprHeap {
  import opened TristateExpr
  import opened ExprEquality
  import opened ExprTransform

  datatype Kind = KSymbol | KNot | KAnd | KOr | KCompare(rel: Relation)

  /** `struct expr`: the union members of `left` and `right` are fields of their own. */
  class Cell {
    var kind: Kind
    var left: Cell?
    var right: Cell?
    var sym: Symbol
    var other: Symbol

    constructor (k: Kind, l: Cell?, r: Cell?, s: Symbol, o: Symbol)
      ensures kind == k && left == l && right == r && sym == s && other == o
    {
      kind, left, right, sym, other := k, l, r, s, o;
    }
  }

  /** Which node is where in an expression. */
  datatype Shape = Leaf(cell: Cell) | One(cell: Cell, arg: Shape) | Two(cell: Cell, left: Shape, right: Shape)

  function Cells(t: Shape): (cs: set<Cell>)
    ensures t.cell in cs
  {
    match t
    case Leaf(c) => {c}
    case One(c, a) => {c} + Cells(a)
    case Two(c, l, r) => {c} + Cells(l) + Cells(r)
  }

  /** No node is used twice. */
  predicate Separate(t: Shape) {
    match t
    case Leaf(_) => true
    case One(c, a) => c !in Cells(a) && Separate(a)
    case Two(c, l, r) => c !in Cells(l) && c !in Cells(r) && Cells(l) !! Cells(r) && Separate(l) && Separate(r)
  }

  /** The heap stores `e` in nodes of shape `t`. */
  ghost predicate Stores(t: Shape, e: Expr)
    reads Cells(t)
    decreases t, 1
  {
    match e
    case Symb(s) => t.Leaf? && t.cell.kind == KSymbol && t.cell.sym == s
    case Compare(rel, a, b) => t.Leaf? && t.cell.kind == KCompare(rel) && t.cell.sym == a && t.cell.other == b
    case Not(a) =>
      t.One? && t.cell.kind == KNot && t.cell.left == t.arg.cell && t.cell.right == null && Stores(t.arg, a)
    case And(l, r) => t.Two? && t.cell.kind == KAnd && StoresParts(t, l, r)
    case Or(l, r) => t.Two? && t.cell.kind == KOr && StoresParts(t, l, r)
  }

  ghost predicate StoresParts(t: Shape, l: Expr, r: Expr)
    requires t.Two?
    reads Cells(t)
    decreases t, 0
  {
    t.cell.left == t.left.cell && t.cell.right == t.right.cell && Stores(t.left, l) && Stores(t.right, r)
  }

  function KindOf(op: Junction): Kind {
    if op == Conj then KAnd else KOr
  }

  lemma KindTells(t: Shape, e: Expr)
    requires Stores(t, e)
    ensures t.cell.kind == KAnd <==> e.And?
    ensures t.cell.kind == KOr <==> e.Or?
    ensures t.cell.kind == KSymbol <==> e.Symb?
    ensures t.cell.kind == KNot <==> e.Not?
    ensures t.cell.kind.KCompare? <==> e.Compare?
    ensures e.Symb? ==> t.cell.sym == e.sym
    ensures e.Compare? ==> t.cell.kind.rel == e.rel && t.cell.sym == e.lhs && t.cell.other == e.rhs
    ensures e.Not? ==> t.One? && t.cell.left == t.arg.cell && t.cell.right == null && Stores(t.arg, e.arg)
    ensures e.IsJunction() ==> t.Two? && StoresParts(t, e.left, e.right)
  {
  }

  /** A shape whose root is another node. */
  function WithRoot(t: Shape, c: Cell): Shape {
    t.(cell := c)
  }

  /** The constant that is the result whatever the other operand is, or that leaves the other operand. */
  function Constant(op: Junction, neutral: bool): Symbol {
    if (op == Conj) == neutral then SymYes else SymNo
  }

  function Simplified(op: Junction, l: Expr, r: Expr): Expr {
    if l == Symb(Constant(op, false)) then l
    else if l == Symb(Constant(op, true)) then r
    else if r == Symb(Constant(op, false)) then r
    else if r == Symb(Constant(op, true)) then l
    else Join(op, l, r)
  }

  lemma RootReplaced(t: Shape, c: Cell)
    requires Separate(t) && c !in Cells(t)
    ensures var u := WithRoot(t, c); Separate(u) && Cells(u) == Cells(t) - {t.cell} + {c}
  {
  }

  /** Two expressions in nodes of their own. */
  ghost predicate Pair(t1: Shape, e1: Expr, t2: Shape, e2: Expr)
    reads Cells(t1), Cells(t2)
  {
    Stores(t1, e1) && Stores(t2, e2) && Separate(t1) && Separate(t2) && Cells(t1) !! Cells(t2)
  }

  lemma Parts(t: Shape, e: Expr)
    requires Stores(t, e) && Separate(t) && e.IsJunction()
    ensures t.Two? && t.cell.kind == KindOf(e.Op()) && StoresParts(t, e.left, e.right)
    ensures t.cell !in Cells(t.left) && t.cell !in Cells(t.right) && Cells(t.left) !! Cells(t.right)
    ensures Separate(t.left) && Separate(t.right) && Cells(t) == {t.cell} + Cells(t.left) + Cells(t.right)
  {
  }

  lemma Below(t: Shape, e: Expr)
    requires Stores(t, e) && e.IsJunction()
    ensures t.Two? && t.cell.kind == KindOf(e.Op()) && StoresParts(t, e.left, e.right)
    ensures Cells(t) == {t.cell} + Cells(t.left) + Cells(t.right)
  {
  }

  lemma ApartBelow(t: Shape)
    requires t.Two? && Separate(t)
    ensures t.cell !in Cells(t.left) && t.cell !in Cells(t.right) && Cells(t.left) !! Cells(t.right)
    ensures Separate(t.left) && Separate(t.right) && Cells(t) == {t.cell} + Cells(t.left) + Cells(t.right)
  {
  }

  lemma Assembled(op: Junction, c: Cell, a: Shape, x: Expr, b: Shape, y: Expr)
    requires Stores(a, x) && Stores(b, y) && Separate(a) && Separate(b) && Cells(a) !! Cells(b)
    requires c !in Cells(a) && c !in Cells(b) && c.kind == KindOf(op) && c.left == a.cell && c.right == b.cell
    ensures var t := Two(c, a, b);
            Stores(t, Join(op, x, y)) && Separate(t) && Cells(t) == {c} + Cells(a) + Cells(b)
  {
  }

  lemma SymbolAlone(t: Shape, e: Expr)
    requires Stores(t, e) && e.Symb?
    ensures Cells(t) == {t.cell}
  {
  }

  lemma LeafAlone(c: Cell)
    ensures Cells(Leaf(c)) == {c} && Separate(Leaf(c))
  {
  }

  function Other(op: Junction): Junction {
    if op == Conj then Disj else Conj
  }

  function NegatedSymbol(e: Expr): Expr
    requires e.Symb?
  {
    if e.sym == SymYes then Symb(SymNo)
    else if e.sym == SymMod then Symb(SymMod)
    else if e.sym == SymNo then Symb(SymYes)
    else Not(e)
  }

  lemma NotParts(t: Shape, e: Expr)
    requires Stores(t, e) && Separate(t) && e.Not?
    ensures t.One? && t.cell !in Cells(t.arg) && Separate(t.arg) && Cells(t) == {t.cell} + Cells(t.arg)
  {
  }

  lemma NotAssembled(c: Cell, a: Shape, x: Expr)
    requires Stores(a, x) && Separate(a) && c !in Cells(a) && c.kind == KNot && c.left == a.cell && c.right == null
    ensures var t := One(c, a); Stores(t, Not(x)) && Separate(t) && Cells(t) == {c} + Cells(a)
  {
  }

  /** One step of `Transform`. */
  lemma TransformUnfolds(e: Expr)
    ensures e.Symb? ==> Transform(e) == e
    ensures e.Compare? ==> Transform(e) == TransformCompare(e)
    ensures e.IsJunction() ==> Transform(e) == Join(e.Op(), Transform(e.left), Transform(e.right))
    ensures e.Not? ==> var b := Transform(e.arg);
              && (b.Not? ==> Transform(e) == Transform(b.arg))
              && (b.Compare? ==> Transform(e) == Compare(Negated(b.rel), b.lhs, b.rhs))
              && (b.Symb? ==> Transform(e) == NegatedSymbol(b))
              && (b.IsJunction() ==> Transform(e) == Transform(Join(Other(b.Op()), Not(b.left), Not(b.right))))
  {
  }

  /** The allocator, and the counter `trans_count`. */
  class Store {
    ghost var live: set<Cell>
    var transCount: nat

    constructor ()
      ensures live == {} && transCount == 0
    {
      live, transCount := {}, 0;
    }

    method AllocSymbol(s: Symbol) returns (c: Cell, ghost t: Shape)
      modifies this`live
      ensures fresh(c) && t == Leaf(c) && Stores(t, Symb(s)) && live == old(live) + {c}
    {
      c := new Cell(KSymbol, null, null, s, s);
      t := Leaf(c);
      live := live + {c};
    }

    /** `free`, which must not get the same node twice. */
    method Free(c: Cell)
      requires c in live
      modifies this`live
      ensures live == old(live) - {c}
    {
      live := live - {c};
    }

    /** `expr_free`. */
    method FreeAll(c: Cell, ghost t: Shape, ghost e: Expr)
      requires c == t.cell && Stores(t, e) && Separate(t) && Cells(t) <= live
      modifies this`live
      ensures live == old(live) - Cells(t)
      decreases t
    {
      ghost var before := live;
      match c.kind {
        case KSymbol =>
        case KCompare(_) =>
        case KNot =>
          FreeAll(c.left, t.arg, e.arg);
        case _ =>
          FreeAll(c.left, t.left, e.left);
          FreeAll(c.right, t.right, e.right);
      }
      Free(c);
    }

    /** `expr_copy`. */
    method Copy(c: Cell, ghost t: Shape, ghost e: Expr) returns (d: Cell, ghost u: Shape)
      requires c == t.cell && Stores(t, e) && Cells(t) <= live
      modifies this`live
      ensures d == u.cell && Stores(u, e) && Separate(u) && fresh(Cells(u)) && live == old(live) + Cells(u)
      decreases t, 1
    {
      match c.kind {
        case KSymbol =>
          d := new Cell(c.kind, null, null, c.sym, c.other);
          u := Leaf(d);
        case KCompare(_) =>
          d := new Cell(c.kind, null, null, c.sym, c.other);
          u := Leaf(d);
        case KNot =>
          ghost var a: Shape;
          var l: Cell;
          l, a := Copy(c.left, t.arg, e.arg);
          d := new Cell(c.kind, l, null, c.sym, c.other);
          u := One(d, a);
        case _ =>
          d, u := CopyBoth(c, t, e);
          return;
      }
      live := live + {d};
    }

    method CopyBoth(c: Cell, ghost t: Shape, ghost e: Expr) returns (d: Cell, ghost u: Shape)
      requires c == t.cell && Stores(t, e) && Cells(t) <= live && e.IsJunction()
      modifies this`live
      ensures d == u.cell && Stores(u, e) && Separate(u) && fresh(Cells(u)) && live == old(live) + Cells(u)
      decreases t, 0
    {
      hide Stores;
      hide Separate;
      Below(t, e);
      ghost var a: Shape, b: Shape;
      var l: Cell, r: Cell;
      l, a := Copy(c.left, t.left, e.left);
      r, b := Copy(c.right, t.right, e.right);
      d := new Cell(c.kind, l, r, c.sym, c.other);
      u := Two(d, a, b);
      Assembled(e.Op(), d, a, e.left, b, e.right);
      live := live + {d};
    }

    /** `*e = *tmp; free(tmp)`. */
    method Overwrite(c: Cell, tmp: Cell, ghost t: Shape, ghost e: Expr) returns (ghost u: Shape)
      requires tmp == t.cell && Stores(t, e) && Separate(t) && c !in Cells(t) && Cells(t) + {c} <= live
      modifies this`live, c
      ensures u == WithRoot(t, c) && Stores(u, e) && Separate(u) && Cells(u) == Cells(t) - {tmp} + {c}
      ensures live == old(live) - {tmp}
    {
      c.kind, c.left, c.right, c.sym, c.other := tmp.kind, tmp.left, tmp.right, tmp.sym, tmp.other;
      Free(tmp);
      u := WithRoot(t, c);
      RootReplaced(t, c);
    }

    /** Both operands are freed and the node becomes a constant. */
    method Collapse(c: Cell, s: Symbol, ghost t: Shape, ghost l: Expr, ghost r: Expr) returns (ghost u: Shape)
      requires t.Two? && c == t.cell && StoresParts(t, l, r) && Separate(t) && Cells(t) <= live
      modifies this`live, c
      ensures u == Leaf(c) && Stores(u, Symb(s)) && live == old(live) - Cells(t) + {c}
    {
      FreeAll(c.left, t.left, l);
      FreeAll(c.right, t.right, r);
      c.kind, c.sym, c.right := KSymbol, s, null;
      u := Leaf(c);
    }

    /** `expr_eliminate_yn`. */
    method EliminateYnInPlace(c: Cell, ghost t: Shape, ghost e: Expr) returns (ghost u: Shape)
      requires c == t.cell && Stores(t, e) && Separate(t) && Cells(t) <= live
      modifies this`live, Cells(t)
      ensures u.cell == c && Stores(u, EliminateYn(e)) && Separate(u) && Cells(u) <= Cells(t)
      ensures live == old(live) - Cells(t) + Cells(u)
      decreases t
    {
      hide Stores;
      hide Separate;
      hide Cells;
      KindTells(t, e);
      if c.kind != KAnd && c.kind != KOr {
        u := t;
        return;
      }
      Parts(t, e);
      ghost var a := EliminateYnInPlace(c.left, t.left, e.left);
      ghost var b := EliminateYnInPlace(c.right, t.right, e.right);
      Assembled(e.Op(), c, a, EliminateYn(e.left), b, EliminateYn(e.right));
      ghost var l, r := EliminateYn(e.left), EliminateYn(e.right);
      u := SimplifyNode(c, if c.kind == KAnd then Conj else Disj, Two(c, a, b), l, r);
    }

    /** What follows the recursive calls, for both connectives. */
    method SimplifyNode(c: Cell, op: Junction, ghost w: Shape, ghost l: Expr, ghost r: Expr) returns (ghost u: Shape)
      requires w.Two? && c == w.cell && c.kind == KindOf(op) && StoresParts(w, l, r) && Separate(w) && Cells(w) <= live
      modifies this`live, c
      ensures u.cell == c && Stores(u, Simplified(op, l, r)) && Separate(u) && Cells(u) <= Cells(w)
      ensures live == old(live) - Cells(w) + Cells(u)
    {
      hide Stores;
      hide Separate;
      hide Cells;
      var absorbing, neutral := Constant(op, false), Constant(op, true);
      ApartBelow(w);
      LeafAlone(c);
      KindTells(w.left, l);
      KindTells(w.right, r);
      if c.left.kind == KSymbol && c.left.sym == absorbing {
        u := Collapse(c, absorbing, w, l, r);
      } else if c.left.kind == KSymbol && c.left.sym == neutral {
        SymbolAlone(w.left, l);
        Free(c.left);
        u := Overwrite(c, c.right, w.right, r);
      } else if c.right.kind == KSymbol && c.right.sym == absorbing {
        u := Collapse(c, absorbing, w, l, r);
      } else if c.right.kind == KSymbol && c.right.sym == neutral {
        SymbolAlone(w.right, r);
        Free(c.right);
        u := Overwrite(c, c.left, w.left, l);
      } else {
        u := w;
        Assembled(op, c, w.left, l, w.right, r);
      }
    }

    /** `__expr_eliminate_eq`: the caller stores the two results where the arguments were. */
    method EliminateEqLeavesInPlace(op: Junction, c1: Cell, c2: Cell,
                                    ghost t1: Shape, ghost e1: Expr, ghost t2: Shape, ghost e2: Expr)
      returns (d1: Cell, d2: Cell, ghost u1: Shape, ghost u2: Shape)
      requires c1 == t1.cell && c2 == t2.cell && Pair(t1, e1, t2, e2) && Cells(t1) + Cells(t2) <= live
      modifies this, Cells(t1), Cells(t2)
      ensures d1 == u1.cell && d2 == u2.cell
      ensures var r := EliminateEqLeaves(op, e1, e2); Pair(u1, r.0, u2, r.1)
      ensures fresh(Cells(u1) + Cells(u2) - Cells(t1) - Cells(t2))
      ensures live == old(live) - Cells(t1) - Cells(t2) + Cells(u1) + Cells(u2)
      decreases Size(e1) + Size(e2), if e1.Is(op) || e2.Is(op) then 0 else 3
    {
      KindTells(t1, e1);
      KindTells(t2, e2);
      if c1.kind == KindOf(op) {
        d1, d2, u1, u2 := DescendFirst(op, c1, c2, t1, e1, t2, e2);
      } else if c2.kind == KindOf(op) {
        d1, d2, u1, u2 := DescendSecond(op, c1, c2, t1, e1, t2, e2);
      } else {
        d1, d2, u1, u2 := CompareLeaves(op, c1, c2, t1, e1, t2, e2);
      }
    }

    method DescendFirst(op: Junction, c1: Cell, c2: Cell,
                        ghost t1: Shape, ghost e1: Expr, ghost t2: Shape, ghost e2: Expr)
      returns (d1: Cell, d2: Cell, ghost u1: Shape, ghost u2: Shape)
      requires c1 == t1.cell && c2 == t2.cell && Pair(t1, e1, t2, e2) && Cells(t1) + Cells(t2) <= live
      requires e1.Is(op)
      modifies this, Cells(t1), Cells(t2)
      ensures d1 == u1.cell && d2 == u2.cell
      ensures var r := EliminateEqLeaves(op, e1, e2); Pair(u1, r.0, u2, r.1)
      ensures fresh(Cells(u1) + Cells(u2) - Cells(t1) - Cells(t2))
      ensures live == old(live) - Cells(t1) - Cells(t2) + Cells(u1) + Cells(u2)
      decreases Size(e1) + Size(e2), 0, 0
    {
      hide Stores;
      hide Separate;
      hide Cells;
      hide EliminateEqLeaves;
      Parts(t1, e1);
      LeavesFirst(op, e1, e2);
      ghost var f := EliminateEqLeaves(op, e1.left, e2);
      ghost var a: Shape, b: Shape, m: Shape;
      var l: Cell, r: Cell, mid: Cell;
      l, mid, a, m := EliminateEqLeavesInPlace(op, c1.left, c2, t1.left, e1.left, t2, e2);
      c1.left := l;
      r, d2, b, u2 := EliminateEqLeavesInPlace(op, c1.right, mid, t1.right, e1.right, m, f.1);
      c1.right := r;
      d1, u1 := c1, Two(c1, a, b);
      Assembled(op, c1, a, f.0, b, EliminateEqLeaves(op, e1.right, f.1).0);
    }

    method DescendSecond(op: Junction, c1: Cell, c2: Cell,
                         ghost t1: Shape, ghost e1: Expr, ghost t2: Shape, ghost e2: Expr)
      returns (d1: Cell, d2: Cell, ghost u1: Shape, ghost u2: Shape)
      requires c1 == t1.cell && c2 == t2.cell && Pair(t1, e1, t2, e2) && Cells(t1) + Cells(t2) <= live
      requires !e1.Is(op) && e2.Is(op)
      modifies this, Cells(t1), Cells(t2)
      ensures d1 == u1.cell && d2 == u2.cell
      ensures var r := EliminateEqLeaves(op, e1, e2); Pair(u1, r.0, u2, r.1)
      ensures fresh(Cells(u1) + Cells(u2) - Cells(t1) - Cells(t2))
      ensures live == old(live) - Cells(t1) - Cells(t2) + Cells(u1) + Cells(u2)
      decreases Size(e1) + Size(e2), 0, 0
    {
      hide Stores;
      hide Separate;
      hide Cells;
      hide EliminateEqLeaves;
      Parts(t2, e2);
      LeavesSecond(op, e1, e2);
      ghost var f := EliminateEqLeaves(op, e1, e2.left);
      ghost var a: Shape, b: Shape, m: Shape;
      var l: Cell, r: Cell, mid: Cell;
      mid, l, m, a := EliminateEqLeavesInPlace(op, c1, c2.left, t1, e1, t2.left, e2.left);
      c2.left := l;
      d1, r, u1, b := EliminateEqLeavesInPlace(op, mid, c2.right, m, f.0, t2.right, e2.right);
      c2.right := r;
      d2, u2 := c2, Two(c2, a, b);
      Assembled(op, c2, a, f.1, b, EliminateEqLeaves(op, f.0, e2.right).1);
    }

    method CompareLeaves(op: Junction, c1: Cell, c2: Cell,
                         ghost t1: Shape, ghost e1: Expr, ghost t2: Shape, ghost e2: Expr)
      returns (d1: Cell, d2: Cell, ghost u1: Shape, ghost u2: Shape)
      requires c1 == t1.cell && c2 == t2.cell && Pair(t1, e1, t2, e2) && Cells(t1) + Cells(t2) <= live
      requires !e1.Is(op) && !e2.Is(op)
      modifies this
      ensures d1 == u1.cell && d2 == u2.cell
      ensures var r := EliminateEqLeaves(op, e1, e2); Pair(u1, r.0, u2, r.1)
      ensures fresh(Cells(u1) + Cells(u2) - Cells(t1) - Cells(t2))
      ensures live == old(live) - Cells(t1) - Cells(t2) + Cells(u1) + Cells(u2)
      decreases Size(e1) + Size(e2), 2, 1
    {
      hide Separate;
      hide Stores;
      hide Cells;
      hide EliminateEqLeaves;
      hide ExprEq;
      LeavesCompared(op, e1, e2);
      KindTells(t1, e1);
      KindTells(t2, e2);
      d1, d2, u1, u2 := c1, c2, t1, t2;
      if c1.kind == KSymbol && c2.kind == KSymbol && c1.sym == c2.sym && (c1.sym == SymYes || c1.sym == SymNo) {
        return;
      }
      var equal := ExprEqNodes(c1, c2, t1, e1, t2, e2);
      if !equal {
        return;
      }
      transCount := transCount + 1;
      d1, d2, u1, u2 := ReplaceBoth(Constant(op, true), c1, c2, t1, e1, t2, e2);
    }

    /** Both operands are freed, and a constant takes the place of each. */
    method ReplaceBoth(s: Symbol, c1: Cell, c2: Cell, ghost t1: Shape, ghost e1: Expr, ghost t2: Shape, ghost e2: Expr)
      returns (d1: Cell, d2: Cell, ghost u1: Shape, ghost u2: Shape)
      requires c1 == t1.cell && c2 == t2.cell && Pair(t1, e1, t2, e2) && Cells(t1) + Cells(t2) <= live
      modifies this`live
      ensures d1 == u1.cell && d2 == u2.cell && Pair(u1, Symb(s), u2, Symb(s))
      ensures fresh(Cells(u1) + Cells(u2)) && live == old(live) - Cells(t1) - Cells(t2) + Cells(u1) + Cells(u2)
    {
      hide Separate;
      hide Cells;
      FreeAll(c1, t1, e1);
      FreeAll(c2, t2, e2);
      d1, u1 := AllocSymbol(s);
      d2, u2 := AllocSymbol(s);
      LeafAlone(d1);
      LeafAlone(d2);
    }

    /** `expr_eq` on two expressions, which may share nodes: it works on copies. */
    method ExprEqNodes(c1: Cell, c2: Cell, ghost t1: Shape, ghost e1: Expr, ghost t2: Shape, ghost e2: Expr)
      returns (equal: bool)
      requires c1 == t1.cell && c2 == t2.cell && Stores(t1, e1) && Stores(t2, e2) && Cells(t1) + Cells(t2) <= live
      modifies this
      ensures equal == ExprEq(e1, e2)
      ensures live == old(live) && transCount == old(transCount)
      decreases Size(e1) + Size(e2), 2, 0
    {
      if c1.kind != c2.kind {
        return false;
      }
      match c1.kind {
        case KCompare(_) =>
          return c1.sym == c2.sym && c1.other == c2.other;
        case KSymbol =>
          return c1.sym == c2.sym;
        case KNot =>
          equal := ExprEqNodes(c1.left, c2.left, t1.arg, e1.arg, t2.arg, e2.arg);
        case _ =>
          equal := ExprEqOfCopies(c1, c2, t1, e1, t2, e2);
      }
    }

    method ExprEqOfCopies(c1: Cell, c2: Cell, ghost t1: Shape, ghost e1: Expr, ghost t2: Shape, ghost e2: Expr)
      returns (equal: bool)
      requires c1 == t1.cell && c2 == t2.cell && Stores(t1, e1) && Stores(t2, e2) && Cells(t1) + Cells(t2) <= live
      requires e1.IsJunction() && e2.IsJunction() && e1.Op() == e2.Op()
      modifies this
      ensures equal == ExprEq(e1, e2)
      ensures live == old(live) && transCount == old(transCount)
      decreases Size(e1) + Size(e2), 1, 2
    {
      hide Separate;
      hide Stores;
      hide Cells;
      hide EliminateEq;
      ghost var r := EliminateEq(e1, e2);
      ghost var u1: Shape, u2: Shape;
      var d1: Cell, d2: Cell;
      d1, u1 := Copy(c1, t1, e1);
      d2, u2 := Copy(c2, t2, e2);
      var oldCount := transCount;
      d1, d2, u1, u2 := EliminateEqInPlace(d1, d2, u1, e1, u2, e2);
      KindTells(u1, r.0);
      KindTells(u2, r.1);
      equal := d1.kind == KSymbol && d2.kind == KSymbol && d1.sym == d2.sym;
      FreeAll(d1, u1, r.0);
      FreeAll(d2, u2, r.1);
      transCount := oldCount;
    }

    /** The walk for the connective of the first expression. */
    method MatchFirst(c1: Cell, c2: Cell, ghost t1: Shape, ghost e1: Expr, ghost t2: Shape, ghost e2: Expr)
      returns (d1: Cell, d2: Cell, ghost u1: Shape, ghost u2: Shape)
      requires c1 == t1.cell && c2 == t2.cell && Pair(t1, e1, t2, e2) && Cells(t1) + Cells(t2) <= live
      modifies this, Cells(t1), Cells(t2)
      ensures d1 == u1.cell && d2 == u2.cell
      ensures var f := if e1.IsJunction() then EliminateEqLeaves(e1.Op(), e1, e2) else (e1, e2);
              Pair(u1, f.0, u2, f.1)
      ensures fresh(Cells(u1) + Cells(u2) - Cells(t1) - Cells(t2))
      ensures live == old(live) - Cells(t1) - Cells(t2) + Cells(u1) + Cells(u2)
      decreases Size(e1) + Size(e2), 1, 0
    {
      hide Separate;
      hide Stores;
      hide Cells;
      hide EliminateEqLeaves;
      KindTells(t1, e1);
      d1, d2, u1, u2 := c1, c2, t1, t2;
      if c1.kind == KAnd || c1.kind == KOr {
        d1, d2, u1, u2 := EliminateEqLeavesInPlace(if c1.kind == KAnd then Conj else Disj, c1, c2, t1, e1, t2, e2);
      }
    }

    /** The walk for the connective of the second expression, unless it is that of the first. */
    method MatchSecond(c1: Cell, c2: Cell, ghost t1: Shape, ghost e1: Expr, ghost t2: Shape, ghost e2: Expr)
      returns (d1: Cell, d2: Cell, ghost u1: Shape, ghost u2: Shape)
      requires c1 == t1.cell && c2 == t2.cell && Pair(t1, e1, t2, e2) && Cells(t1) + Cells(t2) <= live
      modifies this, Cells(t1), Cells(t2)
      ensures d1 == u1.cell && d2 == u2.cell
      ensures var g := if e2.IsJunction() && !(e1.IsJunction() && e1.Op() == e2.Op())
                       then EliminateEqLeaves(e2.Op(), e1, e2) else (e1, e2);
              Pair(u1, g.0, u2, g.1)
      ensures fresh(Cells(u1) + Cells(u2) - Cells(t1) - Cells(t2))
      ensures live == old(live) - Cells(t1) - Cells(t2) + Cells(u1) + Cells(u2)
      decreases Size(e1) + Size(e2), 1, 0
    {
      hide Separate;
      hide Stores;
      hide Cells;
      hide EliminateEqLeaves;
      KindTells(t1, e1);
      KindTells(t2, e2);
      d1, d2, u1, u2 := c1, c2, t1, t2;
      if c1.kind != c2.kind && (c2.kind == KAnd || c2.kind == KOr) {
        d1, d2, u1, u2 := EliminateEqLeavesInPlace(if c2.kind == KAnd then Conj else Disj, c1, c2, t1, e1, t2, e2);
      }
    }

    /** `expr_eliminate_eq`. */
    method EliminateEqInPlace(c1: Cell, c2: Cell, ghost t1: Shape, ghost e1: Expr, ghost t2: Shape, ghost e2: Expr)
      returns (d1: Cell, d2: Cell, ghost u1: Shape, ghost u2: Shape)
      requires c1 == t1.cell && c2 == t2.cell && Pair(t1, e1, t2, e2) && Cells(t1) + Cells(t2) <= live
      modifies this, Cells(t1), Cells(t2)
      ensures d1 == u1.cell && d2 == u2.cell
      ensures var r := EliminateEq(e1, e2); Pair(u1, r.0, u2, r.1)
      ensures fresh(Cells(u1) + Cells(u2) - Cells(t1) - Cells(t2))
      ensures live == old(live) - Cells(t1) - Cells(t2) + Cells(u1) + Cells(u2)
      decreases Size(e1) + Size(e2), 1, 1
    {
      hide Separate;
      hide Stores;
      hide Cells;
      hide EliminateEqLeaves;
      hide EliminateYn;
      hide Pair;
      d1, d2, u1, u2 := MatchFirst(c1, c2, t1, e1, t2, e2);
      ghost var f := if e1.IsJunction() then EliminateEqLeaves(e1.Op(), e1, e2) else (e1, e2);
      d1, d2, u1, u2 := MatchSecond(d1, d2, u1, f.0, u2, f.1);
      ghost var g := if f.1.IsJunction() && !(f.0.IsJunction() && f.0.Op() == f.1.Op())
                     then EliminateEqLeaves(f.1.Op(), f.0, f.1) else f;
      u1, u2 := CleanBoth(d1, d2, u1, g.0, u2, g.1);
    }

    /** `expr_eliminate_yn` on both expressions. */
    method CleanBoth(c1: Cell, c2: Cell, ghost t1: Shape, ghost e1: Expr, ghost t2: Shape, ghost e2: Expr)
      returns (ghost u1: Shape, ghost u2: Shape)
      requires c1 == t1.cell && c2 == t2.cell && Pair(t1, e1, t2, e2) && Cells(t1) + Cells(t2) <= live
      modifies this`live, Cells(t1), Cells(t2)
      ensures c1 == u1.cell && c2 == u2.cell && Pair(u1, EliminateYn(e1), u2, EliminateYn(e2))
      ensures Cells(u1) <= Cells(t1) && Cells(u2) <= Cells(t2)
      ensures live == old(live) - Cells(t1) - Cells(t2) + Cells(u1) + Cells(u2)
    {
      hide Separate;
      hide Stores;
      hide Cells;
      hide EliminateYn;
      u1 := EliminateYnInPlace(c1, t1, e1);
      u2 := EliminateYnInPlace(c2, t2, e2);
    }

    /** `expr_alloc_one(E_NOT, l)`. */
    method AllocNot(l: Cell) returns (c: Cell)
      modifies this`live
      ensures fresh(c) && c.kind == KNot && c.left == l && c.right == null && live == old(live) + {c}
    {
      c := new Cell(KNot, l, null, SymNo, SymNo);
      live := live + {c};
    }

    /** `expr_transform`. */
    method TransformInPlace(c: Cell, ghost t: Shape, ghost e: Expr) returns (d: Cell, ghost u: Shape)
      requires c == t.cell && Stores(t, e) && Separate(t) && Cells(t) <= live
      modifies this`live, Cells(t)
      ensures d == u.cell && Stores(u, Transform(e)) && Separate(u) && fresh(Cells(u) - Cells(t))
      ensures live == old(live) - Cells(t) + Cells(u)
      decreases Weight(e), 2
    {
      hide Stores;
      hide Separate;
      hide Cells;
      hide Transform;
      KindTells(t, e);
      TransformUnfolds(e);
      match c.kind {
        case KSymbol => d, u := c, t;
        case KCompare(_) => d, u := TransformCompareNode(c, t, e);
        case KNot => d, u := TransformNotNode(c, t, e);
        case _ =>
          Parts(t, e);
          ghost var a: Shape, b: Shape;
          var l: Cell, r: Cell;
          l, a := TransformInPlace(c.left, t.left, e.left);
          c.left := l;
          r, b := TransformInPlace(c.right, t.right, e.right);
          c.right := r;
          d, u := c, Two(c, a, b);
          Assembled(e.Op(), c, a, Transform(e.left), b, Transform(e.right));
      }
    }

    method TransformCompareNode(c: Cell, ghost t: Shape, ghost e: Expr) returns (d: Cell, ghost u: Shape)
      requires c == t.cell && Stores(t, e) && e.Compare? && Cells(t) <= live
      modifies this`live, c
      ensures d == u.cell && Stores(u, TransformCompare(e)) && Separate(u) && fresh(Cells(u) - Cells(t))
      ensures live == old(live) - Cells(t) + Cells(u)
    {
      d, u := c, t;
      if c.sym.Type() != Boolean {
        return;
      }
      var rel := c.kind.rel;
      if (rel == Equal && c.other == SymNo) || (rel == Unequal && c.other == SymYes) {
        var l: Cell;
        ghost var a: Shape;
        l, a := AllocSymbol(c.sym);
        c.kind, c.left, c.right := KNot, l, null;
        u := One(c, a);
      } else if (rel == Equal && c.other == SymMod) || (rel == Unequal && c.other == SymMod) {
        c.kind, c.sym := KSymbol, if rel == Equal then SymNo else SymYes;
      } else if (rel == Equal && c.other == SymYes) || (rel == Unequal && c.other == SymNo) {
        c.kind := KSymbol;
      }
    }

    method TransformNotNode(c: Cell, ghost t: Shape, ghost e: Expr) returns (d: Cell, ghost u: Shape)
      requires c == t.cell && Stores(t, e) && Separate(t) && Cells(t) <= live && e.Not?
      modifies this`live, Cells(t)
      ensures d == u.cell && Stores(u, Transform(e)) && Separate(u) && fresh(Cells(u) - Cells(t))
      ensures live == old(live) - Cells(t) + Cells(u)
      decreases Weight(e), 1
    {
      hide Stores;
      hide Separate;
      hide Cells;
      hide Transform;
      KindTells(t, e);
      NotParts(t, e);
      TransformUnfolds(e);
      ghost var b := Transform(e.arg);
      ghost var a: Shape;
      var tmp: Cell;
      tmp, a := TransformInPlace(c.left, t.arg, e.arg);
      c.left := tmp;
      NotAssembled(c, a, b);
      d, u := AfterNot(c, One(c, a), e.arg);
    }

    /** The switch on the operand of a NOT; that operand is transformed. */
    method AfterNot(c: Cell, ghost t: Shape, ghost arg: Expr) returns (d: Cell, ghost u: Shape)
      requires c == t.cell && Stores(t, Not(Transform(arg))) && Separate(t) && Cells(t) <= live
      modifies this`live, Cells(t)
      ensures d == u.cell && Stores(u, Transform(Not(arg))) && Separate(u) && fresh(Cells(u) - Cells(t))
      ensures live == old(live) - Cells(t) + Cells(u)
      decreases Weight(Not(arg)), 0
    {
      hide Stores;
      hide Separate;
      hide Cells;
      hide Transform;
      ghost var b := Transform(arg);
      KindTells(t, Not(b));
      NotParts(t, Not(b));
      KindTells(t.arg, b);
      TransformUnfolds(Not(arg));
      var tmp := c.left;
      match tmp.kind {
        case KNot =>
          NotParts(t.arg, b);
          var inner := tmp.left;
          Free(tmp);
          Free(c);
          d, u := TransformInPlace(inner, t.arg.arg, b.arg);
        case KCompare(rel) =>
          Free(c);
          d, u := NegateCompare(tmp, t.arg, b);
        case KSymbol =>
          d, u := NegateSymbol(c, t, b);
        case _ =>
          DeMorganLighter(b.left, b.right);
          ghost var v := DeMorgan(c, t, b);
          d, u := TransformInPlace(c, v, Join(Other(b.Op()), Not(b.left), Not(b.right)));
      }
    }

    method NegateCompare(c: Cell, ghost t: Shape, ghost e: Expr) returns (d: Cell, ghost u: Shape)
      requires c == t.cell && Stores(t, e) && e.Compare?
      modifies c
      ensures d == c && u == t && Stores(u, Compare(Negated(e.rel), e.lhs, e.rhs)) && Separate(u)
    {
      c.kind := KCompare(Negated(c.kind.rel));
      d, u := c, t;
    }

    method NegateSymbol(c: Cell, ghost t: Shape, ghost e: Expr) returns (d: Cell, ghost u: Shape)
      requires c == t.cell && Stores(t, Not(e)) && e.Symb? && Separate(t) && Cells(t) <= live
      modifies this`live, Cells(t)
      ensures d == u.cell && Stores(u, NegatedSymbol(e)) && Separate(u) && Cells(u) <= Cells(t)
      ensures live == old(live) - Cells(t) + Cells(u)
    {
      var tmp := c.left;
      d, u := c, t;
      if tmp.sym == SymYes || tmp.sym == SymMod || tmp.sym == SymNo {
        Free(c);
        tmp.sym := if tmp.sym == SymYes then SymNo else if tmp.sym == SymMod then SymMod else SymYes;
        d, u := tmp, Leaf(tmp);
      }
    }

    /** A negated && or || becomes the other connective of two negations. */
    method DeMorgan(c: Cell, ghost t: Shape, ghost e: Expr) returns (ghost u: Shape)
      requires c == t.cell && Stores(t, Not(e)) && e.IsJunction() && Separate(t) && Cells(t) <= live
      modifies this`live, Cells(t)
      ensures u.cell == c && Stores(u, Join(Other(e.Op()), Not(e.left), Not(e.right))) && Separate(u)
      ensures fresh(Cells(u) - Cells(t)) && live == old(live) - Cells(t) + Cells(u)
    {
      hide Stores;
      hide Separate;
      hide Cells;
      KindTells(t, Not(e));
      NotParts(t, Not(e));
      Parts(t.arg, e);
      var tmp := c.left;
      var n := AllocNot(tmp.right);
      c.kind, c.right := if tmp.kind == KOr then KAnd else KOr, n;
      tmp.kind, tmp.right := KNot, null;
      NotAssembled(tmp, t.arg.left, e.left);
      NotAssembled(n, t.arg.right, e.right);
      u := Two(c, One(tmp, t.arg.left), One(n, t.arg.right));
      Assembled(Other(e.Op()), c, u.left, Not(e.left), u.right, Not(e.right));
    }
  }
}
