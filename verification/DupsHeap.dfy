/**
 `expr_eliminate_dups` on linked nodes: the walk through two pointers to pointers into one and the same tree, run until
 nothing joins.
 */
module DupsHeap {
  import opened TristateExpr
  import opened ExprEquality
  import opened ExprJoin
  import opened ExprSlots
  import opened ExprDups
  import opened ExprHeap

  /** A `struct expr **`: the variable that holds the root, or a field of a node. */
  datatype Slot = Whole(root: Cell) | LeftOf(holder: Cell) | RightOf(holder: Cell)

  ghost function Target(s: Slot): Cell?
    reads if s.Whole? then {} else {s.holder}
  {
    match s
    case Whole(c) => c
    case LeftOf(c) => c.left
    case RightOf(c) => c.right
  }

  // ----- paths in shapes -----

  predicate HasPath(t: Shape, p: Path) {
    p == [] || (t.Two? && HasPath(Side0(t, p[0]), p[1..]))
  }

  function Side0(t: Shape, side: Side): Shape
    requires t.Two?
  {
    if side == L then t.left else t.right
  }

  function Opposite(side: Side): Side {
    if side == L then R else L
  }

  function WithSide(t: Shape, side: Side, u: Shape): Shape
    requires t.Two?
  {
    if side == L then Two(t.cell, u, t.right) else Two(t.cell, t.left, u)
  }

  function Sub(t: Shape, p: Path): Shape
    requires HasPath(t, p)
  {
    if p == [] then t else Sub(Side0(t, p[0]), p[1..])
  }

  function PutShape(t: Shape, p: Path, u: Shape): Shape
    requires HasPath(t, p)
  {
    if p == [] then u else WithSide(t, p[0], PutShape(Side0(t, p[0]), p[1..], u))
  }

  /** The pointer to what is at `p`. */
  function SlotFor(t: Shape, p: Path): Slot
    requires HasPath(t, p)
  {
    if p == [] then Whole(t.cell)
    else if |p| == 1 then (if p[0] == L then LeftOf(t.cell) else RightOf(t.cell))
    else SlotFor(Side0(t, p[0]), p[1..])
  }

  /** The cells that are not at or below `p`, but for the one that points there. */
  function Outer(t: Shape, p: Path): set<Cell>
    requires HasPath(t, p)
  {
    if p == [] then {}
    else
      (if |p| == 1 then {} else {t.cell} + Outer(Side0(t, p[0]), p[1..])) + Cells(Side0(t, Opposite(p[0])))
  }

  /** The cell that points to what is at `p`, if it does so by its left or its right field. */
  function Holder(t: Shape, p: Path, side: Side): set<Cell>
    requires HasPath(t, p)
  {
    if p == [] then {}
    else if |p| == 1 then (if p[0] == side then {t.cell} else {})
    else Holder(Side0(t, p[0]), p[1..], side)
  }

  /** The heap stores `e`, except for what is at `p` and the pointer to it. */
  ghost predicate Around(t: Shape, p: Path, e: Expr)
    requires HasPath(t, p)
    reads Outer(t, p), Holder(t, p, L)`kind, Holder(t, p, L)`right, Holder(t, p, R)`kind, Holder(t, p, R)`left
    decreases |p|
  {
    p != [] ==>
      && e.IsJunction() && t.cell.kind == KindOf(e.Op())
      && Stores(Side0(t, Opposite(p[0])), Child(e, Opposite(p[0])))
      && (p[0] == L ==> t.cell.right == t.right.cell) && (p[0] == R ==> t.cell.left == t.left.cell)
      && (|p| > 1 && p[0] == L ==> t.cell.left == t.left.cell)
      && (|p| > 1 && p[0] == R ==> t.cell.right == t.right.cell)
      && Around(Side0(t, p[0]), p[1..], Child(e, p[0]))
  }

  lemma {:induction false} TakeOut(t: Shape, p: Path, e: Expr)
    requires Stores(t, e) && HasSlot(e, p)
    ensures HasPath(t, p) && Around(t, p, e) && Stores(Sub(t, p), At(e, p))
    ensures Target(SlotFor(t, p)) == Sub(t, p).cell
    decreases |p|
  {
    if p != [] {
      TakeOut(Side0(t, p[0]), p[1..], Child(e, p[0]));
    }
  }

  lemma {:induction false} PutBack(t: Shape, p: Path, e: Expr, u: Shape, x: Expr)
    requires HasPath(t, p) && Around(t, p, e) && Stores(u, x)
    requires p != [] ==> Target(SlotFor(t, p)) == u.cell
    ensures HasSlot(e, p) && Stores(PutShape(t, p, u), Put(e, p, x))
    decreases |p|
  {
    if p != [] {
      PutBack(Side0(t, p[0]), p[1..], Child(e, p[0]), u, x);
      assert |p| > 1 ==> PutShape(Side0(t, p[0]), p[1..], u).cell == Side0(t, p[0]).cell;
    }
  }

  /** Where the cells of a shape are, seen from `p`. */
  lemma {:induction false} PathCells(t: Shape, p: Path)
    requires HasPath(t, p) && Separate(t)
    ensures Separate(Sub(t, p)) && Cells(Sub(t, p)) <= Cells(t)
    ensures Cells(t) == Cells(Sub(t, p)) + Outer(t, p) + Holder(t, p, L) + Holder(t, p, R)
    ensures Cells(Sub(t, p)) !! Outer(t, p) + Holder(t, p, L) + Holder(t, p, R)
    ensures Outer(t, p) !! Holder(t, p, L) + Holder(t, p, R)
    ensures p != [] ==>
      match SlotFor(t, p)
      case LeftOf(c) => Holder(t, p, L) == {c} && Holder(t, p, R) == {}
      case RightOf(c) => Holder(t, p, R) == {c} && Holder(t, p, L) == {}
      case Whole(_) => false
    decreases |p|
  {
    if p != [] {
      PathCells(Side0(t, p[0]), p[1..]);
    }
  }

  lemma {:induction false} PutCells(t: Shape, p: Path, u: Shape)
    requires HasPath(t, p) && Separate(t) && Separate(u) && Cells(u) !! (Cells(t) - Cells(Sub(t, p)))
    ensures Separate(PutShape(t, p, u)) && Cells(PutShape(t, p, u)) == Cells(t) - Cells(Sub(t, p)) + Cells(u)
    decreases |p|
  {
    hide Separate;
    hide Cells;
    if p != [] {
      var a, b := Side0(t, p[0]), Side0(t, Opposite(p[0]));
      WithSideCells(t, p[0], a);
      PathCells(a, p[1..]);
      PutCells(a, p[1..], u);
      WithSideCells(t, p[0], PutShape(a, p[1..], u));
    }
  }

  lemma WithSideCells(t: Shape, side: Side, u: Shape)
    requires t.Two?
    ensures Cells(WithSide(t, side, u)) == {t.cell} + Cells(u) + Cells(Side0(t, Opposite(side)))
    ensures Cells(t) == {t.cell} + Cells(Side0(t, side)) + Cells(Side0(t, Opposite(side)))
    ensures Separate(t) ==>
      && t.cell !in Cells(Side0(t, side)) && t.cell !in Cells(Side0(t, Opposite(side)))
      && Cells(Side0(t, side)) !! Cells(Side0(t, Opposite(side)))
      && Separate(Side0(t, side)) && Separate(Side0(t, Opposite(side)))
    ensures Separate(u) && Separate(Side0(t, Opposite(side))) && Cells(u) !! Cells(Side0(t, Opposite(side)))
            && t.cell !in Cells(u) && t.cell !in Cells(Side0(t, Opposite(side)))
            ==> Separate(WithSide(t, side, u))
  {
  }

  lemma {:induction false} PutShapeElsewhere(t: Shape, p: Path, q: Path, u: Shape)
    requires HasPath(t, p) && HasPath(t, q) && !(p <= q) && !(q <= p)
    ensures HasPath(PutShape(t, p, u), q) && Sub(PutShape(t, p, u), q) == Sub(t, q)
    ensures SlotFor(PutShape(t, p, u), q) == SlotFor(t, q)
    ensures Separate(t) ==> Cells(Sub(t, p)) !! Cells(Sub(t, q))
    decreases |p|
  {
    if p[0] == q[0] {
      assert p == [p[0]] + p[1..] && q == [q[0]] + q[1..];
      PutShapeElsewhere(Side0(t, p[0]), p[1..], q[1..], u);
    } else if Separate(t) {
      PathCells(Side0(t, p[0]), p[1..]);
      PathCells(Side0(t, q[0]), q[1..]);
    }
  }

  // ----- the nodes of a region stay where they are -----

  ghost predicate SameInterior(op: Junction, e: Expr, t: Shape, u: Shape) {
    u.cell == t.cell && InteriorBelow(op, e, t, u)
  }

  ghost predicate InteriorBelow(op: Junction, e: Expr, t: Shape, u: Shape) {
    e.Is(op) ==>
      && t.Two? && u.Two? && u.cell == t.cell
      && InteriorBelow(op, e.left, t.left, u.left) && InteriorBelow(op, e.right, t.right, u.right)
  }

  /** The shape has two branches wherever the expression has. */
  predicate Branches(t: Shape, e: Expr) {
    e.IsJunction() ==> t.Two? && Branches(t.left, e.left) && Branches(t.right, e.right)
  }

  lemma {:induction false} StoredBranches(t: Shape, e: Expr)
    requires Stores(t, e)
    ensures Branches(t, e)
  {
    if e.IsJunction() {
      StoredBranches(t.left, e.left);
      StoredBranches(t.right, e.right);
    }
  }

  lemma {:induction false} InteriorRefl(op: Junction, e: Expr, t: Shape)
    requires Branches(t, e)
    ensures SameInterior(op, e, t, t) && InteriorBelow(op, e, t, t)
  {
    if e.Is(op) {
      InteriorRefl(op, e.left, t.left);
      InteriorRefl(op, e.right, t.right);
    }
  }

  lemma {:induction false} InteriorBelowTrans(op: Junction, e: Expr, f: Expr, t: Shape, u: Shape, v: Shape)
    requires InteriorBelow(op, e, t, u) && InteriorBelow(op, f, u, v) && SameSpine(op, e, f)
    ensures InteriorBelow(op, e, t, v)
  {
    if e.Is(op) {
      InteriorBelowTrans(op, e.left, f.left, t.left, u.left, v.left);
      InteriorBelowTrans(op, e.right, f.right, t.right, u.right, v.right);
    }
  }

  lemma InteriorTrans(op: Junction, e: Expr, f: Expr, t: Shape, u: Shape, v: Shape)
    requires SameInterior(op, e, t, u) && SameInterior(op, f, u, v) && SameSpine(op, e, f)
    ensures SameInterior(op, e, t, v)
  {
    if e.Is(op) {
      InteriorBelowTrans(op, e.left, f.left, t.left, u.left, v.left);
      InteriorBelowTrans(op, e.right, f.right, t.right, u.right, v.right);
    }
  }

  /** Replacing a leaf leaves the interior alone. */
  lemma {:induction false} InteriorPutBelow(op: Junction, e: Expr, t: Shape, p: Path, u: Shape)
    requires Branches(t, e) && IsLeaf(op, e, p)
    ensures HasPath(t, p) && InteriorBelow(op, e, t, PutShape(t, p, u))
    decreases |p|
  {
    if p != [] {
      InteriorPutBelow(op, Child(e, p[0]), Side0(t, p[0]), p[1..], u);
      InteriorRefl(op, Child(e, Opposite(p[0])), Side0(t, Opposite(p[0])));
    }
  }

  lemma InteriorPut(op: Junction, e: Expr, t: Shape, p: Path, u: Shape)
    requires Branches(t, e) && IsLeaf(op, e, p) && p != []
    ensures HasPath(t, p) && SameInterior(op, e, t, PutShape(t, p, u))
  {
    InteriorPutBelow(op, e, t, p, u);
  }

  lemma {:induction false} InteriorSlotBelow(op: Junction, e: Expr, t: Shape, u: Shape, p: Path)
    requires InRegion(op, e, p) && p != [] && e.Is(op) && t.cell == u.cell && InteriorBelow(op, e, t, u)
    ensures HasPath(t, p) && HasPath(u, p) && SlotFor(u, p) == SlotFor(t, p)
    decreases |p|
  {
    if |p| > 1 {
      InteriorSlotBelow(op, Child(e, p[0]), Side0(t, p[0]), Side0(u, p[0]), p[1..]);
    } else {
      assert p[1..] == [];
    }
  }

  lemma InteriorSlot(op: Junction, e: Expr, t: Shape, u: Shape, p: Path)
    requires InRegion(op, e, p) && SameInterior(op, e, t, u)
    ensures HasPath(t, p) && HasPath(u, p) && SlotFor(u, p) == SlotFor(t, p)
  {
    if p != [] {
      InteriorSlotBelow(op, e, t, u, p);
    }
  }

  /** One step down from a node of the region. */
  lemma {:induction false} SlotStep(t: Shape, p: Path, side: Side)
    requires HasPath(t, p) && Sub(t, p).Two?
    ensures HasPath(t, p + [side])
    ensures SlotFor(t, p + [side]) == if side == L then LeftOf(Sub(t, p).cell) else RightOf(Sub(t, p).cell)
    decreases |p|
  {
    var q := p + [side];
    if p == [] {
      assert q[1..] == [];
    } else {
      assert q[0] == p[0] && q[1..] == p[1..] + [side];
      SlotStep(Side0(t, p[0]), p[1..], side);
    }
  }

  // ----- writing through a slot -----

  /** `*s = n`. */
  method Write(s: Slot, n: Cell, ghost t: Shape, ghost p: Path, ghost e: Expr, ghost u: Shape, ghost x: Expr,
               ghost world: set<Cell>)
    requires HasPath(t, p) && p != [] && s == SlotFor(t, p) && Around(t, p, e) && Separate(t)
    requires n == u.cell && Stores(u, x) && Separate(u) && Cells(u) !! (Cells(t) - Cells(Sub(t, p)))
    requires Cells(t) + Cells(u) <= world
    modifies Holder(t, p, L)`left, Holder(t, p, R)`right
    ensures HasSlot(e, p) && Stores(PutShape(t, p, u), Put(e, p, x)) && Separate(PutShape(t, p, u))
    ensures Cells(PutShape(t, p, u)) == Cells(t) - Cells(Sub(t, p)) + Cells(u)
  {
    PathCells(t, p);
    match s {
      case LeftOf(c) => c.left := n;
      case RightOf(c) => c.right := n;
      case Whole(_) => assert false;
    }
    PutBack(t, p, e, u, x);
    PutCells(t, p, u);
  }

  /** `*s` */
  method Read(s: Slot, ghost t: Shape, ghost p: Path, ghost e: Expr) returns (c: Cell)
    requires HasPath(t, p) && s == SlotFor(t, p) && Stores(t, e) && HasSlot(e, p)
    ensures c == Sub(t, p).cell && Stores(Sub(t, p), At(e, p))
  {
    TakeOut(t, p, e);
    match s {
      case Whole(r) => c := r;
      case LeftOf(h) => c := h.left;
      case RightOf(h) => c := h.right;
    }
  }

  // ----- expr_join_or and expr_join_and on nodes -----

  /** The expression in a node, if the join functions look into it. */
  method Literal(c: Cell, ghost t: Shape, ghost e: Expr) returns (lit: ExprPtr)
    requires c == t.cell && Stores(t, e)
    ensures lit.Ptr? ==> lit.expr == e
    ensures lit.Null? ==> forall d: Expr :: JoinedSymbol(e, d).Null? && JoinedSymbol(d, e).Null?
    ensures lit.Null? <==> !(e.Symb? || e.Compare? || (e.Not? && (e.arg.Symb? || e.arg.Compare?)))
  {
    KindTells(t, e);
    match c.kind {
      case KSymbol => lit := Ptr(Symb(c.sym));
      case KCompare(rel) => lit := Ptr(Compare(rel, c.sym, c.other));
      case KNot =>
        var a := c.left;
        KindTells(t.arg, e.arg);
        match a.kind {
          case KSymbol => lit := Ptr(Not(Symb(a.sym)));
          case KCompare(rel) => lit := Ptr(Not(Compare(rel, a.sym, a.other)));
          case _ => lit := Null;
        }
      case _ => lit := Null;
    }
  }

  /** A new node for a symbol or a comparison. */
  method AllocLiteral(st: Store, x: Expr) returns (c: Cell, ghost u: Shape)
    requires x.Symb? || x.Compare?
    modifies st`live
    ensures fresh(c) && u == Leaf(c) && Stores(u, x) && st.live == old(st.live) + {c}
  {
    c := new Cell(if x.Symb? then KSymbol else KCompare(x.rel), null, null, if x.Symb? then x.sym else x.lhs,
                  if x.Symb? then x.sym else x.rhs);
    u := Leaf(c);
    st.live := st.live + {c};
  }

  lemma JoinedIsLiteral(op: Junction, e1: Expr, e2: Expr)
    requires !ExprEq(e1, e2) && JoinWith(op, e1, e2).Ptr?
    ensures JoinWith(op, e1, e2).expr.Symb? || JoinWith(op, e1, e2).expr.Compare?
    ensures JoinedSymbol(e1, e2).Ptr?
  {
  }

  method JoinNodes(st: Store, op: Junction, c1: Cell, c2: Cell,
                   ghost t1: Shape, ghost e1: Expr, ghost t2: Shape, ghost e2: Expr)
    returns (r: Cell?, ghost u: Shape)
    requires c1 == t1.cell && c2 == t2.cell && Stores(t1, e1) && Stores(t2, e2) && Cells(t1) + Cells(t2) <= st.live
    modifies st
    ensures st.transCount == old(st.transCount)
    ensures r == null <==> JoinWith(op, e1, e2).Null?
    ensures r == null ==> st.live == old(st.live)
    ensures r != null ==> r == u.cell && Stores(u, JoinWith(op, e1, e2).expr) && Separate(u) && fresh(Cells(u))
    ensures r != null ==> st.live == old(st.live) + Cells(u)
  {
    hide ExprEq;
    hide Stores;
    hide Separate;
    r, u := null, t1;
    var equal := st.ExprEqNodes(c1, c2, t1, e1, t2, e2);
    if equal {
      r, u := st.Copy(c1, t1, e1);
      return;
    }
    var l1 := Literal(c1, t1, e1);
    var l2 := Literal(c2, t2, e2);
    if JoinWith(op, e1, e2).Ptr? {
      JoinedIsLiteral(op, e1, e2);
    }
    if l1.Ptr? && l2.Ptr? {
      var j := JoinWith(op, l1.expr, l2.expr);
      if j.Ptr? {
        r, u := AllocLiteral(st, j.expr);
        LeafAlone(u.cell);
      }
    }
  }

  // ----- expr_eliminate_dups1 -----

  /** A region in nodes of its own, with slots for two places in it. */
  ghost predicate Ready(op: Junction, s1: Slot, s2: Slot, t: Shape, e: Expr, p1: Path, p2: Path)
    reads Cells(t)
  {
    && Stores(t, e) && Separate(t) && InRegion(op, e, p1) && InRegion(op, e, p2)
    && HasPath(t, p1) && HasPath(t, p2) && s1 == SlotFor(t, p1) && s2 == SlotFor(t, p2)
  }

  /** The region afterwards: the nodes of its spine have stayed where they are. */
  ghost predicate Done(op: Junction, t: Shape, e: Expr, p1: Path, p2: Path, u: Shape, f: Expr, joined: bool)
    reads Cells(u)
  {
    Stores(u, f) && Separate(u) && SameInterior(op, e, t, u) && Walked(op, e, p1, p2, f, joined)
  }

  lemma StillReady(op: Junction, s1: Slot, s2: Slot, t: Shape, e: Expr, u: Shape, f: Expr, p1: Path, p2: Path)
    requires HasPath(t, p1) && HasPath(t, p2) && s1 == SlotFor(t, p1) && s2 == SlotFor(t, p2)
    requires InRegion(op, e, p1) && InRegion(op, e, p2)
    requires Stores(u, f) && Separate(u) && SameInterior(op, e, t, u) && SameSpine(op, e, f)
    ensures Ready(op, s1, s2, u, f, p1, p2)
  {
    InteriorSlot(op, e, t, u, p1);
    InteriorSlot(op, e, t, u, p2);
    SameSpineRegion(op, e, f, p1);
    SameSpineRegion(op, e, f, p2);
  }

  /** Both walks of a split, one after the other. */
  lemma DoneFirst(op: Junction, t: Shape, e: Expr, p1: Path, p2: Path, u: Shape, f: Expr, v: Shape, g: Expr,
                  j: bool, k: bool)
    requires InRegion(op, e, p1) && InRegion(op, e, p2) && RegionAt(op, e, p1).Is(op)
    requires SameInterior(op, e, t, u) && Walked(op, e, p1 + [L], p2, f, j) && Done(op, u, f, p1 + [R], p2, v, g, k)
    ensures Done(op, t, e, p1, p2, v, g, j || k)
  {
    InteriorTrans(op, e, f, t, u, v);
    SplitFirst(op, e, p1, p2, f, g, j, k);
  }

  lemma DoneSecond(op: Junction, t: Shape, e: Expr, p1: Path, p2: Path, u: Shape, f: Expr, v: Shape, g: Expr,
                   j: bool, k: bool)
    requires InRegion(op, e, p1) && InRegion(op, e, p2) && RegionAt(op, e, p2).Is(op)
    requires SameInterior(op, e, t, u) && Walked(op, e, p1, p2 + [L], f, j) && Done(op, u, f, p1, p2 + [R], v, g, k)
    ensures Done(op, t, e, p1, p2, v, g, j || k)
  {
    InteriorTrans(op, e, f, t, u, v);
    SplitSecond(op, e, p1, p2, f, g, j, k);
  }

  /** The slots one step down. */
  lemma ReadyBelow(op: Junction, s: Slot, t: Shape, e: Expr, p: Path, side: Side)
    requires Stores(t, e) && Separate(t) && InRegion(op, e, p) && RegionAt(op, e, p).Is(op)
    ensures HasPath(t, p) && InRegion(op, e, p + [side]) && HasPath(t, p + [side])
    ensures SlotFor(t, p + [side]) == if side == L then LeftOf(Sub(t, p).cell) else RightOf(Sub(t, p).cell)
  {
    RegionStep(op, e, p);
    TakeOut(t, p, e);
    SlotStep(t, p, side);
  }

  /** `expr_eliminate_dups1` */
  method EliminateDups1(st: Store, op: Junction, s1: Slot, s2: Slot, ghost t: Shape, ghost e: Expr,
                        ghost p1: Path, ghost p2: Path)
    returns (ghost u: Shape, ghost f: Expr)
    requires Ready(op, s1, s2, t, e, p1, p2) && Cells(t) <= st.live
    modifies st, Cells(t)
    ensures st.transCount >= old(st.transCount)
    ensures Done(op, t, e, p1, p2, u, f, st.transCount > old(st.transCount))
    ensures fresh(Cells(u) - Cells(t)) && st.live == old(st.live) - Cells(t) + Cells(u)
    decreases Size(e), SpineSize(op, RegionAt(op, e, p1)) + SpineSize(op, RegionAt(op, e, p2)), 2
  {
    RegionHasSlot(op, e, p1);
    RegionHasSlot(op, e, p2);
    var c1 := Read(s1, t, p1, e);
    KindTells(Sub(t, p1), At(e, p1));
    var c2 := Read(s2, t, p2, e);
    KindTells(Sub(t, p2), At(e, p2));
    if c1.kind == KindOf(op) {
      u, f := DescendFirst(st, op, s1, s2, c1, t, e, p1, p2);
    } else if c2.kind == KindOf(op) {
      u, f := DescendSecond(st, op, s1, s2, c2, t, e, p1, p2);
    } else if c1 == c2 {
      u, f := t, e;
      LeafCells(op, t, e, p1, p2);
      SameLeaf(op, e, p1);
      StoredBranches(t, e);
      InteriorRefl(op, e, t);
    } else {
      u, f := ProcessLeaves(st, op, s1, s2, t, e, p1, p2);
    }
  }

  /** Two leaves of a region are the same node exactly if they are in the same place. */
  lemma LeafCells(op: Junction, t: Shape, e: Expr, p1: Path, p2: Path)
    requires Stores(t, e) && Separate(t) && IsLeaf(op, e, p1) && IsLeaf(op, e, p2)
    ensures HasPath(t, p1) && HasPath(t, p2)
    ensures Sub(t, p1).cell == Sub(t, p2).cell <==> p1 == p2
  {
    TakeOut(t, p1, e);
    TakeOut(t, p2, e);
    if p1 != p2 {
      LeavesApart(op, e, p1, p2);
      PutShapeElsewhere(t, p1, p2, t);
    }
  }

  method DescendFirst(st: Store, op: Junction, s1: Slot, s2: Slot, c1: Cell, ghost t: Shape, ghost e: Expr,
                      ghost p1: Path, ghost p2: Path)
    returns (ghost u: Shape, ghost f: Expr)
    requires Ready(op, s1, s2, t, e, p1, p2) && Cells(t) <= st.live
    requires RegionAt(op, e, p1).Is(op) && c1 == Sub(t, p1).cell
    modifies st, Cells(t)
    ensures st.transCount >= old(st.transCount)
    ensures Done(op, t, e, p1, p2, u, f, st.transCount > old(st.transCount))
    ensures fresh(Cells(u) - Cells(t)) && st.live == old(st.live) - Cells(t) + Cells(u)
    decreases Size(e), SpineSize(op, RegionAt(op, e, p1)) + SpineSize(op, RegionAt(op, e, p2)), 1
  {
    hide Stores;
    hide Separate;
    hide Cells;
    hide SameInterior;
    hide Walked;
    ghost var count := st.transCount;
    ReadyBelow(op, s1, t, e, p1, L);
    ReadyBelow(op, s1, t, e, p1, R);
    RegionStep(op, e, p1);
    u, f := EliminateDups1(st, op, LeftOf(c1), s2, t, e, p1 + [L], p2);
    ghost var v, g, mid := u, f, st.transCount;
    WalkedSpine(op, e, p1 + [L], p2, f, mid > count);
    KeepsRegion(op, e, f, p1, p2);
    StillReady(op, RightOf(c1), s2, t, e, u, f, p1 + [R], p2);
    RegionStep(op, f, p1);
    v, g := EliminateDups1(st, op, RightOf(c1), s2, u, f, p1 + [R], p2);
    DoneFirst(op, t, e, p1, p2, u, f, v, g, mid > count, st.transCount > mid);
    u, f := v, g;
  }

  lemma WalkedSpine(op: Junction, e: Expr, p1: Path, p2: Path, f: Expr, joined: bool)
    requires Walked(op, e, p1, p2, f, joined)
    ensures SameSpine(op, e, f) && Size(f) <= Size(e)
  {
  }

  method DescendSecond(st: Store, op: Junction, s1: Slot, s2: Slot, c2: Cell, ghost t: Shape, ghost e: Expr,
                       ghost p1: Path, ghost p2: Path)
    returns (ghost u: Shape, ghost f: Expr)
    requires Ready(op, s1, s2, t, e, p1, p2) && Cells(t) <= st.live
    requires RegionAt(op, e, p2).Is(op) && c2 == Sub(t, p2).cell
    modifies st, Cells(t)
    ensures st.transCount >= old(st.transCount)
    ensures Done(op, t, e, p1, p2, u, f, st.transCount > old(st.transCount))
    ensures fresh(Cells(u) - Cells(t)) && st.live == old(st.live) - Cells(t) + Cells(u)
    decreases Size(e), SpineSize(op, RegionAt(op, e, p1)) + SpineSize(op, RegionAt(op, e, p2)), 1
  {
    hide Stores;
    hide Separate;
    hide Cells;
    hide SameInterior;
    hide Walked;
    ghost var count := st.transCount;
    ReadyBelow(op, s2, t, e, p2, L);
    ReadyBelow(op, s2, t, e, p2, R);
    RegionStep(op, e, p2);
    u, f := EliminateDups1(st, op, s1, LeftOf(c2), t, e, p1, p2 + [L]);
    ghost var v, g, mid := u, f, st.transCount;
    WalkedSpine(op, e, p1, p2 + [L], f, mid > count);
    KeepsRegion(op, e, f, p1, p2);
    StillReady(op, s1, RightOf(c2), t, e, u, f, p1, p2 + [R]);
    RegionStep(op, f, p2);
    v, g := EliminateDups1(st, op, s1, RightOf(c2), u, f, p1, p2 + [R]);
    DoneSecond(op, t, e, p1, p2, u, f, v, g, mid > count, st.transCount > mid);
    u, f := v, g;
  }

  /** The part of the walk that compares two distinct leaves. */
  method ProcessLeaves(st: Store, op: Junction, s1: Slot, s2: Slot, ghost t: Shape, ghost e: Expr,
                       ghost p1: Path, ghost p2: Path)
    returns (ghost u: Shape, ghost f: Expr)
    requires Ready(op, s1, s2, t, e, p1, p2) && Cells(t) <= st.live
    requires IsLeaf(op, e, p1) && IsLeaf(op, e, p2) && p1 != p2
    modifies st, Cells(t)
    ensures st.transCount >= old(st.transCount)
    ensures Done(op, t, e, p1, p2, u, f, st.transCount > old(st.transCount))
    ensures fresh(Cells(u) - Cells(t)) && st.live == old(st.live) - Cells(t) + Cells(u)
    decreases Size(e), 0, 1
  {
    hide Stores;
    hide Separate;
    hide Cells;
    hide SameInterior;
    hide Walked;
    ghost var count := st.transCount;
    LeavesApart(op, e, p1, p2);
    u, f := ProcessOperand(st, op, s1, t, e, p1);
    ghost var mid := st.transCount;
    StillReady(op, s1, s2, t, e, u, f, p1, p2);
    SameSpineRegion(op, e, f, p1);
    SameSpineRegion(op, e, f, p2);
    ghost var v, g := JoinLeaves(st, op, s1, s2, u, f, p1, p2);
    LeavesProcessed(op, e, f, g, p1, p2, mid > count, st.transCount > mid);
    InteriorTrans(op, e, f, t, u, v);
    u, f := v, g;
  }

  /** What was done to the first leaf, and then to both. */
  lemma LeavesProcessed(op: Junction, e: Expr, f: Expr, g: Expr, p1: Path, p2: Path, j: bool, k: bool)
    requires IsLeaf(op, e, p1) && IsLeaf(op, e, p2) && p1 != p2 && OperandDone(op, e, p1, f, j)
    requires SameSpine(op, e, f) && IsLeaf(op, f, p1) && IsLeaf(op, f, p2)
    requires k ==> Walked(op, f, p1, p2, g, true)
    requires !k ==> g == f && JoinWith(op, RegionAt(op, f, p1), RegionAt(op, f, p2)).Null?
    ensures Walked(op, e, p1, p2, g, j || k)
  {
    if k {
      if j {
        WalkedFromJoin(op, e, f, g, p1, p2, true);
      }
    } else if !j {
      LeavesKept(op, e, p1, p2);
    }
  }

  /** The operand at `p` was walked as a region of its own, if it is one. */
  ghost predicate OperandDone(op: Junction, e: Expr, p: Path, f: Expr, joined: bool) {
    && IsLeaf(op, e, p)
    && SameSpine(op, e, f) && Size(f) <= Size(e) && SameValue(e, f)
    && (joined ==> HasConstantOperand(f))
    && (!joined ==> f == e && Settled(RegionAt(op, e, p)))
  }

  method ProcessOperand(st: Store, op: Junction, s: Slot, ghost t: Shape, ghost e: Expr, ghost p: Path)
    returns (ghost u: Shape, ghost f: Expr)
    requires Stores(t, e) && Separate(t) && Cells(t) <= st.live
    requires IsLeaf(op, e, p) && p != [] && HasPath(t, p) && s == SlotFor(t, p)
    modifies st, Cells(t)
    ensures st.transCount >= old(st.transCount)
    ensures Stores(u, f) && Separate(u) && SameInterior(op, e, t, u)
    ensures OperandDone(op, e, p, f, st.transCount > old(st.transCount))
    ensures fresh(Cells(u) - Cells(t)) && st.live == old(st.live) - Cells(t) + Cells(u)
    decreases Size(e), 0, 0
  {
    hide Stores;
    hide Separate;
    hide Cells;
    hide SameInterior;
    hide Walked;
    ghost var count := st.transCount;
    u, f := t, e;
    StoredBranches(t, e);
    InteriorRefl(op, e, t);
    InteriorOf(op, e, t);
    SameSpineRefl(op, e);
    RegionHasSlot(op, e, p);
    TakeOut(t, p, e);
    PathCells(t, p);
    var c := Read(s, t, p, e);
    ghost var t1, e1 := Sub(t, p), At(e, p);
    KindTells(t1, e1);
    if c.kind == KAnd || c.kind == KOr {
      RootReady(t1, e1);
      ghost var u1, x := EliminateDups1(st, if c.kind == KAnd then Conj else Disj, Whole(c), Whole(c), t1, e1, [], []);
      u, f := PutShape(t, p, u1), Put(e, p, x);
      SameRoot(e1.Op(), e1, t1, u1);
      PutBack(t, p, e, u1, x);
      PutCells(t, p, u1);
      InnerWalked(op, e, p, x, st.transCount > count);
      InteriorPut(op, e, t, p, u1);
    }
  }

  lemma InteriorOf(op: Junction, e: Expr, t: Shape)
    requires InteriorBelow(op, e, t, t)
    ensures SameInterior(op, e, t, t)
  {
  }

  lemma SameRoot(op: Junction, e: Expr, t: Shape, u: Shape)
    requires SameInterior(op, e, t, u)
    ensures u.cell == t.cell
  {
  }

  lemma RootReady(t: Shape, e: Expr)
    requires Stores(t, e) && Separate(t) && e.IsJunction()
    ensures Ready(e.Op(), Whole(t.cell), Whole(t.cell), t, e, [], [])
  {
  }

  /** Join two leaves, if they can be: a unit takes the place of the first, the joined expression that of the second. */
  method JoinLeaves(st: Store, op: Junction, s1: Slot, s2: Slot, ghost t: Shape, ghost e: Expr,
                    ghost p1: Path, ghost p2: Path)
    returns (ghost u: Shape, ghost f: Expr)
    requires Ready(op, s1, s2, t, e, p1, p2) && Cells(t) <= st.live
    requires IsLeaf(op, e, p1) && IsLeaf(op, e, p2) && p1 != p2
    modifies st, Cells(t)
    ensures st.transCount >= old(st.transCount)
    ensures Stores(u, f) && Separate(u) && SameInterior(op, e, t, u) && SameSpine(op, e, f)
    ensures st.transCount > old(st.transCount) ==> Walked(op, e, p1, p2, f, true)
    ensures st.transCount == old(st.transCount) ==>
              f == e && JoinWith(op, RegionAt(op, e, p1), RegionAt(op, e, p2)).Null?
    ensures fresh(Cells(u) - Cells(t)) && st.live == old(st.live) - Cells(t) + Cells(u)
  {
    hide Stores;
    hide Separate;
    hide Cells;
    hide SameInterior;
    hide Walked;
    u, f := t, e;
    StoredBranches(t, e);
    InteriorRefl(op, e, t);
    InteriorOf(op, e, t);
    SameSpineRefl(op, e);
    RegionHasSlot(op, e, p1);
    RegionHasSlot(op, e, p2);
    var c1: Cell, c2: Cell, r: Cell?;
    ghost var w: Shape;
    c1, c2, r, w := JoinSlots(st, op, s1, s2, t, e, p1, p2);
    if r != null {
      u, f := ReplaceLeaves(st, op, s1, s2, c1, c2, r, t, e, p1, p2, w, JoinWith(op, At(e, p1), At(e, p2)).expr);
      LeavesJoined(op, e, p1, p2);
      st.transCount := st.transCount + 1;
    }
  }

  /** What two slots point to, joined. */
  method JoinSlots(st: Store, op: Junction, s1: Slot, s2: Slot, ghost t: Shape, ghost e: Expr,
                   ghost p1: Path, ghost p2: Path)
    returns (c1: Cell, c2: Cell, r: Cell?, ghost w: Shape)
    requires Stores(t, e) && Separate(t) && Cells(t) <= st.live && HasSlot(e, p1) && HasSlot(e, p2)
    requires HasPath(t, p1) && HasPath(t, p2) && s1 == SlotFor(t, p1) && s2 == SlotFor(t, p2)
    modifies st
    ensures c1 == Sub(t, p1).cell && c2 == Sub(t, p2).cell && st.transCount == old(st.transCount)
    ensures r == null <==> JoinWith(op, At(e, p1), At(e, p2)).Null?
    ensures r == null ==> st.live == old(st.live)
    ensures r != null ==> r == w.cell && Stores(w, JoinWith(op, At(e, p1), At(e, p2)).expr) && Separate(w)
    ensures r != null ==> fresh(Cells(w)) && st.live == old(st.live) + Cells(w)
  {
    hide Stores;
    hide Separate;
    hide Cells;
    c1 := Read(s1, t, p1, e);
    c2 := Read(s2, t, p2, e);
    TakeOut(t, p1, e);
    TakeOut(t, p2, e);
    PathCells(t, p1);
    PathCells(t, p2);
    r, w := JoinNodes(st, op, c1, c2, Sub(t, p1), At(e, p1), Sub(t, p2), At(e, p2));
  }

  /** Free both leaves and store what takes their places. */
  method ReplaceLeaves(st: Store, op: Junction, s1: Slot, s2: Slot, c1: Cell, c2: Cell, r: Cell,
                       ghost t: Shape, ghost e: Expr, ghost p1: Path, ghost p2: Path, ghost w: Shape, ghost x: Expr)
    returns (ghost u: Shape, ghost f: Expr)
    requires Ready(op, s1, s2, t, e, p1, p2) && Cells(t) <= st.live
    requires IsLeaf(op, e, p1) && IsLeaf(op, e, p2) && p1 != p2 && c1 == Sub(t, p1).cell && c2 == Sub(t, p2).cell
    requires r == w.cell && Stores(w, x) && Separate(w) && Cells(w) <= st.live && Cells(w) !! Cells(t) && !x.Is(op)
    modifies st`live, Cells(t)
    ensures HasSlot(e, p1) && HasSlot(Put(e, p1, Unit(op)), p2) && f == Put(Put(e, p1, Unit(op)), p2, x)
    ensures Stores(u, f) && Separate(u) && SameInterior(op, e, t, u) && SameSpine(op, e, f)
    ensures fresh(Cells(u) - Cells(t) - Cells(w)) && Cells(u) >= Cells(w)
    ensures st.live == old(st.live) - Cells(t) - Cells(w) + Cells(u)
  {
    hide Stores;
    hide Separate;
    hide Cells;
    hide SameInterior;
    hide Sub;
    hide PutShape;
    hide SlotFor;
    hide HasPath;
    hide Put;
    hide At;
    hide HasSlot;
    hide SameSpine;
    ghost var world := st.live;
    RegionHasSlot(op, e, p1);
    RegionHasSlot(op, e, p2);
    LeavesApart(op, e, p1, p2);
    var n: Cell;
    ghost var a: Shape;
    n, a := FreeLeaves(st, op, c1, c2, t, e, p1, p2);
    LeafAlone(n);
    u, f := ReplaceLeaf(op, s1, n, t, e, p1, a, Unit(op), world + {n});
    PutElsewhere(e, p1, p2, Unit(op));
    PutShapeElsewhere(t, p1, p2, a);
    SameSpineRegion(op, e, f, p2);
    ghost var v, g := u, f;
    u, f := ReplaceLeaf(op, s2, r, v, g, p2, w, x, world + {n});
    InteriorTrans(op, e, g, t, v, u);
    SameSpineTrans(op, e, g, f);
  }

  /** `expr_free` on both leaves, and a new unit. */
  method FreeLeaves(st: Store, op: Junction, c1: Cell, c2: Cell, ghost t: Shape, ghost e: Expr,
                    ghost p1: Path, ghost p2: Path)
    returns (n: Cell, ghost a: Shape)
    requires Stores(t, e) && Separate(t) && Cells(t) <= st.live
    requires HasSlot(e, p1) && HasSlot(e, p2) && HasPath(t, p1) && HasPath(t, p2) && !(p1 <= p2) && !(p2 <= p1)
    requires c1 == Sub(t, p1).cell && c2 == Sub(t, p2).cell
    modifies st`live
    ensures Cells(Sub(t, p1)) + Cells(Sub(t, p2)) <= Cells(t) && Cells(Sub(t, p1)) !! Cells(Sub(t, p2))
    ensures fresh(n) && a == Leaf(n) && Stores(a, Unit(op))
    ensures st.live == old(st.live) - Cells(Sub(t, p1)) - Cells(Sub(t, p2)) + {n}
  {
    hide Stores;
    hide Separate;
    hide Cells;
    TakeOut(t, p1, e);
    PathCells(t, p1);
    PathCells(t, p2);
    PutShapeElsewhere(t, p1, p2, t);
    st.FreeAll(c1, Sub(t, p1), At(e, p1));
    TakeOut(t, p2, e);
    st.FreeAll(c2, Sub(t, p2), At(e, p2));
    n, a := st.AllocSymbol(Constant(op, true));
  }

  /** Store another expression where a leaf was. */
  method ReplaceLeaf(op: Junction, s: Slot, n: Cell, ghost t: Shape, ghost e: Expr, ghost p: Path,
                     ghost w: Shape, ghost x: Expr, ghost world: set<Cell>)
    returns (ghost u: Shape, ghost f: Expr)
    requires Stores(t, e) && Separate(t) && IsLeaf(op, e, p) && p != [] && HasPath(t, p) && s == SlotFor(t, p)
    requires n == w.cell && Stores(w, x) && Separate(w) && Cells(w) !! Cells(t) && !x.Is(op)
    requires Cells(t) + Cells(w) <= world
    modifies Cells(t)
    ensures HasSlot(e, p) && f == Put(e, p, x) && u == PutShape(t, p, w)
    ensures Stores(u, f) && Separate(u) && SameInterior(op, e, t, u) && SameSpine(op, e, f)
    ensures Cells(u) == Cells(t) - Cells(Sub(t, p)) + Cells(w)
  {
    hide Stores;
    hide Separate;
    hide Cells;
    hide SameInterior;
    StoredBranches(t, e);
    TakeOut(t, p, e);
    PathCells(t, p);
    Write(s, n, t, p, e, w, x, world);
    u, f := PutShape(t, p, w), Put(e, p, x);
    InteriorPut(op, e, t, p, w);
    PutLeafSpine(op, e, p, x);
  }

  // ----- expr_eliminate_dups -----

  /** `expr_eliminate_dups`: the loop ends, and then nothing in the expression joins. */
  method EliminateDups(st: Store, c: Cell, ghost t: Shape, ghost e: Expr) returns (ghost u: Shape, ghost f: Expr)
    requires c == t.cell && Stores(t, e) && Separate(t) && Cells(t) <= st.live
    modifies st, Cells(t)
    ensures u.cell == c && Stores(u, f) && Separate(u) && fresh(Cells(u) - Cells(t))
    ensures SameValue(e, f) && Settled(f) && Size(f) <= Size(e)
    ensures Deduplicated(f) && OnceEach(f)
    ensures st.live == old(st.live) - Cells(t) + Cells(u) && st.transCount == old(st.transCount)
  {
    hide Deduplicated;
    hide OnceEach;
    hide Settled;
    hide Stores;
    hide Separate;
    hide Cells;
    hide Walked;
    var oldCount := st.transCount;
    u, f := t, e;
    while true
      invariant u.cell == c && Stores(u, f) && Separate(u) && fresh(Cells(u) - Cells(t))
      invariant SameValue(e, f) && Size(f) <= Size(e)
      invariant st.live == old(st.live) - Cells(t) + Cells(u) && Cells(u) <= st.live
      decreases Size(f)
    {
      ghost var g := f;
      u, f := Pass(st, c, u, f);
      if st.transCount == 0 {
        break;
      }
      EliminateYnRemovesConstants(f);
      EliminateYnSameValue(f);
      u := st.EliminateYnInPlace(c, u, f);
      f := EliminateYn(f);
    }
    st.transCount := oldCount;
    SettledDeduplicates(f);
    DeduplicatedOnce(f);
  }

  /** One pass of the loop; the counter tells whether anything joined. */
  method Pass(st: Store, c: Cell, ghost t: Shape, ghost e: Expr) returns (ghost u: Shape, ghost f: Expr)
    requires c == t.cell && Stores(t, e) && Separate(t) && Cells(t) <= st.live
    modifies st, Cells(t)
    ensures u.cell == c && Stores(u, f) && Separate(u) && fresh(Cells(u) - Cells(t))
    ensures SameValue(e, f) && Size(f) <= Size(e)
    ensures st.transCount == 0 ==> f == e && Settled(f)
    ensures st.transCount > 0 ==> HasConstantOperand(f)
    ensures st.live == old(st.live) - Cells(t) + Cells(u)
  {
    hide Stores;
    hide Separate;
    hide Cells;
    hide NoJoins;
    st.transCount := 0;
    u, f := t, e;
    KindTells(t, e);
    if c.kind == KAnd || c.kind == KOr {
      RootReady(t, e);
      u, f := EliminateDups1(st, if c.kind == KAnd then Conj else Disj, Whole(c), Whole(c), t, e, [], []);
      SameRoot(e.Op(), e, t, u);
      if st.transCount == 0 {
        WholeRegionSettled(e);
      }
    }
  }
}
