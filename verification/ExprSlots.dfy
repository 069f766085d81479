/**
 Slots: the `struct expr **` arguments of the in-place walks. A slot is the path from the root of the
 tree to a child of a && or ||, so two slots are the same pointer iff the paths are equal.
 */
module ExprSlots {
  import opened TristateExpr
  import opened ExprEquality

  datatype Side = L | R

  type Path = seq<Side>

  function Child(e: Expr, side: Side): Expr
    requires e.IsJunction()
  {
    if side == L then e.left else e.right
  }

  function WithChild(e: Expr, side: Side, x: Expr): (r: Expr)
    requires e.IsJunction()
    ensures r.IsJunction() && r.Op() == e.Op() && Child(r, side) == x
    ensures forall s: Side :: s != side ==> Child(r, s) == Child(e, s)
  {
    if side == L then Join(e.Op(), x, e.right) else Join(e.Op(), e.left, x)
  }

  predicate HasSlot(e: Expr, p: Path) {
    p == [] || (e.IsJunction() && HasSlot(Child(e, p[0]), p[1..]))
  }

  function At(e: Expr, p: Path): Expr
    requires HasSlot(e, p)
  {
    if p == [] then e else At(Child(e, p[0]), p[1..])
  }

  function Put(e: Expr, p: Path, x: Expr): Expr
    requires HasSlot(e, p)
  {
    if p == [] then x else WithChild(e, p[0], Put(Child(e, p[0]), p[1..], x))
  }

  /** `p` names a node of the maximal `op` region at the root of `e`, or a leaf of that region. */
  predicate InRegion(op: Junction, e: Expr, p: Path) {
    p == [] || (e.Is(op) && InRegion(op, Child(e, p[0]), p[1..]))
  }

  lemma {:induction false} RegionHasSlot(op: Junction, e: Expr, p: Path)
    requires InRegion(op, e, p)
    ensures HasSlot(e, p)
  {
    if p != [] {
      RegionHasSlot(op, Child(e, p[0]), p[1..]);
    }
  }

  /** The expression in region slot `p`. */
  function RegionAt(op: Junction, e: Expr, p: Path): (x: Expr)
    requires InRegion(op, e, p)
    ensures HasSlot(e, p) && x == At(e, p)
    ensures Size(x) <= Size(e) && (p != [] ==> Size(x) < Size(e))
  {
    RegionHasSlot(op, e, p);
    SlotIsSmaller(e, p);
    At(e, p)
  }

  lemma {:induction false} SlotIsSmaller(e: Expr, p: Path)
    requires HasSlot(e, p)
    ensures Size(At(e, p)) <= Size(e) && (p != [] ==> Size(At(e, p)) < Size(e))
  {
    if p != [] {
      SlotIsSmaller(Child(e, p[0]), p[1..]);
    }
  }

  predicate IsLeaf(op: Junction, e: Expr, p: Path) {
    InRegion(op, e, p) && !RegionAt(op, e, p).Is(op)
  }

  // ----- reading and writing slots -----

  lemma {:induction false} PutThenAt(e: Expr, p: Path, x: Expr)
    requires HasSlot(e, p)
    ensures HasSlot(Put(e, p, x), p) && At(Put(e, p, x), p) == x
    ensures Size(Put(e, p, x)) == Size(e) - Size(At(e, p)) + Size(x)
  {
    if p != [] {
      PutThenAt(Child(e, p[0]), p[1..], x);
    }
  }

  lemma {:induction false} PutAt(e: Expr, p: Path)
    requires HasSlot(e, p)
    ensures Put(e, p, At(e, p)) == e
  {
    if p != [] {
      PutAt(Child(e, p[0]), p[1..]);
    }
  }

  /** Writing a slot leaves the slots that are neither above nor below it alone. */
  lemma {:induction false} PutElsewhere(e: Expr, p: Path, q: Path, x: Expr)
    requires HasSlot(e, p) && HasSlot(e, q) && !(p <= q) && !(q <= p)
    ensures HasSlot(Put(e, p, x), q) && At(Put(e, p, x), q) == At(e, q)
  {
    if p[0] == q[0] {
      assert p == [p[0]] + p[1..] && q == [q[0]] + q[1..];
      PutElsewhere(Child(e, p[0]), p[1..], q[1..], x);
    }
  }

  lemma {:induction false} ConstantBelowSlot(e: Expr, p: Path)
    requires HasSlot(e, p)
    requires HasConstantOperand(At(e, p)) || (p != [] && IsYesNo(At(e, p)))
    ensures HasConstantOperand(e)
  {
    if p != [] {
      if p[1..] == [] {
        assert At(e, p) == Child(e, p[0]);
      } else {
        ConstantBelowSlot(Child(e, p[0]), p[1..]);
      }
      if HasConstantOperand(At(e, p)) && p[1..] == [] {
        ConstantBelowSlot(Child(e, p[0]), p[1..]);
      }
    }
  }

  // ----- regions -----

  lemma {:induction false} RegionStep(op: Junction, e: Expr, p: Path)
    requires InRegion(op, e, p) && RegionAt(op, e, p).Is(op)
    ensures forall side :: InRegion(op, e, p + [side]) && RegionAt(op, e, p + [side]) == Child(RegionAt(op, e, p), side)
  {
    forall side
      ensures InRegion(op, e, p + [side]) && RegionAt(op, e, p + [side]) == Child(RegionAt(op, e, p), side)
    {
      var q := p + [side];
      if p == [] {
        assert q[0] == side && q[1..] == [];
        assert At(e, q) == At(Child(e, side), []);
      } else {
        RegionStep(op, Child(e, p[0]), p[1..]);
        assert q[0] == p[0] && q[1..] == p[1..] + [side];
        assert At(e, q) == At(Child(e, p[0]), p[1..] + [side]);
      }
    }
  }

  lemma {:induction false} RegionPrefix(op: Junction, e: Expr, p: Path, q: Path)
    requires InRegion(op, e, p) && q <= p
    ensures InRegion(op, e, q)
    ensures q != p ==> RegionAt(op, e, q).Is(op)
  {
    if q != [] {
      RegionPrefix(op, Child(e, p[0]), p[1..], q[1..]);
    }
  }

  /** Distinct leaves of one region lie in disjoint subtrees. */
  lemma LeavesApart(op: Junction, e: Expr, a: Path, b: Path)
    requires IsLeaf(op, e, a) && IsLeaf(op, e, b) && a != b
    ensures a != [] && b != [] && !(a <= b) && !(b <= a)
  {
    if a <= b {
      RegionPrefix(op, e, b, a);
    }
    if b <= a {
      RegionPrefix(op, e, a, b);
    }
  }

  /** The connectives of the region, without its leaves. */
  ghost predicate SameSpine(op: Junction, e: Expr, f: Expr) {
    if e.Is(op) then f.Is(op) && SameSpine(op, e.left, f.left) && SameSpine(op, e.right, f.right) else !f.Is(op)
  }

  lemma {:induction false} SameSpineRegion(op: Junction, e: Expr, f: Expr, p: Path)
    requires SameSpine(op, e, f) && InRegion(op, e, p)
    ensures InRegion(op, f, p) && SameSpine(op, RegionAt(op, e, p), RegionAt(op, f, p))
  {
    if p != [] {
      SameSpineRegion(op, Child(e, p[0]), Child(f, p[0]), p[1..]);
    }
  }

  lemma {:induction false} SameSpineRefl(op: Junction, e: Expr)
    ensures SameSpine(op, e, e)
  {
    if e.Is(op) {
      SameSpineRefl(op, e.left);
      SameSpineRefl(op, e.right);
    }
  }

  lemma {:induction false} SameSpineTrans(op: Junction, e: Expr, f: Expr, g: Expr)
    requires SameSpine(op, e, f) && SameSpine(op, f, g)
    ensures SameSpine(op, e, g)
  {
    if e.Is(op) {
      SameSpineTrans(op, e.left, f.left, g.left);
      SameSpineTrans(op, e.right, f.right, g.right);
    }
  }

  lemma {:induction false} PutLeafSpine(op: Junction, e: Expr, p: Path, x: Expr)
    requires IsLeaf(op, e, p) && !x.Is(op)
    ensures HasSlot(e, p) && SameSpine(op, e, Put(e, p, x))
  {
    RegionHasSlot(op, e, p);
    if p != [] {
      PutLeafSpine(op, Child(e, p[0]), p[1..], x);
      SameSpineRefl(op, e.left);
      SameSpineRefl(op, e.right);
    }
  }

  /** Size of the spine below a node: what the recursion of a walk goes down. */
  function SpineSize(op: Junction, e: Expr): (n: nat) {
    if e.Is(op) then 1 + SpineSize(op, e.left) + SpineSize(op, e.right) else 0
  }

  lemma {:induction false} SameSpineSize(op: Junction, e: Expr, f: Expr)
    requires SameSpine(op, e, f)
    ensures SpineSize(op, e) == SpineSize(op, f)
  {
    if e.Is(op) {
      SameSpineSize(op, e.left, f.left);
      SameSpineSize(op, e.right, f.right);
    }
  }

  // ----- values of regions -----

  lemma {:induction false} PutSameValue(e: Expr, p: Path, x: Expr, v: Valuation)
    requires HasSlot(e, p) && Value(x, v) == Value(At(e, p), v)
    ensures Value(Put(e, p, x), v) == Value(e, v)
  {
    if p != [] {
      PutSameValue(Child(e, p[0]), p[1..], x, v);
    }
  }

  /** A region is the value of any one of its operands joined with that of the rest. */
  lemma {:induction false} OperandContext(op: Junction, e: Expr, p: Path, v: Valuation) returns (c: Tristate)
    requires InRegion(op, e, p)
    ensures HasSlot(e, p)
    ensures forall x :: Value(Put(e, p, x), v) == Apply(op, c, Value(x, v))
  {
    RegionHasSlot(op, e, p);
    if p == [] {
      c := if op == Conj then YES else NO;
    } else {
      var d := OperandContext(op, Child(e, p[0]), p[1..], v);
      var rest := Value(Child(e, if p[0] == L then R else L), v);
      c := Apply(op, d, rest);
      forall x
        ensures Value(Put(e, p, x), v) == Apply(op, c, Value(x, v))
      {
        ValueOfChildren(op, Put(e, p, x), p[0], v);
      }
    }
  }

  lemma ValueOfChildren(op: Junction, e: Expr, side: Side, v: Valuation)
    requires e.Is(op)
    ensures Value(e, v) == Apply(op, Value(Child(e, side), v), Value(Child(e, if side == L then R else L), v))
  {
  }

  lemma OperandsInDifferentChildren(op: Junction, e: Expr, a: Path, b: Path, x: Expr, v: Valuation)
    requires InRegion(op, e, a) && InRegion(op, e, b) && a != [] && b != [] && a[0] != b[0]
    requires v.tri(SymYes) == YES && v.tri(SymNo) == NO
    requires Value(x, v) == Apply(op, Value(RegionAt(op, e, a), v), Value(RegionAt(op, e, b), v))
    requires HasSlot(e, a) && HasSlot(Put(e, a, Unit(op)), b)
    ensures Value(Put(Put(e, a, Unit(op)), b, x), v) == Value(e, v)
  {
    var ea, eb := Child(e, a[0]), Child(e, b[0]);
    var c := OperandContext(op, ea, a[1..], v);
    var d := OperandContext(op, eb, b[1..], v);
    PutAt(ea, a[1..]);
    PutAt(eb, b[1..]);
    TwoContexts(op, c, d, Value(RegionAt(op, e, a), v), Value(RegionAt(op, e, b), v));
    ValueOfChildren(op, e, a[0], v);
    var f := Put(Put(e, a, Unit(op)), b, x);
    assert Child(f, a[0]) == Put(ea, a[1..], Unit(op)) && Child(f, b[0]) == Put(eb, b[1..], x);
    ValueOfChildren(op, f, a[0], v);
  }

  /** Moving what two distinct operands contribute into the second keeps the value of the region. */
  lemma {:induction false} JoinedOperands(op: Junction, e: Expr, a: Path, b: Path, x: Expr, v: Valuation)
    requires IsLeaf(op, e, a) && IsLeaf(op, e, b) && a != b
    requires v.tri(SymYes) == YES && v.tri(SymNo) == NO
    requires Value(x, v) == Apply(op, Value(RegionAt(op, e, a), v), Value(RegionAt(op, e, b), v))
    ensures HasSlot(e, a) && HasSlot(Put(e, a, Unit(op)), b)
    ensures Value(Put(Put(e, a, Unit(op)), b, x), v) == Value(e, v)
  {
    LeavesApart(op, e, a, b);
    RegionHasSlot(op, e, a);
    RegionHasSlot(op, e, b);
    PutElsewhere(e, a, b, Unit(op));
    if a[0] != b[0] {
      OperandsInDifferentChildren(op, e, a, b, x, v);
    } else {
      assert a == [a[0]] + a[1..] && b == [b[0]] + b[1..];
      var ea := Child(e, a[0]);
      JoinedOperands(op, ea, a[1..], b[1..], x, v);
      var f := Put(Put(e, a, Unit(op)), b, x);
      assert Child(f, a[0]) == Put(Put(ea, a[1..], Unit(op)), b[1..], x);
      ValueOfChildren(op, e, a[0], v);
      ValueOfChildren(op, f, a[0], v);
    }
  }

  lemma TwoContexts(op: Junction, c: Tristate, d: Tristate, x: Tristate, y: Tristate)
    ensures Apply(op, Apply(op, c, x), Apply(op, d, y))
         == Apply(op, Apply(op, c, if op == Conj then YES else NO), Apply(op, d, Apply(op, x, y)))
  {
  }
}
