/**
 `expr_transform`: comparisons of bools with n, m, y become literals and negations are pushed down
 to the symbols.
 */
module ExprTransform {
  import opened TristateExpr
  import opened ExprEquality
  import opened ExprJoin

  /** Bounds what transforming an expression can still cost: a negation doubles what is below it. */
  function Weight(e: Expr): (n: nat)
    ensures n >= 1
  {
    match e
    case Symb(_) => 1
    case Compare(_, _, _) => 2
    case Not(a) => 2 * Weight(a)
    case And(l, r) => 1 + Weight(l) + Weight(r)
    case Or(l, r) => 1 + Weight(l) + Weight(r)
  }

  function Negated(rel: Relation): Relation {
    match rel
    case Equal => Unequal
    case Unequal => Equal
    case Leq => Gth
    case Geq => Lth
    case Lth => Geq
    case Gth => Leq
  }

  function TransformCompare(e: Expr): (r: Expr)
    requires e.Compare?
    ensures Weight(r) <= Weight(e)
  {
    if e.lhs.Type() != Boolean then e
    else if e.rel == Equal then
      if e.rhs == SymNo then Not(Symb(e.lhs))
      else if e.rhs == SymMod then Symb(SymNo)
      else if e.rhs == SymYes then Symb(e.lhs)
      else e
    else if e.rel == Unequal then
      if e.rhs == SymNo then Symb(e.lhs)
      else if e.rhs == SymMod then Symb(SymYes)
      else if e.rhs == SymYes then Not(Symb(e.lhs))
      else e
    else e
  }

  lemma DeMorganLighter(l: Expr, r: Expr)
    ensures Weight(And(Not(l), Not(r))) < Weight(Not(Or(l, r)))
    ensures Weight(Or(Not(l), Not(r))) < Weight(Not(And(l, r)))
  {
    assert Weight(Not(l)) == 2 * Weight(l) && Weight(Not(r)) == 2 * Weight(r);
  }

  /** `expr_transform` on a non-NULL expression. */
  function Transform(e: Expr): (r: Expr)
    ensures Weight(r) <= Weight(e)
    decreases Weight(e)
  {
    match e
    case Symb(_) => e
    case Compare(_, _, _) => TransformCompare(e)
    case And(l, r) => And(Transform(l), Transform(r))
    case Or(l, r) => Or(Transform(l), Transform(r))
    case Not(a) =>
      var b := Transform(a);
      match b
      case Not(c) => Transform(c)
      case Compare(rel, x, y) => Compare(Negated(rel), x, y)
      case Or(l, r) => DeMorganLighter(l, r); Transform(And(Not(l), Not(r)))
      case And(l, r) => DeMorganLighter(l, r); Transform(Or(Not(l), Not(r)))
      case Symb(s) =>
        if s == SymYes then Symb(SymNo)
        else if s == SymMod then Symb(SymMod)
        else if s == SymNo then Symb(SymYes)
        else Not(b)
  }

  lemma {:induction false} TransformPreservesValue(e: Expr, v: Valuation)
    requires Consistent(v)
    ensures Value(Transform(e), v) == Value(e, v)
    decreases Weight(e)
  {
    match e
    case Symb(_) =>
    case Compare(_, lhs, _) =>
      if lhs.Type() == Boolean {
        assert lhs.HasTristateText();
      }
    case And(l, r) =>
      TransformPreservesValue(l, v);
      TransformPreservesValue(r, v);
    case Or(l, r) =>
      TransformPreservesValue(l, v);
      TransformPreservesValue(r, v);
    case Not(a) =>
      TransformPreservesValue(a, v);
      match Transform(a)
      case Not(c) => TransformPreservesValue(c, v);
      case Or(l, r) =>
        DeMorganLighter(l, r);
        TransformPreservesValue(And(Not(l), Not(r)), v);
      case And(l, r) =>
        DeMorganLighter(l, r);
        TransformPreservesValue(Or(Not(l), Not(r)), v);
      case _ =>
  }

  /** Each NOT sits on a non-constant symbol and no bool is tested for = or != against n, m or y. */
  predicate IsNormal(e: Expr) {
    match e
    case Symb(_) => true
    case Not(a) => a.Symb? && a.sym.Sym?
    case And(l, r) => IsNormal(l) && IsNormal(r)
    case Or(l, r) => IsNormal(l) && IsNormal(r)
    case Compare(rel, a, b) => a.Type() == Boolean && (rel == Equal || rel == Unequal) ==> b.Sym?
  }

  lemma {:induction false} TransformNormalizes(e: Expr)
    ensures IsNormal(Transform(e))
    decreases Weight(e)
  {
    match e
    case Symb(_) =>
    case Compare(_, _, _) =>
    case And(l, r) =>
      TransformNormalizes(l);
      TransformNormalizes(r);
    case Or(l, r) =>
      TransformNormalizes(l);
      TransformNormalizes(r);
    case Not(a) =>
      TransformNormalizes(a);
      match Transform(a)
      case Not(c) => TransformNormalizes(c);
      case Or(l, r) =>
        DeMorganLighter(l, r);
        TransformNormalizes(And(Not(l), Not(r)));
      case And(l, r) =>
        DeMorganLighter(l, r);
        TransformNormalizes(Or(Not(l), Not(r)));
      case _ =>
  }

  /** Transforming a normal form changes nothing, so a second run is the identity. */
  lemma {:induction false} NormalIsFixed(e: Expr)
    requires IsNormal(e)
    ensures Transform(e) == e
  {
    if e.IsJunction() {
      NormalIsFixed(e.left);
      NormalIsFixed(e.right);
    }
  }

  lemma TransformIdempotent(e: Expr)
    ensures Transform(Transform(e)) == Transform(e)
  {
    TransformNormalizes(e);
    NormalIsFixed(Transform(e));
  }
}
