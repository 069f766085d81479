/**
 Kconfig dependency expressions: the tristate lattice, symbols, expression trees and
 what an expression evaluates to under a valuation of its symbols.
 */
module TristateExpr {

  /** `enum tristate { no, mod, yes }`, kept as 0, 1, 2 because the source computes with the numbers. */
  type Tristate = t: int | 0 <= t <= 2

  const NO: Tristate := 0
  const MOD: Tristate := 1
  const YES: Tristate := 2

  function Min(a: Tristate, b: Tristate): Tristate {
    if a < b then a else b
  }

  function Max(a: Tristate, b: Tristate): Tristate {
    if a > b then a else b
  }

  datatype SymbolType = Unknown | Boolean | TristateType | Int | Hex | Text

  /** A symbol is identified by its address in the source; here two symbols are the same iff they are equal. */
  datatype Symbol =
    | SymYes
    | SymMod
    | SymNo
    | Sym(id: nat, declaredType: SymbolType, declaredConst: bool)
  {
    function Type(): SymbolType {
      if Sym? then declaredType else Unknown
    }

    predicate IsConst() {
      if Sym? then declaredConst else true
    }

    /** The symbol's string is one of n, m, y and agrees with its tristate. */
    predicate HasTristateText() {
      !Sym? || Type() == Boolean || Type() == TristateType
    }
  }

  datatype Relation = Equal | Unequal | Lth | Leq | Gth | Geq

  /** The two n-ary connectives; `Junction` is the `type` argument of the region walks. */
  datatype Junction = Conj | Disj

  datatype Expr =
    | Symb(sym: Symbol)
    | Not(arg: Expr)
    | And(left: Expr, right: Expr)
    | Or(left: Expr, right: Expr)
    | Compare(rel: Relation, lhs: Symbol, rhs: Symbol)
  {
    predicate Is(op: Junction) {
      if op == Conj then And? else Or?
    }

    predicate IsJunction() {
      And? || Or?
    }

    function Op(): Junction
      requires IsJunction()
    {
      if And? then Conj else Disj
    }
  }

  /** A `struct expr *`, which may be NULL. */
  datatype ExprPtr = Null | Ptr(expr: Expr)

  function Join(op: Junction, l: Expr, r: Expr): (e: Expr)
    ensures e.Is(op) && e.left == l && e.right == r
  {
    if op == Conj then And(l, r) else Or(l, r)
  }

  /** The neutral operand: y for a conjunction, n for a disjunction. */
  function Unit(op: Junction): Expr {
    Symb(if op == Conj then SymYes else SymNo)
  }

  function Size(e: Expr): (n: nat)
    ensures n >= 1
  {
    match e
    case Symb(_) => 1
    case Not(a) => 1 + Size(a)
    case And(l, r) => 1 + Size(l) + Size(r)
    case Or(l, r) => 1 + Size(l) + Size(r)
    case Compare(_, _, _) => 1
  }

  /**
   What the surrounding configuration supplies: the tristate of every symbol, and the sign of
   comparing the string values of two symbols (the `res` of `expr_calc_value`).
   */
  datatype Valuation = Valuation(tri: Symbol -> Tristate, cmp: (Symbol, Symbol) -> int)

  function OfBool(b: bool): Tristate {
    if b then YES else NO
  }

  function Holds(rel: Relation, res: int): bool {
    match rel
    case Equal => res == 0
    case Unequal => res != 0
    case Lth => res < 0
    case Leq => res <= 0
    case Gth => res > 0
    case Geq => res >= 0
  }

  function Apply(op: Junction, a: Tristate, b: Tristate): Tristate {
    if op == Conj then Min(a, b) else Max(a, b)
  }

  function Value(e: Expr, v: Valuation): Tristate {
    match e
    case Symb(s) => v.tri(s)
    case Not(a) => 2 - Value(a, v)
    case And(l, r) => Min(Value(l, v), Value(r, v))
    case Or(l, r) => Max(Value(l, v), Value(r, v))
    case Compare(rel, a, b) => OfBool(Holds(rel, v.cmp(a, b)))
  }

  /** `expr_calc_value`: a missing expression is y. */
  function ValueOf(p: ExprPtr, v: Valuation): Tristate {
    match p
    case Null => YES
    case Ptr(e) => Value(e, v)
  }

  /**
   The facts the kconfig core maintains about its symbols: the three constants have their own
   values, a bool is never m, and comparing a symbol whose string is n, m or y with one of the
   three constants agrees with comparing their tristates.
   */
  ghost predicate Consistent(v: Valuation) {
    && v.tri(SymYes) == YES && v.tri(SymMod) == MOD && v.tri(SymNo) == NO
    && (forall s: Symbol :: s.Type() == Boolean ==> v.tri(s) != MOD)
    && (forall s: Symbol :: s.HasTristateText() ==> (v.cmp(s, SymYes) == 0 <==> v.tri(s) == YES))
    && (forall s: Symbol :: s.HasTristateText() ==> (v.cmp(s, SymMod) == 0 <==> v.tri(s) == MOD))
    && (forall s: Symbol :: s.HasTristateText() ==> (v.cmp(s, SymNo) == 0 <==> v.tri(s) == NO))
  }

  lemma ValueJoin(op: Junction, l: Expr, r: Expr, v: Valuation)
    ensures Value(Join(op, l, r), v) == Apply(op, Value(l, v), Value(r, v))
  {
  }
}
