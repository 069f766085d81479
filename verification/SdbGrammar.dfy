/** The expressions of the debugger: trees, how they are written, what they mean, and what the scans find in them. */
module SdbGrammar {
  import opened MachineWords

  type Word = Word32

  datatype Kind = PLUS | MINUS | STAR | SLASH | LPAREN | RPAREN | EQ | NEQ | AND | NEG | DEREF

  /** A token: a number or register with its value, or a symbol. */
  datatype Token = Operand(value: Word) | Sym(k: Kind)

  datatype Tree =
    | Num(value: Word)
    | Paren(inner: Tree)
    | Unary(op: Kind, arg: Tree)
    | Binary(op: Kind, left: Tree, right: Tree)

  predicate UnaryKind(k: Kind) { k in {NEG, DEREF} }

  predicate BinaryKind(k: Kind) { k in {PLUS, MINUS, STAR, SLASH, EQ, NEQ, AND} }

  /** `get_op_precedence`: smaller binds tighter; 0 for parentheses, -1 for operands. */
  function Precedence(t: Token): int {
    match t
    case Operand(_) => -1
    case Sym(k) =>
      match k
      case LPAREN => 0
      case RPAREN => 0
      case NEG => 1
      case DEREF => 1
      case STAR => 2
      case SLASH => 2
      case PLUS => 3
      case MINUS => 3
      case EQ => 4
      case NEQ => 4
      case AND => 5
  }

  /** How loosely the outermost operator binds. */
  function Level(t: Tree): int {
    match t
    case Num(_) => 0
    case Paren(_) => 0
    case Unary(_, _) => 1
    case Binary(op, _, _) => Precedence(Sym(op))
  }

  /**
   * The trees that precedence and left association give: a left operand may bind as loosely as its operator, a right
   * operand must bind tighter, and a unary operator stands directly before a number or a parenthesis.
   */
  predicate Proper(t: Tree) {
    match t
    case Num(_) => true
    case Paren(u) => Proper(u)
    case Unary(op, u) => UnaryKind(op) && Proper(u) && Level(u) == 0
    case Binary(op, l, r) =>
      BinaryKind(op) && Proper(l) && Proper(r) && Level(l) <= Level(t) && Level(r) < Level(t)
  }

  function Render(t: Tree): (s: seq<Token>)
    ensures |s| >= 1
  {
    match t
    case Num(v) => [Operand(v)]
    case Paren(u) => [Sym(LPAREN)] + Render(u) + [Sym(RPAREN)]
    case Unary(op, u) => [Sym(op)] + Render(u)
    case Binary(op, l, r) => Render(l) + [Sym(op)] + Render(r)
  }

  // ----- meaning -----

  /** The memory a dereference sees: physical memory and a reader of words. */
  datatype Memory = Memory(inPmem: Word -> bool, read: Word -> Word)

  function Quotient(x: Word, y: Word): Word
    requires y != 0
  {
    x / y
  }

  function Apply(op: Kind, m: Memory, x: Word, y: Word): Word {
    match op
    case PLUS => (x + y) % B32
    case MINUS => (x - y) % B32
    case STAR => (x * y) % B32
    case SLASH => if y != 0 then Quotient(x, y) else 0
    case EQ => if x == y then 1 else 0
    case NEQ => if x != y then 1 else 0
    case AND => if x != 0 && y != 0 then 1 else 0
    case NEG => (0 - y) % B32
    case DEREF => if m.inPmem(y) then m.read(y) else 0
    case _ => 0
  }

  function Value(m: Memory, t: Tree): Word {
    match t
    case Num(v) => v
    case Paren(u) => Value(m, u)
    case Unary(op, u) => Apply(op, m, 0, Value(m, u))
    case Binary(op, l, r) => Apply(op, m, Value(m, l), Value(m, r))
  }

  // ----- nesting -----

  function Delta(t: Token): int { if t == Sym(LPAREN) then 1 else if t == Sym(RPAREN) then -1 else 0 }

  function Depth(s: seq<Token>): int {
    if s == [] then 0 else Depth(s[..|s| - 1]) + Delta(s[|s| - 1])
  }

  lemma {:induction false} DepthConcat(a: seq<Token>, b: seq<Token>)
    ensures Depth(a + b) == Depth(a) + Depth(b)
  {
    if b == [] {
      assert a + b == a;
    } else {
      assert (a + b)[..|a + b| - 1] == a + b[..|b| - 1];
      DepthConcat(a, b[..|b| - 1]);
    }
  }

  lemma DepthOne(t: Token)
    ensures Depth([t]) == Delta(t)
  {
    assert [t][..0] == [];
  }

  /** A closing parenthesis without an opening one, or the other way round. */
  ghost predicate Bad(s: seq<Token>) {
    Depth(s) != 0 || exists n :: 0 <= n <= |s| && Depth(s[..n]) < 0
  }

  /** No proper prefix is balanced. */
  ghost predicate Full(s: seq<Token>) {
    !Bad(s) && forall n :: 0 < n < |s| ==> Depth(s[..n]) != 0
  }

  lemma {:induction false} RenderDepth(t: Tree)
    requires Proper(t)
    ensures Depth(Render(t)) == 0
  {
    match t
    case Num(v) => DepthOne(Operand(v));
    case Paren(u) =>
      RenderDepth(u);
      DepthOne(Sym(LPAREN));
      DepthOne(Sym(RPAREN));
      DepthConcat([Sym(LPAREN)], Render(u));
      DepthConcat([Sym(LPAREN)] + Render(u), [Sym(RPAREN)]);
    case Unary(op, u) =>
      RenderDepth(u);
      DepthOne(Sym(op));
      DepthConcat([Sym(op)], Render(u));
    case Binary(op, l, r) =>
      RenderDepth(l);
      RenderDepth(r);
      DepthOne(Sym(op));
      DepthConcat(Render(l), [Sym(op)]);
      DepthConcat(Render(l) + [Sym(op)], Render(r));
  }

  lemma {:induction false} RenderPrefix(t: Tree, n: nat)
    requires Proper(t) && n <= |Render(t)|
    ensures Depth(Render(t)[..n]) >= 0
    ensures t.Paren? && 0 < n < |Render(t)| ==> Depth(Render(t)[..n]) > 0
  {
    var s := Render(t);
    if n == 0 {
      assert s[..0] == [];
    } else if n == |s| {
      assert s[..n] == s;
      RenderDepth(t);
    } else {
      match t
      case Num(_) => assert false;
      case Paren(u) =>
        assert s[..n] == [Sym(LPAREN)] + Render(u)[..n - 1];
        DepthConcat([Sym(LPAREN)], Render(u)[..n - 1]);
        DepthOne(Sym(LPAREN));
        RenderPrefix(u, n - 1);
      case Unary(op, u) =>
        assert s[..n] == [Sym(op)] + Render(u)[..n - 1];
        DepthConcat([Sym(op)], Render(u)[..n - 1]);
        DepthOne(Sym(op));
        RenderPrefix(u, n - 1);
      case Binary(op, l, r) => BinaryPrefix(op, l, r, n);
    }
  }

  lemma {:induction false} BinaryPrefix(op: Kind, l: Tree, r: Tree, n: nat)
    requires Proper(Binary(op, l, r)) && n <= |Render(Binary(op, l, r))|
    ensures Depth(Render(Binary(op, l, r))[..n]) >= 0
    decreases Binary(op, l, r), 0
  {
    var s := Render(Binary(op, l, r));
    if n <= |Render(l)| {
      assert s[..n] == Render(l)[..n];
      RenderPrefix(l, n);
    } else {
      var m := n - |Render(l)| - 1;
      assert s[..n] == Render(l) + [Sym(op)] + Render(r)[..m];
      DepthConcat(Render(l) + [Sym(op)], Render(r)[..m]);
      DepthConcat(Render(l), [Sym(op)]);
      DepthOne(Sym(op));
      RenderDepth(l);
      RenderPrefix(r, m);
    }
  }

  /** What `check_parentheses` finds in a written tree. */
  lemma RenderFull(t: Tree)
    requires Proper(t)
    ensures !Bad(Render(t))
    ensures Full(Render(t)) <==> t.Num? || t.Paren?
  {
    var s := Render(t);
    RenderDepth(t);
    forall n | 0 <= n <= |s| ensures Depth(s[..n]) >= 0 && (t.Paren? && 0 < n < |s| ==> Depth(s[..n]) > 0) {
      RenderPrefix(t, n);
    }
    match t
    case Num(_) =>
    case Paren(_) =>
    case Unary(op, u) =>
      assert s[..1] == [Sym(op)];
      DepthOne(Sym(op));
    case Binary(op, l, r) =>
      assert s[..|Render(l)|] == Render(l);
      RenderDepth(l);
  }

  // ----- the main operator -----

  /** The operator on top of the stack: its index and precedence. */
  datatype Top = Nothing | Operator(at: nat, prec: int)

  function Push(top: Top, at: nat, prec: int): Top {
    if top.Nothing? || prec >= top.prec then Operator(at, prec) else top
  }

  /** How many tokens the parenthesis group at the start takes. */
  ghost function GroupLength(s: seq<Token>, n: nat): (r: nat)
    requires 1 <= n <= |s|
    ensures n <= r <= |s|
    decreases |s| - n
  {
    if n == |s| || Full(s[..n]) then n else GroupLength(s, n + 1)
  }

  /** The scan of `get_main_op` over tokens starting at index `at`. */
  ghost function Scan(s: seq<Token>, at: nat, top: Top): Top {
    if s == [] then top
    else if Precedence(s[0]) == -1 then Scan(s[1..], at + 1, top)
    else if Precedence(s[0]) != 0 then Scan(s[1..], at + 1, Push(top, at, Precedence(s[0])))
    else if |s| == 1 then top
    else
      var n := GroupLength(s, 2);
      Scan(s[n..], at + n, top)
  }

  /** The index of the outermost operator of a written tree. */
  function MainIndex(t: Tree): nat
    requires t.Unary? || t.Binary?
  {
    if t.Unary? then 0 else |Render(t.left)|
  }

  /** The effect of scanning a written tree: its outermost operator counts, nothing inside it does. */
  function After(t: Tree, at: nat, top: Top): Top {
    if t.Num? || t.Paren? then top else Push(top, at + MainIndex(t), Level(t))
  }

  lemma GroupIsParen(u: Tree, post: seq<Token>)
    requires Proper(u)
    ensures var s := Render(Paren(u)); GroupLength(s + post, 2) == |s|
  {
    var s := Render(Paren(u));
    RenderFull(Paren(u));
    assert (s + post)[..|s|] == s;
    GroupReaches(s + post, 2, |s|) by {
      forall n | 2 <= n < |s| ensures !Full((s + post)[..n]) {
        RenderPrefix(Paren(u), n);
        assert (s + post)[..n] == s[..n];
      }
    }
  }

  lemma {:induction false} GroupReaches(s: seq<Token>, n: nat, k: nat)
    requires 1 <= n <= k <= |s| && Full(s[..k])
    requires forall i :: n <= i < k ==> !Full(s[..i])
    ensures GroupLength(s, n) == k
    decreases k - n
  {
    if n < k {
      GroupReaches(s, n + 1, k);
    }
  }

  lemma ScanOperator(op: Kind, rest: seq<Token>, at: nat, top: Top)
    requires UnaryKind(op) || BinaryKind(op)
    ensures Scan([Sym(op)] + rest, at, top) == Scan(rest, at + 1, Push(top, at, Precedence(Sym(op))))
  {
    assert ([Sym(op)] + rest)[1..] == rest;
  }

  lemma ScanGroup(u: Tree, post: seq<Token>, at: nat, top: Top)
    requires Proper(u)
    ensures Scan(Render(Paren(u)) + post, at, top) == Scan(post, at + |Render(Paren(u))|, top)
  {
    var s := Render(Paren(u)) + post;
    GroupIsParen(u, post);
    assert s[|Render(Paren(u))|..] == post;
  }

  lemma {:induction false} ScanTree(t: Tree, post: seq<Token>, at: nat, top: Top)
    requires Proper(t)
    ensures Scan(Render(t) + post, at, top) == Scan(post, at + |Render(t)|, After(t, at, top))
    decreases t
  {
    hide Scan;
    match t
    case Num(v) =>
      ScanOperand(v, post, at, top);
    case Paren(u) =>
      ScanGroup(u, post, at, top);
    case Unary(op, u) =>
      assert Render(t) + post == [Sym(op)] + (Render(u) + post);
      ScanOperator(op, Render(u) + post, at, top);
      ScanTree(u, post, at + 1, Push(top, at, 1));
    case Binary(op, l, r) =>
      var rest := [Sym(op)] + (Render(r) + post);
      assert Render(t) + post == Render(l) + rest;
      ScanTree(l, rest, at, top);
      var mid := at + |Render(l)|;
      ScanOperator(op, Render(r) + post, mid, After(l, at, top));
      ScanTree(r, post, mid + 1, Push(After(l, at, top), mid, Level(t)));
  }

  lemma ScanOperand(v: Word, post: seq<Token>, at: nat, top: Top)
    ensures Scan([Operand(v)] + post, at, top) == Scan(post, at + 1, top)
  {
    assert ([Operand(v)] + post)[1..] == post;
  }

  /** `get_main_op` finds the outermost operator. */
  lemma ScanFindsMain(t: Tree, at: nat)
    requires Proper(t) && (t.Unary? || t.Binary?)
    ensures Scan(Render(t), at, Nothing) == Operator(at + MainIndex(t), Level(t))
  {
    assert Render(t) + [] == Render(t);
    ScanTree(t, [], at, Nothing);
  }
}
