/** The debugger's evaluator: token array and error flag updated in place, and the recursive evaluation over it. */
module SdbEval {
  import opened Options
  import opened MachineWords
  import opened SdbGrammar
  import L = SdbLayers

  // ----- telling unary from binary operators -----

  /** The token as the lexer delivers it. */
  function Raw(t: Token): Token {
    if t == Sym(NEG) then Sym(MINUS) else if t == Sym(DEREF) then Sym(STAR) else t
  }

  function RawAll(s: seq<Token>): (r: seq<Token>)
    ensures |r| == |s| && forall i :: 0 <= i < |s| ==> r[i] == Raw(s[i])
  {
    seq(|s|, i requires 0 <= i < |s| => Raw(s[i]))
  }

  /** After these, a minus or star is unary. */
  predicate Allows(before: Option<Token>) {
    before.None? || before.value in {Sym(PLUS), Sym(MINUS), Sym(STAR), Sym(SLASH), Sym(LPAREN)}
  }

  function Classify(before: Option<Token>, t: Token): Token {
    if !Allows(before) then t else if t == Sym(MINUS) then Sym(NEG) else if t == Sym(STAR) then Sym(DEREF) else t
  }

  function LastOf(before: Option<Token>, s: seq<Token>): Option<Token> {
    if s == [] then before else Some(s[|s| - 1])
  }

  /** Each token is decided by the one before it, already decided. */
  function Tokenised(s: seq<Token>): (r: seq<Token>)
    ensures |r| == |s|
  {
    if s == [] then [] else
      var r := Tokenised(s[..|s| - 1]);
      r + [Classify(LastOf(None, r), s[|s| - 1])]
  }

  predicate StartsUnary(t: Tree) {
    match t
    case Num(_) => false
    case Paren(_) => false
    case Unary(_, _) => true
    case Binary(_, l, _) => StartsUnary(l)
  }

  /** No unary operator directly after a comparison or `&&`. */
  predicate Writable(t: Tree) {
    match t
    case Num(_) => true
    case Paren(u) => Writable(u)
    case Unary(_, u) => Writable(u)
    case Binary(op, l, r) => Writable(l) && Writable(r) && (StartsUnary(r) ==> op in {PLUS, MINUS, STAR, SLASH})
  }

  /** Deciding the raw tokens of `s` after `before` gives `s` back. */
  predicate Stable(before: Option<Token>, s: seq<Token>)
    decreases |s|
  {
    s == [] || (Classify(before, Raw(s[0])) == s[0] && Stable(Some(s[0]), s[1..]))
  }

  lemma LastToken(t: Tree)
    requires Proper(t)
    ensures var s := Render(t); !Allows(Some(s[|s| - 1])) && LastOf(None, s) == Some(s[|s| - 1])
  {
    if t.Binary? {
      LastToken(t.right);
    } else if t.Unary? {
      LastToken(t.arg);
    }
  }

  lemma StableOne(before: Option<Token>, t: Token, rest: seq<Token>)
    ensures Stable(before, [t] + rest) <==> Classify(before, Raw(t)) == t && Stable(Some(t), rest)
  {
    assert ([t] + rest)[1..] == rest;
  }

  lemma ClassifyOperator(before: Option<Token>, op: Kind)
    ensures UnaryKind(op) ==> (Classify(before, Raw(Sym(op))) == Sym(op) <==> Allows(before))
    ensures BinaryKind(op) && !Allows(before) ==> Classify(before, Raw(Sym(op))) == Sym(op)
    ensures BinaryKind(op) ==> (Allows(Some(Sym(op))) <==> op in {PLUS, MINUS, STAR, SLASH})
  {
  }

  lemma {:induction false} StableTree(before: Option<Token>, t: Tree, post: seq<Token>)
    requires Proper(t)
    ensures Stable(before, Render(t) + post)
       <==> Writable(t) && (StartsUnary(t) ==> Allows(before)) && Stable(LastOf(None, Render(t)), post)
    decreases t
  {
    hide Stable;
    hide Classify;
    LastToken(t);
    match t
    case Num(v) =>
      StableOne(before, Operand(v), post);
      ClassifyOther(before, Operand(v));
    case Paren(u) =>
      assert Render(t) + post == [Sym(LPAREN)] + (Render(u) + ([Sym(RPAREN)] + post));
      StableOne(before, Sym(LPAREN), Render(u) + ([Sym(RPAREN)] + post));
      ClassifyOther(before, Sym(LPAREN));
      StableTree(Some(Sym(LPAREN)), u, [Sym(RPAREN)] + post);
      StableOne(LastOf(None, Render(u)), Sym(RPAREN), post);
      ClassifyOther(LastOf(None, Render(u)), Sym(RPAREN));
    case Unary(op, u) =>
      assert Render(t) + post == [Sym(op)] + (Render(u) + post);
      StableOne(before, Sym(op), Render(u) + post);
      ClassifyOperator(before, op);
      StableTree(Some(Sym(op)), u, post);
    case Binary(op, l, r) =>
      assert Render(t) + post == Render(l) + ([Sym(op)] + (Render(r) + post));
      LastToken(l);
      StableTree(before, l, [Sym(op)] + (Render(r) + post));
      StableOne(LastOf(None, Render(l)), Sym(op), Render(r) + post);
      ClassifyOperator(LastOf(None, Render(l)), op);
      StableTree(Some(Sym(op)), r, post);
  }

  lemma ClassifyOther(before: Option<Token>, t: Token)
    requires t.Operand? || t.k in {LPAREN, RPAREN}
    ensures Classify(before, Raw(t)) == t
  {
  }

  /** Token `n` of `s` is what the decision gives for its raw form. */
  predicate Decided(before: Option<Token>, s: seq<Token>, n: nat)
    requires n < |s|
  {
    Classify(LastOf(before, s[..n]), Raw(s[n])) == s[n]
  }

  lemma DecidedTail(before: Option<Token>, s: seq<Token>, n: nat)
    requires 0 < n < |s|
    ensures Decided(before, s, n) == Decided(Some(s[0]), s[1..], n - 1)
  {
    assert s[1..][..n - 1] == s[1..n];
    assert LastOf(Some(s[0]), s[1..][..n - 1]) == LastOf(before, s[..n]);
  }

  lemma {:induction false} StableMeansDecided(before: Option<Token>, s: seq<Token>)
    ensures Stable(before, s) <==> forall n :: 0 <= n < |s| ==> Decided(before, s, n)
    decreases |s|
  {
    if s != [] {
      StableMeansDecided(Some(s[0]), s[1..]);
      assert Decided(before, s, 0) == (Classify(before, Raw(s[0])) == s[0]);
      forall n | 0 < n < |s| ensures Decided(before, s, n) == Decided(Some(s[0]), s[1..], n - 1) {
        DecidedTail(before, s, n);
      }
      forall n | 0 <= n < |s| - 1 ensures Decided(before, s, n + 1) == Decided(Some(s[0]), s[1..], n) {
        DecidedTail(before, s, n + 1);
      }
    }
  }

  lemma {:induction false} DecidedTokenised(s: seq<Token>, n: nat)
    requires n <= |s|
    ensures Tokenised(RawAll(s)[..n]) == s[..n] <==> forall i :: 0 <= i < n ==> Decided(None, s, i)
    decreases n
  {
    if n > 0 {
      DecidedTokenised(s, n - 1);
      var r := Tokenised(RawAll(s)[..n - 1]);
      assert RawAll(s)[..n][..n - 1] == RawAll(s)[..n - 1];
      assert Tokenised(RawAll(s)[..n]) == r + [Classify(LastOf(None, r), Raw(s[n - 1]))];
      assert s[..n] == s[..n - 1] + [s[n - 1]];
      var last := Classify(LastOf(None, r), Raw(s[n - 1]));
      assert (r + [last])[..n - 1] == r && (r + [last])[n - 1] == last;
      assert s[..n][..n - 1] == s[..n - 1] && s[..n][n - 1] == s[n - 1];
      assert r + [last] == s[..n] <==> r == s[..n - 1] && last == s[n - 1];
      assert r == s[..n - 1] ==> (last == s[n - 1] <==> Decided(None, s, n - 1));
    }
  }

  /** `tokenise` recovers a written tree exactly when no unary operator directly follows `==`, `!=` or `&&`. */
  lemma TokenisedRender(t: Tree)
    requires Proper(t)
    ensures Tokenised(RawAll(Render(t))) == Render(t) <==> Writable(t)
  {
    var s := Render(t);
    assert s + [] == s;
    StableTree(None, t, []);
    StableMeansDecided(None, s);
    DecidedTokenised(s, |s|);
    assert RawAll(s)[..|s|] == RawAll(s) && s[..|s|] == s;
  }

  lemma {:induction false} TokenisedPrefix(s: seq<Token>, n: nat)
    requires n <= |s|
    ensures Tokenised(s)[..n] == Tokenised(s[..n])
    decreases |s|
  {
    if n == |s| {
      assert s[..n] == s;
    } else {
      TokenisedPrefix(s[..|s| - 1], n);
      assert s[..|s| - 1][..n] == s[..n];
    }
  }

  lemma ClassifyDelta(before: Option<Token>, t: Token)
    ensures Delta(Classify(before, t)) == Delta(t)
  {
  }

  lemma {:induction false} TokenisedDepth(s: seq<Token>)
    ensures Depth(Tokenised(s)) == Depth(s)
    decreases |s|
  {
    hide Classify;
    if s != [] {
      var front, t := s[..|s| - 1], s[|s| - 1];
      var r := Tokenised(front);
      TokenisedDepth(front);
      var last := Classify(LastOf(None, r), t);
      ClassifyDelta(LastOf(None, r), t);
      assert Tokenised(s) == r + [last];
      assert (r + [last])[..|s| - 1] == r;
    }
  }

  /** Deciding operators does not touch parentheses. */
  lemma TokenisedBad(s: seq<Token>)
    ensures Bad(Tokenised(s)) == Bad(s)
  {
    TokenisedDepth(s);
    forall n | 0 <= n <= |s| ensures Depth(Tokenised(s)[..n]) == Depth(s[..n]) {
      TokenisedPrefix(s, n);
      TokenisedDepth(s[..n]);
    }
  }

  // ----- balanced token sequences -----

  lemma DepthSplit(s: seq<Token>, i: nat, j: nat)
    requires i <= j <= |s|
    ensures Depth(s[..j]) == Depth(s[..i]) + Depth(s[i..j])
  {
    assert s[..j] == s[..i] + s[i..j];
    DepthConcat(s[..i], s[i..j]);
  }

  lemma DepthNext(s: seq<Token>, i: nat)
    requires i < |s|
    ensures Depth(s[..i + 1]) == Depth(s[..i]) + Delta(s[i])
  {
    assert s[..i + 1] == s[..i] + [s[i]];
    DepthConcat(s[..i], [s[i]]);
    DepthOne(s[i]);
  }

  lemma BalancedRest(s: seq<Token>, i: nat)
    requires !Bad(s) && i <= |s| && Depth(s[..i]) == 0
    ensures !Bad(s[i..])
  {
    DepthSplit(s, i, |s|);
    assert s[..|s|] == s && s[i..|s|] == s[i..];
    forall n | 0 <= n <= |s[i..]| ensures Depth(s[i..][..n]) >= 0 {
      DepthSplit(s, i, i + n);
      assert s[i..][..n] == s[i..i + n];
    }
  }

  /** A group opened in a balanced sequence is closed in it. */
  lemma {:induction false} GroupCloses(s: seq<Token>, n: nat)
    requires !Bad(s) && s != [] && s[0] == Sym(LPAREN) && 1 <= n <= |s|
    requires forall i :: 0 < i < n ==> Depth(s[..i]) != 0
    ensures n <= GroupLength(s, n) && Full(s[..GroupLength(s, n)])
    decreases |s| - n
  {
    forall i | 0 <= i <= n ensures Depth(s[..n][..i]) == Depth(s[..i]) {
      assert s[..n][..i] == s[..i];
    }
    if n == |s| {
      assert s[..n] == s;
    } else if Full(s[..n]) {
    } else {
      assert s[..n][..n] == s[..n];
      GroupCloses(s, n + 1);
    }
  }

  lemma GroupEnds(s: seq<Token>)
    requires !Bad(s) && s != [] && s[0] == Sym(LPAREN)
    ensures |s| >= 2 && Full(s[..GroupLength(s, 2)]) && Depth(s[..GroupLength(s, 2)]) == 0
    ensures !Full(s[..1])
  {
    assert s[..1] == [Sym(LPAREN)];
    DepthOne(Sym(LPAREN));
    assert s[..|s|] == s;
    GroupCloses(s, 2);
  }

  lemma {:induction false} GroupLeast(s: seq<Token>, n: nat, i: nat)
    requires 1 <= n <= |s| && n <= i < GroupLength(s, n)
    ensures !Full(s[..i])
    decreases |s| - n
  {
    if n < i {
      GroupLeast(s, n + 1, i);
    }
  }

  lemma NoCloseFirst(s: seq<Token>)
    requires !Bad(s) && s != []
    ensures s[0] != Sym(RPAREN)
  {
    assert s[..1] == [s[0]];
    DepthOne(s[0]);
  }

  /** The state of the nesting scan after `n` tokens. */
  ghost predicate Scanned(s: seq<Token>, n: int, stack: int, full: bool) {
    && 0 <= n <= |s| && stack == Depth(s[..n])
    && (forall k :: 0 <= k <= n ==> Depth(s[..k]) >= 0)
    && (full <==> forall k :: 0 < k <= n && k < |s| ==> Depth(s[..k]) != 0)
  }

  lemma ScanNext(s: seq<Token>, n: int, stack: int, full: bool)
    requires Scanned(s, n, stack, full) && n < |s|
    ensures s[n] == Sym(RPAREN) && stack == 0 ==> Bad(s) && !Full(s)
    ensures var t := stack + Delta(s[n]);
            t >= 0 ==> Scanned(s, n + 1, t, full && !(t == 0 && n + 1 != |s|))
  {
    hide Depth;
    DepthNext(s, n);
  }

  lemma Verdict(s: seq<Token>, stack: int, full: bool)
    requires Scanned(s, |s|, stack, full)
    ensures Bad(s) == (stack != 0) && Full(s) == (stack == 0 && full)
  {
    hide Depth;
    assert s[..|s|] == s;
  }

  // ----- the evaluator -----

  /** What a stretch of tokens is: nothing, badly nested, or a written tree. */
  datatype Shape = Empty | Broken | Written(t: Tree)

  function Result(m: Memory, shape: Shape): Word {
    if shape.Written? then Value(m, shape.t) else 0
  }

  class Debugger {
    const tokens: array<Token>
    var length: nat
    var isBad: bool
    const memory: Memory

    constructor (a: array<Token>, n: nat, m: Memory)
      requires 0 < a.Length && n <= a.Length
      ensures tokens == a && length == n && memory == m && Valid()
    {
      tokens, length, memory := a, n, m;
      isBad := false;
    }

    predicate Valid()
      reads this
    {
      0 < tokens.Length && length <= tokens.Length
    }

    method CheckParentheses(p: int, q: int) returns (full: bool)
      requires 0 <= p && q < tokens.Length
      modifies this`isBad
      ensures p > q ==> !full && isBad == old(isBad)
      ensures p <= q ==> isBad == Bad(tokens[p..q + 1]) && full == Full(tokens[p..q + 1])
    {
      hide Depth;
      hide Bad;
      hide Full;
      if p > q { return false; }
      isBad := false;
      ghost var s := tokens[p..q + 1];
      var stack := 0;
      full := true;
      var i := p;
      EmptyDepth(s);
      while i <= q
        invariant p <= i <= q + 1 && s == tokens[p..q + 1]
        invariant !isBad && Scanned(s, i - p, stack, full)
      {
        assert tokens[i] == s[i - p];
        ScanNext(s, i - p, stack, full);
        if tokens[i] == Sym(LPAREN) {
          stack := stack + 1;
        } else if tokens[i] == Sym(RPAREN) {
          if stack == 0 {
            isBad := true;
            return false;
          } else {
            stack := stack - 1;
          }
        }
        if stack == 0 && i != q {
          full := false;
        }
        i := i + 1;
      }
      Verdict(s, stack, full);
      if stack != 0 {
        isBad := true;
        return false;
      }
    }

    /** The index of the first token after the parenthesis group that opens at `i`. */
    method SkipGroup(i: int, q: int) returns (j: int)
      requires 0 <= i <= q < tokens.Length
      requires tokens[i] == Sym(LPAREN) && !Bad(tokens[i..q + 1])
      modifies this`isBad
      ensures i < j <= q && j == i + GroupLength(tokens[i..q + 1], 2) - 1 && !isBad
    {
      ghost var s := tokens[i..q + 1];
      GroupEnds(s);
      ghost var n := GroupLength(s, 2);
      j := i + 1;
      var closed := CheckParentheses(i, j);
      assert tokens[i..j + 1] == s[..2];
      while !closed
        invariant i < j <= i + n - 1 && s == tokens[i..q + 1]
        invariant closed == Full(s[..j - i + 1]) && (closed ==> !isBad)
        invariant !closed ==> j < i + n - 1
        decreases i + n - j
      {
        j := j + 1;
        closed := CheckParentheses(i, j);
        assert tokens[i..j + 1] == s[..j - i + 1];
      }
      if j < i + n - 1 {
        GroupLeast(s, 2, j - i + 1);
        assert false;
      }
    }

    /** `get_main_op`, for any balanced stretch of tokens. */
    method GetMainOp(p: int, q: int) returns (op: int)
      requires 0 <= p <= q < tokens.Length && !Bad(tokens[p..q + 1])
      modifies this`isBad
      ensures op == IndexOf(Scan(tokens[p..q + 1], p, Nothing))
    {
      hide Scan;
      hide Bad;
      hide Full;
      hide Depth;
      hide GroupLength;
      var stack: seq<int> := [];
      ghost var s := tokens[p..q + 1];
      ghost var top := Nothing;
      var i := p;
      EmptyDepth(s);
      while i <= q
        invariant p <= i <= q + 1 && s == tokens[p..q + 1]
        invariant Depth(s[..i - p]) == 0
        invariant Scan(s, p, Nothing) == Scan(s[i - p..], i, top)
        invariant StackTop(stack, top)
      {
        BalancedRest(s, i - p);
        NoCloseFirst(s[i - p..]);
        var precedence := Precedence(tokens[i]);
        if precedence == -1 {
          StepSingle(s, i - p, i, top);
          i := i + 1;
          continue;
        } else if precedence != 0 {
          StepSingle(s, i - p, i, top);
          top := Push(top, i, precedence);
          if |stack| == 0 || precedence >= Precedence(tokens[stack[|stack| - 1]]) {
            stack := stack + [i];
          }
        } else {
          assert tokens[i..q + 1] == s[i - p..];
          StepGroup(s, i - p, i, top);
          i := SkipGroup(i, q);
        }
        i := i + 1;
      }
      ScanNone(s[i - p..], i, top);
      op := if |stack| == 0 then 0 else stack[|stack| - 1];
    }

    /** The stack holds indices of operators, and its top is what the scan would keep. */
    ghost predicate StackTop(stack: seq<int>, top: Top)
      reads tokens
    {
      if stack == [] then top == Nothing
      else
        var at := stack[|stack| - 1];
        0 <= at < tokens.Length && top == Operator(at, Precedence(tokens[at]))
    }

    /** `tokenise` */
    method Tokenise()
      requires Valid() && length > 0
      modifies tokens
      ensures tokens[..length] == Tokenised(old(tokens[..length]))
    {
      hide Tokenised;
      ghost var s := tokens[..length];
      ClassifyFirst(s);
      if tokens[0] == Sym(MINUS) {
        tokens[0] := Sym(NEG);
      } else if tokens[0] == Sym(STAR) {
        tokens[0] := Sym(DEREF);
      }
      assert tokens[..1] == Tokenised(s[..1]);
      var i := 1;
      while i < length
        invariant 1 <= i <= length
        invariant tokens[..i] == Tokenised(s[..i])
        invariant forall k :: i <= k < length ==> tokens[k] == s[k]
      {
        ghost var done := tokens[..i];
        TokenisedNext(s, i);
        assert done[i - 1] == tokens[i - 1];
        ClassifyToken(i);
        assert tokens[..i + 1] == done + [tokens[i]];
        i := i + 1;
      }
      assert s[..length] == s;
    }

    /** One round of the loop. */
    method ClassifyToken(i: int)
      requires 1 <= i < tokens.Length
      modifies tokens
      ensures tokens[i] == Classify(Some(old(tokens[i - 1])), old(tokens[i]))
      ensures forall k :: 0 <= k < tokens.Length && k != i ==> tokens[k] == old(tokens[k])
    {
      if tokens[i] == Sym(MINUS) || tokens[i] == Sym(STAR) {
        var before := tokens[i - 1];
        if before in [Sym(PLUS), Sym(MINUS), Sym(STAR), Sym(SLASH), Sym(LPAREN)] {
          tokens[i] := if tokens[i] == Sym(MINUS) then Sym(NEG) else Sym(DEREF);
        }
      }
    }

    /** The stretch of tokens from `p` to `q` has the given shape. */
    ghost predicate Shaped(shape: Shape, p: int, q: int)
      reads tokens
    {
      && 0 <= p && -1 <= q < tokens.Length
      && match shape
         case Empty => p == q + 1
         case Broken => p <= q && Bad(tokens[p..q + 1])
         case Written(t) => p <= q && Proper(t) && tokens[p..q + 1] == Render(t)
    }

    /** `eval` */
    method Eval(p: int, q: int, ghost shape: Shape) returns (r: Word)
      requires Shaped(shape, p, q)
      modifies this`isBad
      ensures r == Result(memory, shape)
      decreases q - p + 1
    {
      if shape.Written? {
        RenderFull(shape.t);
        RenderSize(shape.t);
      }
      var full := CheckParentheses(p, q);
      if !full && isBad {
        return 0;
      }
      if p > q {
        return 0;
      } else if p == q {
        assert tokens[p] == tokens[p..q + 1][0];
        match tokens[p] {
          case Operand(v) => return v;
          case _ => assert false;
        }
      }
      full := CheckParentheses(p, q);
      if full {
        ghost var u := shape.t.inner;
        assert tokens[p + 1..q] == tokens[p..q + 1][1..q - p] == Render(u);
        r := Eval(p + 1, q - 1, Written(u));
      } else {
        r := EvalOperator(p, q, shape.t);
      }
    }

    /** The last branch of `eval`: split at the main operator. */
    method EvalOperator(p: int, q: int, ghost t: Tree) returns (r: Word)
      requires Shaped(Written(t), p, q) && p < q && (t.Unary? || t.Binary?)
      modifies this`isBad
      ensures r == Value(memory, t)
      decreases q - p + 1, 0
    {
      hide Bad;
      hide Scan;
      hide Render;
      hide Apply;
      hide MainIndex;
      RenderFull(t);
      ScanFindsMain(t, p);
      ghost var s := tokens[p..q + 1];
      OperandsOf(s, t);
      var op := GetMainOp(p, q);
      assert s == tokens[p..q + 1];
      SliceParts(tokens, p, op, q);
      var val1 := Eval(p, op - 1, if t.Unary? then Empty else Written(t.left));
      var val2 := Eval(op + 1, q, Written(if t.Unary? then t.arg else t.right));
      match tokens[op] {
        case Sym(k) => r := Apply(k, memory, val1, val2);
        case Operand(_) => assert false;
      }
    }

    /** `eval` of a layered expression gives its meaning. */
    method EvalText(p: int, q: int, ghost j: L.Conjunction) returns (r: Word)
      requires 0 <= p <= q < tokens.Length && tokens[p..q + 1] == L.Text(j)
      modifies this`isBad
      ensures r == L.Meaning(memory, j)
    {
      L.Layered(memory, j);
      r := Eval(p, q, Written(L.AsTree(j)));
    }

    /** From the lexer's tokens to the value. */
    method Expr(ghost shape: Shape) returns (r: Word)
      requires Valid()
      requires match shape
               case Empty => length == 0
               case Broken => Bad(tokens[..length])
               case Written(t) => Proper(t) && Writable(t) && tokens[..length] == RawAll(Render(t))
      modifies this`isBad, tokens
      ensures r == Result(memory, shape)
      ensures forall j :: shape == Written(L.AsTree(j)) ==> r == L.Meaning(memory, j)
    {
      forall j | shape == Written(L.AsTree(j))
        ensures Result(memory, shape) == L.Meaning(memory, j)
      {
        L.Layered(memory, j);
      }
      if length > 0 {
        ghost var s := tokens[..length];
        TokenisedBad(s);
        if shape.Written? {
          TokenisedRender(shape.t);
        }
        Tokenise();
      }
      r := Eval(0, length - 1, shape);
    }
  }

  lemma EmptyDepth(s: seq<Token>)
    ensures Depth(s[..0]) == 0 && s[0..] == s
  {
  }

  lemma ScanNone(s: seq<Token>, at: nat, top: Top)
    requires s == []
    ensures Scan(s, at, top) == top
  {
  }

  /** One token that is no parenthesis. */
  lemma StepSingle(s: seq<Token>, k: nat, at: nat, top: Top)
    requires k < |s| && Precedence(s[k]) != 0
    ensures Scan(s[k..], at, top)
         == Scan(s[k + 1..], at + 1, if Precedence(s[k]) == -1 then top else Push(top, at, Precedence(s[k])))
    ensures Depth(s[..k + 1]) == Depth(s[..k])
  {
    assert s[k..][1..] == s[k + 1..];
    DepthNext(s, k);
  }

  /** A whole parenthesis group. */
  lemma StepGroup(s: seq<Token>, k: nat, at: nat, top: Top)
    requires k < |s| && !Bad(s[k..]) && s[k] == Sym(LPAREN)
    ensures |s[k..]| >= 2
    ensures var n := GroupLength(s[k..], 2);
            Scan(s[k..], at, top) == Scan(s[k + n..], at + n, top) && Depth(s[..k + n]) == Depth(s[..k])
  {
    GroupEnds(s[k..]);
    var n := GroupLength(s[k..], 2);
    assert s[k..][n..] == s[k + n..] && s[k..][..n] == s[k..k + n];
    DepthSplit(s, k, k + n);
  }

  /** The tokens of a written operator expression around its main operator. */
  lemma SliceParts(a: array<Token>, p: int, op: int, q: int)
    requires 0 <= p <= op <= q < a.Length
    ensures var s := a[p..q + 1]; s[..op - p] == a[p..op] && s[op - p + 1..] == a[op + 1..q + 1] && s[op - p] == a[op]
  {
  }

  lemma OperandsOf(s: seq<Token>, t: Tree)
    requires Proper(t) && (t.Unary? || t.Binary?) && s == Render(t)
    ensures MainIndex(t) < |s| && s[MainIndex(t)] == Sym(t.op)
    ensures t.Unary? ==> MainIndex(t) == 0 && s[1..] == Render(t.arg)
    ensures t.Binary? ==> s[..MainIndex(t)] == Render(t.left) && s[MainIndex(t) + 1..] == Render(t.right)
  {
  }

  function IndexOf(top: Top): int {
    if top.Nothing? then 0 else top.at
  }

  lemma ClassifyFirst(s: seq<Token>)
    requires s != []
    ensures Tokenised(s[..1]) == [Classify(None, s[0])]
  {
    assert s[..1][..0] == [];
  }

  /** A minus or star is unary at the start and after `+ - * / (` and nowhere else, not after another unary operator. */
  lemma {:induction false} TokenisedAt(s: seq<Token>, i: nat)
    requires i < |s|
    ensures var r := Tokenised(s);
            var start := i == 0 || r[i - 1] in [Sym(PLUS), Sym(MINUS), Sym(STAR), Sym(SLASH), Sym(LPAREN)];
            && (s[i] == Sym(MINUS) ==> r[i] == if start then Sym(NEG) else Sym(MINUS))
            && (s[i] == Sym(STAR) ==> r[i] == if start then Sym(DEREF) else Sym(STAR))
            && (s[i] !in [Sym(MINUS), Sym(STAR)] ==> r[i] == s[i])
  {
    if i < |s| - 1 {
      TokenisedAt(s[..|s| - 1], i);
    }
  }

  lemma TokenisedNext(s: seq<Token>, i: nat)
    requires 0 < i < |s|
    ensures var r := Tokenised(s[..i]); |r| == i && Tokenised(s[..i + 1]) == r + [Classify(Some(r[i - 1]), s[i])]
  {
    assert s[..i + 1][..i] == s[..i];
  }

  lemma RenderSize(t: Tree)
    ensures |Render(t)| == 1 <==> t.Num?
    ensures t.Paren? ==> |Render(t)| >= 3
  {
  }

  /** A token sequence is written by at most one proper tree. */
  lemma {:induction false} RenderInjective(t: Tree, u: Tree)
    requires Proper(t) && Proper(u) && Render(t) == Render(u)
    ensures t == u
    decreases t
  {
    var s := Render(t);
    RenderFull(t);
    RenderFull(u);
    RenderSize(t);
    RenderSize(u);
    if t.Unary? || t.Binary? {
      ScanFindsMain(t, 0);
      ScanFindsMain(u, 0);
      OperandsOf(s, t);
      OperandsOf(s, u);
      if t.Unary? {
        RenderInjective(t.arg, u.arg);
      } else {
        RenderInjective(t.left, u.left);
        RenderInjective(t.right, u.right);
      }
    } else if t.Paren? {
      assert s[1..|s| - 1] == Render(t.inner) && s[1..|s| - 1] == Render(u.inner);
      RenderInjective(t.inner, u.inner);
    }
  }
}
