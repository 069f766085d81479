/**
 The debugger's expressions by layers: factors, products of them, sums, comparisons and conjunctions, each associating
 to the left. Written out, these are exactly the trees that the debugger evaluates, and its values are theirs.
 */
module SdbLayers {
  import opened MachineWords
  import opened SdbGrammar

  datatype Atom = Number(value: Word) | Group(inner: Conjunction)

  /** A unary operator stands before an atom, and only one. */
  datatype Factor = Plain(a: Atom) | Negative(a: Atom) | Load(a: Atom)

  datatype Product = Only(f: Factor) | Times(p: Product, f: Factor) | Over(p: Product, f: Factor)

  datatype Sum = Only(p: Product) | Plus(s: Sum, p: Product) | Minus(s: Sum, p: Product)

  datatype Comparison = Only(s: Sum) | Equals(c: Comparison, s: Sum) | Differs(c: Comparison, s: Sum)

  datatype Conjunction = Only(c: Comparison) | Both(j: Conjunction, c: Comparison)

  // ----- as tokens -----

  function AtomText(a: Atom): seq<Token> {
    match a
    case Number(v) => [Operand(v)]
    case Group(j) => [Sym(LPAREN)] + Text(j) + [Sym(RPAREN)]
  }

  function FactorText(f: Factor): seq<Token> {
    match f
    case Plain(a) => AtomText(a)
    case Negative(a) => [Sym(NEG)] + AtomText(a)
    case Load(a) => [Sym(DEREF)] + AtomText(a)
  }

  function ProductText(p: Product): seq<Token> {
    match p
    case Only(f) => FactorText(f)
    case Times(q, f) => ProductText(q) + [Sym(STAR)] + FactorText(f)
    case Over(q, f) => ProductText(q) + [Sym(SLASH)] + FactorText(f)
  }

  function SumText(s: Sum): seq<Token> {
    match s
    case Only(p) => ProductText(p)
    case Plus(r, p) => SumText(r) + [Sym(PLUS)] + ProductText(p)
    case Minus(r, p) => SumText(r) + [Sym(MINUS)] + ProductText(p)
  }

  function ComparisonText(c: Comparison): seq<Token> {
    match c
    case Only(s) => SumText(s)
    case Equals(d, s) => ComparisonText(d) + [Sym(EQ)] + SumText(s)
    case Differs(d, s) => ComparisonText(d) + [Sym(NEQ)] + SumText(s)
  }

  function Text(j: Conjunction): seq<Token> {
    match j
    case Only(c) => ComparisonText(c)
    case Both(k, c) => Text(k) + [Sym(AND)] + ComparisonText(c)
  }

  // ----- what they mean: unsigned arithmetic modulo 2^32, truth as 1 and 0 -----

  function AtomMeaning(m: Memory, a: Atom): Word {
    match a
    case Number(v) => v
    case Group(j) => Meaning(m, j)
  }

  function FactorMeaning(m: Memory, f: Factor): Word {
    match f
    case Plain(a) => AtomMeaning(m, a)
    case Negative(a) => (0x1_0000_0000 - AtomMeaning(m, a)) % 0x1_0000_0000
    case Load(a) => if m.inPmem(AtomMeaning(m, a)) then m.read(AtomMeaning(m, a)) else 0
  }

  function ProductMeaning(m: Memory, p: Product): Word {
    match p
    case Only(f) => FactorMeaning(m, f)
    case Times(q, f) => (ProductMeaning(m, q) * FactorMeaning(m, f)) % 0x1_0000_0000
    case Over(q, f) => if FactorMeaning(m, f) == 0 then 0 else ProductMeaning(m, q) / FactorMeaning(m, f)
  }

  function SumMeaning(m: Memory, s: Sum): Word {
    match s
    case Only(p) => ProductMeaning(m, p)
    case Plus(r, p) => (SumMeaning(m, r) + ProductMeaning(m, p)) % 0x1_0000_0000
    case Minus(r, p) => (0x1_0000_0000 + SumMeaning(m, r) - ProductMeaning(m, p)) % 0x1_0000_0000
  }

  function ComparisonMeaning(m: Memory, c: Comparison): Word {
    match c
    case Only(s) => SumMeaning(m, s)
    case Equals(d, s) => if ComparisonMeaning(m, d) == SumMeaning(m, s) then 1 else 0
    case Differs(d, s) => if ComparisonMeaning(m, d) == SumMeaning(m, s) then 0 else 1
  }

  function Meaning(m: Memory, j: Conjunction): Word {
    match j
    case Only(c) => ComparisonMeaning(m, c)
    case Both(k, c) => if Meaning(m, k) == 0 || ComparisonMeaning(m, c) == 0 then 0 else 1
  }

  // ----- as trees -----

  function AtomTree(a: Atom): Tree {
    match a
    case Number(v) => Num(v)
    case Group(j) => Paren(AsTree(j))
  }

  function FactorTree(f: Factor): Tree {
    match f
    case Plain(a) => AtomTree(a)
    case Negative(a) => Unary(NEG, AtomTree(a))
    case Load(a) => Unary(DEREF, AtomTree(a))
  }

  function ProductTree(p: Product): Tree {
    match p
    case Only(f) => FactorTree(f)
    case Times(q, f) => Binary(STAR, ProductTree(q), FactorTree(f))
    case Over(q, f) => Binary(SLASH, ProductTree(q), FactorTree(f))
  }

  function SumTree(s: Sum): Tree {
    match s
    case Only(p) => ProductTree(p)
    case Plus(r, p) => Binary(PLUS, SumTree(r), ProductTree(p))
    case Minus(r, p) => Binary(MINUS, SumTree(r), ProductTree(p))
  }

  function ComparisonTree(c: Comparison): Tree {
    match c
    case Only(s) => SumTree(s)
    case Equals(d, s) => Binary(EQ, ComparisonTree(d), SumTree(s))
    case Differs(d, s) => Binary(NEQ, ComparisonTree(d), SumTree(s))
  }

  function AsTree(j: Conjunction): Tree {
    match j
    case Only(c) => ComparisonTree(c)
    case Both(k, c) => Binary(AND, AsTree(k), ComparisonTree(c))
  }

  /** `t` is proper, binds no looser than `level`, is written as `text` and has the value `value`. */
  predicate Fits(m: Memory, t: Tree, level: int, text: seq<Token>, value: Word) {
    Proper(t) && Level(t) <= level && Render(t) == text && Value(m, t) == value
  }

  lemma {:induction false} AtomFits(m: Memory, a: Atom)
    ensures Fits(m, AtomTree(a), 0, AtomText(a), AtomMeaning(m, a))
  {
    if a.Group? {
      Layered(m, a.inner);
    }
  }

  lemma {:induction false} FactorFits(m: Memory, f: Factor)
    ensures Fits(m, FactorTree(f), 1, FactorText(f), FactorMeaning(m, f))
  {
    AtomFits(m, f.a);
    NegativeWord(AtomMeaning(m, f.a), m);
  }

  lemma NegativeWord(x: Word, m: Memory)
    ensures Apply(NEG, m, 0, x) == (0x1_0000_0000 - x) % 0x1_0000_0000
  {
    if x == 0 {
      DivModUnique(0 - x, B32, 0, 0);
    } else {
      DivModUnique(0 - x, B32, -1, B32 - x);
    }
  }

  lemma DifferenceWord(x: Word, y: Word, m: Memory)
    ensures Apply(MINUS, m, x, y) == (0x1_0000_0000 + x - y) % 0x1_0000_0000
  {
    if x >= y {
      DivModUnique(x - y, B32, 0, x - y);
      DivModUnique(B32 + x - y, B32, 1, x - y);
    } else {
      DivModUnique(x - y, B32, -1, B32 + x - y);
    }
  }

  lemma {:induction false} ProductFits(m: Memory, p: Product)
    ensures Fits(m, ProductTree(p), 2, ProductText(p), ProductMeaning(m, p))
  {
    FactorFits(m, p.f);
    if !p.Only? {
      ProductFits(m, p.p);
    }
  }

  lemma {:induction false} SumFits(m: Memory, s: Sum)
    ensures Fits(m, SumTree(s), 3, SumText(s), SumMeaning(m, s))
  {
    ProductFits(m, s.p);
    if !s.Only? {
      SumFits(m, s.s);
      DifferenceWord(SumMeaning(m, s.s), ProductMeaning(m, s.p), m);
    }
  }

  lemma {:induction false} ComparisonFits(m: Memory, c: Comparison)
    ensures Fits(m, ComparisonTree(c), 4, ComparisonText(c), ComparisonMeaning(m, c))
  {
    SumFits(m, c.s);
    if !c.Only? {
      ComparisonFits(m, c.c);
    }
  }

  /** Every layered expression is a proper tree with the same tokens and the same value. */
  lemma {:induction false} Layered(m: Memory, j: Conjunction)
    ensures Fits(m, AsTree(j), 5, Text(j), Meaning(m, j))
  {
    ComparisonFits(m, j.c);
    if j.Both? {
      Layered(m, j.j);
    }
  }

  // ----- every proper tree is layered -----

  lemma {:induction false} ToAtom(t: Tree) returns (a: Atom)
    requires Proper(t) && (t.Num? || t.Paren?)
    ensures AtomTree(a) == t
    decreases t, 0
  {
    if t.Num? {
      a := Number(t.value);
    } else {
      var j := ToLayers(t.inner);
      a := Group(j);
    }
  }

  lemma {:induction false} ToFactor(t: Tree) returns (f: Factor)
    requires Proper(t) && !t.Binary?
    ensures FactorTree(f) == t
    decreases t, 1
  {
    if t.Unary? {
      var a := ToAtom(t.arg);
      f := if t.op == NEG then Negative(a) else Load(a);
    } else {
      var a := ToAtom(t);
      f := Plain(a);
    }
  }

  lemma {:induction false} ToProduct(t: Tree) returns (p: Product)
    requires Proper(t) && (t.Binary? ==> t.op in {STAR, SLASH})
    ensures ProductTree(p) == t
    decreases t, 2
  {
    if t.Binary? {
      var q := ToProduct(t.left);
      var f := ToFactor(t.right);
      p := if t.op == STAR then Times(q, f) else Over(q, f);
    } else {
      var f := ToFactor(t);
      p := Product.Only(f);
    }
  }

  lemma {:induction false} ToSum(t: Tree) returns (s: Sum)
    requires Proper(t) && (t.Binary? ==> t.op in {STAR, SLASH, PLUS, MINUS})
    ensures SumTree(s) == t
    decreases t, 3
  {
    if t.Binary? && t.op in {PLUS, MINUS} {
      var r := ToSum(t.left);
      var p := ToProduct(t.right);
      s := if t.op == PLUS then Plus(r, p) else Minus(r, p);
    } else {
      var p := ToProduct(t);
      s := Sum.Only(p);
    }
  }

  lemma {:induction false} ToComparison(t: Tree) returns (c: Comparison)
    requires Proper(t) && (t.Binary? ==> t.op != AND)
    ensures ComparisonTree(c) == t
    decreases t, 4
  {
    if t.Binary? && t.op in {EQ, NEQ} {
      var d := ToComparison(t.left);
      var s := ToSum(t.right);
      c := if t.op == EQ then Equals(d, s) else Differs(d, s);
    } else {
      var s := ToSum(t);
      c := Comparison.Only(s);
    }
  }

  /** A tree is proper exactly if it is a layered expression. */
  lemma {:induction false} ToLayers(t: Tree) returns (j: Conjunction)
    requires Proper(t)
    ensures AsTree(j) == t
    decreases t, 5
  {
    if t.Binary? && t.op == AND {
      var k := ToLayers(t.left);
      var c := ToComparison(t.right);
      j := Both(k, c);
    } else {
      var c := ToComparison(t);
      j := Conjunction.Only(c);
    }
  }

  // ----- three numbers -----

  function Of(v: Word): Factor { Plain(Number(v)) }

  function Whole(s: Sum): Conjunction { Conjunction.Only(Comparison.Only(s)) }

  /** `a + b * c` */
  function PlusTimes(a: Word, b: Word, c: Word): Conjunction {
    Whole(Plus(Sum.Only(Product.Only(Of(a))), Times(Product.Only(Of(b)), Of(c))))
  }

  /** `a - b - c` */
  function MinusMinus(a: Word, b: Word, c: Word): Conjunction {
    Whole(Minus(Minus(Sum.Only(Product.Only(Of(a))), Product.Only(Of(b))), Product.Only(Of(c))))
  }

  /** Multiplication binds tighter than addition. */
  lemma PlusTimesValue(m: Memory, a: Word, b: Word, c: Word)
    ensures Text(PlusTimes(a, b, c)) == [Operand(a), Sym(PLUS), Operand(b), Sym(STAR), Operand(c)]
    ensures Meaning(m, PlusTimes(a, b, c)) == (a + b * c) % 0x1_0000_0000
  {
    ThreeTexts(a, b, c);
    FactorOf(m, a);
    FactorOf(m, b);
    FactorOf(m, c);
    var one, two := Product.Only(Of(a)), Product.Only(Of(b));
    assert ProductMeaning(m, two) == b && SumMeaning(m, Sum.Only(one)) == a;
    var n: int := b * c;
    assert ProductMeaning(m, Times(two, Of(c))) == n % B32;
    SumOfReduced(a, n);
    MeaningOfSum(m, Plus(Sum.Only(one), Times(two, Of(c))));
  }

  lemma SumOfReduced(a: int, n: int)
    ensures (a + n % B32) % B32 == (a + n) % B32
  {
    DivModUnique(a + n, B32, n / B32 + (a + n % B32) / B32, (a + n % B32) % B32);
  }

  /** Subtraction associates to the left. */
  lemma MinusMinusValue(m: Memory, a: Word, b: Word, c: Word)
    ensures Text(MinusMinus(a, b, c)) == [Operand(a), Sym(MINUS), Operand(b), Sym(MINUS), Operand(c)]
    ensures Meaning(m, MinusMinus(a, b, c)) == (a - b - c) % 0x1_0000_0000
  {
    ThreeTexts(a, b, c);
    FactorOf(m, a);
    FactorOf(m, b);
    FactorOf(m, c);
    var one, two, three := Product.Only(Of(a)), Product.Only(Of(b)), Product.Only(Of(c));
    assert ProductMeaning(m, two) == b && SumMeaning(m, Sum.Only(one)) == a;
    var d: int := B32 + a - b;
    assert SumMeaning(m, Minus(Sum.Only(one), two)) == d % B32;
    DifferenceOfReduced(a - b, c);
    MeaningOfSum(m, Minus(Minus(Sum.Only(one), two), three));
  }

  lemma DifferenceOfReduced(x: int, c: int)
    ensures (B32 + (B32 + x) % B32 - c) % B32 == (x - c) % B32
  {
    var d: int := B32 + x;
    var e: int := B32 + d % B32 - c;
    DivModUnique(x - c, B32, d / B32 + e / B32 - 2, e % B32);
  }

  lemma FactorOf(m: Memory, v: Word)
    ensures FactorMeaning(m, Of(v)) == v && FactorText(Of(v)) == [Operand(v)]
  {
  }

  lemma MeaningOfSum(m: Memory, s: Sum)
    ensures Meaning(m, Whole(s)) == SumMeaning(m, s) && Text(Whole(s)) == SumText(s)
  {
  }

  lemma ThreeTexts(a: Word, b: Word, c: Word)
    ensures Text(PlusTimes(a, b, c)) == [Operand(a), Sym(PLUS), Operand(b), Sym(STAR), Operand(c)]
    ensures Text(MinusMinus(a, b, c)) == [Operand(a), Sym(MINUS), Operand(b), Sym(MINUS), Operand(c)]
  {
    var m := Memory((x: Word) => false, (x: Word) => x);
    FactorOf(m, a);
    FactorOf(m, b);
    FactorOf(m, c);
    var one, two, three := Product.Only(Of(a)), Product.Only(Of(b)), Product.Only(Of(c));
    assert ProductText(one) == [Operand(a)] && ProductText(two) == [Operand(b)] && ProductText(three) == [Operand(c)];
    assert ProductText(Times(two, Of(c))) == [Operand(b), Sym(STAR), Operand(c)];
    assert SumText(Sum.Only(one)) == [Operand(a)];
    assert SumText(Minus(Sum.Only(one), two)) == [Operand(a), Sym(MINUS), Operand(b)];
    MeaningOfSum(m, Plus(Sum.Only(one), Times(two, Of(c))));
    MeaningOfSum(m, Minus(Minus(Sum.Only(one), two), three));
  }
}
