/** The instruction table of the decoder: which row an instruction word is dispatched to. */
module InstructionTable {
  import opened Options
  import opened MachineWords
  import opened Rv32iValues
  import opened InstructionPattern
  import opened InstructionCodec

  /** The fixed fields of a row: `funct7`, `funct3` and the opcode. */
  datatype Row = Row(f7: Option<nat>, f3: Option<nat>, op: nat)

  const LOAD := 0x03
  const OP_IMM := 0x13
  const STORE := 0x23
  const OP := 0x33
  const BRANCH := 0x63

  /** auipc, lbu, sb, the 16 register operations, the immediate operations, loads, jalr, stores, lui, branches, jal. */
  const ROWS: seq<Row> := [
    Row(None, None, 0x17), Row(None, Some(4), LOAD), Row(None, Some(0), STORE),
    Row(Some(0), Some(0), OP), Row(Some(0x20), Some(0), OP), Row(Some(0), Some(7), OP), Row(Some(0), Some(6), OP),
    Row(Some(0), Some(4), OP), Row(Some(0), Some(1), OP), Row(Some(0), Some(5), OP), Row(Some(0x20), Some(5), OP),
    Row(Some(0), Some(2), OP), Row(Some(0), Some(3), OP),
    Row(Some(1), Some(0), OP), Row(Some(1), Some(1), OP), Row(Some(1), Some(4), OP), Row(Some(1), Some(5), OP),
    Row(Some(1), Some(6), OP), Row(Some(1), Some(7), OP),
    Row(None, Some(0), OP_IMM), Row(None, Some(7), OP_IMM), Row(None, Some(6), OP_IMM), Row(None, Some(4), OP_IMM),
    Row(Some(0), Some(1), OP_IMM), Row(Some(0), Some(5), OP_IMM), Row(Some(0x20), Some(5), OP_IMM),
    Row(None, Some(2), OP_IMM), Row(None, Some(3), OP_IMM),
    Row(None, Some(2), LOAD), Row(None, Some(1), LOAD), Row(None, Some(5), LOAD), Row(None, Some(0), 0x67),
    Row(None, Some(2), STORE), Row(None, Some(1), STORE), Row(None, Some(0), STORE),
    Row(None, None, 0x37),
    Row(None, Some(0), BRANCH), Row(None, Some(1), BRANCH), Row(None, Some(4), BRANCH), Row(None, Some(5), BRANCH),
    Row(None, Some(6), BRANCH), Row(None, Some(7), BRANCH),
    Row(None, None, 0x6f)
  ]

  const FIRST_SB := 2
  const SECOND_SB := 34
  const EBREAK := 43
  const INV := 44
  const EBREAK_WORD: Word := 0x0010_0073

  // ----- rows as patterns -----

  /** `k` binary digits of `n`. */
  function Fixed(n: nat, k: nat): (d: string)
    ensures |d| == k && ValidPattern(d) && ' ' !in d
  {
    if k == 0 then "" else Fixed(n / 2, k - 1) + [if n % 2 == 1 then '1' else '0']
  }

  function Any(k: nat): (d: string)
    ensures |d| == k && ValidPattern(d) && ' ' !in d
  {
    if k == 0 then "" else Any(k - 1) + ['?']
  }

  function FieldText(v: Option<nat>, k: nat): (d: string)
    ensures |d| == k && ValidPattern(d) && ' ' !in d
  {
    match v
    case None => Any(k)
    case Some(n) => Fixed(n, k)
  }

  /** Parts separated by spaces, as a row is written. */
  function Spaced(a: string, b: string): string {
    a + " " + b
  }

  function RowText(r: Row): string {
    Spaced(FieldText(r.f7, 7),
           Spaced(Any(5), Spaced(Any(5), Spaced(FieldText(r.f3, 3), Spaced(Any(5), Fixed(r.op, 7))))))
  }

  function Text(i: nat): (s: Pattern)
    requires i <= INV
    ensures |s| < 64
  {
    if i < EBREAK then
      TextValid(ROWS[i]);
      RowText(ROWS[i])
    else if i == EBREAK then Fixed(EBREAK_WORD, 32)
    else Any(32)
  }

  lemma TextValid(r: Row)
    ensures ValidPattern(RowText(r)) && |RowText(r)| == 37
    ensures Digits(RowText(r))
         == FieldText(r.f7, 7) + (Any(5) + (Any(5) + (FieldText(r.f3, 3) + (Any(5) + Fixed(r.op, 7)))))
  {
    DigitsPlain(Fixed(r.op, 7));
    DigitsSpaced(Any(5), Fixed(r.op, 7));
    DigitsSpaced(FieldText(r.f3, 3), Spaced(Any(5), Fixed(r.op, 7)));
    DigitsSpaced(Any(5), Spaced(FieldText(r.f3, 3), Spaced(Any(5), Fixed(r.op, 7))));
    DigitsSpaced(Any(5), Spaced(Any(5), Spaced(FieldText(r.f3, 3), Spaced(Any(5), Fixed(r.op, 7)))));
    DigitsSpaced(FieldText(r.f7, 7),
                 Spaced(Any(5), Spaced(Any(5), Spaced(FieldText(r.f3, 3), Spaced(Any(5), Fixed(r.op, 7))))));
  }

  lemma {:induction false} DigitsPlain(s: string)
    requires ValidPattern(s) && ' ' !in s
    ensures Digits(s) == s
    decreases |s|
  {
    if s != "" {
      DigitsPlain(s[..|s| - 1]);
    }
  }

  lemma {:induction false} DigitsConcat(a: string, b: string)
    requires ValidPattern(a) && ValidPattern(b)
    ensures ValidPattern(a + b) && Digits(a + b) == Digits(a) + Digits(b)
    decreases |b|
  {
    if b == "" {
      assert a + b == a;
    } else {
      assert (a + b)[..|a + b| - 1] == a + b[..|b| - 1];
      DigitsConcat(a, b[..|b| - 1]);
    }
  }

  lemma DigitsSpaced(a: string, b: string)
    requires ValidPattern(a) && ' ' !in a && ValidPattern(b)
    ensures ValidPattern(Spaced(a, b)) && Digits(Spaced(a, b)) == a + Digits(b) && |Spaced(a, b)| == |a| + 1 + |b|
  {
    DigitsPlain(a);
    DigitsConcat(a, " ");
    assert Digits(" ") == "" by {
      assert " "[..0] == "";
    }
    DigitsConcat(a + " ", b);
  }

  // ----- when a row agrees -----

  predicate FieldIs(x: nat, v: Option<nat>) {
    v.Some? ==> x == v.value
  }

  predicate RowMatches(r: Row, w: Word) {
    Opcode(w) == r.op && FieldIs(Funct3(w), r.f3) && FieldIs(Funct7(w), r.f7)
  }

  predicate Matches(i: nat, w: Word)
    requires i <= INV
  {
    if i < EBREAK then RowMatches(ROWS[i], w) else i == EBREAK ==> w == EBREAK_WORD
  }

  lemma {:induction false} AgreesConcat(w: nat, a: string, b: string)
    ensures Agrees(w, a + b) <==> Agrees(Shr(w, |b|), a) && Agrees(w, b)
    decreases |b|
  {
    if b == "" {
      assert a + b == a;
    } else {
      assert (a + b)[..|a + b| - 1] == a + b[..|b| - 1];
      AgreesConcat(w / 2, a, b[..|b| - 1]);
    }
  }

  lemma {:induction false} AnyAgrees(w: nat, k: nat)
    ensures Agrees(w, Any(k))
  {
    if k != 0 {
      AnyAgrees(w / 2, k - 1);
      assert Any(k)[..k - 1] == Any(k - 1);
    }
  }

  lemma {:induction false} FixedAgrees(w: nat, n: nat, k: nat)
    ensures Agrees(w, Fixed(n, k)) <==> Low(w, k) == Low(n, k)
  {
    if k != 0 {
      FixedAgrees(w / 2, n / 2, k - 1);
      assert Fixed(n, k)[..k - 1] == Fixed(n / 2, k - 1);
    }
  }

  /** A field of `k` bits, the lowest at `lo`. */
  lemma FieldAgrees(w: Word, lo: nat, k: nat, v: Option<nat>)
    requires 0 < k && lo + k <= 32 && (v.Some? ==> v.value < Pow2(k))
    ensures Agrees(Shr(w, lo), FieldText(v, k)) <==> FieldIs(Bits(w, lo + k - 1, lo), v)
  {
    match v {
      case None => AnyAgrees(Shr(w, lo), k);
      case Some(n) =>
        FixedAgrees(Shr(w, lo), n, k);
        LowBelow(n, k);
        BitsIsLow(w, lo, k);
    }
  }

  lemma LowBelow(n: nat, k: nat)
    requires n < Pow2(k)
    ensures Low(n, k) == n
  {
    LowIsMod(n, k);
    DivModUnique(n, Pow2(k), 0, n);
  }

  lemma BitsIsLow(w: Word, lo: nat, k: nat)
    requires 0 < k && lo + k <= 32
    ensures Bits(w, lo + k - 1, lo) == Low(Shr(w, lo), k)
  {
    BitsValue(w, lo + k - 1, lo);
    ShrIsDiv(w, lo);
    LowIsMod(Shr(w, lo), k);
  }

  ghost predicate Fits(r: Row) {
    (r.f7.Some? ==> r.f7.value < 0x80) && (r.f3.Some? ==> r.f3.value < 8) && r.op < 0x80
  }

  /** A row's pattern agrees with a word exactly if its fixed fields do. */
  lemma RowAgrees(r: Row, w: Word)
    requires Fits(r)
    ensures ValidPattern(RowText(r)) && (Agrees(w, Digits(RowText(r))) <==> RowMatches(r, w))
  {
    hide Agrees;
    hide Fixed;
    hide Any;
    hide Bits;
    TextValid(r);
    var op := Fixed(r.op, 7);
    var rd := Any(5) + op;
    var f3 := FieldText(r.f3, 3) + rd;
    var rs1 := Any(5) + f3;
    var rs2 := Any(5) + rs1;
    AgreesConcat(w, FieldText(r.f7, 7), rs2);
    AgreesConcat(w, Any(5), rs1);
    AgreesConcat(w, Any(5), f3);
    AgreesConcat(w, FieldText(r.f3, 3), rd);
    AgreesConcat(w, Any(5), op);
    AnyAgrees(Shr(w, 20), 5);
    AnyAgrees(Shr(w, 15), 5);
    AnyAgrees(Shr(w, 7), 5);
    SmallPowers();
    FieldAgrees(w, 25, 7, r.f7);
    FieldAgrees(w, 12, 3, r.f3);
    FieldAgrees(w, 0, 7, Some(r.op));
  }

  lemma SmallPowers()
    ensures Pow2(3) == 8 && Pow2(7) == 0x80
  {
    Pow2Table();
  }

  /** Each pattern of the table agrees with exactly the words that match the row. */
  lemma TextAgrees(i: nat, w: Word)
    requires i <= INV
    ensures Agrees(w, Digits(Text(i))) <==> Matches(i, w)
  {
    if i < EBREAK {
      RowAgrees(ROWS[i], w);
    } else if i == EBREAK {
      DigitsPlain(Text(i));
      FixedAgrees(w, EBREAK_WORD, 32);
      Pow2Values();
      LowBelow(w, 32);
      LowBelow(EBREAK_WORD, 32);
    } else {
      DigitsPlain(Text(i));
      AnyAgrees(w, 32);
    }
  }

  // ----- dispatch -----

  /** The row for each operation, by opcode and `funct3` and `funct7`; `INV` where there is none. */
  function Chosen(op: nat, f3: nat, f7: nat): nat {
    if op == OP then ChosenOp(f3, f7)
    else if op == OP_IMM then
      if f3 == 1 then (if f7 == 0 then 23 else INV)
      else if f3 == 5 then (if f7 == 0 then 24 else if f7 == 0x20 then 25 else INV)
      else if f3 == 0 then 19 else if f3 == 7 then 20 else if f3 == 6 then 21 else if f3 == 4 then 22
      else if f3 == 2 then 26 else if f3 == 3 then 27 else INV
    else if op == LOAD then
      if f3 == 4 then 1 else if f3 == 2 then 28 else if f3 == 1 then 29 else if f3 == 5 then 30 else INV
    else if op == STORE then
      if f3 == 0 then FIRST_SB else if f3 == 2 then 32 else if f3 == 1 then 33 else INV
    else if op == BRANCH then
      if f3 == 0 then 36 else if f3 == 1 then 37 else if 4 <= f3 <= 7 then 34 + f3 else INV
    else if op == 0x67 then (if f3 == 0 then 31 else INV)
    else if op == 0x17 then 0 else if op == 0x37 then 35 else if op == 0x6f then 42 else INV
  }

  function ChosenOp(f3: nat, f7: nat): nat {
    if f7 == 0 then
      if f3 == 0 then 3 else if f3 == 7 then 5 else if f3 == 6 then 6 else if f3 == 4 then 7 else if f3 == 1 then 8
      else if f3 == 5 then 9 else if f3 == 2 then 11 else if f3 == 3 then 12 else INV
    else if f7 == 0x20 then (if f3 == 0 then 4 else if f3 == 5 then 10 else INV)
    else if f7 == 1 then
      if f3 == 0 then 13 else if f3 == 1 then 14 else if 4 <= f3 <= 7 then 11 + f3 else INV
    else INV
  }

  lemma RowChosen(i: nat, w: Word)
    requires i < EBREAK && i != SECOND_SB && RowMatches(ROWS[i], w)
    ensures Chosen(Opcode(w), Funct3(w), Funct7(w)) == i
  {
    hide Bits;
    if i < 19 {
      EarlyRowChosen(i, w);
    } else {
      LateRowChosen(i, w);
    }
  }

  lemma EarlyRowChosen(i: nat, w: Word)
    requires i < 19 && RowMatches(ROWS[i], w)
    ensures Chosen(Opcode(w), Funct3(w), Funct7(w)) == i
  {
    hide Bits;
  }

  lemma LateRowChosen(i: nat, w: Word)
    requires 19 <= i < EBREAK && i != SECOND_SB && RowMatches(ROWS[i], w)
    ensures Chosen(Opcode(w), Funct3(w), Funct7(w)) == i
  {
    hide Bits;
    hide ChosenOp;
  }

  lemma ChosenMatches(w: Word)
    ensures var i := Chosen(Opcode(w), Funct3(w), Funct7(w)); i <= INV && i != EBREAK && i != SECOND_SB && Matches(i, w)
  {
    hide Bits;
  }

  /** The row for a word. */
  function RowOf(w: Word): (i: nat)
    ensures i <= INV
  {
    ChosenMatches(w);
    if w == EBREAK_WORD then EBREAK else Chosen(Opcode(w), Funct3(w), Funct7(w))
  }

  lemma EbreakAlone()
    ensures Chosen(Opcode(EBREAK_WORD), Funct3(EBREAK_WORD), Funct7(EBREAK_WORD)) == INV
  {
    hide Bits;
    EbreakOpcode();
  }

  lemma EbreakOpcode()
    ensures Opcode(EBREAK_WORD) == 0x73
  {
    hide Bits;
    hide Pow2;
    BitsValue(EBREAK_WORD, 6, 0);
    Pow2Table();
    DivModUnique(EBREAK_WORD, 1, EBREAK_WORD, 0);
    DivModUnique(EBREAK_WORD, 0x80, 0x2000, 0x73);
  }

  /** The row of a word is the first that it matches; the second row for `sb` is never reached. */
  lemma FirstMatch(i: nat, w: Word)
    requires i <= INV && Matches(i, w) && forall j :: 0 <= j < i ==> !Matches(j, w)
    ensures i == RowOf(w) && i != SECOND_SB
  {
    hide Chosen;
    hide Bits;
    EbreakAlone();
    ChosenMatches(w);
    var c := Chosen(Opcode(w), Funct3(w), Funct7(w));
    if i < EBREAK {
      assert i == SECOND_SB ==> Matches(FIRST_SB, w);
      RowChosen(i, w);
      assert w != EBREAK_WORD;
    } else if i == EBREAK {
      assert w == EBREAK_WORD;
    } else {
      assert !Matches(EBREAK, w);
      assert c == INV;
    }
  }

  // ----- words from the encoders -----

  /** A word is dispatched to row `r` of the table. */
  ghost predicate Reaches(r: Row, w: Word) {
    forall i: nat :: i < EBREAK && i != SECOND_SB && ROWS[i] == r ==> RowOf(w) == i
  }

  lemma MatchReaches(r: Row, w: Word)
    requires RowMatches(r, w)
    ensures Reaches(r, w)
  {
    hide Bits;
    forall i: nat | i < EBREAK && i != SECOND_SB && ROWS[i] == r
      ensures RowOf(w) == i
    {
      ReachedRow(i, w);
    }
  }

  /** A register operation. */
  lemma EncodedR(r: Row, rs2: Word, rs1: Word, rd: Word)
    requires Fits(r) && r.f7.Some? && r.f3.Some?
    ensures Reaches(r, EncodeR(r.f7.value, rs2, rs1, r.f3.value, rd, r.op))
  {
    hide Reaches;
    hide Bits;
    hide EncodeR;
    DecodeEncodeR(r.f7.value, rs2, rs1, r.f3.value, rd, r.op);
    MatchReaches(r, EncodeR(r.f7.value, rs2, rs1, r.f3.value, rd, r.op));
  }

  /** An immediate operation, a load or `jalr`, with any immediate. */
  lemma EncodedI(r: Row, imm: Int32, rs1: Word, rd: Word)
    requires Fits(r) && r.f7.None? && r.f3.Some?
    ensures Reaches(r, EncodeI(imm, rs1, r.f3.value, rd, r.op))
  {
    hide Reaches;
    hide Bits;
    hide EncodeI;
    hide Signed12;
    DecodeEncodeI(imm, rs1, r.f3.value, rd, r.op);
    MatchReaches(r, EncodeI(imm, rs1, r.f3.value, rd, r.op));
  }

  /** A shift by a constant: the upper part of the immediate is the row's `funct7`. */
  lemma EncodedShift(r: Row, n: nat, rs1: Word, rd: Word)
    requires Fits(r) && r.f7.Some? && r.f3.Some? && n < 32
    ensures Reaches(r, EncodeI(r.f7.value * 32 + n, rs1, r.f3.value, rd, r.op))
  {
    hide Reaches;
    hide Bits;
    hide EncodeI;
    hide Assemble;
    var imm := r.f7.value * 32 + n;
    DivModUnique(imm, 0x1000, 0, imm);
    DivModUnique(imm, 32, r.f7.value, n);
    EncodeIIs(imm, rs1, r.f3.value, rd, r.op);
    FieldsOf(r.f7.value, n, rs1 % 32, r.f3.value, rd % 32, r.op);
    MatchReaches(r, EncodeI(imm, rs1, r.f3.value, rd, r.op));
  }

  /** A store. */
  lemma EncodedS(r: Row, imm: Int32, rs2: Word, rs1: Word)
    requires Fits(r) && r.f7.None? && r.f3.Some?
    ensures Reaches(r, EncodeS(imm, rs2, rs1, r.f3.value, r.op))
  {
    hide Reaches;
    hide Bits;
    hide EncodeS;
    hide Signed12;
    hide ImmS;
    DecodeEncodeS(imm, rs2, rs1, r.f3.value, r.op);
    MatchReaches(r, EncodeS(imm, rs2, rs1, r.f3.value, r.op));
  }

  /** A branch with an even offset. */
  lemma EncodedB(r: Row, offset: Int32, rs2: Word, rs1: Word)
    requires Fits(r) && r.f7.None? && r.f3.Some? && offset % 2 == 0
    ensures var w := EncodeB(offset, rs2, rs1, r.f3.value, r.op); w.Encoded? && Reaches(r, w.w)
  {
    hide Reaches;
    hide Bits;
    hide EncodeB;
    hide Signed13;
    hide ImmB;
    DecodeEncodeB(offset, rs2, rs1, r.f3.value, r.op);
    MatchReaches(r, EncodeB(offset, rs2, rs1, r.f3.value, r.op).w);
  }

  lemma ReachedRow(i: nat, w: Word)
    requires i < EBREAK && i != SECOND_SB && RowMatches(ROWS[i], w)
    ensures RowOf(w) == i
  {
    hide Chosen;
    hide Bits;
    EbreakAlone();
    RowChosen(i, w);
  }

  /** The decoder's `INSTPAT` chain. */
  method DispatchInst(inst: Word) returns (found: nat)
    ensures found == RowOf(inst) && Matches(found, inst)
  {
    var patterns := seq(INV + 1, i requires 0 <= i <= INV => Text(i));
    found := Dispatch(patterns, inst);
    forall i | 0 <= i <= INV
      ensures Agrees(inst, Digits(patterns[i])) <==> Matches(i, inst)
    {
      TextAgrees(i, inst);
    }
    assert Matches(INV, inst);
    FirstMatch(found, inst);
  }
}
