/** What each macro does to the view. */
module MinirvRuns {
  import opened Options
  import opened MachineWords
  import opened MinirvMachine
  import opened MinirvMacros
  import opened MinirvView
  import opened MinirvTables
  import opened Rv32iValues
  import opened ShiftBytes

  lemma LaRuns(e: Env, v: View, r: Reg, addr: int)
    requires r != ZERO && 0 <= addr < B32
    ensures Run(e, v, La(r, addr)) == Some(v.(regs := v.regs[r := addr]))
  {
    assert UpperPart(Hi(addr)) == Hi(addr) % 0x10_0000 * 0x1000;
    assert Plus(UpperPart(Hi(addr)), Lo(addr)) == addr;
    var w, c := Advance(e, v, La(r, addr));
    Last(e, w, Addi(r, r, Lo(addr)));
    SetTwice(v.regs, r, UpperPart(Hi(addr)), addr);
  }

  lemma SetTwice(regs: Regs, r: Reg, x: Word, y: Word)
    ensures Set(Set(regs, r, x), r, y) == Set(regs, r, y)
  {
  }

  lemma GetByteRuns(e: Env, v: View, rd: Reg, rs1: Reg, k: nat)
    requires k < 4 && v.regs[SP] == e.sp
    ensures Run(e, v, GetByte(rd, rs1, k)) ==
            Some(v.(regs := Set(v.regs, rd, ByteAt(Get(v.regs, rs1), k)),
                    slots := v.slots.(c := Whole(Get(v.regs, rs1)))))
  {
    hide ByteAt;
    hide Run;
    var w, c := Advance(e, v, GetByte(rd, rs1, k));
    Last(e, w, Lbu(rd, SP, Var(VAR_C, k)));
  }

  lemma {:induction false} DoubleRuns(e: Env, v: View, rd: Reg, n: nat)
    ensures Run(e, v, Double(rd, n)) == Some(v.(regs := Set(v.regs, rd, Shl(Get(v.regs, rd), n))))
    decreases n
  {
    var x := Get(v.regs, rd);
    if n == 0 {
      Stop(e, v);
      assert Set(v.regs, rd, x) == v.regs;
    } else {
      var w, c := Advance(e, v, Double(rd, n));
      DoubleRuns(e, w, rd, n - 1);
      ShlDouble(x, n - 1);
      SetTwice(v.regs, rd, Plus(x, x), Shl(Plus(x, x), n - 1));
      ShlZero(n);
    }
  }

  lemma ShlZero(n: nat)
    ensures Shl(0, n) == 0
  {
    ShiftUpZero(n);
  }

  /** Bits above the word do not matter. */
  lemma ShlOfMod(y: nat, n: nat)
    ensures ShiftUp(y, n) % B32 == Shl(y % B32, n)
  {
    hide ShiftUp;
    hide Shl;
    ShlParts(y / B32, y % B32, n);
  }

  lemma ShlParts(q: nat, r: Word, n: nat)
    ensures ShiftUp(B32 * q + r, n) % B32 == Shl(r, n)
  {
    hide ShiftUp;
    SplitShift(q, r, n);
  }

  lemma SplitShift(q: nat, r: nat, n: nat)
    ensures ShiftUp(B32 * q + r, n) == B32 * ShiftUp(q, n) + ShiftUp(r, n)
  {
    ShiftUpSum(B32 * q, r, n);
    ShiftUpScaled(q, B32, n);
  }

  lemma ShlShl(x: Word, m: nat, n: nat)
    ensures Shl(Shl(x, m), n) == Shl(x, m + n)
  {
    ShlOfMod(ShiftUp(x, m), n);
    ShiftUpShiftUp(x, m, n);
  }

  lemma ShlDouble(x: Word, n: nat)
    ensures Shl(Plus(x, x), n) == Shl(x, n + 1)
  {
    assert ShiftUp(x, 1) == 2 * x;
    ShlShl(x, 1, n);
  }

  /** Shifts by less than 16 use no memory. */
  lemma SlliSmallRuns(e: Env, v: View, rd: Reg, rs1: Reg, n: nat)
    requires n < 16
    ensures Run(e, v, Slli(rd, rs1, n)) == Some(v.(regs := Set(v.regs, rd, Shl(Get(v.regs, rs1), n))))
  {
    var x := Get(v.regs, rs1);
    if n == 0 {
      assert Shl(x, 0) == x;
      if rd == rs1 {
        Stop(e, v);
        assert Set(v.regs, rd, x) == v.regs;
      } else {
        Last(e, v, Addi(rd, rs1, 0));
      }
    } else {
      var w, c := Advance(e, v, Slli(rd, rs1, n));
      DoubleRuns(e, w, rd, n - 1);
      ShlDouble(x, n - 1);
      SetTwice(v.regs, rd, Plus(x, x), Shl(Plus(x, x), n - 1));
      ShlZero(n);
    }
  }

  /** Apart from `rd`, only the stack word `C` changes. */
  lemma MsbRuns(e: Env, v: View, rd: Reg, rs1: Reg)
    requires v.regs[SP] == e.sp && rd != SP
    ensures Run(e, v, Msb(rd, rs1)).Some?
    ensures var w := Run(e, v, Msb(rd, rs1)).value;
            && w.regs == Set(v.regs, rd, MsbOf(Get(v.regs, rs1)))
            && w == v.(regs := w.regs, slots := v.slots.(c := w.slots.c))
  {
    hide Run;
    var x := Get(v.regs, rs1);
    var c := Msb(rd, rs1);
    GetByteRuns(e, v, rd, rs1, 3);
    var v1 := Run(e, v, GetByte(rd, rs1, 3)).value;
    c := Call(e, v, c, v1);
    SlliSmallRuns(e, v1, rd, rd, 1);
    var v2 := Run(e, v1, Slli(rd, rd, 1)).value;
    c := Call(e, v1, c, v2);
    GetByteRuns(e, v2, rd, rd, 1);
    if rd != ZERO {
      TopBit(x);
    }
  }

  lemma TopBit(x: Word)
    ensures ByteAt(Shl(ByteAt(x, 3), 1), 1) == MsbOf(x)
  {
    assert ShiftUp(ByteAt(x, 3), 1) == 2 * ByteAt(x, 3);
    DivTwice(x);
  }

  // ----- not, sub, slt, sltu -----

  lemma ByteOfByte(b: Byte)
    ensures ByteAt(b, 0) == b && Plus(0, b) == b
  {
  }

  lemma NotByteRuns(e: Env, v: View, k: nat)
    requires Ready(e, v) && k < 4 && v.regs[TP] == e.lay.Xor8() + 0xff * 0x100
    ensures var x := 255 - v.slots.c.At(k);
            Run(e, v, NotByte(k)) ==
            Some(v.(regs := v.regs[GP := x], slots := v.slots.(d := v.slots.d.Put(k, x))))
  {
    hide Run;
    hide ByteAt;
    var b := v.slots.c.At(k);
    var v1, c := Advance(e, v, NotByte(k));
    assert v1.regs[GP] == b;
    var v2, c2 := Advance(e, v1, c);
    assert v2.regs[GP] == TableAddress(e.lay.Xor8(), 0xff, b);
    ReadLut(e, v2, GP, e.lay.Xor8(), 0xff, b);
    XorOnesByte(b);
    var v3, c3 := Advance(e, v2, c2);
    assert v3.regs == v.regs[GP := 255 - b];
    ByteOfByte(255 - b);
    Last(e, v3, Sb(GP, SP, Var(VAR_D, k)));
  }

  /** The four byte steps leave the complement in `D`. */
  lemma NotWordRuns(e: Env, v: View, c: Code, x: Word) returns (w: View)
    requires Ready(e, v) && v.regs[TP] == e.lay.Xor8() + 0xff * 0x100 && v.slots.c == Whole(x)
    requires c.Then? && c.rest.Then? && c.rest.rest.Then? && c.rest.rest.rest.Then?
    requires c.first == NotByte(3) && c.rest.first == NotByte(2)
    requires c.rest.rest.first == NotByte(1) && c.rest.rest.rest.first == NotByte(0)
    ensures Run(e, v, c) == Run(e, w, c.rest.rest.rest.rest)
    ensures w == v.(regs := v.regs[GP := w.regs[GP]],
                    slots := v.slots.(d := Bytes(255 - ByteAt(x, 0), 255 - ByteAt(x, 1),
                                                 255 - ByteAt(x, 2), 255 - ByteAt(x, 3))))
  {
    hide Run;
    hide ByteAt;
    hide TablesIn;
    hide NoOverlap;
    NotByteRuns(e, v, 3);
    var v4 := Run(e, v, NotByte(3)).value;
    var c4 := Call(e, v, c, v4);
    NotByteRuns(e, v4, 2);
    var v5 := Run(e, v4, NotByte(2)).value;
    var c5 := Call(e, v4, c4, v5);
    NotByteRuns(e, v5, 1);
    var v6 := Run(e, v5, NotByte(1)).value;
    var c6 := Call(e, v5, c5, v6);
    NotByteRuns(e, v6, 0);
    w := Run(e, v6, NotByte(0)).value;
    var c7 := Call(e, v6, c6, w);
  }

  /** Apart from `rd` and `tp`, only the stack words 3, `C` and `D` change. */
  lemma NotRuns(e: Env, v: View, rd: Reg, rs1: Reg)
    requires Ready(e, v)
    ensures Run(e, v, Not(e.lay, rd, rs1)).Some?
    ensures var w := Run(e, v, Not(e.lay, rd, rs1)).value;
            && w.regs == Set(v.regs[TP := e.lay.Xor8() + 0xff * 0x100], rd, B32 - 1 - Get(v.regs, rs1))
            && w == v.(regs := w.regs, slots := v.slots.(v3 := w.slots.v3, c := w.slots.c, d := w.slots.d))
  {
    hide Run;
    hide ByteAt;
    hide Join;
    hide TablesIn;
    var x, g := Get(v.regs, rs1), v.regs[GP];
    var v1, c := Advance(e, v, Not(e.lay, rd, rs1));
    var v2, c2 := Advance(e, v1, c);
    LaRuns(e, v2, TP, e.lay.Xor8() + 0xff * 0x100);
    var v3 := v2.(regs := v.regs[TP := e.lay.Xor8() + 0xff * 0x100]);
    var c3 := Call(e, v2, c2, v3);
    var v7 := NotWordRuns(e, v3, c3, x);
    var c7 := c3.rest.rest.rest.rest;
    var v8, c8 := Advance(e, v7, c7);
    assert v8.regs == v3.regs;
    NotBytes(x);
    Last(e, v8, Lw(rd, SP, Var(VAR_D, 0)));
  }

  lemma SubRuns(e: Env, v: View, rd: Reg, rs1: Reg, rs2: Reg)
    requires Ready(e, v) && rs1 != TP
    ensures Run(e, v, Sub(e.lay, rd, rs1, rs2)).Some?
    ensures var w := Run(e, v, Sub(e.lay, rd, rs1, rs2)).value;
            && w.regs == Set(v.regs[TP := w.regs[TP]], rd, Difference(Get(v.regs, rs1), Get(v.regs, rs2)))
            && w == v.(regs := w.regs, slots := v.slots.(v3 := w.slots.v3, c := w.slots.c, d := w.slots.d))
  {
    hide Run;
    hide TablesIn;
    hide NoOverlap;
    var x, y := Get(v.regs, rs1), Get(v.regs, rs2);
    var c := Sub(e.lay, rd, rs1, rs2);
    NotRuns(e, v, TP, rs2);
    var v1 := Run(e, v, Not(e.lay, TP, rs2)).value;
    c := Call(e, v, c, v1);
    assert v1.regs == v.regs[TP := B32 - 1 - y];
    var v2, c2 := Advance(e, v1, c);
    Last(e, v2, Addi(rd, rd, 1));
    assert rd != ZERO ==> Plus(Plus(x, B32 - 1 - y), 1) == Difference(x, y);
  }

  /** The index into the comparison tables. */
  function SignIndex(x: Word, y: Word): (k: nat)
    ensures k < 8
  {
    SignsDecide(x, y);
    4 * MsbOf(x) + 2 * MsbOf(y) + MsbOf(Difference(x, y))
  }

  lemma SltIndexRuns(e: Env, v: View)
    requires Ready(e, v)
    ensures Run(e, v, SltIndex(e.lay)).Some?
    ensures var w := Run(e, v, SltIndex(e.lay)).value;
            && w.regs == v.regs[GP := SignIndex(v.regs[S0], v.regs[S1])][TP := w.regs[TP]]
            && w == v.(regs := w.regs, slots := v.slots.(v3 := w.slots.v3, c := w.slots.c, d := w.slots.d))
  {
    hide Run;
    hide TablesIn;
    hide NoOverlap;
    var x, y := v.regs[S0], v.regs[S1];
    var code := SltIndex(e.lay);
    // first sign
    var first := code.first;
    MsbRuns(e, v, GP, S0);
    var v1 := Run(e, v, Msb(GP, S0)).value;
    var r1 := Call(e, v, first, v1);
    SlliSmallRuns(e, v1, GP, GP, 1);
    var v2 := Run(e, v1, Slli(GP, GP, 1)).value;
    var c2 := Call(e, v, code, v2);
    ShlOne(MsbOf(x));
    assert v2.regs == v.regs[GP := 2 * MsbOf(x)];
    // second sign
    MsbRuns(e, v2, TP, S1);
    var v3 := Run(e, v2, Msb(TP, S1)).value;
    var r3 := Call(e, v2, c2.first, v3);
    var v4, r4 := Advance(e, v3, r3);
    SlliSmallRuns(e, v4, GP, GP, 1);
    var v5 := Run(e, v4, Slli(GP, GP, 1)).value;
    var c5 := Call(e, v2, c2, v5);
    ShlOne(2 * MsbOf(x) + MsbOf(y));
    assert v5.regs == v.regs[GP := 4 * MsbOf(x) + 2 * MsbOf(y)][TP := MsbOf(y)];
    // sign of the difference
    SubRuns(e, v5, TP, S0, S1);
    var v6 := Run(e, v5, Sub(e.lay, TP, S0, S1)).value;
    var r6 := Call(e, v5, c5, v6);
    MsbRuns(e, v6, TP, TP);
    var v7 := Run(e, v6, Msb(TP, TP)).value;
    var r7 := Call(e, v6, r6, v7);
    Last(e, v7, Add(GP, GP, TP));
  }

  lemma ShlOne(x: Word)
    requires x < 0x8000_0000
    ensures Shl(x, 1) == 2 * x
  {
    assert ShiftUp(x, 1) == 2 * x;
  }

  /** What the macros with a destination leave: `rd` set, `gp` and `tp` lost, everything outside the scratch kept. */
  ghost predicate Leaves(v: View, w: View, rd: Reg, x: Word) {
    w.data == v.data && w.regs == Set(v.regs[GP := w.regs[GP]][TP := w.regs[TP]], rd, x)
  }

  lemma SltTemplateRuns(e: Env, v: View, table: Word, content: seq<Byte>, rd: Reg, rs1: Reg, rs2: Reg)
    requires Ready(e, v) && rs1 !in {GP, TP} && rs2 != GP
    requires |content| == 8 && Free(e, table, 8)
    requires forall i :: 0 <= i < 8 ==> ByteEntry(v.data, table, 0, i) == content[i]
    ensures Run(e, v, SltTemplate(e.lay, table, rd, rs1, rs2)).Some?
    ensures Leaves(v, Run(e, v, SltTemplate(e.lay, table, rd, rs1, rs2)).value, rd,
                   content[SignIndex(Get(v.regs, rs1), Get(v.regs, rs2))])
  {
    hide Run;
    hide TablesIn;
    hide NoOverlap;
    hide SignIndex;
    var x, y := Get(v.regs, rs1), Get(v.regs, rs2);
    var code := SltTemplate(e.lay, table, rd, rs1, rs2);
    var v1, r1 := Advance(e, v, code.first);
    var v2, r2 := Advance(e, v1, r1);
    var v3, r3 := Advance(e, v2, r2);
    var v4, r4 := Advance(e, v3, r3);
    Last(e, v4, Lw(S1, SP, Var(VAR_A, 0)));
    var v5 := Run(e, v4, r4).value;
    assert v5.regs == v.regs[S0 := x][S1 := y];
    var c5 := Call(e, v, code, v5);
    SltIndexRuns(e, v5);
    var v6 := Run(e, v5, SltIndex(e.lay)).value;
    var c6 := Call(e, v5, c5, v6);
    SltLookup(e, v, v6, table, content, rd, SignIndex(x, y));
  }

  /** The last part of the comparison: look up the index, give back `s0` and `s1`. */
  lemma SltLookup(e: Env, v: View, v6: View, table: Word, content: seq<Byte>, rd: Reg, k: nat)
    requires Ready(e, v) && |content| == 8 && Free(e, table, 8) && k < 8
    requires forall i :: 0 <= i < 8 ==> ByteEntry(v.data, table, 0, i) == content[i]
    requires v6.data == v.data && v6.slots.v1 == Whole(v.regs[S0]) && v6.slots.v2 == Whole(v.regs[S1])
    requires v6.regs == v.regs[S0 := v6.regs[S0]][S1 := v6.regs[S1]][GP := k][TP := v6.regs[TP]]
    ensures var c := Then5(La(TP, table), Do(Add(TP, TP, GP)), Pop(S1, 2), Pop(S0, 1), Do(Lbu(rd, TP, 0)));
            Run(e, v6, c).Some? && Leaves(v, Run(e, v6, c).value, rd, content[k])
  {
    hide Run;
    hide TablesIn;
    hide NoOverlap;
    var c := Then5(La(TP, table), Do(Add(TP, TP, GP)), Pop(S1, 2), Pop(S0, 1), Do(Lbu(rd, TP, 0)));
    LaRuns(e, v6, TP, table);
    var v7 := Run(e, v6, La(TP, table)).value;
    var c7 := Call(e, v6, c, v7);
    var v8, c8 := Advance(e, v7, c7);
    var v9, c9 := Advance(e, v8, c8);
    var v10, c10 := Advance(e, v9, c9);
    assert v10.regs == v.regs[GP := k][TP := table + k];
    ReadSmall(e, v10, TP, table, 8, k);
    Last(e, v10, Lbu(rd, TP, 0));
  }

  // ----- and, or, xor -----

  function BitwiseTable(lay: Layout, op: Bitwise): int {
    match op
    case AndOp => lay.And8()
    case OrOp => lay.Or8()
    case XorOp => lay.Xor8()
  }

  lemma BitwiseEntry(lay: Layout, data: Mem, op: Bitwise, a: Byte, b: Byte)
    requires TablesIn(lay, data)
    ensures ByteEntry(data, BitwiseTable(lay, op), a, b) == op.Of(a, b)
  {
  }

  lemma LogicByteRuns(e: Env, v: View, op: Bitwise, r: Reg, k: nat)
    requires Ready(e, v) && k < 4 && r !in {ZERO, TP} && v.regs[r] == BitwiseTable(e.lay, op)
    requires v.slots.d.At(2) == 0 && v.slots.d.At(3) == 0
    requires op.Of(v.slots.a.At(k), v.slots.b.At(k)) < 0x100
    ensures Run(e, v, LogicByte(r, k)).Some?
    ensures var w, x := Run(e, v, LogicByte(r, k)).value, op.Of(v.slots.a.At(k), v.slots.b.At(k));
            && w == v.(regs := v.regs[TP := x], slots := v.slots.(c := v.slots.c.Put(k, x), d := w.slots.d))
            && w.slots.d.At(2) == 0 && w.slots.d.At(3) == 0
  {
    hide Run;
    hide ByteAt;
    hide TablesIn;
    hide NoOverlap;
    var a, b := v.slots.a.At(k), v.slots.b.At(k);
    ByteOfByte(a);
    ByteOfByte(b);
    var v1, c1 := Advance(e, v, LogicByte(r, k));
    var v2, c2 := Advance(e, v1, c1);
    var v3, c3 := Advance(e, v2, c2);
    var v4, c4 := Advance(e, v3, c3);
    assert v4 == v.(regs := v.regs[TP := b], slots := v.slots.(d := Bytes(b, a, 0, 0)));
    LogicLookup(e, v, v4, op, r, k, a, b);
  }

  /** The second half of a byte step: form the index in `D`, look it up, store the byte. */
  lemma LogicLookup(e: Env, v: View, v4: View, op: Bitwise, r: Reg, k: nat, a: Byte, b: Byte)
    requires Ready(e, v) && k < 4 && r !in {ZERO, TP} && v.regs[r] == BitwiseTable(e.lay, op) && op.Of(a, b) < 0x100
    requires v4 == v.(regs := v.regs[TP := b], slots := v.slots.(d := Bytes(b, a, 0, 0)))
    ensures var c := LogicByte(r, k).rest.rest.rest.rest;
            Run(e, v4, c) == Some(v.(regs := v.regs[TP := op.Of(a, b)],
                                     slots := v.slots.(c := v.slots.c.Put(k, op.Of(a, b)), d := Bytes(b, a, 0, 0))))
  {
    hide Run;
    hide ByteAt;
    hide TablesIn;
    hide NoOverlap;
    hide LoadByte;
    hide ByteEntry;
    ByteOfByte(op.Of(a, b));
    var c4 := LogicByte(r, k).rest.rest.rest.rest;
    var v5, c5 := Advance(e, v4, c4);
    var v6, c6 := Advance(e, v5, c5);
    JoinIs(b, a, 0, 0);
    assert v6.regs[TP] == TableAddress(BitwiseTable(e.lay, op), a, b);
    ReadLut(e, v6, TP, BitwiseTable(e.lay, op), a, b);
    BitwiseEntry(e.lay, v.data, op, a, b);
    var v7, c7 := Advance(e, v6, c6);
    assert v7.regs == v.regs[TP := op.Of(a, b)];
    Last(e, v7, Sb(TP, SP, Var(VAR_C, k)));
  }

  lemma LogicRuns(e: Env, v: View, op: Bitwise, rd: Reg, rs1: Reg, rs2: Reg)
    requires Ready(e, v) && !LogicAborts(rd, rs1, rs2)
    requires op.Of(Get(v.regs, rs1), Get(v.regs, rs2)) < B32
    ensures Run(e, v, Logic(BitwiseTable(e.lay, op), rd, rs1, rs2)).Some?
    ensures Leaves(v, Run(e, v, Logic(BitwiseTable(e.lay, op), rd, rs1, rs2)).value, rd,
                   op.Of(Get(v.regs, rs1), Get(v.regs, rs2)))
  {
    hide Run;
    hide TablesIn;
    hide NoOverlap;
    hide ByteAt;
    hide Join;
    var table := BitwiseTable(e.lay, op);
    var code := Logic(table, rd, rs1, rs2);
    if rd == ZERO {
      Stop(e, v);
    } else {
      var x, y := Get(v.regs, rs1), Get(v.regs, rs2);
      var v1, r1 := Advance(e, v, code.first);
      var v2, r2 := Advance(e, v1, r1);
      LaRuns(e, v2, rd, table);
      var v3 := v2.(regs := v.regs[rd := table]);
      var r3 := Call(e, v2, r2, v3);
      Last(e, v3, Sw(ZERO, SP, Var(VAR_D, 0)));
      var v4 := v3.(slots := v3.slots.(d := Whole(0)));
      var c4 := Call(e, v, code, v4);
      ZeroBytes();
      LogicWordRuns(e, v4, op, rd, x, y);
      var v5 := Run(e, v4, c4.first).value;
      var c5 := Call(e, v4, c4, v5);
      Last(e, v5, Lw(rd, SP, Var(VAR_C, 0)));
    }
  }

  lemma ZeroBytes()
    ensures ByteAt(0, 0) == 0 && ByteAt(0, 1) == 0 && ByteAt(0, 2) == 0 && ByteAt(0, 3) == 0
  {
  }

  /** The four byte steps leave the result in `C`. */
  lemma LogicWordRuns(e: Env, v: View, op: Bitwise, r: Reg, x: Word, y: Word)
    requires Ready(e, v) && r !in {ZERO, TP, SP} && v.regs[r] == BitwiseTable(e.lay, op)
    requires v.slots.a == Whole(x) && v.slots.b == Whole(y) && v.slots.d.At(2) == 0 && v.slots.d.At(3) == 0
    ensures var c := Then4(LogicByte(r, 3), LogicByte(r, 2), LogicByte(r, 1), LogicByte(r, 0));
            && Run(e, v, c).Some?
            && var w := Run(e, v, c).value;
               && w.slots.c.Value() == op.Of(x, y)
               && w == v.(regs := v.regs[TP := w.regs[TP]], slots := v.slots.(c := w.slots.c, d := w.slots.d))
  {
    hide Run;
    hide TablesIn;
    hide NoOverlap;
    hide ByteAt;
    hide Join;
    var c := Then4(LogicByte(r, 3), LogicByte(r, 2), LogicByte(r, 1), LogicByte(r, 0));
    BitwiseBytes(op, x, y);
    LogicByteRuns(e, v, op, r, 3);
    var v1 := Run(e, v, LogicByte(r, 3)).value;
    var c1 := Call(e, v, c, v1);
    LogicByteRuns(e, v1, op, r, 2);
    var v2 := Run(e, v1, LogicByte(r, 2)).value;
    var c2 := Call(e, v1, c1, v2);
    LogicByteRuns(e, v2, op, r, 1);
    var v3 := Run(e, v2, LogicByte(r, 1)).value;
    var c3 := Call(e, v2, c2, v3);
    LogicByteRuns(e, v3, op, r, 0);
  }

  // ----- seqz, seq -----

  function Flag(b: bool): Word { if b then 1 else 0 }

  lemma CheckByteZeroRuns(e: Env, v: View, r: Reg, rd: Reg, k: nat)
    requires Ready(e, v) && k < 4 && r != ZERO && rd !in {ZERO, SP, r} && v.regs[r] == e.lay.zero8
    ensures Run(e, v, CheckByteZero(r, rd, k)) == Some(v.(regs := v.regs[rd := Flag(v.slots.a.At(k) != 0)]))
  {
    hide Run;
    hide ByteAt;
    var a := v.slots.a.At(k);
    var v1, c1 := Advance(e, v, CheckByteZero(r, rd, k));
    var v2, c2 := Advance(e, v1, c1);
    assert v2.regs[rd] == e.lay.zero8 + a;
    ReadSmall(e, v2, rd, e.lay.zero8, 256, a);
    Last(e, v2, Lbu(rd, rd, 0));
    assert v2.regs[rd := Flag(a != 0)] == v.regs[rd := Flag(a != 0)];
  }

  /** The number of bytes of `x` that are not zero. */
  function NonZeroBytes(x: Word): (n: nat)
    ensures n <= 4 && (n == 0 <==> x == 0)
  {
    JoinBytes(x);
    Flag(ByteAt(x, 0) != 0) + Flag(ByteAt(x, 1) != 0) + Flag(ByteAt(x, 2) != 0) + Flag(ByteAt(x, 3) != 0)
  }

  /** The middle part of `seqz`: count the bytes that are not zero in `gp`. */
  lemma ReadyKept(e: Env, v: View, w: View)
    requires Ready(e, v) && w.regs[SP] == v.regs[SP] && w.data == v.data
    ensures Ready(e, w)
  {
  }

  lemma CountZeroRuns(e: Env, v: View, x: Word)
    requires Ready(e, v) && v.slots.a == Whole(x) && v.regs[S0] == e.lay.zero8
    ensures var c := Seqz(e.lay, TP, TP).rest.first;
            Run(e, v, c) == Some(v.(regs := v.regs[GP := NonZeroBytes(x)][TP := Flag(ByteAt(x, 3) != 0)]))
  {
    hide Run;
    hide ByteAt;
    hide TablesIn;
    hide NoOverlap;
    hide Flag;
    hide Plus;
    hide Clear;
    hide Ready;
    FlagSmall();
    var c := Seqz(e.lay, TP, TP).rest.first;
    var f0, f1 := Flag(ByteAt(x, 0) != 0), Flag(ByteAt(x, 1) != 0);
    var f2, f3 := Flag(ByteAt(x, 2) != 0), Flag(ByteAt(x, 3) != 0);
    CheckByteZeroRuns(e, v, S0, GP, 0);
    var v1 := v.(regs := v.regs[GP := f0]);
    var c1 := Call(e, v, c, v1);
    ReadyKept(e, v, v1);
    var v3, c3 := CountOne(e, v1, c1, 1, f0, f1);
    Recount(v.regs, f0, v.regs[TP], f0 + f1, f1);
    ReadyKept(e, v, v3);
    var v5, c5 := CountOne(e, v3, c3, 2, f0 + f1, f2);
    Recount(v.regs, f0 + f1, f1, f0 + f1 + f2, f2);
    LastCount(e, v, v5, c5, f0 + f1 + f2, f2, f3);
  }

  lemma Recount(regs: Regs, a: Word, b: Word, c: Word, d: Word)
    ensures regs[GP := a][TP := b][GP := c][TP := d] == regs[GP := c][TP := d]
    ensures b == regs[TP] ==> regs[GP := a][TP := b] == regs[GP := a]
  {
  }

  lemma LastCount(e: Env, v: View, v5: View, c5: Code, sum: Word, f2: Word, flag: Word)
    requires Ready(e, v) && v.regs[S0] == e.lay.zero8 && sum <= 4 && v5 == v.(regs := v.regs[GP := sum][TP := f2])
    requires flag == Flag(v.slots.a.At(3) != 0) <= 1
    requires c5 == Then(CheckByteZero(S0, TP, 3), Do(Add(GP, GP, TP)))
    ensures Run(e, v5, c5) == Some(v.(regs := v.regs[GP := sum + flag][TP := flag]))
  {
    hide Run;
    hide ByteAt;
    hide TablesIn;
    hide NoOverlap;
    CheckByteZeroRuns(e, v5, S0, TP, 3);
    var v6 := v5.(regs := v5.regs[TP := flag]);
    var c6 := Call(e, v5, c5, v6);
    Last(e, v6, Add(GP, GP, TP));
    assert v6.regs[GP := sum + flag] == v.regs[GP := sum + flag][TP := flag];
  }

  lemma FlagSmall()
    ensures forall b :: Flag(b) <= 1
  {
  }

  /** Check one more byte and add its flag to the count in `gp`. */
  lemma CountOne(e: Env, v: View, c: Code, k: nat, sum: Word, flag: Word) returns (w: View, rest: Code)
    requires Ready(e, v) && v.regs[S0] == e.lay.zero8 && v.regs[GP] == sum <= 4 && k < 4
    requires flag == Flag(v.slots.a.At(k) != 0) <= 1
    requires c.Then? && c.first == CheckByteZero(S0, TP, k) && c.rest.Then? && c.rest.first == Do(Add(GP, GP, TP))
    ensures Run(e, v, c) == Run(e, w, rest) && rest == c.rest.rest
    ensures w == v.(regs := v.regs[GP := sum + flag][TP := flag])
  {
    hide Run;
    hide ByteAt;
    hide TablesIn;
    hide NoOverlap;
    CheckByteZeroRuns(e, v, S0, TP, k);
    var v1 := v.(regs := v.regs[TP := flag]);
    var c1 := Call(e, v, c, v1);
    w, rest := Advance(e, v1, c1);
    assert w.regs == v.regs[GP := sum + flag][TP := flag];
  }

  /** `seqz` up to the table lookup: all that is left is to give back `s0`. */
  lemma SeqzUntilPop(e: Env, v: View, rd: Reg, rs1: Reg) returns (w: View)
    requires Ready(e, v)
    ensures Run(e, v, Seqz(e.lay, rd, rs1)) == Run(e, w, Pop(S0, 1))
    ensures w.data == v.data && w.slots.v1 == Whole(v.regs[S0]) && w.check == v.check
    ensures w.regs
         == Set(v.regs[GP := w.regs[GP]][TP := w.regs[TP]][S0 := e.lay.zero8], rd, Flag(Get(v.regs, rs1) == 0))
  {
    hide Run;
    hide TablesIn;
    hide NoOverlap;
    hide Clear;
    SmallPlaced(e);
    var x := Get(v.regs, rs1);
    var code := Seqz(e.lay, rd, rs1);
    var v1, r1 := Advance(e, v, code.first);
    var v2, r2 := Advance(e, v1, r1);
    LaRuns(e, v2, S0, e.lay.zero8);
    var v3 := v2.(regs := v.regs[S0 := e.lay.zero8]);
    var c3 := Call(e, v, code, v3);
    CountZeroRuns(e, v3, x);
    var v4 := Run(e, v3, c3.first).value;
    var c4 := Call(e, v3, c3, v4);
    LaRuns(e, v4, TP, e.lay.sameResult);
    var v5 := v4.(regs := v4.regs[TP := e.lay.sameResult]);
    var c5 := Call(e, v4, c4, v5);
    var v6, c6 := Advance(e, v5, c5);
    assert v6.regs == v.regs[GP := NonZeroBytes(x)][TP := v6.regs[TP]][S0 := e.lay.zero8];
    ReadSameResult(e, v6, NonZeroBytes(x));
    w, c6 := Advance(e, v6, c6);
  }

  lemma SmallPlaced(e: Env)
    requires Clear(e)
    ensures 0 <= e.lay.sameResult && e.lay.sameResult + 8 <= B32 && 0 <= e.lay.zero8 && e.lay.zero8 + 256 <= B32
  {
  }

  lemma ReadSameResult(e: Env, v: View, n: nat)
    requires Ready(e, v) && n < 8 && v.regs[TP] == e.lay.sameResult + n
    ensures LoadByte(e, v, TP, 0) == Flag(n == 0)
  {
    ReadSmall(e, v, TP, e.lay.sameResult, 8, n);
  }

  lemma SeqzRuns(e: Env, v: View, rd: Reg, rs1: Reg)
    requires Ready(e, v) && rd !in {S0, SP}
    ensures Run(e, v, Seqz(e.lay, rd, rs1)).Some?
    ensures Leaves(v, Run(e, v, Seqz(e.lay, rd, rs1)).value, rd, Flag(Get(v.regs, rs1) == 0))
  {
    var w := SeqzUntilPop(e, v, rd, rs1);
    Last(e, w, Lw(S0, SP, Var(1, 0)));
  }

  ghost predicate SeqzRight(e: Env, v: View, rd: Reg, rs1: Reg) {
    && Run(e, v, Seqz(e.lay, rd, rs1)).Some?
    && Leaves(v, Run(e, v, Seqz(e.lay, rd, rs1)).value, rd, Flag(Get(v.regs, rs1) == 0))
  }

  /**
   * `seqz` gives back `s0` after it has set its destination, so it is right in every state exactly when the
   * destination is neither `s0`, which then is overwritten, nor `sp`, through which `s0` is loaded.
   */
  lemma SeqzExact(e: Env, v: View, rd: Reg, rs1: Reg)
    requires Ready(e, v)
    ensures (forall w :: Ready(e, w) ==> SeqzRight(e, w, rd, rs1)) <==> rd !in {S0, SP}
  {
    if rd == S0 {
      SeqzIntoS0(e, v, rs1);
    } else if rd == SP {
      SeqzIntoSp(e, v, rs1);
    } else {
      forall w | Ready(e, w) ensures SeqzRight(e, w, rd, rs1) {
        SeqzRuns(e, w, rd, rs1);
      }
    }
  }

  lemma LeavesResult(v: View, w: View, rd: Reg, x: Word)
    ensures Leaves(v, w, rd, x) && rd != ZERO ==> w.regs[rd] == x
    ensures Leaves(v, w, rd, x) && rd != S0 ==> w.regs[S0] == v.regs[S0]
  {
    var expected := Set(v.regs[GP := w.regs[GP]][TP := w.regs[TP]], rd, x);
    assert w.regs == expected ==> w.regs[rd] == expected[rd] && w.regs[S0] == expected[S0];
  }

  lemma SeqzIntoS0(e: Env, v: View, rs1: Reg)
    requires Ready(e, v)
    ensures exists w :: Ready(e, w) && !SeqzRight(e, w, S0, rs1)
  {
    hide TablesIn;
    var w := v.(regs := v.regs[S0 := 2]);
    var u := SeqzUntilPop(e, w, S0, rs1);
    Last(e, u, Lw(S0, SP, Var(1, 0)));
    assert Ready(e, w);
    var r := Run(e, w, Seqz(e.lay, S0, rs1)).value;
    assert r.regs[S0] == 2;
    LeavesResult(w, r, S0, Flag(Get(w.regs, rs1) == 0));
    assert !SeqzRight(e, w, S0, rs1);
  }

  lemma SeqzIntoSp(e: Env, v: View, rs1: Reg)
    requires Ready(e, v)
    ensures exists w :: Ready(e, w) && !SeqzRight(e, w, SP, rs1)
  {
    hide TablesIn;
    hide Join;
    var loaded := PeekWord(v.data, B32 - 4);
    var w := v.(regs := v.regs[S0 := if loaded == 0 then 1 else 0]);
    var u := SeqzUntilPop(e, w, SP, rs1);
    Last(e, u, Lw(S0, SP, Var(1, 0)));
    assert u.regs[SP] == 1 ==> Address(u, SP, -4) == B32 - 3;
    assert u.regs[SP] == 0 ==> Address(u, SP, -4) == B32 - 4 && !e.InSlots(B32 - 4);
    assert Ready(e, w);
    if Run(e, w, Seqz(e.lay, SP, rs1)).Some? {
      var r := Run(e, w, Seqz(e.lay, SP, rs1)).value;
      assert r.regs[S0] == loaded;
      LeavesResult(w, r, SP, Flag(Get(w.regs, rs1) == 0));
    }
    assert !SeqzRight(e, w, SP, rs1);
  }

  lemma CheckByteSameRuns(e: Env, v: View, r: Reg, rd: Reg, k: nat)
    requires Ready(e, v) && k < 4 && r !in {ZERO, TP} && rd !in {ZERO, SP, TP, r} && v.regs[r] == e.lay.check
    ensures Run(e, v, CheckByteSame(r, rd, k)).Some?
    ensures var w := Run(e, v, CheckByteSame(r, rd, k)).value;
            && w.regs == v.regs[rd := Flag(v.slots.a.At(k) != v.slots.b.At(k))][TP := w.regs[TP]]
            && w == v.(regs := w.regs, check := w.check)
  {
    hide Run;
    hide TablesIn;
    hide NoOverlap;
    hide ByteAt;
    var a, b := v.slots.a.At(k), v.slots.b.At(k);
    ByteOfByte(1);
    var v1, c1 := Advance(e, v, CheckByteSame(r, rd, k));
    var v2, c2 := Advance(e, v1, c1);
    var v3, c3 := Advance(e, v2, c2);
    assert v3.regs[TP] == e.lay.check + a && e.InCheck(e.lay.check + a);
    var v4, c4 := Advance(e, v3, c3);
    assert v4 == v.(regs := v.regs[TP := e.lay.check + a][rd := 1], check := v.check[a := 1]);
    CheckSecond(e, v, v4, r, rd, k, a, b);
  }

  /** Clear the entry of the second byte, then look whether the first entry is still set. */
  lemma CheckSecond(e: Env, v: View, v4: View, r: Reg, rd: Reg, k: nat, a: Byte, b: Byte)
    requires Ready(e, v) && k < 4 && r !in {ZERO, TP} && rd !in {ZERO, SP, TP, r} && v.regs[r] == e.lay.check
    requires b == v.slots.b.At(k)
    requires v4 == v.(regs := v.regs[TP := e.lay.check + a][rd := 1], check := v.check[a := 1])
    ensures var c := CheckByteSame(r, rd, k).rest.rest.rest.rest;
            Run(e, v4, c) == Some(v.(regs := v.regs[TP := e.lay.check + a][rd := Flag(a != b)],
                                     check := v.check[a := 1][b := 0]))
  {
    hide Run;
    hide TablesIn;
    hide NoOverlap;
    hide ByteAt;
    ByteOfByte(0);
    var c4 := CheckByteSame(r, rd, k).rest.rest.rest.rest;
    var v5, c5 := Advance(e, v4, c4);
    var v6, c6 := Advance(e, v5, c5);
    assert e.InCheck(e.lay.check + a) && e.InCheck(e.lay.check + b);
    assert v6.regs == v.regs[TP := e.lay.check + a][rd := e.lay.check + b];
    var v7, c7 := Advance(e, v6, c6);
    assert v7.check == v.check[a := 1][b := 0];
    Last(e, v7, Lbu(rd, TP, 0));
    SetTwice(v.regs[TP := e.lay.check + a], rd, e.lay.check + b, Flag(a != b));
  }

  function DifferentBytes(x: Word, y: Word): (n: nat)
    ensures n <= 4 && (n == 0 <==> x == y)
  {
    JoinBytes(x);
    JoinBytes(y);
    Flag(ByteAt(x, 0) != ByteAt(y, 0)) + Flag(ByteAt(x, 1) != ByteAt(y, 1))
      + Flag(ByteAt(x, 2) != ByteAt(y, 2)) + Flag(ByteAt(x, 3) != ByteAt(y, 3))
  }

  /** The middle part of `seq`: count the differing bytes in `gp`, whatever the scratch array held before. */
  lemma CountDifferentRuns(e: Env, v: View, x: Word, y: Word)
    requires Ready(e, v) && v.slots.a == Whole(x) && v.slots.b == Whole(y) && v.regs[S0] == e.lay.check
    ensures var c := Seq(e.lay, TP, TP, TP).rest.first;
            && Run(e, v, c).Some?
            && var w := Run(e, v, c).value;
               && w.regs == v.regs[GP := DifferentBytes(x, y)][S1 := w.regs[S1]][TP := w.regs[TP]]
               && w == v.(regs := w.regs, check := w.check)
  {
    hide Run;
    hide ByteAt;
    hide TablesIn;
    var c := Seq(e.lay, TP, TP, TP).rest.first;
    CheckByteSameRuns(e, v, S0, GP, 0);
    var v1 := Run(e, v, CheckByteSame(S0, GP, 0)).value;
    var c1 := Call(e, v, c, v1);
    CheckByteSameRuns(e, v1, S0, S1, 1);
    var v2 := Run(e, v1, CheckByteSame(S0, S1, 1)).value;
    var c2 := Call(e, v1, c1, v2);
    var v3, c3 := Advance(e, v2, c2);
    CheckByteSameRuns(e, v3, S0, S1, 2);
    var v4 := Run(e, v3, CheckByteSame(S0, S1, 2)).value;
    var c4 := Call(e, v3, c3, v4);
    var v5, c5 := Advance(e, v4, c4);
    CheckByteSameRuns(e, v5, S0, S1, 3);
    var v6 := Run(e, v5, CheckByteSame(S0, S1, 3)).value;
    var c6 := Call(e, v5, c5, v6);
    Last(e, v6, Add(GP, GP, S1));
  }

  lemma SeqRuns(e: Env, v: View, rd: Reg, rs1: Reg, rs2: Reg)
    requires Ready(e, v) && rd !in {S0, S1, SP}
    ensures Run(e, v, Seq(e.lay, rd, rs1, rs2)).Some?
    ensures Leaves(v, Run(e, v, Seq(e.lay, rd, rs1, rs2)).value, rd, Flag(Get(v.regs, rs1) == Get(v.regs, rs2)))
  {
    hide Run;
    hide TablesIn;
    hide NoOverlap;
    var x, y := Get(v.regs, rs1), Get(v.regs, rs2);
    var code := Seq(e.lay, rd, rs1, rs2);
    var v1, r1 := Advance(e, v, code.first);
    var v2, r2 := Advance(e, v1, r1);
    var v3, r3 := Advance(e, v2, r2);
    var v4, r4 := Advance(e, v3, r3);
    LaRuns(e, v4, S0, e.lay.check);
    var v5 := v4.(regs := v.regs[S0 := e.lay.check]);
    var c5 := Call(e, v, code, v5);
    CountDifferentRuns(e, v5, x, y);
    var v6 := Run(e, v5, c5.first).value;
    var c6 := Call(e, v5, c5, v6);
    SeqLookup(e, v, v6, rd, DifferentBytes(x, y));
  }

  lemma SeqLookup(e: Env, v: View, v6: View, rd: Reg, n: nat)
    requires Ready(e, v) && n < 8 && rd !in {S0, S1, SP}
    requires v6.data == v.data && v6.slots.v1 == Whole(v.regs[S0]) && v6.slots.v2 == Whole(v.regs[S1])
    requires v6.regs == v.regs[GP := n][S0 := v6.regs[S0]][S1 := v6.regs[S1]][TP := v6.regs[TP]]
    ensures var c := Then5(La(TP, e.lay.sameResult), Do(Add(TP, TP, GP)), Do(Lbu(rd, TP, 0)), Pop(S1, 2), Pop(S0, 1));
            Run(e, v6, c).Some? && Leaves(v, Run(e, v6, c).value, rd, Flag(n == 0))
  {
    hide LoadByte;
    hide ViewByte;
    hide Run;
    hide TablesIn;
    hide NoOverlap;
    hide Clear;
    SmallPlaced(e);
    var c := Then5(La(TP, e.lay.sameResult), Do(Add(TP, TP, GP)), Do(Lbu(rd, TP, 0)), Pop(S1, 2), Pop(S0, 1));
    LaRuns(e, v6, TP, e.lay.sameResult);
    var v7 := Run(e, v6, La(TP, e.lay.sameResult)).value;
    var c7 := Call(e, v6, c, v7);
    var v8, c8 := Advance(e, v7, c7);
    ReadSameResult(e, v8, n);
    assert v8.regs == v.regs[GP := n][S0 := v6.regs[S0]][S1 := v6.regs[S1]][TP := v8.regs[TP]];
    var v9, c9 := Advance(e, v8, c8);
    Restored(v.regs, n, v6.regs[S0], v6.regs[S1], v8.regs[TP], rd, Flag(n == 0));
    var v10, c10 := Advance(e, v9, c9);
    Last(e, v10, Lw(S0, SP, Var(1, 0)));
  }

  /** Giving back `s1` and `s0` after setting `rd`. */
  lemma Restored(regs: Regs, gp: Word, s0: Word, s1: Word, tp: Word, rd: Reg, x: Word)
    requires rd !in {S0, S1, SP}
    ensures var w := Set(regs[GP := gp][S0 := s0][S1 := s1][TP := tp], rd, x)[S1 := regs[S1]][S0 := regs[S0]];
            w == Set(regs[GP := w[GP]][TP := w[TP]], rd, x)
  {
  }
}
