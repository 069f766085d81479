/** What the shift macros and the narrow memory accesses do to the view. */
module MinirvShifts {
  import opened Options
  import opened MachineWords
  import opened MinirvMachine
  import opened MinirvMacros
  import opened MinirvView
  import opened MinirvTables
  import opened MinirvRuns
  import opened Rv32iValues
  import opened ShiftBytes

  lemma ShlTwo(x: Word)
    requires x < 0x4000_0000
    ensures Shl(x, 2) == 4 * x
  {
    assert ShiftUp(x, 1) == 2 * x;
    assert ShiftUp(x, 2) == 2 * ShiftUp(x, 1);
  }

  /** `gp`, `tp` apart, the looked-up row address for the shift amount in `rs2` ends up in `s0`. */
  lemma TableRowRuns(e: Env, v: View, table: int, rs2: Reg)
    requires Ready(e, v) && e.lay.lut <= table && table + 32 * 0x400 <= e.lay.lut + LUT_SIZE
    ensures Run(e, v, TableRow(e.lay, table, rs2)).Some?
    ensures var w := Run(e, v, TableRow(e.lay, table, rs2)).value;
            && w.regs == v.regs[TP := table][S0 := table + 0x400 * (Get(v.regs, rs2) % 32)]
            && w == v.(regs := w.regs, slots := v.slots.(b := w.slots.b))
  {
    hide Run;
    hide TablesIn;
    hide NoOverlap;
    hide ByteAt;
    var y := Get(v.regs, rs2);
    var code := TableRow(e.lay, table, rs2);
    GetShamtRuns(e, v, rs2);
    var v1 := Run(e, v, GetShamt(e.lay, S0, rs2)).value;
    var c1 := Call(e, v, code, v1);
    var v2, c2 := Advance(e, v1, c1);
    var v3, c3 := Advance(e, v2, c2);
    ZeroBytes();
    ByteOfByte(y % 32);
    assert v3.slots.b == Bytes(0, y % 32, 0, 0);
    JoinIs(0, y % 32, 0, 0);
    var v4, c4 := Advance(e, v3, c3);
    SlliSmallRuns(e, v4, S0, S0, 2);
    ShlTwo(0x100 * (y % 32));
    var v5 := Run(e, v4, Slli(S0, S0, 2)).value;
    var c5 := Call(e, v4, c4, v5);
    LaRuns(e, v5, TP, table);
    var v6 := v5.(regs := v5.regs[TP := table]);
    var c6 := Call(e, v5, c5, v6);
    Last(e, v6, Add(S0, S0, TP));
  }

  lemma GetShamtRuns(e: Env, v: View, rs2: Reg)
    requires Ready(e, v)
    ensures Run(e, v, GetShamt(e.lay, S0, rs2)).Some?
    ensures var w := Run(e, v, GetShamt(e.lay, S0, rs2)).value;
            && w.regs == v.regs[TP := w.regs[TP]][S0 := Get(v.regs, rs2) % 32]
            && w == v.(regs := w.regs, slots := v.slots.(b := w.slots.b))
  {
    hide Run;
    hide TablesIn;
    hide NoOverlap;
    hide ByteAt;
    var y := Get(v.regs, rs2);
    var b := ByteAt(y, 0);
    var v1, c1 := Advance(e, v, GetShamt(e.lay, S0, rs2));
    var v2, c2 := Advance(e, v1, c1);
    LaRuns(e, v2, TP, e.lay.And8() + 0x1f * 0x100);
    var v3 := v2.(regs := v2.regs[TP := e.lay.And8() + 0x1f * 0x100]);
    var c3 := Call(e, v2, c2, v3);
    var v4, c4 := Advance(e, v3, c3);
    assert v4.regs[S0] == TableAddress(e.lay.And8(), 0x1f, b);
    ReadLut(e, v4, S0, e.lay.And8(), 0x1f, b);
    BitwiseEntry(e.lay, v.data, AndOp, 0x1f, b);
    ShiftAmount(y);
    Last(e, v4, Lbu(S0, S0, 0));
  }

  lemma ShiftByteRuns(e: Env, v: View, table: int, j: nat, k: nat)
    requires Ready(e, v) && k < 4 && j < 32
    requires table % 4 == 0 && e.lay.lut <= table && table + 32 * 0x400 <= e.lay.lut + LUT_SIZE
    requires v.regs[S0] == table + 0x400 * j
    ensures Run(e, v, ShiftByte(S0, k)) ==
            Some(v.(regs := v.regs[TP := WordEntry(v.data, table, j, v.slots.a.At(k))]))
  {
    hide Run;
    hide TablesIn;
    hide NoOverlap;
    hide ByteAt;
    hide WordEntry;
    hide Shl;
    var a: int := v.slots.a.At(k);
    RowAddress(e, table, j, a);
    var v1, c1 := Advance(e, v, ShiftByte(S0, k));
    SlliSmallRuns(e, v1, TP, TP, 2);
    ShlTwo(a);
    var v2 := Run(e, v1, Slli(TP, TP, 2)).value;
    var c2 := Call(e, v1, c1, v2);
    assert v2.regs == v.regs[TP := 4 * a];
    var v3, c3 := Advance(e, v2, c2);
    assert v3.regs == v.regs[TP := table + 4 * (0x100 * j + a)];
    ReadWordLut(e, v3, TP, table, j, a);
    Last(e, v3, Lw(TP, TP, 0));
    SetTwice(v.regs, TP, v3.regs[TP], WordEntry(v.data, table, j, a));
  }

  lemma RowAddress(e: Env, table: int, j: nat, a: Byte)
    requires Clear(e) && j < 32 && e.lay.lut <= table && table + 32 * 0x400 <= e.lay.lut + LUT_SIZE
    ensures 0 <= table + 0x400 * j && Plus(table + 0x400 * j, 4 * a) == table + 4 * (0x100 * j + a)
  {
  }

  /** `sh` into a stack word. */
  lemma StoreHalfSlotRuns(e: Env, v: View, rs: Reg, n: VarNumber)
    requires v.regs[SP] == e.sp && n in {VAR_A, VAR_B}
    ensures var x := Get(v.regs, rs);
            Run(e, v, StoreHalf(rs, SP, Var(n, 2))) ==
            Some(v.(regs := v.regs[TP := ByteAt(x, 1)],
                    slots := v.slots.(c := Whole(x)).With(n, v.slots.Nth(n).Put(2, ByteAt(x, 0)).Put(3, ByteAt(x, 1)))))
  {
    hide Run;
    hide ByteAt;
    var x := Get(v.regs, rs);
    var v1, c1 := Advance(e, v, StoreHalf(rs, SP, Var(n, 2)));
    GetByteRuns(e, v1, TP, rs, 1);
    var v2 := Run(e, v1, GetByte(TP, rs, 1)).value;
    var c2 := Call(e, v1, c1, v2);
    ByteOfByte(ByteAt(x, 1));
    Last(e, v2, Sb(TP, SP, Var(n, 3)));
  }

  // ----- sll -----

  lemma SllRuns(e: Env, v: View, rd: Reg, rs1: Reg, rs2: Reg)
    requires Ready(e, v)
    ensures Run(e, v, Sll(e.lay, rd, rs1, rs2)).Some?
    ensures Leaves(v, Run(e, v, Sll(e.lay, rd, rs1, rs2)).value, rd, Shl(Get(v.regs, rs1), Get(v.regs, rs2) % 32))
  {
    hide Run;
    hide TablesIn;
    hide NoOverlap;
    hide ByteAt;
    hide Join;
    hide Shl;
    var x, y := Get(v.regs, rs1), Get(v.regs, rs2);
    var j := y % 32;
    var code := Sll(e.lay, rd, rs1, rs2);
    var v1, r1 := Advance(e, v, code.first);
    var v2, r2 := Advance(e, v1, r1);
    TableRowRuns(e, v2, e.lay.Sll8(), rs2);
    var v3 := Run(e, v2, TableRow(e.lay, e.lay.Sll8(), rs2)).value;
    var c3 := Call(e, v, code, v3);
    var v7, c7 := SllSum(e, v3, c3, j, x, rd, rs1, rs2);
    var v8, c8 := Advance(e, v7, c7);
    assert v8.regs == v.regs[GP := v8.regs[GP]][TP := v8.regs[TP]];
    Last(e, v8, Add(rd, GP, TP));
  }

  /** The four lookups: afterwards `gp` and `tp` add up to the shifted word. */
  lemma SllSum(e: Env, v3: View, c3: Code, j: nat, x: Word, rd: Reg, rs1: Reg, rs2: Reg) returns (v7: View, c7: Code)
    requires SllState(e, v3, j, x) && c3 == Sll(e.lay, rd, rs1, rs2).rest
    ensures Run(e, v3, c3) == Run(e, v7, c7) && c7 == c3.rest.rest.rest.rest
    ensures SllKeeps(v3, v7) && Plus(v7.regs[GP], v7.regs[TP]) == Shl(x, j)
  {
    hide Clear;
    hide SllEntry;
    hide Run;
    hide TablesIn;
    hide NoOverlap;
    hide ByteAt;
    hide Join;
    hide Shl;
    hide Plus;
    SllTop(e, v3, j, x);
    var v4 := Run(e, v3, c3.first).value;
    var c4 := Call(e, v3, c3, v4);
    SllNext(e, v4, j, x);
    var v5 := Run(e, v4, c4.first).value;
    var c5 := Call(e, v4, c4, v5);
    SllThird(e, v5, j, x);
    var v6 := Run(e, v5, c5.first).value;
    var c6 := Call(e, v5, c5, v6);
    SllRow(e, v3.data, j, ByteAt(x, 0));
    Sll8Placed(e);
    ShiftByteRuns(e, v6, e.lay.Sll8(), j, 0);
    v7 := Run(e, v6, c6.first).value;
    c7 := Call(e, v6, c6, v7);
    GatheredIsShift(ByteAt(x, 0), ByteAt(x, 1), ByteAt(x, 2), ByteAt(x, 3), j);
    JoinBytes(x);
  }

  /** The state between the parts of `sll`: the word to shift in `A`, the row in `s0`. */
  ghost predicate SllState(e: Env, v: View, j: nat, x: Word) {
    Ready(e, v) && j < 32 && v.slots.a == Whole(x) && v.regs[S0] == e.lay.Sll8() + 0x400 * j
  }

  /** Only `gp`, `tp` and the stack words `B` and `C` change. */
  ghost predicate SllKeeps(v: View, w: View) {
    && w.regs == v.regs[GP := w.regs[GP]][TP := w.regs[TP]]
    && w == v.(regs := w.regs, slots := v.slots.(b := w.slots.b, c := w.slots.c))
  }

  lemma SllRow(e: Env, data: Mem, j: nat, b: Byte)
    requires TablesIn(e.lay, data) && j < 32
    ensures WordEntry(data, e.lay.Sll8(), j, b) == SllEntry(b, j)
  {
  }

  lemma Sll8Placed(e: Env)
    requires Clear(e)
    ensures e.lay.Sll8() % 4 == 0 && e.lay.lut <= e.lay.Sll8() && e.lay.Sll8() + 32 * 0x400 <= e.lay.lut + LUT_SIZE
  {
  }

  lemma SllTop(e: Env, v: View, j: nat, x: Word)
    requires SllState(e, v, j, x)
    ensures var c := Sll(e.lay, TP, TP, TP).rest.first;
            && Run(e, v, c).Some?
            && var w := Run(e, v, c).value;
               && SllKeeps(v, w) && w.regs[GP] == Join(0, 0, 0, ByteAt(SllEntry(ByteAt(x, 3), j), 0))
               && (w.slots.b.At(0) == 0 && w.slots.b.At(1) == 0)
  {
    hide Clear;
    hide Plus;
    hide SllEntry;
    hide Run;
    hide TablesIn;
    hide NoOverlap;
    hide ByteAt;
    hide Join;
    hide Shl;
    var c := Sll(e.lay, TP, TP, TP).rest.first;
    var v1, c1 := Advance(e, v, c);
    Sll8Placed(e);
    ShiftByteRuns(e, v1, e.lay.Sll8(), j, 3);
    SllRow(e, v.data, j, ByteAt(x, 3));
    var v2 := Run(e, v1, c1.first).value;
    var c2 := Call(e, v1, c1, v2);
    var v3, c3 := Advance(e, v2, c2);
    ZeroBytes();
    assert v3.slots.b == Bytes(0, 0, 0, ByteAt(SllEntry(ByteAt(x, 3), j), 0));
    Last(e, v3, Lw(GP, SP, Var(VAR_B, 0)));
  }

  lemma SllNext(e: Env, v: View, j: nat, x: Word)
    requires SllState(e, v, j, x) && v.slots.b.At(0) == 0 && v.slots.b.At(1) == 0
    ensures var c := Sll(e.lay, TP, TP, TP).rest.rest.first;
            && Run(e, v, c).Some?
            && var w, y := Run(e, v, c).value, SllEntry(ByteAt(x, 2), j);
               SllKeeps(v, w) && w.regs[GP] == Plus(v.regs[GP], Join(0, 0, ByteAt(y, 0), ByteAt(y, 1)))
  {
    hide Run;
    hide TablesIn;
    hide NoOverlap;
    hide ByteAt;
    hide Join;
    hide Shl;
    hide Plus;
    hide Clear;
    hide SllEntry;
    hide SllKeeps;
    var c := Sll(e.lay, TP, TP, TP).rest.rest.first;
    var y := SllEntry(ByteAt(x, 2), j);
    Sll8Placed(e);
    ShiftByteRuns(e, v, e.lay.Sll8(), j, 2);
    SllRow(e, v.data, j, ByteAt(x, 2));
    var v1 := v.(regs := v.regs[TP := y]);
    var c1 := Call(e, v, c, v1);
    StoreHalfSlotRuns(e, v1, TP, VAR_B);
    var b, h := Bytes(0, 0, ByteAt(y, 0), ByteAt(y, 1)), ByteAt(y, 1);
    var v2 := v1.(regs := v1.regs[TP := h], slots := v1.slots.(b := b, c := Whole(y)));
    assert v1.slots.Nth(VAR_B).Put(2, ByteAt(y, 0)).Put(3, h) == b;
    var c2 := Call(e, v1, c1, v2);
    var v3, c3 := Advance(e, v2, c2);
    SetTwice(v.regs, TP, y, h);
    SetTwice(v.regs, TP, h, b.Value());
    Last(e, v3, Add(GP, GP, TP));
    SllKept(v, b.Value(), Plus(v.regs[GP], b.Value()), b, Whole(y));
  }

  lemma SllKept(v: View, t: Word, g: Word, b: Slot, c: Slot)
    ensures SllKeeps(v, v.(regs := v.regs[TP := t][GP := g], slots := v.slots.(b := b, c := c)))
  {
    assert v.regs[TP := t][GP := g] == v.regs[GP := g][TP := t];
  }

  lemma SllThird(e: Env, v: View, j: nat, x: Word)
    requires SllState(e, v, j, x)
    ensures var c := Sll(e.lay, TP, TP, TP).rest.rest.rest.first;
            && Run(e, v, c).Some?
            && var w := Run(e, v, c).value;
               SllKeeps(v, w) && w.regs[GP] == Plus(v.regs[GP], Shl(SllEntry(ByteAt(x, 1), j), 8))
  {
    hide Run;
    hide TablesIn;
    hide NoOverlap;
    hide ByteAt;
    hide Shl;
    hide Plus;
    hide Clear;
    hide SllEntry;
    hide SllKeeps;
    var c := Sll(e.lay, TP, TP, TP).rest.rest.rest.first;
    var y := SllEntry(ByteAt(x, 1), j);
    Sll8Placed(e);
    ShiftByteRuns(e, v, e.lay.Sll8(), j, 1);
    SllRow(e, v.data, j, ByteAt(x, 1));
    var v1 := v.(regs := v.regs[TP := y]);
    var c1 := Call(e, v, c, v1);
    SlliSmallRuns(e, v1, TP, TP, 8);
    var v2 := v1.(regs := v1.regs[TP := Shl(y, 8)]);
    var c2 := Call(e, v1, c1, v2);
    SetTwice(v.regs, TP, y, Shl(y, 8));
    Last(e, v2, Add(GP, GP, TP));
    SllKept(v, Shl(y, 8), Plus(v.regs[GP], Shl(y, 8)), v.slots.b, v.slots.c);
  }

  // ----- srl, sra -----

  predicate AmountOk(amount: Amount) { amount.Const? ==> amount.n < 32 }

  function AmountOf(v: View, amount: Amount): (j: nat)
    requires AmountOk(amount)
    ensures j < 32
  {
    if amount.Const? then amount.n else Get(v.regs, amount.r) % 32
  }

  function ShiftedRight(x: Word, j: nat, arith: bool): Word {
    if arith then ShiftArith(x, j) else Shr32(x, j)
  }

  lemma SrRow(lay: Layout, data: Mem, j: nat, b: Byte)
    requires TablesIn(lay, data) && j < 32
    ensures WordEntry(data, lay.Srl8(), j, b) == SrlEntry(b, j)
    ensures WordEntry(data, lay.Sra8(), j, b) == SraEntry(b, j)
  {
  }

  /** The slow path up to the row address in `s0`. */
  lemma ShiftRightStart(e: Env, v: View, rs1: Reg, amount: Amount)
    requires Ready(e, v) && AmountOk(amount) && amount != Const(24)
    ensures var c := ShiftRight(e.lay, TP, rs1, amount, false).first;
            && Run(e, v, c).Some?
            && var w := Run(e, v, c).value;
               && w.regs == v.regs[TP := w.regs[TP]][S0 := e.lay.Srl8() + 0x400 * AmountOf(v, amount)]
               && w == v.(regs := w.regs,
                          slots := v.slots.(v1 := Whole(v.regs[S0]), a := Whole(Get(v.regs, rs1)), b := w.slots.b))
  {
    hide Run;
    hide TablesIn;
    hide NoOverlap;
    var c := ShiftRight(e.lay, TP, rs1, amount, false).first;
    var v1, c1 := Advance(e, v, c);
    var v2, c2 := Advance(e, v1, c1);
    match amount {
      case InReg(rs2) => TableRowRuns(e, v2, e.lay.Srl8(), rs2);
      case Const(n) => LaRuns(e, v2, S0, e.lay.Srl8() + n * 0x400);
    }
  }

  /** The three lookups and their combination in `gp`. */
  lemma ShiftRightLow(e: Env, v: View, j: nat, x: Word)
    requires Ready(e, v) && j < 32 && v.slots.a == Whole(x) && v.regs[S0] == e.lay.Srl8() + 0x400 * j
    ensures var c := ShiftRight(e.lay, TP, TP, Const(0), false).rest.first;
            && Run(e, v, c).Some?
            && var w := Run(e, v, c).value;
               && w.regs == v.regs[TP := w.regs[TP]]
               && w == v.(regs := w.regs, slots := v.slots.(b := Whole(SrlEntry(ByteAt(x, 2), j)),
                          c := Whole(SrlEntry(ByteAt(x, 1), j)), d := Whole(SrlEntry(ByteAt(x, 0), j))))
  {
    hide Run;
    hide TablesIn;
    hide NoOverlap;
    hide ByteAt;
    hide SrlEntry;
    var c := ShiftRight(e.lay, TP, TP, Const(0), false).rest.first;
    ShiftStore(e, v, j, 2, VAR_B);
    SrRow(e.lay, v.data, j, ByteAt(x, 2));
    var v1 := Run(e, v, c.first).value;
    var c1 := Call(e, v, c, v1);
    ShiftStore(e, v1, j, 1, VAR_C);
    SrRow(e.lay, v.data, j, ByteAt(x, 1));
    var v2 := Run(e, v1, c1.first).value;
    var c2 := Call(e, v1, c1, v2);
    ShiftStore(e, v2, j, 0, VAR_D);
    SrRow(e.lay, v.data, j, ByteAt(x, 0));
  }

  lemma ShiftStore(e: Env, v: View, j: nat, k: nat, n: VarNumber)
    requires Ready(e, v) && j < 32 && k < 4 && v.regs[S0] == e.lay.Srl8() + 0x400 * j
    ensures var x := WordEntry(v.data, e.lay.Srl8(), j, v.slots.a.At(k));
            Run(e, v, Then(ShiftByte(S0, k), Do(Sw(TP, SP, Var(n, 0))))) ==
            Some(v.(regs := v.regs[TP := x], slots := v.slots.With(n, Whole(x))))
  {
    hide Run;
    hide TablesIn;
    hide NoOverlap;
    hide WordEntry;
    var c := Then(ShiftByte(S0, k), Do(Sw(TP, SP, Var(n, 0))));
    ShiftByteRuns(e, v, e.lay.Srl8(), j, k);
    var v1 := Run(e, v, ShiftByte(S0, k)).value;
    var c1 := Call(e, v, c, v1);
    Last(e, v1, Sw(TP, SP, Var(n, 0)));
  }

  lemma LowBytesRuns(e: Env, v: View)
    requires v.regs[SP] == e.sp && v.slots.b.Whole? && v.slots.c.Whole? && v.slots.d.Whole?
    ensures Run(e, v, LowBytes()).Some?
    ensures var w := Run(e, v, LowBytes()).value;
            && w.regs
            == v.regs[GP := Collected(v.slots.d.Value(), v.slots.c.Value(), v.slots.b.Value())][TP := w.regs[TP]]
            && w == v.(regs := w.regs, slots := v.slots.(d := w.slots.d))
  {
    hide Run;
    hide ByteAt;
    hide Join;
    var y2, y1, y0 := v.slots.b.w, v.slots.c.w, v.slots.d.w;
    var code := LowBytes();
    // byte 0
    var v1, r1 := Advance(e, v, code.first);
    var v2, r2 := Advance(e, v1, r1);
    var v3, r3 := Advance(e, v2, r2);
    var v4, r4 := Advance(e, v3, r3);
    var v5, r5 := Advance(e, v4, r4);
    Last(e, v5, Sw(GP, SP, Var(VAR_D, 0)));
    var g0 := Plus(Plus(ByteAt(y2, 1), ByteAt(y1, 2)), ByteAt(y0, 3));
    var v6 := Run(e, v5, r5).value;
    assert v6 == v.(regs := v.regs[GP := g0][TP := ByteAt(y0, 3)], slots := v.slots.(d := Whole(g0)));
    var c6 := Call(e, v, code, v6);
    LowBytesUpper(e, v6, g0, y1, y2);
  }

  lemma LowBytesUpper(e: Env, v: View, g0: Word, y1: Word, y2: Word)
    requires v.regs[SP] == e.sp
    requires v.slots.b == Whole(y2) && v.slots.c == Whole(y1) && v.slots.d == Whole(g0)
    ensures var g1 := Plus(ByteAt(y2, 2), ByteAt(y1, 3));
            && Run(e, v, LowBytes().rest).Some?
            && var w := Run(e, v, LowBytes().rest).value;
               && w.regs
               == v.regs[GP := Join(ByteAt(g0, 0), ByteAt(g1, 0), ByteAt(y2, 3), ByteAt(g0, 3))][TP := w.regs[TP]]
               && w == v.(regs := w.regs, slots := v.slots.(d := w.slots.d))
  {
    hide Run;
    hide ByteAt;
    hide Join;
    var code := LowBytes().rest;
    var g1 := Plus(ByteAt(y2, 2), ByteAt(y1, 3));
    // byte 1
    var v1, r1 := Advance(e, v, code.first);
    var v2, r2 := Advance(e, v1, r1);
    var v3, r3 := Advance(e, v2, r2);
    Last(e, v3, Sb(GP, SP, Var(VAR_D, 1)));
    var v4 := Run(e, v3, r3).value;
    assert v4.slots == v.slots.(d := Bytes(ByteAt(g0, 0), ByteAt(g1, 0), ByteAt(g0, 2), ByteAt(g0, 3)));
    var c4 := Call(e, v, code, v4);
    // byte 2
    var v5, r5 := Advance(e, v4, c4.first);
    ByteOfByte(ByteAt(y2, 3));
    Last(e, v5, Sb(GP, SP, Var(VAR_D, 2)));
    var v6 := Run(e, v5, r5).value;
    var c6 := Call(e, v4, c4, v6);
    assert v6.slots.d == Bytes(ByteAt(g0, 0), ByteAt(g1, 0), ByteAt(y2, 3), ByteAt(g0, 3));
    Last(e, v6, Lw(GP, SP, Var(VAR_D, 0)));
  }

  /** For arithmetic shifts, move on to the row of the arithmetic table. */
  lemma SelectTable(e: Env, v: View, j: nat, arith: bool)
    requires Ready(e, v) && j < 32 && v.regs[S0] == e.lay.Srl8() + 0x400 * j
    ensures var c := ShiftRight(e.lay, TP, TP, Const(0), arith).rest.rest.rest.first;
            && Run(e, v, c).Some?
            && var w := Run(e, v, c).value;
               && w == v.(regs := w.regs)
               && w.regs == v.regs[TP := w.regs[TP]][S0 := (if arith then e.lay.Sra8() else e.lay.Srl8()) + 0x400 * j]
  {
    hide Run;
    hide TablesIn;
    hide NoOverlap;
    var c := ShiftRight(e.lay, TP, TP, Const(0), arith).rest.rest.rest.first;
    if arith {
      LaRuns(e, v, TP, e.lay.Sra8() - e.lay.Srl8());
      var v1 := v.(regs := v.regs[TP := e.lay.Sra8() - e.lay.Srl8()]);
      var r1 := Call(e, v, c, v1);
      Last(e, v1, Add(S0, S0, TP));
    } else {
      Stop(e, v);
    }
  }

  /** Byte 3, `s0` given back, the sum into `rd`. */
  lemma ShiftRightEnd(e: Env, v: View, before: View, rd: Reg, j: nat, x: Word, arith: bool)
    requires Ready(e, v) && j < 32 && v.slots.a == Whole(x) && v.slots.v1 == Whole(before.regs[S0])
    requires v.data == before.data
    requires v.regs == before.regs[GP := v.regs[GP]][TP := v.regs[TP]][S0 := e.lay.Srl8() + 0x400 * j]
    ensures var c := ShiftRight(e.lay, rd, rd, Const(0), arith).rest.rest.rest;
            && Run(e, v, c).Some?
            && Leaves(before, Run(e, v, c).value, rd,
                      Plus(v.regs[GP], if arith then SraEntry(ByteAt(x, 3), j) else SrlEntry(ByteAt(x, 3), j)))
  {
    hide Run;
    hide TablesIn;
    hide NoOverlap;
    hide ByteAt;
    hide SrlEntry;
    hide SraEntry;
    hide WordEntry;
    hide NoOverlap;
    var c := ShiftRight(e.lay, rd, rd, Const(0), arith).rest.rest.rest;
    var table := if arith then e.lay.Sra8() else e.lay.Srl8();
    SelectTable(e, v, j, arith);
    var w := Run(e, v, c.first).value;
    var c2 := Call(e, v, c, w);
    SrRow(e.lay, v.data, j, ByteAt(x, 3));
    LutAligned(e);
    ShiftByteRuns(e, w, table, j, 3);
    var v3 := Run(e, w, ShiftByte(S0, 3)).value;
    var c3 := Call(e, w, c2, v3);
    var v4, c4 := Advance(e, v3, c3);
    assert v4.regs == before.regs[GP := v.regs[GP]][TP := v4.regs[TP]];
    Last(e, v4, Add(rd, GP, TP));
  }

  lemma LutAligned(e: Env)
    requires Clear(e)
    ensures e.lay.Srl8() % 4 == 0 && e.lay.Sra8() % 4 == 0
  {
  }

  lemma ShiftRightRuns(e: Env, v: View, rd: Reg, rs1: Reg, amount: Amount, arith: bool)
    requires Ready(e, v) && AmountOk(amount) && rd != TP
    ensures Run(e, v, ShiftRight(e.lay, rd, rs1, amount, arith)).Some?
    ensures Leaves(v, Run(e, v, ShiftRight(e.lay, rd, rs1, amount, arith)).value, rd,
                   ShiftedRight(Get(v.regs, rs1), AmountOf(v, amount), arith))
  {
    hide Run;
    if amount != Const(24) {
      ShiftRightSlowRuns(e, v, rd, rs1, amount, arith);
    } else if arith {
      ShiftArith24Runs(e, v, rd, rs1);
    } else {
      GetByteRuns(e, v, rd, rs1, 3);
      Shift24(Get(v.regs, rs1));
    }
  }

  lemma ShiftRightSlowRuns(e: Env, v: View, rd: Reg, rs1: Reg, amount: Amount, arith: bool)
    requires Ready(e, v) && AmountOk(amount) && amount != Const(24)
    ensures Run(e, v, ShiftRight(e.lay, rd, rs1, amount, arith)).Some?
    ensures Leaves(v, Run(e, v, ShiftRight(e.lay, rd, rs1, amount, arith)).value, rd,
                   ShiftedRight(Get(v.regs, rs1), AmountOf(v, amount), arith))
  {
    hide Run;
    hide TablesIn;
    hide NoOverlap;
    hide ByteAt;
    hide Collected;
    hide Shr32;
    hide ShiftArith;
    hide SrlEntry;
    hide SraEntry;
    var x, j := Get(v.regs, rs1), AmountOf(v, amount);
    var code := ShiftRight(e.lay, rd, rs1, amount, arith);
    ShiftRightStart(e, v, rs1, amount);
    var v1 := Run(e, v, code.first).value;
    var c1 := Call(e, v, code, v1);
    ShiftRightLow(e, v1, j, x);
    var v2 := Run(e, v1, c1.first).value;
    var c2 := Call(e, v1, c1, v2);
    LowBytesRuns(e, v2);
    var v3 := Run(e, v2, LowBytes()).value;
    var c3 := Call(e, v2, c2, v3);
    ShiftRightEnd(e, v3, v, rd, j, x, arith);
    RightFromBytes(x, j, arith);
  }

  lemma RightFromBytes(x: Word, j: nat, arith: bool)
    ensures var low := Collected(SrlEntry(ByteAt(x, 0), j), SrlEntry(ByteAt(x, 1), j), SrlEntry(ByteAt(x, 2), j));
            ShiftedRight(x, j, arith)
            == Plus(low, if arith then SraEntry(ByteAt(x, 3), j) else SrlEntry(ByteAt(x, 3), j))
  {
    hide Collected;
    hide ByteAt;
    hide ShiftArith;
    hide SraEntry;
    CollectedIsShift(ByteAt(x, 0), ByteAt(x, 1), ByteAt(x, 2), j);
    SrlFromBytes(ByteAt(x, 0), ByteAt(x, 1), ByteAt(x, 2), ByteAt(x, 3), j);
    SraFromBytes(ByteAt(x, 0), ByteAt(x, 1), ByteAt(x, 2), ByteAt(x, 3), j);
    JoinBytes(x);
  }

  /** The fast path for a constant arithmetic shift by 24. */
  lemma ShiftArith24Runs(e: Env, v: View, rd: Reg, rs1: Reg)
    requires Ready(e, v) && rd != TP
    ensures Run(e, v, ShiftRight(e.lay, rd, rs1, Const(24), true)).Some?
    ensures Leaves(v, Run(e, v, ShiftRight(e.lay, rd, rs1, Const(24), true)).value, rd,
                   ShiftArith(Get(v.regs, rs1), 24))
  {
    hide Run;
    hide TablesIn;
    hide NoOverlap;
    hide ByteAt;
    hide WordEntry;
    hide ShiftArith;
    hide SraEntry;
    var x := Get(v.regs, rs1);
    var code := ShiftRight(e.lay, rd, rs1, Const(24), true);
    var row := e.lay.Sra8() + 24 * 0x400;
    var v1, r1 := Advance(e, v, code.first);
    LaRuns(e, v1, TP, row);
    var v2 := v1.(regs := v1.regs[TP := row]);
    var r2 := Call(e, v1, r1, v2);
    Last(e, v2, Lbu(rd, SP, Var(VAR_A, 3)));
    var v3 := Run(e, v2, r2).value;
    var c3 := Call(e, v, code, v3);
    var b: int := if rd == ZERO then 0 else ByteAt(x, 3);
    SlliSmallRuns(e, v3, rd, rd, 2);
    ShlTwo(b);
    var v4 := Run(e, v3, Slli(rd, rd, 2)).value;
    var c4 := Call(e, v3, c3, v4);
    SetTwice(v.regs[TP := row], rd, b, 4 * b);
    assert v4.regs == Set(v.regs[TP := row], rd, 4 * b);
    RowAddress(e, e.lay.Sra8(), 24, b);
    LutAligned(e);
    ShiftArith24Lookup(e, v, v4, rd, b);
    SrRow(e.lay, v.data, 24, b);
    Shift24(x);
  }

  lemma ShiftArith24Lookup(e: Env, v: View, v4: View, rd: Reg, b: Byte)
    requires Ready(e, v) && rd != TP && v4.data == v.data
    requires v4.regs == Set(v.regs[TP := e.lay.Sra8() + 24 * 0x400], rd, 4 * b)
    requires rd == ZERO ==> b == 0
    ensures var c := Then(Do(Add(TP, TP, rd)), Do(Lw(rd, TP, 0)));
            Run(e, v4, c).Some? && Leaves(v, Run(e, v4, c).value, rd, WordEntry(v.data, e.lay.Sra8(), 24, b))
  {
    hide Run;
    hide TablesIn;
    hide NoOverlap;
    hide WordEntry;
    RowAddress(e, e.lay.Sra8(), 24, b);
    LutAligned(e);
    var v5, c5 := Advance(e, v4, Then(Do(Add(TP, TP, rd)), Do(Lw(rd, TP, 0))));
    assert v5.regs[TP] == e.lay.Sra8() + 4 * (0x100 * 24 + b);
    ReadWordLut(e, v5, TP, e.lay.Sra8(), 24, b);
    Last(e, v5, Lw(rd, TP, 0));
  }

  lemma Shift24(x: Word)
    ensures Shr32(x, 24) == ByteAt(x, 3)
    ensures ShiftArith(x, 24) == SraEntry(ByteAt(x, 3), 24)
  {
    BytesOf(x);
    DivTwice(x);
    SraFromBytes(ByteAt(x, 0), ByteAt(x, 1), ByteAt(x, 2), ByteAt(x, 3), 24);
    JoinBytes(x);
    BytesOf(0x1_0000 * ByteAt(x, 2) + 0x100 * ByteAt(x, 1) + ByteAt(x, 0));
  }
}
