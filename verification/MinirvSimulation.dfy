/** The image simulates the program: registers other than `gp` and `tp`, memory, and control flow. */
module MinirvSimulation {
  import opened Options
  import opened MachineWords
  import opened MinirvMachine
  import opened MinirvMacros
  import opened MinirvView
  import opened MinirvTables
  import opened MinirvRuns
  import opened MinirvShifts
  import opened MinirvAccess
  import opened MinirvProgram
  import opened Rv32iValues
  import opened ShiftBytes

  // ----- one operation on the view -----

  predicate SameExceptTemps(a: Regs, b: Regs) {
    a == b[GP := a[GP]][TP := a[TP]]
  }

  /** The view holds the program's registers and defined bytes. */
  ghost predicate Agrees(e: Env, v: View, regs: Regs, mem: Defined) {
    && SameExceptTemps(v.regs, regs)
    && forall a :: a in mem ==> 0 <= a < B32 && Storable(e, a) && Peek(v.data, a) == mem[a]
  }

  lemma SameGet(a: Regs, b: Regs, r: Reg)
    requires SameExceptTemps(a, b) && r !in {GP, TP}
    ensures Get(a, r) == Get(b, r)
  {
  }

  lemma LeavesAgrees(e: Env, v: View, w: View, regs: Regs, mem: Defined, rd: Reg, x: Word)
    requires Agrees(e, v, regs, mem) && Leaves(v, w, rd, x) && rd !in {GP, TP}
    ensures Agrees(e, w, Set(regs, rd, x), mem)
  {
    assert SameExceptTemps(w.regs, Set(regs, rd, x));
  }

  /** Writing bytes that are no table bytes keeps the tables. */
  lemma TablesKept(e: Env, d1: Mem, d2: Mem)
    requires TablesIn(e.lay, d1)
    requires forall a :: InTables(e.lay, a) ==> Peek(d1, a) == Peek(d2, a)
    ensures TablesIn(e.lay, d2)
  {
    ByteTablesKept(e, d1, d2);
    WordTablesKept(e, d1, d2);
  }

  lemma ByteTablesKept(e: Env, d1: Mem, d2: Mem)
    requires forall a :: InTables(e.lay, a) ==> Peek(d1, a) == Peek(d2, a)
    ensures forall i :: 0 <= i < 8 ==> ByteEntry(d2, e.lay.sameResult, 0, i) == ByteEntry(d1, e.lay.sameResult, 0, i)
    ensures forall i :: 0 <= i < 256 ==> ByteEntry(d2, e.lay.zero8, 0, i) == ByteEntry(d1, e.lay.zero8, 0, i)
    ensures forall i :: 0 <= i < 8 ==> ByteEntry(d2, e.lay.slt1, 0, i) == ByteEntry(d1, e.lay.slt1, 0, i)
    ensures forall i :: 0 <= i < 8 ==> ByteEntry(d2, e.lay.sltu1, 0, i) == ByteEntry(d1, e.lay.sltu1, 0, i)
    ensures forall i :: 0 <= i < 4 ==> ByteEntry(d2, e.lay.or1, 0, i) == ByteEntry(d1, e.lay.or1, 0, i)
    ensures forall base, j, i :: base in {e.lay.And8(), e.lay.Or8(), e.lay.Xor8()} && 0 <= j < 256 && 0 <= i < 256 ==>
      ByteEntry(d2, base, j, i) == ByteEntry(d1, base, j, i)
  {
  }

  lemma WordTablesKept(e: Env, d1: Mem, d2: Mem)
    requires forall a :: InTables(e.lay, a) ==> Peek(d1, a) == Peek(d2, a)
    ensures forall base, j, i :: base in {e.lay.Sll8(), e.lay.Srl8(), e.lay.Sra8()} && 0 <= j < 32 && 0 <= i < 256 ==>
      WordEntry(d2, base, j, i) == WordEntry(d1, base, j, i)
  {
    hide InTables;
    hide WordEntry;
    forall base, j, i | base in {e.lay.Sll8(), e.lay.Srl8(), e.lay.Sra8()} && 0 <= j < 32 && 0 <= i < 256
      ensures WordEntry(d2, base, j, i) == WordEntry(d1, base, j, i)
    {
      WordEntryKept(e, d1, d2, base, j, i);
    }
  }

  lemma WordEntryKept(e: Env, d1: Mem, d2: Mem, base: int, j: int, i: int)
    requires base in {e.lay.Sll8(), e.lay.Srl8(), e.lay.Sra8()} && 0 <= j < 32 && 0 <= i < 256
    requires forall a :: InTables(e.lay, a) ==> Peek(d1, a) == Peek(d2, a)
    ensures WordEntry(d2, base, j, i) == WordEntry(d1, base, j, i)
  {
    hide InTables;
    hide Join;
    var a := base + 4 * (0x100 * j + i);
    LutIsTable(e, a);
    LutIsTable(e, a + 1);
    LutIsTable(e, a + 2);
    LutIsTable(e, a + 3);
  }

  lemma LutIsTable(e: Env, a: int)
    requires e.lay.lut <= a < e.lay.lut + LUT_SIZE
    ensures InTables(e.lay, a)
  {
  }

  /** What one operation's straight-line code does. */
  ghost predicate Performs(e: Env, v: View, c: Code, o: Outcome) {
    && Run(e, v, c).Some?
    && Agrees(e, Run(e, v, c).value, o.regs, o.mem)
    && TablesIn(e.lay, Run(e, v, c).value.data)
  }

  lemma AluRuns(e: Env, v: View, f: AluOp, rd: Reg, rs1: Reg, rs2: Reg)
    requires Ready(e, v) && rd !in {GP, TP} && rs1 !in {GP, TP} && rs2 != GP
    requires f in {AND, OR, XOR} ==> !LogicAborts(rd, rs1, rs2)
    ensures Run(e, v, AluCode(e.lay, f, rd, rs1, rs2)).Some?
    ensures Leaves(v, Run(e, v, AluCode(e.lay, f, rd, rs1, rs2)).value, rd,
                   AluValue(f, Get(v.regs, rs1), Get(v.regs, rs2)))
  {
    hide Run;
    hide TablesIn;
    match f {
      case SUB => SubRuns(e, v, rd, rs1, rs2);
      case SLT => CompareRuns(e, v, e.lay.slt1, rd, rs1, rs2);
      case SLTU => CompareRuns(e, v, e.lay.sltu1, rd, rs1, rs2);
      case SLL => SllRuns(e, v, rd, rs1, rs2);
      case SRL => ShiftRightRuns(e, v, rd, rs1, InReg(rs2), false);
      case SRA => ShiftRightRuns(e, v, rd, rs1, InReg(rs2), true);
      case _ => LogicOpRuns(e, v, f, rd, rs1, rs2);
    }
  }

  lemma LogicOpRuns(e: Env, v: View, f: AluOp, rd: Reg, rs1: Reg, rs2: Reg)
    requires Ready(e, v) && f in {AND, OR, XOR} && !LogicAborts(rd, rs1, rs2)
    ensures Run(e, v, Logic(LogicTable(e.lay, f), rd, rs1, rs2)).Some?
    ensures Leaves(v, Run(e, v, Logic(LogicTable(e.lay, f), rd, rs1, rs2)).value, rd,
                   AluValue(f, Get(v.regs, rs1), Get(v.regs, rs2)))
  {
    hide Run;
    hide TablesIn;
    var x, y := Get(v.regs, rs1), Get(v.regs, rs2);
    assert AluValue(f, x, y) == BitwiseOf(f).Of(x, y);
    LogicRuns(e, v, BitwiseOf(f), rd, rs1, rs2);
  }

  lemma AluImmRuns(e: Env, v: View, f: AluOp, rd: Reg, rs1: Reg, imm: Imm)
    requires Ready(e, v) && Supported(AluImm(f, rd, rs1, imm))
    ensures var c := Then(Li(TP, imm), AluCode(e.lay, f, rd, rs1, TP));
            Run(e, v, c).Some? && Leaves(v, Run(e, v, c).value, rd, AluValue(f, Get(v.regs, rs1), imm % B32))
  {
    hide Run;
    hide TablesIn;
    hide AluValue;
    var v1, c1 := Advance(e, v, Then(Li(TP, imm), AluCode(e.lay, f, rd, rs1, TP)));
    assert v1.regs == v.regs[TP := imm % B32];
    AluRuns(e, v1, f, rd, rs1, TP);
  }

  lemma ShiftImmRuns(e: Env, v: View, f: AluOp, rd: Reg, rs1: Reg, n: nat)
    requires Ready(e, v) && Supported(ShiftImm(f, rd, rs1, n))
    ensures Run(e, v, ShiftCode(e.lay, f, rd, rs1, n)).Some?
    ensures Leaves(v, Run(e, v, ShiftCode(e.lay, f, rd, rs1, n)).value, rd, AluValue(f, Get(v.regs, rs1), n))
  {
    hide Run;
    hide TablesIn;
    if f == SLL {
      SlliRuns(e, v, rd, rs1, n);
    } else {
      ShiftRightRuns(e, v, rd, rs1, Const(n), f == SRA);
    }
  }

  /** The operations that only set a register from registers. */
  lemma RegisterOpPerforms(e: Env, v: View, op: Op, regs: Regs, mem: Defined)
    requires Ready(e, v) && Agrees(e, v, regs, mem) && Supported(op)
    requires op.Alu? || op.AluImm? || op.ShiftImm? || op.SetZero?
    ensures Perform(e, op, regs, mem).Some?
    ensures Performs(e, v, Body(e.lay, op, 0, 0), Perform(e, op, regs, mem).value)
  {
    hide Run;
    hide TablesIn;
    hide AluValue;
    match op {
      case Alu(f, rd, rs1, rs2) =>
        AluRuns(e, v, f, rd, rs1, rs2);
        LeavesAgrees(e, v, Run(e, v, Body(e.lay, op, 0, 0)).value, regs, mem, rd,
                     AluValue(f, Get(regs, rs1), Get(regs, rs2)));
      case AluImm(f, rd, rs1, imm) =>
        AluImmRuns(e, v, f, rd, rs1, imm);
        LeavesAgrees(e, v, Run(e, v, Body(e.lay, op, 0, 0)).value, regs, mem, rd,
                     AluValue(f, Get(regs, rs1), imm % B32));
      case ShiftImm(f, rd, rs1, n) =>
        ShiftImmRuns(e, v, f, rd, rs1, n);
        LeavesAgrees(e, v, Run(e, v, Body(e.lay, op, 0, 0)).value, regs, mem, rd, AluValue(f, Get(regs, rs1), n));
      case SetZero(rd, rs1) =>
        SeqzRuns(e, v, rd, rs1);
        LeavesAgrees(e, v, Run(e, v, Body(e.lay, op, 0, 0)).value, regs, mem, rd, Flag(Get(regs, rs1) == 0));
    }
  }

  lemma NarrowLoadPerforms(e: Env, v: View, op: Op, regs: Regs, mem: Defined)
    requires Ready(e, v) && Agrees(e, v, regs, mem) && Supported(op)
    requires op.Lb? || op.Lh? || op.Lhu?
    requires Perform(e, op, regs, mem).Some?
    ensures Performs(e, v, Body(e.lay, op, 0, 0), Perform(e, op, regs, mem).value)
  {
    hide Run;
    hide TablesIn;
    hide Clear;
    hide Plus;
    SameGet(v.regs, regs, op.rs1);
    var a := Target(regs, op.rs1, op.off);
    var x := Get(Perform(e, op, regs, mem).value.regs, op.rd);
    match op {
      case Lb(rd, rs1, off) =>
        LoadSignedByteRuns(e, v, rd, rs1, off);
        LeavesAgrees(e, v, Run(e, v, Body(e.lay, op, 0, 0)).value, regs, mem, rd, SignExtend(mem[a], 128));
      case Lh(rd, rs1, off) =>
        var b := Target(regs, rs1, off + 1);
        LoadSignedHalfRuns(e, v, rd, rs1, off);
        LeavesAgrees(e, v, Run(e, v, Body(e.lay, op, 0, 0)).value, regs, mem, rd,
                     SignExtend(LoadedHalf(mem, a, b), 0x8000));
      case Lhu(rd, rs1, off) =>
        var b := Target(regs, rs1, off + 1);
        LoadHalfRuns(e, v, rd, rs1, off);
        LeavesAgrees(e, v, Run(e, v, Body(e.lay, op, 0, 0)).value, regs, mem, rd, LoadedHalf(mem, a, b));
    }
  }

  /** Storing a byte of the program. */
  lemma ByteStored(e: Env, v: View, regs: Regs, mem: Defined, a: int, b: Byte)
    requires Agrees(e, v, regs, mem) && TablesIn(e.lay, v.data) && 0 <= a < B32 && Storable(e, a)
    ensures Agrees(e, v.(data := v.data[a := b]), regs, mem[a := b]) && TablesIn(e.lay, v.data[a := b])
  {
    hide TablesIn;
    TablesKept(e, v.data, v.data[a := b]);
  }

  lemma StorePerforms(e: Env, v: View, op: Op, regs: Regs, mem: Defined)
    requires Ready(e, v) && Agrees(e, v, regs, mem) && Supported(op)
    requires op.Sh? || (op.Base? && (op.i.Sw? || op.i.Sb?))
    requires Perform(e, op, regs, mem).Some?
    ensures Performs(e, v, Body(e.lay, op, 0, 0), Perform(e, op, regs, mem).value)
  {
    hide Run;
    hide TablesIn;
    hide ByteAt;
    match op {
      case Sh(rs2, rs1, off) =>
        HalfPerforms(e, v, op, regs, mem);
      case Base(Sb(rs2, rs1, off)) =>
        SameGet(v.regs, regs, rs1);
        SameGet(v.regs, regs, rs2);
        StoreOutside(e, v, rs1, off, ByteAt(Get(regs, rs2), 0));
        Last(e, v, op.i);
        ByteStored(e, v, regs, mem, Target(regs, rs1, off), ByteAt(Get(regs, rs2), 0));
      case Base(Sw(rs2, rs1, off)) =>
        SameGet(v.regs, regs, rs1);
        SameGet(v.regs, regs, rs2);
        Last(e, v, op.i);
        WordStored(e, v, regs, mem, rs1, off, Get(regs, rs2));
    }
  }

  lemma HalfPerforms(e: Env, v: View, op: Op, regs: Regs, mem: Defined)
    requires Ready(e, v) && Agrees(e, v, regs, mem) && Supported(op) && op.Sh?
    requires Perform(e, op, regs, mem).Some?
    ensures Performs(e, v, Body(e.lay, op, 0, 0), Perform(e, op, regs, mem).value)
  {
    hide Run;
    hide TablesIn;
    hide ByteAt;
    hide NoOverlap;
    var rs2, rs1, off := op.rs2, op.rs1, op.off;
    SameGet(v.regs, regs, rs1);
    SameGet(v.regs, regs, rs2);
    var x, a, b := Get(regs, rs2), Target(regs, rs1, off), Target(regs, rs1, off + 1);
    StoreHalfRuns(e, v, rs2, rs1, off);
    var w := Run(e, v, Body(e.lay, op, 0, 0)).value;
    ByteStored(e, v, regs, mem, a, ByteAt(x, 0));
    var v1 := v.(data := v.data[a := ByteAt(x, 0)]);
    ByteStored(e, v1, regs, mem[a := ByteAt(x, 0)], b, ByteAt(x, 1));
    assert SameExceptTemps(w.regs, regs);
  }

  lemma WordOutside(e: Env, v: View, rs1: Reg, off: Imm, x: Word)
    requires e.Ok() && var a := Address(v, rs1, off); a % 4 == 0 && Storable(e, a) && Storable(e, a + 3)
    ensures Address(v, rs1, off) + 3 < B32
    ensures StoreWord(e, v, rs1, off, x) == Some(v.(data := PokeWord(v.data, Address(v, rs1, off), x)))
  {
    if ViaSp(e, v, rs1, off) {
      ViaSpIsGeneral(e, v, rs1, off);
    }
  }

  lemma WordStored(e: Env, v: View, regs: Regs, mem: Defined, rs1: Reg, off: Imm, x: Word)
    requires Ready(e, v) && Agrees(e, v, regs, mem) && rs1 !in {GP, TP}
    requires var a := Target(regs, rs1, off);
             a % 4 == 0 && Storable(e, a) && Storable(e, a + 1) && Storable(e, a + 2) && Storable(e, a + 3)
    ensures var a := Target(regs, rs1, off);
            && StoreWord(e, v, rs1, off, x) == Some(v.(data := PokeWord(v.data, a, x)))
            && Agrees(e, v.(data := PokeWord(v.data, a, x)), regs, PokeWord(mem, a, x))
            && TablesIn(e.lay, PokeWord(v.data, a, x))
  {
    hide TablesIn;
    hide ByteAt;
    hide Storable;
    hide StoreWord;
    hide NoOverlap;
    SameGet(v.regs, regs, rs1);
    var a := Target(regs, rs1, off);
    WordOutside(e, v, rs1, off, x);
    var v0 := v.(data := v.data[a := ByteAt(x, 0)]);
    ByteStored(e, v, regs, mem, a, ByteAt(x, 0));
    var m0 := mem[a := ByteAt(x, 0)];
    ByteStored(e, v0, regs, m0, a + 1, ByteAt(x, 1));
    var v1, m1 := v.(data := v0.data[a + 1 := ByteAt(x, 1)]), m0[a + 1 := ByteAt(x, 1)];
    ByteStored(e, v1, regs, m1, a + 2, ByteAt(x, 2));
    var v2, m2 := v.(data := v1.data[a + 2 := ByteAt(x, 2)]), m1[a + 2 := ByteAt(x, 2)];
    ByteStored(e, v2, regs, m2, a + 3, ByteAt(x, 3));
  }

  lemma SetPerforms(e: Env, v: View, i: Instr, regs: Regs, mem: Defined, rd: Reg, x: Word)
    requires Ready(e, v) && Agrees(e, v, regs, mem) && rd !in {GP, TP}
    requires RunStep(e, v, i) == Some(v.(regs := Set(v.regs, rd, x)))
    ensures Performs(e, v, Do(i), Outcome(Set(regs, rd, x), mem))
  {
    hide TablesIn;
    Last(e, v, i);
    LeavesAgrees(e, v, Run(e, v, Do(i)).value, regs, mem, rd, x);
  }

  lemma BasePerforms(e: Env, v: View, op: Op, regs: Regs, mem: Defined)
    requires Ready(e, v) && Agrees(e, v, regs, mem) && Supported(op)
    requires op.Base? && !op.i.Jalr? && !op.i.Sw? && !op.i.Sb?
    requires Perform(e, op, regs, mem).Some?
    ensures Performs(e, v, Body(e.lay, op, 0, 0), Perform(e, op, regs, mem).value)
  {
    hide Performs;
    hide TablesIn;
    hide Plus;
    hide Join;
    hide LoadByte;
    hide LoadWord;
    match op.i {
      case Add(rd, rs1, rs2) =>
        SameGet(v.regs, regs, rs1);
        SameGet(v.regs, regs, rs2);
        SetPerforms(e, v, op.i, regs, mem, rd, Plus(Get(regs, rs1), Get(regs, rs2)));
      case Addi(rd, rs1, imm) =>
        SameGet(v.regs, regs, rs1);
        SetPerforms(e, v, op.i, regs, mem, rd, Plus(Get(regs, rs1), imm));
      case Lui(rd, imm20) =>
        SetPerforms(e, v, op.i, regs, mem, rd, UpperPart(imm20));
      case Lw(rd, rs1, off) =>
        WordLoaded(e, v, regs, mem, rs1, off);
        var a := Target(regs, rs1, off);
        SetPerforms(e, v, op.i, regs, mem, rd, Join(mem[a], mem[a + 1], mem[a + 2], mem[a + 3]));
      case Lbu(rd, rs1, off) =>
        SameGet(v.regs, regs, rs1);
        LoadOutside(e, v, rs1, off);
        SetPerforms(e, v, op.i, regs, mem, rd, mem[Target(regs, rs1, off)]);
    }
  }

  lemma WordLoaded(e: Env, v: View, regs: Regs, mem: Defined, rs1: Reg, off: Imm)
    requires Ready(e, v) && Agrees(e, v, regs, mem) && rs1 !in {GP, TP}
    requires var a := Target(regs, rs1, off); a % 4 == 0 && a in mem && a + 1 in mem && a + 2 in mem && a + 3 in mem
    ensures var a := Target(regs, rs1, off);
            LoadWord(e, v, rs1, off) == Some(Join(mem[a], mem[a + 1], mem[a + 2], mem[a + 3]))
  {
    hide TablesIn;
    hide Join;
    SameGet(v.regs, regs, rs1);
    if ViaSp(e, v, rs1, off) {
      ViaSpIsGeneral(e, v, rs1, off);
    }
  }

  /** Every operation that falls through: its expansion does to the view what it does to the program state. */
  lemma OperationPerforms(e: Env, v: View, op: Op, regs: Regs, mem: Defined)
    requires Ready(e, v) && Agrees(e, v, regs, mem) && Supported(op)
    requires Perform(e, op, regs, mem).Some?
    ensures Performs(e, v, Body(e.lay, op, 0, 0), Perform(e, op, regs, mem).value)
  {
    hide Performs;
    if op.Alu? || op.AluImm? || op.ShiftImm? || op.SetZero? {
      RegisterOpPerforms(e, v, op, regs, mem);
    } else if op.Lb? || op.Lh? || op.Lhu? {
      NarrowLoadPerforms(e, v, op, regs, mem);
    } else if op.Sh? || (op.Base? && (op.i.Sw? || op.i.Sb?)) {
      StorePerforms(e, v, op, regs, mem);
    } else {
      BasePerforms(e, v, op, regs, mem);
    }
  }

  // ----- from the machine to the view -----

  function SlotFrom(m: Mem, a: int): Slot {
    Bytes(Peek(m, a), Peek(m, a + 1), Peek(m, a + 2), Peek(m, a + 3))
  }

  function ViewOf(e: Env, s: Machine): View {
    var m := s.mem;
    View(s.regs,
         Slots(SlotFrom(m, e.sp - 4), SlotFrom(m, e.sp - 8), SlotFrom(m, e.sp - 12), SlotFrom(m, e.sp - 16),
               SlotFrom(m, e.sp - 20), SlotFrom(m, e.sp - 24), SlotFrom(m, e.sp - 28)),
         CheckFrom(m, e.lay.check), m)
  }

  function CheckFrom(m: Mem, a: int): Check { BytesFrom(m, a, 256) }

  function BytesFrom(m: Mem, a: int, n: nat): (c: seq<Byte>)
    ensures |c| == n && forall i :: 0 <= i < n ==> c[i] == Peek(m, a + i)
  {
    if n == 0 then [] else BytesFrom(m, a, n - 1) + [Peek(m, a + n - 1)]
  }

  lemma ViewOfSees(e: Env, s: Machine)
    ensures Sees(e, ViewOf(e, s), s)
  {
    forall a | 0 <= a < B32 ensures Peek(s.mem, a) == ViewByte(e, ViewOf(e, s), a) {
      if e.InSlots(a) {
        var d := e.sp - a;
        assert -4 * VarOf(d) + ByteOf(d) == -d;
      }
    }
  }

  /** Outside the scratch, the machine's memory is the view's data. */
  lemma OutsideData(e: Env, v: View, s: Machine)
    requires Sees(e, v, s)
    ensures forall a :: 0 <= a < B32 && Outside(e, a) ==> Peek(s.mem, a) == Peek(v.data, a)
  {
    forall a | 0 <= a < B32 && Outside(e, a) ensures Peek(s.mem, a) == Peek(v.data, a) {
      assert Peek(s.mem, a) == ViewByte(e, v, a);
    }
  }

  /** A program state and a machine state that stand for each other. */
  ghost predicate Stands(lay: Layout, regs: Regs, mem: Defined, m: Machine) {
    && SameExceptTemps(m.regs, regs)
    && TablesIn(lay, m.mem)
    && forall a :: a in mem ==>
         0 <= a < B32 && !InTables(lay, a) && !(lay.check <= a < lay.check + 256) && Peek(m.mem, a) == mem[a]
  }

  lemma AgreesStands(e: Env, v: View, regs: Regs, mem: Defined, m: Machine)
    requires e.Ok() && Clear(e) && Sees(e, v, m) && Agrees(e, v, regs, mem) && TablesIn(e.lay, v.data)
    ensures Stands(e.lay, regs, mem, m)
  {
    hide TablesIn;
    OutsideData(e, v, m);
    forall a | InTables(e.lay, a) ensures Peek(v.data, a) == Peek(m.mem, a) {
    }
    TablesKept(e, v.data, m.mem);
  }

  // ----- straight-line code inside an image -----

  ghost predicate Holds(image: seq<Instr>, at: nat, part: seq<Instr>) {
    at + |part| <= |image| && image[at..at + |part|] == part
  }

  lemma HoldsParts(image: seq<Instr>, at: nat, a: seq<Instr>, b: seq<Instr>)
    requires Holds(image, at, a + b)
    ensures Holds(image, at, a) && Holds(image, at + |a|, b)
  {
    var whole := image[at..at + |a + b|];
    assert image[at..at + |a|] == whole[..|a|];
    assert image[at + |a|..at + |a| + |b|] == whole[|a|..];
  }

  lemma {:induction false} CpuRunAdd(image: seq<Instr>, base: Word, s: Cpu, m: nat, n: nat)
    requires CpuRun(image, base, s, m).Some?
    ensures CpuRun(image, base, s, m + n) == CpuRun(image, base, CpuRun(image, base, s, m).value, n)
    decreases m
  {
    if m != 0 {
      CpuRunAdd(image, base, CpuStep(image, base, s).value, m - 1, n);
    }
  }

  function At(base: Word, i: nat, m: Machine): Cpu { Cpu(base + 4 * i, m) }

  lemma {:induction false} ExecInImage(image: seq<Instr>, base: Word, i: nat, c: Code, m: Machine)
    requires Holds(image, i, Flatten(c)) && Exec(m, c).Some?
    ensures CpuRun(image, base, At(base, i, m), |Flatten(c)|) == Some(At(base, i + |Flatten(c)|, Exec(m, c).value))
    decreases c
  {
    hide CpuStep;
    hide Step;
    hide Holds;
    hide At;
    match c
    case Nop =>
    case Do(instr) =>
      HoldsOne(image, i, instr);
      StepInImage(image, base, i, instr, m);
    case Then(a, b) =>
      HoldsParts(image, i, Flatten(a), Flatten(b));
      ExecInImage(image, base, i, a, m);
      var j, m' := i + |Flatten(a)|, Exec(m, a).value;
      ExecInImage(image, base, j, b, m');
      CpuRunAdd(image, base, At(base, i, m), |Flatten(a)|, |Flatten(b)|);
  }

  lemma HoldsOne(image: seq<Instr>, at: nat, instr: Instr)
    requires Holds(image, at, [instr])
    ensures at < |image| && image[at] == instr
  {
    assert image[at..at + 1][0] == image[at];
  }

  lemma StepInImage(image: seq<Instr>, base: Word, i: nat, instr: Instr, m: Machine)
    requires i < |image| && image[i] == instr && Step(m, instr).Some?
    ensures CpuRun(image, base, At(base, i, m), 1) == Some(At(base, i + 1, Step(m, instr).value))
  {
    var s := At(base, i, m);
    assert (s.pc - base) / 4 == i && (s.pc - base) % 4 == 0;
    var t := CpuStep(image, base, s).value;
    assert CpuRun(image, base, s, 1) == CpuRun(image, base, t, 0);
  }

  lemma JumpInImage(image: seq<Instr>, base: Word, i: nat, rd: Reg, rs1: Reg, off: Imm, m: Machine)
    requires Holds(image, i, [Jalr(rd, rs1, off)]) && base + 4 * (i + 1) < B32
    ensures CpuRun(image, base, At(base, i, m), 1) ==
            Some(Cpu(EvenTarget(Plus(Get(m.regs, rs1), off)), m.(regs := Set(m.regs, rd, base + 4 * (i + 1)))))
  {
    HoldsOne(image, i, Jalr(rd, rs1, off));
    var s := At(base, i, m);
    assert (s.pc - base) / 4 == i && (s.pc - base) % 4 == 0;
    var t := CpuStep(image, base, s).value;
    assert CpuRun(image, base, s, 1) == CpuRun(image, base, t, 0);
  }

  // ----- the simulation -----

  ghost predicate Related(lay: Layout, p: Program, base: Word, s: Source, t: Cpu)
    requires Fits(lay, p, base)
  {
    && s.k <= |p|
    && t.pc == AddressOf(lay, p, base, s.k)
    && Stands(lay, s.regs, s.mem, t.m)
  }

  ghost function FullImage(lay: Layout, p: Program, base: Word): seq<Instr>
    requires Fits(lay, p, base)
  {
    Image(lay, p, base, |p|)
  }

  ghost predicate Steps(lay: Layout, p: Program, base: Word, s: Source, t: Cpu, n: nat)
    requires Fits(lay, p, base) && SourceStep(lay, p, base, s).Some?
  {
    && CpuRun(FullImage(lay, p, base), base, t, n).Some?
    && Related(lay, p, base, SourceStep(lay, p, base, s).value, CpuRun(FullImage(lay, p, base), base, t, n).value)
  }

  lemma ReadyHere(lay: Layout, regs: Regs, mem: Defined, m: Machine) returns (e: Env)
    requires Stands(lay, regs, mem, m)
    requires Env(regs[SP], lay).Ok() && Clear(Env(regs[SP], lay))
    ensures e == Env(regs[SP], lay) && Ready(e, ViewOf(e, m)) && Agrees(e, ViewOf(e, m), regs, Above(e, mem))
  {
    e := Env(regs[SP], lay);
    SameGet(m.regs, regs, SP);
  }

  /** Where operation `k` sits in the image. */
  lemma Placed(lay: Layout, p: Program, base: Word, k: nat)
    requires Fits(lay, p, base) && k < |p|
    ensures var body := Flatten(Body(lay, p[k], TargetAddress(lay, p, base, k), AddressOf(lay, p, base, k + 1)));
            && Holds(FullImage(lay, p, base), Offset(lay, p, k), body)
            && Holds(FullImage(lay, p, base), Offset(lay, p, k) + |body|, Jump(p[k]))
            && Offset(lay, p, k + 1) == Offset(lay, p, k) + |body| + |Jump(p[k])|
            && base + 4 * Offset(lay, p, k + 1) < B32
  {
    hide Body;
    hide Offset;
    hide Image;
    hide Length;
    hide AddressOf;
    var target, next := TargetAddress(lay, p, base, k), AddressOf(lay, p, base, k + 1);
    ImageSlice(lay, p, base, k, |p|);
    LengthFixed(lay, p[k], target, next);
    EndsInside(lay, p, base, k + 1);
    var body := Flatten(Body(lay, p[k], target, next));
    PlacedParts(FullImage(lay, p, base), Offset(lay, p, k), body, Jump(p[k]));
  }

  lemma EndsInside(lay: Layout, p: Program, base: Word, k: nat)
    requires Fits(lay, p, base) && k <= |p|
    ensures base + 4 * Offset(lay, p, k) < B32
  {
    OffsetGrows(lay, p, k, |p|);
  }

  lemma PlacedParts(image: seq<Instr>, at: nat, a: seq<Instr>, b: seq<Instr>)
    requires at + |a + b| <= |image| && image[at..at + |a + b|] == a + b
    ensures Holds(image, at, a) && Holds(image, at + |a|, b)
  {
    HoldsParts(image, at, a, b);
  }

  lemma BodyFixed(lay: Layout, op: Op, target: Word, next: Word)
    requires Supported(op) && !op.Branch? && !op.Jal?
    ensures Body(lay, op, target, next) == Body(lay, op, 0, 0)
  {
  }

  /** Code whose run on the view is known, executed inside the image. */
  lemma BodyRuns(lay: Layout, p: Program, base: Word, k: nat, e: Env, m: Machine) returns (i: nat, m': Machine)
    requires Fits(lay, p, base) && k < |p| && e.lay == lay && e.Ok()
    requires Run(e, ViewOf(e, m), Body(lay, p[k], TargetAddress(lay, p, base, k), AddressOf(lay, p, base, k + 1))).Some?
    ensures var body := Body(lay, p[k], TargetAddress(lay, p, base, k), AddressOf(lay, p, base, k + 1));
            && Sees(e, Run(e, ViewOf(e, m), body).value, m')
            && CpuRun(FullImage(lay, p, base), base, At(base, Offset(lay, p, k), m), |Flatten(body)|)
            == Some(At(base, i, m'))
            && i == Offset(lay, p, k) + |Flatten(body)|
            && Offset(lay, p, k + 1) == i + |Jump(p[k])|
            && Holds(FullImage(lay, p, base), i, Jump(p[k])) && base + 4 * (i + |Jump(p[k])|) < B32
  {
    hide Run;
    hide Exec;
    hide Body;
    hide Holds;
    hide Flatten;
    hide Offset;
    hide Image;
    hide Sees;
    hide ViewOf;
    var body := Body(lay, p[k], TargetAddress(lay, p, base, k), AddressOf(lay, p, base, k + 1));
    ViewOfSees(e, m);
    RunIsExec(e, ViewOf(e, m), m, body);
    m' := Exec(m, body).value;
    Placed(lay, p, base, k);
    ExecInImage(FullImage(lay, p, base), base, Offset(lay, p, k), body, m);
    i := Offset(lay, p, k) + |Flatten(body)|;
  }

  lemma FallThroughSimulated(lay: Layout, p: Program, base: Word, s: Source, t: Cpu) returns (n: nat)
    requires Fits(lay, p, base) && Related(lay, p, base, s, t) && SourceStep(lay, p, base, s).Some?
    requires s.k < |p| && Jump(p[s.k]) == []
    ensures Steps(lay, p, base, s, t, n)
  {
    hide Image;
    hide Offset;
    hide NoOverlap;
    hide Holds;
    hide IndexAt;
    hide Flatten;
    hide Run;
    hide Body;
    hide Perform;
    hide Stands;
    hide Agrees;
    hide TablesIn;
    hide CpuRun;
    hide Sees;
    var op := p[s.k];
    var e := ReadyHere(lay, s.regs, s.mem, t.m);
    BodyFixed(lay, op, TargetAddress(lay, p, base, s.k), AddressOf(lay, p, base, s.k + 1));
    OperationPerforms(e, ViewOf(e, t.m), op, s.regs, Above(e, s.mem));
    var i, m' := BodyRuns(lay, p, base, s.k, e, t.m);
    var o := Perform(e, op, s.regs, Above(e, s.mem)).value;
    AgreesStands(e, Run(e, ViewOf(e, t.m), Body(lay, op, 0, 0)).value, o.regs, o.mem, m');
    n := |Flatten(Body(lay, op, 0, 0))|;
  }

  /** After the straight-line part, one jump. */
  lemma ThenJump(lay: Layout, p: Program, base: Word, t: Cpu, k: nat, len: nat, i: nat, m: Machine, j: Instr)
    requires Fits(lay, p, base) && j.Jalr?
    requires CpuRun(FullImage(lay, p, base), base, t, len) == Some(At(base, i, m))
    requires Holds(FullImage(lay, p, base), i, [j]) && base + 4 * (i + 1) < B32
    ensures CpuRun(FullImage(lay, p, base), base, t, len + 1) ==
            Some(Cpu(EvenTarget(Plus(Get(m.regs, j.rs1), j.imm)), m.(regs := Set(m.regs, j.rd, base + 4 * (i + 1)))))
  {
    hide CpuRun;
    hide Holds;
    JumpInImage(FullImage(lay, p, base), base, i, j.rd, j.rs1, j.imm, m);
    CpuRunAdd(FullImage(lay, p, base), base, t, len, 1);
  }

  lemma SparesStands(e: Env, v: View, w: View, regs: Regs, mem: Defined, m: Machine)
    requires e.Ok() && Clear(e) && TablesIn(e.lay, v.data) && Agrees(e, v, regs, mem)
    requires Spares(v, w) && Sees(e, w, m)
    ensures Stands(e.lay, regs, mem, m)
  {
    hide TablesIn;
    assert SameExceptTemps(w.regs, regs);
    AgreesStands(e, w, regs, mem, m);
  }

  /** Setting a register by the final jump. */
  lemma StandsSet(lay: Layout, regs: Regs, mem: Defined, m: Machine, rd: Reg, x: Word)
    requires Stands(lay, regs, mem, m) && rd !in {GP, TP}
    ensures Stands(lay, Set(regs, rd, x), mem, m.(regs := Set(m.regs, rd, x)))
  {
    assert SameExceptTemps(Set(m.regs, rd, x), Set(regs, rd, x));
  }

  lemma BranchBody(e: Env, v: View, c: Cond, rs1: Reg, rs2: Reg, target: Word, next: Word)
    requires Ready(e, v) && rs1 !in {GP, TP} && rs2 !in {GP, TP}
    ensures var code := Body(e.lay, Branch(c, rs1, rs2, 0), target, next);
            && Run(e, v, code).Some?
            && var w := Run(e, v, code).value;
               Spares(v, w) && w.regs[TP] == if Taken(c, Get(v.regs, rs1), Get(v.regs, rs2)) then target else next
  {
    hide Run;
    hide TablesIn;
    hide Taken;
    hide BranchResolve;
    var (bit, onOne) := BranchBit(e.lay, c, rs1, rs2);
    var code := Then(bit, BranchResolve(target, onOne, next));
    BranchBitRuns(e, v, c, rs1, rs2);
    var v1 := Run(e, v, bit).value;
    var c1 := Call(e, v, code, v1);
    BranchResolveRuns(e, v1, target, onOne, next, Taken(c, Get(v.regs, rs1), Get(v.regs, rs2)) == onOne);
  }

  lemma AddressEven(lay: Layout, p: Program, base: Word, k: nat)
    requires Fits(lay, p, base) && k <= |p|
    ensures EvenTarget(Plus(AddressOf(lay, p, base, k), 0)) == AddressOf(lay, p, base, k)
  {
    hide Offset;
    assert AddressOf(lay, p, base, k) == base + 4 * Offset(lay, p, k);
    MultipleOfFour(base, Offset(lay, p, k));
  }

  lemma MultipleOfFour(base: nat, n: nat)
    requires base % 4 == 0
    ensures (base + 4 * n) % 2 == 0
  {
    DivModUnique(base + 4 * n, 2, 2 * (base / 4) + 2 * n, 0);
  }

  lemma BranchSimulated(lay: Layout, p: Program, base: Word, s: Source, t: Cpu) returns (n: nat)
    requires Fits(lay, p, base) && Related(lay, p, base, s, t) && SourceStep(lay, p, base, s).Some?
    requires s.k < |p| && p[s.k].Branch?
    ensures Steps(lay, p, base, s, t, n)
  {
    hide Run;
    hide Image;
    hide Offset;
    hide NoOverlap;
    hide Holds;
    hide IndexAt;
    hide Stands;
    hide Agrees;
    hide TablesIn;
    hide CpuRun;
    hide Sees;
    hide Flatten;
    hide Taken;
    hide BranchBit;
    hide BranchResolve;
    var c, rs1, rs2 := p[s.k].c, p[s.k].rs1, p[s.k].rs2;
    var target, next := TargetAddress(lay, p, base, s.k), AddressOf(lay, p, base, s.k + 1);
    var e := ReadyHere(lay, s.regs, s.mem, t.m);
    var v := ViewOf(e, t.m);
    SameBranchOperands(lay, s.regs, s.mem, t.m, rs1, rs2);
    BranchBody(e, v, c, rs1, rs2, target, next);
    var w := Run(e, v, Body(lay, p[s.k], target, next)).value;
    var i, m' := BodyRuns(lay, p, base, s.k, e, t.m);
    SparesStands(e, v, w, s.regs, Above(e, s.mem), m');
    n := |Flatten(Body(lay, p[s.k], target, next))|;
    ThenJump(lay, p, base, t, s.k, n, i, m', Jalr(ZERO, TP, 0));
    n := n + 1;
    AddressEven(lay, p, base, s.k + 1);
    AddressEven(lay, p, base, p[s.k].target);
    SeesRegisters(e, w, m');
  }

  lemma SeesRegisters(e: Env, w: View, m: Machine)
    requires Sees(e, w, m)
    ensures w.regs == m.regs
  {
  }

  lemma SameBranchOperands(lay: Layout, regs: Regs, mem: Defined, m: Machine, rs1: Reg, rs2: Reg)
    requires Stands(lay, regs, mem, m) && rs1 !in {GP, TP} && rs2 !in {GP, TP}
    ensures Get(m.regs, rs1) == Get(regs, rs1) && Get(m.regs, rs2) == Get(regs, rs2)
  {
    SameGet(m.regs, regs, rs1);
    SameGet(m.regs, regs, rs2);
  }

  lemma JalSimulated(lay: Layout, p: Program, base: Word, s: Source, t: Cpu) returns (n: nat)
    requires Fits(lay, p, base) && Related(lay, p, base, s, t) && SourceStep(lay, p, base, s).Some?
    requires s.k < |p| && p[s.k].Jal?
    ensures Steps(lay, p, base, s, t, n)
  {
    hide Run;
    hide Image;
    hide Offset;
    hide NoOverlap;
    hide Holds;
    hide IndexAt;
    hide Stands;
    hide Agrees;
    hide TablesIn;
    hide CpuRun;
    hide Sees;
    hide Flatten;
    hide La;
    var rd := p[s.k].rd;
    var r: Reg := if rd == ZERO then TP else rd;
    var target, next := TargetAddress(lay, p, base, s.k), AddressOf(lay, p, base, s.k + 1);
    var e := ReadyHere(lay, s.regs, s.mem, t.m);
    var v := ViewOf(e, t.m);
    LaRuns(e, v, r, target);
    var w := v.(regs := v.regs[r := target]);
    var i, m' := BodyRuns(lay, p, base, s.k, e, t.m);
    SeesRegisters(e, w, m');
    n := |Flatten(Body(lay, p[s.k], target, next))|;
    ThenJump(lay, p, base, t, s.k, n, i, m', Jalr(rd, r, 0));
    n := n + 1;
    AddressEven(lay, p, base, p[s.k].target);
    AfterLa(e, v, w, s.regs, Above(e, s.mem), m', rd, target, next);
  }

  /** The address loaded for the jump is overwritten by the return address, or sits in `tp`. */
  lemma AfterLa(e: Env, v: View, w: View, regs: Regs, mem: Defined, m: Machine, rd: Reg, target: Word, next: Word)
    requires e.Ok() && Clear(e) && TablesIn(e.lay, v.data) && Agrees(e, v, regs, mem) && rd !in {GP, TP}
    requires w == v.(regs := v.regs[(if rd == ZERO then TP else rd) := target]) && Sees(e, w, m)
    ensures Stands(e.lay, Set(regs, rd, next), mem, m.(regs := Set(m.regs, rd, next)))
  {
    hide TablesIn;
    var mid := if rd == ZERO then regs else Set(regs, rd, target);
    assert SameExceptTemps(w.regs, mid);
    AgreesStands(e, w, mid, mem, m);
    StandsSet(e.lay, mid, mem, m, rd, next);
    SetTwice(regs, rd, target, next);
  }

  lemma JalrSimulated(lay: Layout, p: Program, base: Word, s: Source, t: Cpu) returns (n: nat)
    requires Fits(lay, p, base) && Related(lay, p, base, s, t) && SourceStep(lay, p, base, s).Some?
    requires s.k < |p| && p[s.k].Base? && p[s.k].i.Jalr?
    ensures Steps(lay, p, base, s, t, n)
  {
    hide Image;
    hide Offset;
    hide NoOverlap;
    hide Holds;
    hide IndexAt;
    hide Stands;
    hide Agrees;
    hide TablesIn;
    hide CpuRun;
    hide Sees;
    var rd, rs1 := p[s.k].i.rd, p[s.k].i.rs1;
    var e := ReadyHere(lay, s.regs, s.mem, t.m);
    var v := ViewOf(e, t.m);
    SameBranchOperands(lay, s.regs, s.mem, t.m, rs1, rs1);
    Stop(e, v);
    var i, m' := BodyRuns(lay, p, base, s.k, e, t.m);
    SeesRegisters(e, v, m');
    AgreesStands(e, v, s.regs, Above(e, s.mem), m');
    StandsSet(lay, s.regs, Above(e, s.mem), m', rd, AddressOf(lay, p, base, s.k + 1));
    ThenJump(lay, p, base, t, s.k, 0, i, m', p[s.k].i);
    n := 1;
  }

  /** One operation of the program is some number of steps of the image. */
  lemma StepSimulated(lay: Layout, p: Program, base: Word, s: Source, t: Cpu) returns (n: nat)
    requires Fits(lay, p, base) && Related(lay, p, base, s, t) && SourceStep(lay, p, base, s).Some?
    ensures Steps(lay, p, base, s, t, n)
  {
    hide Steps;
    hide Related;
    match p[s.k] {
      case Branch(_, _, _, _) => n := BranchSimulated(lay, p, base, s, t);
      case Jal(_, _) => n := JalSimulated(lay, p, base, s, t);
      case Base(Jalr(_, _, _)) => n := JalrSimulated(lay, p, base, s, t);
      case _ => n := FallThroughSimulated(lay, p, base, s, t);
    }
  }

  /** Every finite run of the program is matched by a run of its expansion. */
  lemma {:induction false} RunSimulated(lay: Layout, p: Program, base: Word, s: Source, t: Cpu, steps: nat)
    requires Fits(lay, p, base) && Related(lay, p, base, s, t) && SourceRun(lay, p, base, s, steps).Some?
    ensures exists n: nat :: var u := CpuRun(FullImage(lay, p, base), base, t, n);
              u.Some? && Related(lay, p, base, SourceRun(lay, p, base, s, steps).value, u.value)
    decreases steps
  {
    hide SourceStep;
    hide CpuStep;
    hide Related;
    hide Image;
    var image := FullImage(lay, p, base);
    if steps == 0 {
      assert CpuRun(image, base, t, 0) == Some(t);
    } else {
      var s1 := SourceStep(lay, p, base, s).value;
      var n := StepSimulated(lay, p, base, s, t);
      var t1 := CpuRun(image, base, t, n).value;
      RunSimulated(lay, p, base, s1, t1, steps - 1);
      var m: nat :| var u := CpuRun(image, base, t1, m);
        u.Some? && Related(lay, p, base, SourceRun(lay, p, base, s1, steps - 1).value, u.value);
      CpuRunAdd(image, base, t, n, m);
      assert CpuRun(image, base, t, n + m) == CpuRun(image, base, t1, m);
    }
  }
}
