/** RV32I programs, their meaning, and the image of base instructions that the macros produce. */
module MinirvProgram {
  import opened Options
  import opened MachineWords
  import opened MinirvMachine
  import opened MinirvMacros
  import opened MinirvView
  import opened MinirvTables
  import opened MinirvAccess
  import opened Rv32iValues

  datatype Op =
    | Base(i: Instr)
    | Alu(f: AluOp, rd: Reg, rs1: Reg, rs2: Reg)
    | AluImm(f: AluOp, rd: Reg, rs1: Reg, imm: Imm)
    | ShiftImm(f: AluOp, rd: Reg, rs1: Reg, n: nat)
    | SetZero(rd: Reg, rs1: Reg)
    | Lb(rd: Reg, rs1: Reg, off: Imm)
    | Lh(rd: Reg, rs1: Reg, off: Imm)
    | Lhu(rd: Reg, rs1: Reg, off: Imm)
    | Sh(rs2: Reg, rs1: Reg, off: Imm)
    | Branch(c: Cond, rs1: Reg, rs2: Reg, target: nat)
    | Jal(rd: Reg, target: nat)

  type Program = seq<Op>

  // ----- which operations the macros accept -----

  function Operands(op: Op): set<Reg> {
    match op
    case Base(Add(rd, rs1, rs2)) => {rd, rs1, rs2}
    case Base(Addi(rd, rs1, _)) => {rd, rs1}
    case Base(Lui(rd, _)) => {rd}
    case Base(Lw(rd, rs1, _)) => {rd, rs1}
    case Base(Lbu(rd, rs1, _)) => {rd, rs1}
    case Base(Sw(rs2, rs1, _)) => {rs1, rs2}
    case Base(Sb(rs2, rs1, _)) => {rs1, rs2}
    case Base(Jalr(rd, rs1, _)) => {rd, rs1}
    case Alu(_, rd, rs1, rs2) => {rd, rs1, rs2}
    case AluImm(_, rd, rs1, _) => {rd, rs1}
    case ShiftImm(_, rd, rs1, _) => {rd, rs1}
    case SetZero(rd, rs1) => {rd, rs1}
    case Lb(rd, rs1, _) => {rd, rs1}
    case Lh(rd, rs1, _) => {rd, rs1}
    case Lhu(rd, rs1, _) => {rd, rs1}
    case Sh(rs2, rs1, _) => {rs1, rs2}
    case Branch(_, rs1, rs2, _) => {rs1, rs2}
    case Jal(rd, _) => {rd}
  }

  /**
   * `tp` and `gp` belong to the macros; `sp` may not be an operand of a bitwise operation, nor the destination of
   * `lb` or `seqz`; `s0` may not be the destination of `seqz`; half-word offsets leave room for the second byte.
   */
  predicate Supported(op: Op) {
    && GP !in Operands(op) && TP !in Operands(op)
    && match op
       case Alu(f, rd, rs1, rs2) => f in {AND, OR, XOR} ==> !LogicAborts(rd, rs1, rs2)
       case AluImm(f, rd, rs1, _) =>
         f in {SLT, SLTU, AND, OR, XOR} && (f in {AND, OR, XOR} ==> !LogicAborts(rd, rs1, TP))
       case ShiftImm(f, _, _, n) => f in {SLL, SRL, SRA} && n < 32
       case SetZero(rd, _) => rd !in {S0, SP}
       case Lb(rd, _, _) => rd != SP
       case Lh(_, _, off) => off < 2047
       case Lhu(_, _, off) => off < 2047
       case Sh(_, _, off) => off < 2047
       case _ => true
  }

  // ----- what an operation means -----

  /** Memory a program may rely on: only the defined bytes. */
  type Defined = map<int, Byte>

  predicate InTables(lay: Layout, a: int) {
    || lay.sameResult <= a < lay.sameResult + 8 || lay.zero8 <= a < lay.zero8 + 256
    || lay.slt1 <= a < lay.slt1 + 8 || lay.sltu1 <= a < lay.sltu1 + 8 || lay.or1 <= a < lay.or1 + 4
    || lay.lut <= a < lay.lut + LUT_SIZE
  }

  /** Stores go neither below the stack pointer nor into the macros' own data. */
  predicate Storable(e: Env, a: int) {
    Outside(e, a) && !InTables(e.lay, a)
  }

  datatype Outcome = Outcome(regs: Regs, mem: Defined)

  function Target(regs: Regs, rs1: Reg, off: int): Word
    requires -2048 <= off < 2048
  {
    Plus(Get(regs, rs1), off)
  }

  function Assign(regs: Regs, mem: Defined, rd: Reg, x: Word): Option<Outcome> {
    Some(Outcome(Set(regs, rd, x), mem))
  }

  function LoadedHalf(mem: Defined, a0: Word, a1: Word): (h: nat)
    requires a0 in mem && a1 in mem
    ensures h < 0x1_0000
  {
    var low: int, high: int := mem[a0], mem[a1];
    low + 0x100 * high
  }

  /** The operations that fall through; `None` when the program leaves what the macros' header assumes. */
  function Perform(e: Env, op: Op, regs: Regs, mem: Defined): Option<Outcome>
    requires Supported(op)
  {
    match op
    case Base(Add(rd, rs1, rs2)) => Assign(regs, mem, rd, Plus(Get(regs, rs1), Get(regs, rs2)))
    case Base(Addi(rd, rs1, imm)) => Assign(regs, mem, rd, Plus(Get(regs, rs1), imm))
    case Base(Lui(rd, imm20)) => Assign(regs, mem, rd, UpperPart(imm20))
    case Base(Lw(rd, rs1, off)) =>
      var a := Target(regs, rs1, off);
      if a % 4 == 0 && a in mem && a + 1 in mem && a + 2 in mem && a + 3 in mem then
        Assign(regs, mem, rd, Join(mem[a], mem[a + 1], mem[a + 2], mem[a + 3]))
      else None
    case Base(Lbu(rd, rs1, off)) =>
      var a := Target(regs, rs1, off);
      if a in mem then Assign(regs, mem, rd, mem[a]) else None
    case Base(Sw(rs2, rs1, off)) =>
      var a := Target(regs, rs1, off);
      if a % 4 == 0 && Storable(e, a) && Storable(e, a + 1) && Storable(e, a + 2) && Storable(e, a + 3) then
        Some(Outcome(regs, PokeWord(mem, a, Get(regs, rs2))))
      else None
    case Base(Sb(rs2, rs1, off)) =>
      var a := Target(regs, rs1, off);
      if Storable(e, a) then Some(Outcome(regs, mem[a := ByteAt(Get(regs, rs2), 0)])) else None
    case Base(Jalr(_, _, _)) => None
    case Alu(f, rd, rs1, rs2) => Assign(regs, mem, rd, AluValue(f, Get(regs, rs1), Get(regs, rs2)))
    case AluImm(f, rd, rs1, imm) => Assign(regs, mem, rd, AluValue(f, Get(regs, rs1), imm % B32))
    case ShiftImm(f, rd, rs1, n) => Assign(regs, mem, rd, AluValue(f, Get(regs, rs1), n))
    case SetZero(rd, rs1) => Assign(regs, mem, rd, if Get(regs, rs1) == 0 then 1 else 0)
    case Lb(rd, rs1, off) =>
      var a := Target(regs, rs1, off);
      if a in mem then Assign(regs, mem, rd, SignExtend(mem[a], 128)) else None
    case Lh(rd, rs1, off) =>
      var a, b := Target(regs, rs1, off), Target(regs, rs1, off + 1);
      if a in mem && b in mem then Assign(regs, mem, rd, SignExtend(LoadedHalf(mem, a, b), 0x8000)) else None
    case Lhu(rd, rs1, off) =>
      var a, b := Target(regs, rs1, off), Target(regs, rs1, off + 1);
      if a in mem && b in mem then Assign(regs, mem, rd, LoadedHalf(mem, a, b)) else None
    case Sh(rs2, rs1, off) =>
      var a, b := Target(regs, rs1, off), Target(regs, rs1, off + 1);
      if Storable(e, a) && Storable(e, b) then
        Some(Outcome(regs, mem[a := ByteAt(Get(regs, rs2), 0)][b := ByteAt(Get(regs, rs2), 1)]))
      else None
    case Branch(_, _, _, _) => None
    case Jal(_, _) => None
  }

  // ----- expansion -----

  function BitwiseOf(f: AluOp): Bitwise {
    if f == AND then AndOp else if f == OR then OrOp else XorOp
  }

  function LogicTable(lay: Layout, f: AluOp): int {
    if f == AND then lay.And8() else if f == OR then lay.Or8() else lay.Xor8()
  }

  function AluCode(lay: Layout, f: AluOp, rd: Reg, rs1: Reg, rs2: Reg): Code {
    match f
    case SUB => Sub(lay, rd, rs1, rs2)
    case SLT => SltTemplate(lay, lay.slt1, rd, rs1, rs2)
    case SLTU => SltTemplate(lay, lay.sltu1, rd, rs1, rs2)
    case SLL => Sll(lay, rd, rs1, rs2)
    case SRL => ShiftRight(lay, rd, rs1, InReg(rs2), false)
    case SRA => ShiftRight(lay, rd, rs1, InReg(rs2), true)
    case _ => Logic(LogicTable(lay, f), rd, rs1, rs2)
  }

  function ShiftCode(lay: Layout, f: AluOp, rd: Reg, rs1: Reg, n: nat): Code
    requires n < 32
  {
    if f == SLL then Slli(rd, rs1, n) else ShiftRight(lay, rd, rs1, Const(n), f == SRA)
  }

  /** The straight-line part; `target` and `next` are the addresses of the two labels of a branch. */
  function Body(lay: Layout, op: Op, target: Word, next: Word): Code
    requires Supported(op)
  {
    match op
    case Base(i) => if i.Jalr? then Nop else Do(i)
    case Alu(f, rd, rs1, rs2) => AluCode(lay, f, rd, rs1, rs2)
    case AluImm(f, rd, rs1, imm) => Then(Li(TP, imm), AluCode(lay, f, rd, rs1, TP))
    case ShiftImm(f, rd, rs1, n) => ShiftCode(lay, f, rd, rs1, n)
    case SetZero(rd, rs1) => Seqz(lay, rd, rs1)
    case Lb(rd, rs1, off) => LoadSignedByte(lay, rd, rs1, off)
    case Lh(rd, rs1, off) => LoadSignedHalf(lay, rd, rs1, off)
    case Lhu(rd, rs1, off) => LoadHalf(rd, rs1, off)
    case Sh(rs2, rs1, off) => StoreHalf(rs2, rs1, off)
    case Branch(c, rs1, rs2, _) =>
      var (bit, onOne) := BranchBit(lay, c, rs1, rs2);
      Then(bit, BranchResolve(target, onOne, next))
    case Jal(rd, _) => La(if rd == ZERO then TP else rd, target)
  }

  /** The jump that ends the expansion, if it has one. */
  function Jump(op: Op): seq<Instr> {
    match op
    case Base(i) => if i.Jalr? then [i] else []
    case Branch(_, _, _, _) => [Jalr(ZERO, TP, 0)]
    case Jal(rd, _) => [if rd == ZERO then Jalr(ZERO, TP, 0) else Jalr(rd, rd, 0)]
    case _ => []
  }

  function Expansion(lay: Layout, op: Op, target: Word, next: Word): seq<Instr>
    requires Supported(op)
  {
    Flatten(Body(lay, op, target, next)) + Jump(op)
  }

  function Length(lay: Layout, op: Op): nat
    requires Supported(op)
  {
    |Expansion(lay, op, 0, 0)|
  }

  lemma LaLength(r: Reg, addr: int)
    ensures |Flatten(La(r, addr))| == 2
  {
  }

  lemma ResolveLength(target: Word, high: bool, next: Word)
    ensures |Flatten(BranchResolve(target, high, next))| == |Flatten(Slli(TP, TP, 2))| + 8
  {
    var up, low := if high then target else next, if high then next else target;
    var c := BranchResolve(target, high, next);
    LaLength(GP, up);
    LaLength(GP, low);
    assert |Flatten(c)| == |Flatten(Slli(TP, TP, 2))| + |Flatten(c.rest)|;
    assert |Flatten(c.rest)| == 1 + |Flatten(c.rest.rest)|;
    assert |Flatten(c.rest.rest)| == |Flatten(c.rest.rest.first)| + |Flatten(c.rest.rest.rest)|;
    assert |Flatten(c.rest.rest.rest)| == |Flatten(c.rest.rest.rest.first)| + 1;
  }

  /** The length of an expansion does not depend on the addresses in it. */
  lemma LengthFixed(lay: Layout, op: Op, target: Word, next: Word)
    requires Supported(op)
    ensures |Expansion(lay, op, target, next)| == Length(lay, op)
  {
    match op
    case Branch(c, rs1, rs2, _) =>
      var (bit, onOne) := BranchBit(lay, c, rs1, rs2);
      ResolveLength(target, onOne, next);
      ResolveLength(0, onOne, 0);
      assert |Flatten(Body(lay, op, target, next))| == |Flatten(bit)| + |Flatten(BranchResolve(target, onOne, next))|;
      assert |Flatten(Body(lay, op, 0, 0))| == |Flatten(bit)| + |Flatten(BranchResolve(0, onOne, 0))|;
    case Jal(rd, _) =>
      LaLength(if rd == ZERO then TP else rd, target);
      LaLength(if rd == ZERO then TP else rd, 0);
    case _ =>
  }

  ghost predicate Compilable(p: Program) {
    forall k :: 0 <= k < |p| ==>
      Supported(p[k]) && (p[k].Branch? ==> p[k].target <= |p|) && (p[k].Jal? ==> p[k].target <= |p|)
  }

  /** The number of base instructions before operation `k`. */
  ghost function Offset(lay: Layout, p: Program, k: nat): nat
    requires Compilable(p) && k <= |p|
  {
    if k == 0 then 0 else Offset(lay, p, k - 1) + Length(lay, p[k - 1])
  }

  lemma {:induction false} OffsetGrows(lay: Layout, p: Program, j: nat, k: nat)
    requires Compilable(p) && j <= k <= |p|
    ensures Offset(lay, p, j) <= Offset(lay, p, k)
  {
    if j < k {
      OffsetGrows(lay, p, j, k - 1);
    }
  }

  /** Where the image starts; it ends inside the address space. */
  ghost predicate Fits(lay: Layout, p: Program, base: Word) {
    Compilable(p) && base % 4 == 0 && base + 4 * Offset(lay, p, |p|) < B32
  }

  ghost function AddressOf(lay: Layout, p: Program, base: Word, k: nat): Word
    requires Fits(lay, p, base) && k <= |p|
  {
    OffsetGrows(lay, p, k, |p|);
    base + 4 * Offset(lay, p, k)
  }

  ghost function TargetAddress(lay: Layout, p: Program, base: Word, k: nat): Word
    requires Fits(lay, p, base) && k < |p|
  {
    match p[k]
    case Branch(_, _, _, t) => AddressOf(lay, p, base, t)
    case Jal(_, t) => AddressOf(lay, p, base, t)
    case _ => 0
  }

  ghost function ExpansionAt(lay: Layout, p: Program, base: Word, k: nat): seq<Instr>
    requires Fits(lay, p, base) && k < |p|
  {
    Expansion(lay, p[k], TargetAddress(lay, p, base, k), AddressOf(lay, p, base, k + 1))
  }

  /** The image of the first `k` operations. */
  ghost function Image(lay: Layout, p: Program, base: Word, k: nat): (image: seq<Instr>)
    requires Fits(lay, p, base) && k <= |p|
    ensures |image| == Offset(lay, p, k)
  {
    if k == 0 then [] else
      LengthFixed(lay, p[k - 1], TargetAddress(lay, p, base, k - 1), AddressOf(lay, p, base, k));
      Image(lay, p, base, k - 1) + ExpansionAt(lay, p, base, k - 1)
  }

  lemma {:induction false} ImageSlice(lay: Layout, p: Program, base: Word, j: nat, k: nat)
    requires Fits(lay, p, base) && j < k <= |p|
    ensures Offset(lay, p, j) <= Offset(lay, p, j + 1) <= Offset(lay, p, k)
    ensures Image(lay, p, base, k)[Offset(lay, p, j)..Offset(lay, p, j + 1)] == ExpansionAt(lay, p, base, j)
  {
    hide ExpansionAt;
    hide Length;
    hide Offset;
    OffsetGrows(lay, p, j, j + 1);
    OffsetGrows(lay, p, j + 1, k);
    var before, last := Image(lay, p, base, k - 1), ExpansionAt(lay, p, base, k - 1);
    assert Image(lay, p, base, k) == before + last;
    if j + 1 < k {
      ImageSlice(lay, p, base, j, k - 1);
      assert (before + last)[Offset(lay, p, j)..Offset(lay, p, j + 1)]
          == before[Offset(lay, p, j)..Offset(lay, p, j + 1)];
    }
  }

  // ----- running a program -----

  /** A program state: the index of the next operation, registers, and the defined part of memory. */
  datatype Source = Source(k: nat, regs: Regs, mem: Defined)

  /** The first operation placed at address `a`. */
  ghost function IndexAt(lay: Layout, p: Program, base: Word, a: int, from: nat): (r: Option<nat>)
    requires Fits(lay, p, base) && from <= |p|
    ensures r.Some? ==> from <= r.value <= |p| && AddressOf(lay, p, base, r.value) == a
    decreases |p| - from
  {
    if AddressOf(lay, p, base, from) == a then Some(from)
    else if from == |p| then None
    else IndexAt(lay, p, base, a, from + 1)
  }

  /** Bytes below the stack pointer are not the program's. */
  function Above(e: Env, mem: Defined): Defined {
    map a | a in mem && !e.InSlots(a) :: mem[a]
  }

  function EvenTarget(x: Word): Word { x - x % 2 }

  ghost function SourceStep(lay: Layout, p: Program, base: Word, s: Source): Option<Source>
    requires Fits(lay, p, base)
  {
    var e := Env(s.regs[SP], lay);
    if s.k >= |p| || !e.Ok() || !Clear(e) then None
    else
      var mem, next := Above(e, s.mem), AddressOf(lay, p, base, s.k + 1);
      match p[s.k]
      case Branch(c, rs1, rs2, t) =>
        Some(Source(if Taken(c, Get(s.regs, rs1), Get(s.regs, rs2)) then t else s.k + 1, s.regs, mem))
      case Jal(rd, t) => Some(Source(t, Set(s.regs, rd, next), mem))
      case Base(Jalr(rd, rs1, off)) =>
        (match IndexAt(lay, p, base, EvenTarget(Target(s.regs, rs1, off)), 0)
         case None => None
         case Some(t) => Some(Source(t, Set(s.regs, rd, next), mem)))
      case _ =>
        (match Perform(e, p[s.k], s.regs, mem)
         case None => None
         case Some(o) => Some(Source(s.k + 1, o.regs, o.mem)))
  }

  ghost function SourceRun(lay: Layout, p: Program, base: Word, s: Source, n: nat): Option<Source>
    requires Fits(lay, p, base)
    decreases n
  {
    if n == 0 then Some(s)
    else
      match SourceStep(lay, p, base, s)
      case None => None
      case Some(t) => SourceRun(lay, p, base, t, n - 1)
  }

  // ----- running the image -----

  datatype Cpu = Cpu(pc: int, m: Machine)

  function CpuStep(image: seq<Instr>, base: Word, s: Cpu): Option<Cpu> {
    var i := (s.pc - base) / 4;
    if (s.pc - base) % 4 != 0 || !(0 <= i < |image|) then None
    else
      match image[i]
      case Jalr(rd, rs1, off) =>
        Some(Cpu(EvenTarget(Plus(Get(s.m.regs, rs1), off)), s.m.(regs := Set(s.m.regs, rd, (s.pc + 4) % B32))))
      case _ =>
        (match Step(s.m, image[i])
         case None => None
         case Some(m) => Some(Cpu(s.pc + 4, m)))
  }

  function CpuRun(image: seq<Instr>, base: Word, s: Cpu, n: nat): Option<Cpu>
    decreases n
  {
    if n == 0 then Some(s)
    else
      match CpuStep(image, base, s)
      case None => None
      case Some(t) => CpuRun(image, base, t, n - 1)
  }
}
