/** The lookup tables in memory, as the generator writes them, and reading them through a register. */
module MinirvTables {
  import opened Options
  import opened MachineWords
  import opened MinirvMachine
  import opened MinirvMacros
  import opened MinirvView
  import opened Rv32iValues
  import opened ShiftBytes

  const LUT_SIZE := 3 * 256 * 256 + 3 * 32 * 256 * 4

  function TableAddress(base: int, row: int, column: int): int { base + 0x100 * row + column }

  function ByteEntry(data: Mem, base: int, row: int, column: int): Byte {
    Peek(data, TableAddress(base, row, column))
  }

  function WordEntry(data: Mem, base: int, row: int, column: int): Word {
    PeekWord(data, base + 4 * (0x100 * row + column))
  }

  /** The tables written out in the source. */
  ghost predicate SmallIn(lay: Layout, data: Mem) {
    && (forall i :: 0 <= i < 8 ==> ByteEntry(data, lay.sameResult, 0, i) == if i == 0 then 1 else 0)
    && (forall i :: 0 <= i < 256 ==> ByteEntry(data, lay.zero8, 0, i) == if i == 0 then 0 else 1)
    && (forall i :: 0 <= i < 8 ==> ByteEntry(data, lay.slt1, 0, i) == SLT1[i])
    && (forall i :: 0 <= i < 8 ==> ByteEntry(data, lay.sltu1, 0, i) == SLTU1[i])
    && (forall i :: 0 <= i < 4 ==> ByteEntry(data, lay.or1, 0, i) == OR1[i])
  }

  /** The six tables of the generated file. */
  ghost predicate LutIn(lay: Layout, data: Mem) {
    && (forall j: nat, i: nat :: j < 256 && i < 256 ==> ByteEntry(data, lay.And8(), j, i) == BitAnd(j, i))
    && (forall j: nat, i: nat :: j < 256 && i < 256 ==> ByteEntry(data, lay.Or8(), j, i) == BitOr(j, i))
    && (forall j: nat, i: nat :: j < 256 && i < 256 ==> ByteEntry(data, lay.Xor8(), j, i) == BitXor(j, i))
    && (forall j: nat, i: Byte :: j < 32 ==> WordEntry(data, lay.Sll8(), j, i) == SllEntry(i, j))
    && (forall j: nat, i: Byte :: j < 32 ==> WordEntry(data, lay.Srl8(), j, i) == SrlEntry(i, j))
    && (forall j: nat, i: Byte :: j < 32 ==> WordEntry(data, lay.Sra8(), j, i) == SraEntry(i, j))
  }

  ghost predicate TablesIn(lay: Layout, data: Mem) {
    SmallIn(lay, data) && LutIn(lay, data)
  }

  /** A read-only region that no stack word and no scratch byte overlaps. */
  ghost predicate Free(e: Env, base: int, size: int) {
    0 <= base && base + size <= B32 && NoOverlap(e, base, size)
  }

  ghost predicate NoOverlap(e: Env, base: int, size: int) {
    forall a :: base <= a < base + size ==> !e.InSlots(a) && !e.InCheck(a)
  }

  ghost predicate Clear(e: Env) {
    && Free(e, e.lay.sameResult, 8) && Free(e, e.lay.zero8, 256)
    && Free(e, e.lay.slt1, 8) && Free(e, e.lay.sltu1, 8) && Free(e, e.lay.or1, 4)
    && Free(e, e.lay.lut, LUT_SIZE) && e.lay.lut % 4 == 0
  }

  /** What every macro relies on. */
  ghost predicate Ready(e: Env, v: View) {
    e.Ok() && Clear(e) && v.regs[SP] == e.sp && TablesIn(e.lay, v.data)
  }

  lemma ReadByte(e: Env, v: View, rs1: Reg, base: int, size: int, k: int)
    requires Free(e, base, size) && 0 <= k < size && Get(v.regs, rs1) == base + k
    ensures LoadByte(e, v, rs1, 0) == Peek(v.data, base + k)
  {
  }

  lemma ReadSmall(e: Env, v: View, rs1: Reg, base: int, size: int, k: int)
    requires Free(e, base, size) && 0 <= k < size && Get(v.regs, rs1) == base + k
    ensures LoadByte(e, v, rs1, 0) == ByteEntry(v.data, base, 0, k)
  {
    ReadByte(e, v, rs1, base, size, k);
  }

  /** A byte of one of the tables inside the generated file. */
  lemma ReadLut(e: Env, v: View, rs1: Reg, base: int, j: Byte, i: Byte)
    requires Clear(e) && e.lay.lut <= base <= e.lay.lut + 0x2_0000
    requires Get(v.regs, rs1) == TableAddress(base, j, i)
    ensures LoadByte(e, v, rs1, 0) == ByteEntry(v.data, base, j, i)
  {
    ReadByte(e, v, rs1, e.lay.lut, LUT_SIZE, TableAddress(base, j, i) - e.lay.lut);
  }

  lemma ReadWordLut(e: Env, v: View, rs1: Reg, base: int, j: nat, i: Byte)
    requires Clear(e) && e.Ok() && j < 32
    requires base % 4 == 0 && e.lay.lut <= base && base + 32 * 256 * 4 <= e.lay.lut + LUT_SIZE
    requires Get(v.regs, rs1) == base + 4 * (0x100 * j + i)
    ensures LoadWord(e, v, rs1, 0) == Some(WordEntry(v.data, base, j, i))
  {
    ReadWord(e, v, rs1, base + 4 * (0x100 * j + i));
  }

  lemma ReadWord(e: Env, v: View, rs1: Reg, a: int)
    requires Get(v.regs, rs1) == a && a % 4 == 0 && !e.InSlots(a) && !e.InCheck(a)
    ensures LoadWord(e, v, rs1, 0) == Some(PeekWord(v.data, a))
  {
    hide PeekWord;
  }

  // ----- stepping through code -----

  /** Run the first instruction. */
  lemma Advance(e: Env, v: View, c: Code) returns (w: View, rest: Code)
    requires c.Then? && c.first.Do? && RunStep(e, v, c.first.i).Some?
    ensures w == RunStep(e, v, c.first.i).value && rest == c.rest && Run(e, v, c) == Run(e, w, rest)
  {
    w, rest := RunStep(e, v, c.first.i).value, c.rest;
  }

  /** Run the first part, whose outcome is known. */
  lemma Call(e: Env, v: View, c: Code, w: View) returns (rest: Code)
    requires c.Then? && Run(e, v, c.first) == Some(w)
    ensures rest == c.rest && Run(e, v, c) == Run(e, w, rest)
  {
    rest := c.rest;
  }

  lemma Last(e: Env, v: View, i: Instr)
    ensures Run(e, v, Do(i)) == RunStep(e, v, i)
  {
  }

  lemma Stop(e: Env, v: View)
    ensures Run(e, v, Nop) == Some(v)
  {
  }
}
