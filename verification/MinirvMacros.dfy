/** The macros that expand the rest of RV32I into the eight base instructions. */
module MinirvMacros {
  import opened Options
  import opened MachineWords
  import opened MinirvMachine

  /** Where the linker puts the tables and the scratch array. */
  datatype Layout = Layout(sameResult: Word, zero8: Word, slt1: Word, sltu1: Word, or1: Word, lut: Word, check: Word)
  {
    function And8(): int { lut }
    function Or8(): int { And8() + 0x1_0000 }
    function Xor8(): int { Or8() + 0x1_0000 }
    function Sll8(): int { Xor8() + 0x1_0000 }
    function Srl8(): int { Sll8() + 32 * 256 * 4 }
    function Sra8(): int { Srl8() + 32 * 256 * 4 }
  }

  // ----- variables below the stack pointer -----

  const VAR_A := 4
  const VAR_B := 5
  const VAR_C := 6
  const VAR_D := 7

  type VarNumber = n: int | 1 <= n <= 7 witness 1

  function Var(n: VarNumber, k: nat): Imm
    requires k < 4
  {
    -4 * n + k
  }

  function Push(r: Reg, n: VarNumber): Code { Do(Sw(r, SP, Var(n, 0))) }

  function Pop(r: Reg, n: VarNumber): Code { Do(Lw(r, SP, Var(n, 0))) }

  function Then3(a: Code, b: Code, c: Code): Code { Then(a, Then(b, c)) }

  function Then4(a: Code, b: Code, c: Code, d: Code): Code { Then(a, Then3(b, c, d)) }

  function Then5(a: Code, b: Code, c: Code, d: Code, e: Code): Code { Then(a, Then4(b, c, d, e)) }

  function Then6(a: Code, b: Code, c: Code, d: Code, e: Code, f: Code): Code { Then(a, Then5(b, c, d, e, f)) }

  // ----- pseudo-instructions -----

  function Hi(addr: int): int { (addr + 0x800) / 0x1000 }

  function Lo(addr: int): Imm { (addr + 0x800) % 0x1000 - 0x800 }

  function La(r: Reg, addr: int): Code { Then(Do(Lui(r, Hi(addr))), Do(Addi(r, r, Lo(addr)))) }

  function Mv(rd: Reg, rs1: Reg): Code { Do(Addi(rd, rs1, 0)) }

  function Li(rd: Reg, imm: Imm): Code { Do(Addi(rd, ZERO, imm)) }

  // ----- bytes and shifts by constants -----

  function GetByte(rd: Reg, rs1: Reg, k: nat): Code
    requires k < 4
  {
    Then(Do(Sw(rs1, SP, Var(VAR_C, 0))), Do(Lbu(rd, SP, Var(VAR_C, k))))
  }

  /** `sh rs, off(base)` */
  function StoreHalf(rs: Reg, base: Reg, off: Imm): Code
    requires off < 2047
  {
    Then3(Do(Sb(rs, base, off)), GetByte(TP, rs, 1), Do(Sb(TP, base, off + 1)))
  }

  function Double(rd: Reg, n: nat): Code {
    if n == 0 then Nop else Then(Do(Add(rd, rd, rd)), Double(rd, n - 1))
  }

  function Slli(rd: Reg, rs1: Reg, imm: nat): Code
    requires imm < 32
    decreases imm
  {
    if imm == 0 then
      if rd != rs1 then Mv(rd, rs1) else Nop
    else if imm >= 24 then
      Then4(Do(Sw(ZERO, SP, Var(VAR_A, 0))), Do(Sb(rs1, SP, Var(VAR_A, 3))), Do(Lw(rd, SP, Var(VAR_A, 0))),
            Slli(rd, rd, imm - 24))
    else if imm >= 16 then
      Then4(Do(Sw(ZERO, SP, Var(VAR_A, 0))), StoreHalf(rs1, SP, Var(VAR_A, 2)), Do(Lw(rd, SP, Var(VAR_A, 0))),
            Slli(rd, rd, imm - 16))
    else
      Then(Do(Add(rd, rs1, rs1)), Double(rd, imm - 1))
  }

  function Msb(rd: Reg, rs1: Reg): Code {
    Then3(GetByte(rd, rs1, 3), Slli(rd, rd, 1), GetByte(rd, rd, 1))
  }

  // ----- subtraction and comparison -----

  function NotByte(k: nat): Code
    requires k < 4
  {
    Then4(Do(Lbu(GP, SP, Var(VAR_C, k))), Do(Add(GP, GP, TP)), Do(Lbu(GP, GP, 0)), Do(Sb(GP, SP, Var(VAR_D, k))))
  }

  function Not(lay: Layout, rd: Reg, rs1: Reg): Code {
    Then4(Push(GP, 3), Do(Sw(rs1, SP, Var(VAR_C, 0))), La(TP, lay.Xor8() + 0xff * 0x100),
          Then6(NotByte(3), NotByte(2), NotByte(1), NotByte(0), Pop(GP, 3), Do(Lw(rd, SP, Var(VAR_D, 0)))))
  }

  function Sub(lay: Layout, rd: Reg, rs1: Reg, rs2: Reg): Code {
    Then3(Not(lay, TP, rs2), Do(Add(rd, rs1, TP)), Do(Addi(rd, rd, 1)))
  }

  function SltIndex(lay: Layout): Code {
    Then3(Then(Msb(GP, S0), Slli(GP, GP, 1)),
          Then3(Msb(TP, S1), Do(Add(GP, GP, TP)), Slli(GP, GP, 1)),
          Then3(Sub(lay, TP, S0, S1), Msb(TP, TP), Do(Add(GP, GP, TP))))
  }

  function SltTemplate(lay: Layout, table: Word, rd: Reg, rs1: Reg, rs2: Reg): Code {
    Then3(Then5(Push(S0, 1), Push(S1, 2), Do(Sw(rs2, SP, Var(VAR_A, 0))), Mv(S0, rs1), Do(Lw(S1, SP, Var(VAR_A, 0)))),
          SltIndex(lay),
          Then5(La(TP, table), Do(Add(TP, TP, GP)), Pop(S1, 2), Pop(S0, 1), Do(Lbu(rd, TP, 0))))
  }

  // ----- bitwise operations -----

  function LogicByte(tableReg: Reg, k: nat): Code
    requires k < 4
  {
    Then4(Do(Lbu(TP, SP, Var(VAR_A, k))), Do(Sb(TP, SP, Var(VAR_D, 1))),
          Do(Lbu(TP, SP, Var(VAR_B, k))),
          Then5(Do(Sb(TP, SP, Var(VAR_D, 0))), Do(Lw(TP, SP, Var(VAR_D, 0))), Do(Add(TP, tableReg, TP)),
                Do(Lbu(TP, TP, 0)), Do(Sb(TP, SP, Var(VAR_C, k)))))
  }

  /** The operands for which the macro stops the assembler. */
  predicate LogicAborts(rd: Reg, rs1: Reg, rs2: Reg) {
    rd != ZERO && (SP in {rd, rs1, rs2} || GP in {rd, rs1, rs2} || TP in {rd, rs1})
  }

  function Logic(table: int, rd: Reg, rs1: Reg, rs2: Reg): Code {
    if rd == ZERO then Nop
    else
      Then3(Then4(Do(Sw(rs1, SP, Var(VAR_A, 0))), Do(Sw(rs2, SP, Var(VAR_B, 0))), La(rd, table),
                  Do(Sw(ZERO, SP, Var(VAR_D, 0)))),
            Then4(LogicByte(rd, 3), LogicByte(rd, 2), LogicByte(rd, 1), LogicByte(rd, 0)),
            Do(Lw(rd, SP, Var(VAR_C, 0))))
  }

  // ----- equality and branches -----

  function CheckByteSame(table: Reg, rd: Reg, k: nat): Code
    requires k < 4
  {
    Then4(Do(Lbu(rd, SP, Var(VAR_A, k))), Do(Add(TP, table, rd)), Do(Addi(rd, ZERO, 1)),
          Then5(Do(Sb(rd, TP, 0)), Do(Lbu(rd, SP, Var(VAR_B, k))), Do(Add(rd, table, rd)), Do(Sb(ZERO, rd, 0)),
                Do(Lbu(rd, TP, 0))))
  }

  function Seq(lay: Layout, rd: Reg, rs1: Reg, rs2: Reg): Code {
    Then3(Then5(Do(Sw(rs1, SP, Var(VAR_A, 0))), Do(Sw(rs2, SP, Var(VAR_B, 0))), Push(S0, 1), Push(S1, 2),
                La(S0, lay.check)),
          Then(CheckByteSame(S0, GP, 0),
            Then6(CheckByteSame(S0, S1, 1), Do(Add(GP, GP, S1)), CheckByteSame(S0, S1, 2), Do(Add(GP, GP, S1)),
                  CheckByteSame(S0, S1, 3), Do(Add(GP, GP, S1)))),
          Then5(La(TP, lay.sameResult), Do(Add(TP, TP, GP)), Do(Lbu(rd, TP, 0)), Pop(S1, 2), Pop(S0, 1)))
  }

  function CheckByteZero(table: Reg, rd: Reg, k: nat): Code
    requires k < 4
  {
    Then3(Do(Lbu(rd, SP, Var(VAR_A, k))), Do(Add(rd, table, rd)), Do(Lbu(rd, rd, 0)))
  }

  function Seqz(lay: Layout, rd: Reg, rs1: Reg): Code {
    Then3(Then3(Do(Sw(rs1, SP, Var(VAR_A, 0))), Push(S0, 1), La(S0, lay.zero8)),
          Then(CheckByteZero(S0, GP, 0),
            Then6(CheckByteZero(S0, TP, 1), Do(Add(GP, GP, TP)), CheckByteZero(S0, TP, 2), Do(Add(GP, GP, TP)),
                  CheckByteZero(S0, TP, 3), Do(Add(GP, GP, TP)))),
          Then4(La(TP, lay.sameResult), Do(Add(TP, TP, GP)), Do(Lbu(rd, TP, 0)), Pop(S0, 1)))
  }

  /** Leaves in `tp` the address to jump to, chosen by the 0 or 1 in `tp`. */
  function BranchResolve(target: Word, targetIsHigh: bool, notTaken: Word): Code {
    var high, low := if targetIsHigh then target else notTaken, if targetIsHigh then notTaken else target;
    Then5(Slli(TP, TP, 2), Do(Add(TP, SP, TP)),
          Then(La(GP, high), Do(Sw(GP, SP, Var(VAR_A, 0)))), Then(La(GP, low), Do(Sw(GP, SP, Var(VAR_B, 0)))),
          Do(Lw(TP, TP, -4 * VAR_B)))
  }

  datatype Cond = BEQ | BNE | BLT | BGE | BLTU | BGEU

  /** `tp := 0` exactly when `rs2 > 0`, else 1. */
  function NotPositive(lay: Layout, rs2: Reg): Code {
    Then6(Msb(GP, rs2), Do(Addi(TP, rs2, -1)), Msb(TP, TP), Do(Add(GP, GP, TP)), La(TP, lay.or1),
          Then(Do(Add(TP, GP, TP)), Do(Lbu(TP, TP, 0))))
  }

  /** The bit computed before `branch_resolve`, and whether the target is taken on 1. */
  function BranchBit(lay: Layout, c: Cond, rs1: Reg, rs2: Reg): (Code, bool) {
    match c
    case BEQ => (EqualBit(lay, rs1, rs2), true)
    case BNE => (EqualBit(lay, rs1, rs2), false)
    case BLT =>
      if rs2 == ZERO then (Msb(TP, rs1), true)
      else if rs1 == ZERO then (NotPositive(lay, rs2), false)
      else (SltTemplate(lay, lay.slt1, TP, rs1, rs2), true)
    case BGE =>
      if rs1 == ZERO then (NotPositive(lay, rs2), true) else (SltTemplate(lay, lay.slt1, TP, rs1, rs2), false)
    case BLTU => (SltTemplate(lay, lay.sltu1, TP, rs1, rs2), true)
    case BGEU => (SltTemplate(lay, lay.sltu1, TP, rs1, rs2), false)
  }

  function EqualBit(lay: Layout, rs1: Reg, rs2: Reg): Code {
    if rs2 == ZERO then Seqz(lay, TP, rs1)
    else if rs1 == ZERO then Seqz(lay, TP, rs2)
    else Seq(lay, TP, rs1, rs2)
  }

  // ----- shifts -----

  function GetShamt(lay: Layout, rd: Reg, rs1: Reg): Code {
    Then5(Do(Sb(rs1, SP, Var(VAR_B, 0))), Do(Lbu(rd, SP, Var(VAR_B, 0))), La(TP, lay.And8() + 0x1f * 0x100),
          Do(Add(rd, rd, TP)), Do(Lbu(rd, rd, 0)))
  }

  function ShiftByte(base: Reg, k: nat): Code
    requires k < 4
  {
    Then4(Do(Lbu(TP, SP, Var(VAR_A, k))), Slli(TP, TP, 2), Do(Add(TP, base, TP)), Do(Lw(TP, TP, 0)))
  }

  /** `s0 :=` the row of the table for the shift amount in `rs2`. */
  function TableRow(lay: Layout, table: int, rs2: Reg): Code {
    Then6(GetShamt(lay, S0, rs2), Do(Sw(ZERO, SP, Var(VAR_B, 0))), Do(Sb(S0, SP, Var(VAR_B, 1))),
          Do(Lw(S0, SP, Var(VAR_B, 0))), Slli(S0, S0, 2), Then(La(TP, table), Do(Add(S0, S0, TP))))
  }

  function Sll(lay: Layout, rd: Reg, rs1: Reg, rs2: Reg): Code {
    Then6(Then3(Push(S0, 1), Do(Sw(rs1, SP, Var(VAR_A, 0))), TableRow(lay, lay.Sll8(), rs2)),
          Then4(Do(Sw(ZERO, SP, Var(VAR_B, 0))), ShiftByte(S0, 3), Do(Sb(TP, SP, Var(VAR_B, 3))),
                Do(Lw(GP, SP, Var(VAR_B, 0)))),
          Then4(ShiftByte(S0, 2), StoreHalf(TP, SP, Var(VAR_B, 2)), Do(Lw(TP, SP, Var(VAR_B, 0))), Do(Add(GP, GP, TP))),
          Then3(ShiftByte(S0, 1), Slli(TP, TP, 8), Do(Add(GP, GP, TP))),
          ShiftByte(S0, 0),
          Then(Pop(S0, 1), Do(Add(rd, GP, TP))))
  }

  datatype Amount = InReg(r: Reg) | Const(n: nat)

  function ShiftRight(lay: Layout, rd: Reg, rs1: Reg, amount: Amount, arith: bool): Code {
    if amount == Const(24) then
      if arith then
        Then3(Then3(Do(Sw(rs1, SP, Var(VAR_A, 0))), La(TP, lay.Sra8() + 24 * 0x400), Do(Lbu(rd, SP, Var(VAR_A, 3)))),
              Slli(rd, rd, 2), Then(Do(Add(TP, TP, rd)), Do(Lw(rd, TP, 0))))
      else
        GetByte(rd, rs1, 3)
    else
      Then6(Then3(Push(S0, 1), Do(Sw(rs1, SP, Var(VAR_A, 0))),
                  match amount
                  case InReg(rs2) => TableRow(lay, lay.Srl8(), rs2)
                  case Const(n) => La(S0, lay.Srl8() + n * 0x400)),
            Then3(Then(ShiftByte(S0, 2), Do(Sw(TP, SP, Var(VAR_B, 0)))),
                  Then(ShiftByte(S0, 1), Do(Sw(TP, SP, Var(VAR_C, 0)))),
                  Then(ShiftByte(S0, 0), Do(Sw(TP, SP, Var(VAR_D, 0))))),
            LowBytes(),
            if arith then Then(La(TP, lay.Sra8() - lay.Srl8()), Do(Add(S0, S0, TP))) else Nop,
            ShiftByte(S0, 3),
            Then(Pop(S0, 1), Do(Add(rd, GP, TP))))
  }

  /** Bytes 0 to 2 of the shifted word, collected from the three looked-up words. */
  function LowBytes(): Code {
    Then4(Then6(Do(Lbu(GP, SP, Var(VAR_B, 1))), Do(Lbu(TP, SP, Var(VAR_C, 2))), Do(Add(GP, GP, TP)),
                Do(Lbu(TP, SP, Var(VAR_D, 3))), Do(Add(GP, GP, TP)), Do(Sw(GP, SP, Var(VAR_D, 0)))),
          Then4(Do(Lbu(GP, SP, Var(VAR_B, 2))), Do(Lbu(TP, SP, Var(VAR_C, 3))), Do(Add(GP, GP, TP)),
                Do(Sb(GP, SP, Var(VAR_D, 1)))),
          Then(Do(Lbu(GP, SP, Var(VAR_B, 3))), Do(Sb(GP, SP, Var(VAR_D, 2)))),
          Do(Lw(GP, SP, Var(VAR_D, 0))))
  }

  // ----- loads narrower than a word -----

  function LoadSignedByte(lay: Layout, rd: Reg, rs1: Reg, off: Imm): Code {
    Then5(Do(Sw(ZERO, SP, Var(VAR_A, 0))), Do(Lbu(rd, rs1, off)), Do(Sb(rd, SP, Var(VAR_A, 3))),
          Do(Lw(rd, SP, Var(VAR_A, 0))), ShiftRight(lay, rd, rd, Const(24), true))
  }

  function LoadHalf(rd: Reg, rs1: Reg, off: Imm): Code
    requires off < 2047
  {
    Then6(Do(Sw(ZERO, SP, Var(VAR_A, 0))), Do(Lbu(TP, rs1, off + 1)), Do(Sb(TP, SP, Var(VAR_A, 1))),
          Do(Lw(TP, SP, Var(VAR_A, 0))), Do(Lbu(rd, rs1, off)), Do(Add(rd, rd, TP)))
  }

  function LoadSignedHalf(lay: Layout, rd: Reg, rs1: Reg, off: Imm): Code
    requires off < 2047
  {
    Then3(Then4(Do(Sw(ZERO, SP, Var(VAR_A, 0))), Do(Lbu(GP, rs1, off + 1)), Do(Sb(GP, SP, Var(VAR_A, 3))),
                Do(Lw(GP, SP, Var(VAR_A, 0)))),
          ShiftRight(lay, GP, GP, Const(16), true),
          Then(Do(Lbu(rd, rs1, off)), Do(Add(rd, rd, GP))))
  }
}
