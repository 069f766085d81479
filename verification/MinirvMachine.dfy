/** The machine that remains after macro expansion: RV32I cut down to eight instructions. */
module MinirvMachine {
  import opened Options
  import opened MachineWords

  type Byte = b: int | 0 <= b < 256
  type Word = Word32
  type Reg = r: int | 0 <= r < 32
  /** Twelve-bit signed immediates. */
  type Imm = i: int | -2048 <= i < 2048

  const ZERO: Reg := 0
  const SP: Reg := 2
  const GP: Reg := 3
  const TP: Reg := 4
  const S0: Reg := 8
  const S1: Reg := 9

  datatype Instr =
    | Add(rd: Reg, rs1: Reg, rs2: Reg)
    | Addi(rd: Reg, rs1: Reg, imm: Imm)
    | Lui(rd: Reg, imm20: int)
    | Lw(rd: Reg, rs1: Reg, imm: Imm)
    | Lbu(rd: Reg, rs1: Reg, imm: Imm)
    | Sw(rs2: Reg, rs1: Reg, imm: Imm)
    | Sb(rs2: Reg, rs1: Reg, imm: Imm)
    | Jalr(rd: Reg, rs1: Reg, imm: Imm)

  type Regs = s: seq<Word> | |s| == 32 witness seq(32, (i: nat) => 0 as Word)

  function Get(regs: Regs, r: Reg): Word {
    if r == ZERO then 0 else regs[r]
  }

  function Set(regs: Regs, r: Reg, x: Word): Regs {
    if r == ZERO then regs else regs[r := x]
  }

  /** Addition of a word and a word or signed immediate, modulo 2^32. */
  function Plus(x: Word, y: int): (z: Word)
    requires -B32 <= y < B32
  {
    if x + y < 0 then x + y + B32 else if x + y >= B32 then x + y - B32 else x + y
  }

  lemma PlusIsModulo(x: Word, y: int)
    requires -B32 <= y < B32
    ensures Plus(x, y) == (x + y) % B32
  {
  }

  function ByteAt(x: Word, k: nat): Byte
    requires k < 4
  {
    if k == 0 then x % 0x100 else if k == 1 then x / 0x100 % 0x100
    else if k == 2 then x / 0x100 / 0x100 % 0x100 else x / 0x100 / 0x100 / 0x100
  }

  /** Little endian. */
  function Join(b0: Byte, b1: Byte, b2: Byte, b3: Byte): Word {
    FromBytes4(b0, b1, b2, b3);
    FromBytes([b0, b1, b2, b3])
  }

  function FromBytes(s: seq<Byte>): nat {
    if s == [] then 0 else s[0] + 0x100 * FromBytes(s[1..])
  }

  lemma FromBytes4(b0: Byte, b1: Byte, b2: Byte, b3: Byte)
    ensures FromBytes([b0, b1, b2, b3]) == b0 + 0x100 * b1 + 0x1_0000 * b2 + 0x100_0000 * b3
  {
    assert [b3][1..] == [];
    assert FromBytes([b3]) == b3;
    assert [b2, b3][1..] == [b3];
    assert FromBytes([b2, b3]) == b2 + 0x100 * b3;
    assert [b1, b2, b3][1..] == [b2, b3];
    assert [b0, b1, b2, b3][1..] == [b1, b2, b3];
  }

  lemma JoinIs(b0: Byte, b1: Byte, b2: Byte, b3: Byte)
    ensures Join(b0, b1, b2, b3) == b0 + 0x100 * b1 + 0x1_0000 * b2 + 0x100_0000 * b3
  {
    FromBytes4(b0, b1, b2, b3);
  }

  lemma JoinBytes(x: Word)
    ensures Join(ByteAt(x, 0), ByteAt(x, 1), ByteAt(x, 2), ByteAt(x, 3)) == x
  {
    JoinIs(ByteAt(x, 0), ByteAt(x, 1), ByteAt(x, 2), ByteAt(x, 3));
  }

  /** Memory is total: bytes never written read as zero. */
  type Mem = map<int, Byte>

  function Peek(m: Mem, a: int): Byte {
    if a in m then m[a] else 0
  }

  function PeekWord(m: Mem, a: int): Word {
    Join(Peek(m, a), Peek(m, a + 1), Peek(m, a + 2), Peek(m, a + 3))
  }

  function PokeWord(m: Mem, a: int, x: Word): Mem {
    m[a := ByteAt(x, 0)][a + 1 := ByteAt(x, 1)][a + 2 := ByteAt(x, 2)][a + 3 := ByteAt(x, 3)]
  }

  datatype Machine = Machine(regs: Regs, mem: Mem)

  /** One instruction inside straight-line code; `None` on a misaligned word access and on a jump. */
  function Step(s: Machine, i: Instr): Option<Machine> {
    match i
    case Add(rd, rs1, rs2) => Some(s.(regs := Set(s.regs, rd, Plus(Get(s.regs, rs1), Get(s.regs, rs2)))))
    case Addi(rd, rs1, imm) => Some(s.(regs := Set(s.regs, rd, Plus(Get(s.regs, rs1), imm))))
    case Lui(rd, imm20) => Some(s.(regs := Set(s.regs, rd, UpperPart(imm20))))
    case Lw(rd, rs1, imm) =>
      var a := Plus(Get(s.regs, rs1), imm);
      if a % 4 != 0 then None else Some(s.(regs := Set(s.regs, rd, PeekWord(s.mem, a))))
    case Lbu(rd, rs1, imm) =>
      var a := Plus(Get(s.regs, rs1), imm);
      Some(s.(regs := Set(s.regs, rd, Peek(s.mem, a))))
    case Sw(rs2, rs1, imm) =>
      var a := Plus(Get(s.regs, rs1), imm);
      if a % 4 != 0 then None else Some(s.(mem := PokeWord(s.mem, a, Get(s.regs, rs2))))
    case Sb(rs2, rs1, imm) =>
      var a := Plus(Get(s.regs, rs1), imm);
      Some(s.(mem := s.mem[a := ByteAt(Get(s.regs, rs2), 0)]))
    case Jalr(_, _, _) => None
  }

  function UpperPart(imm20: int): Word {
    imm20 % 0x10_0000 * 0x1000
  }

  /** Straight-line code, as the macros nest it. */
  datatype Code = Nop | Do(i: Instr) | Then(first: Code, rest: Code)

  function Flatten(c: Code): seq<Instr> {
    match c
    case Nop => []
    case Do(i) => [i]
    case Then(a, b) => Flatten(a) + Flatten(b)
  }

  function Exec(s: Machine, c: Code): Option<Machine>
    decreases c
  {
    match c
    case Nop => Some(s)
    case Do(i) => Step(s, i)
    case Then(a, b) =>
      match Exec(s, a)
      case None => None
      case Some(t) => Exec(t, b)
  }
}
