/**
 The RV32I operations from outside their definitions: arithmetic as the ISA manual words it, the bitwise operations and
 sign extensions bit by bit, the branch conditions by comparison of biased words, and loads after stores.
 */
module Rv32iLaws {
  import opened Options
  import opened MachineWords
  import opened WordBits
  import opened MinirvMachine
  import opened MinirvMacros
  import opened MinirvView
  import opened MinirvAccess
  import opened Rv32iValues
  import opened MinirvProgram

  /** Register 0 is zero, every other one holds what was last assigned to it. */
  lemma RegisterLaw(regs: Regs, rd: Reg, x: Word, r: Reg)
    ensures Get(regs, 0) == 0
    ensures Get(Set(regs, rd, x), r) == if r == 0 then 0 else if r == rd then x else Get(regs, r)
  {
  }

  /** `lui` puts its operand into the upper 20 bits. */
  lemma UpperLaw(imm20: int)
    ensures UpperPart(imm20) == imm20 * 0x1000 % 0x1_0000_0000
  {
    var q, r := imm20 / 0x10_0000, imm20 % 0x10_0000;
    DivModUnique(imm20 * 0x1000, B32, q, r * 0x1000);
  }

  /** The target of an indirect jump has its lowest bit cleared. */
  lemma JumpTargetLaw(x: Word)
    ensures EvenTarget(x) % 2 == 0 && x - 1 <= EvenTarget(x) <= x
  {
  }

  /** Adding 2^31 turns the signed order of words into the unsigned one. */
  function Biased(x: Word): Word { (x + 0x8000_0000) % 0x1_0000_0000 }

  lemma BiasedOrder(x: Word, y: Word)
    ensures Signed(x) < Signed(y) <==> Biased(x) < Biased(y)
  {
    assert Biased(x) == Signed(x) + 0x8000_0000 && Biased(y) == Signed(y) + 0x8000_0000;
  }

  lemma SubtractionLaw(x: Word, y: Word)
    ensures (AluValue(SUB, x, y) + y) % 0x1_0000_0000 == x
  {
    assert AluValue(SUB, x, y) == if x >= y then x - y else x - y + B32;
  }

  lemma SetLessThanLaw(x: Word, y: Word)
    ensures AluValue(SLT, x, y) == if Biased(x) < Biased(y) then 1 else 0
    ensures AluValue(SLTU, x, y) == if x < y then 1 else 0
  {
    BiasedOrder(x, y);
  }

  lemma BitwiseLaw(x: Word, y: Word, i: nat)
    ensures Bit(AluValue(AND, x, y), i) <==> Bit(x, i) && Bit(y, i)
    ensures Bit(AluValue(OR, x, y), i) <==> Bit(x, i) || Bit(y, i)
    ensures Bit(AluValue(XOR, x, y), i) <==> Bit(x, i) != Bit(y, i)
  {
    AndBit(x, y, i);
    OrBit(x, y, i);
    XorBit(x, y, i);
  }

  /** Logical shifts multiply modulo 2^32 and divide; the low five bits of `y` are the amount. */
  lemma LogicalShiftLaw(x: Word, y: Word)
    ensures AluValue(SLL, x, y) == x * Pow2(y % 32) % 0x1_0000_0000
    ensures AluValue(SRL, x, y) == x / Pow2(y % 32)
  {
    ShiftUpIsMul(x, y % 32);
    ShrIsDiv(x, y % 32);
  }

  lemma FloorTwice(z: int, p: nat)
    requires p > 0
    ensures z / 2 / p == z / (2 * p)
  {
    var a, b := z / 2, z % 2;
    var c, d := a / p, a % p;
    assert z == 2 * a + b && a == c * p + d;
    assert c * (2 * p) == 2 * (c * p);
    DivModUnique(z, 2 * p, c, 2 * d + b);
  }

  lemma {:induction false} HalvedIsFloor(z: int, k: nat)
    ensures Halved(z, k) == z / Pow2(k)
    decreases k
  {
    if k == 0 {
      assert z / 1 == z;
    } else {
      HalvedIsFloor(z / 2, k - 1);
      FloorTwice(z, Pow2(k - 1));
    }
  }

  lemma {:induction false} HalvedRange(z: int, k: nat)
    requires -0x8000_0000 <= z < 0x8000_0000
    ensures -0x8000_0000 <= Halved(z, k) < 0x8000_0000
    decreases k
  {
    if k != 0 {
      HalvedRange(z / 2, k - 1);
    }
  }

  lemma SignedUnsigned(z: int)
    requires -0x8000_0000 <= z < 0x8000_0000
    ensures Signed(Unsigned(z)) == z
  {
    assert Unsigned(z) == if z >= 0 then z else z + B32;
  }

  /** The arithmetic shift divides the signed value, rounding down. */
  lemma ArithmeticShiftLaw(x: Word, y: Word)
    ensures Signed(AluValue(SRA, x, y)) == Signed(x) / Pow2(y % 32)
  {
    HalvedIsFloor(Signed(x), y % 32);
    HalvedRange(Signed(x), y % 32);
    SignedUnsigned(Halved(Signed(x), y % 32));
  }

  /** Each branch and its opposite. */
  lemma BranchLaw(x: Word, y: Word)
    ensures Taken(BEQ, x, y) <==> AluValue(SUB, x, y) == 0
    ensures Taken(BLT, x, y) <==> Biased(x) < Biased(y)
    ensures Taken(BLTU, x, y) <==> x < y
    ensures Taken(BNE, x, y) == !Taken(BEQ, x, y) && Taken(BGE, x, y) == !Taken(BLT, x, y)
    ensures Taken(BGEU, x, y) == !Taken(BLTU, x, y)
  {
    BiasedOrder(x, y);
    SubtractionLaw(x, y);
  }

  // ----- loads and stores -----

  lemma {:induction false} PairBit(h: nat, l: nat, k: nat, i: nat)
    requires l < Pow2(k)
    ensures Bit(ShiftUp(h, k) + l, i) <==> if i < k then Bit(l, i) else Bit(h, i - k)
  {
    if k != 0 {
      HalveSum(h, l, k);
      if i != 0 {
        PairBit(h, l / 2, k - 1, i - 1);
      }
    }
  }

  lemma {:induction false} OnesBit(n: nat, i: nat)
    ensures Bit(Pow2(n) - 1, i) <==> i < n
  {
    if n == 0 {
      BitZero(i);
    } else {
      assert (Pow2(n) - 1) / 2 == Pow2(n - 1) - 1 && (Pow2(n) - 1) % 2 == 1;
      if i != 0 {
        OnesBit(n - 1, i - 1);
      }
    }
  }

  lemma {:induction false} TopBit(x: nat, n: nat)
    requires x < Pow2(n + 1)
    ensures Bit(x, n) <==> x >= Pow2(n)
  {
    if n != 0 {
      TopBit(x / 2, n - 1);
    } else {
      assert Pow2(1) == 2;
    }
  }

  lemma UpperOnes(n: nat)
    requires n < 16
    ensures ShiftUp(Pow2(31 - n) - 1, n + 1) == B32 - 2 * Pow2(n)
  {
    hide ShiftUp;
    Pow2Values();
    ShiftUpPow(31 - n, n + 1);
    ShiftUpSum(Pow2(31 - n) - 1, 1, n + 1);
    assert Pow2(0) == 1;
    ShiftUpPow(0, n + 1);
  }

  /** A negative field extended is a run of ones above it. */
  lemma NegativeExtended(x: nat, n: nat)
    requires n < 16 && Pow2(n) <= x < 2 * Pow2(n) <= 0x1_0000
    ensures SignExtend(x, Pow2(n)) == ShiftUp(Pow2(31 - n) - 1, n + 1) + x
  {
    hide ShiftUp;
    UpperOnes(n);
    DivModUnique(x - 2 * Pow2(n), B32, -1, x - 2 * Pow2(n) + B32);
  }

  /** Sign extension copies bit `n` of a field of `n + 1` bits into all higher bits. */
  lemma SignExtendBits(x: nat, n: nat, i: nat)
    requires n < 16 && x < 2 * Pow2(n) <= 0x1_0000 && i < 32
    ensures Bit(SignExtend(x, Pow2(n)), i) <==> Bit(x, if i <= n then i else n)
  {
    hide ShiftUp;
    TopBit(x, n);
    if x < Pow2(n) {
      if i > n {
        HighBitsClear(x, n, i);
      }
    } else {
      hide SignExtend;
      hide Bit;
      NegativeExtended(x, n);
      PairBit(Pow2(31 - n) - 1, x, n + 1, i);
      if i > n {
        OnesBit(31 - n, i - n - 1);
      }
    }
  }

  lemma ByteIs(x: Word, k: nat)
    requires k < 4
    ensures ByteAt(x, k) == x / Pow2(8 * k) % 0x100
  {
    Pow2Small();
    Pow2Values();
    Pow2Add(16, 8);
    DivMul(x, 0x100, 0x100);
    DivMul(x, 0x1_0000, 0x100);
    if k == 3 {
      DivModUnique(x / 0x100_0000, 0x100, 0, x / 0x100_0000);
    }
  }

  /** A stored word comes back, as a word and byte by byte, the lowest byte first. */
  lemma StoredWordLoads(mem: Mem, a: int, x: Word, k: nat)
    requires k < 4
    ensures PeekWord(PokeWord(mem, a, x), a) == x
    ensures Peek(PokeWord(mem, a, x), a + k) == x / Pow2(8 * k) % 0x100
  {
    hide ByteAt;
    hide Join;
    hide Pow2;
    JoinBytes(x);
    ByteIs(x, k);
  }

  /** What `sh` stores, `lhu` loads back modulo 2^16. */
  lemma StoredHalfLoads(e: Env, rs2: Reg, rs1: Reg, rd: Reg, off: Imm, regs: Regs, mem: Defined)
    requires Supported(Sh(rs2, rs1, off)) && Supported(Lhu(rd, rs1, off))
    requires Perform(e, Sh(rs2, rs1, off), regs, mem).Some?
    ensures var o := Perform(e, Sh(rs2, rs1, off), regs, mem).value;
            && o.regs == regs
            && Perform(e, Lhu(rd, rs1, off), o.regs, o.mem)
            == Some(Outcome(Set(regs, rd, Get(regs, rs2) % 0x1_0000), o.mem))
  {
    var x: int := Get(regs, rs2);
    var a, b := Target(regs, rs1, off), Target(regs, rs1, off + 1);
    assert a != b;
    var low, high := x % 0x100, x / 0x100 % 0x100;
    QuotientRemainder(x, 0x100);
    QuotientRemainder(x / 0x100, 0x100);
    DivModUnique(x, 0x1_0000, x / 0x100 / 0x100, 0x100 * high + low);
  }

  /** What `sb` stores, `lbu` loads back modulo 2^8, and `lb` with its sign. */
  lemma StoredByteLoads(e: Env, rs2: Reg, rs1: Reg, rd: Reg, off: Imm, regs: Regs, mem: Defined)
    requires Supported(Base(Sb(rs2, rs1, off))) && Supported(Base(Lbu(rd, rs1, off))) && Supported(Lb(rd, rs1, off))
    requires Perform(e, Base(Sb(rs2, rs1, off)), regs, mem).Some?
    ensures var o := Perform(e, Base(Sb(rs2, rs1, off)), regs, mem).value;
            var b := Get(regs, rs2) % 0x100;
            && o.regs == regs
            && Perform(e, Base(Lbu(rd, rs1, off)), o.regs, o.mem) == Some(Outcome(Set(regs, rd, b), o.mem))
            && Perform(e, Lb(rd, rs1, off), o.regs, o.mem)
            == Some(Outcome(Set(regs, rd, (if b < 0x80 then b else b - 0x100) % 0x1_0000_0000), o.mem))
  {
  }
}
