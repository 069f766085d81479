/** The instruction encoders of the test framework and the operand decoder of the emulator: inverse to each other. */
module InstructionCodec {
  import opened MachineWords
  import opened Rv32iValues

  type Word = Word32

  // ----- encoders -----

  /** `maskSignedImmediate` */
  function MaskSigned(value: int, width: nat): Word
    requires width <= 32
  {
    Pow2Values();
    Pow2Monotone(width, 32);
    AndMaskSmall(value % B32, width);
    BitAnd(value % B32, Pow2(width) - 1)
  }

  lemma AndMaskSmall(x: nat, k: nat)
    ensures BitAnd(x, Pow2(k) - 1) == x % Pow2(k) && x % Pow2(k) < Pow2(k)
  {
    AndMask(x, k);
  }

  function Field(x: Word, width: nat, at: nat): Word
    requires width <= 32 && at <= 32
  {
    Shl(MaskSigned(x, width), at)
  }

  function EncodeR(funct7: Word, rs2: Word, rs1: Word, funct3: Word, rd: Word, opcode: Word): Word {
    Or32(Or32(Or32(Or32(Or32(Field(funct7, 7, 25), Field(rs2, 5, 20)), Field(rs1, 5, 15)), Field(funct3, 3, 12)),
              Field(rd, 5, 7)), Field(opcode, 7, 0))
  }

  function EncodeI(imm: int, rs1: Word, funct3: Word, rd: Word, opcode: Word): Word {
    Or32(Or32(Or32(Or32(Shl(MaskSigned(imm, 12), 20), Field(rs1, 5, 15)), Field(funct3, 3, 12)),
              Field(rd, 5, 7)), Field(opcode, 7, 0))
  }

  function EncodeS(imm: int, rs2: Word, rs1: Word, funct3: Word, opcode: Word): Word {
    var imm12 := MaskSigned(imm, 12);
    var immHi := MaskSigned(Shr32(imm12, 5), 7);
    var immLo := MaskSigned(imm12, 5);
    Or32(Or32(Or32(Or32(Or32(Shl(immHi, 25), Field(rs2, 5, 20)), Field(rs1, 5, 15)), Field(funct3, 3, 12)),
              Shl(immLo, 7)), Field(opcode, 7, 0))
  }

  datatype Result = Encoded(w: Word) | NotAligned

  function EncodeB(offset: int, rs2: Word, rs1: Word, funct3: Word, opcode: Word): Result {
    if offset % 2 != 0 then NotAligned
    else
      var imm13 := MaskSigned(offset, 13);
      var bit12 := MaskSigned(Shr32(imm13, 12), 1);
      var bit11 := MaskSigned(Shr32(imm13, 11), 1);
      var bits10To5 := MaskSigned(Shr32(imm13, 5), 6);
      var bits4To1 := MaskSigned(Shr32(imm13, 1), 4);
      Encoded(Or32(Or32(Or32(Or32(Or32(Or32(Or32(Shl(bit12, 31), Shl(bits10To5, 25)), Field(rs2, 5, 20)),
                Field(rs1, 5, 15)), Field(funct3, 3, 12)), Shl(bits4To1, 8)), Shl(bit11, 7)), Field(opcode, 7, 0)))
  }

  // ----- the decoder -----

  /** `BITS(x, hi, lo)` */
  function Bits(x: Word, hi: nat, lo: nat): nat
    requires lo <= hi < 32
  {
    BitAnd(Shr(x, lo), Pow2(hi - lo + 1) - 1)
  }

  /** `SEXT(x, len)`, a 64-bit value. */
  function Sext(x: nat, len: nat): Word64
    requires 1 <= len <= 32
  {
    var y: int := x % Pow2(len);
    (if y < Pow2(len - 1) then y else y - Pow2(len)) % B64
  }

  function Shl64(x: Word64, k: nat): Word64 { ShiftUp(x, k) % B64 }

  function Or64(x: Word64, y: Word64): Word64 {
    Pow2Values();
    BitwiseBound(x, y, 64);
    BitOr(x, y)
  }

  /** Storing into a 32-bit variable. */
  function Low32(x: Word64): Word { x % B32 }

  function Rd(i: Word): nat { Bits(i, 11, 7) }

  function Rs1(i: Word): nat { Bits(i, 19, 15) }

  function Rs2(i: Word): nat { Bits(i, 24, 20) }

  function ImmI(i: Word): Word { Low32(Sext(Bits(i, 31, 20), 12)) }

  function Opcode(i: Word): nat { Bits(i, 6, 0) }

  function Funct3(i: Word): nat { Bits(i, 14, 12) }

  function Funct7(i: Word): nat { Bits(i, 31, 25) }

  function BitsWord(i: Word, hi: nat, lo: nat): Word64
    requires lo <= hi < 32
  {
    BitsValue(i, hi, lo);
    Bits(i, hi, lo)
  }

  function ImmS(i: Word): Word {
    Low32(Or64(Shl64(Sext(Bits(i, 31, 25), 7), 5), BitsWord(i, 11, 7)))
  }

  function ImmB(i: Word): Word {
    Low32(Or64(Or64(Or64(Shl64(Sext(Bits(i, 31, 31), 1), 12), Shl64(BitsWord(i, 30, 25), 5)),
                    Shl64(BitsWord(i, 11, 8), 1)), Shl64(BitsWord(i, 7, 7), 11)))
  }

  // ----- arithmetic of fields -----

  lemma Pow2Table()
    ensures Pow2(0) == 1 && Pow2(1) == 2 && Pow2(3) == 8 && Pow2(4) == 16 && Pow2(5) == 32 && Pow2(6) == 64
    ensures Pow2(7) == 128 && Pow2(8) == 0x100 && Pow2(11) == 0x800 && Pow2(12) == 0x1000 && Pow2(13) == 0x2000
    ensures Pow2(15) == 0x8000 && Pow2(20) == 0x10_0000 && Pow2(25) == 0x200_0000
    ensures Pow2(30) == 0x4000_0000 && Pow2(31) == 0x8000_0000
  {
    Pow2Small();
    assert Pow2(3) == 2 * Pow2(2);
    assert Pow2(5) == 2 * Pow2(4);
    assert Pow2(6) == 2 * Pow2(5);
    assert Pow2(7) == 2 * Pow2(6);
    Pow2Add(8, 3);
    Pow2Add(8, 4);
    Pow2Add(8, 5);
    Pow2Add(8, 7);
    Pow2Add(15, 5);
    Pow2Add(20, 5);
    Pow2Add(15, 15);
    Pow2Values();
  }

  lemma BitsValue(x: Word, hi: nat, lo: nat)
    requires lo <= hi < 32
    ensures Bits(x, hi, lo) == x / Pow2(lo) % Pow2(hi - lo + 1)
    ensures Bits(x, hi, lo) < Pow2(hi - lo + 1) <= B32
  {
    ShrIsDiv(x, lo);
    AndMaskSmall(Shr(x, lo), hi - lo + 1);
    Pow2Monotone(hi - lo + 1, 32);
    Pow2Values();
  }

  lemma FieldValue(x: int, width: nat, at: nat)
    requires width + at <= 32
    ensures MaskSigned(x, width) == x % B32 % Pow2(width) < Pow2(width)
    ensures Shl(MaskSigned(x, width), at) == MaskSigned(x, width) * Pow2(at)
  {
    AndMaskSmall(x % B32, width);
    PlacedValue(MaskSigned(x, width), width, at);
  }

  lemma PlacedValue(y: Word, width: nat, at: nat)
    requires y < Pow2(width) && width + at <= 32
    ensures Shl(y, at) == y * Pow2(at)
  {
    hide ShiftUp;
    hide Pow2;
    ShiftUpIsMul(y, at);
    ShiftUpBound(y, width, at);
    Pow2Monotone(width + at, 32);
    Pow2Values();
  }

  /** An instruction word from its six fields. */
  function Assemble(f7: nat, rs2: nat, rs1: nat, f3: nat, rd: nat, op: nat): Word
    requires f7 < 128 && rs2 < 32 && rs1 < 32 && f3 < 8 && rd < 32 && op < 128
  {
    f7 * 0x200_0000 + rs2 * 0x10_0000 + rs1 * 0x8000 + f3 * 0x1000 + rd * 128 + op
  }

  lemma OrAdds(x: Word, y: Word, k: nat, p: nat)
    requires Pow2(k) == p && x % p == 0 && y < p
    ensures Or32(x, y) == x + y
  {
    OrDisjoint(x, y, k);
  }

  /** Joining the fields with `|`, left to right. */
  lemma OrFields(f7: nat, rs2: nat, rs1: nat, f3: nat, rd: nat, op: nat)
    requires f7 < 128 && rs2 < 32 && rs1 < 32 && f3 < 8 && rd < 32 && op < 128
    ensures var top: Word := f7 * 0x200_0000 + rs2 * 0x10_0000;
            Or32(Or32(Or32(Or32(top, rs1 * 0x8000), f3 * 0x1000), rd * 128), op) == Assemble(f7, rs2, rs1, f3, rd, op)
  {
    hide Or32;
    Pow2Table();
    var top: Word := f7 * 0x200_0000 + rs2 * 0x10_0000;
    OrAdds(top, rs1 * 0x8000, 20, 0x10_0000);
    OrAdds(top + rs1 * 0x8000, f3 * 0x1000, 15, 0x8000);
    OrAdds(top + rs1 * 0x8000 + f3 * 0x1000, rd * 128, 12, 0x1000);
    OrAdds(top + rs1 * 0x8000 + f3 * 0x1000 + rd * 128, op, 7, 128);
  }

  /** The fields of an assembled word. */
  lemma FieldsOf(f7: nat, rs2: nat, rs1: nat, f3: nat, rd: nat, op: nat)
    requires f7 < 128 && rs2 < 32 && rs1 < 32 && f3 < 8 && rd < 32 && op < 128
    ensures var w := Assemble(f7, rs2, rs1, f3, rd, op);
            && Rs2(w) == rs2 && Rs1(w) == rs1 && Rd(w) == rd && Opcode(w) == op && Funct3(w) == f3 && Funct7(w) == f7
            && Bits(w, 31, 20) == f7 * 32 + rs2
            && Bits(w, 31, 31) == f7 / 64 && Bits(w, 30, 25) == f7 % 64
            && Bits(w, 11, 8) == rd / 2 && Bits(w, 7, 7) == rd % 2
  {
    hide Bits;
    hide Pow2;
    hide Assemble;
    RegisterBits(f7, rs2, rs1, f3, rd, op);
    ImmediateBits(f7, rs2, rs1, f3, rd, op);
  }

  lemma RegisterBits(f7: nat, rs2: nat, rs1: nat, f3: nat, rd: nat, op: nat)
    requires f7 < 128 && rs2 < 32 && rs1 < 32 && f3 < 8 && rd < 32 && op < 128
    ensures var w := Assemble(f7, rs2, rs1, f3, rd, op);
            && Rs2(w) == rs2 && Rs1(w) == rs1 && Rd(w) == rd && Opcode(w) == op && Funct3(w) == f3
  {
    hide Bits;
    hide Pow2;
    var w := Assemble(f7, rs2, rs1, f3, rd, op);
    Pow2Table();
    BitsValue(w, 24, 20);
    BitsValue(w, 19, 15);
    BitsValue(w, 11, 7);
    BitsValue(w, 6, 0);
    BitsValue(w, 14, 12);
    Divisions(f7, rs2, rs1, f3, rd, op);
  }

  lemma ImmediateBits(f7: nat, rs2: nat, rs1: nat, f3: nat, rd: nat, op: nat)
    requires f7 < 128 && rs2 < 32 && rs1 < 32 && f3 < 8 && rd < 32 && op < 128
    ensures var w := Assemble(f7, rs2, rs1, f3, rd, op);
            && Funct7(w) == f7 && Bits(w, 31, 20) == f7 * 32 + rs2
            && Bits(w, 31, 31) == f7 / 64 && Bits(w, 30, 25) == f7 % 64
            && Bits(w, 11, 8) == rd / 2 && Bits(w, 7, 7) == rd % 2
  {
    hide Bits;
    hide Pow2;
    var w := Assemble(f7, rs2, rs1, f3, rd, op);
    Pow2Table();
    BitsValue(w, 31, 25);
    BitsValue(w, 31, 20);
    BitsValue(w, 31, 31);
    BitsValue(w, 30, 25);
    BitsValue(w, 11, 8);
    BitsValue(w, 7, 7);
    Divisions(f7, rs2, rs1, f3, rd, op);
  }

  lemma Divisions(f7: nat, rs2: nat, rs1: nat, f3: nat, rd: nat, op: nat)
    requires f7 < 128 && rs2 < 32 && rs1 < 32 && f3 < 8 && rd < 32 && op < 128
    ensures var w := Assemble(f7, rs2, rs1, f3, rd, op);
            && w / 128 == f7 * 0x4_0000 + rs2 * 0x2000 + rs1 * 0x100 + f3 * 32 + rd
            && w / 0x100 == f7 * 0x2_0000 + rs2 * 0x1000 + rs1 * 128 + f3 * 16 + rd / 2
            && w / 0x1000 == f7 * 0x2000 + rs2 * 0x100 + rs1 * 8 + f3
            && w / 0x8000 == f7 * 0x400 + rs2 * 32 + rs1
            && w / 0x10_0000 == f7 * 32 + rs2
            && w / 0x200_0000 == f7 && w / 0x8000_0000 == f7 / 64
  {
  }

  // ----- round trips -----

  lemma MaskIs(x: Word, width: nat, p: nat)
    requires width <= 32 && Pow2(width) == p
    ensures MaskSigned(x, width) == x % p < p
  {
    hide BitAnd;
    hide Pow2;
    AndMaskSmall(x, width);
  }

  lemma FieldIs(x: Word, width: nat, at: nat, p: nat, q: nat)
    requires width + at <= 32 && Pow2(width) == p && Pow2(at) == q
    ensures Field(x, width, at) == x % p * q
  {
    hide MaskSigned;
    MaskIs(x, width, p);
    FieldValue(x, width, at);
  }

  lemma RegisterFields(rs2: Word, rs1: Word, f3: Word, rd: Word, op: Word)
    ensures Field(rs2, 5, 20) == rs2 % 32 * 0x10_0000 && Field(rs1, 5, 15) == rs1 % 32 * 0x8000
    ensures Field(f3, 3, 12) == f3 % 8 * 0x1000 && Field(rd, 5, 7) == rd % 32 * 128 && Field(op, 7, 0) == op % 128
  {
    hide Field;
    Pow2Table();
    FieldIs(rs2, 5, 20, 32, 0x10_0000);
    FieldIs(rs1, 5, 15, 32, 0x8000);
    FieldIs(f3, 3, 12, 8, 0x1000);
    FieldIs(rd, 5, 7, 32, 128);
    FieldIs(op, 7, 0, 128, 1);
  }

  lemma EncodeRIs(funct7: Word, rs2: Word, rs1: Word, funct3: Word, rd: Word, opcode: Word)
    ensures EncodeR(funct7, rs2, rs1, funct3, rd, opcode)
         == Assemble(funct7 % 128, rs2 % 32, rs1 % 32, funct3 % 8, rd % 32, opcode % 128)
  {
    hide Or32;
    hide Field;
    Pow2Table();
    RegisterFields(rs2, rs1, funct3, rd, opcode);
    TopField(funct7);
    OrAdds(funct7 % 128 * 0x200_0000, rs2 % 32 * 0x10_0000, 25, 0x200_0000);
    OrFields(funct7 % 128, rs2 % 32, rs1 % 32, funct3 % 8, rd % 32, opcode % 128);
  }

  lemma TopField(f7: Word)
    ensures Field(f7, 7, 25) == f7 % 128 * 0x200_0000
  {
    hide Field;
    Pow2Table();
    FieldIs(f7, 7, 25, 128, 0x200_0000);
  }

  /** Decoding an R-type word gives back all fields. */
  lemma DecodeEncodeR(funct7: Word, rs2: Word, rs1: Word, funct3: Word, rd: Word, opcode: Word)
    ensures var w := EncodeR(funct7, rs2, rs1, funct3, rd, opcode);
            && Funct7(w) == funct7 % 128 && Rs2(w) == rs2 % 32 && Rs1(w) == rs1 % 32
            && Funct3(w) == funct3 % 8 && Rd(w) == rd % 32 && Opcode(w) == opcode % 128
  {
    EncodeRIs(funct7, rs2, rs1, funct3, rd, opcode);
    FieldsOf(funct7 % 128, rs2 % 32, rs1 % 32, funct3 % 8, rd % 32, opcode % 128);
  }

  /** Values of a C `int32_t`. */
  type Int32 = x: int | -0x8000_0000 <= x < 0x8000_0000

  lemma Masked12(imm: int)
    ensures MaskSigned(imm, 12) == imm % 0x1000
  {
    Pow2Table();
    FieldValue(imm, 12, 20);
    assert imm % B32 % 0x1000 == imm % 0x1000;
  }

  lemma EncodeIIs(imm: int, rs1: Word, funct3: Word, rd: Word, opcode: Word)
    ensures EncodeI(imm, rs1, funct3, rd, opcode)
         == Assemble(imm % 0x1000 / 32, imm % 0x1000 % 32, rs1 % 32, funct3 % 8, rd % 32, opcode % 128)
  {
    hide Or32;
    hide Field;
    Pow2Table();
    Masked12(imm);
    FieldValue(imm, 12, 20);
    RegisterFields(0, rs1, funct3, rd, opcode);
    var i := imm % 0x1000;
    OrFields(i / 32, i % 32, rs1 % 32, funct3 % 8, rd % 32, opcode % 128);
    assert i / 32 * 0x200_0000 + i % 32 * 0x10_0000 == i * 0x10_0000;
  }

  /** A twelve-bit field read as a signed number. */
  function Signed12(f: nat): Word
    requires f < 0x1000
  {
    if f < 0x800 then f else f + B32 - 0x1000
  }

  lemma Sext12(f: nat)
    requires f < 0x1000
    ensures Low32(Sext(f, 12)) == Signed12(f)
  {
    Pow2Table();
  }

  lemma Signed12Exact(imm: Int32)
    ensures Signed12(imm % 0x1000) == imm % B32 <==> -0x800 <= imm < 0x800
  {
  }

  /** Decoding an I-type word gives back its fields, and the immediate exactly when it is in range. */
  lemma DecodeEncodeI(imm: Int32, rs1: Word, funct3: Word, rd: Word, opcode: Word)
    ensures var w := EncodeI(imm, rs1, funct3, rd, opcode);
            && Rs1(w) == rs1 % 32 && Funct3(w) == funct3 % 8 && Rd(w) == rd % 32 && Opcode(w) == opcode % 128
            && ImmI(w) == Signed12(imm % 0x1000)
            && (ImmI(w) == imm % B32 <==> -0x800 <= imm < 0x800)
  {
    hide Bits;
    hide Assemble;
    hide EncodeI;
    var i := imm % 0x1000;
    EncodeIIs(imm, rs1, funct3, rd, opcode);
    FieldsOf(i / 32, i % 32, rs1 % 32, funct3 % 8, rd % 32, opcode % 128);
    Sext12(i);
    Signed12Exact(imm);
  }

  /** The two halves of an S-type immediate in their places. */
  lemma SplitTwelve(i: Word)
    requires i < 0x1000
    ensures Shl(MaskSigned(Shr32(i, 5), 7), 25) == i / 32 * 0x200_0000
    ensures Shl(MaskSigned(i, 5), 7) == i % 32 * 128
  {
    hide MaskSigned;
    Pow2Table();
    ShrIsDiv(i, 5);
    MaskIs(Shr32(i, 5), 7, 128);
    MaskIs(i, 5, 32);
    PlacedValue(i / 32, 7, 25);
    PlacedValue(i % 32, 5, 7);
  }

  lemma EncodeSIs(imm: int, rs2: Word, rs1: Word, funct3: Word, opcode: Word)
    ensures EncodeS(imm, rs2, rs1, funct3, opcode)
         == Assemble(imm % 0x1000 / 32, rs2 % 32, rs1 % 32, funct3 % 8, imm % 0x1000 % 32, opcode % 128)
  {
    hide Or32;
    hide Field;
    hide MaskSigned;
    hide Shl;
    Pow2Table();
    Masked12(imm);
    var i: Word := imm % 0x1000;
    SplitTwelve(i);
    RegisterFields(rs2, rs1, funct3, 0, opcode);
    OrAdds(i / 32 * 0x200_0000, rs2 % 32 * 0x10_0000, 25, 0x200_0000);
    OrFields(i / 32, rs2 % 32, rs1 % 32, funct3 % 8, i % 32, opcode % 128);
  }

  lemma Or64Adds(x: Word64, y: Word64, k: nat, p: nat)
    requires Pow2(k) == p && x % p == 0 && y < p
    ensures Or64(x, y) == x + y
  {
    OrDisjoint(x, y, k);
  }

  lemma Shl64Value(x: Word64, k: nat, p: nat)
    requires Pow2(k) == p
    ensures Shl64(x, k) == x * p % B64
  {
    ShiftUpIsMul(x, k);
  }

  lemma JoinSigned12(hi: nat, lo: nat)
    requires hi < 128 && lo < 32
    ensures Low32(Or64(Shl64(Sext(hi, 7), 5), lo)) == Signed12(hi * 32 + lo)
  {
    hide Or64;
    hide Shl64;
    Pow2Table();
    var x: int := Sext(hi, 7);
    assert x == if hi < 64 then hi else hi - 128 + B64;
    Shl64Value(x, 5, 32);
    if hi < 64 {
      DivModUnique(x * 32, B64, 0, 32 * hi);
    } else {
      DivModUnique(x * 32, B64, 31, 32 * (hi - 128) + B64);
    }
    Or64Adds(Shl64(x, 5), lo, 5, 32);
  }

  /** Decoding an S-type word, whose immediate is split in two. */
  lemma DecodeEncodeS(imm: Int32, rs2: Word, rs1: Word, funct3: Word, opcode: Word)
    ensures var w := EncodeS(imm, rs2, rs1, funct3, opcode);
            && Rs2(w) == rs2 % 32 && Rs1(w) == rs1 % 32 && Funct3(w) == funct3 % 8 && Opcode(w) == opcode % 128
            && ImmS(w) == Signed12(imm % 0x1000)
            && (ImmS(w) == imm % B32 <==> -0x800 <= imm < 0x800)
  {
    hide Bits;
    var i := imm % 0x1000;
    EncodeSIs(imm, rs2, rs1, funct3, opcode);
    FieldsOf(i / 32, rs2 % 32, rs1 % 32, funct3 % 8, i % 32, opcode % 128);
    JoinSigned12(i / 32, i % 32);
    Signed12Exact(imm);
  }

  // ----- the scrambled B-type offset -----

  /** The four pieces of a thirteen-bit offset. */
  lemma SplitThirteen(i: Word)
    requires i < 0x2000
    ensures Shl(MaskSigned(Shr32(i, 12), 1), 31) == i / 0x1000 * 0x8000_0000
    ensures Shl(MaskSigned(Shr32(i, 5), 6), 25) == i / 32 % 64 * 0x200_0000
    ensures Shl(MaskSigned(Shr32(i, 1), 4), 8) == i / 2 % 16 * 0x100
    ensures Shl(MaskSigned(Shr32(i, 11), 1), 7) == i / 0x800 % 2 * 128
  {
    hide MaskSigned;
    Pow2Table();
    Piece(i, 12, 1, 31, 0x1000, 2, 0x8000_0000);
    Piece(i, 5, 6, 25, 32, 64, 0x200_0000);
    Piece(i, 1, 4, 8, 2, 16, 0x100);
    Piece(i, 11, 1, 7, 0x800, 2, 128);
  }

  lemma Piece(i: Word, from: nat, width: nat, at: nat, p: nat, q: nat, r: nat)
    requires width + at <= 32 && Pow2(from) == p && Pow2(width) == q && Pow2(at) == r
    ensures Shl(MaskSigned(Shr32(i, from), width), at) == i / p % q * r
  {
    hide MaskSigned;
    hide Shl;
    ShrIsDiv(i, from);
    MaskIs(Shr32(i, from), width, q);
    PlacedValue(i / p % q, width, at);
  }

  lemma EncodeBIs(offset: int, rs2: Word, rs1: Word, funct3: Word, opcode: Word)
    requires offset % 2 == 0
    ensures var i := offset % 0x2000;
            EncodeB(offset, rs2, rs1, funct3, opcode)
            == Encoded(Assemble(i / 0x1000 * 64 + i / 32 % 64, rs2 % 32, rs1 % 32, funct3 % 8,
                                i / 2 % 16 * 2 + i / 0x800 % 2, opcode % 128))
  {
    hide Or32;
    hide Field;
    hide MaskSigned;
    hide Shl;
    Masked13(offset);
    var i: Word := offset % 0x2000;
    SplitThirteen(i);
    RegisterFields(rs2, rs1, funct3, 0, opcode);
    OrBranch(i / 0x1000, i / 32 % 64, rs2 % 32, rs1 % 32, funct3 % 8, i / 2 % 16, i / 0x800 % 2, opcode % 128);
  }

  lemma Masked13(imm: int)
    ensures MaskSigned(imm, 13) == imm % 0x2000
  {
    Pow2Table();
    AndMaskSmall(imm % B32, 13);
    WordMod13(imm);
  }

  lemma WordMod13(imm: int)
    ensures imm % B32 % 0x2000 == imm % 0x2000
  {
    assert imm == imm / B32 * B32 + imm % B32;
  }

  lemma OrBranch(b12: nat, b10: nat, rs2: nat, rs1: nat, f3: nat, b4: nat, b11: nat, op: nat)
    requires b12 < 2 && b10 < 64 && rs2 < 32 && rs1 < 32 && f3 < 8 && b4 < 16 && b11 < 2 && op < 128
    ensures Or32(Or32(Or32(Or32(Or32(Or32(Or32(b12 * 0x8000_0000, b10 * 0x200_0000), rs2 * 0x10_0000), rs1 * 0x8000),
                 f3 * 0x1000), b4 * 0x100), b11 * 128), op)
         == Assemble(b12 * 64 + b10, rs2, rs1, f3, b4 * 2 + b11, op)
  {
    hide Or32;
    Pow2Table();
    var x1: Word := b12 * 0x8000_0000;
    OrAdds(x1, b10 * 0x200_0000, 31, 0x8000_0000);
    var x2: Word := x1 + b10 * 0x200_0000;
    OrAdds(x2, rs2 * 0x10_0000, 25, 0x200_0000);
    var x3: Word := x2 + rs2 * 0x10_0000;
    OrAdds(x3, rs1 * 0x8000, 20, 0x10_0000);
    var x4: Word := x3 + rs1 * 0x8000;
    OrAdds(x4, f3 * 0x1000, 15, 0x8000);
    var x5: Word := x4 + f3 * 0x1000;
    OrAdds(x5, b4 * 0x100, 12, 0x1000);
    var x6: Word := x5 + b4 * 0x100;
    OrAdds(x6, b11 * 128, 8, 0x100);
    OrAdds(x6 + b11 * 128, op, 7, 128);
  }

  function Signed13(f: nat): Word
    requires f < 0x2000
  {
    if f < 0x1000 then f else f + B32 - 0x2000
  }

  lemma Signed13Exact(offset: Int32)
    ensures Signed13(offset % 0x2000) == offset % B32 <==> -0x1000 <= offset < 0x1000
  {
  }

  /** Setting bit 11 of a value in which it is clear. */
  lemma OrBit11(hi: nat, lo: nat, b: nat)
    requires lo < 0x800 && b < 2 && hi % 2 == 0 && (hi + 1) * 0x800 <= B64
    ensures Or64(hi * 0x800 + lo, b * 0x800) == hi * 0x800 + lo + b * 0x800
  {
    Pow2Table();
    ShiftUpIsMul(hi, 11);
    ShiftUpIsMul(b, 11);
    ShiftUpIsMul(BitOr(hi, b), 11);
    OrSplit(hi, lo, b, 0, 11);
    OrDisjoint(hi, b, 1);
  }

  lemma JoinSigned13(b12: nat, b10: nat, b4: nat, b11: nat)
    requires b12 < 2 && b10 < 64 && b4 < 16 && b11 < 2
    ensures Low32(Or64(Or64(Or64(Shl64(Sext(b12, 1), 12), Shl64(b10, 5)), Shl64(b4, 1)), Shl64(b11, 11)))
         == Signed13(b12 * 0x1000 + b11 * 0x800 + b10 * 32 + b4 * 2)
  {
    hide Or64;
    hide Shl64;
    Pow2Table();
    Shl64Value(Sext(b12, 1), 12, 0x1000);
    Shl64Value(b10, 5, 32);
    Shl64Value(b4, 1, 2);
    Shl64Value(b11, 11, 0x800);
    var top: Word64 := if b12 == 0 then 0 else B64 - 0x1000;
    assert Shl64(Sext(b12, 1), 12) == top;
    Or64Adds(top, b10 * 32, 12, 0x1000);
    Or64Adds(top + b10 * 32, b4 * 2, 5, 32);
    OrBit11(top / 0x800, b10 * 32 + b4 * 2, b11);
    assert top / 0x800 * 0x800 == top;
  }

  lemma OffsetPieces(i: nat)
    requires i < 0x2000 && i % 2 == 0
    ensures i / 0x1000 * 0x1000 + i / 0x800 % 2 * 0x800 + i / 32 % 64 * 32 + i / 2 % 16 * 2 == i
  {
  }

  /** Decoding a B-type word puts the four pieces of the offset back in order; odd offsets are refused. */
  lemma DecodeEncodeB(offset: Int32, rs2: Word, rs1: Word, funct3: Word, opcode: Word)
    ensures EncodeB(offset, rs2, rs1, funct3, opcode).NotAligned? <==> offset % 2 != 0
    ensures offset % 2 == 0 ==>
      var w := EncodeB(offset, rs2, rs1, funct3, opcode).w;
      && Rs2(w) == rs2 % 32 && Rs1(w) == rs1 % 32 && Funct3(w) == funct3 % 8 && Opcode(w) == opcode % 128
      && ImmB(w) == Signed13(offset % 0x2000)
      && (ImmB(w) == offset % B32 <==> -0x1000 <= offset < 0x1000)
  {
    hide ImmB;
    hide Bits;
    hide Assemble;
    hide EncodeB;
    NotAlignedExact(offset, rs2, rs1, funct3, opcode);
    if offset % 2 == 0 {
      var i: nat := offset % 0x2000;
      EncodeBIs(offset, rs2, rs1, funct3, opcode);
      BranchFields(i / 0x1000, i / 32 % 64, rs2 % 32, rs1 % 32, funct3 % 8, i / 2 % 16, i / 0x800 % 2, opcode % 128);
      EvenField(offset);
      OffsetPieces(i);
      Signed13Exact(offset);
    }
  }

  lemma EvenField(offset: int)
    requires offset % 2 == 0
    ensures offset % 0x2000 % 2 == 0
  {
    var half := offset / 2;
    var q, r := half / 0x1000, half % 0x1000;
    DivModUnique(offset, 0x2000, q, 2 * r);
    DivModUnique(2 * r, 2, r, 0);
  }

  lemma NotAlignedExact(offset: int, rs2: Word, rs1: Word, funct3: Word, opcode: Word)
    ensures EncodeB(offset, rs2, rs1, funct3, opcode).NotAligned? <==> offset % 2 != 0
  {
  }

  lemma BranchFields(b12: nat, b10: nat, rs2: nat, rs1: nat, f3: nat, b4: nat, b11: nat, op: nat)
    requires b12 < 2 && b10 < 64 && rs2 < 32 && rs1 < 32 && f3 < 8 && b4 < 16 && b11 < 2 && op < 128
    ensures var w := Assemble(b12 * 64 + b10, rs2, rs1, f3, b4 * 2 + b11, op);
            && Rs2(w) == rs2 && Rs1(w) == rs1 && Funct3(w) == f3 && Opcode(w) == op
            && ImmB(w) == Signed13(b12 * 0x1000 + b11 * 0x800 + b10 * 32 + b4 * 2)
  {
    hide ImmB;
    hide Bits;
    hide Assemble;
    FieldsOf(b12 * 64 + b10, rs2, rs1, f3, b4 * 2 + b11, op);
    ImmBFrom(Assemble(b12 * 64 + b10, rs2, rs1, f3, b4 * 2 + b11, op), b12, b10, b4, b11);
  }

  lemma ImmBFrom(w: Word, b12: nat, b10: nat, b4: nat, b11: nat)
    requires b12 < 2 && b10 < 64 && b4 < 16 && b11 < 2
    requires Bits(w, 31, 31) == b12 && Bits(w, 30, 25) == b10 && Bits(w, 11, 8) == b4 && Bits(w, 7, 7) == b11
    ensures ImmB(w) == Signed13(b12 * 0x1000 + b11 * 0x800 + b10 * 32 + b4 * 2)
  {
    hide Bits;
    hide Or64;
    hide Shl64;
    JoinSigned13(b12, b10, b4, b11);
  }
}
