/** Narrow loads and stores at the program's own addresses, shifts by constants, and the choice of a branch. */
module MinirvAccess {
  import opened Options
  import opened MachineWords
  import opened MinirvMachine
  import opened MinirvMacros
  import opened MinirvView
  import opened MinirvTables
  import opened MinirvRuns
  import opened MinirvShifts
  import opened Rv32iValues
  import opened ShiftBytes

  /** An address the macros do not use themselves. */
  predicate Outside(e: Env, a: int) { !e.InSlots(a) && !e.InCheck(a) }

  lemma LoadOutside(e: Env, v: View, rs1: Reg, imm: Imm)
    requires e.Ok() && Outside(e, Address(v, rs1, imm))
    ensures LoadByte(e, v, rs1, imm) == Peek(v.data, Address(v, rs1, imm))
  {
    if ViaSp(e, v, rs1, imm) {
      ViaSpIsGeneral(e, v, rs1, imm);
    }
  }

  lemma StoreOutside(e: Env, v: View, rs1: Reg, imm: Imm, b: Byte)
    requires e.Ok() && Outside(e, Address(v, rs1, imm))
    ensures StoreByte(e, v, rs1, imm, b) == v.(data := v.data[Address(v, rs1, imm) := b])
  {
    if ViaSp(e, v, rs1, imm) {
      ViaSpIsGeneral(e, v, rs1, imm);
    }
  }

  // ----- shifts of small fields -----

  lemma {:induction false} HalvedScale(c: int, w: nat, k: nat)
    requires k <= w
    ensures Halved(ScaleUp(c, w), k) == ScaleUp(c, w - k)
    decreases k
  {
    if k != 0 {
      assert ScaleUp(c, w) / 2 == ScaleUp(c, w - 1);
      HalvedScale(c, w - 1, k - 1);
    }
  }

  lemma SignedByteTop(b: Byte)
    ensures ShiftArith(0x100_0000 * b, 24) == SignExtend(b, 128)
    ensures ShiftArith(0x100_0000 * b, 16) == (if b < 128 then 0x100 * b else 0x100 * b + B32 - 0x1_0000)
  {
    hide Pow2;
    hide Halved;
    hide ShiftUp;
    var c := if b < 128 then b else b - 256;
    ScaleUpIsMul(c, 24);
    ScaleUpIsMul(c, 8);
    Pow2Add(8, 16);
    Pow2Values();
    Pow2Small();
    HalvedScale(c, 24, 24);
    HalvedScale(c, 24, 16);
    assert Signed(0x100_0000 * b) == ScaleUp(c, 24);
    assert ScaleUp(c, 0) == c;
  }

  // ----- lb, lhu, lh, sh -----

  lemma LoadSignedByteRuns(e: Env, v: View, rd: Reg, rs1: Reg, off: Imm)
    requires Ready(e, v) && rd !in {SP, GP, TP} && Outside(e, Address(v, rs1, off))
    ensures Run(e, v, LoadSignedByte(e.lay, rd, rs1, off)).Some?
    ensures Leaves(v, Run(e, v, LoadSignedByte(e.lay, rd, rs1, off)).value, rd,
                   SignExtend(Peek(v.data, Address(v, rs1, off)), 128))
  {
    hide LoadByte;
    hide ViewByte;
    hide Join;
    hide Run;
    hide TablesIn;
    hide NoOverlap;
    hide ByteAt;
    hide ShiftArith;
    var b := Peek(v.data, Address(v, rs1, off));
    var v1, c1 := Advance(e, v, LoadSignedByte(e.lay, rd, rs1, off));
    LoadOutside(e, v1, rs1, off);
    var v2, c2 := Advance(e, v1, c1);
    ByteOfByte(b);
    ByteOfByte(0);
    ZeroBytes();
    var v3, c3 := Advance(e, v2, c2);
    var b' := if rd == ZERO then 0 else b;
    assert v3.slots.a == Bytes(0, 0, 0, b');
    var v4, c4 := Advance(e, v3, c3);
    SetTwice(v.regs, rd, b, Join(0, 0, 0, b'));
    assert v4.regs == Set(v.regs, rd, Join(0, 0, 0, b'));
    ShiftRightRuns(e, v4, rd, rd, Const(24), true);
    SignedByteTop(b);
    JoinPlaces(0, b);
  }

  ghost predicate LoadSignedByteRight(e: Env, v: View, rd: Reg, rs1: Reg, off: Imm) {
    && Run(e, v, LoadSignedByte(e.lay, rd, rs1, off)).Some?
    && Leaves(v, Run(e, v, LoadSignedByte(e.lay, rd, rs1, off)).value, rd,
              SignExtend(Peek(v.data, Address(v, rs1, off)), 128))
  }

  /** With destination `sp` the byte just loaded takes the place of the stack pointer, and the reload is misaligned. */
  lemma LoadSignedByteIntoSp(e: Env, v: View, rs1: Reg, off: Imm)
    requires Ready(e, v) && Outside(e, Address(v, rs1, off)) && Peek(v.data, Address(v, rs1, off)) % 4 != 0
    ensures Run(e, v, LoadSignedByte(e.lay, SP, rs1, off)).None?
  {
    hide LoadByte;
    hide ViewByte;
    hide Join;
    hide Run;
    hide TablesIn;
    hide NoOverlap;
    hide ByteAt;
    hide Plus;
    hide Clear;
    var b := Peek(v.data, Address(v, rs1, off));
    var code := LoadSignedByte(e.lay, SP, rs1, off);
    var v1, c1 := Advance(e, v, code);
    LoadOutside(e, v1, rs1, off);
    var v2, c2 := Advance(e, v1, c1);
    var v3, c3 := Advance(e, v2, c2);
    StaysMisaligned(b, Var(VAR_A, 0));
    StopsAt(e, v3, c3);
  }

  lemma StaysMisaligned(b: Byte, imm: Imm)
    requires b % 4 != 0 && imm % 4 == 0
    ensures Plus(b, imm) % 4 != 0
  {
    DivModUnique(b + imm, 4, b / 4 + imm / 4, b % 4);
    DivModUnique(b + imm + B32, 4, b / 4 + imm / 4 + 0x4000_0000, b % 4);
  }

  lemma StopsAt(e: Env, v: View, c: Code)
    requires c.Then? && c.first.Do? && RunStep(e, v, c.first.i).None?
    ensures Run(e, v, c).None?
  {
  }

  /**
   `lb` is right in every state and for every address exactly when its destination is not `sp`. The first byte of
   `_same_result`, which is 1, is an input for which it is wrong.
   */
  lemma LoadSignedByteExact(e: Env, v: View, rd: Reg)
    requires Ready(e, v) && rd !in {GP, TP}
    ensures (forall w: View, rs1: Reg, off: Imm :: Ready(e, w) && Outside(e, Address(w, rs1, off)) ==>
               LoadSignedByteRight(e, w, rd, rs1, off))
       <==> rd != SP
  {
    if rd == SP {
      var w := v.(regs := v.regs[S0 := e.lay.sameResult]);
      SameResultFirst(e, v);
      assert Ready(e, w) && Address(w, S0, 0) == e.lay.sameResult;
      LoadSignedByteIntoSp(e, w, S0, 0);
      assert !LoadSignedByteRight(e, w, SP, S0, 0);
    } else {
      forall w: View, rs1: Reg, off: Imm | Ready(e, w) && Outside(e, Address(w, rs1, off))
        ensures LoadSignedByteRight(e, w, rd, rs1, off)
      {
        LoadSignedByteRuns(e, w, rd, rs1, off);
      }
    }
  }

  lemma SameResultFirst(e: Env, v: View)
    requires Ready(e, v)
    ensures 0 <= e.lay.sameResult < B32 && Outside(e, e.lay.sameResult) && Peek(v.data, e.lay.sameResult) == 1
  {
    assert ByteEntry(v.data, e.lay.sameResult, 0, 0) == 1;
  }

  lemma JoinPlaces(b0: Byte, b1: Byte)
    ensures Join(0, 0, 0, b1) == 0x100_0000 * (b1 as int)
    ensures Plus(b0, Join(0, b1, 0, 0)) == b0 + 0x100 * b1
    ensures Plus(b0, if b1 < 128 then 0x100 * b1 else 0x100 * b1 + B32 - 0x1_0000)
         == SignExtend(b0 + 0x100 * b1, 0x8000)
  {
    JoinIs(0, 0, 0, b1);
    JoinIs(0, b1, 0, 0);
  }

  /** The upper byte of a half word goes to byte `k` of a cleared stack word. */
  lemma UpperByteRuns(e: Env, v: View, c: Code, r: Reg, rs1: Reg, off: Imm, k: nat) returns (w: View, rest: Code)
    requires Ready(e, v) && r in {GP, TP} && k in {1, 3} && Outside(e, Address(v, rs1, off))
    requires c.Then? && c.rest.Then? && c.rest.rest.Then?
    requires c.first == Do(Sw(ZERO, SP, Var(VAR_A, 0))) && c.rest.first == Do(Lbu(r, rs1, off))
    requires c.rest.rest.first == Do(Sb(r, SP, Var(VAR_A, k)))
    ensures Run(e, v, c) == Run(e, w, rest) && rest == c.rest.rest.rest
    ensures var b := Peek(v.data, Address(v, rs1, off));
            w == v.(regs := v.regs[r := b],
                    slots := v.slots.(a := if k == 1 then Bytes(0, b, 0, 0) else Bytes(0, 0, 0, b)))
  {
    hide LoadByte;
    hide ViewByte;
    hide Run;
    hide TablesIn;
    hide NoOverlap;
    hide ByteAt;
    var b := Peek(v.data, Address(v, rs1, off));
    var v1, c1 := Advance(e, v, c);
    LoadOutside(e, v1, rs1, off);
    var v2, c2 := Advance(e, v1, c1);
    ByteOfByte(b);
    ZeroBytes();
    w, rest := Advance(e, v2, c2);
  }

  /** The lower byte is loaded into `rd` and the prepared upper part added to it. */
  lemma LowerByteRuns(e: Env, v: View, w: View, rd: Reg, rs1: Reg, off: Imm, r: Reg)
    requires Ready(e, v) && r in {GP, TP} && rd !in {GP, TP} && w.data == v.data
    requires w.regs == v.regs[GP := w.regs[GP]][TP := w.regs[TP]]
    requires Outside(e, Address(v, rs1, off)) && Address(w, rs1, off) == Address(v, rs1, off)
    ensures var c := Then(Do(Lbu(rd, rs1, off)), Do(Add(rd, rd, r)));
            && Run(e, w, c).Some?
            && Leaves(v, Run(e, w, c).value, rd, Plus(Peek(v.data, Address(v, rs1, off)), w.regs[r]))
  {
    hide LoadByte;
    hide ViewByte;
    hide Run;
    hide TablesIn;
    hide NoOverlap;
    var b := Peek(v.data, Address(v, rs1, off));
    LoadOutside(e, w, rs1, off);
    var v1, c1 := Advance(e, w, Then(Do(Lbu(rd, rs1, off)), Do(Add(rd, rd, r))));
    Last(e, v1, Add(rd, rd, r));
    SetTwice(w.regs, rd, b, Plus(b, w.regs[r]));
  }

  lemma LoadHalfRuns(e: Env, v: View, rd: Reg, rs1: Reg, off: Imm)
    requires Ready(e, v) && off < 2047 && rd !in {GP, TP} && rs1 != TP
    requires Outside(e, Address(v, rs1, off)) && Outside(e, Address(v, rs1, off + 1))
    ensures Run(e, v, LoadHalf(rd, rs1, off)).Some?
    ensures Leaves(v, Run(e, v, LoadHalf(rd, rs1, off)).value, rd,
                   Peek(v.data, Address(v, rs1, off)) + 0x100 * Peek(v.data, Address(v, rs1, off + 1)))
  {
    hide Run;
    hide TablesIn;
    hide NoOverlap;
    hide Join;
    var b0, b1 := Peek(v.data, Address(v, rs1, off)), Peek(v.data, Address(v, rs1, off + 1));
    var v3, c3 := UpperByteRuns(e, v, LoadHalf(rd, rs1, off), TP, rs1, off + 1, 1);
    var v4, c4 := Advance(e, v3, c3);
    assert v4.regs == v.regs[TP := Join(0, b1, 0, 0)];
    LowerByteRuns(e, v, v4, rd, rs1, off, TP);
    JoinPlaces(b0, b1);
  }

  lemma LoadSignedHalfRuns(e: Env, v: View, rd: Reg, rs1: Reg, off: Imm)
    requires Ready(e, v) && off < 2047 && rd !in {GP, TP} && rs1 !in {GP, TP}
    requires Outside(e, Address(v, rs1, off)) && Outside(e, Address(v, rs1, off + 1))
    ensures Run(e, v, LoadSignedHalf(e.lay, rd, rs1, off)).Some?
    ensures Leaves(v, Run(e, v, LoadSignedHalf(e.lay, rd, rs1, off)).value, rd,
                   SignExtend(Peek(v.data, Address(v, rs1, off)) + 0x100 * Peek(v.data, Address(v, rs1, off + 1)),
                              0x8000))
  {
    hide Run;
    hide TablesIn;
    hide NoOverlap;
    hide Join;
    hide ShiftArith;
    var b0, b1 := Peek(v.data, Address(v, rs1, off)), Peek(v.data, Address(v, rs1, off + 1));
    var code := LoadSignedHalf(e.lay, rd, rs1, off);
    var v3, r3 := UpperByteRuns(e, v, code.first, GP, rs1, off + 1, 3);
    Last(e, v3, Lw(GP, SP, Var(VAR_A, 0)));
    var v4 := Run(e, v3, r3).value;
    assert v4.regs == v.regs[GP := Join(0, 0, 0, b1)];
    var c4 := Call(e, v, code, v4);
    ShiftRightRuns(e, v4, GP, GP, Const(16), true);
    var v5 := Run(e, v4, c4.first).value;
    var c5 := Call(e, v4, c4, v5);
    SignedByteTop(b1);
    JoinPlaces(b0, b1);
    assert v5.regs == v.regs[GP := v5.regs[GP]][TP := v5.regs[TP]];
    LowerByteRuns(e, v, v5, rd, rs1, off, GP);
  }

  lemma StoreHalfRuns(e: Env, v: View, rs2: Reg, rs1: Reg, off: Imm)
    requires Ready(e, v) && off < 2047 && rs1 != TP
    requires Outside(e, Address(v, rs1, off)) && Outside(e, Address(v, rs1, off + 1))
    ensures Run(e, v, StoreHalf(rs2, rs1, off)).Some?
    ensures var w, x := Run(e, v, StoreHalf(rs2, rs1, off)).value, Get(v.regs, rs2);
            && w.regs == v.regs[TP := w.regs[TP]]
            && w.data == v.data[Address(v, rs1, off) := ByteAt(x, 0)][Address(v, rs1, off + 1) := ByteAt(x, 1)]
  {
    hide Run;
    hide TablesIn;
    hide NoOverlap;
    hide ByteAt;
    var x := Get(v.regs, rs2);
    StoreOutside(e, v, rs1, off, ByteAt(x, 0));
    var v1, c1 := Advance(e, v, StoreHalf(rs2, rs1, off));
    GetByteRuns(e, v1, TP, rs2, 1);
    var v2 := Run(e, v1, GetByte(TP, rs2, 1)).value;
    var c2 := Call(e, v1, c1, v2);
    ByteOfByte(ByteAt(x, 1));
    StoreOutside(e, v2, rs1, off + 1, ByteAt(x, 1));
    Last(e, v2, Sb(TP, rs1, off + 1));
  }

  // ----- slli -----

  lemma SlliRuns(e: Env, v: View, rd: Reg, rs1: Reg, n: nat)
    requires Ready(e, v) && n < 32 && rd != TP
    ensures Run(e, v, Slli(rd, rs1, n)).Some?
    ensures Leaves(v, Run(e, v, Slli(rd, rs1, n)).value, rd, Shl(Get(v.regs, rs1), n))
  {
    hide Run;
    if n < 16 {
      SlliSmallRuns(e, v, rd, rs1, n);
    } else if n < 24 {
      SlliHalfRuns(e, v, rd, rs1, n);
    } else {
      SlliByteRuns(e, v, rd, rs1, n);
    }
  }

  lemma ShlTop(x: Word)
    ensures Shl(x, 24) == Join(0, 0, 0, ByteAt(x, 0)) && Shl(x, 16) == Join(0, 0, ByteAt(x, 0), ByteAt(x, 1))
  {
    hide Join;
    hide ByteAt;
    ShiftUpByte(x);
    TopByte(x);
    TopHalf(x);
  }

  lemma SlliHalfRuns(e: Env, v: View, rd: Reg, rs1: Reg, n: nat)
    requires Ready(e, v) && 16 <= n < 24 && rd != TP
    ensures Run(e, v, Slli(rd, rs1, n)).Some?
    ensures Leaves(v, Run(e, v, Slli(rd, rs1, n)).value, rd, Shl(Get(v.regs, rs1), n))
  {
    hide Run;
    hide TablesIn;
    hide NoOverlap;
    hide ByteAt;
    hide Shl;
    var x := Get(v.regs, rs1);
    var v1, c1 := Advance(e, v, Slli(rd, rs1, n));
    StoreHalfSlotRuns(e, v1, rs1, VAR_A);
    var v2 := Run(e, v1, c1.first).value;
    var c2 := Call(e, v1, c1, v2);
    ZeroBytes();
    assert v2.slots.a == Bytes(0, 0, ByteAt(x, 0), ByteAt(x, 1));
    ShlTop(x);
    var v3, c3 := Advance(e, v2, c2);
    SlliSmallRuns(e, v3, rd, rd, n - 16);
    ShlShl(x, 16, n - 16);
    SetTwice(v.regs[TP := v3.regs[TP]], rd, Shl(x, 16), Shl(x, n));
  }

  lemma SlliByteRuns(e: Env, v: View, rd: Reg, rs1: Reg, n: nat)
    requires Ready(e, v) && 24 <= n < 32
    ensures Run(e, v, Slli(rd, rs1, n)).Some?
    ensures Leaves(v, Run(e, v, Slli(rd, rs1, n)).value, rd, Shl(Get(v.regs, rs1), n))
  {
    hide Run;
    hide TablesIn;
    hide NoOverlap;
    hide ByteAt;
    hide Shl;
    var x := Get(v.regs, rs1);
    var v1, c1 := Advance(e, v, Slli(rd, rs1, n));
    var v2, c2 := Advance(e, v1, c1);
    ZeroBytes();
    assert v2.slots.a == Bytes(0, 0, 0, ByteAt(x, 0));
    ShlTop(x);
    var v3, c3 := Advance(e, v2, c2);
    SlliSmallRuns(e, v3, rd, rd, n - 24);
    ShlShl(x, 24, n - 24);
    SetTwice(v.regs, rd, Shl(x, 24), Shl(x, n));
  }

  // ----- branches -----

  predicate Taken(c: Cond, x: Word, y: Word) {
    match c
    case BEQ => x == y
    case BNE => x != y
    case BLT => Signed(x) < Signed(y)
    case BGE => Signed(x) >= Signed(y)
    case BLTU => x < y
    case BGEU => x >= y
  }

  /** `gp` and `tp` are lost, everything outside the scratch is kept. */
  ghost predicate Spares(v: View, w: View) {
    w.data == v.data && w.regs == v.regs[GP := w.regs[GP]][TP := w.regs[TP]]
  }

  lemma NotPositiveRuns(e: Env, v: View, rs2: Reg)
    requires Ready(e, v) && rs2 !in {GP, TP}
    ensures Run(e, v, NotPositive(e.lay, rs2)).Some?
    ensures var w := Run(e, v, NotPositive(e.lay, rs2)).value;
            Spares(v, w) && w.regs[TP] == Flag(!(0 < Signed(Get(v.regs, rs2))))
  {
    hide Run;
    hide TablesIn;
    hide NoOverlap;
    var x := Get(v.regs, rs2);
    var code := NotPositive(e.lay, rs2);
    MsbRuns(e, v, GP, rs2);
    var v1 := Run(e, v, Msb(GP, rs2)).value;
    var c1 := Call(e, v, code, v1);
    var v2, c2 := Advance(e, v1, c1);
    MsbRuns(e, v2, TP, TP);
    var v3 := Run(e, v2, Msb(TP, TP)).value;
    var c3 := Call(e, v2, c2, v3);
    var v4, c4 := Advance(e, v3, c3);
    var k := MsbOf(x) + MsbOf((x - 1) % B32);
    NotPositiveFromSigns(x);
    assert v4.regs[GP] == k;
    LaRuns(e, v4, TP, e.lay.or1);
    var v5 := v4.(regs := v4.regs[TP := e.lay.or1]);
    var c5 := Call(e, v4, c4, v5);
    NotPositiveLookup(e, v, v5, k);
  }

  lemma NotPositiveLookup(e: Env, v: View, v5: View, k: nat)
    requires Ready(e, v) && k < 4 && v5.data == v.data
    requires v5.regs == v.regs[GP := k][TP := e.lay.or1]
    ensures var c := Then(Do(Add(TP, GP, TP)), Do(Lbu(TP, TP, 0)));
            && Run(e, v5, c).Some?
            && var w := Run(e, v5, c).value;
               Spares(v, w) && w.regs[TP] == OR1[k]
  {
    hide Run;
    var v6, c6 := Advance(e, v5, Then(Do(Add(TP, GP, TP)), Do(Lbu(TP, TP, 0))));
    ReadSmall(e, v6, TP, e.lay.or1, 4, k);
    Last(e, v6, Lbu(TP, TP, 0));
  }

  /** The bit in `tp` and the polarity together decide the branch. */
  lemma BranchBitRuns(e: Env, v: View, c: Cond, rs1: Reg, rs2: Reg)
    requires Ready(e, v) && rs1 !in {GP, TP} && rs2 !in {GP, TP}
    ensures var (code, onOne) := BranchBit(e.lay, c, rs1, rs2);
            && Run(e, v, code).Some?
            && var w := Run(e, v, code).value;
               && Spares(v, w)
               && w.regs[TP] == Flag(Taken(c, Get(v.regs, rs1), Get(v.regs, rs2)) == onOne)
  {
    hide Run;
    match c {
      case BEQ => EqualBitRuns(e, v, rs1, rs2);
      case BNE => EqualBitRuns(e, v, rs1, rs2);
      case BLT =>
        if rs2 == ZERO {
          MsbRuns(e, v, TP, rs1);
        } else if rs1 == ZERO {
          NotPositiveRuns(e, v, rs2);
        } else {
          CompareBitRuns(e, v, e.lay.slt1, rs1, rs2);
        }
      case BGE =>
        if rs1 == ZERO {
          NotPositiveRuns(e, v, rs2);
        } else {
          CompareBitRuns(e, v, e.lay.slt1, rs1, rs2);
        }
      case BLTU => CompareBitRuns(e, v, e.lay.sltu1, rs1, rs2);
      case BGEU => CompareBitRuns(e, v, e.lay.sltu1, rs1, rs2);
    }
  }

  lemma EqualBitRuns(e: Env, v: View, rs1: Reg, rs2: Reg)
    requires Ready(e, v)
    ensures Run(e, v, EqualBit(e.lay, rs1, rs2)).Some?
    ensures var w := Run(e, v, EqualBit(e.lay, rs1, rs2)).value;
            Spares(v, w) && w.regs[TP] == Flag(Get(v.regs, rs1) == Get(v.regs, rs2))
  {
    hide Run;
    if rs2 == ZERO {
      SeqzRuns(e, v, TP, rs1);
    } else if rs1 == ZERO {
      SeqzRuns(e, v, TP, rs2);
    } else {
      SeqRuns(e, v, TP, rs1, rs2);
    }
  }

  /** `slt` and `sltu` for any destination. */
  lemma CompareRuns(e: Env, v: View, table: Word, rd: Reg, rs1: Reg, rs2: Reg)
    requires Ready(e, v) && rs1 !in {GP, TP} && rs2 != GP && table in {e.lay.slt1, e.lay.sltu1}
    ensures Run(e, v, SltTemplate(e.lay, table, rd, rs1, rs2)).Some?
    ensures var x, y := Get(v.regs, rs1), Get(v.regs, rs2);
            && (table == e.lay.slt1 ==>
                 Leaves(v, Run(e, v, SltTemplate(e.lay, table, rd, rs1, rs2)).value, rd, LessSigned(x, y)))
            && (table == e.lay.sltu1 ==>
                 Leaves(v, Run(e, v, SltTemplate(e.lay, table, rd, rs1, rs2)).value, rd, LessUnsigned(x, y)))
  {
    hide Run;
    SignsDecide(Get(v.regs, rs1), Get(v.regs, rs2));
    if table == e.lay.slt1 {
      SltTemplateRuns(e, v, table, SLT1, rd, rs1, rs2);
    }
    if table == e.lay.sltu1 {
      SltTemplateRuns(e, v, table, SLTU1, rd, rs1, rs2);
    }
  }

  lemma CompareBitRuns(e: Env, v: View, table: Word, rs1: Reg, rs2: Reg)
    requires Ready(e, v) && rs1 !in {GP, TP} && rs2 != GP && table in {e.lay.slt1, e.lay.sltu1}
    ensures Run(e, v, SltTemplate(e.lay, table, TP, rs1, rs2)).Some?
    ensures var w, x, y := Run(e, v, SltTemplate(e.lay, table, TP, rs1, rs2)).value, Get(v.regs, rs1), Get(v.regs, rs2);
            && Spares(v, w)
            && (table == e.lay.slt1 ==> w.regs[TP] == LessSigned(x, y))
            && (table == e.lay.sltu1 ==> w.regs[TP] == LessUnsigned(x, y))
  {
    CompareRuns(e, v, table, TP, rs1, rs2);
  }

  /** `branch_resolve` leaves the wanted address in `tp`. */
  lemma BranchResolveRuns(e: Env, v: View, target: Word, high: bool, notTaken: Word, bit: bool)
    requires Ready(e, v) && v.regs[TP] == Flag(bit)
    ensures Run(e, v, BranchResolve(target, high, notTaken)).Some?
    ensures var w := Run(e, v, BranchResolve(target, high, notTaken)).value;
            Spares(v, w) && w.regs[TP] == if bit == high then target else notTaken
  {
    hide Run;
    hide TablesIn;
    hide NoOverlap;
    var up, low := if high then target else notTaken, if high then notTaken else target;
    var code := BranchResolve(target, high, notTaken);
    SlliSmallRuns(e, v, TP, TP, 2);
    ShlTwo(Flag(bit));
    var v1 := Run(e, v, Slli(TP, TP, 2)).value;
    var c1 := Call(e, v, code, v1);
    var v2, c2 := Advance(e, v1, c1);
    assert v2.regs == v.regs[TP := Plus(e.sp, 4 * Flag(bit))];
    LaRuns(e, v2, GP, up);
    var v3 := v2.(regs := v2.regs[GP := up]);
    var r3 := Call(e, v2, c2.first, v3);
    Last(e, v3, Sw(GP, SP, Var(VAR_A, 0)));
    var v4 := v3.(slots := v3.slots.(a := Whole(up)));
    var c4 := Call(e, v2, c2, v4);
    LaRuns(e, v4, GP, low);
    var v5 := v4.(regs := v4.regs[GP := low]);
    var r5 := Call(e, v4, c4.first, v5);
    Last(e, v5, Sw(GP, SP, Var(VAR_B, 0)));
    var v6 := v5.(slots := v5.slots.(b := Whole(low)));
    var c6 := Call(e, v4, c4, v6);
    Last(e, v6, Lw(TP, TP, -4 * VAR_B));
  }
}
