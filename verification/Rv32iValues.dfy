/** What the RV32I register instructions compute, and how those values break up into bytes. */
module Rv32iValues {
  import opened MachineWords
  import opened MinirvMachine

  // ----- sections 2.4 and 2.5 of the unprivileged ISA manual -----

  function Signed(x: Word): int {
    if x < 0x8000_0000 then x else x - B32
  }

  function Unsigned(z: int): Word { z % B32 }

  function Difference(x: Word, y: Word): Word { (x - y) % B32 }

  function LessSigned(x: Word, y: Word): Word { if Signed(x) < Signed(y) then 1 else 0 }

  function LessUnsigned(x: Word, y: Word): Word { if x < y then 1 else 0 }

  /** Arithmetic shift: halve `k` times, rounding down. */
  function Halved(z: int, k: nat): int
    decreases k
  {
    if k == 0 then z else Halved(z / 2, k - 1)
  }

  function ShiftArith(x: Word, k: nat): Word { Unsigned(Halved(Signed(x), k)) }

  datatype AluOp = SUB | SLT | SLTU | AND | OR | XOR | SLL | SRL | SRA

  function AluValue(op: AluOp, x: Word, y: Word): Word {
    match op
    case SUB => Difference(x, y)
    case SLT => LessSigned(x, y)
    case SLTU => LessUnsigned(x, y)
    case AND => And32(x, y)
    case OR => Or32(x, y)
    case XOR => Xor32(x, y)
    case SLL => Shl(x, y % 32)
    case SRL => Shr32(x, y % 32)
    case SRA => ShiftArith(x, y % 32)
  }

  /** Widen a signed field whose sign bit has weight `half`. */
  function SignExtend(x: nat, half: nat): Word
    requires x < 2 * half <= 0x1_0000
  {
    if x < half then x else (x - 2 * half) % B32
  }

  function MsbOf(x: Word): Word { x / 0x8000_0000 }

  // ----- comparisons from three sign bits -----

  const SLT1: seq<Byte> := [0, 1, 0, 0, 1, 1, 0, 1]
  const SLTU1: seq<Byte> := [0, 1, 1, 1, 0, 0, 0, 1]
  const OR1: seq<Byte> := [0, 1, 1, 1]

  lemma SignsDecide(x: Word, y: Word)
    ensures var k := 4 * MsbOf(x) + 2 * MsbOf(y) + MsbOf(Difference(x, y));
            && 0 <= k < 8
            && SLT1[k] == LessSigned(x, y) && SLTU1[k] == LessUnsigned(x, y)
  {
    assert Difference(x, y) == if x >= y then x - y else x - y + B32;
  }

  lemma NotPositiveFromSigns(x: Word)
    ensures var k := MsbOf(x) + MsbOf((x - 1) % B32);
            0 <= k < 4 && OR1[k] == if 0 < Signed(x) then 0 else 1
  {
    assert (x - 1) % B32 == if x == 0 then B32 - 1 else x - 1;
  }

  // ----- bitwise operations byte by byte -----

  lemma HalveSum(h: nat, l: nat, k: nat)
    requires k > 0
    ensures (ShiftUp(h, k) + l) / 2 == ShiftUp(h, k - 1) + l / 2 && (ShiftUp(h, k) + l) % 2 == l % 2
  {
  }

  lemma {:induction false} AndSplit(h: nat, l: nat, h': nat, l': nat, k: nat)
    requires l < Pow2(k) && l' < Pow2(k)
    ensures BitAnd(ShiftUp(h, k) + l, ShiftUp(h', k) + l') == ShiftUp(BitAnd(h, h'), k) + BitAnd(l, l')
  {
    if k != 0 {
      AndSplit(h, l / 2, h', l' / 2, k - 1);
      HalveSum(h, l, k);
      HalveSum(h', l', k);
      AndUnfold(ShiftUp(h, k) + l, ShiftUp(h', k) + l');
      AndUnfold(l, l');
    }
  }

  lemma {:induction false} OrSplit(h: nat, l: nat, h': nat, l': nat, k: nat)
    requires l < Pow2(k) && l' < Pow2(k)
    ensures BitOr(ShiftUp(h, k) + l, ShiftUp(h', k) + l') == ShiftUp(BitOr(h, h'), k) + BitOr(l, l')
  {
    if k != 0 {
      OrSplit(h, l / 2, h', l' / 2, k - 1);
      HalveSum(h, l, k);
      HalveSum(h', l', k);
      OrUnfold(ShiftUp(h, k) + l, ShiftUp(h', k) + l');
      OrUnfold(l, l');
    }
  }

  lemma OrUnfold(x: nat, y: nat)
    ensures BitOr(x, y) == 2 * BitOr(x / 2, y / 2) + (if x % 2 == 1 || y % 2 == 1 then 1 else 0)
  {
  }

  lemma {:induction false} XorSplit(h: nat, l: nat, h': nat, l': nat, k: nat)
    requires l < Pow2(k) && l' < Pow2(k)
    ensures BitXor(ShiftUp(h, k) + l, ShiftUp(h', k) + l') == ShiftUp(BitXor(h, h'), k) + BitXor(l, l')
  {
    if k != 0 {
      XorSplit(h, l / 2, h', l' / 2, k - 1);
      HalveSum(h, l, k);
      HalveSum(h', l', k);
      XorStep(ShiftUp(h, k) + l, ShiftUp(h', k) + l', ShiftUp(BitXor(h, h'), k - 1), l, l');
    }
  }

  lemma XorStep(x: nat, y: nat, high: nat, l: nat, l': nat)
    requires x % 2 == l % 2 && y % 2 == l' % 2
    requires BitXor(x / 2, y / 2) == high + BitXor(l / 2, l' / 2)
    ensures BitXor(x, y) == 2 * high + BitXor(l, l')
  {
    hide BitXor;
    XorUnfold(x, y);
    XorUnfold(l, l');
  }

  lemma XorUnfold(x: nat, y: nat)
    ensures BitXor(x, y) == 2 * BitXor(x / 2, y / 2) + (if x % 2 != y % 2 then 1 else 0)
  {
  }

  datatype Bitwise = AndOp | OrOp | XorOp
  {
    function Of(x: nat, y: nat): nat {
      match this
      case AndOp => BitAnd(x, y)
      case OrOp => BitOr(x, y)
      case XorOp => BitXor(x, y)
    }
  }

  lemma ShiftUpEight(h: nat)
    ensures ShiftUp(h, 8) == 0x100 * h && Pow2(8) == 0x100
  {
    Pow2Small();
    ShiftUpIsMul(h, 8);
  }

  lemma BitwiseSplit(op: Bitwise, h: nat, l: Byte, h': nat, l': Byte)
    ensures op.Of(0x100 * h + l, 0x100 * h' + l') == 0x100 * op.Of(h, h') + op.Of(l, l')
    ensures op.Of(l, l') < 0x100
  {
    ShiftUpEight(h);
    ShiftUpEight(h');
    ShiftUpEight(op.Of(h, h'));
    BitwiseBound(l, l', 8);
    match op
    case AndOp => AndSplit(h, l, h', l', 8);
    case OrOp => OrSplit(h, l, h', l', 8);
    case XorOp => XorSplit(h, l, h', l', 8);
  }

  /** The table lookup of each byte pair gives the bytes of the result. */
  lemma BitwiseBytes(op: Bitwise, x: Word, y: Word)
    ensures forall k :: 0 <= k < 4 ==> op.Of(ByteAt(x, k), ByteAt(y, k)) < 0x100
    ensures op.Of(x, y) == Join(op.Of(ByteAt(x, 0), ByteAt(y, 0)), op.Of(ByteAt(x, 1), ByteAt(y, 1)),
                                op.Of(ByteAt(x, 2), ByteAt(y, 2)), op.Of(ByteAt(x, 3), ByteAt(y, 3)))
  {
    hide BitAnd;
    hide BitOr;
    hide BitXor;
    BitwiseSplit(op, x / 0x100, x % 0x100, y / 0x100, y % 0x100);
    BitwiseSplit(op, x / 0x100 / 0x100, x / 0x100 % 0x100, y / 0x100 / 0x100, y / 0x100 % 0x100);
    BitwiseSplit(op, x / 0x100 / 0x100 / 0x100, x / 0x100 / 0x100 % 0x100,
                 y / 0x100 / 0x100 / 0x100, y / 0x100 / 0x100 % 0x100);
    BitwiseSplit(op, 0, ByteAt(x, 3), 0, ByteAt(y, 3));
    JoinIs(op.Of(ByteAt(x, 0), ByteAt(y, 0)), op.Of(ByteAt(x, 1), ByteAt(y, 1)),
           op.Of(ByteAt(x, 2), ByteAt(y, 2)), op.Of(ByteAt(x, 3), ByteAt(y, 3)));
  }

  lemma NotBytes(x: Word)
    ensures Join(255 - ByteAt(x, 0), 255 - ByteAt(x, 1), 255 - ByteAt(x, 2), 255 - ByteAt(x, 3)) == B32 - 1 - x
  {
    JoinBytes(x);
    JoinIs(ByteAt(x, 0), ByteAt(x, 1), ByteAt(x, 2), ByteAt(x, 3));
    JoinIs(255 - ByteAt(x, 0), 255 - ByteAt(x, 1), 255 - ByteAt(x, 2), 255 - ByteAt(x, 3));
  }

  lemma XorOnesByte(b: Byte)
    ensures BitXor(255, b) == 255 - b
  {
    Pow2Small();
    XorOnes(b, 8);
    XorCommutes(b, 255);
  }

  lemma {:induction false} XorCommutes(x: nat, y: nat)
    ensures BitXor(x, y) == BitXor(y, x)
  {
    if x != 0 && y != 0 {
      XorCommutes(x / 2, y / 2);
    }
  }

  /** Masking the low byte with 0x1f gives the shift amount. */
  lemma ShiftAmount(x: Word)
    ensures BitAnd(0x1f, ByteAt(x, 0)) == x % 32
  {
    AndMask(ByteAt(x, 0), 5);
    assert Pow2(5) == 2 * Pow2(4);
    Pow2Small();
    AndCommutes(0x1f, ByteAt(x, 0));
    DivModUnique(x, 32, 8 * (x / 0x100) + x % 0x100 / 32, x % 0x100 % 32);
  }
}
