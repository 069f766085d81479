/** Shifting a word by shifting its bytes in a table and adding the pieces up: no addition carries. */
module ShiftBytes {
  import opened MachineWords
  import opened MinirvMachine
  import opened Rv32iValues

  // ----- numbers without a common bit -----

  predicate Apart(m: nat, n: nat) {
    m == 0 || n == 0 || (!(m % 2 == 1 && n % 2 == 1) && Apart(m / 2, n / 2))
  }

  lemma ApartHalves(m: nat, n: nat)
    requires Apart(m, n)
    ensures Apart(m / 2, n / 2) && (m + n) / 2 == m / 2 + n / 2 && (m + n) % 2 == m % 2 + n % 2
  {
  }

  lemma {:induction false} ApartLow(m: nat, n: nat, k: nat)
    requires Apart(m, n)
    ensures Low(m + n, k) == Low(m, k) + Low(n, k)
  {
    if k != 0 {
      ApartHalves(m, n);
      ApartLow(m / 2, n / 2, k - 1);
    }
  }

  lemma {:induction false} ApartShr(m: nat, n: nat, k: nat)
    requires Apart(m, n)
    ensures Apart(Shr(m, k), Shr(n, k)) && Shr(m + n, k) == Shr(m, k) + Shr(n, k)
  {
    if k != 0 {
      ApartHalves(m, n);
      ApartShr(m / 2, n / 2, k - 1);
    }
  }

  lemma {:induction false} ApartShifted(hi: nat, lo: nat, w: nat)
    requires lo < Pow2(w)
    ensures Apart(ShiftUp(hi, w), lo)
  {
    if w != 0 {
      ApartShifted(hi, lo / 2, w - 1);
    }
  }

  lemma BytesOf(x: nat)
    ensures Shr(x, 8) == x / 0x100 && Low(x, 8) == x % 0x100
    ensures Shr(x, 16) == x / 0x1_0000
    ensures Shr(x, 24) == x / 0x100_0000
  {
    Pow2Add(8, 16);
    Pow2Values();
    Pow2Small();
    ShrIsDiv(x, 8);
    ShrIsDiv(x, 16);
    ShrIsDiv(x, 24);
    LowIsMod(x, 8);
  }

  lemma ShiftUpByte(b: nat)
    ensures ShiftUp(b, 8) == 0x100 * b && ShiftUp(b, 16) == 0x1_0000 * b && ShiftUp(b, 24) == 0x100_0000 * b
  {
    Pow2Add(8, 16);
    Pow2Values();
    Pow2Small();
    ShiftUpIsMul(b, 8);
    ShiftUpIsMul(b, 16);
    ShiftUpIsMul(b, 24);
  }

  // ----- right shifts -----

  /** The table entry for byte `b` and amount `a`. */
  function SrlEntry(b: Byte, a: nat): Word { Shr32(0x100_0000 * b, a) }

  function SraEntry(b: Byte, a: nat): Word { ShiftArith(0x100_0000 * b, a) }

  /** Dropping the low `8 j` bits of the entry is shifting the byte in its own place. */
  lemma EntryTop(b: Byte, a: nat)
    ensures SrlEntry(b, a) / 0x100 == Shr(0x1_0000 * b, a)
    ensures SrlEntry(b, a) / 0x1_0000 == Shr(0x100 * b, a)
    ensures SrlEntry(b, a) / 0x100_0000 == Shr(b, a)
  {
    hide Shr;
    hide Low;
    var x: nat := 0x100_0000 * b;
    BytesOf(Shr(x, a));
    BytesOf(x);
    ShrShr(x, a, 8);
    ShrShr(x, 8, a);
    ShrShr(x, a, 16);
    ShrShr(x, 16, a);
    ShrShr(x, a, 24);
    ShrShr(x, 24, a);
  }

  /** Three bytes shifted in place: their sum is the shifted sum, and adding byte by byte never carries. */
  lemma ThreeBytes(b0: Byte, b1: Byte, b2: Byte, a: nat)
    ensures var u0, u1, u2 := Shr(b0, a), Shr(0x100 * b1, a), Shr(0x1_0000 * b2, a);
            && u2 % 0x100 + u1 % 0x100 + u0 < 0x100
            && u2 / 0x100 % 0x100 + u1 / 0x100 < 0x100
            && u2 + u1 + u0 == Shr(0x1_0000 * b2 + 0x100 * b1 + b0, a)
  {
    hide Apart;
    hide Shr;
    var n1: nat, n2: nat := 0x100 * b1, 0x1_0000 * b2;
    BytesApart(b0, b1, b2);
    ApartShr(n1, b0, a);
    ApartShr(n2, n1 + b0, a);
    ShrShrinks(b0, a);
    ShrShrinks(n1, a);
    ThreeApart(Shr(b0, a), Shr(n1, a), Shr(n2, a));
  }

  lemma BytesApart(b0: Byte, b1: Byte, b2: Byte)
    ensures Apart(0x100 * b1, b0) && Apart(0x1_0000 * b2, 0x100 * b1 + b0)
  {
    ShiftUpByte(b1);
    ShiftUpByte(b2);
    Pow2Values();
    Pow2Small();
    ApartShifted(b1, b0, 8);
    ApartShifted(b2, 0x100 * b1 + b0, 16);
  }

  lemma ThreeApart(u0: nat, u1: nat, u2: nat)
    requires Apart(u1, u0) && Apart(u2, u1 + u0) && u0 < 0x100 && u1 < 0x1_0000
    ensures u2 % 0x100 + u1 % 0x100 + u0 < 0x100
    ensures u2 / 0x100 % 0x100 + u1 / 0x100 < 0x100
  {
    hide Apart;
    LowOfApart(u1, u0);
    LowOfApart(u2, u1 + u0);
    SmallByte(u0);
    UpperOfApart(u1, u0);
    UpperOfApart(u2, u1 + u0);
    LowOfApart(u2 / 0x100, u1 / 0x100);
    SmallByte(u1 / 0x100);
  }

  lemma SmallByte(u: nat)
    requires u < 0x100
    ensures u % 0x100 == u && u / 0x100 == 0
  {
  }

  lemma LowOfApart(m: nat, n: nat)
    requires Apart(m, n)
    ensures m % 0x100 + n % 0x100 == (m + n) % 0x100
  {
    hide Apart;
    hide Low;
    hide Shr;
    ApartLow(m, n, 8);
    BytesOf(m);
    BytesOf(n);
    BytesOf(m + n);
  }

  lemma UpperOfApart(m: nat, n: nat)
    requires Apart(m, n)
    ensures Apart(m / 0x100, n / 0x100) && (m + n) / 0x100 == m / 0x100 + n / 0x100
  {
    hide Apart;
    hide Low;
    hide Shr;
    ApartShr(m, n, 8);
    BytesOf(m);
    BytesOf(n);
    BytesOf(m + n);
  }

  /** The word that `LowBytes` collects from the three looked-up words. */
  function Collected(y0: Word, y1: Word, y2: Word): Word {
    var g0 := Plus(Plus(ByteAt(y2, 1), ByteAt(y1, 2)), ByteAt(y0, 3));
    var g1 := Plus(ByteAt(y2, 2), ByteAt(y1, 3));
    Join(ByteAt(g0, 0), ByteAt(g1, 0), ByteAt(y2, 3), ByteAt(g0, 3))
  }

  lemma CollectedIsShift(b0: Byte, b1: Byte, b2: Byte, a: nat)
    ensures Collected(SrlEntry(b0, a), SrlEntry(b1, a), SrlEntry(b2, a)) == Shr(0x1_0000 * b2 + 0x100 * b1 + b0, a)
  {
    hide Shr;
    EntryTop(b0, a);
    EntryTop(b1, a);
    EntryTop(b2, a);
    ThreeBytes(b0, b1, b2, a);
    CollectedIsSum(SrlEntry(b0, a), SrlEntry(b1, a), SrlEntry(b2, a));
  }

  lemma CollectedIsSum(y0: Word, y1: Word, y2: Word)
    requires y2 / 0x100 % 0x100 + y1 / 0x1_0000 % 0x100 + y0 / 0x100_0000 < 0x100
    requires y2 / 0x100 / 0x100 % 0x100 + y1 / 0x1_0000 / 0x100 < 0x100
    ensures Collected(y0, y1, y2) == y2 / 0x100 + y1 / 0x1_0000 + y0 / 0x100_0000
  {
    var g0 := ByteAt(y2, 1) + ByteAt(y1, 2) + ByteAt(y0, 3);
    var g1 := ByteAt(y2, 2) + ByteAt(y1, 3);
    DivTwice(y1);
    DivTwice(y0);
    JoinIs(g0, g1, ByteAt(y2, 3), 0);
    assert g0 < 0x100 && g1 < 0x100;
  }

  lemma DivTwice(y: Word)
    ensures y / 0x1_0000 == y / 0x100 / 0x100 && y / 0x100_0000 == y / 0x100 / 0x100 / 0x100
  {
  }

  lemma SrlFromBytes(b0: Byte, b1: Byte, b2: Byte, b3: Byte, a: nat)
    ensures Plus(Shr32(0x1_0000 * b2 + 0x100 * b1 + b0, a), SrlEntry(b3, a)) == Shr32(Join(b0, b1, b2, b3), a)
  {
    var lo: nat := 0x1_0000 * b2 + 0x100 * b1 + b0;
    JoinIs(b0, b1, b2, b3);
    ShiftUpByte(b3);
    Pow2Add(8, 16);
    Pow2Values();
    Pow2Small();
    ApartShifted(b3, lo, 24);
    ApartShr(0x100_0000 * b3, lo, a);
  }

  /** `c * 2^w` for a signed `c`. */
  function ScaleUp(c: int, w: nat): int {
    if w == 0 then c else 2 * ScaleUp(c, w - 1)
  }

  lemma {:induction false} ScaleUpIsMul(c: int, w: nat)
    ensures ScaleUp(c, w) == c * Pow2(w)
  {
    if w != 0 {
      ScaleUpIsMul(c, w - 1);
      assert c * (2 * Pow2(w - 1)) == 2 * (c * Pow2(w - 1));
    }
  }

  lemma {:induction false} HalvedSum(c: int, lo: nat, w: nat, a: nat)
    requires lo < Pow2(w)
    ensures Halved(ScaleUp(c, w) + lo, a) == Halved(ScaleUp(c, w), a) + Shr(lo, a)
    decreases a
  {
    if a != 0 {
      if w == 0 {
        assert ScaleUp(c / 2, 0) == c / 2;
        HalvedSum(c / 2, 0, 0, a - 1);
      } else {
        HalvedSum(c, lo / 2, w - 1, a - 1);
        assert (ScaleUp(c, w) + lo) / 2 == ScaleUp(c, w - 1) + lo / 2;
      }
    }
  }

  lemma SraFromBytes(b0: Byte, b1: Byte, b2: Byte, b3: Byte, a: nat)
    ensures Plus(Shr32(0x1_0000 * b2 + 0x100 * b1 + b0, a), SraEntry(b3, a)) == ShiftArith(Join(b0, b1, b2, b3), a)
  {
    hide Halved;
    hide Shr;
    var lo: nat := 0x1_0000 * b2 + 0x100 * b1 + b0;
    var c := if b3 < 128 then b3 else b3 - 256;
    TopByteScaled(c);
    JoinIs(b0, b1, b2, b3);
    HalvedSum(c, lo, 24, a);
    assert Signed(0x100_0000 * b3) == ScaleUp(c, 24);
    assert Signed(Join(b0, b1, b2, b3)) == ScaleUp(c, 24) + lo;
  }

  lemma TopByteScaled(c: int)
    ensures ScaleUp(c, 24) == 0x100_0000 * c && Pow2(24) == 0x100_0000
  {
    Pow2Add(8, 16);
    Pow2Values();
    Pow2Small();
    ScaleUpIsMul(c, 24);
  }

  // ----- left shifts -----

  function SllEntry(b: Byte, a: nat): Word { Shl(b, a) }

  lemma ModUnique(t: int, r: int, m: int)
    requires t == r + B32 * m && 0 <= r < B32
    ensures t % B32 == r
  {
  }

  lemma ShiftUpScaled(m: nat, c: nat, a: nat)
    ensures ShiftUp(c * m, a) == c * ShiftUp(m, a)
  {
    ShiftUpIsMul(c * m, a);
    ShiftUpIsMul(m, a);
    assert c * m * Pow2(a) == c * (m * Pow2(a));
  }

  lemma ShiftUpJoin(b0: Byte, b1: Byte, b2: Byte, b3: Byte, a: nat)
    ensures ShiftUp(Join(b0, b1, b2, b3), a)
         == ShiftUp(b0, a) + 0x100 * ShiftUp(b1, a) + 0x1_0000 * ShiftUp(b2, a) + 0x100_0000 * ShiftUp(b3, a)
  {
    JoinIs(b0, b1, b2, b3);
    ShiftUpSum(b0, 0x100 * b1, a);
    ShiftUpSum(b0 + 0x100 * b1, 0x1_0000 * b2, a);
    ShiftUpSum(b0 + 0x100 * b1 + 0x1_0000 * b2, 0x100_0000 * b3, a);
    ShiftUpScaled(b1, 0x100, a);
    ShiftUpScaled(b2, 0x1_0000, a);
    ShiftUpScaled(b3, 0x100_0000, a);
  }

  /** What `sll` adds up from the four looked-up words. */
  function Gathered(y0: Word, y1: Word, y2: Word, y3: Word): Word {
    Plus(Plus(Plus(Join(0, 0, 0, ByteAt(y3, 0)), Join(0, 0, ByteAt(y2, 0), ByteAt(y2, 1))), Shl(y1, 8)), y0)
  }

  lemma GatheredIsShift(b0: Byte, b1: Byte, b2: Byte, b3: Byte, a: nat)
    ensures Gathered(SllEntry(b0, a), SllEntry(b1, a), SllEntry(b2, a), SllEntry(b3, a))
         == Shl(Join(b0, b1, b2, b3), a)
  {
    hide Gathered;
    hide ShiftUp;
    hide Join;
    ShiftUpJoin(b0, b1, b2, b3, a);
    GatheredModulo(ShiftUp(b0, a), ShiftUp(b1, a), ShiftUp(b2, a), ShiftUp(b3, a));
  }

  lemma GatheredModulo(z0: nat, z1: nat, z2: nat, z3: nat)
    ensures Gathered(z0 % B32, z1 % B32, z2 % B32, z3 % B32)
         == (z0 + 0x100 * z1 + 0x1_0000 * z2 + 0x100_0000 * z3) % B32
  {
    hide Join;
    hide ByteAt;
    hide Plus;
    hide Shl;
    TopByte(z3);
    TopHalf(z2);
    UpperBytes(z1);
    AddModulo(0x100_0000 * z3, 0x1_0000 * z2);
    AddModulo(0x100_0000 * z3 + 0x1_0000 * z2, 0x100 * z1);
    AddModulo(0x100_0000 * z3 + 0x1_0000 * z2 + 0x100 * z1, z0);
  }

  lemma AddModulo(s: int, t: int)
    ensures Plus(s % B32, t % B32) == (s + t) % B32
  {
    hide Plus;
    var r := s % B32 + t % B32;
    PlusIsModulo(s % B32, t % B32);
    DivModUnique(s + t, B32, s / B32 + t / B32 + r / B32, r % B32);
  }

  lemma TopByte(z: nat)
    ensures Join(0, 0, 0, ByteAt(z % B32, 0)) == 0x100_0000 * z % B32
  {
    var y := z % B32;
    JoinIs(0, 0, 0, ByteAt(y, 0));
    ModUnique(0x100_0000 * z, 0x100_0000 * (y % 0x100), 0x100_0000 * (z / B32) + y / 0x100);
  }

  lemma TopHalf(z: nat)
    ensures Join(0, 0, ByteAt(z % B32, 0), ByteAt(z % B32, 1)) == 0x1_0000 * z % B32
  {
    var y := z % B32;
    JoinIs(0, 0, ByteAt(y, 0), ByteAt(y, 1));
    ModUnique(0x1_0000 * z, 0x1_0000 * (y % 0x100) + 0x100_0000 * (y / 0x100 % 0x100),
              0x1_0000 * (z / B32) + y / 0x100 / 0x100);
  }

  lemma UpperBytes(z: nat)
    ensures Shl(z % B32, 8) == 0x100 * z % B32
  {
    var y := z % B32;
    ShiftUpByte(y);
    ModUnique(0x100 * z, 0x100 * y % B32, 0x100 * (z / B32) + 0x100 * y / B32);
  }
}
