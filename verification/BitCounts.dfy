/** `__clzsi2`, `__ctzsi2` and their 64-bit forms: branch-free counting by halving the window. */
module BitCounts {
  import opened MachineWords

  // ----- leading zeros -----

  ghost predicate LeadingZeros(a: Word32, r: nat) {
    r < 32 && Pow2(31 - r) <= a < Pow2(32 - r)
  }

  /** `x` is the top window of `width` bits of `a` once `r` leading zeros are skipped. */
  ghost predicate TopWindow(a: Word32, x: nat, r: nat, width: nat) {
    r + width <= 32 && x == Shr(a, 32 - width - r) && 0 < x < Pow2(width)
  }

  lemma HalveTopWindow(a: Word32, x: nat, r: nat, h: nat)
    requires TopWindow(a, x, r, h + h)
    ensures x < Pow2(h) ==> TopWindow(a, Shr(x, 0), r + h, h)
    ensures x >= Pow2(h) ==> TopWindow(a, Shr(x, h), r, h)
  {
    ShrBound(x, h, h);
    ShrShr(a, 32 - (h + h) - r, h);
  }

  lemma QuotientRange(a: nat, k: nat)
    ensures Shr(a, k) * Pow2(k) <= a < (Shr(a, k) + 1) * Pow2(k)
  {
    ShrIsDiv(a, k);
    assert a == Shr(a, k) * Pow2(k) + a % Pow2(k);
  }

  lemma WholeWord(a: Word32)
    requires a != 0
    ensures TopWindow(a, a, 0, 16 + 16)
  {
    Pow2Values();
  }

  /** One halving step: the mask test decides which half of the window to keep. */
  lemma ClzStage(a: Word32, x: nat, r: nat, h: nat, mask: nat)
    requires TopWindow(a, x, r, h + h) && mask == ShiftUp(Pow2(h) - 1, h)
    ensures var t := if BitAnd(x, mask) == 0 then h else 0; TopWindow(a, Shr(x, h - t), r + t, h)
  {
    UpperMask(x, h, h);
    HalveTopWindow(a, x, r, h);
  }

  lemma ClzMasks()
    ensures 0xFFFF0000 == ShiftUp(Pow2(16) - 1, 16) && 0xFF00 == ShiftUp(Pow2(8) - 1, 8)
    ensures 0xF0 == ShiftUp(Pow2(4) - 1, 4) && 0xC == ShiftUp(Pow2(2) - 1, 2)
  {
    Pow2Small();
    Pow2Values();
    ShiftUpIsMul(0xFFFF, 16);
  }

  lemma LastTwoBitsSelect(x: nat)
    requires 0 < x < 4
    ensures BitAnd((2 - x) % B32, if BitAnd(x, 2) == 0 then B32 - 1 else 0) == if x < 2 then 1 else 0
  {
    Pow2Small();
    UpperMask(x, 1, 1);
    assert ShiftUp(1, 1) == 2;
    SelectMask((2 - x) % B32);
  }

  lemma WindowOfTwo(a: Word32, x: nat, r: nat)
    requires TopWindow(a, x, r, 2)
    ensures 0 < x < 4
    ensures LeadingZeros(a, if x < 2 then r + 1 else r)
  {
    Pow2Small();
    QuotientRange(a, 30 - r);
    if x < 2 {
      assert Pow2(31 - r) == 2 * Pow2(30 - r);
    } else {
      assert Pow2(31 - r) == 2 * Pow2(30 - r) && Pow2(32 - r) == 4 * Pow2(30 - r);
      MulMonotone(2, x, Pow2(30 - r));
      MulMonotone(x + 1, 4, Pow2(30 - r));
    }
  }

  lemma ClzTail(a: Word32, x: nat, r: nat)
    requires TopWindow(a, x, r, 2)
    ensures LeadingZeros(a, r + BitAnd((2 - x) % B32, if BitAnd(x, 2) == 0 then B32 - 1 else 0))
  {
    WindowOfTwo(a, x, r);
    LastTwoBitsSelect(x);
  }

  method ClzSi2(a: Word32) returns (r: nat)
    requires a != 0
    ensures LeadingZeros(a, r)
  {
    hide TopWindow;
    hide LeadingZeros;
    hide BitAnd;
    hide Shr;
    hide Pow2;
    ClzMasks();
    var x: nat := a;
    WholeWord(a);
    ClzStage(a, x, 0, 16, 0xFFFF0000);
    var t := if BitAnd(x, 0xFFFF0000) == 0 then 16 else 0;
    x := Shr(x, 16 - t);
    r := t;
    ClzStage(a, x, r, 8, 0xFF00);
    t := if BitAnd(x, 0xFF00) == 0 then 8 else 0;
    x := Shr(x, 8 - t);
    r := r + t;
    ClzStage(a, x, r, 4, 0xF0);
    t := if BitAnd(x, 0xF0) == 0 then 4 else 0;
    x := Shr(x, 4 - t);
    r := r + t;
    ClzStage(a, x, r, 2, 0xC);
    t := if BitAnd(x, 0xC) == 0 then 2 else 0;
    x := Shr(x, 2 - t);
    r := r + t;
    ClzTail(a, x, r);
    r := r + BitAnd((2 - x) % B32, if BitAnd(x, 2) == 0 then B32 - 1 else 0);
  }

  /** `v & -(c)` is `v` when the condition holds and 0 otherwise. */
  lemma SelectMask(v: Word32)
    ensures BitAnd(v, B32 - 1) == v && BitAnd(v, 0) == 0
  {
    Pow2Values();
    AndMask(v, 32);
    AndZero(v);
  }

  // ----- trailing zeros -----

  lemma {:induction false} TrailingZerosSplit(x: nat, h: nat)
    requires x > 0
    ensures x % Pow2(h) == 0 <==> TrailingZeros(x) >= h
    ensures x % Pow2(h) == 0 ==> Shr(x, h) > 0 && TrailingZeros(x) == h + TrailingZeros(Shr(x, h))
  {
    if h != 0 {
      ModDouble(x, Pow2(h - 1));
      if x % 2 == 0 {
        TrailingZerosSplit(x / 2, h - 1);
      }
    }
  }

  ghost predicate LowWindow(a: nat, x: nat, r: nat, width: nat)
    requires a > 0
  {
    x > 0 && TrailingZeros(a) == r + TrailingZeros(x) && TrailingZeros(x) < width
  }

  lemma CtzStage(a: nat, x: nat, r: nat, h: nat, mask: nat)
    requires a > 0 && LowWindow(a, x, r, 2 * h) && mask == Pow2(h) - 1
    ensures var t := if BitAnd(x, mask) == 0 then h else 0; LowWindow(a, Shr(x, t), r + t, h)
  {
    AndMask(x, h);
    TrailingZerosSplit(x, h);
    assert Shr(x, 0) == x;
  }

  lemma CtzMasks()
    ensures 0xFFFF == Pow2(16) - 1 && 0xFF == Pow2(8) - 1 && 0xF == Pow2(4) - 1 && 3 == Pow2(2) - 1
  {
    Pow2Small();
    Pow2Values();
  }

  method CtzSi2(a: Word32) returns (r: nat)
    requires a != 0
    ensures r < 32 && r == TrailingZeros(a)
  {
    CtzMasks();
    var x: nat := a;
    assert TrailingZeros(a) < 32 by {
      Pow2Values();
      TrailingZerosBound(a, 32);
    }
    CtzStage(a, x, 0, 16, 0xFFFF);
    var t := if BitAnd(x, 0x0000FFFF) == 0 then 16 else 0;
    x := Shr(x, t);
    r := t;
    CtzStage(a, x, r, 8, 0xFF);
    t := if BitAnd(x, 0x00FF) == 0 then 8 else 0;
    x := Shr(x, t);
    r := r + t;
    CtzStage(a, x, r, 4, 0xF);
    t := if BitAnd(x, 0x0F) == 0 then 4 else 0;
    x := Shr(x, t);
    r := r + t;
    CtzStage(a, x, r, 2, 3);
    t := if BitAnd(x, 0x3) == 0 then 2 else 0;
    x := Shr(x, t);
    r := r + t;
    LastTwoBits(x);
    x := BitAnd(x, 3);
    r := r + BitAnd((2 - Shr(x, 1)) % B32, if BitAnd(x, 1) == 0 then B32 - 1 else 0);
  }

  lemma LastTwoBits(x: nat)
    requires x > 0 && TrailingZeros(x) < 2
    ensures var y := BitAnd(x, 3);
            TrailingZeros(x) == BitAnd((2 - Shr(y, 1)) % B32, if BitAnd(y, 1) == 0 then B32 - 1 else 0)
  {
    Pow2Small();
    var y := BitAnd(x, 3);
    AndMask(x, 2);
    AndMask(y, 1);
    assert y == x % 4 && BitAnd(y, 1) == y % 2;
    assert x % 2 == 0 ==> (x / 2) % 2 == 1;
    SelectMask((2 - Shr(y, 1)) % B32);
  }

  // ----- the 64-bit forms -----

  /** `(hi & f) | (lo & ~f)` with `f` all ones or all zeros picks one of the two words. */
  lemma SelectWord(hi: Word32, lo: Word32)
    ensures BitOr(BitAnd(hi, B32 - 1), BitAnd(lo, 0)) == hi
    ensures BitOr(BitAnd(hi, 0), BitAnd(lo, B32 - 1)) == lo
  {
    SelectMask(hi);
    SelectMask(lo);
  }

  lemma LowWordZero(hi: Word32)
    requires hi > 0
    ensures TrailingZeros(hi * B32) == 32 + TrailingZeros(hi)
  {
    Pow2Values();
    DivModUnique(hi * B32, B32, hi, 0);
    TrailingZerosSplit(hi * B32, 32);
    ShrIsDiv(hi * B32, 32);
  }

  lemma {:induction false} LowWordDecides(hi: nat, lo: nat, k: nat)
    requires 0 < lo < Pow2(k)
    ensures hi * Pow2(k) + lo > 0 && TrailingZeros(hi * Pow2(k) + lo) == TrailingZeros(lo)
  {
    var y := hi * Pow2(k);
    MulMonotone(0, hi, Pow2(k));
    assert y == 2 * (hi * Pow2(k - 1)) by {
      assert Pow2(k) == 2 * Pow2(k - 1);
    }
    if lo % 2 == 0 {
      LowWordDecides(hi, lo / 2, k - 1);
      assert (y + lo) / 2 == hi * Pow2(k - 1) + lo / 2;
    }
  }

  method CtzDi2(hi: Word32, lo: Word32) returns (r: nat)
    requires hi != 0 || lo != 0
    ensures hi * B32 + lo > 0 && r == TrailingZeros(hi * B32 + lo)
  {
    var f := if lo == 0 then B32 - 1 else 0;
    SelectWord(hi, lo);
    SelectMask(32);
    var c := CtzSi2(BitOr(BitAnd(hi, f), BitAnd(lo, B32 - 1 - f)));
    AndCommutes(f, 32);
    r := c + BitAnd(f, 32);
    Pow2Values();
    if lo == 0 {
      LowWordZero(hi);
    } else {
      LowWordDecides(hi, lo, 32);
    }
  }

  lemma WordsBounds(hi: Word32, lo: Word32, c: nat)
    requires LeadingZeros(hi, c)
    ensures Pow2(63 - c) <= hi * B32 + lo < Pow2(64 - c)
  {
    Pow2Values();
    Pow2Add(31 - c, 32);
    Pow2Add(32 - c, 32);
    assert Pow2(63 - c) == Pow2(31 - c) * B32 && Pow2(64 - c) == Pow2(32 - c) * B32;
  }

  method ClzDi2(hi: Word32, lo: Word32) returns (r: nat)
    requires hi != 0 || lo != 0
    ensures r < 64 && Pow2(63 - r) <= hi * B32 + lo < Pow2(64 - r)
  {
    var f := if hi == 0 then B32 - 1 else 0;
    SelectWord(hi, lo);
    SelectMask(32);
    var c := ClzSi2(BitOr(BitAnd(hi, B32 - 1 - f), BitAnd(lo, f)));
    AndCommutes(f, 32);
    r := c + BitAnd(f, 32);
    if hi != 0 {
      WordsBounds(hi, lo, c);
    }
  }
}
