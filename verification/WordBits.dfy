/** Single bits of words, and what the bitwise operators do to them. */
module WordBits {
  import opened MachineWords

  /** Bit `i`, the lowest being bit 0. */
  predicate Bit(x: nat, i: nat) {
    if i == 0 then x % 2 == 1 else Bit(x / 2, i - 1)
  }

  lemma {:induction false} BitZero(i: nat)
    ensures !Bit(0, i)
  {
    if i != 0 {
      BitZero(i - 1);
    }
  }

  lemma BitOfPair(h: nat, b: nat, i: nat)
    requires b < 2
    ensures Bit(2 * h + b, i) <==> if i == 0 then b == 1 else Bit(h, i - 1)
  {
    assert (2 * h + b) / 2 == h && (2 * h + b) % 2 == b;
  }

  lemma {:induction false} AndBit(x: nat, y: nat, i: nat)
    ensures Bit(BitAnd(x, y), i) <==> Bit(x, i) && Bit(y, i)
  {
    if x == 0 || y == 0 {
      BitZero(i);
    } else {
      BitOfPair(BitAnd(x / 2, y / 2), if x % 2 == 1 && y % 2 == 1 then 1 else 0, i);
      if i != 0 {
        AndBit(x / 2, y / 2, i - 1);
      }
    }
  }

  lemma {:induction false} OrBit(x: nat, y: nat, i: nat)
    ensures Bit(BitOr(x, y), i) <==> Bit(x, i) || Bit(y, i)
  {
    if x == 0 || y == 0 {
      BitZero(i);
    } else {
      BitOfPair(BitOr(x / 2, y / 2), if x % 2 == 1 || y % 2 == 1 then 1 else 0, i);
      if i != 0 {
        OrBit(x / 2, y / 2, i - 1);
      }
    }
  }

  lemma {:induction false} XorBit(x: nat, y: nat, i: nat)
    ensures Bit(BitXor(x, y), i) <==> Bit(x, i) != Bit(y, i)
  {
    if x == 0 || y == 0 {
      BitZero(i);
    } else {
      BitOfPair(BitXor(x / 2, y / 2), if x % 2 != y % 2 then 1 else 0, i);
      if i != 0 {
        XorBit(x / 2, y / 2, i - 1);
      }
    }
  }

  lemma {:induction false} ShrBit(x: nat, k: nat, i: nat)
    ensures Bit(Shr(x, k), i) <==> Bit(x, i + k)
  {
    if k != 0 {
      ShrBit(x / 2, k - 1, i);
    }
  }

  lemma {:induction false} ShiftUpBit(x: nat, k: nat, i: nat)
    ensures Bit(ShiftUp(x, k), i) <==> i >= k && Bit(x, i - k)
  {
    if k != 0 {
      var z := ShiftUp(x, k - 1);
      BitOfPair(z, 0, i);
      if i != 0 {
        ShiftUpBit(x, k - 1, i - 1);
      }
    }
  }

  lemma {:induction false} LowBit(x: nat, k: nat, i: nat)
    ensures Bit(Low(x, k), i) <==> i < k && Bit(x, i)
  {
    if k == 0 {
      BitZero(i);
    } else if i != 0 {
      LowBit(x / 2, k - 1, i - 1);
    }
  }

  lemma ShlBit(x: Word32, k: nat, i: nat)
    requires i < 32
    ensures Bit(Shl(x, k), i) <==> i >= k && Bit(x, i - k)
  {
    Pow2Values();
    LowIsMod(ShiftUp(x, k), 32);
    LowBit(ShiftUp(x, k), 32, i);
    ShiftUpBit(x, k, i);
  }

  lemma {:induction false} HighBitsClear(x: nat, n: nat, i: nat)
    requires x < Pow2(n) && i >= n
    ensures !Bit(x, i)
  {
    if n == 0 {
      BitZero(i);
    } else {
      HighBitsClear(x / 2, n - 1, i - 1);
    }
  }

  lemma {:induction false} ComplementBit(x: nat, n: nat, i: nat)
    requires x < Pow2(n) && i < n
    ensures Bit(Pow2(n) - 1 - x, i) <==> !Bit(x, i)
  {
    var y := Pow2(n) - 1 - x;
    assert y / 2 == Pow2(n - 1) - 1 - x / 2;
    if i != 0 {
      ComplementBit(x / 2, n - 1, i - 1);
    }
  }

  lemma NotBit(x: Word32, i: nat)
    requires i < 32
    ensures Bit(Not32(x), i) <==> !Bit(x, i)
  {
    Pow2Values();
    ComplementBit(x, 32, i);
  }
}
