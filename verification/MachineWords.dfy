/** C operators on unsigned words, as functions on natural numbers. */
module MachineWords {

  function Pow2(n: nat): (p: nat)
    ensures p >= 1
  {
    if n == 0 then 1 else 2 * Pow2(n - 1)
  }

  const B32 := 0x1_0000_0000
  const B64 := 0x1_0000_0000_0000_0000

  type Word32 = x: int | 0 <= x < B32
  type Word64 = x: int | 0 <= x < B64

  function BitAnd(x: nat, y: nat): nat {
    if x == 0 || y == 0 then 0 else 2 * BitAnd(x / 2, y / 2) + (if x % 2 == 1 && y % 2 == 1 then 1 else 0)
  }

  function BitOr(x: nat, y: nat): nat {
    if x == 0 then y else if y == 0 then x
    else 2 * BitOr(x / 2, y / 2) + (if x % 2 == 1 || y % 2 == 1 then 1 else 0)
  }

  function BitXor(x: nat, y: nat): nat {
    if x == 0 then y else if y == 0 then x
    else 2 * BitXor(x / 2, y / 2) + (if x % 2 != y % 2 then 1 else 0)
  }

  /** `m << k` on unbounded numbers. */
  function ShiftUp(m: nat, k: nat): nat {
    if k == 0 then m else 2 * ShiftUp(m, k - 1)
  }

  /** `x << k` on a 32-bit word. */
  function Shl(x: Word32, k: nat): Word32 {
    ShiftUp(x, k) % B32
  }

  /** `x >> k` on an unsigned word. */
  function Shr(x: nat, k: nat): nat {
    if k == 0 then x else Shr(x / 2, k - 1)
  }

  /** The low `k` bits. */
  function Low(x: nat, k: nat): nat {
    if k == 0 then 0 else 2 * Low(x / 2, k - 1) + x % 2
  }

  lemma Pow2Small()
    ensures Pow2(0) == 1 && Pow2(1) == 2 && Pow2(2) == 4 && Pow2(4) == 16 && Pow2(8) == 0x100
  {
  }

  lemma Pow2Double(n: nat, p: nat)
    requires Pow2(n) == p
    ensures Pow2(n + n) == p * p
  {
    Pow2Add(n, n);
  }

  lemma Pow2Values()
    ensures Pow2(16) == 0x1_0000 && Pow2(31) == 0x8000_0000 && Pow2(32) == B32
    ensures Pow2(63) == 0x8000_0000_0000_0000 && Pow2(64) == B64
  {
    Pow2Small();
    Pow2Double(8, 0x100);
    Pow2Double(16, 0x1_0000);
    Pow2Double(32, B32);
    Pow2Half(31, 0x8000_0000);
    Pow2Half(63, 0x8000_0000_0000_0000);
  }

  lemma Pow2Half(n: nat, p: nat)
    requires Pow2(n + 1) == 2 * p
    ensures Pow2(n) == p
  {
  }

  lemma {:induction false} Pow2Add(m: nat, n: nat)
    ensures Pow2(m + n) == Pow2(m) * Pow2(n)
  {
    if m != 0 {
      Pow2Add(m - 1, n);
      assert 2 * (Pow2(m - 1) * Pow2(n)) == (2 * Pow2(m - 1)) * Pow2(n);
    }
  }

  lemma {:induction false} Pow2Monotone(m: nat, n: nat)
    requires m <= n
    ensures Pow2(m) <= Pow2(n)
    ensures m < n ==> 2 * Pow2(m) <= Pow2(n)
  {
    if m < n {
      Pow2Monotone(m, n - 1);
    }
  }

  /** A product written as repeated addition, for invariants that only ever add to it. */
  function Times(k: nat, d: nat): nat {
    if k == 0 then 0 else Times(k - 1, d) + d
  }

  lemma {:induction false} TimesIsMul(k: nat, d: nat)
    ensures Times(k, d) == k * d
  {
    if k != 0 {
      TimesIsMul(k - 1, d);
      assert (k - 1) * d + d == k * d;
    }
  }

  lemma {:induction false} TimesAtLeast(k: nat, d: nat)
    requires d >= 1
    ensures Times(k, d) >= k
  {
    if k != 0 {
      TimesAtLeast(k - 1, d);
    }
  }

  // ----- division with remainder -----

  lemma MulMonotone(x: int, y: int, z: int)
    requires x <= y && 0 <= z
    ensures x * z <= y * z
  {
  }

  lemma DivModUnique(x: int, p: int, q: int, r: int)
    requires p > 0 && x == q * p + r && 0 <= r < p
    ensures x / p == q && x % p == r
  {
    var q', r' := x / p, x % p;
    assert x == q' * p + r';
    assert (q - q') * p == r' - r;
    if q - q' >= 1 {
      MulMonotone(1, q - q', p);
    } else if q - q' <= -1 {
      MulMonotone(q - q', -1, p);
    }
  }

  /** Two-digit numbers: with `d < q` and `b < p`, the digits `d`, `b` stay below `p * q`. */
  lemma TwoDigits(c: nat, d: nat, b: nat, p: nat, q: nat)
    requires p > 0 && q > 0 && d < q && b < p
    ensures 0 <= d * p + b < p * q
    ensures (c * q + d) * p + b == c * (p * q) + (d * p + b)
  {
    MulMonotone(d, q - 1, p);
    MulMonotone(0, d, p);
    assert (q - 1) * p == p * q - p;
    assert (c * q + d) * p == (c * q) * p + d * p;
    assert (c * q) * p == c * (p * q);
  }

  lemma QuotientRemainder(x: nat, p: nat)
    requires p > 0
    ensures x == x / p * p + x % p && 0 <= x % p < p && x / p >= 0
  {
  }

  lemma DivMul(x: nat, p: nat, q: nat)
    requires p > 0 && q > 0
    ensures p * q > 0 && x / p / q == x / (p * q)
  {
    var a, b := x / p, x % p;
    var c, d := a / q, a % q;
    TwoDigits(c, d, b, p, q);
    QuotientRemainder(x, p);
    QuotientRemainder(a, q);
    DivModUnique(x, p * q, c, d * p + b);
  }

  lemma {:induction false} ShrShr(x: nat, m: nat, n: nat)
    ensures Shr(Shr(x, m), n) == Shr(x, m + n)
  {
    if m != 0 {
      ShrShr(x / 2, m - 1, n);
    }
  }

  lemma {:induction false} ShrIsDiv(x: nat, k: nat)
    ensures Shr(x, k) == x / Pow2(k)
  {
    if k == 0 {
      assert x / 1 == x;
    } else {
      ShrIsDiv(x / 2, k - 1);
      DivMul(x, 2, Pow2(k - 1));
    }
  }

  lemma {:induction false} LowIsMod(x: nat, k: nat)
    ensures Low(x, k) == x % Pow2(k) && Low(x, k) < Pow2(k)
  {
    if k == 0 {
      assert x % 1 == 0;
    } else {
      LowIsMod(x / 2, k - 1);
      ModDouble(x, Pow2(k - 1));
    }
  }

  /** Bit `k` and the bits below it. */
  lemma {:induction false} LowTop(x: nat, k: nat)
    ensures Low(x, k + 1) == Low(x, k) + (if Shr(x, k) % 2 == 1 then Pow2(k) else 0)
    ensures Shr(x, k) == 2 * Shr(x, k + 1) + Shr(x, k) % 2
  {
    if k != 0 {
      LowTop(x / 2, k - 1);
    } else {
      assert Shr(x, 1) == Shr(x / 2, 0);
      assert Low(x, 1) == 2 * Low(x / 2, 0) + x % 2;
    }
  }

  lemma {:induction false} ShrShrinks(x: nat, k: nat)
    ensures Shr(x, k) <= x
  {
    if k != 0 {
      ShrShrinks(x / 2, k - 1);
    }
  }

  lemma {:induction false} ShiftUpSum(a: nat, b: nat, k: nat)
    ensures ShiftUp(a + b, k) == ShiftUp(a, k) + ShiftUp(b, k)
  {
    if k != 0 {
      ShiftUpSum(a, b, k - 1);
    }
  }

  lemma {:induction false} ShiftUpPow(j: nat, k: nat)
    ensures ShiftUp(Pow2(j), k) == Pow2(j + k)
  {
    if k != 0 {
      ShiftUpPow(j, k - 1);
    }
  }

  lemma {:induction false} ShiftUpBound(a: nat, j: nat, k: nat)
    requires a < Pow2(j)
    ensures ShiftUp(a, k) + Pow2(k) <= Pow2(j + k)
  {
    if k != 0 {
      ShiftUpBound(a, j, k - 1);
    }
  }

  lemma {:induction false} ShiftUpShiftUp(a: nat, j: nat, k: nat)
    ensures ShiftUp(ShiftUp(a, j), k) == ShiftUp(a, j + k)
  {
    if k != 0 {
      ShiftUpShiftUp(a, j, k - 1);
    }
  }

  lemma {:induction false} SplitAt(x: nat, k: nat)
    ensures x == ShiftUp(Shr(x, k), k) + Low(x, k)
  {
    if k != 0 {
      SplitAt(x / 2, k - 1);
    }
  }

  // ----- a number made of a high part and `w` low bits -----

  lemma {:induction false} ShrOfPair(hi: nat, lo: nat, w: nat, k: nat)
    requires k <= w
    ensures Shr(ShiftUp(hi, w) + lo, k) == ShiftUp(hi, w - k) + Shr(lo, k)
  {
    if k != 0 {
      ShrOfPair(hi, lo / 2, w - 1, k - 1);
    }
  }

  lemma {:induction false} LowOfPair(hi: nat, lo: nat, w: nat, k: nat)
    requires k <= w
    ensures Low(ShiftUp(hi, w) + lo, k) == Low(lo, k)
  {
    if k != 0 {
      var z := ShiftUp(hi, w - 1);
      assert ShiftUp(hi, w) == 2 * z;
      DivModUnique(2 * z + lo, 2, z + lo / 2, lo % 2);
      LowOfPair(hi, lo / 2, w - 1, k - 1);
    }
  }

  lemma {:induction false} LowAcrossPair(hi: nat, lo: nat, w: nat, k: nat)
    requires lo < Pow2(w)
    ensures Low(ShiftUp(hi, w) + lo, w + k) == ShiftUp(Low(hi, k), w) + lo
  {
    if w != 0 {
      LowAcrossPair(hi, lo / 2, w - 1, k);
    }
  }

  lemma {:induction false} ShiftUpZero(k: nat)
    ensures ShiftUp(0, k) == 0
  {
    if k != 0 {
      ShiftUpZero(k - 1);
    }
  }

  lemma {:induction false} ShiftUpIsMul(m: nat, k: nat)
    ensures ShiftUp(m, k) == m * Pow2(k)
  {
    if k != 0 {
      ShiftUpIsMul(m, k - 1);
      assert m * (2 * Pow2(k - 1)) == 2 * (m * Pow2(k - 1));
    }
  }

  // ----- bitwise operators with masks -----

  lemma {:induction false} OrDisjoint(x: nat, y: nat, k: nat)
    requires x % Pow2(k) == 0 && y < Pow2(k)
    ensures BitOr(x, y) == x + y
  {
    if k != 0 && x != 0 && y != 0 {
      var p := Pow2(k - 1);
      var c := x / (2 * p);
      assert x == c * (2 * p);
      assert x == 2 * (c * p);
      DivModUnique(x / 2, p, c, 0);
      OrDisjoint(x / 2, y / 2, k - 1);
    }
  }

  lemma ModDouble(x: nat, p: nat)
    requires p > 0
    ensures x % (2 * p) == 2 * (x / 2 % p) + x % 2
  {
    var c, d := x / 2 / p, x / 2 % p;
    assert x / 2 == c * p + d;
    assert c * (2 * p) == 2 * (c * p);
    DivModUnique(x, 2 * p, c, 2 * d + x % 2);
  }

  lemma AndUnfold(x: nat, y: nat)
    ensures BitAnd(x, y) == 2 * BitAnd(x / 2, y / 2) + (if x % 2 == 1 && y % 2 == 1 then 1 else 0)
  {
  }

  lemma {:induction false} AndCommutes(x: nat, y: nat)
    ensures BitAnd(x, y) == BitAnd(y, x)
  {
    if x != 0 && y != 0 {
      AndCommutes(x / 2, y / 2);
    }
  }

  lemma AndZero(x: nat)
    ensures BitAnd(x, 0) == 0
  {
  }

  lemma {:induction false} AndMaskIsLow(x: nat, k: nat)
    ensures BitAnd(x, Pow2(k) - 1) == Low(x, k)
  {
    if k != 0 {
      AndMaskIsLow(x / 2, k - 1);
      AndMaskStep(x, Pow2(k - 1));
    } else {
      AndZero(x);
    }
  }

  lemma AndMask(x: nat, k: nat)
    ensures BitAnd(x, Pow2(k) - 1) == x % Pow2(k)
  {
    AndMaskIsLow(x, k);
    LowIsMod(x, k);
  }

  lemma AndMaskStep(x: nat, p: nat)
    requires p > 0
    ensures BitAnd(x, 2 * p - 1) == 2 * BitAnd(x / 2, p - 1) + x % 2
  {
    assert (2 * p - 1) / 2 == p - 1 && (2 * p - 1) % 2 == 1;
  }

  lemma AndEven(x: nat, y: nat)
    ensures BitAnd(x, 2 * y) == 2 * BitAnd(x / 2, y)
  {
    var z := 2 * y;
    assert z / 2 == y && z % 2 == 0;
    if x != 0 && y != 0 {
      assert BitAnd(x, z) == 2 * BitAnd(x / 2, z / 2) + 0;
    }
  }

  lemma {:induction false} ShrBound(x: nat, k: nat, w: nat)
    requires x < Pow2(k + w)
    ensures Shr(x, k) < Pow2(w)
    ensures Shr(x, k) == 0 <==> x < Pow2(k)
  {
    if k != 0 {
      ShrBound(x / 2, k - 1, w);
    }
  }

  /** Masking with `m << k` looks only at the bits from `k` up. */
  lemma {:induction false} AndHigh(x: nat, m: nat, k: nat)
    ensures BitAnd(x, ShiftUp(m, k)) == 0 <==> BitAnd(Shr(x, k), m) == 0
  {
    if k != 0 {
      AndEven(x, ShiftUp(m, k - 1));
      AndHigh(x / 2, m, k - 1);
    }
  }

  /** For `x` of at most `k + w` bits, masking with its upper `w` bits says whether `x` fits in `k`. */
  lemma UpperMask(x: nat, k: nat, w: nat)
    requires x < Pow2(k + w)
    ensures BitAnd(x, ShiftUp(Pow2(w) - 1, k)) == 0 <==> x < Pow2(k)
  {
    AndHigh(x, Pow2(w) - 1, k);
    AndMask(Shr(x, k), w);
    ShrBound(x, k, w);
    DivModUnique(Shr(x, k), Pow2(w), 0, Shr(x, k));
  }

  lemma {:induction false} XorOnes(x: nat, k: nat)
    requires x < Pow2(k)
    ensures BitXor(x, Pow2(k) - 1) == Pow2(k) - 1 - x
  {
    if k != 0 {
      var p := Pow2(k - 1);
      XorOnes(x / 2, k - 1);
      if x != 0 {
        assert (2 * p - 1) / 2 == p - 1 && (2 * p - 1) % 2 == 1;
      }
    }
  }

  lemma {:induction false} BitwiseBound(x: nat, y: nat, k: nat)
    requires x < Pow2(k) && y < Pow2(k)
    ensures BitAnd(x, y) < Pow2(k) && BitOr(x, y) < Pow2(k) && BitXor(x, y) < Pow2(k)
  {
    if k != 0 {
      BitwiseBound(x / 2, y / 2, k - 1);
    }
  }

  /** The operators on 32-bit words. */
  function And32(x: Word32, y: Word32): Word32 {
    Pow2Values();
    BitwiseBound(x, y, 32);
    BitAnd(x, y)
  }

  function Or32(x: Word32, y: Word32): Word32 {
    Pow2Values();
    BitwiseBound(x, y, 32);
    BitOr(x, y)
  }

  function Xor32(x: Word32, y: Word32): Word32 {
    Pow2Values();
    BitwiseBound(x, y, 32);
    BitXor(x, y)
  }

  function Not32(x: Word32): Word32 {
    B32 - 1 - x
  }

  function Shr32(x: Word32, k: nat): Word32 {
    ShrShrinks(x, k);
    Shr(x, k)
  }

  function Add32(x: Word32, y: Word32): Word32 {
    (x + y) % B32
  }

  /** The index of the lowest set bit. */
  function TrailingZeros(x: nat): (k: nat)
    requires x > 0
  {
    if x % 2 == 1 then 0 else 1 + TrailingZeros(x / 2)
  }

  lemma {:induction false} TrailingZerosBound(x: nat, n: nat)
    requires 0 < x < Pow2(n)
    ensures TrailingZeros(x) < n
  {
    if x % 2 == 0 {
      TrailingZerosBound(x / 2, n - 1);
    }
  }

  /** `(d & (d - 1)) == 0` tests for a power of two, and the exponent is the number of trailing zeros. */
  lemma {:induction false} PowerOfTwoTest(d: nat)
    requires d > 0
    ensures BitAnd(d, d - 1) == 0 <==> d == Pow2(TrailingZeros(d))
  {
    if d % 2 == 1 {
      if d > 1 {
        assert BitAnd(d, d - 1) == 2 * BitAnd(d / 2, (d - 1) / 2);
        assert (d - 1) / 2 == d / 2;
        AndSelf(d / 2);
      }
    } else {
      PowerOfTwoTest(d / 2);
      assert (d - 1) / 2 == d / 2 - 1;
      if d / 2 - 1 == 0 {
        assert BitAnd(d / 2, 0) == 0;
      }
      assert BitAnd(d, d - 1) == 2 * BitAnd(d / 2, d / 2 - 1);
    }
  }

  lemma {:induction false} AndSelf(x: nat)
    ensures BitAnd(x, x) == x
  {
    if x != 0 {
      AndSelf(x / 2);
    }
  }
}
