/** 64-bit division built from 32-bit words: `__udivmoddi4` and the signed entry points over it. */
module Division64 {
  import opened MachineWords
  import opened BitCounts

  const TOP: int := 0x8000_0000_0000_0000

  function Hi(x: Word64): Word32 { x / B32 }

  function Lo(x: Word64): Word32 { x % B32 }

  /** The `udwords` union: two words seen as one. */
  function All(hi: Word32, lo: Word32): Word64 { hi * B32 + lo }

  /** Arithmetic right shift by 63: the sign bit copied into every position. */
  function SignMask(x: Word64): Word64 {
    if x >= TOP then B64 - 1 else 0
  }

  // ----- one step of the shift-subtract loop -----

  lemma ShiftInBit(x: Word32, bit: nat)
    requires bit < 2
    ensures BitOr(Shl(x, 1), bit) == 2 * x % B32 + bit
  {
    assert ShiftUp(x, 1) == 2 * ShiftUp(x, 0);
    assert Pow2(1) == 2;
    OrDisjoint(Shl(x, 1), bit, 1);
  }

  lemma TopBitOfWord(x: Word32)
    ensures Shr(x, 31) == x / 0x8000_0000 && Shr(x, 31) < 2
  {
    Pow2Values();
    ShrIsDiv(x, 31);
  }

  lemma DoublePair(hi: Word32, lo: Word32, bit: nat)
    requires bit < 2
    ensures (2 * hi % B32 + lo / 0x8000_0000) * B32 + (2 * lo % B32 + bit) == 2 * All(hi, lo) % B64 + bit
    ensures 2 * hi % B32 + lo / 0x8000_0000 < B32 && 2 * lo % B32 + bit < B32
    ensures All(hi, lo) / TOP == hi / 0x8000_0000
  {
    var h1, h0, l1, l0 := hi / 0x8000_0000, hi % 0x8000_0000, lo / 0x8000_0000, lo % 0x8000_0000;
    DivModUnique(2 * hi as int, B32, h1, 2 * h0);
    DivModUnique(2 * lo as int, B32, l1, 2 * l0);
    DivModUnique(2 * All(hi, lo) as int, B64, h1, (2 * h0 + l1) * B32 + 2 * l0);
    DivModUnique(All(hi, lo), TOP, h1, h0 * B32 + lo);
  }

  /** The four words shifted together are the 128-bit number r:q doubled, plus the carry. */
  lemma DoubleWords(rh: Word32, rl: Word32, qh: Word32, ql: Word32, carry: nat)
    requires carry < 2
    ensures var rh', rl' := BitOr(Shl(rh, 1), Shr(rl, 31)), BitOr(Shl(rl, 1), Shr(qh, 31));
            var qh', ql' := BitOr(Shl(qh, 1), Shr(ql, 31)), BitOr(Shl(ql, 1), carry);
            && rh' < B32 && rl' < B32 && qh' < B32 && ql' < B32
            && All(rh', rl') == 2 * All(rh, rl) % B64 + All(qh, ql) / TOP
            && All(qh', ql') == 2 * All(qh, ql) % B64 + carry
  {
    TopBitOfWord(rl);
    TopBitOfWord(qh);
    TopBitOfWord(ql);
    ShiftInBit(rh, Shr(rl, 31));
    ShiftInBit(rl, Shr(qh, 31));
    ShiftInBit(qh, Shr(ql, 31));
    ShiftInBit(ql, carry);
    DoublePair(rh, rl, Shr(qh, 31));
    DoublePair(qh, ql, carry);
  }

  /** `q` holds the `sr` dividend bits still to come above the quotient bits `p` already shifted in. */
  ghost predicate Pending(n: Word64, sr: nat, q: nat, p: nat) {
    sr <= 64 && p < Pow2(64 - sr) && q == ShiftUp(Low(n, sr), 64 - sr) + p
  }

  /** Doubling `q` moves the next dividend bit out at the top. */
  lemma NextBit(n: Word64, sr: nat, q: Word64, p: nat, carry: nat)
    requires sr > 0 && carry < 2 && Pending(n, sr, q, p)
    ensures q / TOP == Shr(n, sr - 1) % 2
    ensures Pending(n, sr - 1, 2 * q % B64 + carry, 2 * p + carry)
  {
    var bit, rest := Shr(n, sr - 1) % 2, Low(n, sr - 1);
    LowTop(n, sr - 1);
    LowIsMod(n, sr - 1);
    ShiftUpPow(sr - 1, 64 - sr);
    ShiftUpSum(rest, Pow2(sr - 1), 64 - sr);
    Pow2Values();
    ShiftUpBound(rest, sr - 1, 64 - sr);
    assert sr - 1 + (64 - sr) == 63;
    TopBitLeaves(q, bit, ShiftUp(rest, 64 - sr) + p);
    Doubled(rest, 64 - sr);
  }

  lemma Doubled(x: nat, k: nat)
    ensures ShiftUp(x, k + 1) == 2 * ShiftUp(x, k) && Pow2(k + 1) == 2 * Pow2(k)
  {
  }

  lemma TopBitLeaves(q: Word64, bit: nat, low: nat)
    requires bit < 2 && low < TOP && q == low + (if bit == 1 then TOP else 0)
    ensures q / TOP == bit && 2 * q % B64 == 2 * low
  {
  }

  /** The quotient so far is `2 * p + carry`, with remainder `r` below the divisor. */
  ghost predicate Progress(n: Word64, d: Word64, sr: nat, q: nat, r: nat, carry: nat, p: nat) {
    && Pending(n, sr, q, p)
    && carry < 2 && r < d
    && Shr(n, sr) == Times(2 * p + carry, d) + r
    && (d >= TOP ==> n >= TOP && sr <= 1 && (sr == 1 ==> p == 0 && carry == 0))
  }

  /** `x` stands for the part of the dividend already divided out, in units of the current bit. */
  lemma SignTestBounds(d: Word64, x: nat, r: nat, bit: nat, top: Word64)
    requires r < d && bit < 2
    requires top == 2 * x + (2 * r + bit)
    requires d >= TOP ==> x == 0 && top >= TOP
    ensures 2 * r + bit < B64 && 2 * r % B64 + bit == 2 * r + bit
    ensures (d - (2 * r + bit) - 1) % B64 >= TOP <==> 2 * r + bit >= d
  {
  }

  /** The shifted remainder fits in 64 bits, and the sign of `d - r - 1` tells whether `r >= d`. */
  lemma SignTestExact(n: Word64, d: Word64, sr: nat, q: Word64, r: nat, carry: nat, p: nat)
    requires sr > 0 && Progress(n, d, sr, q, r, carry, p)
    ensures var r' := 2 * r + Shr(n, sr - 1) % 2;
            && Shr(n, sr - 1) == 2 * Times(2 * p + carry, d) + r'
            && r' < B64 && 2 * r % B64 + Shr(n, sr - 1) % 2 == r'
            && ((d - r' - 1) % B64 >= TOP <==> r' >= d)
  {
    LowTop(n, sr - 1);
    ShrShrinks(n, sr - 1);
    var x := Times(2 * p + carry, d);
    if d >= TOP {
      assert 2 * p + carry == 0;
      assert Shr(n, 0) == n;
    }
    SignTestBounds(d, x, r, Shr(n, sr - 1) % 2, Shr(n, sr - 1));
  }

  lemma QuotientBit(y: nat, d: nat, c: nat, r': nat, top: nat)
    requires c < 2 && top == 2 * Times(y, d) + r'
    ensures top == Times(2 * y + c, d) + (r' - if c == 1 then d else 0)
  {
    TimesIsMul(y, d);
    TimesIsMul(2 * y + c, d);
    assert (2 * y + c) * d == 2 * (y * d) + c * d;
  }

  lemma SubtractKeepsProgress(n: Word64, d: Word64, sr: nat, q: Word64, r: nat, carry: nat, p: nat)
    requires sr > 0 && Progress(n, d, sr, q, r, carry, p)
    ensures var r' := 2 * r + Shr(n, sr - 1) % 2;
            var c := if r' >= d then 1 else 0;
            var r'' := if r' >= d then r' - d else r';
            Progress(n, d, sr - 1, 2 * q % B64 + carry, r'', c, 2 * p + carry)
  {
    NextBit(n, sr, q, p, carry);
    SignTestExact(n, d, sr, q, r, carry, p);
    var r' := 2 * r + Shr(n, sr - 1) % 2;
    QuotientBit(2 * p + carry, d, if r' >= d then 1 else 0, r', Shr(n, sr - 1));
  }

  lemma MaskSelects(d: Word64)
    ensures BitAnd(d, B64 - 1) == d && BitAnd(d, 0) == 0
  {
    Pow2Values();
    AndMask(d, 64);
    AndZero(d);
  }

  lemma MaskLowBit()
    ensures BitAnd(B64 - 1, 1) == 1 && BitAnd(0, 1) == 0
  {
    assert Pow2(1) == 2;
    AndMask(B64 - 1, 1);
  }

  lemma MaskOutcome(d: Word64, r: Word64)
    requires (d - r - 1) % B64 >= TOP <==> r >= d
    ensures var s := SignMask((d - r - 1) % B64);
            && BitAnd(s, 1) == (if r >= d then 1 else 0)
            && (r - BitAnd(d, s)) % B64 == (if r >= d then r - d else r)
  {
    MaskSelects(d);
    MaskLowBit();
  }

  /** The branch-free compare and subtract on the doubled words. */
  lemma MaskedSubtract(n: Word64, d: Word64, sr: nat, r: Word64, q: Word64, carry: nat, p: nat, r': Word64, q': Word64)
    requires sr > 0 && Progress(n, d, sr, q, r, carry, p)
    requires r' == 2 * r % B64 + q / TOP && q' == 2 * q % B64 + carry
    ensures var s := SignMask((d - r' - 1) % B64);
            Progress(n, d, sr - 1, q', (r' - BitAnd(d, s)) % B64, BitAnd(s, 1), 2 * p + carry)
  {
    NextBit(n, sr, q, p, carry);
    SignTestExact(n, d, sr, q, r, carry, p);
    MaskOutcome(d, r');
    SubtractKeepsProgress(n, d, sr, q, r, carry, p);
  }

  ghost predicate IsDivision(n: nat, d: nat, quotient: nat, rem: nat) {
    n == Times(quotient, d) + rem && rem < d
  }

  lemma DivisionByMultiplying(n: nat, d: nat, quotient: nat, rem: nat)
    requires quotient * d + rem == n && rem < d
    ensures IsDivision(n, d, quotient, rem)
  {
    TimesIsMul(quotient, d);
  }

  lemma DivModIsDivision(n: nat, d: nat)
    requires d > 0
    ensures IsDivision(n, d, n / d, n % d)
  {
    TimesIsMul(n / d, d);
  }

  lemma DivisionMeaning(n: nat, d: nat, quotient: nat, rem: nat)
    requires IsDivision(n, d, quotient, rem)
    ensures n == quotient * d + rem && quotient == n / d && rem == n % d
  {
    TimesIsMul(quotient, d);
    DivModUnique(n, d, quotient, rem);
  }

  /** One iteration: shift r:q left by one, then compare and subtract without a branch. */
  method Iterate(ghost n: Word64, d: Word64, ghost sr: nat, rh0: Word32, rl0: Word32, qh0: Word32, ql0: Word32,
                 carry0: nat, ghost p: nat)
    returns (rh: Word32, rl: Word32, qh: Word32, ql: Word32, carry: nat)
    requires sr > 0 && Progress(n, d, sr, All(qh0, ql0), All(rh0, rl0), carry0, p)
    ensures Progress(n, d, sr - 1, All(qh, ql), All(rh, rl), carry, 2 * p + carry0)
  {
    hide BitOr;
    hide BitAnd;
    hide Shl;
    hide Shr;
    DoubleWords(rh0, rl0, qh0, ql0, carry0);
    rh := BitOr(Shl(rh0, 1), Shr(rl0, 31));
    rl := BitOr(Shl(rl0, 1), Shr(qh0, 31));
    qh := BitOr(Shl(qh0, 1), Shr(ql0, 31));
    ql := BitOr(Shl(ql0, 1), carry0);
    MaskedSubtract(n, d, sr, All(rh0, rl0), All(qh0, ql0), carry0, p, All(rh, rl), All(qh, ql));
    var s := SignMask((d - All(rh, rl) - 1) % B64);
    carry := BitAnd(s, 1);
    var r := (All(rh, rl) - BitAnd(d, s)) % B64;
    rh, rl := Hi(r), Lo(r);
  }

  /** The loop of `__udivmoddi4` and the two statements after it. */
  method ShiftSubtract(ghost n: Word64, d: Word64, sr0: nat, q0: Word64, r0: Word64)
    returns (quotient: Word64, rem: Word64)
    requires Progress(n, d, sr0, q0, r0, 0, 0)
    ensures IsDivision(n, d, quotient, rem)
  {
    var sr := sr0;
    var rh: Word32, rl: Word32, qh: Word32, ql: Word32 := Hi(r0), Lo(r0), Hi(q0), Lo(q0);
    var carry: nat := 0;
    ghost var p: nat := 0;
    while sr > 0
      invariant Progress(n, d, sr, All(qh, ql), All(rh, rl), carry, p)
    {
      ghost var c := carry;
      rh, rl, qh, ql, carry := Iterate(n, d, sr, rh, rl, qh, ql, carry, p);
      p := 2 * p + c;
      sr := sr - 1;
    }
    FinalQuotient(n, d, All(qh, ql), All(rh, rl), carry, p);
    quotient := BitOr(2 * All(qh, ql) % B64, carry);
    rem := All(rh, rl);
  }

  lemma OrCarry(x: nat, carry: nat)
    requires x % 2 == 0 && carry < 2
    ensures BitOr(x, carry) == x + carry
  {
    assert Pow2(1) == 2;
    OrDisjoint(x, carry, 1);
  }

  lemma FinalQuotient(n: Word64, d: Word64, q: Word64, r: nat, carry: nat, p: nat)
    requires Progress(n, d, 0, q, r, carry, p)
    ensures BitOr(2 * q % B64, carry) < B64 && IsDivision(n, d, BitOr(2 * q % B64, carry), r)
  {
    ShiftUpZero(64);
    assert q == p;
    TimesAtLeast(2 * p + carry, d);
    OrCarry(2 * q % B64, carry);
  }

  // ----- the words before the loop: q = n << (64 - sr), r = n >> sr -----

  ghost predicate Positioned(n: Word64, sr: nat, q: int, r: int) {
    1 <= sr <= 63 && r == Shr(n, sr) && q == ShiftUp(Low(n, sr), 64 - sr)
  }

  lemma AllIsPair(hi: Word32, lo: Word32)
    ensures All(hi, lo) == ShiftUp(hi, 32) + lo && lo < Pow2(32)
  {
    ShiftUpIsMul(hi, 32);
    Pow2Values();
  }

  /** What a left shift keeps in the word, and what it pushes out above it. */
  lemma ShlSplits(x: Word32, k: nat)
    requires k <= 32
    ensures Shl(x, 32 - k) == ShiftUp(Low(x, k), 32 - k)
    ensures ShiftUp(x, 32 - k) == Shr(x, k) * B32 + Shl(x, 32 - k)
  {
    hide ShiftUp;
    hide Low;
    hide Shr;
    hide Pow2;
    var y, z := Shr(x, k), ShiftUp(Low(x, k), 32 - k);
    SplitAt(x, k);
    ShiftUpSum(ShiftUp(y, k), Low(x, k), 32 - k);
    ShiftUpShiftUp(y, k, 32 - k);
    ShiftUpIsMul(y, 32);
    Pow2Values();
    LowIsMod(x, k);
    ShiftUpBound(Low(x, k), k, 32 - k);
    assert ShiftUp(x, 32 - k) == y * B32 + z;
    DivModUnique(ShiftUp(x, 32 - k), B32, y, z);
  }

  lemma OrShifted(x: nat, y: nat, j: nat)
    requires y < Pow2(j)
    ensures BitOr(ShiftUp(x, j), y) == ShiftUp(x, j) + y
  {
    ShiftUpIsMul(x, j);
    DivModUnique(ShiftUp(x, j), Pow2(j), x, 0);
    OrDisjoint(ShiftUp(x, j), y, j);
  }

  lemma ShiftedFits(x: Word32, k: nat)
    requires 1 <= k <= 31
    ensures ShiftUp(Low(x, k), 32 - k) + Pow2(32 - k) <= B32
  {
    LowIsMod(x, k);
    Pow2Values();
    ShiftUpBound(Low(x, k), k, 32 - k);
  }

  lemma ShiftedWordBound(x: Word32, k: nat)
    requires 1 <= k <= 31
    ensures Shr(x, k) < Pow2(32 - k)
  {
    Pow2Values();
    ShrBound(x, k, 32 - k);
  }

  /** `(nh << (32 - k)) | (nl >> k)` is the low word of `n >> k`. */
  lemma MiddleWord(nh: Word32, nl: Word32, k: nat)
    requires 1 <= k <= 31
    ensures BitOr(Shl(nh, 32 - k), Shr(nl, k)) == Shl(nh, 32 - k) + Shr(nl, k) < B32
  {
    ShlSplits(nh, k);
    ShiftedFits(nh, k);
    ShiftedWordBound(nl, k);
    OrShifted(Low(nh, k), Shr(nl, k), 32 - k);
  }

  lemma ShrOfAll(nh: Word32, nl: Word32, k: nat)
    requires 1 <= k <= 31
    ensures Shr(nh, k) < B32
    ensures Shr(nh, k) * B32 + Shl(nh, 32 - k) + Shr(nl, k) == Shr(All(nh, nl), k)
  {
    AllIsPair(nh, nl);
    ShrOfPair(nh, nl, 32, k);
    ShlSplits(nh, k);
    ShrShrinks(nh, k);
  }

  lemma PositionedBelow32(nh: Word32, nl: Word32, sr: nat)
    requires 1 <= sr <= 31
    ensures Shr(nh, sr) < B32 && BitOr(Shl(nh, 32 - sr), Shr(nl, sr)) < B32
    ensures Positioned(All(nh, nl), sr, All(Shl(nl, 32 - sr), 0),
                       All(Shr(nh, sr), BitOr(Shl(nh, 32 - sr), Shr(nl, sr))))
  {
    MiddleWord(nh, nl, sr);
    ShrOfAll(nh, nl, sr);
    AllIsPair(nh, nl);
    LowOfPair(nh, nl, 32, sr);
    ShlSplits(nl, sr);
    ShiftUpShiftUp(Low(nl, sr), 32 - sr, 32);
    assert 32 - sr + 32 == 64 - sr;
    ShiftUpIsMul(Shl(nl, 32 - sr), 32);
    Pow2Values();
  }

  lemma PositionedAt32(nh: Word32, nl: Word32)
    ensures Positioned(All(nh, nl), 32, All(nl, 0), All(0, nh))
  {
    AllIsPair(nh, nl);
    ShrOfPair(nh, nl, 32, 32);
    ShrBound(nl, 32, 0);
    LowOfPair(nh, nl, 32, 32);
    SplitAt(nl, 32);
    ShiftUpZero(32);
    ShiftUpIsMul(nl, 32);
    Pow2Values();
  }

  lemma PendingAbove32(nh: Word32, nl: Word32, k: nat)
    requires 1 <= k <= 31
    ensures ShiftUp(Low(All(nh, nl), 32 + k), 32 - k) == ShiftUp(ShiftUp(Low(nh, k), 32 - k), 32) + ShiftUp(nl, 32 - k)
  {
    hide ShiftUp;
    hide Low;
    hide All;
    AllIsPair(nh, nl);
    LowAcrossPair(nh, nl, 32, k);
    ShiftUpSum(ShiftUp(Low(nh, k), 32), nl, 32 - k);
    ShiftUpShiftUp(Low(nh, k), 32, 32 - k);
    ShiftUpShiftUp(Low(nh, k), 32 - k, 32);
    assert 32 + (32 - k) == 32 - k + 32;
  }

  lemma QuotientAbove32(nh: Word32, nl: Word32, k: nat)
    requires 1 <= k <= 31
    ensures (Shl(nh, 32 - k) + Shr(nl, k)) * B32 + Shl(nl, 32 - k) == ShiftUp(Low(All(nh, nl), 32 + k), 32 - k)
  {
    PendingAbove32(nh, nl, k);
    ShlSplits(nh, k);
    ShlSplits(nl, k);
    WholeWords(Shl(nh, 32 - k));
  }

  lemma WholeWords(x: nat)
    ensures ShiftUp(x, 32) == x * B32
  {
    ShiftUpIsMul(x, 32);
    Pow2Values();
  }

  lemma PositionedAbove32(nh: Word32, nl: Word32, sr: nat)
    requires 33 <= sr <= 63
    ensures Shr(nh, sr - 32) < B32 && BitOr(Shl(nh, 64 - sr), Shr(nl, sr - 32)) < B32
    ensures Positioned(All(nh, nl), sr, All(BitOr(Shl(nh, 64 - sr), Shr(nl, sr - 32)), Shl(nl, 64 - sr)),
                       All(0, Shr(nh, sr - 32)))
  {
    var k := sr - 32;
    assert 32 + k == sr && 32 - k == 64 - sr;
    MiddleWord(nh, nl, k);
    QuotientAbove32(nh, nl, k);
    PositionedAt32(nh, nl);
    ShrShr(All(nh, nl), 32, k);
    ShrShrinks(nh, k);
  }

  /** The counts of leading zeros place the dividend so that the loop's first remainder is below the divisor. */
  lemma StartOfLoop(n: Word64, d: Word64, cn: nat, cd: nat, sr: nat, q: Word64, r: Word64)
    requires cn < 32 && cd < 64 && n < Pow2(64 - cn) && n >= Pow2(63 - cn)
    requires Pow2(63 - cd) <= d < Pow2(64 - cd)
    requires sr == 1 + cd - cn && Positioned(n, sr, q, r)
    ensures Progress(n, d, sr, q, r, 0, 0)
  {
    assert sr + (63 - cd) == 64 - cn;
    ShrBound(n, sr, 63 - cd);
    Pow2Values();
    if cd > 0 {
      Pow2Monotone(64 - cd, 63);
    }
    Pow2Monotone(0, 64 - sr);
    assert Times(0, d) == 0;
  }

  /** Fewer significant bits in the dividend than in the divisor. */
  lemma ShorterIsSmaller(n: Word64, d: Word64, cn: nat, cd: nat)
    requires cd < cn < 64 && n < Pow2(64 - cn) && Pow2(63 - cd) <= d
    ensures n < d && IsDivision(n, d, 0, n)
  {
    Pow2Monotone(64 - cn, 63 - cd);
  }

  // ----- special cases -----

  lemma HighWordsOnly(nh: Word32, dh: Word32)
    requires dh != 0
    ensures IsDivision(All(nh, 0), All(dh, 0), nh / dh, All(nh % dh, 0))
  {
    var q, r := nh / dh, nh % dh;
    assert nh == q * dh + r;
    assert (q * dh) * B32 == q * (dh * B32);
    DivisionByMultiplying(All(nh, 0), All(dh, 0), q, All(r, 0));
  }

  lemma DivideHighWord(nh: Word32, nl: Word32, dh: Word32)
    requires dh != 0
    ensures IsDivision(All(nh, nl), All(dh, 0), nh / dh, All(nh % dh, nl))
  {
    var q, r := nh / dh, nh % dh;
    assert nh == q * dh + r;
    assert (q * dh) * B32 == q * (dh * B32);
    DivisionByMultiplying(All(nh, nl), All(dh, 0), q, All(r, nl));
  }

  /** Division by a power of two is a shift, the remainder a mask. */
  lemma PowerOfTwoDivision(n: nat, d: nat)
    requires d != 0 && BitAnd(d, d - 1) == 0
    ensures BitAnd(n, d - 1) == n % d && Shr(n, TrailingZeros(d)) == n / d
  {
    PowerOfTwoTest(d);
    AndMask(n, TrailingZeros(d));
    ShrIsDiv(n, TrailingZeros(d));
  }

  lemma HighPowerOfTwo(nh: Word32, nl: Word32, dh: Word32)
    requires dh != 0 && BitAnd(dh, dh - 1) == 0
    ensures BitAnd(nh, dh - 1) < B32 && Shr(nh, TrailingZeros(dh)) < B32
    ensures IsDivision(All(nh, nl), All(dh, 0), Shr(nh, TrailingZeros(dh)), All(BitAnd(nh, dh - 1), nl))
  {
    PowerOfTwoDivision(nh, dh);
    DivideHighWord(nh, nl, dh);
    ShrShrinks(nh, TrailingZeros(dh));
  }

  lemma LowPowerOfTwo(nh: Word32, nl: Word32, dl: Word32)
    requires dl > 1 && BitAnd(dl, dl - 1) == 0
    ensures var k := TrailingZeros(dl);
            && 1 <= k <= 31
            && Shr(nh, k) < B32 && BitOr(Shl(nh, 32 - k), Shr(nl, k)) < B32 && BitAnd(nl, dl - 1) < B32
            && IsDivision(All(nh, nl), dl, All(Shr(nh, k), BitOr(Shl(nh, 32 - k), Shr(nl, k))), BitAnd(nl, dl - 1))
  {
    var k, n := TrailingZeros(dl), All(nh, nl);
    LowExponent(dl);
    MiddleWord(nh, nl, k);
    ShrOfAll(nh, nl, k);
    PowerOfTwoDivision(n, dl);
    PowerOfTwoDivision(nl, dl);
    RemainderOfLowWord(nh, nl, dl);
    DivModIsDivision(n, dl);
  }

  lemma LowExponent(dl: Word32)
    requires dl > 1 && BitAnd(dl, dl - 1) == 0
    ensures 1 <= TrailingZeros(dl) <= 31 && dl == Pow2(TrailingZeros(dl))
  {
    PowerOfTwoTest(dl);
    Pow2Values();
    TrailingZerosBound(dl, 32);
  }

  lemma RemainderOfLowWord(nh: Word32, nl: Word32, dl: Word32)
    requires dl > 1 && BitAnd(dl, dl - 1) == 0
    ensures All(nh, nl) % dl == nl % dl < B32
  {
    var k := TrailingZeros(dl);
    LowExponent(dl);
    AllIsPair(nh, nl);
    LowOfPair(nh, nl, 32, k);
    LowIsMod(All(nh, nl), k);
    LowIsMod(nl, k);
  }

  /** `q.all = n.all << (64 - sr)` and `r.all = n.all >> sr`, word by word. */
  method Position(nh: Word32, nl: Word32, sr: nat) returns (q: Word64, r: Word64)
    requires 1 <= sr <= 63
    ensures Positioned(All(nh, nl), sr, q, r)
  {
    if sr == 32 {
      PositionedAt32(nh, nl);
      q := All(nl, 0);
      r := All(0, nh);
    } else if sr < 32 {
      PositionedBelow32(nh, nl, sr);
      q := All(Shl(nl, 32 - sr), 0);
      r := All(Shr(nh, sr), BitOr(Shl(nh, 32 - sr), Shr(nl, sr)));
    } else {
      PositionedAbove32(nh, nl, sr);
      q := All(BitOr(Shl(nh, 64 - sr), Shr(nl, sr - 32)), Shl(nl, 64 - sr));
      r := All(0, Shr(nh, sr - 32));
    }
  }

  // ----- __udivmoddi4 -----

  /** The common end of all branches: position the words, then run the loop. */
  method DivideByLoop(nh: Word32, nl: Word32, d: Word64, ghost cn: nat, ghost cd: nat, sr: nat)
    returns (quotient: Word64, rem: Word64)
    requires cn < 32 && cd < 64 && Pow2(63 - cn) <= All(nh, nl) < Pow2(64 - cn)
    requires Pow2(63 - cd) <= d < Pow2(64 - cd)
    requires sr == 1 + cd - cn && 1 <= sr <= 63
    ensures IsDivision(All(nh, nl), d, quotient, rem)
  {
    var q, r := Position(nh, nl, sr);
    StartOfLoop(All(nh, nl), d, cn, cd, sr, q, r);
    quotient, rem := ShiftSubtract(All(nh, nl), d, sr, q, r);
  }

  /** The branch for a divisor whose low word is 0. */
  method DivideByHighWord(nh: Word32, nl: Word32, dh: Word32) returns (quotient: Word64, rem: Word64)
    requires nh != 0 && dh != 0
    ensures IsDivision(All(nh, nl), All(dh, 0), quotient, rem)
  {
    hide BitAnd;
    hide BitOr;
    hide Shl;
    hide Shr;
    if nl == 0 {
      HighWordsOnly(nh, dh);
      return nh / dh, All(nh % dh, 0);
    }
    if BitAnd(dh, dh - 1) == 0 {
      HighPowerOfTwo(nh, nl, dh);
      var k := CtzSi2(dh);
      return Shr(nh, k), All(BitAnd(nh, dh - 1), nl);
    }
    var cd := ClzSi2(dh);
    var cn := ClzSi2(nh);
    WordsBounds(nh, nl, cn);
    WordsBounds(dh, 0, cd);
    NotPowerOfTwoBound(dh, cd);
    var sr: Word32 := (cd - cn) % B32;
    if sr > 30 {
      ShorterIsSmaller(All(nh, nl), All(dh, 0), cn, cd);
      return 0, All(nh, nl);
    }
    sr := sr + 1;
    quotient, rem := DivideByLoop(nh, nl, All(dh, 0), cn, cd, sr);
  }

  /** The branch for a divisor whose high word is 0. */
  method DivideByLowWord(nh: Word32, nl: Word32, dl: Word32) returns (quotient: Word64, rem: Word64)
    requires nh != 0 && dl != 0
    ensures IsDivision(All(nh, nl), dl, quotient, rem)
  {
    hide BitAnd;
    hide BitOr;
    hide Shl;
    hide Shr;
    if BitAnd(dl, dl - 1) == 0 {
      if dl == 1 {
        AndZero(nl);
        DivisionByMultiplying(All(nh, nl), 1, All(nh, nl), 0);
        return All(nh, nl), BitAnd(nl, dl - 1);
      }
      LowPowerOfTwo(nh, nl, dl);
      var k := CtzSi2(dl);
      return All(Shr(nh, k), BitOr(Shl(nh, 32 - k), Shr(nl, k))), BitAnd(nl, dl - 1);
    }
    var cd := ClzSi2(dl);
    var cn := ClzSi2(nh);
    WordsBounds(nh, nl, cn);
    NotPowerOfTwoBound(dl, cd);
    var sr: Word32 := (1 + 32 + cd - cn) % B32;
    quotient, rem := DivideByLoop(nh, nl, dl, cn, 32 + cd, sr);
  }

  /** The branch for a divisor with both words nonzero. */
  method DivideByBothWords(nh: Word32, nl: Word32, dh: Word32, dl: Word32) returns (quotient: Word64, rem: Word64)
    requires nh != 0 && dh != 0
    ensures IsDivision(All(nh, nl), All(dh, dl), quotient, rem)
  {
    var cd := ClzSi2(dh);
    var cn := ClzSi2(nh);
    WordsBounds(nh, nl, cn);
    WordsBounds(dh, dl, cd);
    var sr: Word32 := (cd - cn) % B32;
    if sr > 31 {
      ShorterIsSmaller(All(nh, nl), All(dh, dl), cn, cd);
      return 0, All(nh, nl);
    }
    sr := sr + 1;
    quotient, rem := DivideByLoop(nh, nl, All(dh, dl), cn, cd, sr);
  }

  lemma WordsOf(a: Word64)
    ensures All(Hi(a), Lo(a)) == a && All(0, Lo(a)) == Lo(a)
  {
  }

  lemma LessByHighWord(a: Word64, b: Word64)
    requires Hi(a) == 0 && Hi(b) != 0
    ensures IsDivision(a, b, 0, Lo(a))
  {
  }

  /** The cases by which words are zero. */
  method DivideByCases(a: Word64, b: Word64) returns (quotient: Word64, rem: Word64)
    requires b != 0
    ensures IsDivision(a, b, quotient, rem)
  {
    hide IsDivision;
    hide All;
    hide Hi;
    hide Lo;
    WordsOf(a);
    WordsOf(b);
    var nh, nl, dh, dl := Hi(a), Lo(a), Hi(b), Lo(b);
    if nh == 0 {
      if dh == 0 {
        DivModIsDivision(nl, dl);
        return nl / dl, nl % dl;
      }
      LessByHighWord(a, b);
      return 0, nl;
    }
    if dl == 0 {
      quotient, rem := DivideByHighWord(nh, nl, dh);
    } else if dh == 0 {
      quotient, rem := DivideByLowWord(nh, nl, dl);
    } else {
      quotient, rem := DivideByBothWords(nh, nl, dh, dl);
    }
  }

  /** `__udivmoddi4`; the remainder is always delivered. */
  method UDivModDi4(a: Word64, b: Word64) returns (quotient: Word64, rem: Word64)
    requires b != 0
    ensures a == quotient * b + rem && rem < b
  {
    quotient, rem := DivideByCases(a, b);
    DivisionMeaning(a, b, quotient, rem);
  }

  /** A word with 31 leading zeros is 1, which is a power of two. */
  lemma NotPowerOfTwoBound(x: Word32, c: nat)
    requires x != 0 && BitAnd(x, x - 1) != 0 && LeadingZeros(x, c)
    ensures c <= 30
  {
    Pow2Small();
    AndZero(x);
  }

  // ----- signed division -----

  type Int64 = x: int | -0x8000_0000_0000_0000 <= x < 0x8000_0000_0000_0000

  const MIN64: int := -0x8000_0000_0000_0000

  /** The bits of a signed number. */
  function Bits(x: Int64): Word64 {
    if x >= 0 then x else x + B64
  }

  function Signed(w: Word64): Int64 {
    if w >= TOP then w - B64 else w
  }

  /** `(x ^ s) - s`: with a mask `s` this negates iff the mask is all ones. */
  function NegateIf(w: Word64, s: Word64): Word64 {
    (BitXor(w, s) - s) % B64
  }

  lemma NegateIfMeaning(w: Word64, s: Word64)
    requires s == 0 || s == B64 - 1
    ensures NegateIf(w, s) == (if s == 0 then w else B64 - w) % B64
  {
    hide BitXor;
    if s != 0 {
      Pow2Values();
      XorOnes(w, 64);
    } else {
      XorNothing(w);
    }
  }

  lemma XorNothing(w: nat)
    ensures BitXor(w, 0) == w
  {
  }

  lemma NegateIfAbs(a: Int64)
    ensures NegateIf(Bits(a), SignMask(Bits(a))) == Abs(a)
  {
    NegateIfMeaning(Bits(a), SignMask(Bits(a)));
  }

  lemma SignedResult(q: Word64, s: Word64)
    requires (s == 0 || s == B64 - 1) && q <= TOP
    ensures Signed(NegateIf(q, s)) == if s != 0 then 0 - q else if q == TOP then MIN64 else q
  {
    NegateIfMeaning(q, s);
  }

  lemma XorOfMasks(s: Word64, t: Word64)
    requires (s == 0 || s == B64 - 1) && (t == 0 || t == B64 - 1)
    ensures BitXor(s, t) == if s == t then 0 else B64 - 1
  {
    Pow2Values();
    if s != 0 {
      XorOnes(t, 64);
    }
    if t != 0 {
      XorOnes(s, 64);
    }
  }

  function Abs(x: int): nat {
    if x < 0 then -x else x
  }

  /** C division: the quotient truncated toward zero. */
  function TruncDiv(a: int, b: int): int
    requires b != 0
  {
    if (a < 0) == (b < 0) then Abs(a) / Abs(b) else -(Abs(a) / Abs(b))
  }

  /** C remainder: it has the sign of the dividend. */
  function TruncMod(a: int, b: int): int
    requires b != 0
  {
    if a < 0 then -(Abs(a) % Abs(b)) else Abs(a) % Abs(b)
  }

  lemma MulSigns(q: int, b: int)
    ensures (-q) * b == -(q * b) && q * -b == -(q * b)
  {
  }

  lemma AbsDivision(a: int, b: int)
    requires b != 0
    ensures Abs(a) == (Abs(a) / Abs(b)) * Abs(b) + Abs(a) % Abs(b)
    ensures 0 <= Abs(a) / Abs(b) <= (Abs(a) / Abs(b)) * Abs(b)
    ensures Abs(b) >= 2 ==> 2 * (Abs(a) / Abs(b)) <= (Abs(a) / Abs(b)) * Abs(b)
  {
    var q := Abs(a) / Abs(b);
    MulMonotone(1, Abs(b), q);
    if Abs(b) >= 2 {
      MulMonotone(2, Abs(b), q);
    }
  }

  /** What makes these C's `/` and `%`. */
  lemma TruncationLaw(a: int, b: int)
    requires b != 0
    ensures a == TruncDiv(a, b) * b + TruncMod(a, b)
    ensures Abs(TruncMod(a, b)) < Abs(b)
    ensures TruncMod(a, b) != 0 ==> (TruncMod(a, b) < 0 <==> a < 0)
  {
    AbsDivision(a, b);
    MulSigns(Abs(a) / Abs(b), b);
  }

  lemma QuotientFits(a: Int64, b: Int64)
    requires b != 0
    ensures Abs(a) / Abs(b) <= TOP
    ensures Abs(a) / Abs(b) == TOP ==> a == MIN64 && (b == 1 || b == -1)
  {
    AbsDivision(a, b);
  }

  lemma SignsAgree(a: Int64, b: Int64)
    ensures BitXor(SignMask(Bits(a)), SignMask(Bits(b))) == if (a < 0) == (b < 0) then 0 else B64 - 1
  {
    XorOfMasks(SignMask(Bits(a)), SignMask(Bits(b)));
  }

  /** `__divdi3`: truncated division; the one unrepresentable quotient wraps. */
  method DivDi3(a: Int64, b: Int64) returns (r: Int64)
    requires b != 0
    ensures r == if a == MIN64 && b == -1 then MIN64 else TruncDiv(a, b)
  {
    var sa, sb := SignMask(Bits(a)), SignMask(Bits(b));
    NegateIfAbs(a);
    NegateIfAbs(b);
    var ua, ub := NegateIf(Bits(a), sa), NegateIf(Bits(b), sb);
    SignsAgree(a, b);
    var s := BitXor(sa, sb);
    var q, m := UDivModDi4(ua, ub);
    DivModUnique(ua, ub, q, m);
    QuotientFits(a, b);
    SignedResult(q, s);
    r := Signed(NegateIf(q, s));
  }

  /** `__moddi3`: the remainder of truncated division, with no exception. */
  method ModDi3(a: Int64, b: Int64) returns (r: Int64)
    requires b != 0
    ensures r == TruncMod(a, b)
  {
    var s := SignMask(Bits(b));
    NegateIfAbs(b);
    var ub := NegateIf(Bits(b), s);
    s := SignMask(Bits(a));
    NegateIfAbs(a);
    var ua := NegateIf(Bits(a), s);
    var q, m := UDivModDi4(ua, ub);
    DivModUnique(ua, ub, q, m);
    SignedResult(m, s);
    r := Signed(NegateIf(m, s));
  }

  /** `__divmoddi4`: quotient and `a - q * b`, computed in 64 bits. */
  /** The remainder computed modulo 2^64. */
  lemma RemainderFits(a: Int64, b: Int64, q: Int64)
    requires b != 0 && q == if a == MIN64 && b == -1 then MIN64 else TruncDiv(a, b)
    ensures Signed((a - q * b) % B64) == TruncMod(a, b)
  {
    hide TruncDiv;
    hide TruncMod;
    TruncationLaw(a, b);
    var r := TruncMod(a, b);
    if a == MIN64 && b == -1 {
      assert a - q * b == -B64;
      DivModUnique(a - q * b, B64, -1, 0);
    } else {
      assert a - q * b == r;
      DivModUnique(r, B64, if r < 0 then -1 else 0, Bits(r));
    }
  }

  method DivModDi4(a: Int64, b: Int64) returns (quotient: Int64, rem: Int64)
    requires b != 0
    ensures quotient == if a == MIN64 && b == -1 then MIN64 else TruncDiv(a, b)
    ensures rem == TruncMod(a, b)
  {
    hide TruncDiv;
    hide TruncMod;
    quotient := DivDi3(a, b);
    TruncationLaw(a, b);
    RemainderFits(a, b, quotient);
    rem := Signed((a - quotient * b) % B64);
  }
}
