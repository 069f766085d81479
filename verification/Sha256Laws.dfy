/**
 SHA-256 from outside its code: the logical functions bit by bit, the constants as fractions of roots of primes, the
 words as numbers in big-endian bytes, and the padding.
 */
module Sha256Laws {
  import opened MachineWords
  import opened WordBits
  import opened Sha256Standard

  // ----- the logical functions, bit by bit -----

  lemma RotrBit(x: Word, n: nat, i: nat)
    requires 0 < n < 32 && i < 32
    ensures Bit(Rotr(x, n), i) <==> Bit(x, (i + n) % 32)
  {
    OrBit(Shr32(x, n), Shl(x, 32 - n), i);
    ShrBit(x, n, i);
    ShlBit(x, 32 - n, i);
    if i + n >= 32 {
      Pow2Values();
      HighBitsClear(x, 32, i + n);
      DivModUnique(i + n, 32, 1, i + n - 32);
    }
  }

  /** An odd number of the three. */
  predicate Odd3(a: bool, b: bool, c: bool) {
    (a != b) != c
  }

  lemma Xor3Bit(x: Word, y: Word, z: Word, i: nat)
    ensures Bit(Xor3(x, y, z), i) <==> Odd3(Bit(x, i), Bit(y, i), Bit(z, i))
  {
    XorBit(x, y, i);
    XorBit(Xor32(x, y), z, i);
  }

  /** `Ch` chooses between two words by the bits of a third. */
  lemma ChBit(x: Word, y: Word, z: Word, i: nat)
    requires i < 32
    ensures Bit(Ch(x, y, z), i) <==> if Bit(x, i) then Bit(y, i) else Bit(z, i)
  {
    XorBit(And32(x, y), And32(Not32(x), z), i);
    AndBit(x, y, i);
    AndBit(Not32(x), z, i);
    NotBit(x, i);
  }

  /** `Maj` is the majority. */
  lemma MajBit(x: Word, y: Word, z: Word, i: nat)
    requires i < 32
    ensures var n := (if Bit(x, i) then 1 else 0) + (if Bit(y, i) then 1 else 0) + (if Bit(z, i) then 1 else 0);
            Bit(Maj(x, y, z), i) <==> n >= 2
  {
    Xor3Bit(And32(x, y), And32(x, z), And32(y, z), i);
    AndBit(x, y, i);
    AndBit(x, z, i);
    AndBit(y, z, i);
  }

  /** The bits that each bit of the four sigma functions depends on. */
  lemma SigmaBits(x: Word, i: nat)
    requires i < 32
    ensures Bit(BigSigma0(x), i) <==> Odd3(Bit(x, (i + 2) % 32), Bit(x, (i + 13) % 32), Bit(x, (i + 22) % 32))
    ensures Bit(BigSigma1(x), i) <==> Odd3(Bit(x, (i + 6) % 32), Bit(x, (i + 11) % 32), Bit(x, (i + 25) % 32))
    ensures Bit(SmallSigma0(x), i) <==> Odd3(Bit(x, (i + 7) % 32), Bit(x, (i + 18) % 32), i < 29 && Bit(x, i + 3))
    ensures Bit(SmallSigma1(x), i) <==> Odd3(Bit(x, (i + 17) % 32), Bit(x, (i + 19) % 32), i < 22 && Bit(x, i + 10))
  {
    hide Rotr;
    hide Bit;
    ThreeRotations(x, 2, 13, 22, i);
    ThreeRotations(x, 6, 11, 25, i);
    TwoRotations(x, 7, 18, 3, i);
    TwoRotations(x, 17, 19, 10, i);
  }

  lemma ThreeRotations(x: Word, a: nat, b: nat, c: nat, i: nat)
    requires 0 < a < 32 && 0 < b < 32 && 0 < c < 32 && i < 32
    ensures Bit(Xor3(Rotr(x, a), Rotr(x, b), Rotr(x, c)), i)
       <==> Odd3(Bit(x, (i + a) % 32), Bit(x, (i + b) % 32), Bit(x, (i + c) % 32))
  {
    hide Rotr;
    Xor3Bit(Rotr(x, a), Rotr(x, b), Rotr(x, c), i);
    RotrBit(x, a, i);
    RotrBit(x, b, i);
    RotrBit(x, c, i);
  }

  lemma TwoRotations(x: Word, a: nat, b: nat, k: nat, i: nat)
    requires 0 < a < 32 && 0 < b < 32 && i < 32
    ensures Bit(Xor3(Rotr(x, a), Rotr(x, b), Shr32(x, k)), i)
       <==> Odd3(Bit(x, (i + a) % 32), Bit(x, (i + b) % 32), i + k < 32 && Bit(x, i + k))
  {
    hide Rotr;
    Xor3Bit(Rotr(x, a), Rotr(x, b), Shr32(x, k), i);
    RotrBit(x, a, i);
    RotrBit(x, b, i);
    ShrBit(x, k, i);
    if i + k >= 32 {
      Pow2Values();
      HighBitsClear(x, 32, i + k);
    }
  }

  // ----- the constants -----

  const P0: seq<nat> := [2, 3, 5, 7, 11, 13, 17, 19, 23, 29, 31, 37, 41, 43, 47, 53]
  const P1: seq<nat> := [59, 61, 67, 71, 73, 79, 83, 89, 97, 101, 103, 107, 109, 113, 127, 131]
  const P2: seq<nat> := [137, 139, 149, 151, 157, 163, 167, 173, 179, 181, 191, 193, 197, 199, 211, 223]
  const P3: seq<nat> := [227, 229, 233, 239, 241, 251, 257, 263, 269, 271, 277, 281, 283, 293, 307, 311]

  /** The first 64 primes. */
  const PRIMES := P0 + P1 + P2 + P3

  function Square(x: nat): nat { x * x }

  function Cube(x: nat): nat { x * x * x }

  /** `k` is the first 32 bits of the fraction of the square root of `p`, whose integer part is `n`. */
  predicate SquareRoot(p: nat, n: nat, k: Word) {
    Square(0x1_0000_0000 * n + k) <= 0x1_0000_0000_0000_0000 * p < Square(0x1_0000_0000 * n + k + 1)
  }

  /** The same of the cube root. */
  predicate CubeRoot(p: nat, n: nat, k: Word) {
    && Cube(0x1_0000_0000 * n + k) <= 0x1_0000_0000_0000_0000_0000_0000 * p
    && Cube(0x1_0000_0000 * n + k + 1) > 0x1_0000_0000_0000_0000_0000_0000 * p
  }

  /** The integer part of the cube root of a prime in the list. */
  function WholeCubeRoot(p: nat): nat {
    if p < 8 then 1 else if p < 27 then 2 else if p < 64 then 3 else if p < 125 then 4 else if p < 216 then 5 else 6
  }

  /** Round constant `t` is the fraction of the cube root of prime `t`. */
  predicate FromPrime(t: nat)
    requires t < |K| && t < |PRIMES|
  {
    CubeRoot(PRIMES[t], WholeCubeRoot(PRIMES[t]), K[t])
  }

  /** The initial hash is made of the square roots of the first eight primes. */
  lemma InitialHashFromPrimes()
    ensures SquareRoot(2, 1, H0.a) && SquareRoot(3, 1, H0.b) && SquareRoot(5, 2, H0.c) && SquareRoot(7, 2, H0.d)
    ensures SquareRoot(11, 3, H0.e) && SquareRoot(13, 3, H0.f) && SquareRoot(17, 4, H0.g) && SquareRoot(19, 4, H0.h)
  {
    assert SquareRoot(2, 1, 0x6a09e667) && SquareRoot(3, 1, 0xbb67ae85);
    assert SquareRoot(5, 2, 0x3c6ef372) && SquareRoot(7, 2, 0xa54ff53a);
    assert SquareRoot(11, 3, 0x510e527f) && SquareRoot(13, 3, 0x9b05688c);
    assert SquareRoot(17, 4, 0x1f83d9ab) && SquareRoot(19, 4, 0x5be0cd19);
  }

  lemma FirstRoots()
    ensures CubeRoot(2, 1, 0x428a2f98) && CubeRoot(3, 1, 0x71374491)
    ensures CubeRoot(5, 1, 0xb5c0fbcf) && CubeRoot(7, 1, 0xe9b5dba5)
    ensures CubeRoot(11, 2, 0x3956c25b) && CubeRoot(13, 2, 0x59f111f1)
    ensures CubeRoot(17, 2, 0x923f82a4) && CubeRoot(19, 2, 0xab1c5ed5)
    ensures CubeRoot(23, 2, 0xd807aa98) && CubeRoot(29, 3, 0x12835b01)
    ensures CubeRoot(31, 3, 0x243185be) && CubeRoot(37, 3, 0x550c7dc3)
    ensures CubeRoot(41, 3, 0x72be5d74) && CubeRoot(43, 3, 0x80deb1fe)
    ensures CubeRoot(47, 3, 0x9bdc06a7) && CubeRoot(53, 3, 0xc19bf174)
  {
  }

  lemma FirstConstants()
    ensures |K| == |PRIMES| == 64 && forall t :: 0 <= t < 16 ==> FromPrime(t)
  {
    hide CubeRoot;
    FirstRoots();
    forall t | 0 <= t < 16
      ensures |K| == |PRIMES| == 64 && FromPrime(t)
    {
      assert || t == 0 || t == 1 || t == 2 || t == 3 || t == 4 || t == 5 || t == 6 || t == 7
             || t == 8 || t == 9 || t == 10 || t == 11 || t == 12 || t == 13 || t == 14 || t == 15;
    }
  }

  lemma SecondRoots()
    ensures CubeRoot(59, 3, 0xe49b69c1) && CubeRoot(61, 3, 0xefbe4786)
    ensures CubeRoot(67, 4, 0x0fc19dc6) && CubeRoot(71, 4, 0x240ca1cc)
    ensures CubeRoot(73, 4, 0x2de92c6f) && CubeRoot(79, 4, 0x4a7484aa)
    ensures CubeRoot(83, 4, 0x5cb0a9dc) && CubeRoot(89, 4, 0x76f988da)
    ensures CubeRoot(97, 4, 0x983e5152) && CubeRoot(101, 4, 0xa831c66d)
    ensures CubeRoot(103, 4, 0xb00327c8) && CubeRoot(107, 4, 0xbf597fc7)
    ensures CubeRoot(109, 4, 0xc6e00bf3) && CubeRoot(113, 4, 0xd5a79147)
    ensures CubeRoot(127, 5, 0x06ca6351) && CubeRoot(131, 5, 0x14292967)
  {
  }

  lemma SecondConstants()
    ensures |K| == |PRIMES| == 64 && forall t :: 16 <= t < 32 ==> FromPrime(t)
  {
    hide CubeRoot;
    SecondRoots();
    forall t | 16 <= t < 32
      ensures |K| == |PRIMES| == 64 && FromPrime(t)
    {
      assert || t == 16 || t == 17 || t == 18 || t == 19 || t == 20 || t == 21 || t == 22 || t == 23
             || t == 24 || t == 25 || t == 26 || t == 27 || t == 28 || t == 29 || t == 30 || t == 31;
    }
  }

  lemma ThirdRoots()
    ensures CubeRoot(137, 5, 0x27b70a85) && CubeRoot(139, 5, 0x2e1b2138)
    ensures CubeRoot(149, 5, 0x4d2c6dfc) && CubeRoot(151, 5, 0x53380d13)
    ensures CubeRoot(157, 5, 0x650a7354) && CubeRoot(163, 5, 0x766a0abb)
    ensures CubeRoot(167, 5, 0x81c2c92e) && CubeRoot(173, 5, 0x92722c85)
    ensures CubeRoot(179, 5, 0xa2bfe8a1) && CubeRoot(181, 5, 0xa81a664b)
    ensures CubeRoot(191, 5, 0xc24b8b70) && CubeRoot(193, 5, 0xc76c51a3)
    ensures CubeRoot(197, 5, 0xd192e819) && CubeRoot(199, 5, 0xd6990624)
    ensures CubeRoot(211, 5, 0xf40e3585) && CubeRoot(223, 6, 0x106aa070)
  {
  }

  lemma ThirdConstants()
    ensures |K| == |PRIMES| == 64 && forall t :: 32 <= t < 48 ==> FromPrime(t)
  {
    hide CubeRoot;
    ThirdRoots();
    forall t | 32 <= t < 48
      ensures |K| == |PRIMES| == 64 && FromPrime(t)
    {
      assert || t == 32 || t == 33 || t == 34 || t == 35 || t == 36 || t == 37 || t == 38 || t == 39
             || t == 40 || t == 41 || t == 42 || t == 43 || t == 44 || t == 45 || t == 46 || t == 47;
    }
  }

  lemma FourthRoots()
    ensures CubeRoot(227, 6, 0x19a4c116) && CubeRoot(229, 6, 0x1e376c08)
    ensures CubeRoot(233, 6, 0x2748774c) && CubeRoot(239, 6, 0x34b0bcb5)
    ensures CubeRoot(241, 6, 0x391c0cb3) && CubeRoot(251, 6, 0x4ed8aa4a)
    ensures CubeRoot(257, 6, 0x5b9cca4f) && CubeRoot(263, 6, 0x682e6ff3)
    ensures CubeRoot(269, 6, 0x748f82ee) && CubeRoot(271, 6, 0x78a5636f)
    ensures CubeRoot(277, 6, 0x84c87814) && CubeRoot(281, 6, 0x8cc70208)
    ensures CubeRoot(283, 6, 0x90befffa) && CubeRoot(293, 6, 0xa4506ceb)
    ensures CubeRoot(307, 6, 0xbef9a3f7) && CubeRoot(311, 6, 0xc67178f2)
  {
  }

  lemma FourthConstants()
    ensures |K| == |PRIMES| == 64 && forall t :: 48 <= t < 64 ==> FromPrime(t)
  {
    hide CubeRoot;
    FourthRoots();
    forall t | 48 <= t < 64
      ensures |K| == |PRIMES| == 64 && FromPrime(t)
    {
      assert || t == 48 || t == 49 || t == 50 || t == 51 || t == 52 || t == 53 || t == 54 || t == 55
             || t == 56 || t == 57 || t == 58 || t == 59 || t == 60 || t == 61 || t == 62 || t == 63;
    }
  }

  /** The round constants are made of the cube roots of the first 64 primes. */
  lemma ConstantsFromPrimes()
    ensures |K| == |PRIMES| == 64 && forall t :: 0 <= t < 64 ==> FromPrime(t)
  {
    FirstConstants();
    SecondConstants();
    ThirdConstants();
    FourthConstants();
  }

  // ----- the schedule and a round, in plain sums modulo 2^32 -----

  lemma Add32Add(x: int, y: Word)
    ensures Add32(x % B32, y) == (x + y) % B32
  {
    QuotientOf(x);
    QuotientOf(x % B32 + y);
    DivModUnique(x + y, B32, x / B32 + (x % B32 + y) / B32, (x % B32 + y) % B32);
  }

  lemma QuotientOf(x: int)
    ensures x == x / B32 * B32 + x % B32
  {
  }

  lemma Sum4(a: Word, b: Word, c: Word, d: Word)
    ensures Add32(Add32(Add32(a, b), c), d) == (a + b + c + d) % B32
  {
    hide Add32;
    SumOf2(a, b);
    Add32Add(a + b, c);
    Add32Add(a + b + c, d);
  }

  lemma SumOf2(a: Word, b: Word)
    ensures Add32(a, b) == (a + b) % B32
  {
  }

  lemma Commutes(a: Word, b: Word)
    ensures Add32(a, b) == Add32(b, a)
  {
  }

  /** Each word of the schedule from the sixteenth on is made of four earlier ones. */
  lemma ScheduleRecurrence(block: Block, t: nat)
    requires t >= 16
    ensures Schedule(block, t)
         == (SmallSigma1(Schedule(block, t - 2)) + Schedule(block, t - 7) + SmallSigma0(Schedule(block, t - 15))
             + Schedule(block, t - 16)) % 0x1_0000_0000
  {
    hide SmallSigma0;
    hide SmallSigma1;
    hide Add32;
    Sum4(SmallSigma1(Schedule(block, t - 2)), Schedule(block, t - 7), SmallSigma0(Schedule(block, t - 15)),
         Schedule(block, t - 16));
  }

  /** The first sixteen are the block, read as big-endian numbers. */
  lemma ScheduleStart(block: Block, t: nat)
    requires t < 16
    ensures Schedule(block, t) == BigEndian(block[4 * t..4 * t + 4])
  {
    PackIsBigEndian(block[4 * t..4 * t + 4]);
  }

  /** A round moves six words along and computes two. */
  lemma RoundWords(v: Hash, k: Word, w: Word)
    ensures var u := Round(v, k, w);
            var t1: int := v.h + BigSigma1(v.e) + Ch(v.e, v.f, v.g) + k + w;
            && (u.b, u.c, u.d, u.f, u.g, u.h) == (v.a, v.b, v.c, v.e, v.f, v.g)
            && u.a == (t1 + BigSigma0(v.a) + Maj(v.a, v.b, v.c)) % 0x1_0000_0000
            && u.e == (v.d + t1) % 0x1_0000_0000
  {
    hide Add32;
    hide BigSigma0;
    hide BigSigma1;
    hide Ch;
    hide Maj;
    var s1, ch: Word := BigSigma1(v.e), Ch(v.e, v.f, v.g);
    var s0, maj: Word := BigSigma0(v.a), Maj(v.a, v.b, v.c);
    var t1: int := v.h + s1 + ch + k + w;
    Sum4(v.h, s1, ch, k);
    Add32Add(v.h + s1 + ch + k, w);
    Add32Add(t1, v.d);
    Commutes(v.d, t1 % B32);
    SumOf2(s0, maj);
    SumOfSums(t1, s0 + maj);
  }

  /** After 64 rounds, the words are added to those before. */
  lemma CompressAdds(v: Hash, block: Block)
    ensures var u, x := Compress(v, block), Rounds(v, block, 64);
            && (u.a, u.b, u.c) == ((v.a + x.a) % B32, (v.b + x.b) % B32, (v.c + x.c) % B32)
            && (u.d, u.e, u.f) == ((v.d + x.d) % B32, (v.e + x.e) % B32, (v.f + x.f) % B32)
            && (u.g, u.h) == ((v.g + x.g) % B32, (v.h + x.h) % B32)
  {
    hide Rounds;
    KHas64Words();
  }

  lemma SumOfSums(x: int, y: int)
    ensures Add32(x % B32, y % B32) == (x + y) % B32
  {
    hide Add32;
    Add32Add(x, y % B32);
    QuotientOf(y);
    DivModUnique(x + y, B32, (x + y % B32) / B32 + y / B32, (x + y % B32) % B32);
  }

  // ----- words as bytes, and the padding -----

  /** The number written by these bytes, most significant first. */
  function BigEndian(s: seq<Byte>): nat {
    if s == [] then 0 else 0x100 * BigEndian(s[..|s| - 1]) + s[|s| - 1]
  }

  lemma PackIsBigEndian(b: seq<Byte>)
    requires |b| == 4
    ensures Pack(b) == BigEndian(b)
  {
    BigEndianLast(b[..1]);
    BigEndianLast(b[..2]);
    BigEndianLast(b[..3]);
    BigEndianLast(b);
    assert b[..1][..0] == [] && b[..2][..1] == b[..1] && b[..3][..2] == b[..2];
  }

  lemma BigEndianLast(s: seq<Byte>)
    requires s != []
    ensures BigEndian(s) == 0x100 * BigEndian(s[..|s| - 1]) + s[|s| - 1]
  {
  }

  lemma PackUnpack(x: Word)
    ensures Pack(Unpack(x)) == x
  {
    var a, b, c := x / 0x100, x / 0x10000, x / 0x1000000;
    DivMul(x, 0x100, 0x100);
    DivMul(x, 0x10000, 0x100);
    QuotientRemainder(x, 0x100);
    QuotientRemainder(a, 0x100);
    QuotientRemainder(b, 0x100);
    assert x == 0x100 * a + x % 256 && a == 0x100 * b + a % 256 && b == 0x100 * c + b % 256;
  }

  /** The digest holds the eight words in order. */
  lemma OutputWords(v: Hash)
    ensures var d := Output(v);
            && BigEndian(d[0..4]) == v.a && BigEndian(d[4..8]) == v.b && BigEndian(d[8..12]) == v.c
            && BigEndian(d[12..16]) == v.d && BigEndian(d[16..20]) == v.e && BigEndian(d[20..24]) == v.f
            && BigEndian(d[24..28]) == v.g && BigEndian(d[28..32]) == v.h
  {
    hide Unpack;
    hide BigEndian;
    var d := Output(v);
    assert d[0..4] == Unpack(v.a) && d[4..8] == Unpack(v.b) && d[8..12] == Unpack(v.c) && d[12..16] == Unpack(v.d);
    assert d[16..20] == Unpack(v.e) && d[20..24] == Unpack(v.f) && d[24..28] == Unpack(v.g) && d[28..32] == Unpack(v.h);
    UnpackedWord(v.a);
    UnpackedWord(v.b);
    UnpackedWord(v.c);
    UnpackedWord(v.d);
    UnpackedWord(v.e);
    UnpackedWord(v.f);
    UnpackedWord(v.g);
    UnpackedWord(v.h);
  }

  lemma UnpackedWord(x: Word)
    ensures BigEndian(Unpack(x)) == x
  {
    PackUnpack(x);
    PackIsBigEndian(Unpack(x));
  }

  lemma {:induction false} BigEndianConcat(s: seq<Byte>, t: seq<Byte>)
    requires |t| == 4
    ensures BigEndian(s + t) == B32 * BigEndian(s) + BigEndian(t)
  {
    var u := s + t;
    assert u[..|u| - 1] == s + t[..3] && u[..|u| - 1][..|u| - 2] == s + t[..2];
    assert u[..|u| - 2] == s + t[..2] && u[..|u| - 3] == s + t[..1] && u[..|u| - 4] == s;
    BigEndianLast(u);
    BigEndianLast(s + t[..3]);
    BigEndianLast(s + t[..2]);
    BigEndianLast(s + t[..1]);
    assert (s + t[..3])[..|s| + 2] == s + t[..2] && (s + t[..2])[..|s| + 1] == s + t[..1];
    assert (s + t[..1])[..|s|] == s;
    PackIsBigEndian(t);
  }

  lemma LengthFieldIs(n: nat)
    ensures BigEndian(LengthField(n)) == 8 * n % B64
  {
    var high: Word, low: Word := 8 * n / B32 % B32, 8 * n % B32;
    BigEndianConcat(Unpack(high), Unpack(low));
    UnpackedWord(high);
    UnpackedWord(low);
    var q := 8 * n / B32;
    QuotientRemainder(8 * n, B32);
    QuotientRemainder(q, B32);
    DivModUnique(8 * n, B64, q / B32, B32 * high + low);
  }

  /** The message, a 1 bit, the fewest zeros that complete the last block, and the bit length at the very end. */
  lemma PaddedMessage(m: seq<Byte>)
    ensures var p := m + Padding(|m|);
            && |p| % 64 == 0 && |m| + 9 <= |p| < |m| + 73
            && p[..|m|] == m && p[|m|] == 0x80
            && (forall i :: |m| < i < |p| - 8 ==> p[i] == 0)
            && BigEndian(p[|p| - 8..]) == 8 * |m| % 0x1_0000_0000_0000_0000
  {
    hide BigEndian;
    hide LengthField;
    LengthFieldIs(|m|);
    var p := m + Padding(|m|);
    var z := ZeroCount(|m|);
    assert |p| == |m| + 1 + z + 8;
    DivModUnique(|p|, 64, (|m| + 1 + z) / 64 + 1, 0);
    assert p[|p| - 8..] == LengthField(|m|);
  }
}
