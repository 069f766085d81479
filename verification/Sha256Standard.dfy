/** The SHA-256 hash function of FIPS 180-4 on byte strings. */
module Sha256Standard {
  import opened MachineWords

  type Byte = b: int | 0 <= b < 256
  type Word = Word32

  /** Section 3.2: rotation to the right. */
  function Rotr(x: Word, n: nat): Word
    requires n <= 32
  {
    Or32(Shr32(x, n), Shl(x, 32 - n))
  }

  function Xor3(x: Word, y: Word, z: Word): Word { Xor32(Xor32(x, y), z) }

  /** Section 4.1.2, the six logical functions. */
  function Ch(x: Word, y: Word, z: Word): Word { Xor32(And32(x, y), And32(Not32(x), z)) }

  function Maj(x: Word, y: Word, z: Word): Word { Xor3(And32(x, y), And32(x, z), And32(y, z)) }

  function BigSigma0(x: Word): Word { Xor3(Rotr(x, 2), Rotr(x, 13), Rotr(x, 22)) }

  function BigSigma1(x: Word): Word { Xor3(Rotr(x, 6), Rotr(x, 11), Rotr(x, 25)) }

  function SmallSigma0(x: Word): Word { Xor3(Rotr(x, 7), Rotr(x, 18), Shr32(x, 3)) }

  function SmallSigma1(x: Word): Word { Xor3(Rotr(x, 17), Rotr(x, 19), Shr32(x, 10)) }

  /** Section 4.2.2. */
  const K0: seq<Word> := [
    0x428a2f98, 0x71374491, 0xb5c0fbcf, 0xe9b5dba5, 0x3956c25b, 0x59f111f1, 0x923f82a4, 0xab1c5ed5,
    0xd807aa98, 0x12835b01, 0x243185be, 0x550c7dc3, 0x72be5d74, 0x80deb1fe, 0x9bdc06a7, 0xc19bf174]

  const K1: seq<Word> := [
    0xe49b69c1, 0xefbe4786, 0x0fc19dc6, 0x240ca1cc, 0x2de92c6f, 0x4a7484aa, 0x5cb0a9dc, 0x76f988da,
    0x983e5152, 0xa831c66d, 0xb00327c8, 0xbf597fc7, 0xc6e00bf3, 0xd5a79147, 0x06ca6351, 0x14292967]

  const K2: seq<Word> := [
    0x27b70a85, 0x2e1b2138, 0x4d2c6dfc, 0x53380d13, 0x650a7354, 0x766a0abb, 0x81c2c92e, 0x92722c85,
    0xa2bfe8a1, 0xa81a664b, 0xc24b8b70, 0xc76c51a3, 0xd192e819, 0xd6990624, 0xf40e3585, 0x106aa070]

  const K3: seq<Word> := [
    0x19a4c116, 0x1e376c08, 0x2748774c, 0x34b0bcb5, 0x391c0cb3, 0x4ed8aa4a, 0x5b9cca4f, 0x682e6ff3,
    0x748f82ee, 0x78a5636f, 0x84c87814, 0x8cc70208, 0x90befffa, 0xa4506ceb, 0xbef9a3f7, 0xc67178f2]

  const K := K0 + K1 + K2 + K3

  lemma KHas64Words()
    ensures |K| == 64
  {
  }

  datatype Hash = Hash(a: Word, b: Word, c: Word, d: Word, e: Word, f: Word, g: Word, h: Word)

  /** Section 5.3.3. */
  const H0 := Hash(0x6a09e667, 0xbb67ae85, 0x3c6ef372, 0xa54ff53a, 0x510e527f, 0x9b05688c, 0x1f83d9ab, 0x5be0cd19)

  /** A word from four bytes, most significant first. */
  function Pack(b: seq<Byte>): Word
    requires |b| == 4
  {
    var b0: int, b1: int, b2: int, b3: int := b[0], b[1], b[2], b[3];
    b0 * 0x1000000 + b1 * 0x10000 + b2 * 0x100 + b3
  }

  function Unpack(x: Word): (b: seq<Byte>)
    ensures |b| == 4
  {
    [x / 0x1000000, x / 0x10000 % 256, x / 0x100 % 256, x % 256]
  }

  type Block = b: seq<Byte> | |b| == 64 witness Zeros(64)

  /** Section 6.2.2, step 1: the message schedule. */
  function Schedule(block: Block, t: nat): Word {
    if t < 16 then
      Pack(block[4 * t..4 * t + 4])
    else
      Add32(Add32(Add32(SmallSigma1(Schedule(block, t - 2)), Schedule(block, t - 7)),
                  SmallSigma0(Schedule(block, t - 15))), Schedule(block, t - 16))
  }

  /** Step 3: one round. */
  function Round(v: Hash, k: Word, w: Word): Hash {
    var t1 := Add32(Add32(Add32(Add32(v.h, BigSigma1(v.e)), Ch(v.e, v.f, v.g)), k), w);
    var t2 := Add32(BigSigma0(v.a), Maj(v.a, v.b, v.c));
    Hash(Add32(t1, t2), v.a, v.b, v.c, Add32(v.d, t1), v.e, v.f, v.g)
  }

  function Rounds(v: Hash, block: Block, t: nat): Hash
    requires t <= |K|
  {
    if t == 0 then v else Round(Rounds(v, block, t - 1), K[t - 1], Schedule(block, t - 1))
  }

  function Plus(x: Hash, y: Hash): Hash {
    Hash(Add32(x.a, y.a), Add32(x.b, y.b), Add32(x.c, y.c), Add32(x.d, y.d),
         Add32(x.e, y.e), Add32(x.f, y.f), Add32(x.g, y.g), Add32(x.h, y.h))
  }

  /** Step 4. */
  function Compress(v: Hash, block: Block): Hash {
    Plus(v, Rounds(v, block, |K|))
  }

  /** Fold a compression function over all complete blocks of a message, in order. */
  function Absorb(compress: (Hash, Block) -> Hash, v: Hash, m: seq<Byte>): Hash
    decreases |m|
  {
    if |m| < 64 then v else Absorb(compress, compress(v, m[..64]), m[64..])
  }

  /** Section 5.1.1: a 1 bit, zeros up to 56 modulo 64 bytes, and the bit length in 64 bits. */
  function Padding(n: nat): seq<Byte> {
    [0x80] + Zeros(ZeroCount(n)) + LengthField(n)
  }

  function ZeroCount(n: nat): (z: nat)
    ensures z < 64 && (n + 1 + z) % 64 == 56
  {
    var r := n % 64;
    if r <= 55 then 55 - r else 119 - r
  }

  function Zeros(n: nat): (z: seq<Byte>)
    ensures |z| == n && forall i :: 0 <= i < n ==> z[i] == 0
  {
    seq(n, (i: nat) => 0 as Byte)
  }

  function LengthField(n: nat): (b: seq<Byte>)
    ensures |b| == 8
  {
    Unpack(8 * n / B32 % B32) + Unpack(8 * n % B32)
  }

  function Output(v: Hash): (b: seq<Byte>)
    ensures |b| == 32
  {
    Unpack(v.a) + Unpack(v.b) + Unpack(v.c) + Unpack(v.d) + Unpack(v.e) + Unpack(v.f) + Unpack(v.g) + Unpack(v.h)
  }

  function Sha256(m: seq<Byte>): seq<Byte> {
    Output(Absorb(Compress, H0, m + Padding(|m|)))
  }

  /** Absorbing whole blocks first and the rest later is absorbing everything. */
  lemma {:induction false} AbsorbConcat(compress: (Hash, Block) -> Hash, v: Hash, m: seq<Byte>, n: seq<Byte>)
    requires |m| % 64 == 0
    ensures Absorb(compress, v, m + n) == Absorb(compress, Absorb(compress, v, m), n)
    decreases |m|
  {
    if m == [] {
      assert m + n == n;
    } else {
      assert (m + n)[..64] == m[..64] && (m + n)[64..] == m[64..] + n;
      AbsorbConcat(compress, compress(v, m[..64]), m[64..], n);
    }
  }
}
