/** `class SHA256`: the streaming hash, one buffered block and eight chaining words updated in place. */
module Sha256Context {
  import opened MachineWords
  import opened Sha256Standard

  const BLOCK_SIZE := 64

  // ----- one block -----

  /** The message schedule, filled into `w`. */
  method FillSchedule(w: array<Word>, block: Block)
    requires w.Length == 64
    modifies w
    ensures forall t :: 0 <= t < 64 ==> w[t] == Schedule(block, t)
  {
    for j := 0 to 16
      invariant forall t :: 0 <= t < j ==> w[t] == Schedule(block, t)
    {
      w[j] := Pack(block[4 * j..4 * j + 4]);
    }
    for j := 16 to 64
      invariant forall t :: 0 <= t < j ==> w[t] == Schedule(block, t)
    {
      w[j] := Add32(Add32(Add32(SmallSigma1(w[j - 2]), w[j - 7]), SmallSigma0(w[j - 15])), w[j - 16]);
    }
  }

  function HashOf(s: seq<Word>): Hash
    requires |s| == 8
  {
    Hash(s[0], s[1], s[2], s[3], s[4], s[5], s[6], s[7])
  }

  /** The body of the loop of rounds. */
  method OneRound(wv: array<Word>, k: Word, w: Word)
    requires wv.Length == 8
    modifies wv
    ensures HashOf(wv[..]) == Round(old(HashOf(wv[..])), k, w)
  {
    var t1 := Add32(Add32(Add32(Add32(wv[7], BigSigma1(wv[4])), Ch(wv[4], wv[5], wv[6])), k), w);
    var t2 := Add32(BigSigma0(wv[0]), Maj(wv[0], wv[1], wv[2]));
    wv[7] := wv[6];
    wv[6] := wv[5];
    wv[5] := wv[4];
    wv[4] := Add32(wv[3], t1);
    wv[3] := wv[2];
    wv[2] := wv[1];
    wv[1] := wv[0];
    wv[0] := Add32(t1, t2);
  }

  /** The loop of rounds. */
  method RunRounds(wv: array<Word>, w: array<Word>, block: Block)
    requires wv.Length == 8 && w.Length == 64 && wv != w
    requires forall t :: 0 <= t < 64 ==> w[t] == Schedule(block, t)
    modifies wv
    ensures HashOf(wv[..]) == Rounds(old(HashOf(wv[..])), block, |K|)
  {
    KHas64Words();
    for j := 0 to |K|
      invariant forall t :: 0 <= t < 64 ==> w[t] == Schedule(block, t)
      invariant HashOf(wv[..]) == Rounds(old(HashOf(wv[..])), block, j)
    {
      OneRound(wv, K[j], w[j]);
    }
  }

  /** The final additions into the chaining words. */
  method AddInto(h: array<Word>, wv: array<Word>)
    requires h.Length == 8 && wv.Length == 8 && h != wv
    modifies h
    ensures HashOf(h[..]) == Plus(old(HashOf(h[..])), HashOf(wv[..]))
  {
    for j := 0 to 8
      invariant forall i :: 0 <= i < j ==> h[i] == Add32(old(h[i]), wv[i])
      invariant forall i :: j <= i < 8 ==> h[i] == old(h[i])
    {
      h[j] := Add32(h[j], wv[j]);
    }
  }

  method CopyWords(h: array<Word>) returns (wv: array<Word>)
    requires h.Length == 8
    ensures fresh(wv) && wv.Length == 8 && wv[..] == h[..]
  {
    wv := new Word[8];
    for j := 0 to 8
      invariant forall i :: 0 <= i < j ==> wv[i] == h[i]
    {
      wv[j] := h[j];
    }
  }

  method CompressBlock(h: array<Word>, block: Block)
    requires h.Length == 8
    modifies h
    ensures HashOf(h[..]) == Compress(old(HashOf(h[..])), block)
  {
    var wv := CopyWords(h);
    ghost var v := HashOf(h[..]);
    assert HashOf(wv[..]) == v;
    var w := new Word[64];
    FillSchedule(w, block);
    RunRounds(wv, w, block);
    AddInto(h, wv);
  }

  /** Copying into the middle of a buffer. */
  function Overwritten(s: seq<Byte>, at: nat, src: seq<Byte>): seq<Byte>
    requires at + |src| <= |s|
  {
    s[..at] + src + s[at + |src|..]
  }

  method Memcpy(dst: array<Byte>, at: nat, src: seq<Byte>)
    requires at + |src| <= dst.Length
    modifies dst
    ensures dst[..] == Overwritten(old(dst[..]), at, src)
  {
    for i := 0 to |src|
      invariant dst[..] == Overwritten(old(dst[..]), at, src[..i])
    {
      dst[at + i] := src[i];
      assert dst[..] == Overwritten(old(dst[..]), at, src[..i + 1]);
    }
    assert src[..|src|] == src;
  }

  class Context {
    var totalLength: nat
    var length: nat
    const block: array<Byte>
    const h: array<Word>
    /** Everything fed so far. */
    ghost var fed: seq<Byte>

    constructor ()
      ensures fresh(block) && fresh(h) && Shaped()
    {
      block := new Byte[2 * BLOCK_SIZE];
      h := new Word[8];
    }

    ghost predicate Shaped() {
      block.Length == 2 * BLOCK_SIZE && h.Length == 8
    }

    /** The whole blocks fed are absorbed; the rest, less than a block, is buffered. */
    ghost predicate Valid()
      reads this, block, h
    {
      && Shaped()
      && length < BLOCK_SIZE && length <= |fed| && (|fed| - length) % BLOCK_SIZE == 0
      && totalLength == (|fed| - length) % B32
      && block[..length] == fed[|fed| - length..]
      && HashOf(h[..]) == Absorb(Compress, H0, fed[..|fed| - length])
    }

    /** `transform`: compress `count` consecutive blocks. */
    method Transform(message: seq<Byte>, count: nat)
      requires Shaped() && count * BLOCK_SIZE <= |message|
      modifies h
      ensures HashOf(h[..]) == Absorb(Compress, old(HashOf(h[..])), message[..count * BLOCK_SIZE])
    {
      for i := 0 to count
        invariant Absorb(Compress, HashOf(h[..]), message[i * BLOCK_SIZE..count * BLOCK_SIZE])
               == Absorb(Compress, old(HashOf(h[..])), message[..count * BLOCK_SIZE])
      {
        ghost var rest := message[i * BLOCK_SIZE..count * BLOCK_SIZE];
        var subBlock := message[i * BLOCK_SIZE..i * BLOCK_SIZE + BLOCK_SIZE];
        assert rest[..64] == subBlock && rest[64..] == message[(i + 1) * BLOCK_SIZE..count * BLOCK_SIZE];
        CompressBlock(h, subBlock);
      }
    }

    method Init()
      requires Shaped()
      modifies this, h
      ensures Valid() && fed == []
    {
      hide Absorb;
      hide Compress;
      h[0], h[1], h[2], h[3] := 0x6a09e667, 0xbb67ae85, 0x3c6ef372, 0xa54ff53a;
      h[4], h[5], h[6], h[7] := 0x510e527f, 0x9b05688c, 0x1f83d9ab, 0x5be0cd19;
      length := 0;
      totalLength := 0;
      fed := [];
      AbsorbNothing();
    }

    /** `update`: the 32-bit sum of buffered and new length must not wrap. */
    method Update(message: seq<Byte>)
      requires Valid() && length + |message| < B32
      modifies this, block, h
      ensures Valid() && fed == old(fed) + message
    {
      hide Absorb;
      var tmpLen := BLOCK_SIZE - length;
      var remLen := if |message| < tmpLen then |message| else tmpLen;
      Memcpy(block, length, message[..remLen]);
      if length + |message| < BLOCK_SIZE {
        ShortMessage(fed, length, message);
        length := length + |message|;
        fed := fed + message;
        return;
      }
      UpdateBlocks(message, remLen);
    }

    /** The part of `update` after the early return: the buffered block is full. */
    method UpdateBlocks(message: seq<Byte>, taken: nat)
      requires Shaped() && length < BLOCK_SIZE && taken == BLOCK_SIZE - length <= |message|
      requires length <= |fed| && (|fed| - length) % BLOCK_SIZE == 0
      requires totalLength == (|fed| - length) % B32
      requires block[..BLOCK_SIZE] == fed[|fed| - length..] + message[..taken]
      requires HashOf(h[..]) == Absorb(Compress, H0, fed[..|fed| - length])
      modifies this, block, h
      ensures Valid() && fed == old(fed) + message
    {
      hide Absorb;
      var newLen := |message| - taken;
      var blockNb := newLen / BLOCK_SIZE;
      var remLen := newLen % BLOCK_SIZE;
      var shifted := message[taken..];
      AbsorbBoth(block[..BLOCK_SIZE], shifted, blockNb);
      KeepTail(shifted[blockNb * BLOCK_SIZE..blockNb * BLOCK_SIZE + remLen]);
      LongMessage(fed, length, message, taken, blockNb, remLen);
      LongTotal(|fed| - length, blockNb);
      AbsorbThree(Compress, H0, fed[..|fed| - length], fed[|fed| - length..] + message[..taken],
                  shifted[..blockNb * BLOCK_SIZE]);
      totalLength := (totalLength + (blockNb + 1) * BLOCK_SIZE) % B32;
      length := remLen;
      fed := fed + message;
    }

    /** The two calls of `transform`: the buffered block, then the whole blocks of the message. */
    method AbsorbBoth(first: seq<Byte>, rest: seq<Byte>, count: nat)
      requires Shaped() && |first| == BLOCK_SIZE && count * BLOCK_SIZE <= |rest|
      modifies h
      ensures HashOf(h[..])
           == Absorb(Compress, Absorb(Compress, old(HashOf(h[..])), first), rest[..count * BLOCK_SIZE])
    {
      assert first[..1 * BLOCK_SIZE] == first;
      Transform(first, 1);
      Transform(rest, count);
    }

    method KeepTail(tail: seq<Byte>)
      requires Shaped() && |tail| < BLOCK_SIZE
      modifies block
      ensures block[..|tail|] == tail
    {
      Memcpy(block, 0, tail);
      assert block[..|tail|] == block[..][..|tail|];
    }

    /** `memset(&block[at], 0, n)`. */
    method ClearBlock(at: nat, n: nat)
      requires Shaped() && at + n <= block.Length
      modifies block
      ensures block[..] == Overwritten(old(block[..]), at, Zeros(n))
    {
      for i := 0 to n
        invariant forall k :: 0 <= k < block.Length ==> block[k] == if at <= k < at + i then 0 else old(block[k])
      {
        block[at + i] := 0;
      }
    }

    /** The padding step of `final`: one or two blocks, ready to be compressed. */
    method Pad() returns (blockNb: nat)
      requires Valid()
      modifies block
      ensures 1 <= blockNb <= 2
      ensures block[..blockNb * BLOCK_SIZE] == fed[|fed| - length..] + StreamPadding(|fed|)
    {
      hide Absorb;
      hide Compress;
      hide StreamPadding;
      hide Unpack;
      hide BitCount;
      hide Shl;
      ghost var before := block[..];
      blockNb := if BLOCK_SIZE - 9 < length % BLOCK_SIZE then 2 else 1;
      var pmLen: nat := blockNb * BLOCK_SIZE;
      var bits: Word := Shl((totalLength + length) % B32, 3);
      BitLength(|fed|, length, totalLength);
      ClearBlock(length, pmLen - length);
      block[length] := 0x80;
      StoreBigEndian(block, pmLen - 4, bits);
      PaddedBlock(before, length, pmLen, |fed|);
    }

    /** `final`: the digest of everything fed, with the length of the message kept in one 32-bit word. */
    method Final(digest: array<Byte>)
      requires Valid() && digest.Length == 32 && digest != block
      modifies block, h, digest
      ensures digest[..] == Output(Absorb(Compress, H0, old(fed) + StreamPadding(|old(fed)|)))
      ensures |old(fed)| < MAX_BYTES ==> digest[..] == Sha256(old(fed))
    {
      hide Absorb;
      hide StreamPadding;
      hide Sha256;
      hide Output;
      var blockNb := Pad();
      AbsorbAll(Compress, H0, fed, |fed| - length, StreamPadding(|fed|));
      ghost var padded := block[..blockNb * BLOCK_SIZE];
      assert padded[..blockNb * BLOCK_SIZE] == padded;
      Transform(block[..blockNb * BLOCK_SIZE], blockNb);
      WriteDigest(digest);
      StreamDigest(fed);
    }

    method WriteDigest(digest: array<Byte>)
      requires Shaped() && digest.Length == 32
      modifies digest
      ensures digest[..] == Output(HashOf(h[..]))
    {
      for i := 0 to 8
        invariant forall k :: 0 <= k < i ==> digest[4 * k..4 * k + 4] == Unpack(h[k])
      {
        ghost var was := digest[..];
        StoreBigEndian(digest, 4 * i, h[i]);
        forall k | 0 <= k < i ensures digest[4 * k..4 * k + 4] == Unpack(h[k]) {
          assert digest[4 * k..4 * k + 4] == was[4 * k..4 * k + 4];
        }
      }
      OutputPieces(h[..], digest[..]);
    }
  }

  /** `SHA2_UNPACK32`. */
  method StoreBigEndian(dst: array<Byte>, at: nat, x: Word)
    requires at + 4 <= dst.Length
    modifies dst
    ensures dst[..] == Overwritten(old(dst[..]), at, Unpack(x))
    ensures dst[at..at + 4] == Unpack(x)
  {
    dst[at + 3] := x % 256;
    dst[at + 2] := x / 0x100 % 256;
    dst[at + 1] := x / 0x10000 % 256;
    dst[at] := x / 0x1000000;
  }

  // ----- the padding -----

  const MAX_BYTES := 0x2000_0000

  /** What `final` appends: the standard's padding with the upper half of the bit length left zero. */
  function StreamPadding(n: nat): (p: seq<Byte>)
    ensures |p| == ZeroCount(n) + 9
  {
    [0x80] + Zeros(ZeroCount(n) + 4) + Unpack(BitCount(n))
  }

  function BitCount(n: nat): Word {
    8 * n % B32
  }

  /** The two agree exactly when the bit length fits in 32 bits. */
  lemma StreamPaddingIsStandard(n: nat)
    requires 8 * n < B64
    ensures StreamPadding(n) == Padding(n) <==> n < MAX_BYTES
  {
    var x: Word := 8 * n / B32 % B32;
    HighHalf(n);
    UnpackZero(x);
    PaddingsDiffer(n, x);
  }

  lemma HighHalf(n: nat)
    requires 8 * n < B64
    ensures 8 * n / B32 % B32 == 0 <==> n < MAX_BYTES
  {
  }

  lemma PaddingsDiffer(n: nat, x: Word)
    requires x == 8 * n / B32 % B32
    ensures StreamPadding(n) == Padding(n) <==> Unpack(x) == Zeros(4)
  {
    hide Unpack;
    var z := ZeroCount(n);
    assert StreamPadding(n) == [0x80] + Zeros(z) + (Zeros(4) + Unpack(BitCount(n)));
    assert Padding(n) == [0x80] + Zeros(z) + (Unpack(x) + Unpack(BitCount(n)));
    assert Padding(n)[1 + z..5 + z] == Unpack(x) && StreamPadding(n)[1 + z..5 + z] == Zeros(4);
  }

  /** For messages shorter than 2^29 bytes what `final` delivers is the hash of the message. */
  lemma StreamDigest(m: seq<Byte>)
    ensures |m| < MAX_BYTES ==> Output(Absorb(Compress, H0, m + StreamPadding(|m|))) == Sha256(m)
  {
    if |m| < MAX_BYTES {
      StreamPaddingIsStandard(|m|);
    }
  }

  lemma AbsorbAll(compress: (Hash, Block) -> Hash, v: Hash, fed: seq<Byte>, split: nat, padding: seq<Byte>)
    requires split <= |fed| && split % 64 == 0
    ensures Absorb(compress, Absorb(compress, v, fed[..split]), fed[split..] + padding)
         == Absorb(compress, v, fed + padding)
  {
    hide Absorb;
    AbsorbConcat(compress, v, fed[..split], fed[split..] + padding);
    assert fed + padding == fed[..split] + (fed[split..] + padding);
  }

  lemma UnpackZero(x: Word)
    ensures Unpack(x) == Zeros(4) <==> x == 0
  {
    if Unpack(x) == Zeros(4) {
      assert Unpack(x)[0] == 0 && Unpack(x)[1] == 0 && Unpack(x)[2] == 0 && Unpack(x)[3] == 0;
    }
  }

  lemma BitLength(n: nat, length: nat, total: nat)
    requires length <= n && total == (n - length) % B32
    ensures Shl((total + length) % B32, 3) == BitCount(n)
  {
    var m, q := n % B32, n / B32;
    assert (total + length) % B32 == m;
    ShiftThree(m);
    assert 8 * n == 8 * q * B32 + 8 * m;
    ModShift(8 * m, 8 * q);
  }

  lemma ShiftThree(m: nat)
    ensures ShiftUp(m, 3) == 8 * m
  {
    assert ShiftUp(m, 1) == 2 * m;
    assert ShiftUp(m, 2) == 2 * ShiftUp(m, 1);
  }

  lemma ModShift(x: nat, k: nat)
    ensures (k * B32 + x) % B32 == x % B32
  {
  }

  /** One block holds the tail and the padding if the tail has at most 55 bytes, and two blocks do otherwise. */
  lemma PaddedTail(n: nat, length: nat, pmLen: nat)
    requires length < BLOCK_SIZE && length <= n && (n - length) % BLOCK_SIZE == 0
    requires pmLen == if length <= 55 then 64 else 128
    ensures length + ZeroCount(n) + 9 == pmLen
  {
  }

  /** The three writes of `final`, seen on the contents of the buffer. */
  lemma PaddedBlock(before: seq<Byte>, length: nat, pmLen: nat, n: nat)
    requires |before| == 2 * BLOCK_SIZE
    requires length < BLOCK_SIZE && length <= n && (n - length) % BLOCK_SIZE == 0
    requires pmLen == if length <= 55 then 64 else 128
    ensures var cleared := Overwritten(before, length, Zeros(pmLen - length));
            Overwritten(cleared[length := 0x80], pmLen - 4, Unpack(BitCount(n)))[..pmLen]
            == before[..length] + StreamPadding(n)
  {
    hide BitCount;
    hide Unpack;
    PaddedTail(n, length, pmLen);
    var cleared := Overwritten(before, length, Zeros(pmLen - length));
    assert cleared[length := 0x80][..pmLen - 4] == before[..length] + ([0x80] + Zeros(ZeroCount(n) + 4));
  }

  lemma OutputPieces(h: seq<Word>, d: seq<Byte>)
    requires |h| == 8 && |d| == 32
    requires forall k :: 0 <= k < 8 ==> d[4 * k..4 * k + 4] == Unpack(h[k])
    ensures d == Output(HashOf(h))
  {
    hide Unpack;
    assert d[4 * 0..4 * 0 + 4] == Unpack(h[0]) && d[4 * 1..4 * 1 + 4] == Unpack(h[1]);
    assert d[4 * 2..4 * 2 + 4] == Unpack(h[2]) && d[4 * 3..4 * 3 + 4] == Unpack(h[3]);
    assert d[4 * 4..4 * 4 + 4] == Unpack(h[4]) && d[4 * 5..4 * 5 + 4] == Unpack(h[5]);
    assert d[4 * 6..4 * 6 + 4] == Unpack(h[6]) && d[4 * 7..4 * 7 + 4] == Unpack(h[7]);
    assert d == d[0..4] + d[4..8] + d[8..12] + d[12..16] + d[16..20] + d[20..24] + d[24..28] + d[28..32];
  }

  lemma AbsorbNothing()
    ensures Absorb(Compress, H0, []) == H0
  {
  }

  lemma LongTotal(absorbed: nat, n: nat)
    requires absorbed % BLOCK_SIZE == 0
    ensures (absorbed + (n + 1) * BLOCK_SIZE) % BLOCK_SIZE == 0
    ensures (absorbed % B32 + (n + 1) * BLOCK_SIZE) % B32 == (absorbed + (n + 1) * BLOCK_SIZE) % B32
  {
    var total := absorbed + (n + 1) * BLOCK_SIZE;
    var low := absorbed % B32 + (n + 1) * BLOCK_SIZE;
    DivModUnique(total, BLOCK_SIZE, absorbed / BLOCK_SIZE + n + 1, 0);
    DivModUnique(total, B32, absorbed / B32 + low / B32, low % B32);
  }

  /** The new bytes only lengthen the buffered tail. */
  lemma ShortMessage(fed: seq<Byte>, length: nat, message: seq<Byte>)
    requires length <= |fed|
    ensures var all, tail := fed + message, length + |message|;
            && all[..|all| - tail] == fed[..|fed| - length]
            && all[|all| - tail..] == fed[|fed| - length..] + message
  {
  }

  lemma AbsorbThree(compress: (Hash, Block) -> Hash, v: Hash, a: seq<Byte>, b: seq<Byte>, c: seq<Byte>)
    requires |a| % BLOCK_SIZE == 0 && |b| % BLOCK_SIZE == 0
    ensures Absorb(compress, v, a + (b + c)) == Absorb(compress, Absorb(compress, Absorb(compress, v, a), b), c)
  {
    AbsorbConcat(compress, v, a, b + c);
    AbsorbConcat(compress, Absorb(compress, v, a), b, c);
  }

  /** How the bytes fed split when the buffered block fills up: `n` whole blocks and a tail follow it. */
  lemma LongMessage(fed: seq<Byte>, length: nat, message: seq<Byte>, r: nat, n: nat, tail: nat)
    requires length <= |fed| && r + length == BLOCK_SIZE
    requires |message| == r + n * BLOCK_SIZE + tail
    ensures var all, shifted := fed + message, message[r..];
            && |all| - tail == |fed| - length + (n + 1) * BLOCK_SIZE
            && all[|all| - tail..] == shifted[n * BLOCK_SIZE..n * BLOCK_SIZE + tail]
            && all[..|all| - tail] ==
                 fed[..|fed| - length] + ((fed[|fed| - length..] + message[..r]) + shifted[..n * BLOCK_SIZE])
  {
    var all, shifted := fed + message, message[r..];
    assert |all| == |fed| - length + (n + 1) * BLOCK_SIZE + tail;
    assert all[|all| - tail..] == message[|message| - tail..];
    assert fed == fed[..|fed| - length] + fed[|fed| - length..];
    assert message[..|message| - tail] == message[..r] + shifted[..n * BLOCK_SIZE];
    assert all[..|all| - tail] == fed + message[..|message| - tail];
  }

  // ----- whole runs -----

  function Flatten(chunks: seq<seq<Byte>>): (m: seq<Byte>)
  {
    if chunks == [] then [] else Flatten(chunks[..|chunks| - 1]) + chunks[|chunks| - 1]
  }

  lemma {:induction false} FlattenPrefix(chunks: seq<seq<Byte>>, i: nat)
    requires i <= |chunks|
    ensures |Flatten(chunks[..i])| <= |Flatten(chunks)|
    decreases |chunks| - i
  {
    if i == |chunks| {
      assert chunks[..i] == chunks;
    } else {
      FlattenPrefix(chunks, i + 1);
      assert chunks[..i + 1][..i] == chunks[..i];
    }
  }

  /** Any way of cutting a message into calls of `update`, then `final`: one digest, the standard's. */
  method HashChunks(chunks: seq<seq<Byte>>) returns (digest: array<Byte>)
    requires |Flatten(chunks)| < MAX_BYTES
    ensures digest[..] == Sha256(Flatten(chunks))
  {
    hide Sha256;
    var context := new Context();
    context.Init();
    digest := new Byte[32];
    for i := 0 to |chunks|
      invariant fresh(context) && fresh(context.block) && fresh(context.h) && context.Valid() && fresh(digest)
      invariant digest != context.block && digest.Length == 32
      invariant context.fed == Flatten(chunks[..i])
    {
      assert chunks[..i + 1][..i] == chunks[..i];
      FlattenPrefix(chunks, i + 1);
      context.Update(chunks[i]);
    }
    assert chunks[..|chunks|] == chunks;
    context.Final(digest);
  }
}
