/**
 The streaming wrappers of crypto/hash/sha1.cpp and crypto/hash/md5.cpp: buffering,
 the two-word bit counter and the final padding, over an arbitrary compression
 function on 64-byte blocks.
 */
module Digests {
  import opened Powers

  const BLOCK: nat := 64

  /** Folds the compression function over the first n blocks of the data. */
  function Fold<S>(compress: (S, seq<byte>) -> S, s: S, data: seq<byte>, n: nat): S
    requires BLOCK * n <= |data|
  {
    if n == 0 then s
    else compress(Fold(compress, s, data, n - 1), data[BLOCK * (n - 1)..BLOCK * n])
  }

  /** Folds over all whole blocks. */
  function FoldAll<S>(compress: (S, seq<byte>) -> S, s: S, data: seq<byte>): S {
    Fold(compress, s, data, |data| / BLOCK)
  }

  // Later bytes do not change the blocks before them.
  lemma {:induction false} FoldPrefix<S>(compress: (S, seq<byte>) -> S, s: S, data: seq<byte>, more: seq<byte>, n: nat)
    requires BLOCK * n <= |data|
    ensures Fold(compress, s, data + more, n) == Fold(compress, s, data, n)
  {
    if n == 0 {
    } else {
      FoldPrefix(compress, s, data, more, n - 1);
      assert (data + more)[BLOCK * (n - 1)..BLOCK * n] == data[BLOCK * (n - 1)..BLOCK * n];
    }
  }

  lemma FoldLast<S>(compress: (S, seq<byte>) -> S, s: S, data: seq<byte>, k: nat)
    requires |data| == BLOCK * (k + 1)
    ensures FoldAll(compress, s, data) == compress(Fold(compress, s, data, k), data[BLOCK * k..BLOCK * (k + 1)])
  {
  }

  /** The bytes after the last whole block. */
  function Tail(m: seq<byte>): (t: seq<byte>)
    ensures |t| == |m| % BLOCK
  {
    m[|m| / BLOCK * BLOCK..]
  }

  // The block that starts in the buffer ends in the new data.
  lemma FirstBlock(m: seq<byte>, data: seq<byte>, i: nat)
    requires i == BLOCK - |m| % BLOCK && i <= |data|
    ensures var n := |m| / BLOCK;
            |m| + i == BLOCK * (n + 1) && (m + data)[BLOCK * n..BLOCK * (n + 1)] == Tail(m) + data[..i]
  {
  }

  lemma LaterBlock(m: seq<byte>, data: seq<byte>, i: nat, n: nat)
    requires i + BLOCK <= |data| && |m| + i == BLOCK * n
    ensures (m + data)[BLOCK * n..BLOCK * (n + 1)] == data[i..i + BLOCK]
  {
  }

  // What is left short of a block is the tail of the longer message.
  lemma UpdateEnds(m: seq<byte>, data: seq<byte>, i: nat)
    requires i <= |data| < i + BLOCK && (|m| + i) % BLOCK == 0
    ensures |m + data| / BLOCK == (|m| + i) / BLOCK && Tail(m + data) == data[i..]
  {
  }

  lemma UpdateShort(m: seq<byte>, data: seq<byte>)
    requires |m| % BLOCK + |data| < BLOCK
    ensures |m + data| / BLOCK == |m| / BLOCK && Tail(m + data) == Tail(m) + data
  {
  }

  /** The message that is cut into chunks. */
  function Concat(chunks: seq<seq<byte>>): seq<byte> {
    if chunks == [] then [] else Concat(chunks[..|chunks| - 1]) + chunks[|chunks| - 1]
  }

  /** `memcpy` of src into dst at an offset. */
  method CopyInto(dst: array<byte>, at: nat, src: seq<byte>)
    requires at + |src| <= dst.Length
    modifies dst
    ensures dst[..] == old(dst[..at]) + src + old(dst[at + |src|..])
    ensures dst[..at + |src|] == old(dst[..at]) + src
  {
    for k := 0 to |src|
      invariant dst[..] == old(dst[..at]) + src[..k] + old(dst[at + k..])
    {
      dst[at + k] := src[k];
    }
  }

  /** Stores the bytes that complete the tail of a message. */
  method StoreTail(buffer: array<byte>, at: nat, src: seq<byte>, ghost m: seq<byte>)
    requires at + |src| <= buffer.Length && Tail(m) == buffer[..at] + src
    modifies buffer
    ensures buffer[..|m| % BLOCK] == Tail(m)
  {
    CopyInto(buffer, at, src);
    assert at + |src| == |Tail(m)|;
  }

  // ------------------------------------------------------------ padding

  function Zeros(n: nat): (z: seq<byte>)
    ensures |z| == n
  {
    seq(n, _ => 0)
  }

  /** Zero bytes that bring a message and its 0x80 byte to 56 modulo 64. */
  function ZeroCount(n: nat): nat { (119 - n % BLOCK) % BLOCK }

  function BigEndian32(v: u32): (b: seq<byte>)
    ensures |b| == 4
  {
    [v / 16777216 % 256, v / 65536 % 256, v / 256 % 256, v % 256]
  }

  /** The number of bits of an n-byte message as two 32-bit words, high and low. */
  function HighBits(n: nat): u32 { 8 * n / TWO_32 % TWO_32 }
  function LowBits(n: nat): u32 { 8 * n % TWO_32 }

  /** Section 4 of RFC 3174: 0x80, zeros, and the bit length as a big-endian 64-bit number. */
  function PaddedSha1(m: seq<byte>): seq<byte> {
    m + [0x80] + Zeros(ZeroCount(|m|)) + (BigEndian32(HighBits(|m|)) + BigEndian32(LowBits(|m|)))
  }

  /** Sections 3.1 and 3.2 of RFC 1321: the same with the length low-order byte first. */
  function PaddedMd5(m: seq<byte>): seq<byte> {
    m + [0x80] + Zeros(ZeroCount(|m|)) + (LittleEndian32(LowBits(|m|)) + LittleEndian32(HighBits(|m|)))
  }

  lemma ZeroCountFits(n: nat)
    ensures ZeroCount(n) == if n % BLOCK < 56 then 55 - n % BLOCK else 119 - n % BLOCK
    ensures (n + 1 + ZeroCount(n)) % BLOCK == 56
  {
    var q, r := n / BLOCK, n % BLOCK;
    assert n == BLOCK * q + r;
  }

  /** The number that bytes spell, high-order byte first: the last byte counts once, the one before it 256 times. */
  function BigEndianValue(b: seq<byte>): nat {
    if b == [] then 0 else 256 * BigEndianValue(b[..|b| - 1]) + b[|b| - 1]
  }

  lemma {:induction false} BigEndianJoin(a: seq<byte>, b: seq<byte>, weight: nat)
    requires weight == Pow2(8 * |b|)
    ensures BigEndianValue(a + b) == weight * BigEndianValue(a) + BigEndianValue(b)
    decreases |b|
  {
    if b == [] {
      assert a + b == a;
    } else {
      var init := b[..|b| - 1];
      Pow2Step(8 * |init|);
      BigEndianJoin(a, init, Pow2(8 * |init|));
      assert (a + b)[..|a + b| - 1] == a + init;
      Swap(256, Pow2(8 * |init|), BigEndianValue(a));
    }
  }

  lemma {:induction false} LittleEndianJoin(a: seq<byte>, b: seq<byte>, weight: nat)
    requires weight == Pow2(8 * |a|)
    ensures LittleEndianValue(a + b) == LittleEndianValue(a) + weight * LittleEndianValue(b)
    decreases |a|
  {
    if a == [] {
      assert a + b == b;
    } else {
      var rest := a[1..];
      Pow2Step(8 * |rest|);
      LittleEndianJoin(rest, b, Pow2(8 * |rest|));
      assert (a + b)[1..] == rest + b;
      Swap(256, Pow2(8 * |rest|), LittleEndianValue(b));
    }
  }

  lemma FourBigEndian(b: seq<byte>)
    requires |b| == 4
    ensures BigEndianValue(b) == 16777216 * (b[0] as int) + 65536 * (b[1] as int) + 256 * (b[2] as int) + b[3]
  {
    var b1, b2, b3 := b[..1], b[..2], b[..3];
    assert b3[..2] == b2 && b2[..1] == b1 && b1[..0] == [];
    assert BigEndianValue(b1) == b[0];
    assert BigEndianValue(b2) == 256 * BigEndianValue(b1) + b[1];
    assert BigEndianValue(b3) == 256 * BigEndianValue(b2) + b[2];
  }

  lemma BigEndian32Value(v: u32)
    ensures BigEndianValue(BigEndian32(v)) == v
  {
    FourBytes(v);
    FourBigEndian(BigEndian32(v));
  }

  lemma BitLength(n: nat)
    ensures TWO_32 * HighBits(n) + LowBits(n) == 8 * n % TWO_64
  {
  }

  /** A padded message: whole blocks that begin with the message, 0x80 and zeros and end in an 8-byte length. */
  ghost predicate WellPadded(m: seq<byte>, p: seq<byte>) {
    && |p| % BLOCK == 0 && |m| + 9 <= |p| < |m| + 9 + BLOCK
    && p[..|m|] == m && p[|m|] == 0x80
    && forall i :: |m| < i < |p| - 8 ==> p[i] == 0
  }

  lemma PaddingShape(m: seq<byte>, length: seq<byte>)
    requires |length| == 8
    ensures var p := m + [0x80] + Zeros(ZeroCount(|m|)) + length; WellPadded(m, p) && p[|p| - 8..] == length
  {
    ZeroCountFits(|m|);
    var front := m + [0x80] + Zeros(ZeroCount(|m|));
    assert |front| % BLOCK == 56 && |front + length| == |front| + 8;
  }

  lemma Sha1Length(n: nat)
    ensures BigEndianValue(BigEndian32(HighBits(n)) + BigEndian32(LowBits(n))) == 8 * n % TWO_64
  {
    Pow2Constants();
    BigEndianJoin(BigEndian32(HighBits(n)), BigEndian32(LowBits(n)), TWO_32);
    BigEndian32Value(HighBits(n));
    BigEndian32Value(LowBits(n));
    BitLength(n);
  }

  lemma Md5Length(n: nat)
    ensures LittleEndianValue(LittleEndian32(LowBits(n)) + LittleEndian32(HighBits(n))) == 8 * n % TWO_64
  {
    var low, high := LowBits(n), HighBits(n);
    Pow2Constants();
    LittleEndianJoin(LittleEndian32(low), LittleEndian32(high), TWO_32);
    LittleEndian32Value(low);
    LittleEndian32Value(high);
    BitLength(n);
  }

  // The padding of section 4 of RFC 3174: its last eight bytes spell the number of bits, high-order byte first.
  lemma Sha1Padding(m: seq<byte>)
    ensures var p := PaddedSha1(m); WellPadded(m, p) && BigEndianValue(p[|p| - 8..]) == 8 * |m| % TWO_64
  {
    PaddingShape(m, BigEndian32(HighBits(|m|)) + BigEndian32(LowBits(|m|)));
    Sha1Length(|m|);
  }

  // That of sections 3.1 and 3.2 of RFC 1321: the same, low-order byte first.
  lemma Md5Padding(m: seq<byte>)
    ensures var p := PaddedMd5(m); WellPadded(m, p) && LittleEndianValue(p[|p| - 8..]) == 8 * |m| % TWO_64
  {
    PaddingShape(m, LittleEndian32(LowBits(|m|)) + LittleEndian32(HighBits(|m|)));
    Md5Length(|m|);
  }

  // Messages below 2^61 bytes are padded to different blocks if they differ.
  lemma PaddingIsInjective(m1: seq<byte>, m2: seq<byte>)
    requires 8 * |m1| < TWO_64 && 8 * |m2| < TWO_64
    ensures PaddedSha1(m1) == PaddedSha1(m2) ==> m1 == m2
    ensures PaddedMd5(m1) == PaddedMd5(m2) ==> m1 == m2
  {
    Sha1Padding(m1); Sha1Padding(m2);
    Md5Padding(m1); Md5Padding(m2);
  }

  // ------------------------------------------------------------ the counter

  const TWO_29: nat := 0x2000_0000

  lemma CounterWords(n: nat)
    ensures LowBits(n) == 8 * (n % TWO_29) && HighBits(n) == n / TWO_29 % TWO_32
  {
    var q, r := n / TWO_29, n % TWO_29;
    assert 8 * n == TWO_32 * q + 8 * r;
  }

  lemma IndexFromCounter(n: nat)
    ensures LowBits(n) / 8 % BLOCK == n % BLOCK
  {
    CounterWords(n);
    var q, r := n / TWO_29, n % TWO_29;
    assert LowBits(n) / 8 == r;
    assert n == BLOCK * (0x80_0000 * q) + r;
  }

  lemma SumOfResidues(a: nat, b: nat, c: nat)
    ensures (a % TWO_32 + c + b % TWO_32) % TWO_32 == (a + b + c) % TWO_32
  {
  }

  lemma SumParts(n: nat, len: nat)
    ensures var r := n % TWO_29 + len % TWO_29;
            var c := One(r >= TWO_29);
            (n + len) % TWO_29 == r - c * TWO_29 && (n + len) / TWO_29 == n / TWO_29 + len / TWO_29 + c
  {
  }

  lemma AddTwice(a: nat, c: nat, b: nat)
    ensures ((a + c) % TWO_32 + b) % TWO_32 == (a + c + b) % TWO_32
  {
  }

  /** The high word after a carry and the high part of the length have been added in turn. */
  function HighAfter(high: u32, carry: bool, len: nat): u32 {
    var carried := if carry then (high + 1) % TWO_32 else high;
    (carried + len / TWO_29 % TWO_32) % TWO_32
  }

  lemma CounterLow(n: nat, len: nat)
    ensures var addend := 8 * len % TWO_32;
            var low := (LowBits(n) + addend) % TWO_32;
            && low == LowBits(n + len)
            && (low < addend <==> n % TWO_29 + len % TWO_29 >= TWO_29)
            && (low < LowBits(n) <==> n % TWO_29 + len % TWO_29 >= TWO_29)
  {
    CounterWords(n);
    CounterWords(n + len);
    CounterWords(len);
    SumParts(n, len);
  }

  lemma CounterHigh(n: nat, len: nat)
    ensures HighAfter(HighBits(n), n % TWO_29 + len % TWO_29 >= TWO_29, len) == HighBits(n + len)
  {
    CounterWords(n);
    CounterWords(n + len);
    SumParts(n, len);
    var c := One(n % TWO_29 + len % TWO_29 >= TWO_29);
    SumOfResidues(n / TWO_29, len / TWO_29, c);
    AddTwice(HighBits(n), 1, len / TWO_29 % TWO_32);
  }

  // Two 32-bit words with the carry detected by either comparison count modulo 2^64.
  lemma CounterAdds(n: nat, len: nat)
    ensures var addend := 8 * len % TWO_32;
            var low := (LowBits(n) + addend) % TWO_32;
            && low == LowBits(n + len)
            && HighAfter(HighBits(n), low < addend, len) == HighBits(n + len)
            && (low < addend <==> low < LowBits(n))
  {
    CounterLow(n, len);
    CounterHigh(n, len);
  }
}
