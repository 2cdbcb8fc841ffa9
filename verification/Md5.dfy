/**
 The MD5 context of crypto/hash/md5.cpp over an arbitrary compression function, on a
 little-endian machine, where its byte reversals change nothing.
 */
module Md5 {
  import opened Powers
  import opened Digests

  /** What one `Update` looks at: its length is a 32-bit number. */
  function Truncated(data: seq<byte>): (t: seq<byte>)
    ensures t <= data && |t| == |data| % TWO_32
  {
    data[..|data| % TWO_32]
  }

  class Md5Context<S> {
    const compress: (S, seq<byte>) -> S
    const iv: S
    var buf: S
    var bits0: u32
    var bits1: u32
    var in_: array<byte>
    /** Everything absorbed so far. */
    ghost var message: seq<byte>

    ghost predicate Valid()
      reads this, in_
    {
      && in_.Length == BLOCK
      && buf == FoldAll(compress, iv, message)
      && in_[..|message| % BLOCK] == Tail(message)
      && bits0 == LowBits(|message|) && bits1 == HighBits(|message|)
    }

    constructor (compress: (S, seq<byte>) -> S, iv: S)
      ensures Valid() && message == [] && this.compress == compress && this.iv == iv && fresh(in_)
    {
      this.compress, this.iv, buf := compress, iv, iv;
      bits0, bits1 := 0, 0;
      in_ := new byte[BLOCK](_ => 0);
      message := [];
    }

    /** Adds to the bit counter; the wrap is seen by comparing with the old low word. */
    method Count(len: u32, ghost n: nat)
      requires bits0 == LowBits(n) && bits1 == HighBits(n)
      modifies this`bits0, this`bits1
      ensures bits0 == LowBits(n + len) && bits1 == HighBits(n + len)
    {
      CounterAdds(n, len);
      var t := bits0;
      bits0 := (t + 8 * len % TWO_32) % TWO_32;
      bits1 := HighAfter(bits1, bits0 < t, len);
    }

    method Transform()
      requires in_.Length == BLOCK
      modifies this`buf
      ensures buf == compress(old(buf), in_[..])
    {
      buf := compress(buf, in_[..]);
    }

    /** Tops up a partly filled buffer and compresses it. */
    method FillBuffer(data: seq<byte>, t: nat)
      requires in_.Length == BLOCK && buf == FoldAll(compress, iv, message)
      requires t == |message| % BLOCK && 0 < t && BLOCK - t <= |data| && in_[..t] == Tail(message)
      modifies this`buf, in_
      ensures (|message| + (BLOCK - t)) % BLOCK == 0
      ensures buf == Fold(compress, iv, message + data, (|message| + (BLOCK - t)) / BLOCK)
    {
      ghost var n := |message| / BLOCK;
      FoldPrefix(compress, iv, message, data, n);
      CopyInto(in_, t, data[..BLOCK - t]);
      FirstBlock(message, data, BLOCK - t);
      assert in_[..] == Tail(message) + data[..BLOCK - t];
      Transform();
    }

    /** Copies whole blocks into the buffer and compresses them, one by one. */
    method WholeBlocks(data: seq<byte>, start: nat) returns (i: nat)
      requires in_.Length == BLOCK && start <= |data| && (|message| + start) % BLOCK == 0
      requires buf == Fold(compress, iv, message + data, (|message| + start) / BLOCK)
      modifies this`buf, in_
      ensures start <= i <= |data| < i + BLOCK && (|message| + i) % BLOCK == 0
      ensures buf == Fold(compress, iv, message + data, (|message| + i) / BLOCK)
    {
      i := start;
      ghost var n := (|message| + start) / BLOCK;
      while |data| - i >= BLOCK
        invariant start <= i <= |data| && |message| + i == BLOCK * n && in_.Length == BLOCK
        invariant buf == Fold(compress, iv, message + data, n)
      {
        CopyInto(in_, 0, data[i..i + BLOCK]);
        assert in_[..] == data[i..i + BLOCK];
        LaterBlock(message, data, i, n);
        Transform();
        i := i + BLOCK;
        n := n + 1;
      }
    }

    /** Compresses what completes a block and stores the rest. */
    method AbsorbLong(data: seq<byte>, t: nat)
      requires in_.Length == BLOCK && buf == FoldAll(compress, iv, message)
      requires t == |message| % BLOCK && in_[..t] == Tail(message) && (t == 0 || BLOCK - t <= |data|)
      modifies this`buf, in_
      ensures buf == FoldAll(compress, iv, message + data)
      ensures in_[..|message + data| % BLOCK] == Tail(message + data)
    {
      var i := 0;
      if t != 0 {
        FillBuffer(data, t);
        i := BLOCK - t;
      } else {
        FoldPrefix(compress, iv, message, data, |message| / BLOCK);
      }
      i := WholeBlocks(data, i);
      UpdateEnds(message, data, i);
      StoreTail(in_, 0, data[i..], message + data);
    }

    method Update(sp: seq<byte>)
      requires Valid()
      modifies this, in_
      ensures Valid() && message == old(message) + Truncated(sp) && in_ == old(in_)
    {
      var data := Truncated(sp);
      IndexFromCounter(|message|);
      var t := bits0 / 8 % BLOCK;
      Count(|data|, |message|);
      if t != 0 && |data| < BLOCK - t {
        FoldPrefix(compress, iv, message, data, |message| / BLOCK);
        UpdateShort(message, data);
        StoreTail(in_, t, data, message + data);
      } else {
        AbsorbLong(data, t);
      }
      message := message + data;
    }

    /** Zeros the buffer from `at` up to `to`. */
    method Clear(at: nat, to: nat)
      requires at <= to <= in_.Length
      modifies in_
      ensures in_[..to] == old(in_[..at]) + Zeros(to - at)
    {
      CopyInto(in_, at, Zeros(to - at));
    }

    /** The block the message ends in has no room for the length: complete it and clear the next. */
    method PadLong(used: nat)
      requires in_.Length == BLOCK && used == |message| % BLOCK >= 56
      requires in_[..used + 1] == Tail(message) + [0x80] && buf == FoldAll(compress, iv, message)
      modifies this`buf, in_
      ensures Padded(|message| / BLOCK + 1)
    {
      PaddedFold(compress, iv, message);
      PaddedLong(message);
      Clear(used + 1, BLOCK);
      assert in_[..] == in_[..BLOCK];
      Transform();
      Clear(0, 56);
    }

    method PadShort(used: nat)
      requires in_.Length == BLOCK && used == |message| % BLOCK < 56
      requires in_[..used + 1] == Tail(message) + [0x80] && buf == FoldAll(compress, iv, message)
      modifies in_
      ensures Padded(|message| / BLOCK)
    {
      PaddedFold(compress, iv, message);
      PaddedShort(message);
      Clear(used + 1, 56);
    }

    /** All but the last block of the padded message is folded, and that one is in the buffer up to the length. */
    ghost predicate Padded(k: nat)
      reads this, in_
    {
      var p := PaddedMd5(message);
      && in_.Length == BLOCK && |p| == BLOCK * (k + 1)
      && buf == Fold(compress, iv, p, k) && in_[..56] == p[BLOCK * k..BLOCK * k + 56]
    }

    /** The 0x80 byte and the zeros, up to the place of the length; this may complete a block. */
    method PadToLength() returns (ghost k: nat)
      requires Valid()
      modifies this`buf, in_
      ensures Padded(k)
    {
      IndexFromCounter(|message|);
      var used := bits0 / 8 % BLOCK;
      in_[used] := 0x80;
      assert in_[..used + 1] == Tail(message) + [0x80];
      var count := BLOCK - 1 - used;
      if count < 8 {
        PadLong(used);
        k := |message| / BLOCK + 1;
      } else {
        PadShort(used);
        k := |message| / BLOCK;
      }
    }

    /** Pads and finishes: the state is then the fold over the padded message. */
    method FinalInternal()
      requires Valid()
      modifies this`buf, in_
      ensures buf == FoldAll(compress, iv, PaddedMd5(message))
    {
      ghost var k := PadToLength();
      AppendLength(k);
      FoldLast(compress, iv, PaddedMd5(message), k);
      Transform();
    }

    /** The bit counter as the last eight bytes. */
    method AppendLength(ghost k: nat)
      requires Padded(k) && bits0 == LowBits(|message|) && bits1 == HighBits(|message|)
      modifies in_
      ensures var p := PaddedMd5(message);
              |p| == BLOCK * (k + 1) && in_[..] == p[BLOCK * k..BLOCK * (k + 1)]
    {
      ghost var p := PaddedMd5(message);
      PaddedEnd(message);
      var length: seq<byte> := LittleEndian32(bits0) + LittleEndian32(bits1);
      ghost var front := in_[..56];
      CopyInto(in_, 56, length);
      assert in_[..] == in_[..64] == front + length;
      LastBlock(p, k, front, length);
    }
  }

  lemma LastBlock(p: seq<byte>, k: nat, front: seq<byte>, length: seq<byte>)
    requires |p| == BLOCK * (k + 1) && |length| == 8
    requires front == p[BLOCK * k..BLOCK * k + 56] && length == p[|p| - 8..]
    ensures front + length == p[BLOCK * k..BLOCK * (k + 1)]
  {
  }

  lemma PaddedFold<S>(compress: (S, seq<byte>) -> S, iv: S, m: seq<byte>)
    ensures var p, n := PaddedMd5(m), |m| / BLOCK;
            BLOCK * n <= |p| && Fold(compress, iv, p, n) == FoldAll(compress, iv, m)
  {
    var p := PaddedMd5(m);
    assert p == m + p[|m|..];
    FoldPrefix(compress, iv, m, p[|m|..], |m| / BLOCK);
  }

  // With room for the length, the padding ends in the block the message ends in.
  lemma PaddedShort(m: seq<byte>)
    requires |m| % BLOCK < 56
    ensures var p, n, r := PaddedMd5(m), |m| / BLOCK, |m| % BLOCK;
            |p| == BLOCK * (n + 1) && p[BLOCK * n..BLOCK * n + 56] == Tail(m) + [0x80] + Zeros(55 - r)
  {
    ZeroCountFits(|m|);
  }

  // Without, it fills that block and the length goes into one more.
  lemma PaddedLong(m: seq<byte>)
    requires |m| % BLOCK >= 56
    ensures var p, n, r := PaddedMd5(m), |m| / BLOCK, |m| % BLOCK;
            && |p| == BLOCK * (n + 2)
            && p[BLOCK * n..BLOCK * (n + 1)] == Tail(m) + [0x80] + Zeros(63 - r)
            && p[BLOCK * (n + 1)..BLOCK * (n + 1) + 56] == Zeros(56)
  {
    ZeroCountFits(|m|);
  }

  lemma PaddedEnd(m: seq<byte>)
    ensures var p := PaddedMd5(m);
            |p| >= 8 && p[|p| - 8..] == LittleEndian32(LowBits(|m|)) + LittleEndian32(HighBits(|m|))
  {
    EndsWith(m + [0x80] + Zeros(ZeroCount(|m|)), LittleEndian32(LowBits(|m|)) + LittleEndian32(HighBits(|m|)));
  }

  lemma EndsWith(a: seq<byte>, b: seq<byte>)
    ensures (a + b)[|a + b| - |b|..] == b
  {
  }

  /** What a run of updates absorbs. */
  function Absorbed(chunks: seq<seq<byte>>): seq<byte> {
    if chunks == [] then [] else Absorbed(chunks[..|chunks| - 1]) + Truncated(chunks[|chunks| - 1])
  }

  // The digest covers the whole message exactly when every piece is shorter than 2^32 bytes.
  lemma {:induction false} NothingSkipped(chunks: seq<seq<byte>>)
    ensures Absorbed(chunks) == Concat(chunks) <==> forall i :: 0 <= i < |chunks| ==> |chunks[i]| < TWO_32
    ensures |Absorbed(chunks)| <= |Concat(chunks)|
  {
    if chunks == [] {
    } else {
      var before, last := chunks[..|chunks| - 1], chunks[|chunks| - 1];
      NothingSkipped(before);
      assert |Truncated(last)| == |last| <==> |last| < TWO_32;
      if |last| < TWO_32 {
        assert Truncated(last) == last;
        if Absorbed(chunks) == Concat(chunks) {
          assert Absorbed(before) == Absorbed(chunks)[..|Absorbed(before)|];
        }
      }
    }
  }

  // One chunk of 2^32 bytes is digested like the empty message.
  lemma FourGigabytesAreSkipped(chunk: seq<byte>)
    requires |chunk| == TWO_32
    ensures Absorbed([chunk]) == [] && Concat([chunk]) == chunk
  {
    var none: seq<seq<byte>> := [chunk][..0];
    assert none == [];
    assert Absorbed([chunk]) == Absorbed(none) + Truncated(chunk) && Concat([chunk]) == Concat(none) + chunk;
  }

  /** Any split of a message into updates, and the final step. */
  method Digest<S>(compress: (S, seq<byte>) -> S, iv: S, chunks: seq<seq<byte>>) returns (state: S)
    ensures state == FoldAll(compress, iv, PaddedMd5(Absorbed(chunks)))
  {
    var ctx := new Md5Context(compress, iv);
    for i := 0 to |chunks|
      invariant ctx.Valid() && fresh(ctx) && fresh(ctx.in_)
      invariant ctx.message == Absorbed(chunks[..i])
    {
      assert chunks[..i + 1][..i] == chunks[..i];
      ctx.Update(chunks[i]);
    }
    assert chunks[..|chunks|] == chunks;
    ctx.FinalInternal();
    state := ctx.buf;
  }
}
