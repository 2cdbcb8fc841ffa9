/** The SHA-1 context of crypto/hash/sha1.cpp over an arbitrary compression function. */
module Sha1 {
  import opened Powers
  import opened Digests

  class Sha1Context<S> {
    const compress: (S, seq<byte>) -> S
    const iv: S
    var state: S
    var count0: u32
    var count1: u32
    var buffer: array<byte>
    /** Everything passed to Update so far. */
    ghost var message: seq<byte>

    ghost predicate Valid()
      reads this, buffer
    {
      && buffer.Length == BLOCK
      && state == FoldAll(compress, iv, message)
      && buffer[..|message| % BLOCK] == Tail(message)
      && count0 == LowBits(|message|) && count1 == HighBits(|message|)
    }

    constructor (compress: (S, seq<byte>) -> S, iv: S)
      ensures Valid() && message == [] && this.compress == compress && this.iv == iv && fresh(buffer)
    {
      this.compress, this.iv, state := compress, iv, iv;
      count0, count1 := 0, 0;
      buffer := new byte[BLOCK](_ => 0);
      message := [];
    }

    /** Adds to the bit counter, a carry out of the low word being seen as a wrap. */
    method Count(len: nat, ghost n: nat)
      requires count0 == LowBits(n) && count1 == HighBits(n)
      modifies this`count0, this`count1
      ensures count0 == LowBits(n + len) && count1 == HighBits(n + len)
    {
      CounterAdds(n, len);
      var addend: u32 := 8 * len % TWO_32;
      count0 := (count0 + addend) % TWO_32;
      count1 := HighAfter(count1, count0 < addend, len);
    }

    /** The compression function reads the buffer and may scramble it. */
    method TransformBuffer()
      requires buffer.Length == BLOCK
      modifies this`state, buffer
      ensures state == compress(old(state), old(buffer[..]))
    {
      state := compress(state, buffer[..]);
    }

    /** The part of `Update` that runs when the buffer fills up: compresses every block that is complete. */
    method CompressBlocks(data: seq<byte>, index: nat) returns (i: nat)
      requires buffer.Length == BLOCK && index == |message| % BLOCK && 63 < index + |data| < TWO_64
      requires buffer[..index] == Tail(message) && state == FoldAll(compress, iv, message)
      modifies this`state, buffer
      ensures i <= |data| < i + BLOCK && (|message| + i) % BLOCK == 0
      ensures state == Fold(compress, iv, message + data, (|message| + i) / BLOCK)
    {
      ghost var n := |message| / BLOCK;
      FoldPrefix(compress, iv, message, data, n);
      i := BLOCK - index;
      CopyInto(buffer, index, data[..i]);
      FirstBlock(message, data, i);
      assert buffer[..] == Tail(message) + data[..i];
      TransformBuffer();
      n := n + 1;
      while i + 63 < |data|
        invariant i <= |data| && |message| + i == BLOCK * n
        invariant state == Fold(compress, iv, message + data, n)
      {
        LaterBlock(message, data, i, n);
        state := compress(state, data[i..i + BLOCK]);
        i := i + BLOCK;
        n := n + 1;
      }
    }

    /** Compresses what completes a block and stores the rest. */
    method Absorb(data: seq<byte>, index0: nat)
      requires buffer.Length == BLOCK && index0 == |message| % BLOCK && index0 + |data| < TWO_64
      requires buffer[..index0] == Tail(message)
      requires state == FoldAll(compress, iv, message)
      modifies this`state, buffer
      ensures state == FoldAll(compress, iv, message + data)
      ensures buffer[..|message + data| % BLOCK] == Tail(message + data)
    {
      var i, index := 0, index0;
      if index + |data| > 63 {
        i := CompressBlocks(data, index);
        index := 0;
        UpdateEnds(message, data, i);
      } else {
        FoldPrefix(compress, iv, message, data, |message| / BLOCK);
        UpdateShort(message, data);
      }
      StoreTail(buffer, index, data[i..], message + data);
    }

    /** The sum of the buffered bytes and the size of the data must fit in 64 bits, or the source's test wraps. */
    method Update(data: seq<byte>)
      requires Valid() && |message| % BLOCK + |data| < TWO_64
      modifies this, buffer
      ensures Valid() && message == old(message) + data && buffer == old(buffer)
    {
      IndexFromCounter(|message|);
      var index := count0 / 8 % BLOCK;
      Count(|data|, |message|);
      Absorb(data, index);
      message := message + data;
    }

    /** Appends 0x80 and as many zeros as the counter test asks for. */
    method Pad()
      requires Valid()
      modifies this, buffer
      ensures Valid() && buffer == old(buffer)
      ensures message == old(message) + [0x80] + Zeros(ZeroCount(|old(message)|))
    {
      ghost var m := message;
      Update([0x80]);
      ghost var k := 0;
      IndexFromCounter(|message|);
      while count0 / 8 % BLOCK * 8 != 448
        invariant Valid() && buffer == old(buffer) && k <= ZeroCount(|m|)
        invariant message == m + [0x80] + Zeros(k) && |message| == |m| + 1 + k
        invariant count0 / 8 % BLOCK == |message| % BLOCK
        decreases ZeroCount(|m|) - k
      {
        PaddingContinues(|m|, k);
        AppendZero(m + [0x80], k);
        Update([0]);
        k := k + 1;
        IndexFromCounter(|message|);
      }
      PaddingStops(|m|, k);
    }

    /** Pads and finishes: the state is then the fold over the padded message. */
    method FinalInternal()
      requires Valid()
      modifies this, buffer
      ensures state == FoldAll(compress, iv, PaddedSha1(old(message)))
      ensures Valid() && message == PaddedSha1(old(message))
    {
      var finalCount: seq<byte> := BigEndian32(count1) + BigEndian32(count0);
      Pad();
      Update(finalCount);
    }
  }

  lemma AppendZero(m: seq<byte>, k: nat)
    ensures (m + Zeros(k)) + [0] == m + Zeros(k + 1)
  {
  }

  lemma PaddingContinues(n: nat, k: nat)
    requires k <= ZeroCount(n) && (n + 1 + k) % BLOCK != 56
    ensures k < ZeroCount(n)
  {
    ZeroCountFits(n);
  }

  lemma PaddingStops(n: nat, k: nat)
    requires k <= ZeroCount(n) && (n + 1 + k) % BLOCK == 56
    ensures k == ZeroCount(n)
  {
    ZeroCountFits(n);
    var q, r := n / BLOCK, n % BLOCK;
    assert n == BLOCK * q + r;
  }

  /** Any split of a message into updates, and the final step. */
  method Digest<S>(compress: (S, seq<byte>) -> S, iv: S, chunks: seq<seq<byte>>) returns (state: S)
    requires forall i :: 0 <= i < |chunks| ==> |Concat(chunks[..i])| % BLOCK + |chunks[i]| < TWO_64
    ensures state == FoldAll(compress, iv, PaddedSha1(Concat(chunks)))
  {
    var ctx := new Sha1Context(compress, iv);
    for i := 0 to |chunks|
      invariant ctx.Valid() && fresh(ctx) && fresh(ctx.buffer)
      invariant ctx.message == Concat(chunks[..i])
    {
      assert chunks[..i + 1][..i] == chunks[..i];
      ctx.Update(chunks[i]);
    }
    assert chunks[..|chunks|] == chunks;
    ctx.FinalInternal();
    state := ctx.state;
  }
}
