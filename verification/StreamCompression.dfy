/**
 Segmented framing of a byte stream over an arbitrary block codec:
 compress/block/stream_compression.cc. Each frame is the raw length and the
 compressed length as 32-bit little-endian numbers, then the compressed bytes.
 */
module StreamCompression {
  import opened Options
  import opened Powers
  import opened Sequences

  const SEGMENT_SIZE: nat := 131072
  const HEADER_SIZE: nat := 8

  /** A block codec; `isNone` marks the one named "none", which is treated specially. */
  datatype Codec = Codec(isNone: bool,
                         compress: seq<byte> -> Option<seq<byte>>,
                         uncompress: seq<byte> -> Option<seq<byte>>)

  /** The codec named "none": it copies. */
  const NONE: Codec := Codec(true, x => Some(x), x => Some(x))

  datatype Error = NoError | TooSmall | HeaderFail | UncompressFail | LengthMismatch

  // ------------------------------------------------------------ frames

  function GetFixed32(b: seq<byte>): (v: nat)
    requires |b| >= 4
    ensures v < TWO_32
  {
    b[0] as int + 256 * (b[1] as int) + 65536 * (b[2] as int) + 16777216 * (b[3] as int)
  }

  lemma Fixed32RoundTrip(v: nat, rest: seq<byte>)
    ensures GetFixed32(LittleEndian32(v) + rest) == v % TWO_32
    ensures v < TWO_32 ==> GetFixed32(LittleEndian32(v) + rest) == v
  {
    var a, b, c := v / 256, v / 65536, v / 16777216;
    assert b == a / 256 && c == b / 256;
  }

  function Frame(raw: nat, compressed: seq<byte>): seq<byte> {
    LittleEndian32(raw) + LittleEndian32(|compressed|) + compressed
  }

  function Min(a: nat, b: nat): nat { if a < b then a else b }

  /** The data cut into pieces of SEGMENT_SIZE bytes, the last one possibly shorter. */
  function Segments(data: seq<byte>): (segs: seq<seq<byte>>)
    ensures Join(segs) == data
    ensures forall i :: 0 <= i < |segs| ==> 1 <= |segs[i]| <= 131072
    ensures forall i :: 0 <= i < |segs| - 1 ==> |segs[i]| == 131072
  {
    if data == [] then []
    else
      var n := Min(SEGMENT_SIZE, |data|);
      assert data == data[..n] + data[n..];
      [data[..n]] + Segments(data[n..])
  }

  function Join(parts: seq<seq<byte>>): seq<byte> {
    if parts == [] then [] else parts[0] + Join(parts[1..])
  }

  predicate AllCompress(codec: Codec, segs: seq<seq<byte>>) {
    forall i :: 0 <= i < |segs| ==> codec.compress(segs[i]).Some?
  }

  function FramesOf(codec: Codec, segs: seq<seq<byte>>): seq<byte>
    requires AllCompress(codec, segs)
  {
    if segs == [] then []
    else Frame(|segs[0]|, codec.compress(segs[0]).value) + FramesOf(codec, segs[1..])
  }

  /** What one call of `UncompressPrefix` decodes from the front of a buffer, and how much it consumes. */
  datatype Prefix = Decoded(out: seq<byte>, consumed: nat) | Stuck(err: Error)

  function UncompressPrefix(codec: Codec, b: seq<byte>): (r: Prefix)
    ensures r.Decoded? ==> HEADER_SIZE <= r.consumed <= |b|
    ensures r.Stuck? ==> r.err != NoError
  {
    if |b| < HEADER_SIZE then Stuck(TooSmall)
    else
      var uncompressedLen := GetFixed32(b);
      var rawLen := GetFixed32(b[4..]);
      if HEADER_SIZE + rawLen > |b| then Stuck(HeaderFail)
      else match codec.uncompress(b[HEADER_SIZE..HEADER_SIZE + rawLen])
        case None => Stuck(UncompressFail)
        case Some(out) =>
          if uncompressedLen != |out| then Stuck(LengthMismatch) else Decoded(out, rawLen + HEADER_SIZE)
  }

  /** Everything a call of `Uncompress` decodes from a buffer, and what it leaves. */
  function Drain(codec: Codec, b: seq<byte>): (r: (seq<seq<byte>>, seq<byte>))
    decreases |b|
  {
    match UncompressPrefix(codec, b)
    case Stuck(_) => ([], b)
    case Decoded(out, n) =>
      var (outs, rest) := Drain(codec, b[n..]);
      ([out] + outs, rest)
  }

  // ------------------------------------------------------------ the two loops

  /** The loop of `Compress`: a frame for each segment, unless the codec refuses one. */
  method CompressSegments(codec: Codec, data: seq<byte>) returns (ok: bool, frames: seq<byte>)
    ensures ok <==> AllCompress(codec, Segments(data))
    ensures ok ==> frames == FramesOf(codec, Segments(data))
  {
    frames := [];
    var pos := 0;
    EncodeBegin(codec, data);
    while pos < |data|
      invariant pos <= |data| && Encoded(codec, data, pos, frames)
    {
      var rawLen := Min(SEGMENT_SIZE, |data| - pos);
      var compressed := codec.compress(data[pos..pos + rawLen]);
      EncodeStep(codec, data, pos, rawLen, frames);
      if compressed.None? {
        return false, frames;
      }
      frames := frames + Frame(rawLen, compressed.value);
      pos := pos + rawLen;
    }
    EncodeEnd(codec, data, frames);
    ok := true;
  }

  /** The loop of `Uncompress`: segments off the front until one does not decode. */
  method UncompressSegments(codec: Codec, data: seq<byte>, err0: Error)
    returns (count: nat, segments: seq<byte>, pos: nat, err: Error)
    ensures pos <= |data| && Drain(codec, data).1 == data[pos..]
    ensures count == |Drain(codec, data).0| && segments == Join(Drain(codec, data).0)
    ensures data != [] ==> (err == NoError <==> pos == |data|)
  {
    count, segments, pos, err := 0, [], 0, err0;
    ghost var done: seq<seq<byte>> := [];
    DrainBegin(codec, data);
    while pos < |data|
      invariant pos <= |data| && count == |done|
      invariant segments == Join(done) && Drained(codec, data, pos, done)
      invariant pos > 0 ==> err == NoError
    {
      err := NoError;
      match UncompressPrefix(codec, data[pos..])
      case Stuck(e) =>
        err := e;
        break;
      case Decoded(out, consumed) =>
        DrainStep(codec, data, pos, out, consumed, done);
        JoinAppend(done, out);
        segments := segments + out;
        count := count + 1;
        done := done + [out];
        pos := pos + consumed;
    }
    DrainEnd(codec, data, pos, done);
  }

  // ------------------------------------------------------------ the class

  class StreamCompressor {
    const codec: Codec
    var buffer: seq<byte>
    var err: Error

    /** For a name under which no codec is registered, the codec "none" is used. */
    constructor (registered: Option<Codec>)
      ensures codec == (if registered.Some? then registered.value else NONE) && buffer == [] && err == NoError
    {
      codec := if registered.Some? then registered.value else NONE;
      buffer, err := [], NoError;
    }

    method AddBuffer(bytes: seq<byte>) returns (ok: bool)
      modifies this`buffer
      ensures ok
      ensures buffer == if codec.isNone then old(buffer) else old(buffer) + bytes
    {
      if codec.isNone {
        return true;
      }
      buffer := buffer + bytes;
      return true;
    }

    method Compress(output: seq<byte>) returns (ok: bool, output': seq<byte>)
      modifies this`buffer
      ensures codec.isNone ==> ok && output' == old(buffer) && buffer == []
      ensures !codec.isNone ==> (ok <==> AllCompress(codec, Segments(old(buffer))))
      ensures !codec.isNone && ok ==> output' == output + FramesOf(codec, Segments(old(buffer))) && buffer == []
      ensures !ok ==> output' == output && buffer == old(buffer)
    {
      if codec.isNone {
        output' := buffer;
        buffer := [];
        return true, output';
      }
      var frames;
      ok, frames := CompressSegments(codec, buffer);
      if !ok {
        return false, output;
      }
      buffer := [];
      return true, output + frames;
    }

    method Uncompress(output: seq<byte>) returns (ok: bool, output': seq<byte>)
      modifies this
      ensures codec.isNone ==> ok && output' == old(buffer) && buffer == []
      ensures !codec.isNone ==> (ok <==> Drain(codec, old(buffer)).0 != [])
      ensures !codec.isNone && ok ==>
                buffer == Drain(codec, old(buffer)).1 && output' == output + Join(Drain(codec, old(buffer)).0)
      ensures !ok ==> output' == output && buffer == old(buffer)
    {
      if codec.isNone {
        output' := buffer;
        buffer := [];
        return true, output';
      }
      var count, segments, pos, e := UncompressSegments(codec, buffer, err);
      err := e;
      if count == 0 {
        return false, output;
      }
      buffer := buffer[pos..];
      return true, output + segments;
    }
  }

  /** The outputs in `done` account for the first pos bytes of b. */
  ghost predicate Drained(codec: Codec, b: seq<byte>, pos: nat, done: seq<seq<byte>>)
    requires pos <= |b|
  {
    Drain(codec, b) == (done + Drain(codec, b[pos..]).0, Drain(codec, b[pos..]).1)
  }

  lemma DrainUnfolds(codec: Codec, b: seq<byte>, pos: nat, out: seq<byte>, n: nat)
    requires pos <= |b| && UncompressPrefix(codec, b[pos..]) == Decoded(out, n)
    ensures pos + n <= |b|
    ensures Drain(codec, b[pos..]) == ([out] + Drain(codec, b[pos + n..]).0, Drain(codec, b[pos + n..]).1)
  {
    assert b[pos..][n..] == b[pos + n..];
  }

  lemma DrainStep(codec: Codec, b: seq<byte>, pos: nat, out: seq<byte>, n: nat, done: seq<seq<byte>>)
    requires pos <= |b| && UncompressPrefix(codec, b[pos..]) == Decoded(out, n) && Drained(codec, b, pos, done)
    ensures pos + n <= |b| && Drained(codec, b, pos + n, done + [out])
  {
    DrainUnfolds(codec, b, pos, out, n);
    Reassociate(done, [out], Drain(codec, b[pos + n..]).0);
  }

  lemma DrainEnd(codec: Codec, b: seq<byte>, pos: nat, done: seq<seq<byte>>)
    requires pos <= |b| && (pos == |b| || UncompressPrefix(codec, b[pos..]).Stuck?) && Drained(codec, b, pos, done)
    ensures Drain(codec, b) == (done, b[pos..])
  {
    var none: seq<seq<byte>> := [];
    assert Drain(codec, b[pos..]) == (none, b[pos..]);
    assert done + none == done;
  }

  lemma DrainBegin(codec: Codec, b: seq<byte>)
    ensures Drained(codec, b, 0, [])
  {
    assert b[0..] == b;
    assert [] + Drain(codec, b).0 == Drain(codec, b).0;
  }

  lemma {:induction false} JoinAppend(parts: seq<seq<byte>>, last: seq<byte>)
    ensures Join(parts + [last]) == Join(parts) + last
  {
    if parts == [] {
      assert [last][1..] == [];
    } else {
      JoinAppend(parts[1..], last);
      assert (parts + [last])[1..] == parts[1..] + [last];
    }
  }

  /** `frames` holds the frames of the first pos bytes of data. */
  ghost predicate Encoded(codec: Codec, data: seq<byte>, pos: nat, frames: seq<byte>)
    requires pos <= |data|
  {
    && (AllCompress(codec, Segments(data)) <==> AllCompress(codec, Segments(data[pos..])))
    && (AllCompress(codec, Segments(data)) ==>
          FramesOf(codec, Segments(data)) == frames + FramesOf(codec, Segments(data[pos..])))
  }

  lemma EncodeBegin(codec: Codec, data: seq<byte>)
    ensures Encoded(codec, data, 0, [])
  {
    assert data[0..] == data;
    if AllCompress(codec, Segments(data)) {
      assert [] + FramesOf(codec, Segments(data)) == FramesOf(codec, Segments(data));
    }
  }

  lemma EncodeStep(codec: Codec, data: seq<byte>, pos: nat, n: nat, frames: seq<byte>)
    requires pos < |data| && n == Min(SEGMENT_SIZE, |data| - pos) && Encoded(codec, data, pos, frames)
    ensures var c := codec.compress(data[pos..pos + n]);
            && (c.None? ==> !AllCompress(codec, Segments(data)))
            && (c.Some? ==> Encoded(codec, data, pos + n, frames + Frame(n, c.value)))
  {
    FirstSegment(codec, data, pos, n);
    var c, after := codec.compress(data[pos..pos + n]), Segments(data[pos + n..]);
    if c.Some? && AllCompress(codec, after) {
      Reassociate(frames, Frame(n, c.value), FramesOf(codec, after));
    }
  }

  lemma EncodeEnd(codec: Codec, data: seq<byte>, frames: seq<byte>)
    requires Encoded(codec, data, |data|, frames)
    ensures AllCompress(codec, Segments(data)) && FramesOf(codec, Segments(data)) == frames
  {
    assert data[|data|..] == [];
    assert frames + [] == frames;
  }

  lemma FirstSegment(codec: Codec, data: seq<byte>, pos: nat, n: nat)
    requires pos < |data| && n == Min(SEGMENT_SIZE, |data| - pos)
    ensures var piece, after := data[pos..pos + n], Segments(data[pos + n..]);
            && Segments(data[pos..]) == [piece] + after
            && (AllCompress(codec, [piece] + after) <==> codec.compress(piece).Some? && AllCompress(codec, after))
            && (AllCompress(codec, [piece] + after) ==>
                  FramesOf(codec, [piece] + after) == Frame(n, codec.compress(piece).value) + FramesOf(codec, after))
  {
    var piece, after := data[pos..pos + n], Segments(data[pos + n..]);
    assert data[pos..][..n] == piece && data[pos..][n..] == data[pos + n..];
    AllCompressCons(codec, piece, after);
    assert ([piece] + after)[1..] == after;
  }

  lemma AllCompressCons(codec: Codec, piece: seq<byte>, after: seq<seq<byte>>)
    ensures AllCompress(codec, [piece] + after) <==> codec.compress(piece).Some? && AllCompress(codec, after)
  {
    var all := [piece] + after;
    assert all[0] == piece;
    assert forall i :: 0 <= i < |after| ==> all[i + 1] == after[i];
  }

  // ------------------------------------------------------------ the round trip

  /** The codec inverts itself on every block the framing hands it, within 32-bit lengths. */
  ghost predicate Inverts(codec: Codec) {
    forall x: seq<byte> :: |x| <= SEGMENT_SIZE && codec.compress(x).Some? ==>
      codec.uncompress(codec.compress(x).value) == Some(x) && |codec.compress(x).value| < TWO_32
  }

  ghost predicate Sendable(codec: Codec, segs: seq<seq<byte>>) {
    AllCompress(codec, segs) && forall i :: 0 <= i < |segs| ==> |segs[i]| <= SEGMENT_SIZE
  }

  lemma HeaderAndBody(h1: seq<byte>, h2: seq<byte>, c: seq<byte>, rest: seq<byte>, x: nat, y: nat)
    requires |h1| == |h2| == 4
    requires GetFixed32(h1 + (h2 + (c + rest))) == x && GetFixed32(h2 + (c + rest)) == y
    ensures var b := h1 + h2 + c + rest;
            && GetFixed32(b) == x && GetFixed32(b[4..]) == y
            && b[8..8 + |c|] == c && b[8 + |c|..] == rest
  {
    var b := h1 + h2 + c + rest;
    assert b == h1 + (h2 + (c + rest)) && b[4..] == h2 + (c + rest);
  }

  lemma FrameParts(raw: nat, c: seq<byte>, rest: seq<byte>)
    requires raw < TWO_32 && |c| < TWO_32
    ensures var b := Frame(raw, c) + rest;
            && |Frame(raw, c)| == HEADER_SIZE + |c|
            && GetFixed32(b) == raw && GetFixed32(b[4..]) == |c|
            && b[HEADER_SIZE..HEADER_SIZE + |c|] == c
            && b[HEADER_SIZE + |c|..] == rest
  {
    var h1, h2 := LittleEndian32(raw), LittleEndian32(|c|);
    var body := c + rest;
    assert GetFixed32(h1 + (h2 + body)) == raw by {
      Fixed32RoundTrip(raw, h2 + body);
    }
    assert GetFixed32(h2 + body) == |c| by {
      Fixed32RoundTrip(|c|, body);
    }
    HeaderAndBody(h1, h2, c, rest, raw, |c|);
  }

  // A buffer that starts with a whole frame yields exactly its segment.
  lemma WholeFrameDecodes(codec: Codec, seg: seq<byte>, rest: seq<byte>)
    requires Inverts(codec) && |seg| <= SEGMENT_SIZE && codec.compress(seg).Some?
    ensures var f := Frame(|seg|, codec.compress(seg).value);
            && UncompressPrefix(codec, f + rest) == Decoded(seg, |f|)
            && (f + rest)[|f|..] == rest
  {
    FrameParts(|seg|, codec.compress(seg).value, rest);
  }

  // A buffer that ends inside a frame yields nothing yet.
  lemma PartialFrameWaits(codec: Codec, seg: seq<byte>, b: seq<byte>)
    requires Inverts(codec) && |seg| <= SEGMENT_SIZE && codec.compress(seg).Some?
    requires b <= Frame(|seg|, codec.compress(seg).value) && b != Frame(|seg|, codec.compress(seg).value)
    ensures UncompressPrefix(codec, b).Stuck?
  {
    var c := codec.compress(seg).value;
    var f := Frame(|seg|, c);
    if |b| >= HEADER_SIZE {
      FrameParts(|seg|, c, []);
      assert f + [] == f;
      assert b[4..][..4] == f[4..][..4];
      assert b == f[..|b|];
    }
  }

  lemma Uncons(codec: Codec, segs: seq<seq<byte>>)
    requires Sendable(codec, segs) && segs != []
    ensures |segs[0]| <= SEGMENT_SIZE && codec.compress(segs[0]).Some? && Sendable(codec, segs[1..])
    ensures FramesOf(codec, segs) == Frame(|segs[0]|, codec.compress(segs[0]).value) + FramesOf(codec, segs[1..])
  {
  }

  /**
   Draining the front `b` of a stream of frames gives the segments whose frames are
   complete; what it leaves, followed by the part of the stream yet to come, is the
   frames of the segments that are left.
   */
  lemma {:induction false} DrainFront(codec: Codec, segs: seq<seq<byte>>, b: seq<byte>, later: seq<byte>)
    returns (left: seq<seq<byte>>)
    requires Inverts(codec) && Sendable(codec, segs) && FramesOf(codec, segs) == b + later
    ensures segs == Drain(codec, b).0 + left
    ensures Sendable(codec, left) && FramesOf(codec, left) == Drain(codec, b).1 + later
    ensures later == [] ==> left == []
    decreases |segs|
  {
    left := segs;
    if segs == [] {
      assert b == [];
    } else {
      Uncons(codec, segs);
      var f, frames := Frame(|segs[0]|, codec.compress(segs[0]).value), FramesOf(codec, segs[1..]);
      if |f| <= |b| {
        var rest := b[|f|..];
        SplitFront(f, frames, b, later);
        assert b[0..] == b;
        WholeFrameDecodes(codec, segs[0], rest);
        DrainUnfolds(codec, b, 0, segs[0], |f|);
        left := DrainFront(codec, segs[1..], rest, later);
        Recons(segs, Drain(codec, rest).0, left);
      } else {
        FrontOfFrame(f, frames, b, later);
        PartialFrameWaits(codec, segs[0], b);
        assert Drain(codec, b) == ([], b);
      }
    }
  }

  lemma Recons(segs: seq<seq<byte>>, outs: seq<seq<byte>>, left: seq<seq<byte>>)
    requires segs != [] && segs[1..] == outs + left
    ensures segs == ([segs[0]] + outs) + left
  {
    assert segs == [segs[0]] + segs[1..];
  }

  lemma FrontOfFrame(f: seq<byte>, frames: seq<byte>, b: seq<byte>, later: seq<byte>)
    requires f + frames == b + later && |b| < |f|
    ensures b <= f && b != f && later != []
  {
    assert b == (b + later)[..|b|] == (f + frames)[..|b|] == f[..|b|];
  }

  lemma SplitFront(f: seq<byte>, frames: seq<byte>, b: seq<byte>, later: seq<byte>)
    requires f + frames == b + later && |f| <= |b|
    ensures b == f + b[|f|..] && frames == b[|f|..] + later
  {
    assert b[..|f|] == (b + later)[..|f|] == (f + frames)[..|f|] == f;
    assert frames == (f + frames)[|f|..] == (b + later)[|f|..];
  }

  // ------------------------------------------------------------ any fragmentation

  /** What a receiver does: append bytes that arrived, or try to uncompress. */
  datatype Action = Feed(bytes: seq<byte>) | Take

  /** Its buffer and everything it has handed out. */
  datatype Receiver = Receiver(buffer: seq<byte>, out: seq<byte>)

  function Act(codec: Codec, r: Receiver, action: Action): Receiver {
    match action
    case Feed(bytes) => if codec.isNone then r else r.(buffer := r.buffer + bytes)
    case Take =>
      if codec.isNone then Receiver([], r.out + r.buffer)
      else Receiver(Drain(codec, r.buffer).1, r.out + Join(Drain(codec, r.buffer).0))
  }

  function Receive(codec: Codec, actions: seq<Action>): Receiver {
    if actions == [] then Receiver([], [])
    else Act(codec, Receive(codec, actions[..|actions| - 1]), actions[|actions| - 1])
  }

  method TakeOne(c: StreamCompressor) returns (more: seq<byte>)
    modifies c
    ensures forall out: seq<byte> ::
              Receiver(c.buffer, out + more) == Act(c.codec, Receiver(old(c.buffer), out), Take)
  {
    NothingDrained(c.codec, c.buffer);
    ghost var outs := Join(Drain(c.codec, c.buffer).0);
    assert [] + outs == outs;
    var ok;
    ok, more := c.Uncompress([]);
    assert more == if c.codec.isNone then old(c.buffer) else outs;
  }

  /** One object driven through the actions, with a fresh output for each Uncompress. */
  method RunReceiver(codec: Codec, actions: seq<Action>) returns (c: StreamCompressor, out: seq<byte>)
    ensures fresh(c) && c.codec == codec && Receiver(c.buffer, out) == Receive(codec, actions)
  {
    c := new StreamCompressor(Some(codec));
    out := [];
    for i := 0 to |actions|
      invariant c.codec == codec && Receiver(c.buffer, out) == Receive(codec, actions[..i])
    {
      assert actions[..i + 1][..i] == actions[..i];
      match actions[i]
      case Feed(bytes) =>
        var _ := c.AddBuffer(bytes);
      case Take =>
        var more := TakeOne(c);
        out := out + more;
    }
    assert actions[..|actions|] == actions;
  }

  lemma NothingDrained(codec: Codec, b: seq<byte>)
    ensures Drain(codec, b).0 == [] ==> Drain(codec, b).1 == b
  {
  }

  function Fed(actions: seq<Action>): seq<byte> {
    if actions == [] then []
    else
      var last := actions[|actions| - 1];
      Fed(actions[..|actions| - 1]) + if last.Feed? then last.bytes else []
  }

  lemma {:induction false} JoinConcat(a: seq<seq<byte>>, b: seq<seq<byte>>)
    ensures Join(a + b) == Join(a) + Join(b)
  {
    if a == [] {
      assert a + b == b;
    } else {
      JoinConcat(a[1..], b);
      assert (a + b)[1..] == a[1..] + b;
      Reassociate(a[0], Join(a[1..]), Join(b));
    }
  }

  /** n segments are out and the frames of the others are in the buffer or still to come. */
  ghost predicate Between(codec: Codec, r: Receiver, outs: seq<seq<byte>>, left: seq<seq<byte>>, later: seq<byte>) {
    r.out == Join(outs) && Sendable(codec, left) && FramesOf(codec, left) == r.buffer + later
  }

  lemma TakeStep(codec: Codec, r: Receiver, outs: seq<seq<byte>>, left: seq<seq<byte>>, later: seq<byte>)
    returns (outs': seq<seq<byte>>, left': seq<seq<byte>>)
    requires Inverts(codec) && Between(codec, r, outs, left, later)
    ensures outs' + left' == outs + left && (later == [] ==> left' == [])
    ensures Between(codec, Receiver(Drain(codec, r.buffer).1, r.out + Join(Drain(codec, r.buffer).0)), outs', left', later)
  {
    left' := DrainFront(codec, left, r.buffer, later);
    var gained := Drain(codec, r.buffer).0;
    outs' := outs + gained;
    JoinConcat(outs, gained);
    Reassociate(outs, gained, left');
  }

  // The codec "none" drops everything that arrives.
  lemma {:induction false} NoneReceivesNothing(codec: Codec, actions: seq<Action>)
    requires codec.isNone
    ensures Receive(codec, actions) == Receiver([], [])
  {
    if actions == [] {
    } else {
      NoneReceivesNothing(codec, actions[..|actions| - 1]);
    }
  }

  // After any interleaving of arrivals and attempts the segments are split into those out and those to come.
  lemma {:induction false} ReceiverState(codec: Codec, segs: seq<seq<byte>>, actions: seq<Action>, later: seq<byte>)
    returns (outs: seq<seq<byte>>, left: seq<seq<byte>>)
    requires Inverts(codec) && Sendable(codec, segs) && FramesOf(codec, segs) == Fed(actions) + later
    ensures codec.isNone ==> Receive(codec, actions) == Receiver([], [])
    ensures !codec.isNone ==> outs + left == segs && Between(codec, Receive(codec, actions), outs, left, later)
    ensures !codec.isNone && later == [] && actions != [] && actions[|actions| - 1].Take? ==> left == []
  {
    if codec.isNone {
      NoneReceivesNothing(codec, actions);
      outs, left := [], [];
    } else if actions == [] {
      outs, left := [], segs;
    } else {
      var before, last := actions[..|actions| - 1], actions[|actions| - 1];
      match last
      case Feed(bytes) =>
        Reassociate(Fed(before), bytes, later);
        outs, left := ReceiverState(codec, segs, before, bytes + later);
        Reassociate(Receive(codec, before).buffer, bytes, later);
      case Take =>
        assert Fed(actions) == Fed(before);
        outs, left := ReceiverState(codec, segs, before, later);
        outs, left := TakeStep(codec, Receive(codec, before), outs, left, later);
    }
  }

  /**
   However the stream is cut and whenever the receiver tries to uncompress, what it
   has handed out is a prefix of the data. Once everything has arrived and been
   taken, the buffer is empty; and it is all the data exactly if the codec is not the
   one named "none" or there is no data.
   */
  lemma AnyFragmentationDecodes(codec: Codec, segs: seq<seq<byte>>, actions: seq<Action>)
    requires Inverts(codec) && Sendable(codec, segs) && Fed(actions) <= FramesOf(codec, segs)
    ensures Receive(codec, actions).out <= Join(segs)
    ensures Fed(actions) == FramesOf(codec, segs) && actions != [] && actions[|actions| - 1].Take? ==>
              && Receive(codec, actions).buffer == []
              && (Receive(codec, actions).out == Join(segs) <==> !codec.isNone || Join(segs) == [])
  {
    var later := Rest(Fed(actions), FramesOf(codec, segs));
    var outs, left := ReceiverState(codec, segs, actions, later);
    if !codec.isNone {
      JoinConcat(outs, left);
      IsPrefix(Join(outs), Join(left));
      if left == [] {
        assert outs + left == outs;
        IsPrefix(Receive(codec, actions).buffer, later);
      }
    }
  }

  lemma Rest(a: seq<byte>, b: seq<byte>) returns (c: seq<byte>)
    requires a <= b
    ensures b == a + c && (a == b ==> c == [])
  {
    c := b[|a|..];
  }

  lemma IsPrefix(a: seq<byte>, b: seq<byte>)
    ensures a <= a + b && (a + b == [] ==> a == [])
  {
  }

  // ------------------------------------------------------------ arbitrary bytes

  // A frame as it lies in the buffer: two lengths, each low-order byte first, and the compressed bytes.
  lemma FrameLayout(raw: nat, c: seq<byte>)
    requires raw < TWO_32 && |c| < TWO_32
    ensures var f := Frame(raw, c);
            && |f| == HEADER_SIZE + |c| && f[HEADER_SIZE..] == c
            && LittleEndianValue(f[..4]) == raw && LittleEndianValue(f[4..8]) == |c|
  {
    var f := Frame(raw, c);
    assert f[..4] == LittleEndian32(raw) && f[4..8] == LittleEndian32(|c|);
    LittleEndian32Value(raw);
    LittleEndian32Value(|c|);
  }

  lemma FixedIsLittleEndian(b: seq<byte>)
    requires |b| >= 4
    ensures GetFixed32(b) == LittleEndianValue(b[..4])
  {
    FourLittleEndian(b[..4]);
  }

  /** A whole frame that the codec refuses, or whose block has another length than the frame says. */
  ghost predicate Refused(codec: Codec, f: seq<byte>) {
    && |f| >= HEADER_SIZE && |f| == HEADER_SIZE + LittleEndianValue(f[4..8])
    && var block := codec.uncompress(f[HEADER_SIZE..]);
       block.None? || |block.value| != LittleEndianValue(f[..4])
  }

  lemma RefusedIsStuck(codec: Codec, f: seq<byte>, rest: seq<byte>)
    requires Refused(codec, f)
    ensures UncompressPrefix(codec, f + rest).Stuck?
  {
    var b := f + rest;
    assert b[..4] == f[..4] && b[4..][..4] == f[4..8] && b[HEADER_SIZE..|f|] == f[HEADER_SIZE..];
    FixedIsLittleEndian(b);
    FixedIsLittleEndian(b[4..]);
  }

  // Why a buffer yields nothing: it is shorter than a header, ends inside the frame, or starts with a refused one.
  lemma StuckBecause(codec: Codec, b: seq<byte>)
    ensures var r := UncompressPrefix(codec, b);
            && (r == Stuck(TooSmall) <==> |b| < 8)
            && (r == Stuck(HeaderFail) <==> |b| >= 8 && |b| < 8 + LittleEndianValue(b[4..8]))
            && (|b| >= 8 && |b| >= 8 + LittleEndianValue(b[4..8]) ==>
                  var f := b[..8 + LittleEndianValue(b[4..8])];
                  && (r == Stuck(UncompressFail) <==> codec.uncompress(f[8..]).None?)
                  && (r.Stuck? <==> Refused(codec, f))
                  && (r.Decoded? ==> r == Decoded(codec.uncompress(f[8..]).value, |f|)))
  {
    if |b| >= 8 {
      FixedIsLittleEndian(b);
      FixedIsLittleEndian(b[4..]);
      assert b[4..][..4] == b[4..8];
      var n := LittleEndianValue(b[4..8]);
      if |b| >= 8 + n {
        var f := b[..8 + n];
        assert f[..4] == b[..4] && f[4..8] == b[4..8] && f[8..] == b[8..8 + n];
      }
    }
  }

  // What has been decoded stays decoded when more bytes arrive.
  lemma PrefixStays(codec: Codec, b: seq<byte>, more: seq<byte>)
    requires UncompressPrefix(codec, b).Decoded?
    ensures UncompressPrefix(codec, b + more) == UncompressPrefix(codec, b)
  {
    var n := UncompressPrefix(codec, b).consumed;
    assert (b + more)[4..][..4] == b[4..][..4] && (b + more)[HEADER_SIZE..n] == b[HEADER_SIZE..n];
  }

  // Draining what has arrived and then what is left with the rest is draining everything at once.
  lemma {:induction false} DrainTwice(codec: Codec, b: seq<byte>, more: seq<byte>)
    ensures var (outs, left) := Drain(codec, b);
            Drain(codec, b + more) == (outs + Drain(codec, left + more).0, Drain(codec, left + more).1)
    decreases |b|
  {
    match UncompressPrefix(codec, b)
    case Stuck(_) =>
      assert [] + Drain(codec, b + more).0 == Drain(codec, b + more).0;
    case Decoded(out, n) =>
      PrefixStays(codec, b, more);
      assert (b + more)[n..] == b[n..] + more;
      DrainTwice(codec, b[n..], more);
      var (outs, left) := Drain(codec, b[n..]);
      Reassociate([out], outs, Drain(codec, left + more).0);
  }

  lemma DrainedIsStuck(codec: Codec, b: seq<byte>)
    ensures Drain(codec, Drain(codec, b).1) == ([], Drain(codec, b).1)
    decreases |b|
  {
  }

  /** What is out and what is left, drained once more, is what draining all the bytes at once gives. */
  ghost predicate LikeOneDrain(codec: Codec, r: Receiver, bytes: seq<byte>) {
    && Drain(codec, bytes).1 == Drain(codec, r.buffer).1
    && Join(Drain(codec, bytes).0) == r.out + Join(Drain(codec, r.buffer).0)
  }

  lemma FeedLikeOneDrain(codec: Codec, r: Receiver, bytes: seq<byte>, more: seq<byte>)
    requires LikeOneDrain(codec, r, bytes)
    ensures LikeOneDrain(codec, r.(buffer := r.buffer + more), bytes + more)
  {
    DrainTwice(codec, bytes, more);
    DrainTwice(codec, r.buffer, more);
    var left := Drain(codec, r.buffer).1;
    var gained := Drain(codec, left + more).0;
    JoinConcat(Drain(codec, bytes).0, gained);
    JoinConcat(Drain(codec, r.buffer).0, gained);
    Reassociate(r.out, Join(Drain(codec, r.buffer).0), Join(gained));
  }

  lemma TakeLikeOneDrain(codec: Codec, r: Receiver, bytes: seq<byte>)
    requires LikeOneDrain(codec, r, bytes) && !codec.isNone
    ensures LikeOneDrain(codec, Act(codec, r, Take), bytes)
  {
    DrainedIsStuck(codec, r.buffer);
    var out := Act(codec, r, Take).out;
    assert out + [] == out;
  }

  lemma {:induction false} AlwaysLikeOneDrain(codec: Codec, actions: seq<Action>)
    requires !codec.isNone
    ensures LikeOneDrain(codec, Receive(codec, actions), Fed(actions))
  {
    if actions == [] {
    } else {
      var before, last := actions[..|actions| - 1], actions[|actions| - 1];
      AlwaysLikeOneDrain(codec, before);
      match last
      case Feed(bytes) => FeedLikeOneDrain(codec, Receive(codec, before), Fed(before), bytes);
      case Take =>
        TakeLikeOneDrain(codec, Receive(codec, before), Fed(before));
        assert Fed(actions) == Fed(before);
    }
  }

  /**
   For every codec and whatever bytes arrive, in whatever pieces and with whatever
   attempts in between: a receiver that has just tried is where one drain of all the
   bytes would have left it.
   */
  lemma FragmentationDoesNotMatter(codec: Codec, actions: seq<Action>)
    requires !codec.isNone && actions != [] && actions[|actions| - 1].Take?
    ensures Receive(codec, actions) == Receiver(Drain(codec, Fed(actions)).1, Join(Drain(codec, Fed(actions)).0))
  {
    var before := actions[..|actions| - 1];
    AlwaysLikeOneDrain(codec, before);
    assert Fed(actions) == Fed(before);
  }

  // A refused frame is never consumed, nor is anything behind it: both stay in the buffer for good.
  lemma RefusedFrameBlocks(codec: Codec, actions: seq<Action>, front: seq<byte>, f: seq<byte>, rest: seq<byte>)
    requires !codec.isNone && actions != [] && actions[|actions| - 1].Take?
    requires Fed(actions) == front + (f + rest) && Refused(codec, f) && Drain(codec, front).1 == []
    ensures Receive(codec, actions) == Receiver(f + rest, Join(Drain(codec, front).0))
  {
    FragmentationDoesNotMatter(codec, actions);
    DrainTwice(codec, front, f + rest);
    assert [] + (f + rest) == f + rest;
    RefusedIsStuck(codec, f, rest);
    assert Drain(codec, front).0 + [] == Drain(codec, front).0;
  }

  // ------------------------------------------------------------ any number of Compress calls

  function AllSegments(datas: seq<seq<byte>>): seq<seq<byte>> {
    if datas == [] then [] else Segments(datas[0]) + AllSegments(datas[1..])
  }

  /** What one round of AddBuffer and Compress emits, if the codec takes every segment. */
  function Sent(codec: Codec, data: seq<byte>): Option<seq<byte>> {
    if codec.isNone then Some([])
    else if AllCompress(codec, Segments(data)) then Some(FramesOf(codec, Segments(data)))
    else None
  }

  function Stream(codec: Codec, datas: seq<seq<byte>>): Option<seq<byte>> {
    if datas == [] then Some([])
    else
      var first, rest := Sent(codec, datas[0]), Stream(codec, datas[1..]);
      if first.None? || rest.None? then None else Some(first.value + rest.value)
  }

  method SendOne(c: StreamCompressor, data: seq<byte>) returns (ok: bool, out: seq<byte>)
    requires c.buffer == []
    modifies c
    ensures ok <==> Sent(c.codec, data).Some?
    ensures ok ==> Sent(c.codec, data) == Some(out) && c.buffer == []
  {
    assert [] + data == data;
    var _ := c.AddBuffer(data);
    ok, out := c.Compress([]);
    assert ok && !c.codec.isNone ==> [] + FramesOf(c.codec, Segments(data)) == FramesOf(c.codec, Segments(data));
  }

  /** One object that compresses the data piece by piece, with a fresh output for each Compress. */
  method RunSender(codec: Codec, datas: seq<seq<byte>>) returns (ok: bool, out: seq<byte>)
    ensures ok <==> Stream(codec, datas).Some?
    ensures ok ==> Stream(codec, datas) == Some(out)
  {
    var c := new StreamCompressor(Some(codec));
    out := [];
    var i := 0;
    AfterNothing(codec, datas);
    while i < |datas|
      invariant i <= |datas| && c.codec == codec && c.buffer == []
      invariant Stream(codec, datas) == After(out, Stream(codec, datas[i..]))
    {
      StreamUnfolds(codec, datas, i);
      var done, more := SendOne(c, datas[i]);
      if !done {
        return false, out;
      }
      AfterTwice(out, more, Stream(codec, datas[i + 1..]));
      out := out + more;
      i := i + 1;
    }
    assert out + [] == out;
    ok := true;
  }

  lemma AfterNothing(codec: Codec, datas: seq<seq<byte>>)
    ensures Stream(codec, datas) == After([], Stream(codec, datas[0..]))
  {
    assert datas[0..] == datas;
    assert Stream(codec, datas).Some? ==> [] + Stream(codec, datas).value == Stream(codec, datas).value;
  }

  function After(out: seq<byte>, rest: Option<seq<byte>>): Option<seq<byte>> {
    if rest.None? then None else Some(out + rest.value)
  }

  lemma AfterTwice(a: seq<byte>, b: seq<byte>, rest: Option<seq<byte>>)
    ensures After(a, After(b, rest)) == After(a + b, rest)
  {
    if rest.Some? {
      Reassociate(a, b, rest.value);
    }
  }

  lemma StreamUnfolds(codec: Codec, datas: seq<seq<byte>>, i: nat)
    requires i < |datas|
    ensures Stream(codec, datas[i..]) ==
            if Sent(codec, datas[i]).None? then None
            else After(Sent(codec, datas[i]).value, Stream(codec, datas[i + 1..]))
  {
    assert datas[i..][0] == datas[i] && datas[i..][1..] == datas[i + 1..];
  }

  lemma {:induction false} StreamIsFrames(codec: Codec, datas: seq<seq<byte>>)
    requires Stream(codec, datas).Some?
    ensures Join(AllSegments(datas)) == Join(datas)
    ensures codec.isNone ==> Stream(codec, datas).value == []
    ensures !codec.isNone ==>
              && Sendable(codec, AllSegments(datas))
              && Stream(codec, datas).value == FramesOf(codec, AllSegments(datas))
  {
    if datas == [] {
    } else {
      StreamIsFrames(codec, datas[1..]);
      var a, b := Segments(datas[0]), AllSegments(datas[1..]);
      JoinConcat(a, b);
      if !codec.isNone {
        FramesConcat(codec, a, b);
      }
    }
  }

  lemma {:induction false} FramesConcat(codec: Codec, a: seq<seq<byte>>, b: seq<seq<byte>>)
    requires AllCompress(codec, a) && AllCompress(codec, b)
    ensures AllCompress(codec, a + b)
    ensures FramesOf(codec, a + b) == FramesOf(codec, a) + FramesOf(codec, b)
  {
    if a == [] {
      assert a + b == b;
    } else {
      FramesConcat(codec, a[1..], b);
      assert (a + b)[1..] == a[1..] + b;
      Reassociate(Frame(|a[0]|, codec.compress(a[0]).value), FramesOf(codec, a[1..]), FramesOf(codec, b));
    }
  }

  // A sender that compresses its data in any number of calls is understood by a receiver
  // that gets the bytes in any pieces, exactly if the codec is not "none" or there is no data.
  lemma StreamRoundTrip(codec: Codec, datas: seq<seq<byte>>, actions: seq<Action>)
    requires Inverts(codec) && Stream(codec, datas).Some? && Fed(actions) <= Stream(codec, datas).value
    ensures Receive(codec, actions).out <= Join(datas)
    ensures Fed(actions) == Stream(codec, datas).value && actions != [] && actions[|actions| - 1].Take? ==>
              && Receive(codec, actions).buffer == []
              && (Receive(codec, actions).out == Join(datas) <==> !codec.isNone || Join(datas) == [])
  {
    StreamIsFrames(codec, datas);
    if codec.isNone {
      NoneReceivesNothing(codec, actions);
    } else {
      AnyFragmentationDecodes(codec, AllSegments(datas), actions);
    }
  }

  // With a name nobody registered, one byte is sent as nothing and never comes out.
  lemma NoneLosesAByte()
    ensures Inverts(NONE) && Stream(NONE, [[7]]) == Some([])
    ensures Receive(NONE, [Feed([]), Take]).out == [] != Join([[7]])
  {
    NoneReceivesNothing(NONE, [Feed([]), Take]);
    StreamIsFrames(NONE, [[7]]);
    assert Join([[7]]) == [7] + Join([]);
  }
}
