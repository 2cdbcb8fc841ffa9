/**
 The Bloom filter of container/bloom_filter.h and container/bloom_filter.cpp, with
 its bitmap of bytes and its use of UInt32Divisor for the remainder. The hash is any
 function: the digest of a key, and the digest of the last digest under a seed.
 */
module BloomFilter {
  import opened Powers
  import opened Words
  import opened UInt32Division

  type Key = seq<byte>
  type Digest = d: seq<u32> | |d| == 4 witness [0, 0, 0, 0]
  datatype Hasher = Hasher(first: Key -> Digest, again: (Digest, u32) -> Digest)

  // ------------------------------------------------------------ probes

  /** The g-th group of four hash values of a key. */
  function DigestAt(h: Hasher, key: Key, g: nat): Digest {
    if g == 0 then h.first(key) else h.again(DigestAt(h, key, g - 1), 4 * g % TWO_32)
  }

  /** The bit the i-th hash function of a filter of `bits` bits chooses for a key. */
  function Probe(h: Hasher, bits: nat, key: Key, i: nat): (k: nat)
    requires bits > 0
    ensures k < bits
  {
    DivMod(DigestAt(h, key, i / 4)[i % 4], bits);
    DigestAt(h, key, i / 4)[i % 4] % bits
  }

  /** The bits chosen by the first n hash functions. */
  function Probes(h: Hasher, bits: nat, key: Key, n: nat): (s: set<nat>)
    requires bits > 0
  {
    if n == 0 then {} else Probes(h, bits, key, n - 1) + {Probe(h, bits, key, n - 1)}
  }

  /** The digest the hash function before the i-th one read, if there is one. */
  ghost predicate LastDigest(h: Hasher, key: Key, i: nat, digest: Digest) {
    i > 0 ==> digest == DigestAt(h, key, (i - 1) / 4)
  }

  /** The digest the i-th hash function reads, given the one before it read. */
  function NextDigest(h: Hasher, key: Key, i: nat, digest: Digest): Digest {
    if i % 4 != 0 then digest
    else if i != 0 then h.again(digest, i % TWO_32)
    else h.first(key)
  }

  lemma NextDigestWithin(h: Hasher, key: Key, i: nat, g: nat, r: nat, digest: Digest)
    requires i == 4 * g + r && r < 4 && i % 4 == r
    requires i > 0 ==> digest == DigestAt(h, key, if r == 0 then g - 1 else g)
    ensures NextDigest(h, key, i, digest) == DigestAt(h, key, g)
  {
  }

  lemma NextDigestAt(h: Hasher, key: Key, i: nat, digest: Digest)
    requires LastDigest(h, key, i, digest)
    ensures NextDigest(h, key, i, digest) == DigestAt(h, key, i / 4)
    ensures LastDigest(h, key, i + 1, NextDigest(h, key, i, digest))
  {
    var g, r := i / 4, i % 4;
    assert i > 0 ==> (i - 1) / 4 == if r == 0 then g - 1 else g;
    NextDigestWithin(h, key, i, g, r, digest);
    assert (i + 1 - 1) / 4 == g;
  }

  // ------------------------------------------------------------ bits of the bitmap

  predicate BitOf(bytes: seq<byte>, k: nat)
    requires k < 8 * |bytes|
  {
    Bit(bytes[k / 8], k % 8)
  }

  /** Setting bit k changes no other bit. */
  ghost predicate BitAdded(was: seq<byte>, now: seq<byte>, k: nat) {
    |now| == |was| && forall j: nat :: j < 8 * |was| ==> (BitOf(now, j) <==> BitOf(was, j) || j == k)
  }

  /** The positions below n of the bits that are set. */
  ghost function SetBits(bytes: seq<byte>, n: nat): set<nat>
    requires n <= 8 * |bytes|
  {
    if n == 0 then {} else SetBits(bytes, n - 1) + if BitOf(bytes, n - 1) then {n - 1} else {}
  }

  lemma {:induction false} SetBitsMember(bytes: seq<byte>, n: nat, k: nat)
    requires n <= 8 * |bytes|
    ensures k in SetBits(bytes, n) <==> k < n && BitOf(bytes, k)
  {
    if n == 0 {
    } else {
      SetBitsMember(bytes, n - 1, k);
    }
  }

  lemma SetBitsAdded(was: seq<byte>, now: seq<byte>, n: nat, k: nat)
    requires BitAdded(was, now, k) && k < n <= 8 * |was|
    ensures SetBits(now, n) == SetBits(was, n) + {k}
  {
    forall j: nat ensures j in SetBits(now, n) <==> j in SetBits(was, n) || j == k {
      SetBitsMember(now, n, j);
      SetBitsMember(was, n, j);
    }
  }

  lemma OrMask(b: byte, i: nat, j: nat)
    requires i < 8 && j < 8
    ensures Bit(Or(b, Shl(1, i)) % 256, j) == (Bit(b, j) || i == j)
  {
    OrBit(b, Shl(1, i), j);
    MaskBit(i, j);
    Pow2Byte();
    ModBit(Or(b, Shl(1, i)), 8, j);
  }

  method SetBit(bitmap: array<byte>, k: nat, ghost n: nat)
    requires k < n <= 8 * bitmap.Length
    modifies bitmap
    ensures SetBits(bitmap[..], n) == old(SetBits(bitmap[..], n)) + {k}
  {
    ghost var was := bitmap[..];
    bitmap[k / 8] := Or(bitmap[k / 8], Shl(1, k % 8)) % 256;
    forall j: nat | j < 8 * |was| ensures BitOf(bitmap[..], j) <==> BitOf(was, j) || j == k {
      if j / 8 == k / 8 {
        OrMask(was[k / 8], k % 8, j % 8);
      }
    }
    SetBitsAdded(was, bitmap[..], n, k);
  }

  method TestBit(bitmap: array<byte>, k: nat, ghost n: nat) returns (r: bool)
    requires k < n <= 8 * bitmap.Length
    ensures r <==> k in SetBits(bitmap[..], n)
  {
    SetBitsMember(bitmap[..], n, k);
    OneBitTest(bitmap[k / 8], k % 8);
    r := And(bitmap[k / 8], Shl(1, k % 8)) != 0;
  }

  method TestAndSetBit(bitmap: array<byte>, k: nat, ghost n: nat) returns (r: bool)
    requires k < n <= 8 * bitmap.Length
    modifies bitmap
    ensures r <==> k in old(SetBits(bitmap[..], n))
    ensures SetBits(bitmap[..], n) == old(SetBits(bitmap[..], n)) + {k}
  {
    r := TestBit(bitmap, k, n);
    SetBit(bitmap, k, n);
  }

  lemma NoBitsSet(bytes: seq<byte>, n: nat)
    requires n <= 8 * |bytes| && forall k: nat :: k < n ==> bytes[k / 8] == 0
    ensures SetBits(bytes, n) == {}
  {
    forall k: nat ensures k !in SetBits(bytes, n) {
      SetBitsMember(bytes, n, k);
      ZeroBit(k % 8);
    }
  }

  ghost predicate ProbeOfSome(h: Hasher, bits: nat, n: nat, keys: set<Key>, k: nat)
    requires bits > 0
  {
    exists key :: key in keys && k in Probes(h, bits, key, n)
  }

  /** The bits found are exactly the probes of the keys. */
  ghost predicate IsUnion(h: Hasher, bits: nat, n: nat, keys: set<Key>, found: set<nat>)
    requires bits > 0
  {
    && (forall key :: key in keys ==> Probes(h, bits, key, n) <= found)
    && (forall k {:trigger ProbeOfSome(h, bits, n, keys, k)} :: k in found ==> ProbeOfSome(h, bits, n, keys, k))
  }

  lemma UnionGrows(h: Hasher, bits: nat, n: nat, keys: set<Key>, found: set<nat>, key: Key)
    requires bits > 0 && IsUnion(h, bits, n, keys, found)
    ensures IsUnion(h, bits, n, keys + {key}, found + Probes(h, bits, key, n))
  {
    var more, all := keys + {key}, found + Probes(h, bits, key, n);
    forall k | k in all ensures ProbeOfSome(h, bits, n, more, k) {
      if k in found {
        assert ProbeOfSome(h, bits, n, keys, k);
        var x :| x in keys && k in Probes(h, bits, x, n);
        assert x in more;
      } else {
        assert key in more;
      }
    }
    forall x | x in more ensures Probes(h, bits, x, n) <= all {
      if x != key {
        assert x in keys;
      }
    }
  }

  /** One more, in 32 bits. */
  function Increment(x: u32): u32 {
    if x + 1 < TWO_32 then x + 1 else 0
  }

  /** How many of the first i probes, set one after the other, find their bit set already. */
  ghost function Found(h: Hasher, bits: nat, key: Key, i: nat, was: set<nat>): u32
    requires bits > 0
  {
    if i == 0 then 0
    else
      var found := Found(h, bits, key, i - 1, was);
      if Probe(h, bits, key, i - 1) in was + Probes(h, bits, key, i - 1) then Increment(found) else found
  }

  lemma FoundStep(h: Hasher, bits: nat, key: Key, i: nat, was: set<nat>, now: set<nat>, k: nat)
    requires bits > 0 && now == was + Probes(h, bits, key, i) && k == Probe(h, bits, key, i)
    ensures now + {k} == was + Probes(h, bits, key, i + 1)
    ensures Found(h, bits, key, i + 1, was) ==
            var found := Found(h, bits, key, i, was); if k in now then Increment(found) else found
  {
  }

  ghost predicate Counted(was: set<nat>, probes: set<nat>, i: nat, found: nat) {
    found <= i && (found == i <==> probes <= was)
  }

  // A probe that repeats an earlier one is found set, and that does not spoil the count.
  lemma CountedStep(was: set<nat>, probes: set<nat>, k: nat, i: u32, found: u32)
    requires Counted(was, probes, i, found) && i + 1 < TWO_32
    ensures Counted(was, probes + {k}, i + 1, if k in was + probes then Increment(found) else found)
  {
    if found == i {
      assert was + probes == was;
    } else {
      var x :| x in probes && x !in was;
      assert x in probes + {k};
    }
  }

  // All probes are found set exactly when they were all set before.
  lemma {:induction false} AllFound(h: Hasher, bits: nat, key: Key, i: u32, was: set<nat>)
    requires bits > 0
    ensures Counted(was, Probes(h, bits, key, i), i, Found(h, bits, key, i, was))
  {
    if i == 0 {
    } else {
      AllFound(h, bits, key, i - 1, was);
      CountedStep(was, Probes(h, bits, key, i - 1), Probe(h, bits, key, i - 1), i - 1, Found(h, bits, key, i - 1, was));
    }
  }

  // ------------------------------------------------------------ the filter

  datatype InitResult = Ready | TooLarge | OutOfMemory | ZeroBits

  class BloomFilter {
    const hash: Hasher
    const divisor: UInt32Divisor
    var numHashes: u64
    var numBits: u64
    var bitmap: array?<byte>
    ghost var inserted: set<Key>

    ghost predicate Usable()
      reads this, divisor, bitmap
    {
      && bitmap != null && divisor.Valid() && divisor.algorithm != Invalid
      && divisor.divisor == numBits && 0 < numBits <= 8 * bitmap.Length
    }

    /** The bits of an initialised filter are the probes of the keys inserted since the last Clear. */
    ghost predicate Valid()
      reads this, divisor, bitmap
    {
      && divisor.Valid()
      && (bitmap != null ==> Usable() && IsUnion(hash, numBits, numHashes, inserted, SetBits(bitmap[..], numBits)))
    }

    ghost predicate Contains(key: Key)
      reads this, bitmap
      requires bitmap != null && 0 < numBits <= 8 * bitmap.Length
    {
      Probes(hash, numBits, key, numHashes) <= SetBits(bitmap[..], numBits)
    }

    constructor (h: Hasher)
      ensures Valid() && hash == h && bitmap == null && fresh(divisor)
    {
      hash := h;
      divisor := new UInt32Divisor();
      numHashes, numBits, bitmap, inserted := 0, 0, null, {};
    }

    method Initialize(byteSize: u64, hashes: u64, room: bool) returns (r: InitResult)
      requires Valid()
      modifies this, divisor
      ensures Valid()
      ensures var bits := byteSize * 8 % TWO_64;
              r == if bits >= 0xFFFF_FFFF then TooLarge else if !room then OutOfMemory else if bits == 0 then ZeroBits else Ready
      ensures r == Ready ==> bitmap != null && fresh(bitmap) && numHashes == hashes && inserted == {}
      ensures r == Ready ==> numBits == byteSize * 8 % TWO_64
      ensures r != Ready ==> bitmap == null
    {
      numHashes, numBits, bitmap, inserted := 0, 0, null, {};
      var bits := byteSize * 8 % TWO_64;
      if bits >= 0xFFFF_FFFF {
        return TooLarge;
      }
      if !room {
        return OutOfMemory;
      }
      var zeros := new byte[byteSize](_ => 0);
      var ok := divisor.SetValue(bits);
      if !ok {
        return ZeroBits;
      }
      numHashes, numBits, bitmap := hashes, bits, zeros;
      NoBitsSet(bitmap[..], numBits);
      r := Ready;
    }

    method Clear()
      requires Valid() && bitmap != null
      modifies this`inserted, bitmap
      ensures Valid() && inserted == {}
    {
      var size := (numBits + 7) / 8;
      for i := 0 to size
        invariant forall j :: 0 <= j < i ==> bitmap[j] == 0
      {
        bitmap[i] := 0;
      }
      inserted := {};
      NoBitsSet(bitmap[..], numBits);
    }

    method NextProbe(key: Key, i: nat, digest: Digest) returns (next: Digest, index: nat)
      requires Usable() && LastDigest(hash, key, i, digest)
      ensures LastDigest(hash, key, i + 1, next) && index == Probe(hash, numBits, key, i)
    {
      NextDigestAt(hash, key, i, digest);
      next := NextDigest(hash, key, i, digest);
      index := divisor.Modulu(next[i % 4]);
    }

    method SetProbes(key: Key)
      requires Usable()
      modifies bitmap
      ensures SetBits(bitmap[..], numBits) == old(SetBits(bitmap[..], numBits)) + Probes(hash, numBits, key, numHashes)
    {
      ghost var was := SetBits(bitmap[..], numBits);
      var digest: Digest := [0, 0, 0, 0];
      var i: nat := 0;
      while i < numHashes
        invariant i <= numHashes && LastDigest(hash, key, i, digest)
        invariant SetBits(bitmap[..], numBits) == was + Probes(hash, numBits, key, i)
      {
        var index;
        digest, index := NextProbe(key, i, digest);
        SetBit(bitmap, index, numBits);
        i := i + 1;
      }
    }

    method Insert(key: Key)
      requires Valid() && bitmap != null
      modifies this`inserted, bitmap
      ensures Valid() && inserted == old(inserted) + {key} && Contains(key)
      ensures SetBits(bitmap[..], numBits) == old(SetBits(bitmap[..], numBits)) + Probes(hash, numBits, key, numHashes)
    {
      UnionGrows(hash, numBits, numHashes, inserted, SetBits(bitmap[..], numBits), key);
      SetProbes(key);
      inserted := inserted + {key};
    }

    /** Sets the probes of a key and counts, in 32 bits, those that were set when their turn came. */
    method TestAndSetProbes(key: Key) returns (existCount: u32)
      requires Usable()
      modifies bitmap
      ensures SetBits(bitmap[..], numBits) == old(SetBits(bitmap[..], numBits)) + Probes(hash, numBits, key, numHashes)
      ensures existCount == Found(hash, numBits, key, numHashes, old(SetBits(bitmap[..], numBits)))
    {
      ghost var was := SetBits(bitmap[..], numBits);
      existCount := 0;
      var digest: Digest := [0, 0, 0, 0];
      var i: nat := 0;
      while i < numHashes
        invariant i <= numHashes && LastDigest(hash, key, i, digest)
        invariant SetBits(bitmap[..], numBits) == was + Probes(hash, numBits, key, i)
        invariant existCount == Found(hash, numBits, key, i, was)
      {
        var index;
        digest, index := NextProbe(key, i, digest);
        FoundStep(hash, numBits, key, i, was, SetBits(bitmap[..], numBits), index);
        var exists' := TestAndSetBit(bitmap, index, numBits);
        if exists' { existCount := Increment(existCount); }
        i := i + 1;
      }
    }

    method InsertUnique(key: Key) returns (r: bool)
      requires Valid() && bitmap != null
      modifies this`inserted, bitmap
      ensures Valid() && inserted == old(inserted) + {key} && Contains(key)
      ensures r <==> numHashes >= TWO_32 || !old(Contains(key))
      ensures SetBits(bitmap[..], numBits) == old(SetBits(bitmap[..], numBits)) + Probes(hash, numBits, key, numHashes)
    {
      UnionGrows(hash, numBits, numHashes, inserted, SetBits(bitmap[..], numBits), key);
      if numHashes < TWO_32 {
        AllFound(hash, numBits, key, numHashes, SetBits(bitmap[..], numBits));
      }
      var existCount := TestAndSetProbes(key);
      inserted := inserted + {key};
      r := existCount < numHashes;
    }

    method MayContain(key: Key) returns (r: bool)
      requires Valid() && bitmap != null
      ensures r <==> Contains(key)
      ensures key in inserted ==> r
    {
      var digest: Digest := [0, 0, 0, 0];
      var i: nat := 0;
      while i < numHashes
        invariant i <= numHashes && LastDigest(hash, key, i, digest)
        invariant Probes(hash, numBits, key, i) <= SetBits(bitmap[..], numBits)
      {
        var index;
        digest, index := NextProbe(key, i, digest);
        var set' := TestBit(bitmap, index, numBits);
        if !set' {
          ProbeAmong(hash, numBits, key, i, numHashes);
          return false;
        }
        i := i + 1;
      }
      r := true;
    }
  }

  // With 2^32 hash functions the count wraps to zero: a key inserted before still counts as new.
  method InsertedTwice(h: Hasher, key: Key) returns (filter: BloomFilter, contained: bool, unique: bool)
    ensures contained && unique
  {
    filter := new BloomFilter(h);
    var r := filter.Initialize(1, TWO_32, true);
    filter.Insert(key);
    contained := filter.MayContain(key);
    unique := filter.InsertUnique(key);
  }

  lemma {:induction false} ProbeAmong(h: Hasher, bits: nat, key: Key, i: nat, n: nat)
    requires bits > 0 && i < n
    ensures Probe(h, bits, key, i) in Probes(h, bits, key, n)
  {
    if i == n - 1 {
    } else {
      ProbeAmong(h, bits, key, i, n - 1);
    }
  }

  // ------------------------------------------------------------ the bits of one key

  /** The digests of a key, each after the first made from the one before it. */
  ghost predicate IsChain(h: Hasher, key: Key, ds: seq<Digest>) {
    && ds != [] && ds[0] == h.first(key)
    && forall i :: 1 <= i < |ds| ==> ds[i] == h.again(ds[i - 1], 4 * i % TWO_32)
  }

  lemma {:induction false} ChainIs(h: Hasher, key: Key, ds: seq<Digest>, g: nat)
    requires IsChain(h, key, ds) && g < |ds|
    ensures ds[g] == DigestAt(h, key, g)
  {
    if g == 0 {
    } else {
      ChainIs(h, key, ds, g - 1);
    }
  }

  /** One of the first n words of the digests leaves the remainder k. */
  ghost predicate HasWord(ds: seq<Digest>, bits: nat, n: nat, k: nat)
    requires bits > 0 && n <= 4 * |ds|
  {
    exists i: nat :: i < n && ds[i / 4][i % 4] % bits == k
  }

  // The probes of a key are the words of its digests modulo the number of bits.
  lemma {:induction false} ProbesAreWords(h: Hasher, bits: nat, key: Key, ds: seq<Digest>, n: nat, k: nat)
    requires bits > 0 && IsChain(h, key, ds) && n <= 4 * |ds|
    ensures k in Probes(h, bits, key, n) <==> HasWord(ds, bits, n, k)
  {
    if n == 0 {
    } else {
      ProbesAreWords(h, bits, key, ds, n - 1, k);
      ChainIs(h, key, ds, (n - 1) / 4);
      if HasWord(ds, bits, n - 1, k) {
        var i: nat :| i < n - 1 && ds[i / 4][i % 4] % bits == k;
        assert HasWord(ds, bits, n, k);
      }
    }
  }

  lemma OnlyTheseProbes(h: Hasher, bits: nat, n: nat, a: Key, found: set<nat>)
    requires bits > 0 && IsUnion(h, bits, n, {a}, found)
    ensures found == Probes(h, bits, a, n)
  {
    forall k | k in found ensures k in Probes(h, bits, a, n) {
      assert ProbeOfSome(h, bits, n, {a}, k);
    }
  }

  /** Every word of the one key's digests is, modulo the bits, a word of the other's. */
  ghost predicate Covers(da: seq<Digest>, db: seq<Digest>, bits: nat, n: nat)
    requires bits > 0 && n <= 4 * |da| && n <= 4 * |db|
  {
    forall k: nat :: HasWord(db, bits, n, k) ==> HasWord(da, bits, n, k)
  }

  lemma WordsDecide(h: Hasher, bits: nat, n: nat, a: Key, b: Key, da: seq<Digest>, db: seq<Digest>, found: set<nat>)
    requires bits > 0 && n <= 4 * |da| && n <= 4 * |db| && IsChain(h, a, da) && IsChain(h, b, db)
    requires IsUnion(h, bits, n, {a}, found)
    ensures Probes(h, bits, b, n) <= found <==> Covers(da, db, bits, n)
  {
    OnlyTheseProbes(h, bits, n, a, found);
    forall k: nat ensures k in found <==> HasWord(da, bits, n, k) {
      ProbesAreWords(h, bits, a, da, n, k);
    }
    forall k: nat ensures k in Probes(h, bits, b, n) <==> HasWord(db, bits, n, k) {
      ProbesAreWords(h, bits, b, db, n, k);
    }
  }

  // An empty filter into which one key is put answers exactly by the words of the two keys' digests.
  method OneKey(filter: BloomFilter, a: Key, b: Key, ghost da: seq<Digest>, ghost db: seq<Digest>) returns (r: bool)
    requires filter.Valid() && filter.bitmap != null && filter.inserted == {} && filter.numBits > 0
    requires filter.numHashes <= 4 * |da| && filter.numHashes <= 4 * |db|
    requires IsChain(filter.hash, a, da) && IsChain(filter.hash, b, db)
    modifies filter`inserted, filter.bitmap
    ensures r <==> Covers(da, db, filter.numBits, filter.numHashes)
  {
    filter.Insert(a);
    assert filter.inserted == {a};
    r := filter.MayContain(b);
    WordsDecide(filter.hash, filter.numBits, filter.numHashes, a, b, da, db, SetBits(filter.bitmap[..], filter.numBits));
  }
}
