/**
 The bump allocator of base/arena.h and base/arena.cpp. Addresses are numbers
 below 2^64 and 0 is the null pointer. What `new char[n]` returns is up to the
 heap: a parameter of every request, null when the heap has no room. A ghost
 layout keeps the ranges handed out and accounts for every byte of every block.
 */
module Arena {
  import opened Powers

  const BLOCK_SIZE: nat := 4096
  const LARGE: nat := BLOCK_SIZE / 4
  const ALIGN: nat := 8
  const NULL: nat := 0

  datatype Range = Range(addr: nat, size: nat)

  ghost predicate In(x: nat, r: Range) {
    r.addr <= x < r.addr + r.size
  }

  /** No address lies in both. */
  ghost predicate Apart(a: Range, b: Range) {
    forall x :: In(x, a) ==> !In(x, b)
  }

  ghost predicate Inside(a: Range, b: Range) {
    b.addr <= a.addr && a.addr + a.size <= b.addr + b.size
  }

  ghost predicate PairwiseApart(s: seq<Range>) {
    forall i, j :: 0 <= i < j < |s| ==> Apart(s[i], s[j])
  }

  ghost predicate AllApart(s: seq<Range>, r: Range) {
    forall i :: 0 <= i < |s| ==> Apart(s[i], r)
  }

  /** Every range lies inside the block whose index is its home. */
  ghost predicate Housed(ranges: seq<Range>, home: seq<nat>, blocks: seq<Range>) {
    && |home| == |ranges|
    && forall i {:trigger home[i]} :: 0 <= i < |ranges| ==> home[i] < |blocks| && Inside(ranges[i], blocks[home[i]])
  }

  ghost predicate InSomeBlock(r: Range, blocks: seq<Range>) {
    exists i :: 0 <= i < |blocks| && Inside(r, blocks[i])
  }

  // ------------------------------------------------------------ counting addresses

  ghost predicate Holds(s: seq<Range>, x: nat) {
    exists i :: 0 <= i < |s| && In(x, s[i])
  }

  /** The addresses in any of the ranges. */
  ghost function Addresses(s: seq<Range>): set<nat> {
    set x: nat | x < TWO_64 && Holds(s, x)
  }

  ghost function Cells(lo: nat, hi: nat): (s: set<nat>)
    ensures forall x :: x in s <==> lo <= x < hi
    ensures lo <= hi ==> |s| == hi - lo
    decreases hi
  {
    if lo < hi then Cells(lo, hi - 1) + {hi - 1} else {}
  }

  ghost predicate InMemory(s: seq<Range>) {
    forall i :: 0 <= i < |s| ==> s[i].addr != NULL && s[i].addr + s[i].size <= TWO_64
  }

  lemma HoldsSnoc(s: seq<Range>, r: Range, x: nat)
    ensures Holds(s + [r], x) <==> Holds(s, x) || In(x, r)
  {
    var t := s + [r];
    if Holds(s, x) {
      var i :| 0 <= i < |s| && In(x, s[i]);
      assert In(x, t[i]);
    } else if In(x, r) {
      assert In(x, t[|s|]);
    }
  }

  // A range apart from the others adds its size.
  lemma AddressesSnoc(s: seq<Range>, r: Range)
    requires AllApart(s, r) && r.addr + r.size <= TWO_64
    ensures |Addresses(s + [r])| == |Addresses(s)| + r.size
  {
    var cells := Cells(r.addr, r.addr + r.size);
    forall x: nat ensures x in Addresses(s + [r]) <==> x in Addresses(s) || x in cells {
      HoldsSnoc(s, r, x);
    }
    assert Addresses(s + [r]) == Addresses(s) + cells;
    assert Addresses(s) !! cells;
  }

  lemma SubsetSize(a: set<nat>, b: set<nat>)
    requires a <= b
    ensures |a| <= |b|
  {
    assert b == a + (b - a);
  }

  // There are fewer than 2^64 non-null addresses: a count of them cannot wrap.
  lemma AddressesFit(s: seq<Range>)
    requires InMemory(s)
    ensures |Addresses(s)| < TWO_64
  {
    SubsetSize(Addresses(s), Cells(1, TWO_64));
  }

  ghost function Sum(s: seq<Range>): nat {
    if s == [] then 0 else Sum(s[..|s| - 1]) + s[|s| - 1].size
  }

  // The count of addresses of disjoint ranges is the sum of their sizes.
  lemma {:induction false} SumOfSizes(s: seq<Range>)
    requires PairwiseApart(s) && InMemory(s)
    ensures |Addresses(s)| == Sum(s)
  {
    if s == [] {
      assert Addresses(s) == {};
    } else {
      var front, last := s[..|s| - 1], s[|s| - 1];
      assert s == front + [last];
      SumOfSizes(front);
      AddressesSnoc(front, last);
    }
  }

  // ------------------------------------------------------------ the arena

  /** The size of the block a request asks of the heap when the current one cannot serve it. */
  function NewBlockSize(bytes: nat): nat {
    if bytes > LARGE then bytes else BLOCK_SIZE
  }

  /** A block the heap may return: non-null, within the address space, apart from those already owned. */
  ghost predicate Available(blocks: seq<Range>, block: Range) {
    block.addr != NULL && block.addr + block.size <= TWO_64 && AllApart(blocks, block)
  }

  function Slop(ptr: nat): (s: u64)
    ensures s < ALIGN && (ptr + s) % ALIGN == 0
  {
    if ptr % ALIGN == 0 then 0 else ALIGN - ptr % ALIGN
  }

  /**
   Who has which bytes: the owned blocks, the index of the one that holds the free
   tail, the non-empty ranges handed out and the block each lies in, and the books.
   */
  datatype Layout = Layout(owned: seq<Range>, current: nat, free: Range, handed: seq<Range>, home: seq<nat>,
                           books: Books)

  /** How many bytes are owned and handed out, how many free tails were left behind and their bytes, and the bytes
      skipped for alignment. */
  datatype Books = Books(ownedBytes: nat, handedBytes: nat, abandoned: nat, waste: nat, padding: nat)

  ghost predicate TailFree(l: Layout) {
    && (l.free.addr == NULL ==> l.free.size == 0)
    && (l.free.addr != NULL ==> l.current < |l.owned| && Inside(l.free, l.owned[l.current]))
    && AllApart(l.handed, l.free)
  }

  /** The books count addresses: every byte is handed out, left behind, padding or free. */
  ghost predicate Accounted(l: Layout) {
    && l.books.ownedBytes == |Addresses(l.owned)| && l.books.handedBytes == |Addresses(l.handed)|
    && l.books.ownedBytes == l.books.handedBytes + l.books.waste + l.books.padding + l.free.size
    && l.books.waste <= (LARGE + ALIGN - 1) * l.books.abandoned
  }

  ghost predicate Sound(l: Layout) {
    && PairwiseApart(l.owned) && InMemory(l.owned)
    && PairwiseApart(l.handed) && Housed(l.handed, l.home, l.owned)
    && TailFree(l)
  }

  ghost predicate Fresh(l: Layout) {
    l.owned == l.handed == [] && l.home == [] && l.books == Books(0, 0, 0, 0, 0) && l.free == Range(NULL, 0)
  }

  lemma FreshIsSound(l: Layout)
    requires Fresh(l)
    ensures Sound(l) && Accounted(l)
  {
    assert Addresses(l.owned) == {};
  }

  ghost function HandLarge(l: Layout, block: Range): Layout {
    var b := l.books;
    l.(owned := l.owned + [block], handed := l.handed + [block], home := l.home + [|l.owned|],
       books := b.(ownedBytes := b.ownedBytes + block.size, handedBytes := b.handedBytes + block.size))
  }

  ghost function StartBlock(l: Layout, block: Range): Layout {
    var b := l.books;
    l.(owned := l.owned + [block], current := |l.owned|, free := block,
       books := b.(ownedBytes := b.ownedBytes + block.size,
                   abandoned := b.abandoned + 1, waste := b.waste + l.free.size))
  }

  ghost function Carve(l: Layout, skip: nat, bytes: nat): Layout
    requires skip + bytes <= l.free.size
  {
    var b := l.books;
    var taken := Range(l.free.addr + skip, bytes);
    var rest := l.(free := Range(taken.addr + taken.size, l.free.size - skip - bytes),
                   books := b.(handedBytes := b.handedBytes + bytes, padding := b.padding + skip));
    if bytes == 0 then rest else rest.(handed := l.handed + [taken], home := l.home + [l.current])
  }

  /** The next layout owns what the last one owned, and hands out r on top of what was handed out. */
  ghost predicate Served(last: Layout, next: Layout, r: Range) {
    && last.owned <= next.owned
    && next.handed == (if r.size == 0 then last.handed else last.handed + [r])
  }

  // What lies in owned blocks is apart from a new one.
  lemma NewBlockApart(ranges: seq<Range>, home: seq<nat>, owned: seq<Range>, block: Range)
    requires Housed(ranges, home, owned) && AllApart(owned, block)
    ensures AllApart(ranges, block) && Housed(ranges, home, owned + [block])
  {
    forall i | 0 <= i < |ranges| ensures Apart(ranges[i], block) {
      assert Inside(ranges[i], owned[home[i]]) && Apart(owned[home[i]], block);
    }
  }

  lemma HandLargeKeeps(l: Layout, block: Range)
    requires Sound(l) && Available(l.owned, block)
    ensures Sound(HandLarge(l, block)) && (block.size > 0 ==> Served(l, HandLarge(l, block), block))
  {
    NewBlockApart(l.handed, l.home, l.owned, block);
  }

  lemma HandLargeAccounts(l: Layout, block: Range)
    requires Accounted(l) && Housed(l.handed, l.home, l.owned) && Available(l.owned, block)
    ensures Accounted(HandLarge(l, block))
  {
    NewBlockApart(l.handed, l.home, l.owned, block);
    AddressesSnoc(l.owned, block);
    AddressesSnoc(l.handed, block);
  }

  lemma StartBlockKeeps(l: Layout, block: Range)
    requires Sound(l) && Available(l.owned, block)
    ensures Sound(StartBlock(l, block))
  {
    NewBlockApart(l.handed, l.home, l.owned, block);
  }

  // A free tail left behind is less than 1032 bytes.
  lemma StartBlockAccounts(l: Layout, block: Range)
    requires Accounted(l) && Available(l.owned, block) && l.free.size < LARGE + ALIGN
    ensures Accounted(StartBlock(l, block))
  {
    AddressesSnoc(l.owned, block);
  }

  lemma PartsApart(s: seq<Range>, whole: Range, part: Range)
    requires AllApart(s, whole) && Inside(part, whole)
    ensures AllApart(s, part)
  {
    forall i | 0 <= i < |s| ensures Apart(s[i], part) {
      assert Apart(s[i], whole);
    }
  }

  lemma HandOne(handed: seq<Range>, home: seq<nat>, owned: seq<Range>, r: Range, block: nat)
    requires PairwiseApart(handed) && AllApart(handed, r) && Housed(handed, home, owned)
    requires block < |owned| && Inside(r, owned[block])
    ensures PairwiseApart(handed + [r]) && Housed(handed + [r], home + [block], owned)
  {
  }

  lemma CarveTailFree(l: Layout, skip: nat, bytes: nat)
    requires TailFree(l) && skip + bytes <= l.free.size
    ensures TailFree(Carve(l, skip, bytes))
  {
    var taken := Range(l.free.addr + skip, bytes);
    PartsApart(l.handed, l.free, Range(taken.addr + taken.size, l.free.size - skip - bytes));
  }

  lemma CarveAccounts(l: Layout, skip: nat, bytes: nat)
    requires Accounted(l) && TailFree(l) && InMemory(l.owned) && skip + bytes <= l.free.size
    ensures Accounted(Carve(l, skip, bytes))
  {
    if bytes > 0 {
      var taken := Range(l.free.addr + skip, bytes);
      PartsApart(l.handed, l.free, taken);
      AddressesSnoc(l.handed, taken);
    }
  }

  lemma CarveHands(l: Layout, skip: nat, bytes: nat)
    requires PairwiseApart(l.handed) && Housed(l.handed, l.home, l.owned) && TailFree(l) && skip + bytes <= l.free.size
    ensures var next := Carve(l, skip, bytes);
            PairwiseApart(next.handed) && Housed(next.handed, next.home, next.owned)
  {
    if bytes > 0 {
      var taken := Range(l.free.addr + skip, bytes);
      PartsApart(l.handed, l.free, taken);
      HandOne(l.handed, l.home, l.owned, taken, l.current);
    }
  }

  lemma CarveKeeps(l: Layout, skip: nat, bytes: nat)
    requires Sound(l) && skip + bytes <= l.free.size
    ensures Sound(Carve(l, skip, bytes))
    ensures Served(l, Carve(l, skip, bytes), Range(l.free.addr + skip, bytes))
  {
    CarveTailFree(l, skip, bytes);
    CarveHands(l, skip, bytes);
  }

  lemma Carved(l: Layout, skip: nat, bytes: nat) returns (next: Layout)
    requires Sound(l) && Accounted(l) && skip + bytes <= l.free.size
    ensures Sound(next) && Accounted(next) && Served(l, next, Range(l.free.addr + skip, bytes))
    ensures next.free == Range(l.free.addr + skip + bytes, l.free.size - skip - bytes)
    ensures next.owned == l.owned && next.books.padding == l.books.padding + skip
    ensures next.books.waste == l.books.waste && next.books.abandoned == l.books.abandoned
  {
    CarveKeeps(l, skip, bytes);
    CarveAccounts(l, skip, bytes);
    next := Carve(l, skip, bytes);
  }

  /** A large request leaves the free tail alone; any other one starts a block and cuts its bytes off the front. */
  function TailAfterFallback(free: Range, bytes: nat, block: nat): Range {
    if bytes > LARGE then free else Range(block + bytes, BLOCK_SIZE - bytes)
  }

  /** Addition of two sizes, wrapping around at 2^64. */
  function AddSize(a: u64, b: u64): (r: u64) {
    if a + b < TWO_64 then a + b else a + b - TWO_64
  }

  class Arena {
    var allocPtr: nat
    var remaining: nat
    var blocks: seq<nat>
    var blocksMemory: nat
    ghost var layout: Layout

    ghost predicate Valid()
      reads this
    {
      && Sound(layout) && Accounted(layout) && layout.free == Range(allocPtr, remaining)
      && |blocks| == |layout.owned| && (forall i :: 0 <= i < |blocks| ==> blocks[i] == layout.owned[i].addr)
      && blocksMemory == layout.books.ownedBytes
    }

    constructor ()
      ensures Valid() && layout.handed == [] && layout.owned == []
    {
      blocksMemory, allocPtr, remaining, blocks := 0, NULL, 0, [];
      ghost var l :| Fresh(l) by { assert Fresh(Layout([], 0, Range(NULL, 0), [], [], Books(0, 0, 0, 0, 0))); }
      FreshIsSound(l);
      layout := l;
    }

    method AllocateNewBlock(bytes: u64, block: nat) returns (ok: bool)
      requires Valid()
      requires block != NULL ==> Available(layout.owned, Range(block, bytes))
      modifies this`blocks, this`blocksMemory
      ensures ok == (block != NULL)
      ensures ok ==> blocks == old(blocks) + [block] && blocksMemory == old(blocksMemory) + bytes
      ensures !ok ==> unchanged(this)
    {
      if block == NULL {
        return false;
      }
      AddressesSnoc(layout.owned, Range(block, bytes));
      AddressesFit(layout.owned + [Range(block, bytes)]);
      blocksMemory := (blocksMemory + bytes) % TWO_64;
      blocks := blocks + [block];
      ok := true;
    }

    /** Moves the free tail by `amount`, of which the first `pad` bytes are given to nobody. */
    method Bump(skip: nat, amount: nat, ghost pad: nat) returns (result: nat)
      requires Valid() && pad <= amount <= remaining
      modifies this`allocPtr, this`remaining, this`layout
      ensures Valid() && result == old(allocPtr) + skip
      ensures allocPtr == old(allocPtr) + amount && remaining == old(remaining) - amount
      ensures layout.books.padding == old(layout.books.padding) + pad && layout.owned == old(layout.owned)
      ensures layout.books.waste == old(layout.books.waste) && layout.books.abandoned == old(layout.books.abandoned)
      ensures Served(old(layout), layout, Range(old(allocPtr) + pad, amount - pad))
    {
      layout := Carved(layout, pad, amount - pad);
      result := allocPtr + skip;
      allocPtr := allocPtr + amount;
      remaining := remaining - amount;
    }

    method AllocateSeparately(bytes: u64, block: nat) returns (ok: bool)
      requires Valid() && bytes > 0
      requires block != NULL ==> Available(layout.owned, Range(block, bytes))
      modifies this`blocks, this`blocksMemory, this`layout
      ensures Valid() && ok == (block != NULL)
      ensures ok ==> Served(old(layout), layout, Range(block, bytes))
      ensures layout.books.padding == old(layout.books.padding)
      ensures layout.books.waste == old(layout.books.waste) && layout.books.abandoned == old(layout.books.abandoned)
      ensures !ok ==> unchanged(this)
    {
      ok := AllocateNewBlock(bytes, block);
      if ok {
        HandLargeKeeps(layout, Range(block, bytes));
        HandLargeAccounts(layout, Range(block, bytes));
        layout := HandLarge(layout, Range(block, bytes));
      }
    }

    method StartNewBlock(block: nat) returns (ok: bool)
      requires Valid() && remaining < LARGE + ALIGN
      requires block != NULL ==> Available(layout.owned, Range(block, BLOCK_SIZE))
      modifies this
      ensures Valid() && ok == (block != NULL)
      ensures ok ==> allocPtr == block && remaining == BLOCK_SIZE
      ensures ok ==> old(layout.owned) <= layout.owned && layout.handed == old(layout.handed)
      ensures layout.books.padding == old(layout.books.padding)
      ensures ok ==> layout.books.waste == old(layout.books.waste) + old(remaining)
      ensures ok ==> layout.books.abandoned == old(layout.books.abandoned) + 1
      ensures !ok ==> unchanged(this)
    {
      ok := AllocateNewBlock(BLOCK_SIZE, block);
      if ok {
        StartBlockKeeps(layout, Range(block, BLOCK_SIZE));
        StartBlockAccounts(layout, Range(block, BLOCK_SIZE));
        layout := StartBlock(layout, Range(block, BLOCK_SIZE));
        allocPtr := block;
        remaining := BLOCK_SIZE;
      }
    }

    method AllocateFallback(bytes: u64, block: nat) returns (ok: bool, result: nat)
      requires Valid() && remaining < bytes + ALIGN
      requires block != NULL ==> Available(layout.owned, Range(block, NewBlockSize(bytes)))
      modifies this
      ensures Valid() && ok == (block != NULL)
      ensures ok ==> result == block && Served(old(layout), layout, Range(result, bytes))
      ensures ok ==> Range(allocPtr, remaining) == TailAfterFallback(old(layout.free), bytes, block)
      ensures layout.books.padding == old(layout.books.padding)
      ensures ok && bytes <= 1024 ==> allocPtr == block + bytes && remaining == 4096 - bytes
      ensures ok && bytes > 1024 ==> allocPtr == old(allocPtr) && remaining == old(remaining)
      ensures ok && bytes <= LARGE ==>
                && layout.books.abandoned == old(layout.books.abandoned) + 1
                && layout.books.waste - old(layout.books.waste) == old(remaining) < LARGE + ALIGN
      ensures bytes > LARGE ==>
                layout.books.waste == old(layout.books.waste) && layout.books.abandoned == old(layout.books.abandoned)
      ensures !ok ==> unchanged(this)
    {
      result := block;
      if bytes > LARGE {
        ok := AllocateSeparately(bytes, block);
      } else {
        ok := StartNewBlock(block);
        if ok {
          result := Bump(0, bytes, 0);
        }
      }
    }

    method Allocate(bytes: u64, block: nat) returns (ok: bool, result: nat)
      requires Valid() && bytes > 0
      requires block != NULL ==> Available(layout.owned, Range(block, NewBlockSize(bytes)))
      modifies this
      ensures Valid() && ok == (bytes <= old(remaining) || block != NULL)
      ensures ok ==> Served(old(layout), layout, Range(result, bytes))
      ensures bytes <= old(remaining) ==> allocPtr == old(allocPtr) + bytes && remaining == old(remaining) - bytes
      ensures ok && bytes > old(remaining) ==>
                Range(allocPtr, remaining) == TailAfterFallback(old(layout.free), bytes, block)
      ensures layout.books.padding == old(layout.books.padding)
      ensures !ok ==> unchanged(this)
    {
      if bytes <= remaining {
        ok := true;
        result := Bump(0, bytes, 0);
      } else {
        ok, result := AllocateFallback(bytes, block);
      }
    }

    /** The request is so large that adding the slop wraps around to something the tail can serve. */
    ghost predicate Wraps(bytes: u64, slop: nat)
      reads this
    {
      bytes + slop >= TWO_64 && bytes + slop - TWO_64 <= remaining
    }

    method AllocateAfter(slop: u64, bytes: u64, block: nat) returns (ok: bool, result: nat)
      requires Valid() && slop < ALIGN && (allocPtr == NULL ==> slop == 0)
      requires block != NULL ==> Available(layout.owned, Range(block, NewBlockSize(bytes)))
      modifies this
      ensures Valid()
      ensures ok == (old(Wraps(bytes, slop)) || bytes + slop <= old(remaining) || block != NULL)
      ensures ok ==> result == if bytes + slop <= old(remaining) || old(Wraps(bytes, slop)) then old(allocPtr) + slop else block
      ensures bytes + slop <= old(remaining) ==>
                allocPtr == old(allocPtr) + slop + bytes && remaining == old(remaining) - slop - bytes
      ensures ok && bytes + slop > old(remaining) && !old(Wraps(bytes, slop)) ==>
                Range(allocPtr, remaining) == TailAfterFallback(old(layout.free), bytes, block)
      ensures ok && !old(Wraps(bytes, slop)) ==> Served(old(layout), layout, Range(result, bytes))
      ensures old(layout.books.padding) <= layout.books.padding < old(layout.books.padding) + ALIGN
      ensures old(Wraps(bytes, slop)) ==> !InSomeBlock(Range(result, bytes), layout.owned)
      ensures !ok ==> unchanged(this)
    {
      var needed := AddSize(bytes, slop);
      if needed > remaining {
        ok, result := AllocateFallback(bytes, block);
      } else {
        ok := true;
        ghost var wraps := Wraps(bytes, slop);
        result := Bump(slop, needed, if wraps then needed else slop);
        if wraps {
          OutsideEveryBlock(layout, Range(result, bytes));
        }
      }
    }

    method AllocateAligned(bytes: u64, block: nat) returns (ok: bool, result: nat)
      requires Valid()
      requires block != NULL ==> Available(layout.owned, Range(block, NewBlockSize(bytes)))
      modifies this
      ensures Valid()
      ensures ok == (old(Wraps(bytes, Slop(allocPtr))) || bytes + Slop(old(allocPtr)) <= old(remaining) || block != NULL)
      ensures ok && block % ALIGN == 0 ==> result % ALIGN == 0
      ensures bytes + Slop(old(allocPtr)) <= old(remaining) ==>
                allocPtr == result + bytes && remaining == old(remaining) - Slop(old(allocPtr)) - bytes
      ensures ok && !old(Wraps(bytes, Slop(allocPtr))) ==> Served(old(layout), layout, Range(result, bytes))
      ensures old(layout.books.padding) <= layout.books.padding < old(layout.books.padding) + ALIGN
      ensures ok && bytes > 0 ==>
                (InSomeBlock(Range(result, bytes), layout.owned) <==> !old(Wraps(bytes, Slop(allocPtr))))
      ensures !ok ==> unchanged(this)
    {
      ghost var wraps := Wraps(bytes, Slop(allocPtr));
      ok, result := AllocateAfter(Slop(allocPtr), bytes, block);
      if ok && bytes > 0 && !wraps {
        ServedInBlock(old(layout), layout, Range(result, bytes));
      }
    }
  }

  // What a sound layout has handed out lies in one of its blocks.
  lemma ServedInBlock(last: Layout, next: Layout, r: Range)
    requires Sound(next) && Served(last, next, r) && r.size > 0
    ensures InSomeBlock(r, next.owned)
  {
    assert r == next.handed[|last.handed|] && Inside(r, next.owned[next.home[|last.handed|]]);
  }

  lemma OutsideEveryBlock(l: Layout, r: Range)
    requires Sound(l) && r.addr + r.size > TWO_64
    ensures !InSomeBlock(r, l.owned)
  {
  }

  // After a one-byte request, an aligned request of 2^64 - 7 bytes wraps around and gets a range no block holds.
  method WrappedRequest() returns (arena: Arena, result: nat, bytes: u64)
    ensures fresh(arena) && arena.Valid() && bytes == TWO_64 - 7
    ensures !InSomeBlock(Range(result, bytes), arena.layout.owned)
  {
    arena := new Arena();
    bytes := TWO_64 - 7;
    var ok, one := arena.Allocate(1, ALIGN);
    assert arena.allocPtr == ALIGN + 1 && arena.remaining == BLOCK_SIZE - 1;
    ok, result := arena.AllocateAligned(bytes, NULL);
  }
}
