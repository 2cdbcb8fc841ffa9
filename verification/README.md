# Verified models of Toft's algorithmic cores

Toft is a C++ base library. This project models its self-contained algorithms in
Dafny and proves what they promise: the lock-free skip list, division by
multiply-and-shift, the blocking queue's monitor protocol, the framed compression
stream, packed bitmaps, streaming digests, CRC-32, the three forms of MurmurHash2, the
Bloom filter, the arena, the LRU cache, the longest common substring search and
variable-length integers. `dafny verify dfyconfig.toml` checks all of it.

Code that changes fields, arrays or local variables step by step is modelled by
classes and methods with loops, each proved against a specification function or a
stated property. The two concurrent components are state machines whose steps are the
individual loads, stores, waits and notifications, and their theorems range over every
run. Machine integers are numbers with their width, wrap-around and truncation written
out.

| file | component |
|---|---|
| `SkipListMemory.dfy`, `SkipList.dfy`, `SkipListConcurrent.dfy` | the skip list: its memory, used by one thread, and with one writer and any number of readers |
| `UInt32Divisor.dfy` | exact division by a run-time constant |
| `BlockingQueue.dfy` | the bounded blocking deque |
| `StreamCompression.dfy` | segmented framing over any block codec |
| `Bitmap.dfy`, `Words.dfy` | packed bitmaps and the 64-bit words they are made of |
| `Digests.dfy`, `Sha1.dfy`, `Md5.dfy` | buffering, counting and padding of SHA-1 and MD5 over any compression function |
| `Crc32.dfy` | the table-driven CRC-32 |
| `Murmur.dfy` | three forms of MurmurHash2 |
| `BloomFilter.dfy` | the Bloom filter, using `UInt32Divisor` |
| `Arena.dfy` | the bump allocator |
| `LruCache.dfy` | the cache and its index |
| `LongestCommonSubstring.dfy` | the diagonal sweeps |
| `Varint.dfy` | variable-length integers and length-prefixed strings |
| `Powers.dfy`, `Hexadecimal.dfy`, `Sequences.dfy`, `Options.dfy` | shared arithmetic and small helpers |

Where the code does less than its name or comment says, the code is modelled as it is,
with an input that shows it and the exact condition under which it does what is expected:

- The longest-common-substring search casts lengths to `int`. Its result is right for
  all strings of two given lengths exactly when one of them is empty or both are shorter
  than 2^31 (`RightExactlyBelow`); a string compared with itself comes back exactly when
  it is shorter than 2^31 (`LongestWithItself`).
- Its header says that of several longest common substrings the last is returned. It is
  the first in sweep order (`LongestCommonSubstring`): of "ab" and "acb" it is "a"
  (`FirstOfTwoIsReturned`).
- `StreamCompression` hands on nothing at all with the codec named "none", which is also
  used for every unregistered name: all data comes through exactly when the codec is
  another one or there is no data (`StreamRoundTrip`, `NoneLosesAByte`).
- `MD5::Update` keeps only the low 32 bits of a chunk's length: bytes are skipped exactly
  when some chunk has 2^32 bytes or more (`NothingSkipped`, `FourGigabytesAreSkipped`).
- `BloomFilter::InsertUnique` counts in 32 bits: its answer is the negation of
  `MayContain` exactly when there are fewer than 2^32 hash functions or the key is new
  (`InsertUnique`, `InsertedTwice`).
- `Arena::AllocateAligned` adds the slop to the size without a check: the result lies
  in an owned block exactly when that sum does not wrap around to something the free
  tail can serve (`AllocateAligned`, `WrappedRequest`).
- `DynamicBitmap::Resize` does not mask the last word: the zero-padding invariant
  survives exactly when no bit between the new size and its last word's end was set
  (`Resize`, `ResizeLeavesABit`).
- A length-prefixed string is written with its length cut to 32 bits, so it reads back
  whole exactly when it is shorter than 2^32 bytes (`StringRoundTrip`,
  `LongStringIsCut`).
- The varint decoders accept bytes that no encoder writes. Decoding and encoding again
  gives the same bytes exactly when they are not padded with a final zero byte and a
  fifth byte is below 16 (32 bits) or a tenth byte below 2 (64 bits)
  (`Decoded32IsCanonical`, `Decoded64IsCanonical`, `SpilledBitsAreLost`).

## Model

| member | source | states |
|---|---|---|
| `SkipListMemory.PublishInv` | container/skiplist.h:398-403 | storing one pointer to a node that is ready for its next level keeps every level sorted and acyclic, each a sublist of the one below, and adds exactly that node's key |
| `SkipListMemory.LevelFromExact` | container/skiplist.h:296-316 | following the pointers of a level from a node visits, in ascending order, exactly the nodes ahead of it on that level |
| `SkipListMemory.LevelIsSublist` | container/skiplist.h:13-25 | level i+1 is level i with only the taller nodes kept |
| `SkipListSequential.SkipList.constructor` | container/skiplist.h:358-368 | a new list is well-formed and holds no key |
| `SkipListSequential.SkipList.FindGreaterOrEqual` | container/skiplist.h:296-316 | returns the first node at or after the key, and on every level in use the last node before it; the search terminates |
| `SkipListSequential.SkipList.FindLessThan` | container/skiplist.h:318-337 | returns the last node before the key, or the head if there is none |
| `SkipListSequential.SkipList.FindLast` | container/skiplist.h:339-356 | returns the node with the greatest key, or the head of an empty list |
| `SkipListSequential.SkipList.Contains` | container/skiplist.h:406-410 | is membership in the set of keys |
| `SkipListSequential.SkipList.Insert` | container/skiplist.h:370-404 | for every height, adds exactly the key to the set, keeps the list well-formed, and raises the list's height to the node's if that is greater |
| `SkipListSequential.SkipList.Link` | container/skiplist.h:398-403 | the linking loop takes a node found on no level to one linked on all its levels |
| `SkipListSequential.Iterator.Next` | container/skiplist.h:241-245 | moves to the least key greater than the current one, or to the end if there is none |
| `SkipListSequential.Iterator.Prev` | container/skiplist.h:247-256 | moves to the greatest key less than the current one, or to the end if there is none |
| `SkipListSequential.Iterator.Seek` | container/skiplist.h:258-261 | moves to the least key not less than the target, or to the end |
| `SkipListSequential.Iterator.SeekToFirst` | container/skiplist.h:263-266 | moves to the least key of all |
| `SkipListSequential.Iterator.SeekToLast` | container/skiplist.h:268-274 | moves to the greatest key of all |
| `SkipListSequential.Enumerate` | container/skiplist.h:241-266 | SeekToFirst and then Next until the end visits every key of the list exactly once, in ascending order |
| `SkipListSequential.IterationEnumerates` | container/skiplist.h:241-266 | the bottom level lists every key exactly once, in ascending order |
| `SkipListSequential.PrevUndoesNext` | container/skiplist.h:241-256 | from any node with a successor, Next and then Prev comes back to it |
| `SkipListSequential.NextUndoesPrev` | container/skiplist.h:241-256 | Prev and then Next comes back to the node |
| `SkipListConcurrent.StepKeeps` | container/skiplist.h:296-410 | every single load or store, by the writer or by any reader, keeps the invariant of memory, writer and readers, and never removes a link target |
| `SkipListConcurrent.PublishKeeps` | container/skiplist.h:398-403 | the pointer store that publishes a node on one level keeps the memory invariant and what the writer knows about its predecessors |
| `SkipListConcurrent.ReadOnKeeps` | container/skiplist.h:296-356 | whatever a reader loads, its position stays before what it searches for |
| `SkipListConcurrent.RunInvariant` | container/skiplist.h:5-25 | the invariant holds in every state of every interleaving |
| `SkipListConcurrent.LevelsAlwaysSorted` | container/skiplist.h:13-25 | in every state of every run, each level is sorted, holds exactly the nodes linked there, and is a sublist of the level below |
| `SkipListConcurrent.KeysOnlyGrow` | container/skiplist.h:13-23 | the set of keys never shrinks along a run |
| `SkipListConcurrent.OnlyPublicationAddsKeys` | container/skiplist.h:370-404 | the only step that changes the set of keys is the bottom-level publication, and it adds the writer's key |
| `SkipListConcurrent.SearchIsExactAtItsLastLoad` | container/skiplist.h:296-356 | the node a lock-free search ends on is the right answer for the memory at its last load |
| `SkipListConcurrent.CallIsAnswered` | container/skiplist.h:296-367 | each of the three searches, called for with a query, answers that query for the memory of its last load |
| `SkipListConcurrent.ContainsIsExact` | container/skiplist.h:406-410 | a call of Contains for a key, whatever is interleaved with it, finds it exactly if it is in the list at the last load; so always if it was there at the call |
| `SkipListConcurrent.ScanMissesNothing` | container/skiplist.h:241-274 | a scan that has run off the end has stood on every key that was in the list in the state where it was started, from its bound on, whatever was inserted meanwhile |
| `SkipListConcurrent.ScanFindsOnlyKeys` | container/skiplist.h:241-274 | a scan only ever stands on keys that are in the list at that moment and not before its bound |
| `SkipListConcurrent.ScanAscends` | container/skiplist.h:241-274 | a scan never goes back to a smaller key |
| `SkipListConcurrent.InsertCompletes` | container/skiplist.h:370-404 | when an insert ends its node is linked on all its levels and its key is in the list |
| `SkipListConcurrent.InsertAddsItsKey` | container/skiplist.h:370-404 | over every run: an Insert(key) that has returned has added exactly that key to what was there at the call, and at no moment in between was any other set of keys in the list |
| `SkipListConcurrent.InsertedIsFound` | container/skiplist.h:370-410 | a key whose Insert returned before a Contains is called for is found by it |
| `SkipListConcurrent.WriterNeverStuck` | container/skiplist.h:370-404 | a writer inside an insert always has a next step |
| `SkipListConcurrent.LoadMakesProgress` | container/skiplist.h:296-356 | every load of a search ends it, goes down a level, or leaves fewer nodes ahead on the level |
| `UInt32Division.Log2` | base/uint32_divisor.cpp:40-50 | the floor of the base-2 logarithm, and 0 for 0 |
| `UInt32Division.OddPart` | base/uint32_divisor.cpp:74-81 | the loop splits the divisor into an odd number and a power of two |
| `UInt32Division.InitialMultipliers` | base/uint32_divisor.cpp:98-102 | the 64-bit computation yields the two quotients that bracket 2^(32+l)/t, without overflow |
| `UInt32Division.RoundUpExact` | base/uint32_divisor.h:52-57 | a multiplier within the round-up bracket divides every 32-bit number exactly |
| `UInt32Division.RoundDownExact` | base/uint32_divisor.h:58-66 | a multiplier within the round-down bracket, applied after adding one, divides every 32-bit number exactly |
| `UInt32Division.SearchRoundUp` | base/uint32_divisor.cpp:98-116 | the halving loop stops on a multiplier in the round-up bracket; if that does not fit in 32 bits, no halving happened and the remainder of 2^(32+s) is small |
| `UInt32Division.WideMultiplierMeansNoHalving` | base/uint32_divisor.cpp:98-116 | a 33-bit multiplier is only left when the loop never halved |
| `UInt32Division.NoHalvingMeansSmallRemainder` | base/uint32_divisor.cpp:119-129 | in that case the remainder of 2^(32+s) by t is positive and below t - 2^s |
| `UInt32Division.SmallRemainderRoundsDown` | base/uint32_divisor.cpp:119-129 | so the floor of 2^(32+s)/t is a round-down multiplier of 32 bits |
| `UInt32Division.SearchNearest` | base/uint32_divisor.cpp:119-129 | the second search yields that floor: its round-up arm is never taken |
| `UInt32Division.ReduceMultiplier` | base/uint32_divisor.cpp:131-136 | halving an even multiplier ends on an odd one, with the shift lowered by as much and never below 0 |
| `UInt32Division.ReductionKeepsQuotient` | base/uint32_divisor.cpp:131-136 | the reduced parameters give the same quotient for every dividend |
| `UInt32Division.SearchMultiplier` | base/uint32_divisor.cpp:92-129 | for every odd divisor of 31 bits or less the chosen algorithm and parameters give x / t for every 32-bit x |
| `UInt32Division.DetectAlgorithm` | base/uint32_divisor.cpp:60-141 | fails, changing nothing, exactly for 0; otherwise the parameters divide every 32-bit number exactly, and the multiplier is odd and the shift at most 31 wherever they are used |
| `UInt32Division.UInt32Divisor.SetValue` | base/uint32_divisor.cpp:30-38 | accepts exactly the non-zero divisors and leaves the object unchanged otherwise |
| `UInt32Division.UInt32Divisor.Divide` | base/uint32_divisor.h:48-77 | is x / d for every dividend, whichever algorithm was selected |
| `UInt32Division.UInt32Divisor.Modulu` | base/uint32_divisor.h:90-93 | is x % d for every dividend |
| `BlockingQueue.StepKeepsInv` | container/blocking_queue.h:35-284 | every thread step keeps mutual exclusion, the size bound and the wake-up accounting |
| `BlockingQueue.StepKeepsNoLostWakeup` | container/blocking_queue.h:35-247 | after any step, if a consumer is parked the elements do not outnumber the owed signals and the consumers that have been woken, and dually for the free slots unless a broadcast is owed |
| `BlockingQueue.SleepersAreJustified` | container/blocking_queue.h:35-247 | when nobody runs, is woken or owes a signal, every parked thread really cannot proceed |
| `BlockingQueue.NeverBothAsleep` | container/blocking_queue.h:35-247 | a parked producer and a parked consumer together mean that a notification is owed or a woken thread is on its way |
| `BlockingQueue.NoDeadlock` | container/blocking_queue.h:35-247 | as long as some thread is active, some step other than a new call or a spurious wake-up is possible |
| `BlockingQueue.EffectIsLegal` | container/blocking_queue.h:35-218 | the critical section of an operation does what the sequential bounded deque does, whose laws are stated from Conservation on |
| `BlockingQueue.FailureIsLegal` | container/blocking_queue.h:102-247 | an operation that gives up after a timeout does so on a queue on which the sequential deque would refuse it |
| `BlockingQueue.StepKeepsLinearized` | container/blocking_queue.h:35-284 | every step keeps the queue equal to the replay of the logged operations |
| `BlockingQueue.RunInvariant` | container/blocking_queue.h:35-284 | all of this holds in every state of every run |
| `BlockingQueue.NoLostWakeup` | container/blocking_queue.h:35-247 | in every reachable state: size at most max; parked consumers imply size at most owed signals plus woken consumers; parked producers without an owed broadcast imply free slots at most owed signals plus woken producers; never both parked with nothing owed and nobody woken |
| `BlockingQueue.LogGrows` | container/blocking_queue.h:35-284 | along every run the log of effects only grows |
| `BlockingQueue.CallIsKept` | container/blocking_queue.h:35-247 | from its call to its return a thread works on the operation it was called for |
| `BlockingQueue.OperationsLinearize` | container/blocking_queue.h:35-284 | in every run, between the move in which a thread is called for an operation and the state in which it returns, that very operation takes effect exactly once, with the result it returns; and the queue is the replay of the effects on a sequential deque |
| `BlockingQueue.FailsOnlyAfterWaiting` | container/blocking_queue.h:102-247 | an operation that gives up has been on its condition variable since it was called |
| `BlockingQueue.TimedWaitsOnce` | container/blocking_queue.h:102-247 | a timed operation that has been woken never waits again before it returns |
| `BlockingQueue.RealTimeOrder` | container/blocking_queue.h:35-284 | an operation that returns before another is called comes before it in the log |
| `BlockingQueue.Conservation` | container/blocking_queue.h:35-284 | in any legal log, the elements pushed are those popped, cleared or still queued, as multisets |
| `BlockingQueue.NoElementLost` | container/blocking_queue.h:35-284 | so in every reachable state no element is lost or duplicated, except by Clear |
| `BlockingQueue.FirstInFirstOut` | container/blocking_queue.h:51-79 | with only PushBack, PopFront and PopAll, elements leave in the order they came |
| `BlockingQueue.PopUndoesPush` | container/blocking_queue.h:35-96 | in every history an element just pushed is what a pop at the same end returns, and the two leave the queue as it was |
| `BlockingQueue.MirrorReplays` | container/blocking_queue.h:35-96 | a legal history with fronts and backs exchanged, and batches reversed, is legal and leaves the queue reversed; with FirstInFirstOut and PopUndoesPush this fixes what each of the four ends does |
| `BlockingQueue.NothingIsLeft` | container/blocking_queue.h:206-279 | right after Clear, and after a PopAll that returns, Size is 0 |
| `BlockingQueue.SizeIsTheBalance` | container/blocking_queue.h:251-255 | Size is what was pushed less what was popped and cleared |
| `BlockingQueue.BatchesAreNonempty` | container/blocking_queue.h:206-247 | PopAll and a successful TimedPopAll never return an empty batch |
| `StreamCompression.Fixed32RoundTrip` | compress/block/stream_compression.cc:138-147 | a 32-bit length reads back as written, whatever follows it |
| `StreamCompression.Segments` | compress/block/stream_compression.cc:35-74 | cutting the data loses nothing and yields pieces of 131072 bytes, the last of 1 to 131072 |
| `StreamCompression.FrameLayout` | compress/block/stream_compression.cc:58-64 | a frame is the raw length and the compressed length, each four bytes with weights 1 to 256^3, and the compressed bytes |
| `StreamCompression.CompressSegments` | compress/block/stream_compression.cc:46-66 | the loop succeeds exactly if every segment compresses, and yields their frames in order |
| `StreamCompression.UncompressPrefix` | compress/block/stream_compression.cc:107-136 | a decoded frame consumes its header and no more than the buffer; anything else is an error |
| `StreamCompression.StuckBecause` | compress/block/stream_compression.cc:107-136 | which error stands for what: too small below 8 bytes, header failure while the frame is incomplete, and for a complete one whether the codec refuses it or the length is another; otherwise it is decoded |
| `StreamCompression.UncompressSegments` | compress/block/stream_compression.cc:84-96 | the loop takes off the longest run of whole frames and stops where one cannot be decoded |
| `StreamCompression.StreamCompressor.constructor` | compress/block/stream_compression.cc:13-18 | an unregistered name gives the codec "none"; the buffer is empty |
| `StreamCompression.StreamCompressor.AddBuffer` | compress/block/stream_compression.cc:26-33 | appends to the buffer, except for the codec "none", where it stores nothing |
| `StreamCompression.StreamCompressor.Compress` | compress/block/stream_compression.cc:35-74 | appends the frames of the buffered data and empties the buffer, or fails and changes nothing |
| `StreamCompression.StreamCompressor.Uncompress` | compress/block/stream_compression.cc:76-105 | appends every whole segment and keeps the partial frame, or fails and changes nothing if there is none |
| `StreamCompression.WholeFrameDecodes` | compress/block/stream_compression.cc:107-136 | a buffer that starts with a frame yields exactly its segment and leaves the rest |
| `StreamCompression.PartialFrameWaits` | compress/block/stream_compression.cc:107-136 | no proper prefix of a frame is ever decoded |
| `StreamCompression.DrainFront` | compress/block/stream_compression.cc:76-105 | draining any prefix of a stream yields a prefix of its segments and leaves a buffer from which the rest can still be decoded |
| `StreamCompression.RunReceiver` | compress/block/stream_compression.cc:26-105 | an object driven through any feeds and drains ends with the buffer and the outputs that Receive computes, for every codec |
| `StreamCompression.NoneReceivesNothing` | compress/block/stream_compression.cc:26-82 | with the codec "none" nothing is ever buffered or handed out |
| `StreamCompression.FragmentationDoesNotMatter` | compress/block/stream_compression.cc:76-105 | for every codec and arbitrary bytes, in any pieces and with any attempts in between, a receiver that has just tried is where one drain of all the bytes would have left it |
| `StreamCompression.RefusedFrameBlocks` | compress/block/stream_compression.cc:125-133 | a frame that the codec refuses or whose length does not match is never consumed: it and all that follows stay in the buffer, whatever arrives later |
| `StreamCompression.ReceiverState` | compress/block/stream_compression.cc:76-136 | after any sequence of feeds and drains the output and the buffer stand exactly between two segments, or are both empty for the codec "none" |
| `StreamCompression.AnyFragmentationDecodes` | compress/block/stream_compression.cc:76-136 | for every codec that inverts itself and every fragmentation, the output is always a prefix of the data; once all is fed and drained the buffer is empty, and the output is the data exactly if the codec is not "none" or there is no data |
| `StreamCompression.RunSender` | compress/block/stream_compression.cc:26-74 | an object that compresses the pieces of data one by one emits the Stream of them, and fails exactly if Stream has none |
| `StreamCompression.StreamIsFrames` | compress/block/stream_compression.cc:35-74 | the outputs of successive Compress calls together are the frames of all the data, or nothing for the codec "none" |
| `StreamCompression.StreamRoundTrip` | compress/block/stream_compression.cc:35-136 | sender and receiver together: any writes, any fragmentation; what comes out is a prefix of what went in, and in the end all of it exactly if the codec is not "none" or nothing went in |
| `StreamCompression.NoneLosesAByte` | compress/block/stream_compression.cc:26-82 | an instance: one byte sent with the codec "none" never comes out |
| `Bitmap.MaskedBit` | container/bitmap.h:67-73 | masking the tail clears exactly the bits at and beyond the size |
| `Bitmap.DoLeftShift` | container/bitmap.cpp:153-175 | in place, every bit moves up by exactly the shift, zeros come in and the overflow is dropped |
| `Bitmap.DoRightShift` | container/bitmap.cpp:177-198 | in place, every bit moves down by exactly the shift and zeros come in |
| `Bitmap.DoAndWith` | container/bitmap.cpp:14-18 | every bit is the conjunction of the two, also when both are the same array |
| `Bitmap.DoOrWith` | container/bitmap.cpp:20-24 | every bit is the disjunction of the two |
| `Bitmap.DoXorWith` | container/bitmap.cpp:26-30 | every bit is the exclusive or of the two |
| `Bitmap.DoSetAll` | container/bitmap.cpp:32-37 | sets exactly the bits below the size |
| `Bitmap.DoSetAt` | container/bitmap.h:84-91 | sets one bit and changes no other |
| `Bitmap.DoClearAt` | container/bitmap.h:93-100 | clears one bit and changes no other |
| `Bitmap.DoFindFirst` | container/bitmap.cpp:200-213 | returns the lowest set bit, or reports that there is none |
| `Bitmap.DoFindNext` | container/bitmap.cpp:215-252 | returns the lowest set bit after the given one; after the largest 64-bit number the search starts over at 0 |
| `Bitmap.DoAllAreClearInRange` | container/bitmap.cpp:82-125 | is true exactly if no bit of the range is set |
| `Bitmap.DynamicBitmap.constructor` | container/bitmap.h:349-355 | a new bitmap has every bit equal to the initial value and zero padding |
| `Bitmap.DynamicBitmap.SetAt` | container/bitmap.h:84-100 | changes one position of the sequence of bits and keeps the padding zero |
| `Bitmap.DynamicBitmap.GetAt` | container/bitmap.h:75-82 | reads one position of the sequence of bits |
| `Bitmap.DynamicBitmap.LeftShift` | container/bitmap.h:219-223 | shifts the sequence of bits and keeps the padding zero |
| `Bitmap.DynamicBitmap.RightShift` | container/bitmap.h:226-230 | shifts the sequence of bits down and keeps the padding zero |
| `Bitmap.DynamicBitmap.AndWith` | container/bitmap.cpp:14-18 | is the pointwise conjunction of the two sequences and keeps the padding zero |
| `Bitmap.DynamicBitmap.OrWith` | container/bitmap.cpp:20-24 | is the pointwise disjunction and keeps the padding zero |
| `Bitmap.DynamicBitmap.XorWith` | container/bitmap.cpp:26-30 | is the pointwise exclusive or and keeps the padding zero |
| `Bitmap.DynamicBitmap.SetAll` | container/bitmap.cpp:32-37 | makes every position true and keeps the padding zero |
| `Bitmap.DynamicBitmap.FindFirst` | container/bitmap.cpp:200-213 | the lowest true position, or none |
| `Bitmap.DynamicBitmap.FindNext` | container/bitmap.cpp:215-252 | the lowest true position after the given one, or none |
| `Bitmap.DynamicBitmap.AllAreClearInRange` | container/bitmap.cpp:82-125 | true exactly if every position of the range is false |
| `Bitmap.DynamicBitmap.Resize` | container/bitmap.h:365-369 | keeps the words that fit; the zero-padding invariant survives exactly if no bit between the new size and the end of its last word was set |
| `Bitmap.ResizeLeavesABit` | container/bitmap.h:365-369 | an instance: two set bits resized to size 1 leave a bit in the padding |
| `Bitmap.SetPositionsExact` | container/bitmap.cpp:200-252 | the enumeration holds exactly the set positions |
| `Bitmap.SetPositionsAscend` | container/bitmap.cpp:200-252 | and lists them in ascending order |
| `Bitmap.FindNextEnumerates` | container/bitmap.cpp:200-252 | the lowest set position from a bound on is the head of the enumeration from that bound, and the enumeration after it is the tail |
| `Bitmap.Enumerate` | container/bitmap.cpp:200-252 | FindFirst and then FindNext after each hit yield exactly the set positions, in ascending order |
| `Digests.CounterAdds` | crypto/hash/sha1.cpp:193-197 | adding a length to the two-word bit counter with the carry test gives the counter of the longer message |
| `Digests.IndexFromCounter` | crypto/hash/sha1.cpp:186 | the buffer position computed from the counter is the message length modulo 64 |
| `Digests.Sha1Padding` | crypto/hash/sha1.cpp:212-224 | the padded message is a whole number of blocks, fewest possible: the message, 0x80, zeros, and eight bytes that with weights 256^7 down to 1 are the number of bits modulo 2^64 |
| `Digests.Md5Padding` | crypto/hash/md5.cpp:194-224 | the same with ascending weights |
| `Digests.PaddingIsInjective` | crypto/hash/sha1.cpp:212-224 | different messages below 2^61 bytes are padded to different blocks, for both |
| `Sha1.Sha1Context.constructor` | crypto/hash/sha1.cpp:166-174 | a new context has absorbed the empty message |
| `Sha1.Sha1Context.CompressBlocks` | crypto/hash/sha1.cpp:198-206 | the buffered block and then the whole blocks of the chunk are compressed in message order |
| `Sha1.Sha1Context.Update` | crypto/hash/sha1.cpp:182-209 | whatever the chunk boundaries, state, counter and buffer are those of the message with the chunk appended |
| `Sha1.Sha1Context.Pad` | crypto/hash/sha1.cpp:219-222 | the padding loop terminates after appending 0x80 and just enough zeros |
| `Sha1.Sha1Context.FinalInternal` | crypto/hash/sha1.cpp:212-227 | the final state is the compression function folded over the message padded as in section 4 of RFC 3174 |
| `Sha1.Digest` | crypto/hash/sha1.cpp:166-227 | for every split of a message into updates the final state is that of the padded whole message |
| `Md5.Md5Context.constructor` | crypto/hash/md5.cpp:129-136 | a new context has absorbed the empty message |
| `Md5.Md5Context.Update` | crypto/hash/md5.cpp:140-184 | state, counter and buffer are those of the message with the chunk, cut to its length modulo 2^32, appended |
| `Md5.Md5Context.FinalInternal` | crypto/hash/md5.cpp:194-230 | the final state is the compression function folded over the message padded as in sections 3.1 and 3.2 of RFC 1321 |
| `Md5.NothingSkipped` | crypto/hash/md5.cpp:140-184 | what a sequence of updates absorbs is the whole input exactly if every chunk is shorter than 2^32 bytes |
| `Md5.FourGigabytesAreSkipped` | crypto/hash/md5.cpp:140-184 | an instance: a chunk of 2^32 bytes is absorbed as nothing |
| `Md5.Digest` | crypto/hash/md5.cpp:129-230 | for every split into updates the final state is that of the padded absorbed message |
| `Crc32.InitTable` | hash/crc32.cpp:14-31 | entry i of the table is i after eight steps of the shift register |
| `Crc32.StepsXor` | hash/crc32.cpp:20-27 | stepping the register is linear over exclusive or |
| `Crc32.StepsAreFeeding` | hash/crc32.cpp:20-27 | stepping the exclusive or of register and input is feeding the input bit by bit |
| `Crc32.ByteStep` | hash/crc32.cpp:57 | one table look-up feeds the eight bits of a byte |
| `Crc32.FeedBytes` | hash/crc32.cpp:53-59 | the loop continues the register of the message so far over the new bytes |
| `Crc32.Crc32.Update` | hash/crc32.cpp:52-60 | after any updates the result is the checksum of their concatenation, as defined bit by bit (section 8 of RFC 1952) |
| `Crc32.Crc32.Final` | hash/crc32.cpp:62-64 | returns the checksum of everything absorbed |
| `Crc32.Residue` | hash/crc32.cpp:14-64 | every message followed by its own checksum, low-order byte first, has the checksum 0x2144DF1C |
| `Crc32.BurstErrorsAreDetected` | hash/crc32.cpp:14-60 | messages that differ only within 32 consecutive bits have different checksums |
| `Murmur.MurmurHash2` | hash/murmur/MurmurHash2.cpp:20-72 | the form with unaligned loads computes the specified hash for every byte string |
| `Murmur.MurmurHashNeutral2` | hash/murmur/MurmurHashNeutral2.cpp:12-57 | so does the form that assembles words from bytes |
| `Murmur.MurmurHashAligned2` | hash/murmur/MurmurHashAligned2.cpp:16-158 | so does the form with aligned loads, for every start alignment and length |
| `Murmur.AllThreeForms` | hash/murmur/MurmurHashAligned2.cpp:16-158 | the three forms agree for every byte string, seed and alignment |
| `Murmur.MurmurIsReversible` | hash/murmur/MurmurHash2.cpp:40-69 | mixing in a word is injective in the word and in the hash so far, and so are the steps after the last bytes and at the end |
| `Murmur.OneWordDecides` | hash/murmur/MurmurHash2.cpp:36-71 | strings of one length that differ in one aligned word only never have the same hash |
| `Murmur.KnownValue` | hash/murmur/MurmurHash2.cpp:25-71 | the bytes 1, 0, 0, 0, 1 with seed 1 hash to 0x22D5CB6C |
| `BloomFilter.BloomFilter.Initialize` | container/bloom_filter.cpp:140-184 | succeeds exactly for bit counts from 1 to 2^32 - 2 that memory allows, with no bit set; the other outcomes are told apart and leave the filter uninitialised |
| `BloomFilter.BloomFilter.Insert` | container/bloom_filter.cpp:192-209 | adds exactly the probes of the key to the set bits |
| `BloomFilter.AllFound` | container/bloom_filter.cpp:211-239 | all probes are found set one after the other exactly when they were all set before, even if some coincide |
| `BloomFilter.BloomFilter.InsertUnique` | container/bloom_filter.cpp:211-239 | inserts like Insert, and returns true exactly if MayContain was false before, or if there are 2^32 hash functions or more |
| `BloomFilter.InsertedTwice` | container/bloom_filter.cpp:211-239 | an instance: with 2^32 hash functions a key that is contained still counts as new |
| `BloomFilter.BloomFilter.MayContain` | container/bloom_filter.cpp:242-266 | is true exactly if all probes of the key are set, so for every key inserted since the last Clear |
| `BloomFilter.ProbesAreWords` | container/bloom_filter.cpp:197-205 | the bits of a key are the first words of its chain of digests modulo the number of bits, each digest made from the one before with the number of words so far as seed |
| `BloomFilter.OneKey` | container/bloom_filter.cpp:192-266 | with one key in an empty filter, another may be contained exactly if every word of its digests is, modulo the bits, a word of the first one's |
| `BloomFilter.BloomFilter.Clear` | container/bloom_filter.h:96-100 | no key is counted as inserted and no bit is set |
| `Arena.AddressesFit` | base/arena.cpp:65-70 | disjoint blocks of non-null memory cannot make the 64-bit byte count wrap |
| `Arena.SumOfSizes` | base/arena.cpp:65-70 | the number of addresses in disjoint blocks is the sum of their sizes |
| `Arena.Arena.constructor` | base/arena.cpp:15-19 | a new arena owns nothing and has handed out nothing |
| `Arena.Arena.AllocateNewBlock` | base/arena.cpp:65-70 | records the block and adds exactly its size to the byte count, or changes nothing if the heap has no room |
| `Arena.StartBlockAccounts` | base/arena.cpp:35-37 | when a short free tail is left behind all bytes stay accounted for, as handed out, wasted, padding or free |
| `Arena.Arena.AllocateFallback` | base/arena.cpp:27-43 | a large request gets a block of its own, leaves the free tail alone and wastes nothing; any other starts a block and wastes exactly the old tail, which is less than 1032 bytes; both keep all ranges handed out disjoint |
| `Arena.Arena.Allocate` | base/arena.h:53-65 | hands out a range inside one owned block, disjoint from all ranges handed out before and from the free tail, and moves the tail by exactly its size |
| `Arena.Arena.AllocateAligned` | base/arena.cpp:45-63 | the same, aligned to 8 if blocks are; the range lies in an owned block exactly if size plus slop does not wrap around to something the tail can serve |
| `Arena.WrappedRequest` | base/arena.cpp:45-63 | an instance of the wrap-around: after one byte, a request for 2^64 - 7 bytes gets a range no block holds |
| `LruCache.RunInvariant` | container/lru_cache.h:100-170 | after any run the cache holds at most its capacity of distinct keys, ordered by last use, each with the value last put |
| `LruCache.VictimIsLeastRecentlyUsed` | container/lru_cache.h:126-153 | a Put that loses another key does so from a full cache without the new key, loses the key least recently used by a hit or a value-changing Put, and keeps all others |
| `LruCache.Membership` | container/lru_cache.h:100-170 | Get changes no membership, Remove takes out exactly its key, Clear everything; Put leaves its key with its value exactly if the capacity is not 0, and adds no other |
| `LruCache.Refreshed` | container/lru_cache.h:101-153 | in a full cache a key just used by Get, or by a Put of another value, survives the next new key; after a Put of the same value only if it was not the last |
| `LruCache.HistoryDecides` | container/lru_cache.h:100-170 | for every run: a key is in the cache exactly if it was used after it was last removed and at no time since were there as many newer keys as there is room for; stated on the operations alone, without the list |
| `LruCache.IndexFinds` | container/lru_cache.h:103-104 | the index finds exactly the listed keys, at the node where a search of the list would find them |
| `LruCache.SpliceKeeps` | container/lru_cache.h:105-108 | moving a node to the front keeps list and index coherent |
| `LruCache.EraseKeeps` | container/lru_cache.h:156-163 | erasing a node and its index entry keeps list and index coherent |
| `LruCache.IndexSize` | container/lru_cache.h:148 | index and list have the same size |
| `LruCache.LruCache.Get` | container/lru_cache.h:101-113 | hits exactly the keys that the history of operations leaves in the cache and returns the value last put; list and index end up as the sequential cache |
| `LruCache.LruCache.Put` | container/lru_cache.h:126-153 | list and index end up as the sequential cache after the Put, also for an unchanged value; the key is then in the cache exactly if the capacity is not 0 |
| `LruCache.LruCache.InternalRemove` | container/lru_cache.h:156-163 | removes the key's entry and nothing else, and reports whether there was one |
| `LruCache.LruCache.Remove` | container/lru_cache.h:45-48 | reports whether the key was there, and it is not there any more |
| `LruCache.LruCache.Clear` | container/lru_cache.h:166-170 | leaves the cache empty |
| `LruCache.LruCache.HasKey` | container/lru_cache.h:50-53 | is membership, without counting as a use |
| `LruCache.LruCache.Size` | container/lru_cache.h:58-61 | is the number of keys, at most the capacity |
| `LongestCommonSubstring.RunIsLongest` | base/string/algorithm.cpp:561-572 | a common substring of length l ends at a pair of positions exactly if the run of equal characters there is at least l |
| `LongestCommonSubstring.Diagonal` | base/string/algorithm.cpp:554-572 | walking one diagonal leaves no longer common substring on it |
| `LongestCommonSubstring.SweepFirst` | base/string/algorithm.cpp:544-573 | the first sweep, with its early exit, leaves no longer common substring on the diagonals from the first string |
| `LongestCommonSubstring.SweepSecond` | base/string/algorithm.cpp:544-573 | the second sweep does the same for the other diagonals |
| `LongestCommonSubstring.LongestCommonSubstring` | base/string/algorithm.cpp:529-582 | the result occurs in both strings and no common substring is longer, on all of the strings if they are shorter than 2^31 and on what the casts leave of them otherwise; and it is the first of its length in sweep order |
| `LongestCommonSubstring.RightExactlyBelow` | base/string/algorithm.cpp:529-541 | for strings of two given lengths the result is always a longest common substring exactly if one length is 0 or both are below 2^31 |
| `LongestCommonSubstring.LongestWithItself` | base/string/algorithm.cpp:529-541 | for a string and itself it is exactly if the string is shorter than 2^31 |
| `LongestCommonSubstring.FirstOfTwoIsReturned` | base/string/algorithm.cpp:566 | an instance against the header: of "ab" and "acb" the first common character is returned, not the last |
| `Varint.UnsafeEncode64` | encoding/varint.cpp:50-58 | the loop writes the encoding: seven bits to a byte, the high bit set on all but the last |
| `Varint.UnsafeEncode32` | encoding/varint.cpp:17-42 | the five branches write the same bytes as the 64-bit loop |
| `Varint.EncodedLength` | encoding/varint.cpp:83-90 | is the exact number of bytes of the encoding, at most 10 |
| `Varint.EncodedSize` | encoding/varint.cpp:83-90 | an encoding takes at most k bytes exactly if the number has at most 7k bits |
| `Varint.EncodedSpells` | encoding/varint.cpp:17-58 | an encoding has the high bit on all bytes but the last, and its low seven bits with weights 1, 128, 128^2 and so on are the number |
| `Varint.ParseEncoded` | encoding/varint.cpp:92-136 | parsing an encoding followed by anything yields the number and stops at its end |
| `Varint.ParsedSpells` | encoding/varint.cpp:92-136 | parsing takes n bytes exactly if the n-th is the first without the high bit and within the limit, and returns what they spell |
| `Varint.ParsedIsCanonical` | encoding/varint.cpp:92-136 | the number that bytes spell encodes to the same bytes exactly if they are not padded with a final zero byte |
| `Varint.DecodedIsCanonical` | encoding/varint.cpp:92-136 | what a decoder returns does so exactly if, besides, the number spelled fits in its word |
| `Varint.Decoded32IsCanonical` | encoding/varint.cpp:92-107 | for 32 bits: exactly if there is no final zero byte and a fifth byte is below 16 |
| `Varint.Decoded64IsCanonical` | encoding/varint.cpp:121-136 | for 64 bits: exactly if there is no final zero byte and a tenth byte is below 2 |
| `Varint.SpilledBitsAreLost` | encoding/varint.cpp:92-136 | an instance for each: unpadded bytes that decode to a number with another encoding |
| `Varint.Decode` | encoding/varint.cpp:92-136 | the shift-and-or loop yields, for every input, the number its first bytes spell, modulo the word size, and fails exactly if none of them ends it |
| `Varint.Decode32` | encoding/varint.h:64-73 | with the one-byte fast path the result is that of five rounds in 32 bits |
| `Varint.Decode64` | encoding/varint.cpp:121-136 | the result is that of ten rounds in 64 bits |
| `Varint.RoundTrip32` | encoding/varint.cpp:17-107 | every 32-bit number decodes from its encoding, whatever follows, in at most 5 bytes |
| `Varint.RoundTrip64` | encoding/varint.cpp:50-136 | every 64-bit number decodes from its encoding, whatever follows, in at most 10 bytes |
| `Varint.PutLengthPrefixed` | encoding/varint.cpp:78-81 | appends the encoded length, cut to 32 bits, and the string |
| `Varint.GetLengthPrefixed` | encoding/varint.cpp:163-172 | reads one string off the front of the input; on failure the input is unchanged, or lacks just the length if only the string was too short |
| `Varint.StringRoundTrip` | encoding/varint.cpp:78-172 | a string reads back, with the rest of the buffer left over, exactly if it is shorter than 2^32 bytes |
| `Varint.LongStringIsCut` | encoding/varint.cpp:78-172 | an instance: a string of 2^32 bytes reads back as the empty one |
| `Varint.ListRoundTrip` | encoding/varint.cpp:78-172 | a list of strings, written one after the other, parses back to the same list exactly if every one is shorter than 2^32 bytes |

## Left out

- Skip-list keys are integers: only the order of the comparator matters. `RandomHeight` is a parameter; memory is sequentially consistent, so weak-memory effects and the barriers are not modelled.
- Inserting a key that is already in the skip list: the source forbids it with an assertion.
- Mutex and condition variable implementations and wall-clock time: a timeout is a step that may happen at any moment. `IsEmpty` and `IsFull` of the queue only read the size.
- The throwing constructor of `UInt32Divisor` and `Divide` on an object that was never given a divisor.
- Block codecs: any pair of functions stands for one; the round trip asks that the codec invert itself and that a compressed block stay below 2^32 bytes. Of the codec factory only what an unregistered name leads to is modelled.
- DoLeftShift: shifts by more than all the words, and any shift of an empty bitmap, write outside the word array in the source and are excluded.
- DoRightShift: shifts by all the words or more write outside the word array in the source and are excluded.
- DoAllAreClearInRange: empty and inverted ranges are excluded; an empty one always starts and ends in one word, and the source shifts by a whole word there, which C++ leaves undefined.
- DynamicBitmap.AllAreClearInRange: empty and inverted ranges are excluded for the same reason.
- The other bitmap queries (`AllAreSet`, `AllAreClear`, `IsSubsetOf`, string parsing) and the fixed-size bitmap would only add easier members of the same kind.
- The compression functions of SHA-1 and MD5 are arbitrary functions; the in-place scrambling of its input by the one of SHA-1, the byte order of the printed digest and `MD5::Final()` as a `UInt128` are not modelled.
- Sha1.Sha1Context.Update: asks that the buffered bytes and the size of the chunk add up to less than 2^64; beyond that the source's own sum wraps around.
- Sha1.Digest: asks the same of every chunk.
- Big-endian machines, for the three forms of MurmurHash2, and the other hash functions.
- The hash inside the Bloom filter is any function; sizing by floating-point formulas, false-positive rates, caller-provided bitmaps, the inline-assembly form of test-and-set and `PartialBloomFilter` are not modelled.
- What `new char[n]` returns is a parameter of the arena's operations: null, or memory apart from the blocks owned. The destructor and `MemoryUsage` are not modelled.
- Allocate: asks for a positive size, as its assertion does.
- LRU keys and values are integers: only their equality matters. The lock is not modelled; the header says the cache is not thread safe.
- `Encode32` and `Encode64` with a limit, and the pointer form of reading a length-prefixed string, add a comparison to what is modelled.
- Everything else in the repository: wrappers around other libraries, templates and type traits, string formatting, files, networking, threads, registries and generated code.
