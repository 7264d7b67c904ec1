# Verified models of five systems-lab programs

This project models five C programs of the repository and proves what they are for. Programs that change
memory step by step are classes and methods over arrays, linked nodes and mutable fields. Each method is
proved against a function on values, and the theorems are about those functions.

**Segregated-list allocator** (`Memlib`, `SegHeap`, `SegOps`, `SegMalloc`, `SegWords`, `ReallocWords`, `Mm`).
`Memlib.Memory` is the 20 MB region behind `mem_sbrk`, an array of 32-bit words. `Mm.Allocator` is
`mm-2017-19651.c` on that array: every header, footer, list link and table entry is a word written where
the program writes it. `SegHeap.Heap` is the abstract heap: blocks by payload address, the block before each
address, and 24 lists. `SegWords.Stored` ties the words to the heap, `SegHeap.Inv` is the invariant: the blocks
tile the heap, sizes are multiples of 8 and at least 16, no two free blocks touch, and the free blocks are
exactly the members of the acyclic lists of their classes. Every public method keeps both and never changes a
word of a payload it does not own.

**The trace driver** (`RangeList`, `TraceClient`, `Packing`, `Mdriver`). `eval_mm_valid` and `eval_mm_util` run
on the modelled allocator. The verdict of the first is characterised exactly, for every well-formed trace.

**Cache simulator** (`Lru`, `CacheTrace`, `Csim`). The counter-based simulator counts what recency lists count;
the stack property, the reuse-distance theorem and inclusion are proved of the lists, hence of the program.

**Blocked transposes** (`Trans`). All four transposes over two-dimensional arrays, with an uninitialised flag
that carries garbage until it is assigned.

**Buffered reader and number printer** (`Streams`, `Rio`, `Sio`). The reader delivers the stream under every
schedule of short, interrupted and failing reads. Printed numbers read back.

**Allocation tracer** (`MemList`, `Memtrace`) and **proxy cache** (`Headers`, `CachePolicy`, `Visits`, `Proxy`). Linked
lists that keep a run-long ledger: bytes allocated, freed and live in one, volume and last use in the other.

Five findings about the code are part of the model:

- The loop of `add_seglist` that looks like a sort never advances, because what the class loop leaves of the
  size is below 4 while blocks have at least 16 bytes. Lists are last-in first-out and two of the four linking
  branches are dead (`Mm.Allocator.Seek`, `Mm.Allocator.AddSeglist`).
- `find_fit` reads slot 24, one word past the table. The word is the alignment padding, which is 0, so the read
  finds nothing (`Mm.Allocator.FindFit`).
- The data check of `eval_mm_valid` compares a plain char with a value up to 255. With a signed char it rejects
  every reallocation of an id whose low byte is 128 or more, whatever the allocator does, so the verdict is 1
  exactly when no request runs out of memory and no such id is reallocated (`Mdriver.Driver.EvalMmValid`,
  `Mdriver.RejectedTrace`).
- The proxy's header list is global and never cleared, and the cache key takes the first Host header in it. So
  every key carries the host of the very first connection, and hosts that share a path share a cache entry
  (`Visits.OneHost`, `Visits.SharedEntry`, `Visits.TwoHosts`).
- Above 2^32 - 16 bytes the size sum of `mm_malloc` wraps, and any block it then hands out is too small
  (`SegMalloc.MallocExact`).

## Model

| member | source | states |
|---|---|---|
| Memlib.Memory.constructor | malloclab/src/memlib.c:25-35 | an empty heap at an aligned base with room for 20 MB |
| Memlib.Memory.ResetBrk | malloclab/src/memlib.c:48-51 | the heap is empty again |
| Memlib.Memory.Sbrk | malloclab/src/memlib.c:58-69 | -1 and no change exactly for a negative increment or one past the limit, else the old break; the heap never shrinks |
| SegHeap.TilesExactly | malloclab/src/mm-2017-19651.c:79-98 | in a tiled heap every address between prologue and epilogue lies in exactly one block |
| SegMalloc.AdjustedSizeFits | malloclab/src/mm-2017-19651.c:115-119 | the rounded block holds the request plus its tags if and only if the request is at most 2^32 - 16, where the 32-bit sum wraps |
| SegMalloc.ClassBounds | malloclab/src/mm-2017-19651.c:426-431 | a block of n bytes is in class min(23, floor(log2 n)) |
| SegMalloc.FindFitIs | malloclab/src/mm-2017-19651.c:346-367 | the search answers NULL if and only if no free block fits or the request is 2^24 or more; otherwise the first fitting block of the lowest list that has one |
| SegMalloc.PlaceInv | malloclab/src/mm-2017-19651.c:372-401 | both split directions and the unsplit case keep the invariant and hand out one fresh payload from inside the free block |
| SegMalloc.PlaceExact | malloclab/src/mm-2017-19651.c:372-401 | a remainder below 16 bytes stays with the block; requests of up to 200 bytes get the back of the free block, larger ones its front; the other part stays one free block and no other block changes |
| SegMalloc.ExtendInv | malloclab/src/mm-2017-19651.c:272-292 | fails exactly when the region is exhausted, and then changes nothing; else the heap grows, keeps its payloads and gains a free block of at least the size asked |
| SegMalloc.MallocInv | malloclab/src/mm-2017-19651.c:105-132 | the invariant holds afterwards; NULL exactly when nothing fits and the heap cannot grow; else one fresh payload of at least the size, all others as before; the heap grows exactly when no free block fits |
| SegMalloc.MallocExact | malloclab/src/mm-2017-19651.c:105-132 | what `SegMalloc.MallocInv` says holds of a request if and only if its size does not wrap at 32 bits or nothing is free and the heap cannot grow; otherwise the block is too small |
| SegMalloc.FreeInv | malloclab/src/mm-2017-19651.c:141-152 | exactly the payload freed disappears and the invariant holds |
| SegMalloc.FreedIsReused | malloclab/src/mm-2017-19651.c:105-152 | a request that the block just freed fits, to within 16 bytes and in its class, gets that block, and the heap with all its lists is what it was before the free |
| SegMalloc.TrimInv | malloclab/src/mm-2017-19651.c:248-256 | splitting off a tail of more than 8 bytes keeps the invariant and every other payload |
| SegMalloc.ReallocInv | malloclab/src/mm-2017-19651.c:157-266 | on every exit the new payload has room for the size, with at most a rounding to spare, and replaces only the old one; a refusal changes nothing |
| SegMalloc.ReallocExact | malloclab/src/mm-2017-19651.c:170-262 | the payload stays among its block and the free neighbours if and only if these have room, and then where it starts, how much it holds and that the heap does not grow; otherwise it moves, or is refused if and only if nothing fits and the heap cannot grow |
| SegMalloc.FreeNeighbours | malloclab/src/mm-2017-19651.c:190-204 | the bytes counted for a neighbour are those of the free block that ends where the payload block starts, or starts where it ends, and 0 if and only if there is none |
| SegMalloc.ReallocEdges | malloclab/src/mm-2017-19651.c:162-170 | NULL is a malloc; size 0 frees exactly the payload and answers its old address |
| SegOps.CoalesceInv | malloclab/src/mm-2017-19651.c:299-341 | all four cases restore "no two free blocks touch" around the block just freed, and clients see no difference |
| SegOps.UnlinkCommutes | malloclab/src/mm-2017-19651.c:330-332 | the order in which case 4 takes the two neighbours off their lists does not matter |
| SegWords.PushStored | malloclab/src/mm-2017-19651.c:441-459 | the link words written make the block the head of its list, keep all links mutually inverse and touch no payload |
| SegWords.UnlinkStored | malloclab/src/mm-2017-19651.c:481-491 | the link words written take the block out of its list, keep all links mutually inverse and touch no payload |
| SegWords.GrowStored | malloclab/src/mm-2017-19651.c:282-285 | header, footer and new epilogue represent the grown heap |
| Mm.Allocator.ClassLoop | malloclab/src/mm-2017-19651.c:426-431 | computes the class and leaves less than 4 of the size |
| Mm.Allocator.Seek | malloclab/src/mm-2017-19651.c:433-439 | stops at the first block of the list at least as large as the size it is given; given less than 16 it stops at the head |
| Mm.Allocator.LinkBlock | malloclab/src/mm-2017-19651.c:441-459 | the link words for every pair of neighbours, in all four branches |
| Mm.Allocator.AddSeglist | malloclab/src/mm-2017-19651.c:420-460 | the words become those of the heap with the block at the head of its list: the scan leaves no predecessor, so two branches are dead; no payload word changes |
| Mm.Allocator.RemoveSeglist | malloclab/src/mm-2017-19651.c:465-492 | the words become those of the heap with the block off its list; no payload word changes |
| Mm.Allocator.Coalesce | malloclab/src/mm-2017-19651.c:299-341 | the words become those of the coalesced heap and the result is the merged block |
| Mm.Allocator.FindFit | malloclab/src/mm-2017-19651.c:346-367 | the shifting recursion, including the read of slot 24, finds what the abstract search finds |
| Mm.Allocator.Place | malloclab/src/mm-2017-19651.c:372-401 | the words become those of the heap after placement; no payload word changes |
| Mm.Allocator.ExtendHeap | malloclab/src/mm-2017-19651.c:272-292 | the words become those of the heap extended by the number of words rounded up to even; no payload word changes |
| Mm.Allocator.InitSeglist | malloclab/src/mm-2017-19651.c:406-415 | all 24 table entries are empty |
| Mm.Allocator.Init | malloclab/src/mm-2017-19651.c:79-98 | from an empty region it establishes the invariant with no live payload and succeeds |
| Mm.Allocator.Malloc | malloclab/src/mm-2017-19651.c:105-132 | keeps words and invariant; the result is fresh, aligned and large enough, or NULL; no word of any live payload changes |
| Mm.Allocator.Free | malloclab/src/mm-2017-19651.c:141-152 | keeps words and invariant; no word of any other payload changes |
| Mm.Allocator.FinishRealloc | malloclab/src/mm-2017-19651.c:248-256 | the remainder after an in-place exit becomes a coalesced free block |
| Mm.Allocator.GrowIntoPrev | malloclab/src/mm-2017-19651.c:208-218 | the payload moves down into the merged block word by word intact, other payloads stay |
| Mm.Allocator.GrowIntoNext | malloclab/src/mm-2017-19651.c:219-229 | the payload stays where it is in the merged block, other payloads stay |
| Mm.Allocator.GrowIntoBoth | malloclab/src/mm-2017-19651.c:233-244 | the payload moves down into the block merged from three, other payloads stay |
| Mm.Allocator.GrowBlock | malloclab/src/mm-2017-19651.c:193-263 | whichever exit grows the block, contents and other payloads are kept; the combined merge never follows a single one |
| Mm.PrevMerged | malloclab/src/mm-2017-19651.c:231 | after a merge with the previous block the header read again says allocated, so the combined merge cannot follow |
| Mm.NextMerged | malloclab/src/mm-2017-19651.c:231 | after a merge with the next block the previous header still says allocated, so the combined merge cannot follow |
| Mm.Allocator.CopyPayload | malloclab/src/mm-2017-19651.c:261 | copying 8 bytes more than the old capacity stays inside the new payload, and the two ranges do not overlap |
| Mm.Allocator.Realloc | malloclab/src/mm-2017-19651.c:157-266 | on every exit the first min(old, new capacity) bytes are the old ones, all other payloads are unchanged and the invariant holds |
| Mm.Allocator.Check | malloclab/src/mm-2017-19651.c:497-559 | on a heap that is sound but for the contents of block footers it terminates and returns -1 if and only if some footer disagrees with its header |
| RangeList.Ranges.Clear | malloclab/src/mdriver.c:455-465 | no range is left |
| RangeList.Ranges.Add | malloclab/src/mdriver.c:382-430 | accepts exactly the aligned in-heap ranges that pass its overlap test, and then records them |
| RangeList.Ranges.Remove | malloclab/src/mdriver.c:435-450 | the first range that starts at the address is dropped, the rest stay |
| RangeList.ClashIsOverlap | malloclab/src/mdriver.c:410-411 | the test finds an overlap with a recorded range unless the new range strictly encloses it, and never finds one that is not there |
| RangeList.AcceptedExactly | malloclab/src/mdriver.c:388-418 | a payload is accepted if and only if it is aligned to 8 bytes, inside the heap, and every recorded range is apart from it or strictly enclosed by it |
| RangeList.EnclosingRangeIsAccepted | malloclab/src/mdriver.c:409-417 | a concrete enclosing range that the test lets through |
| TraceClient.FreshIsAcceptable | malloclab/src/mdriver.c:391-417 | a payload fresh in a valid heap is never rejected |
| TraceClient.LiveBounds | malloclab/src/mdriver.c:391-406 | every live payload is 8-aligned and lies inside the heap |
| TraceClient.MovedBytes | malloclab/src/mdriver.c:649-662 | the bytes a client wrote before a reallocation are there after it |
| Mdriver.Driver.DataPreserved | malloclab/src/mdriver.c:654-662 | the data check passes on preserved bytes if and only if the low byte of the id is below 128 |
| Mdriver.Driver.Start | malloclab/src/mdriver.c:588-596 | reset and mm_init leave a valid empty heap and no ranges |
| Mdriver.Driver.DoAlloc | malloclab/src/mdriver.c:605-631 | succeeds exactly when the allocator does, and keeps the client's records true |
| Mdriver.Driver.DoRealloc | malloclab/src/mdriver.c:633-668 | succeeds exactly when the allocator does and the id is below 128 in its low byte, and keeps the client's records true |
| Mdriver.Driver.DoFree | malloclab/src/mdriver.c:670-676 | keeps the client's records true |
| Mdriver.Driver.EvalMmValid | malloclab/src/mdriver.c:578-686 | for every well-formed trace the verdict is 1 if and only if no request runs out of memory and no reallocated id has a low byte of 128 or more; memory suffices when the rounded requests fit the region all together |
| Mdriver.Driver.EvalMmUtil | malloclab/src/mdriver.c:699-779 | the numerator is the high-water mark of live requested bytes, the denominator the heap size the requests leave the allocator with; the first is at most the second, so utilisation is at most 1 |
| Mdriver.HighWaterIs | malloclab/src/mdriver.c:716-757 | no total of live requested sizes after any number of requests is above the high-water mark, and one of them reaches it |
| Mdriver.SizesRequested | malloclab/src/mdriver.c:716-772 | an id counts with n bytes if and only if its last request, not a free, asked for n |
| Mdriver.TraceSize | malloclab/src/mdriver.c:778 | the heap is at most the initial 176 bytes and the rounded requests |
| Mdriver.FirstMalloc | malloclab/src/mm-2017-19651.c:80-132 | the first 16 bytes after mm_init are at byte 152, in the back of the 64 initial ones |
| Mdriver.HundredBytes | malloclab/src/mdriver.c:708-778 | a trace that allocates 100 bytes runs, with high-water mark 100 and a heap of 4272 bytes |
| Mdriver.StepGood | malloclab/src/mdriver.c:603-680 | one request keeps the heap valid and the ids tied to the live payloads, and is refused only when memory runs out |
| Mdriver.RunGood | malloclab/src/mdriver.c:598-682 | so does every well-formed trace |
| Mdriver.FreshGood | malloclab/src/mdriver.c:588-596 | after mm_init the heap is valid and no payload is live |
| Mdriver.TraceGood | malloclab/src/mdriver.c:588-682 | after mm_init and every well-formed trace the heap is valid and the ids own the live payloads one to one |
| Mdriver.TraceFits | malloclab/src/mdriver.c:598-682 | a trace whose requests, each rounded up to a block or the growth step, fit the 20 MB region all together never runs out of memory |
| Mdriver.RejectedTrace | malloclab/src/mdriver.c:654-662 | a well-formed trace of two requests that the allocator serves and the verdict rejects |
| Packing.PackedSum | malloclab/src/mdriver.c:690-696 | disjoint blocks together are no longer than the range that holds them |
| Lru.LruIsTopOfStack | cachelab/csim.c:56-109 | stack property: a set of E lines holds the E most recently used tags |
| Lru.Inclusion | cachelab/csim.c:56-109 | what E lines hold, E + 1 lines hold |
| Lru.ReuseDistance | cachelab/csim.c:56-109 | a tag is held if and only if fewer than E other tags were used since its last use |
| CacheTrace.SameBlock | cachelab/csim.c:56-57 | two addresses share set and tag if and only if they share the address shifted by b |
| CacheTrace.AddressParts | cachelab/csim.c:56-57 | the low b bits of an address are the offset in its block, the next s bits the set and the rest the tag |
| CacheTrace.SetsAreIndependent | cachelab/csim.c:52-57 | each set is the recency list of its own accesses |
| CacheTrace.HitsByReuseDistance | cachelab/csim.c:52-109 | in every trace an access hits if and only if its block was accessed before and fewer than E other blocks of its set were accessed since |
| CacheTrace.CountsBalance | cachelab/csim.c:50-109 | hits plus misses count every access once and modifies twice; misses minus evictions are the valid lines, at most E times 2^s |
| CacheTrace.CountsAre | cachelab/csim.c:50-109 | the misses are the loads, stores and modifies whose block is not held, the hits are the others and one more for every modify |
| CacheTrace.LinesCounted | cachelab/csim.c:50-54 | in a trace of I, L, S and M lines hits plus misses are the loads, the stores and twice the modifies |
| CacheTrace.WiderHoldsMore | cachelab/csim.c:65-109 | after every trace the contents with E ways are part of those with E + 1 |
| CacheTrace.WiderCounts | cachelab/csim.c:65-109 | with more ways hits never decrease, misses and evictions never increase |
| Csim.HitIsTouch | cachelab/csim.c:69-83 | ageing the lines and restarting the hit one moves its tag to the front of the recency list |
| Csim.FillIsTouch | cachelab/csim.c:87-97 | filling the first invalid line puts its tag at the front |
| Csim.EvictIsTouch | cachelab/csim.c:100-104 | the line with the largest counter is the least recently used, and replacing it puts the new tag at the front |
| Csim.Simulator.constructor | cachelab/csim.c:123-131 | 2^s rows of E lines, standing for empty recency lists |
| Csim.Simulator.VisitLines | cachelab/csim.c:65-98 | the loop ages a prefix of valid lines, finds the tag if it is there, fills the first invalid line on a miss, and names the oldest line |
| Csim.Simulator.Access | cachelab/csim.c:52-109 | one access of the program is one access of the recency lists, totals included |
| Csim.Simulator.Run | cachelab/csim.c:50-111 | for every trace the contents and the printed totals are those of the recency lists; the misses are the accesses whose block is not held, the hits the others and one more for every modify |
| Trans.Scan | cachelab/trans.c:56-67 | B is the transpose of A, for every shape |
| Trans.CopyBlock | cachelab/trans.c:76-89 | one block is transposed, nothing else in B changes, and the delayed diagonal write lands in its own cell; the flag is assigned before it is read |
| Trans.Trans32x32 | cachelab/trans.c:69-92 | B is the transpose of A for all multiples of 8 |
| Trans.Park | cachelab/trans.c:118-129 | the top right quadrant of A waits, transposed, in the top right quadrant of B |
| Trans.Unpark | cachelab/trans.c:131-156 | what was parked reaches the bottom left before it is overwritten |
| Trans.FourQuadrants | cachelab/trans.c:102-172 | one 8 by 8 block is transposed and nothing else in B changes |
| Trans.Trans64x64 | cachelab/trans.c:94-175 | B is the transpose of A for every square size that is a multiple of 8 |
| Trans.Trans61x67 | cachelab/trans.c:177-189 | B is the transpose of A for every shape, ragged blocks included |
| Trans.TransposeSubmit | cachelab/trans.c:31-45 | widths 32, 61 and 64 are transposed, any other leaves B alone |
| Trans.IsTranspose | cachelab/trans.c:212-224 | answers 1 if and only if B is the transpose of A |
| Streams.LineEnds | proxylab/csapp.c:860-883 | a line runs through its first newline, or to the cap, or to the end of the stream |
| Streams.PiecesPartition | proxylab/csapp.c:838-883 | the pieces handed out and the rest are the stream: nothing lost, repeated or reordered |
| Streams.PieceIs | proxylab/csapp.c:838-883 | each piece has the bytes asked for, or is a line that runs through its first newline or is cut at maxlen - 1 bytes; it is shorter only at the end of the stream |
| Rio.Reader.constructor | proxylab/csapp.c:826-831 | an empty buffer: all of the stream is undelivered |
| Rio.Reader.Refill | proxylab/csapp.c:798-809 | however read behaves, buffered plus unread bytes stay the same |
| Rio.Reader.ReadSome | proxylab/csapp.c:794-819 | the next bytes of the stream, none only at its end, -1 only when read failed |
| Rio.Reader.ReadNb | proxylab/csapp.c:838-853 | exactly the next min(n, remaining) bytes under every schedule without a failed read; after a failure up to n bytes are gone |
| Rio.Reader.ReadLineb | proxylab/csapp.c:860-883 | exactly the next line, capped at maxlen - 1, terminated unless the stream is at its end; maxlen 0 reads nothing and still terminates |
| Rio.Serve | proxylab/csapp.c:838-883 | any interleaving of both readers gets the consecutive pieces of the stream |
| Sio.RoundTrip | proxylab/csapp.c:235-244 | printing in any base from 2 to 36 and reading back gives the number if and only if it is not negative |
| Sio.NoLeadingZero | proxylab/csapp.c:239-241 | no superfluous leading zero, and every character is a digit of the base |
| Sio.NumeralLength | proxylab/csapp.c:265-271 | a number of k bits needs at most k characters, so a long fits the 128 of its caller |
| Sio.SmallNumerals | proxylab/csapp.c:235-244 | 0, 2018 and ff as the program prints them, and that -5 in base 10 comes out as a plus sign |
| Sio.ReverseInPlace | proxylab/csapp.c:223-232 | the string before the terminator is reversed, the rest stays |
| Sio.Ltoa | proxylab/csapp.c:235-244 | the array holds the numeral and its terminator |
| MemList.PutLookup | linklab/handout/utils/memlist.c:54-90 | setting one address is seen there and nowhere else |
| MemList.PutSorted | linklab/handout/utils/memlist.c:66-87 | the list stays strictly sorted by address |
| MemList.List.constructor | linklab/handout/utils/memlist.c:17-41 | only the dummy head |
| MemList.List.Alloc | linklab/handout/utils/memlist.c:54-90 | a known address is counted once more and takes the new size, a new one is inserted in order |
| MemList.List.Dealloc | linklab/handout/utils/memlist.c:92-108 | a known address is counted once less, nothing else changes |
| MemList.List.Find | linklab/handout/utils/memlist.c:110-121 | the item of the address if and only if it is listed, although the search stops early |
| Memtrace.LedgerBalances | linklab/handout/part3/memtrace.c:27-32 | in every run the bytes allocated are those the calls asked for, and minus the bytes freed they are the sizes of the live blocks and of the requests answered with NULL |
| Memtrace.RequestsCounted | linklab/handout/part3/memtrace.c:46-98 | the calls counted are the requests of the run, and NULL counts those answered with it |
| Memtrace.HistoryOf | linklab/handout/part3/memtrace.c:107-130 | an address is known if and only if some call handed it out, and live if and only if nothing took it back since |
| Memtrace.SizeOf | linklab/handout/part3/memtrace.c:35-104 | a block is live if and only if some call handed it out and no later one handed it out or took it back, and its size is what that call asked for, the product for a calloc |
| Memtrace.FreeLogged | linklab/handout/part3/memtrace.c:107-130 | after any run a free logs a double free if and only if some call handed the pointer out and it is not live, an illegal free if and only if none did, and frees exactly the size of a live block |
| Memtrace.ReportsLive | linklab/handout/part3/memtrace.c:164-173 | the report lists a block if and only if it is live, and NULL if it was ever answered, with the number of times |
| Memtrace.Tracer.constructor | linklab/handout/part3/memtrace.c:136-147 | the ledger of a run without calls |
| Memtrace.Tracer.Malloc | linklab/handout/part3/memtrace.c:35-53 | the list and the totals follow the ledger, for a NULL answer too; the call is logged |
| Memtrace.Tracer.Calloc | linklab/handout/part3/memtrace.c:55-73 | the list and the totals follow the ledger, for a NULL answer too; the bytes allocated grow by the product and a block handed out has that size |
| Memtrace.Tracer.Realloc | linklab/handout/part3/memtrace.c:87-104 | for a live block, moved, kept or answered with NULL, the list and the totals follow the ledger |
| Memtrace.Tracer.Free | linklab/handout/part3/memtrace.c:107-130 | the list and the totals follow the ledger; logs a double free exactly for known addresses that are not live and an illegal free exactly for unknown ones |
| Memtrace.Tracer.Fini | linklab/handout/part3/memtrace.c:153-179 | reports the totals, their average per call and exactly the blocks not freed in address order |
| Memtrace.Tracer.Trace | linklab/handout/part3/memtrace.c:35-130 | after every run the tracer's state is the ledger of the run |
| CachePolicy.KeptIntact | proxylab/proxy.c:430-433 | a stored response is the response whatever the memory held before if and only if it has no NUL before its last byte |
| CachePolicy.RoomMade | proxylab/proxy.c:273-278 | after the evictions the response fits |
| CachePolicy.EvictionIsNeeded | proxylab/proxy.c:273-278 | with the last victim still in, it would not have fitted |
| CachePolicy.EvictedAreOldest | proxylab/proxy.c:174-187 | nothing evicted was used later than anything kept |
| CachePolicy.RunInvariant | proxylab/proxy.c:131-203 | after every run the volume is at most 1049000, keys are unique, each time is that of the key's last request, and each entry is what was stored of an earlier response |
| CachePolicy.Transparent | proxylab/proxy.c:131-152 | if earlier requests under a key always had the same response, without inner NULs, the answer is that response |
| CachePolicy.VictimIsLeastRecent | proxylab/proxy.c:174-187 | with a strictly increasing clock the victim is the entry whose key was requested longest ago |
| Headers.FirstStays | proxylab/proxy.c:332-357 | what is appended later never replaces a header that is there |
| Headers.HeaderAfter | proxylab/proxy.c:293-344 | after a request a lookup gives the first such header there ever was, else the request's own, else the default of that name |
| Headers.HostAfter | proxylab/proxy.c:293-302 | after a request the first Host header is the one there was before, else the request's own, else the host of its request line |
| Headers.HeaderList.InsertHeader | proxylab/proxy.c:347-357 | the header is appended |
| Headers.HeaderList.GetHeaderByKey | proxylab/proxy.c:333-344 | the first header with the name, or none |
| Headers.HeaderList.InitHeader | proxylab/proxy.c:293-330 | exactly the missing defaults are appended |
| Headers.HeaderList.ClientHandler | proxylab/proxy.c:111-128 | the request's headers and the missing defaults are appended to the one list, which then has a Host header |
| Visits.OneHost | proxylab/proxy.c:141-144 | in every run all cache keys carry the host of the first visit |
| Visits.SharedEntry | proxylab/proxy.c:131-144 | two visits share a cache entry if and only if they ask for the same path, whatever their hosts |
| Visits.ClientSeesServer | proxylab/proxy.c:141-152 | the client gets its server's response when all visits to that path had the same response, without inner NULs |
| Visits.NextVisit | proxylab/proxy.c:141-152 | after the first visit to a path with a cachable response, the next visit to it gets what was stored of that response, so its own if and only if the two agree |
| Visits.TwoHosts | proxylab/proxy.c:141-152 | two hosts with the same path: the second client gets the first host's response |
| Proxy.SafeStrncpy | proxylab/proxy.c:430-433 | copies up to a NUL or n bytes and terminates, up to n + 1 bytes in all; the rest stays |
| Proxy.Cache.constructor | proxylab/proxy.c:90-97 | only the dummy head, volume 0 |
| Proxy.Cache.SearchCache | proxylab/proxy.c:131-138 | the first item with the key, or none |
| Proxy.Cache.CreateCache | proxylab/proxy.c:155-165 | one blank item at the end of the list |
| Proxy.Cache.UpdateTime | proxylab/proxy.c:168-171 | only that item's time changes |
| Proxy.Cache.LRU | proxylab/proxy.c:174-187 | the first item with the smallest access time |
| Proxy.Cache.DeleteCache | proxylab/proxy.c:190-203 | exactly that item leaves and the volume follows |
| Proxy.Cache.Evict | proxylab/proxy.c:273-278 | the loop ends, never asks an empty list for a victim, and removes exactly the victims of the policy |
| Proxy.Relay | proxylab/proxy.c:255-270 | the client gets the whole response; it is cachable if and only if it is at most 102400 bytes, and then the buffer agrees with it up to its first NUL |
| Proxy.Cache.SendRequest | proxylab/proxy.c:255-287 | the client gets the whole response and the cache inserts it when it is cachable |
| Proxy.Cache.ServerHandler | proxylab/proxy.c:141-152 | looks up the first Host header there is; a hit replays the stored bytes and renews the time, a miss asks the server; the cache changes as the policy says |
| Proxy.Cache.Replay | proxylab/proxy.c:145-149 | the stored bytes are sent and only the time of the item changes |
| Proxy.Cache.ServeOne | proxylab/proxy.c:100-108 | one connection: its headers join the list, then it is answered |
| Proxy.Cache.ServeAll | proxylab/proxy.c:65-152 | every answer of a sequential run, the cache and the header list after it are those of the specification |

## Left out

Allocator and driver:

- Mm.Allocator.Malloc: the words in memory are followed for requests up to 2^32 - 16 bytes; above that the block handed out is too small, as `SegMalloc.MallocExact` shows on the abstract heap, and the tags written for it overlap other blocks.
- Mm.Allocator.Realloc: stated for the same request sizes, and for NULL or a live payload, as the C library demands.
- Mm.Allocator.ExtendHeap: stated for 3 words or more, the least that hold a block with its tags and links, and below 2^30 - 1 words, where the byte count would pass the 32-bit size type; the program asks for 16 or at least 1024.
- Memlib.Memory.constructor: the base address is taken to be a nonzero multiple of 8 with the region below 2^32; the C library does not promise that its `malloc` answer fits 32 bits.
- Memlib.Memory: every access of the allocator is to an aligned word; bytes are parts of words, least significant first.
- Sortedness or best fit of the lists, and completeness of `find_fit` at or above 2^24: the code does not provide them.
- Mm.Allocator.Check: the messages it prints, and what it would return on a heap damaged elsewhere than in its footers; line 535 reads the link word of a free block, not its header, and on a valid heap finds an even address there.
- RangeList.Ranges.Add: its messages; allocation of its records never fails.
- Mdriver.Driver.EvalMmValid: plain char is taken as signed; request sizes are C ints.
- Mdriver.Driver.EvalMmUtil: states the two integers whose quotient is returned, not the floating-point division.
- `eval_mm_speed`, trace file parsing, timing and result printing: input, output and floating point.

Cache simulator and transposes:

- Csim.Simulator.constructor: lines start invalid; the program takes them from `malloc` and does not clear them.
- Csim.Simulator.Run: counters and totals are unbounded, there is at least one line per set (with none the program indexes past its row).
- Command-line parsing, trace file syntax and the printed summary of `csim.c`.
- CacheTrace.SameBlock: addresses are unbounded naturals, so shift counts of 64 and more do not arise.
- Trans.TransposeSubmit: stated for the shapes on which the chosen transpose stays inside the matrices.
- Miss counts of the transposes.

Reader, printer, tracer, proxy:

- Rio.Reader.ReadNb: byte counts are unbounded, not `ssize_t`.
- Unbuffered `rio_readn` and `rio_writen`: an easier version of the buffered loops.
- Sio.Ltoa: numbers are unbounded; the bound of a long enters only through `Sio.NumeralLength`.
- Memtrace.Tracer.Realloc: the branches for unknown and freed pointers call the interposed realloc with NULL and re-enter themselves without end; the model requires a live pointer.
- Memtrace.Tracer.Malloc: the real allocator's answer is a parameter, NULL or an address that is not live; totals and the product of `calloc` do not wrap.
- Memtrace.HistoryOf: live is what the tracer believes; it books the old block of a realloc answered with NULL as freed, although the real allocator keeps it.
- Looking up the real functions, and the text of the log; `free_list`.
- Proxy.SaveResponse: a response without NUL is terminated one byte beyond the memory the program allocates; the model's arrays have one more cell for that byte, and what lies there is not modelled.
- Proxy.Cache.ServerHandler: paths are not empty, so the dummy head never matches; keys are whole strings, not fixed-size buffers; what the server sends and how its socket behaves are parameters; a failed read ends the process in its wrapper and is excluded.
- Headers.HeaderList: a sequence that the methods reassign, in place of linked nodes.
- Parsing of request lines and headers (a visit brings the parsed ones), sockets, and the unsynchronised threads of the proxy: requests are handled one after the other.
- `tsh.c`, the kernel modules, the naive `mm.c`, and parts 1 and 2 of the tracer.
