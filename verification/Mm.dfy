/** The allocator of mm-2017-19651.c over real memory words. Each method is proved to do to the
    words what the operation of SegMalloc does to the abstract heap. */
module Mm {
  import opened Basics
  import opened Memlib
  import opened SegHeap
  import opened SegOps
  import opened SegMalloc
  import opened SegWords
  import opened ReallocWords

  const WSIZE: int := 4
  const DSIZE: int := 8

  class Allocator {
    const mem: Memory
    var heapPtr: int
    var segListPtr: int
    /** The heap the words represent. */
    ghost var h: Heap

    constructor (m: Memory)
      ensures mem == m
    {
      mem := m;
      heapPtr, segListPtr := 0, 0;
      h := Heap(0, 0, 0, map[], map[], []);
    }

    ghost predicate Ties()
      reads this, mem, mem.cells
    {
      && mem.Valid()
      && h.lo == mem.start + TABLE && h.hi == mem.brk && h.limit == mem.start + MAX_HEAP <= 0x1_0000_0000
      && 0 < segListPtr == mem.start && heapPtr == h.lo - DSIZE
    }

    /** The words of memory are those of heap h. */
    ghost predicate Rep()
      reads this, mem, mem.cells
    {
      Ties() && Stored(mem.words, h)
    }

    ghost predicate Valid()
      reads this, mem, mem.cells
    {
      Rep() && Inv(h)
    }

    // -------------------------------------------------------------- tag access

    /** GET_SIZE */
    method GetSize(p: int) returns (n: int)
      requires mem.Valid() && p in mem.words
      ensures n == SizeOf(mem.words[p]) && 0 <= n
    {
      var v := mem.Get(p);
      n := v / 8 * 8;
    }

    /** GET_ALLOC */
    method GetAlloc(p: int) returns (b: int)
      requires mem.Valid() && p in mem.words
      ensures b == AllocOf(mem.words[p])
    {
      var v := mem.Get(p);
      b := v % 2;
    }

    // -------------------------------------------------------------- free lists

    /** The scan of add_seglist for the place of a block of `blk_size` bytes: it stops at the
        first block of the list that is at least as large. */
    method Seek(k: nat, blkSize: int, ghost limbo: set<int>) returns (prev: int, curr: int, ghost i: nat)
      requires Rep() && LooseInv(h, limbo) && k < SEG_SIZE && |h.lists| == SEG_SIZE
      ensures
        var s := h.lists[k];
        && i <= |s| && curr == Head(s[i..]) && prev == Newer(s, i)
        && (forall j :: 0 <= j < i ==> SizeAt(h, s[j]) < blkSize)
        && (i < |s| ==> blkSize <= SizeAt(h, s[i]))
      ensures curr == FirstFit(h, h.lists[k], blkSize)
      ensures blkSize < 16 ==> prev == 0
    {
      hide Stored, LooseInv, Memory.Valid;
      ghost var s := h.lists[k];
      prev := 0;
      i := 0;
      ListMapped(mem.words, h, k);
      curr := mem.Get(segListPtr + WSIZE * k);
      while curr != 0
        invariant i <= |s| && curr == Head(s[i..]) && prev == Newer(s, i)
        invariant forall j :: 0 <= j < i ==> SizeAt(h, s[j]) < blkSize
        invariant FirstFit(h, s, blkSize) == FirstFit(h, s[i..], blkSize)
        invariant blkSize < 16 ==> i == 0
        decreases |s| - i
      {
        ListNode(mem.words, h, limbo, k, i);
        assert s[i..][1..] == s[i + 1..];
        var n := GetSize(curr - WSIZE);
        if blkSize <= n { break; }
        prev := curr;
        curr := mem.Get(curr);
        i := i + 1;
      }
      if i < |s| { ListNode(mem.words, h, limbo, k, i); }
    }

    /** The shift loop of add_seglist and remove_seglist: the class of `size`, and what the shifts
        leave of `size`. */
    method ClassLoop(size: int) returns (index: nat, rest: int)
      requires 1 <= size < 0x200_0000
      ensures index == Class(size) && 1 <= rest < 4
    {
      SmallPowers();
      index, rest := 0, size;
      while index < SEG_SIZE - 1 && rest > 1
        invariant index <= SEG_SIZE - 1 && rest >= 1
        invariant index + FloorLog2(rest) == FloorLog2(size)
        invariant rest < Pow2(25 - index)
        decreases SEG_SIZE - index
      {
        rest := rest / 2;
        index := index + 1;
      }
    }

    /** The four ways in which add_seglist links a block between its two neighbours. */
    method LinkBlock(t: int, prev: int, curr: int, bp: int)
      requires mem.Valid() && 0 < bp < 0x1_0000_0000 && 0 <= curr < 0x1_0000_0000 && 0 <= prev < 0x1_0000_0000
      requires t in mem.words && bp in mem.words && bp + WSIZE in mem.words
      requires (curr != 0 ==> curr + WSIZE in mem.words) && (prev != 0 ==> prev in mem.words)
      modifies mem`words, mem.cells
      ensures mem.Valid() && mem.words == LinkWords(old(mem.words), t, prev, curr, bp)
    {
      hide Memory.Valid;
      if curr != 0 && prev != 0 {
        mem.Put(prev, bp);
        mem.Put(bp + WSIZE, prev);
        mem.Put(bp, curr);
        mem.Put(curr + WSIZE, bp);
      } else if curr != 0 && prev == 0 {
        mem.Put(curr + WSIZE, bp);
        mem.Put(bp, curr);
        mem.Put(bp + WSIZE, 0);
        mem.Put(t, bp);
      } else if curr == 0 && prev != 0 {
        mem.Put(bp + WSIZE, prev);
        mem.Put(prev, bp);
        mem.Put(bp, 0);
      } else {
        mem.Put(bp + WSIZE, 0);
        mem.Put(bp, 0);
        mem.Put(t, bp);
      }
    }

    /** add_seglist: what the shifts leave of the size is below 4, so the scan stops at once and
        the block always becomes the head of its list. */
    method AddSeglist(bp: int, size: int, ghost limbo: set<int>)
      requires Rep() && LooseInv(h, limbo) && FreeBlock(h, bp) && bp in limbo && size == h.blk[bp].size
      modifies this`h, mem`words, mem.cells
      ensures Rep() && h == Push(old(h), bp)
      ensures Kept(old(mem.words), mem.words, Live(old(h)))
    {
      hide LooseInv, Stored, Kept, Live, Class, Memory.Valid, PushWords, LinkWords;
      BlockFacts(mem.words, h, limbo, bp);
      var index, blkSize := ClassLoop(size);
      if h.lists[index] != [] { ListNode(mem.words, h, limbo, index, 0); }
      ListMapped(mem.words, h, index);
      var prev, curr, i := Seek(index, blkSize, limbo);
      var t := segListPtr + WSIZE * index;
      assert prev == 0;  // the scan never advances
      LinkBlock(t, prev, curr, bp);
      LinkedFirst(old(mem.words), t, curr, bp);
      PushStored(old(mem.words), mem.words, h, limbo, bp);
      h := Push(h, bp);
    }

    /** remove_seglist */
    method RemoveSeglist(bp: int, ghost limbo: set<int>)
      requires Rep() && LooseInv(h, limbo) && FreeBlock(h, bp) && bp !in limbo
      modifies this`h, mem`words, mem.cells
      ensures Rep() && h == Unlink(old(h), bp)
      ensures Kept(old(mem.words), mem.words, Live(old(h)))
    {
      hide LooseInv, Stored, Kept, Live, Class, Memory.Valid;
      BlockFacts(mem.words, h, limbo, bp);
      ghost var c := Class(h.blk[bp].size);
      ghost var i := EnlistedAt(mem.words, h, limbo, bp);
      var prev := mem.Get(bp);
      var next := mem.Get(bp + WSIZE);
      var size := GetSize(bp - WSIZE);
      var index, rest := ClassLoop(size);
      var t := segListPtr + WSIZE * index;
      ListMapped(mem.words, h, index);
      if next == 0 {
        mem.Put(t, prev);
        var listPtr := mem.Get(t);
        if listPtr != 0 {
          mem.Put(listPtr + WSIZE, 0);
        }
      } else {
        mem.Put(next, prev);
        if prev != 0 {
          mem.Put(prev + WSIZE, next);
        }
      }
      UnlinkStored(old(mem.words), mem.words, h, limbo, bp);
      h := Unlink(h, bp);
    }

    // -------------------------------------------------------------- coalescing

    /** NEXT_BLKP */
    method NextBlkp(bp: int) returns (r: int)
      requires mem.Valid() && bp - WSIZE in mem.words
      ensures r == bp + SizeOf(mem.words[bp - WSIZE])
    {
      var n := GetSize(bp - WSIZE);
      r := bp + n;
    }

    /** PREV_BLKP */
    method PrevBlkp(bp: int) returns (r: int)
      requires mem.Valid() && bp - DSIZE in mem.words
      ensures r == bp - SizeOf(mem.words[bp - DSIZE])
    {
      var n := GetSize(bp - DSIZE);
      r := bp - n;
    }

    /** FTRP */
    method Ftrp(bp: int) returns (r: int)
      requires mem.Valid() && bp - WSIZE in mem.words
      ensures r == bp + SizeOf(mem.words[bp - WSIZE]) - DSIZE
    {
      var n := GetSize(bp - WSIZE);
      r := bp + n - DSIZE;
    }

    /** coalesce, case 2: the next block is free. */
    method CoalesceNext(bp: int, size0: int) returns (size: int)
      requires Rep() && LooseInv(h, {bp}) && FreeBlock(h, bp) && NextFree(h, bp) && size0 == h.blk[bp].size
      modifies this`h, mem`words, mem.cells
      ensures Rep() && h == AbsorbNext(old(h), bp) && LooseInv(h, {bp})
      ensures Kept(old(mem.words), mem.words, Live(old(h)))
      ensures FreeBlock(h, bp) && size == h.blk[bp].size
    {
      hide LooseInv, Stored, Kept, Live, Class, Memory.Valid, Unlink, Tag, SizeOf, AllocOf, Pack, AbsorbNext;
      ghost var next0 := bp + h.blk[bp].size;
      BlockFacts(mem.words, h, {bp}, bp);
      BlockFacts(mem.words, h, {bp}, next0);
      var next := NextBlkp(bp);
      var n := GetSize(next - WSIZE);
      size := size0 + n;
      TagReads(size, false);
      UnlinkKeepsBlocks(h, next);
      RemoveSeglist(next, {bp});
      ghost var w1 := mem.words;
      TagsMapped(w1, h, bp);
      TagsMapped(w1, h, next);
      mem.Put(bp - WSIZE, Pack(size, false));
      var f := Ftrp(bp);
      mem.Put(f, Pack(size, false));
      AbsorbNextStored(old(mem.words), w1, mem.words, old(h), {bp}, bp);
      FreeNotLive(old(h), bp);
      h := AbsorbNext(old(h), bp);
    }

    /** coalesce, case 3: the previous block is free. */
    method CoalescePrev(bp: int, size0: int) returns (p: int, size: int)
      requires Rep() && LooseInv(h, {bp}) && FreeBlock(h, bp) && PrevFree(h, bp) && size0 == h.blk[bp].size
      modifies this`h, mem`words, mem.cells
      ensures Rep() && h == AbsorbIntoPrev(old(h), bp) && p == old(h).prev[bp] && LooseInv(h, {p})
      ensures Kept(old(mem.words), mem.words, Live(old(h)))
      ensures FreeBlock(h, p) && size == h.blk[p].size
    {
      hide LooseInv, Stored, Kept, Live, Class, Memory.Valid, Unlink, Tag, SizeOf, AllocOf, Pack, AbsorbIntoPrev;
      ghost var h0 := h;
      PrevIs(h, {bp}, bp);
      TagWords(mem.words, h, h0, {bp}, h.prev[bp]);
      p := PrevBlkp(bp);
      UnlinkKeepsBlocks(h, p);
      RemoveSeglist(p, {bp});
      ghost var w1 := mem.words;
      TagWords(w1, h, h0, {bp}, p);
      TagWords(w1, h, h0, {bp}, bp);
      var n := GetSize(p - WSIZE);
      size := size0 + n;
      TagReads(size, false);
      FooterFirst(w1, p, size, false);
      var f := Ftrp(bp);
      mem.Put(f, Pack(size, false));
      var q := PrevBlkp(bp);
      mem.Put(q - WSIZE, Pack(size, false));
      AbsorbIntoPrevStored(old(mem.words), w1, mem.words, h0, {bp}, bp, p);
      assert {bp} + {p} - {bp} == {p};
      h := AbsorbIntoPrev(h0, bp);
    }

    /** Two removals in a row. */
    method RemoveBoth(x: int, y: int, ghost limbo: set<int>)
      requires Rep() && LooseInv(h, limbo) && x != y
      requires FreeBlock(h, x) && x !in limbo && FreeBlock(h, y) && y !in limbo
      modifies this`h, mem`words, mem.cells
      ensures Rep() && h == Unlink(Unlink(old(h), x), y) && h.blk == old(h).blk
      ensures Kept(old(mem.words), mem.words, Live(old(h)))
    {
      hide LooseInv, Stored, Kept, Live, Memory.Valid, Unlink;
      ghost var h0, w0 := h, mem.words;
      UnlinkTwice(h, limbo, x, y);
      UnlinkKeepsBlocks(h, x);
      RemoveSeglist(x, limbo);
      ghost var w1 := mem.words;
      UnlinkKeepsBlocks(h, y);
      RemoveSeglist(y, limbo + {x});
      KeptBoth(w0, w1, mem.words, Live(h0));
    }

    /** Header of the block before bp and footer of the block after it. */
    method PutOuterTags(bp: int, size: int, ghost k: int, ghost m: int, ghost n: int) returns (p: int)
      requires mem.Valid() && 16 <= k && 16 <= m && 16 <= n && size == m + k + n && size % 8 == 0
      requires size < 0x1_0000_0000
      requires Reads(mem.words, bp - DSIZE, m, false) && Reads(mem.words, bp - WSIZE, k, false)
      requires Reads(mem.words, bp + k - WSIZE, n, false)
      requires bp - m - WSIZE in mem.words && bp + k + n - DSIZE in mem.words
      modifies mem`words, mem.cells
      ensures mem.Valid() && p == bp - m && mem.words == SetTags(old(mem.words), p, size, false)
    {
      TagReads(size, false);
      p := PrevBlkp(bp);
      mem.Put(p - WSIZE, Pack(size, false));
      var next := NextBlkp(bp);
      var f := Ftrp(next);
      mem.Put(f, Pack(size, false));
    }

    /** coalesce, case 4: both neighbours are free. */
    method CoalesceBoth(bp: int, size0: int) returns (p: int, size: int)
      requires Rep() && LooseInv(h, {bp}) && FreeBlock(h, bp) && PrevFree(h, bp) && NextFree(h, bp)
      requires size0 == h.blk[bp].size
      modifies this`h, mem`words, mem.cells
      ensures Rep() && h == Fuse(old(h), bp) && p == old(h).prev[bp] && LooseInv(h, {p})
      ensures Kept(old(mem.words), mem.words, Live(old(h)))
      ensures FreeBlock(h, p) && size == h.blk[p].size
    {
      hide LooseInv, Stored, Kept, Live, Class, Memory.Valid, Unlink, Tag, SizeOf, AllocOf, Pack, Fuse, PrevOk;
      ghost var h0, w0 := h, mem.words;
      ghost var b := bp + h.blk[bp].size;
      Surround(h, {bp}, bp);
      TagWords(mem.words, h, h0, {bp}, bp);
      TagWords(mem.words, h, h0, {bp}, h.prev[bp]);
      TagWords(mem.words, h, h0, {bp}, b);
      p := PrevBlkp(bp);
      var m := GetSize(p - WSIZE);
      var next := NextBlkp(bp);
      var f := Ftrp(next);
      var n := GetSize(f);
      size := size0 + m + n;
      TagReads(size, false);
      RemoveBoth(p, next, {bp});
      ghost var w2 := mem.words;
      TagWords(w2, h, h0, {bp}, p);
      TagWords(w2, h, h0, {bp}, bp);
      TagWords(w2, h, h0, {bp}, b);
      p := PutOuterTags(bp, size, h0.blk[bp].size, m, n);
      FuseStored(w0, w2, mem.words, h0, bp, p, b);
      h := Fuse(h0, bp);
    }

    /** coalesce */
    method Coalesce(bp0: int) returns (bp: int)
      requires Rep() && LooseInv(h, {}) && FreeBlock(h, bp0)
      modifies this`h, mem`words, mem.cells
      ensures Rep() && (h, bp) == SegOps.Coalesce(old(h), bp0)
      ensures Kept(old(mem.words), mem.words, Live(old(h)))
    {
      hide LooseInv, Stored, Kept, Live, Class, Memory.Valid, Push, Unlink, SizeOf, AllocOf, Fuse, AbsorbNext,
        AbsorbIntoPrev;
      ghost var h0, w0 := h, mem.words;
      bp := bp0;
      Neighbours(mem.words, h, bp);
      var prev := PrevBlkp(bp);
      var prevAlloc := GetAlloc(prev - WSIZE);
      var next := NextBlkp(bp);
      var nextAlloc := GetAlloc(next - WSIZE);
      var size := GetSize(bp - WSIZE);
      if prevAlloc != 0 && nextAlloc != 0 {
        KeptSame(w0, Live(h0));
        return;
      }
      UnlinkLoose(h, {}, bp);
      UnlinkKeepsBlocks(h, bp);
      RemoveSeglist(bp, {});
      ghost var h1, w1 := h, mem.words;
      assert {} + {bp} == {bp};
      CoalesceIs(h0, h1, bp);
      if prevAlloc != 0 && nextAlloc == 0 {
        size := CoalesceNext(bp, size);
      } else if prevAlloc == 0 && nextAlloc != 0 {
        bp, size := CoalescePrev(bp, size);
      } else {
        bp, size := CoalesceBoth(bp, size);
      }
      ghost var h2, w2 := h, mem.words;
      KeptBoth(w0, w1, w2, Live(h0));
      FuseLive(h1, bp0);
      AddSeglist(bp, size, {bp});
      KeptBoth(w0, w2, mem.words, Live(h0));
    }

    // -------------------------------------------------------------- place

    /** PUT(HDRP(bp), ...) and PUT(FTRP(bp), ...) */
    method PutTags(bp: int, size: int, alloc: bool)
      requires mem.Valid() && size % 8 == 0 && 16 <= size < 0x1_0000_0000 - 1
      requires bp - WSIZE in mem.words && bp + size - DSIZE in mem.words
      modifies mem`words, mem.cells
      ensures mem.Valid() && mem.words == SetTags(old(mem.words), bp, size, alloc)
      ensures mem.words.Keys == old(mem.words).Keys && Reads(mem.words, bp - WSIZE, size, alloc)
    {
      TagReads(size, alloc);
      mem.Put(bp - WSIZE, Pack(size, alloc));
      var f := Ftrp(bp);
      mem.Put(f, Pack(size, alloc));
    }

    /** place, when the rest goes to the free lists: the front or the back part is handed out. */
    method Cut(bp: int, n: int, m: int, front: bool) returns (nbp: int)
      requires Rep() && LooseInv(h, {bp}) && FreeBlock(h, bp) && n % 8 == 0 && m % 8 == 0
      requires n + m == h.blk[bp].size && 16 <= n && 16 <= m && 0 <= bp && n + m + bp <= h.limit
      modifies this`h, mem`words, mem.cells
      ensures Rep() && nbp == bp + n
      ensures h == if front then Push(CutFront(old(h), bp, n), bp + n) else Push(CutBack(old(h), bp, n), bp)
      ensures Kept(old(mem.words), mem.words, Live(old(h)))
    {
      hide LooseInv, Stored, Kept, Live, Memory.Valid, Push, SizeOf, AllocOf, SetTags, CutFront, CutBack;
      ghost var h1, w1 := h, mem.words;
      CutMapped(w1, h1, {bp}, bp, n);
      PutTags(bp, n, front);
      nbp := NextBlkp(bp);
      PutTags(nbp, m, !front);
      CutStored(w1, mem.words, h1, bp, n, front);
      h := if front then CutFront(h1, bp, n) else CutBack(h1, bp, n);
      ghost var h2, w2 := h, mem.words;
      if front {
        AddSeglist(nbp, m, {bp + n});
      } else {
        AddSeglist(bp, n, {bp});
      }
      LiveWithin(Live(h1));
      KeptTrans(w1, w2, mem.words, Live(h1), Live(h2), Live(h1));
    }

    /** place */
    method Place(bp: int, asize: int) returns (r: int)
      requires Valid() && FreeBlock(h, bp) && asize % 8 == 0 && 16 <= asize <= h.blk[bp].size
      modifies this`h, mem`words, mem.cells
      ensures Rep() && (h, r) == SegMalloc.Place(old(h), bp, asize)
      ensures Kept(old(mem.words), mem.words, Live(old(h)))
    {
      hide LooseInv, Inv, Stored, Kept, Live, Memory.Valid, Push, Unlink, SizeOf, AllocOf, SetTags, SetAlloc,
        CutFront, CutBack;
      ghost var h0, w0 := h, mem.words;
      PlacePremises(mem.words, h, bp, asize);
      var csize := GetSize(bp - WSIZE);
      var padding := csize - asize;
      UnlinkKeepsBlocks(h, bp);
      RemoveSeglist(bp, {});
      ghost var h1, w1 := h, mem.words;
      if padding < 2 * DSIZE {
        TagsMapped(w1, h1, bp);
        PutTags(bp, csize, true);
        SetAllocStored(w1, mem.words, h1, {bp}, bp, true);
        FreeNotLive(h1, bp);
        h := SetAlloc(h1, bp, true);
        r := bp;
      } else if asize > MINSIZE {
        var _ := Cut(bp, asize, padding, true);
        r := bp;
      } else {
        r := Cut(bp, padding, asize, false);
      }
      KeptBoth(w0, w1, mem.words, Live(h0));
    }

    // -------------------------------------------------------------- find_fit

    /** find_fit: halving csize once per list, it starts to look at list floor(log2 asize). It also
        reads slot 24, one past the table, which is the zero padding word. */
    method FindFit(asize: int, csize: int, index: nat) returns (r: int)
      requires Valid() && index <= SEG_SIZE + 1
      ensures r == FindFrom(h, index + FloorLog2(csize), asize)
      decreases SEG_SIZE + 1 - index
    {
      hide LooseInv, Stored, Memory.Valid, Inv;
      InvIsLoose(h);
      if index > SEG_SIZE {
        return 0;
      }
      TableSlots(mem.words, h);
      var segPtr := mem.Get(segListPtr + WSIZE * index);
      if index < SEG_SIZE && h.lists[index] != [] { ListNode(mem.words, h, {}, index, 0); }
      if csize <= 1 && segPtr != 0 {
        ghost var s := h.lists[index];
        ghost var i: nat := 0;
        while segPtr != 0
          invariant i <= |s| && segPtr == Head(s[i..])
          invariant FirstFit(h, s, asize) == FirstFit(h, s[i..], asize)
          decreases |s| - i
        {
          if i < |s| { ListNode(mem.words, h, {}, index, i); }
          var n := GetSize(segPtr - WSIZE);
          if asize <= n { break; }
          segPtr := mem.Get(segPtr);
          assert s[i..][1..] == s[i + 1..];
          i := i + 1;
        }
        if i < |s| { ListNode(mem.words, h, {}, index, i); }
        if segPtr != 0 {
          return segPtr;
        }
      }
      r := FindFit(asize, csize / 2, index + 1);
    }

    // -------------------------------------------------------------- extend_heap

    /** A size_t passed where C expects an int. */
    function ToInt(n: int): int {
      if n < 0x8000_0000 then n else n - 0x1_0000_0000
    }

    /** Header, footer and the new epilogue header. */
    method TagNewBlock(bp: int, size: int)
      requires mem.Valid() && size % 8 == 0 && 16 <= size < 0x1_0000_0000 - 1
      requires bp - WSIZE in mem.words && bp + size - DSIZE in mem.words && bp + size - WSIZE in mem.words
      modifies mem`words, mem.cells
      ensures mem.Valid() && mem.words == GrowWords(old(mem.words), bp, size)
    {
      hide Memory.Valid;
      PutTags(bp, size, false);
      var next := NextBlkp(bp);
      mem.Put(next - WSIZE, Pack(0, true));
    }

    /** extend_heap: the number of words is rounded up to even */
    method ExtendHeap(words: int) returns (r: int)
      requires Valid() && 3 <= words < 0x3FFF_FFFF
      modifies this`h, mem`brk, mem`words, mem.cells
      ensures Rep() && (h, r) == Extend(old(h), 4 * EvenUp(words))
      ensures Kept(old(mem.words), mem.words, Live(old(h)))
    {
      hide LooseInv, Inv, Stored, Kept, Live, Memory.Valid, Push, SegOps.Coalesce, Grow, GrowWords;
      var size := if words % 2 != 0 then (words + 1) * WSIZE else words * WSIZE;
      EvenWords(words);
      ghost var h0, w0 := h, mem.words;
      InvIsLoose(h);
      var bp := mem.Sbrk(ToInt(size));
      if bp == -1 {
        KeptSame(w0, Live(h0));
        return 0;
      }
      GrowthMapped(w0, h0, size);
      TagNewBlock(bp, size);
      GrowStored(w0, mem.words, h0, size);
      GrowFacts(h0, size);
      h := Grow(h0, size);
      ghost var h1, w1 := h, mem.words;
      AddSeglist(bp, size, {bp});
      KeptBoth(w0, w1, mem.words, Live(h0));
      ghost var h2, w2 := h, mem.words;
      r := Coalesce(bp);
      KeptBoth(w0, w2, mem.words, Live(h0));
    }

    // -------------------------------------------------------------- mm_malloc and mm_free

    /** mm_malloc */
    method Malloc(size: int) returns (r: int)
      requires Valid() && 0 <= size <= TWO32 - 16
      modifies this`h, mem`brk, mem`words, mem.cells
      ensures Valid() && (h, r) == SegMalloc.Malloc(old(h), size)
      ensures Kept(old(mem.words), mem.words, Live(old(h)))
      ensures if size == 0 then r == 0 && h == old(h) else Allocated(old(h), size, h, r)
    {
      hide LooseInv, Inv, Stored, Kept, Live, Memory.Valid, SegMalloc.Place, Extend, SegMalloc.FindFit, Allocated;
      ghost var h0, w0 := h, mem.words;
      if size <= 0 {
        KeptSame(w0, Live(h0));
        return 0;
      }
      AdjustedSizeFits(size);
      var asize := if size <= 2 * DSIZE then 3 * DSIZE else Align((size + DSIZE) % TWO32);
      MallocInv(h0, size);
      MallocSteps(h0, asize);
      var bp := FindFit(asize, asize, 0);
      if bp != 0 {
        r := Place(bp, asize);
        return;
      }
      var extendsize := Max(asize, DCHUNKSIZE);
      WordsOf(extendsize);
      bp := ExtendHeap(extendsize / WSIZE);
      if bp == 0 {
        return 0;
      }
      ghost var h1, w1 := h, mem.words;
      r := Place(bp, asize);
      KeptBoth(w0, w1, mem.words, Live(h0));
    }

    /** mm_free */
    method Free(bp: int)
      requires Valid() && bp in Live(h)
      modifies this`h, mem`words, mem.cells
      ensures Valid() && h == SegMalloc.Free(old(h), bp)
      ensures Kept(old(mem.words), mem.words, Live(old(h)) - {bp})
    {
      hide LooseInv, Inv, Stored, Kept, Live, Memory.Valid, SetTags, SetAlloc, Push, SegOps.Coalesce;
      ghost var h0, w0 := h, mem.words;
      FreePremises(w0, h0, bp);
      var size := GetSize(bp - WSIZE);
      PutTags(bp, size, false);
      SetAllocStored(w0, mem.words, h0, {}, bp, false);
      h := SetAlloc(h0, bp, false);
      ghost var h1, w1 := h, mem.words;
      AddSeglist(bp, size, {bp});
      KeptBoth(w0, w1, mem.words, Live(h0) - {bp});
      ghost var w2 := mem.words;
      var _ := Coalesce(bp);
      KeptBoth(w0, w2, mem.words, Live(h0) - {bp});
      FreeInv(h0, bp);
    }

    // -------------------------------------------------------------- mm_realloc

    /** Common end of the in-place exits: a tail of more than 8 bytes becomes a free block. */
    method FinishRealloc(newPtr: int, padding: int, ghost asize: int, ghost n: int)
      requires Ties() && Inv(h) && Pending(mem.words, h, newPtr, n)
      requires asize % 8 == 0 && 8 <= asize && h.blk[newPtr].size - 8 - asize == padding >= 0
      requires n == if padding > DSIZE then asize + 8 else h.blk[newPtr].size
      modifies this`h, mem`words, mem.cells
      ensures Valid() && h == Trim(old(h), newPtr, asize)
      ensures Kept(old(mem.words), mem.words, Live(h))
    {
      hide LooseInv, Inv, Stored, Kept, Live, Memory.Valid, SetTags, SetAlloc, Split, Push, SegOps.Coalesce;
      ghost var g, w0 := h, mem.words;
      PendingFacts(w0, g, newPtr, asize, n);
      TrimInv(g, newPtr, asize);
      if padding > DSIZE {
        var ret := NextBlkp(newPtr);
        TrimIsShrink(g, newPtr, asize, n);
        ShrinkPremises(w0, g, newPtr, n);
        PutTags(ret, padding, false);
        PendingCut(w0, mem.words, g, newPtr, n);
        h := SetAlloc(Split(g, newPtr, n), newPtr + n, false);
        ghost var h1, w1 := h, mem.words;
        var size := GetSize(ret - WSIZE);
        AddSeglist(ret, size, {ret});
        ghost var w2 := mem.words;
        var _ := Coalesce(ret);
        KeptBoth(w0, w1, w2, Live(h1));
        KeptBoth(w0, w2, mem.words, Live(h1));
      } else {
        PendingWhole(w0, g, newPtr, n);
        KeptSame(w0, Live(h));
      }
    }

    /** The exit that shrinks the block where it is. */
    method ShrinkInPlace(ptr: int, asize: int)
      requires Valid() && ptr in Live(h) && asize % 8 == 0 && 8 <= asize && asize + 16 < h.blk[ptr].size
      modifies mem`words, mem.cells
      ensures Ties() && Inv(h) && Pending(mem.words, h, ptr, asize + 8)
      ensures Kept(old(mem.words), mem.words, Live(h) - {ptr})
      ensures Copied(old(mem.words), mem.words, ptr, ptr, asize)
    {
      hide LooseInv, Inv, Stored, Kept, Memory.Valid, SetTags, Copied, AgreeOutside, SameOutside;
      ghost var w0 := mem.words;
      LivePremises(w0, h, ptr);
      TrimMapped(w0, h, ptr, asize);
      var n := asize + DSIZE;
      PutTags(ptr, n, true);
      TagsAgree(w0, ptr, n, h.blk[ptr].size);
      TagsSpare(w0, ptr, n, asize);
      SameOutsideSelf(h, {}, ptr);
      PendingHolds(w0, mem.words, h, h, ptr, n);
    }

    /** The exit that takes in the block after it. */
    method GrowIntoNext(ptr: int, nextPtr: int, asize: int, csize: int, nsize: int) returns (padding: int)
      requires Valid() && ptr in Live(h) && NextFree(h, ptr) && nextPtr == ptr + h.blk[ptr].size
      requires csize == h.blk[ptr].size - 8 && nsize == h.blk[nextPtr].size
      requires asize % 8 == 0 && csize < asize <= csize + nsize
      modifies this`h, mem`words, mem.cells
      ensures Ties() && Inv(h) && h == AbsorbNext(old(h), ptr) && padding == csize + nsize - asize
      ensures ptr in h.blk && h.blk[ptr].size == csize + nsize + 8
      ensures Pending(mem.words, h, ptr, if padding > DSIZE then asize + 8 else h.blk[ptr].size)
      ensures Kept(old(mem.words), mem.words, Live(old(h)) - {ptr})
      ensures Copied(old(mem.words), mem.words, ptr, ptr, csize)
    {
      hide LooseInv, Inv, Stored, Kept, Live, Memory.Valid, SetTags, Copied, AgreeOutside, SameOutside, Unlink,
        AbsorbNext, Pending, Tag, Pack, SizeOf, AllocOf;
      ghost var h0, w0 := h, mem.words;
      padding := csize + nsize - asize;
      LivePremises(w0, h, ptr);
      LivePremises(w0, h, nextPtr);
      UnlinkKeepsBlocks(h, nextPtr);
      RemoveSeglist(nextPtr, {});
      ghost var w1 := mem.words;
      var newSize := if padding > DSIZE then asize + DSIZE else csize + nsize + DSIZE;
      InnerMapped(w1, h0, h, ptr, csize + nsize + 8, newSize);
      PutTags(ptr, newSize, true);
      h := AbsorbNext(h0, ptr);
      GrewIntoNext(w0, w1, mem.words, h0, ptr, nextPtr, newSize);
    }

    /** The enlarged block is tagged at q and the payload of p, up to the next header, moves there. */
    method MoveBlock(q: int, p: int, csize: int, n: int)
      requires mem.Valid() && q < p && q % 8 == 0 && p % 8 == 0 && csize % 8 == 0 && n % 8 == 0
      requires 8 <= csize && csize + 16 <= n < 0x1_0000_0000 - 1
      requires mem.start + 4 <= q && q + n - DSIZE < mem.start + MAX_HEAP && p + csize + DSIZE <= mem.start + MAX_HEAP
      modifies mem`words, mem.cells
      ensures mem.Valid() && mem.words == MoveDown(old(mem.words), q, p, csize + 8, n)
      ensures Copied(old(mem.words), mem.words, p, q, csize)
    {
      hide Copied, Memory.Valid, SizeOf, AllocOf, WordsUpTo, Moved, Pack;
      Multiples(q, n);
      Multiples(p, csize);
      mem.AllInRange();
      mem.InRange(q - WSIZE);
      mem.InRange(q + n - DSIZE);
      TagReads(n, true);
      ghost var w0 := mem.words;
      mem.Put(q - WSIZE, Pack(n, true));
      ghost var w1 := mem.words;
      mem.Memmove(q, p, csize + DSIZE);
      MovedElsewhere(w1, q, p, csize + 8, q - 4);
      MovedElsewhere(w1, q, p, csize + 8, q + n - 8);
      var f := Ftrp(q);
      mem.Put(f, Pack(n, true));
      MoveDownCopies(w0, q, p, csize + 8, n, csize, mem.start, mem.start + MAX_HEAP);
    }

    /** The exit that takes in the block before it. */
    method GrowIntoPrev(ptr: int, prevPtr: int, asize: int, csize: int, psize: int) returns (padding: int)
      requires Valid() && ptr in Live(h) && PrevFree(h, ptr) && prevPtr == h.prev[ptr]
      requires csize == h.blk[ptr].size - 8 && psize == h.blk[prevPtr].size
      requires asize % 8 == 0 && csize < asize <= csize + psize
      modifies this`h, mem`words, mem.cells
      ensures Ties() && Inv(h) && h == TakePrev(old(h), ptr) && padding == csize + psize - asize
      ensures prevPtr in h.blk && h.blk[prevPtr].size == csize + psize + 8
      ensures Pending(mem.words, h, prevPtr, if padding > DSIZE then asize + 8 else h.blk[prevPtr].size)
      ensures Kept(old(mem.words), mem.words, Live(old(h)) - {ptr})
      ensures Copied(old(mem.words), mem.words, ptr, prevPtr, csize)
    {
      hide LooseInv, Inv, Stored, Kept, Live, Memory.Valid, Copied, AgreeOutside, SameOutside, Unlink,
        TakePrev, MoveDown, Pending, Tag, Pack, SizeOf, AllocOf;
      ghost var h0, w0 := h, mem.words;
      padding := csize + psize - asize;
      LiveIsBlock(h, ptr);
      PrevRoom(w0, h, ptr, prevPtr, asize);
      TakePrevOutside(h, ptr, prevPtr);
      UnlinkKeepsBlocks(h, prevPtr);
      RemoveSeglist(prevPtr, {});
      ghost var w1 := mem.words;
      var newSize := if padding > DSIZE then asize + DSIZE else csize + psize + DSIZE;
      InnerMapped(w1, h0, h, prevPtr, csize + psize + 8, newSize);
      TagsMapped(w1, h, ptr);
      MoveBlock(prevPtr, ptr, csize, newSize);
      ghost var h1 := h;
      h := TakePrev(h0, ptr);
      MovedDown(w0, w1, mem.words, h0, h1, h, ptr, prevPtr, newSize);
    }

    /** The exit that takes in both neighbours. */
    method GrowIntoBoth(ptr: int, prevPtr: int, nextPtr: int, asize: int, csize: int, psize: int, nsize: int)
      returns (padding: int)
      requires Valid() && ptr in Live(h) && PrevFree(h, ptr) && prevPtr == h.prev[ptr]
      requires NextFree(h, ptr) && nextPtr == ptr + h.blk[ptr].size
      requires csize == h.blk[ptr].size - 8 && psize == h.blk[prevPtr].size && nsize == h.blk[nextPtr].size
      requires asize % 8 == 0 && csize < asize <= csize + psize + nsize
      modifies this`h, mem`words, mem.cells
      ensures Ties() && Inv(h) && h == TakePrev(AbsorbNext(old(h), ptr), ptr)
      ensures padding == csize + psize + nsize - asize
      ensures prevPtr in h.blk && h.blk[prevPtr].size == csize + psize + nsize + 8
      ensures Pending(mem.words, h, prevPtr, if padding > DSIZE then asize + 8 else h.blk[prevPtr].size)
      ensures Kept(old(mem.words), mem.words, Live(old(h)) - {ptr})
      ensures Copied(old(mem.words), mem.words, ptr, prevPtr, csize)
    {
      hide LooseInv, Inv, Stored, Kept, Live, Memory.Valid, Copied, AgreeOutside, SameOutside, Unlink,
        TakePrev, AbsorbNext, MoveDown, Pending, SizeOf, AllocOf, Tag, Pack;
      ghost var h0, w0 := h, mem.words;
      padding := csize + psize + nsize - asize;
      LiveIsBlock(h, ptr);
      LivePremises(w0, h, ptr);
      LivePremises(w0, h, prevPtr);
      LivePremises(w0, h, nextPtr);
      TakeBothOutside(h, ptr, prevPtr, nextPtr);
      UnlinkKeepsBlocks(h, nextPtr);
      UnlinkKeepsBlocks(Unlink(h, nextPtr), prevPtr);
      RemoveBoth(nextPtr, prevPtr, {});
      ghost var w1 := mem.words;
      var newSize := if padding > DSIZE then asize + DSIZE else csize + psize + nsize + DSIZE;
      NewSizeAligned(TakePrev(AbsorbNext(h0, ptr), ptr), prevPtr, asize, newSize);
      InnerMapped(w1, h0, h, prevPtr, csize + psize + nsize + 8, newSize);
      TagsMapped(w1, h, nextPtr);
      MoveBlock(prevPtr, ptr, csize, newSize);
      ghost var h1 := h;
      h := TakePrev(AbsorbNext(h0, ptr), ptr);
      MovedDown(w0, w1, mem.words, h0, h1, h, ptr, prevPtr, newSize);
    }

    /** The exit that finds a new block and copies the payload there. */
    method MoveToNewBlock(ptr: int, size: int, csize: int) returns (newPtr: int)
      requires Valid() && ptr in Live(h) && 0 < size <= TWO32 - 16 && csize == Live(h)[ptr] < Align(size)
      modifies this`h, mem`brk, mem`words, mem.cells
      ensures Valid()
      ensures
        var (h1, r) := SegMalloc.Malloc(old(h), size);
        newPtr == r && h == if r == 0 then h1 else SegMalloc.Free(h1, ptr)
      ensures newPtr == 0 ==> Kept(old(mem.words), mem.words, Live(old(h)))
      ensures Kept(old(mem.words), mem.words, Live(old(h)) - {ptr})
      ensures newPtr != 0 ==> Copied(old(mem.words), mem.words, ptr, newPtr, csize)
    {
      hide Inv, Stored, Kept, Live, Memory.Valid, Copied, AgreeOutside, SegMalloc.Free, SegMalloc.Malloc, Align, Moved;
      ghost var h0, w0 := h, mem.words;
      newPtr := Malloc(size);
      ghost var h1, w1 := h, mem.words;
      LessKept(w0, w1, Live(h0), ptr);
      if newPtr == 0 {
        return;
      }
      CopyPremises(w1, h0, h1, ptr, newPtr, size);
      CopyPayload(ptr, newPtr, csize);
      NewPayload(w0, w1, mem.words, h0, h1, ptr, newPtr, csize);
      ghost var w2 := mem.words;
      Free(ptr);
      FreedContents(w0, w2, mem.words, h0, h1, ptr, newPtr, csize);
    }

    /** memcpy of the old payload, and 8 bytes more, into a payload that has room for them. The two
        ranges do not overlap, as memcpy demands. */
    method CopyPayload(p: int, r: int, csize: int)
      requires Valid() && p in h.blk && r in Live(h) && p != r
      requires csize == h.blk[p].size - 8 && csize + 8 <= Live(h)[r]
      modifies mem`words, mem.cells
      ensures Valid() && (p + csize + 8 <= r || r + csize + 8 <= p)
      ensures Kept(old(mem.words), mem.words, Live(h) - {r}) && Copied(old(mem.words), mem.words, p, r, csize)
    {
      hide Inv, Stored, Live, Kept, Copied, AgreeOutside, Moved, Memory.Valid, WordsUpTo;
      ghost var w0 := mem.words;
      mem.AllInRange();
      CopyRoom(w0, h, p, r, csize);
      mem.Memmove(r, p, csize + DSIZE);
      MovedAgrees(w0, r, p, csize + 8);
      WiderAgrees(w0, mem.words, r, r + csize + 8, r, r + Live(h)[r]);
      PayloadStored(w0, mem.words, h, r);
      MovedCopies(w0, r, p, csize + 8, csize, mem.start, mem.start + MAX_HEAP);
    }

    /** mm_realloc. Every exit keeps the payload up to the smaller of the two capacities and leaves
        all other payloads alone. */
    method Realloc(ptr: int, size: int) returns (newPtr: int)
      requires Valid() && (ptr == 0 || ptr in Live(h)) && 0 <= size <= TWO32 - 16
      modifies this`h, mem`brk, mem`words, mem.cells
      ensures Valid() && (h, newPtr) == SegMalloc.Realloc(old(h), ptr, size)
      ensures Kept(old(mem.words), mem.words, Live(old(h)) - {ptr})
      ensures newPtr == 0 ==> Kept(old(mem.words), mem.words, Live(old(h)))
      ensures ptr != 0 && size > 0 ==> Resized(old(h), ptr, size, h, newPtr)
      ensures ptr != 0 && size > 0 && newPtr != 0 ==>
        Copied(old(mem.words), mem.words, ptr, newPtr, Min(Live(old(h))[ptr], Live(h)[newPtr]))
    {
      hide Inv, Stored, Kept, Live, Memory.Valid, Copied, Trim, TakePrev, AbsorbNext, Align, SegMalloc.Malloc,
        SegMalloc.Free,
        Pending, Resized, SizeOf, AllocOf, LooseInv;
      ghost var h0, w0 := h, mem.words;
      NullIsNoBlock(h, Live(h));
      if ptr == 0 {
        newPtr := Malloc(size);
        LessKept(w0, mem.words, Live(h0), ptr);
        return;
      }
      LiveIsBlock(h, ptr);
      if size == 0 {
        Free(ptr);
        return ptr;
      }
      AlignFacts(size);
      LivePremises(w0, h, ptr);
      ReallocInv(h, ptr, size);
      ReallocCases(h, ptr, size);
      var bsize := GetSize(ptr - WSIZE);
      var csize := bsize - DSIZE;
      var asize := Align(size);
      if asize == csize {
        Unmoved(w0, h0, ptr);
        return ptr;
      }
      ResizedRoom(h, ptr, size);
      if asize < csize {
        TrimInv(h, ptr, asize);
        if csize - asize <= DSIZE {
          Unmoved(w0, h0, ptr);
          return ptr;
        }
        ShrinkInPlace(ptr, asize);
        FinishInPlace(ptr, ptr, size, asize, csize - asize, asize + 8, asize, h0, w0);
        return ptr;
      }
      newPtr := GrowBlock(ptr, size, asize, csize);
    }

    /** In-place exit of mm_realloc after the block at new_ptr has been enlarged or shrunk. */
    method FinishInPlace(ptr: int, newPtr: int, ghost size: int, ghost asize: int, padding: int, ghost n: int,
      ghost c: int,
                         ghost h0: Heap, ghost w0: Words)
      requires Ties() && Inv(h) && Pending(mem.words, h, newPtr, n)
      requires asize == Align(size) && asize % 8 == 0 && 8 <= asize && h.blk[newPtr].size - 8 - asize == padding >= 0
      requires n == if padding > DSIZE then asize + 8 else h.blk[newPtr].size
      requires ptr in Live(h0) && Kept(w0, mem.words, Live(h0) - {ptr}) && Copied(w0, mem.words, ptr, newPtr, c)
      requires Resized(h0, ptr, size, Trim(h, newPtr, asize), newPtr) && newPtr != 0 && c <= asize
      modifies this`h, mem`words, mem.cells
      ensures Valid() && h == Trim(old(h), newPtr, asize)
      ensures Kept(w0, mem.words, Live(h0) - {ptr}) && Copied(w0, mem.words, ptr, newPtr, c)
    {
      hide Inv, Stored, Kept, Live, Memory.Valid, Copied, Trim, Align, Pending, Resized;
      ghost var w1 := mem.words;
      FinishRealloc(newPtr, padding, asize, n);
      ResizedContents(w0, w1, mem.words, h0, h, ptr, newPtr, size, c);
    }

    /** The exits of mm_realloc that enlarge the block: the tests at 208, 219 and 233 in turn. */
    method GrowBlock(ptr: int, size: int, asize: int, csize: int) returns (newPtr: int)
      requires Valid() && ptr in Live(h) && 0 < size <= TWO32 - 16 && asize == Align(size)
      requires csize == Live(h)[ptr] < asize
      modifies this`h, mem`brk, mem`words, mem.cells
      ensures Valid() && (h, newPtr) == SegMalloc.Realloc(old(h), ptr, size)
      ensures Kept(old(mem.words), mem.words, Live(old(h)) - {ptr})
      ensures newPtr == 0 ==> Kept(old(mem.words), mem.words, Live(old(h)))
      ensures newPtr != 0 ==> Copied(old(mem.words), mem.words, ptr, newPtr, csize)
    {
      hide Inv, Stored, Kept, Live, Memory.Valid, Copied, Trim, TakePrev, AbsorbNext, Align, SegMalloc.Malloc,
        SegMalloc.Free,
        Pending, Resized, LooseInv;
      ghost var h0, w0 := h, mem.words;
      LiveIsBlock(h, ptr);
      LivePremises(w0, h, ptr);
      AlignFacts(size);
      ReallocInv(h, ptr, size);
      ReallocCases(h, ptr, size);
      Surroundings(w0, h, ptr);
      var nextPtr := NextBlkp(ptr);
      var prevPtr := PrevBlkp(ptr);
      var nsize := GetSize(nextPtr - WSIZE);
      var psize := GetSize(prevPtr - WSIZE);
      var prevAlloc := GetAlloc(prevPtr - WSIZE);
      var nextAlloc := GetAlloc(nextPtr - WSIZE);
      var realloced, padding := false, 0;
      if prevAlloc == 0 {
        if psize + csize >= asize {
          padding := GrowIntoPrev(ptr, prevPtr, asize, csize, psize);
          newPtr := prevPtr;
          realloced := true;
          PrevMerged(mem.words, h, prevPtr, asize);
        }
      } else if nextAlloc == 0 {
        if nsize + csize >= asize {
          padding := GrowIntoNext(ptr, nextPtr, asize, csize, nsize);
          newPtr := ptr;
          realloced := true;
          NextMerged(w0, mem.words, h0, h, ptr, asize);
        }
      }
      // the headers are read again: after a merge the previous block counts as allocated
      prevAlloc := GetAlloc(prevPtr - WSIZE);
      var both := false;
      if prevAlloc == 0 {
        nextAlloc := GetAlloc(nextPtr - WSIZE);
        both := nextAlloc == 0;
      }
      assert both ==> !realloced;
      if both {
        if psize + nsize + csize >= asize {
          padding := GrowIntoBoth(ptr, prevPtr, nextPtr, asize, csize, psize, nsize);
          newPtr := prevPtr;
          realloced := true;
        }
      }
      if realloced {
        ghost var n := if padding > DSIZE then asize + 8 else h.blk[newPtr].size;
        FinishInPlace(ptr, newPtr, size, asize, padding, n, csize, h0, w0);
      } else {
        newPtr := MoveToNewBlock(ptr, size, csize);
      }
    }

    // -------------------------------------------------------------- mm_init

    /** init_seglist */
    method InitSeglist()
      requires mem.Valid() && mem.brk == mem.start
      modifies this`segListPtr, mem`brk, mem`words, mem.cells
      ensures mem.Valid() && segListPtr == mem.start && mem.brk == mem.start + SEG_SIZE * WSIZE
      ensures forall k {:trigger TableEmpty(mem.words, mem.start, k)} ::
        0 <= k < SEG_SIZE ==> TableEmpty(mem.words, mem.start, k)
    {
      hide Memory.Valid;
      mem.Bounds();
      segListPtr := mem.Sbrk(SEG_SIZE * WSIZE);
      var i := 0;
      while i < SEG_SIZE
        invariant 0 <= i <= SEG_SIZE && mem.Valid() && segListPtr == mem.start
        invariant mem.brk == mem.start + SEG_SIZE * WSIZE
        invariant forall k {:trigger TableEmpty(mem.words, mem.start, k)} ::
          0 <= k < i ==> TableEmpty(mem.words, mem.start, k)
      {
        mem.CellInRange(i);
        ghost var w0 := mem.words;
        mem.Put(segListPtr + WSIZE * i, 0);
        forall k {:trigger TableEmpty(mem.words, mem.start, k)} | 0 <= k < i + 1
          ensures TableEmpty(mem.words, mem.start, k) {
          assert k < i ==> TableEmpty(w0, mem.start, k);
        }
        i := i + 1;
      }
    }

    /** The alignment word, the prologue and the first epilogue. */
    method WritePrologue()
      requires mem.Valid() && mem.brk == mem.start + SEG_SIZE * WSIZE
      modifies this`heapPtr, mem`brk, mem`words, mem.cells
      ensures mem.Valid() && mem.brk == mem.start + TABLE && heapPtr == mem.brk - DSIZE
      ensures PrologueMapped(old(mem.words), mem.start) && mem.words == PrologueWords(old(mem.words), mem.start)
    {
      PrologueTags();
      hide Memory.Valid, Pack;
      mem.Bounds();
      var p := mem.Sbrk(4 * WSIZE);
      assert p == mem.start + 96;
      mem.CellInRange(24);
      mem.CellInRange(25);
      mem.CellInRange(26);
      mem.CellInRange(27);
      PutFour(p, 0, Pack(DSIZE, true), Pack(DSIZE, true), Pack(0, true));
      heapPtr := p + 2 * WSIZE;
    }

    method PutFour(p: int, x0: word, x1: word, x2: word, x3: word)
      requires mem.Valid() && p in mem.words && p + 4 in mem.words && p + 8 in mem.words && p + 12 in mem.words
      modifies mem`words, mem.cells
      ensures mem.Valid() && mem.words == old(mem.words)[p := x0][p + 4 := x1][p + 8 := x2][p + 12 := x3]
    {
      hide Memory.Valid;
      mem.Put(p, x0);
      mem.Put(p + 1 * WSIZE, x1);
      mem.Put(p + 2 * WSIZE, x2);
      mem.Put(p + 3 * WSIZE, x3);
    }

    /** mm_init on an empty memory */
    method Init() returns (r: int)
      requires mem.Valid() && mem.brk == mem.start
      modifies this, mem`brk, mem`words, mem.cells
      ensures r == 0 && Valid() && h == Extend(EmptyHeap(mem.start), CHUNKSIZE).0 && Live(h) == map[]
    {
      hide Memory.Valid, LooseInv, Inv, Stored, Live, Kept, Extend, PrologueWords;
      mem.Bounds();
      InitSeglist();
      ghost var w0 := mem.words;
      WritePrologue();
      mem.AllInRange();
      EmptyStored(w0, mem.words, mem.start);
      h := EmptyHeap(mem.start);
      EmptyInv(mem.start);
      ExtendInv(h, CHUNKSIZE);
      var b := ExtendHeap(CHUNKSIZE / WSIZE);
      if b == 0 {
        return -1;
      }
      r := 0;
    }

    // -------------------------------------------------------------- mm_check

    /** mm_check: on a heap whose block footers may hold anything, but which is otherwise sound, it
        terminates, and reports an error exactly when some footer disagrees with its header. w is
        memory as it should be. */
    method Check(ghost w: Words) returns (errno: int)
      requires Ties() && Inv(h) && Stored(w, h) && FootersAside(w, mem.words, h)
      ensures errno == 0 || errno == -1
      ensures errno == 0 <==>
        forall a {:trigger FooterAgrees(mem.words, h, a)} :: a in h.blk ==> FooterAgrees(mem.words, h, a)
    {
      errno := CheckBlocks(w);
      ghost var found := errno;
      var i := 0;
      while i < SEG_SIZE
        invariant 0 <= i <= SEG_SIZE && errno == found
      {
        errno := CheckList(i, errno, w);
        i := i + 1;
      }
    }

    /** The walk from the prologue to the epilogue: header and footer agree. */
    method CheckBlocks(ghost w: Words) returns (errno: int)
      requires Ties() && Inv(h) && Stored(w, h) && FootersAside(w, mem.words, h)
      ensures errno == 0 || errno == -1
      ensures errno == 0 <==>
        forall a {:trigger FooterAgrees(mem.words, h, a)} :: a in h.blk ==> FooterAgrees(mem.words, h, a)
    {
      hide Stored, Inv, Memory.Valid, SizeOf, AllocOf, FootersAside, FooterAgrees;
      errno := 0;
      var curr := heapPtr;
      WalkStep(w, mem.words, h, curr);
      BelowPrologue(h);
      var size := GetSize(curr - WSIZE);
      while curr != 0 && size != 0
        invariant OnWalk(h, curr) && size == (if curr == h.hi then 0 else WalkSize(h, curr))
        invariant curr > 0 && (curr != h.hi ==> size > 0)
        invariant errno == 0 || errno == -1
        invariant errno == 0 <==>
          forall a {:trigger FooterAgrees(mem.words, h, a)} :: a in h.blk && a < curr ==> FooterAgrees(mem.words, h, a)
        invariant curr - WSIZE in mem.words && size == SizeOf(mem.words[curr - WSIZE])
        decreases h.hi - curr
      {
        WalkStep(w, mem.words, h, curr);
        var a := GetAlloc(curr - WSIZE);
        var f := Ftrp(curr);
        var b := GetAlloc(f);
        var n := GetSize(f);
        if a != b { errno := -1; }
        if size != n { errno := -1; }
        FooterRead(mem.words, h, curr);
        NextStation(h, curr);
        curr := NextBlkp(curr);
        WalkStep(w, mem.words, h, curr);
        size := GetSize(curr - WSIZE);
      }
      BelowEnd(h);
    }

    /** The walk along one free list finds no error that the first walk has not found. The allocation
        test of line 535 reads the link word of the block. */
    method CheckList(k: nat, errno0: int, ghost w: Words) returns (errno: int)
      requires Ties() && Inv(h) && Stored(w, h) && FootersAside(w, mem.words, h) && k < SEG_SIZE
      requires errno0 == -1 || (errno0 == 0 &&
        forall a {:trigger FooterAgrees(mem.words, h, a)} :: a in h.blk ==> FooterAgrees(mem.words, h, a))
      ensures errno == errno0
    {
      hide Stored, Inv, Memory.Valid, SizeOf, AllocOf, LooseInv, FootersAside, FooterAgrees;
      InvIsLoose(h);
      errno := errno0;
      ghost var s := h.lists[k];
      ghost var i: nat := 0;
      ListMapped(w, h, k);
      SlotAside(w, mem.words, h, k);
      var blkp := mem.Get(segListPtr + WSIZE * k);
      while blkp != 0
        invariant i <= |s| && blkp == Head(s[i..]) && errno == errno0
        decreases |s| - i
      {
        ListNode(w, h, {}, k, i);
        ListNodeTags(w, mem.words, h, k, i);
        FooterRead(mem.words, h, blkp);
        if blkp < mem.start || blkp > mem.brk - 1 { errno := -1; }
        var alloc := GetAlloc(blkp);
        if alloc != 0 { errno := -1; }
        var m := GetSize(blkp - WSIZE);
        var f := Ftrp(blkp);
        var n := GetSize(f);
        if m != n { errno := -1; }
        if blkp % DSIZE != 0 { errno := -1; }
        var nblkp := mem.Get(blkp);
        if nblkp != 0 && blkp - WSIZE - f == DSIZE { errno := -1; }
        blkp := nblkp;
        i := i + 1;
      }
    }
  }

  /** The footer of block a says what its header says. */
  ghost predicate FooterAgrees(w: Words, h: Heap, a: int)
    requires a in h.blk
  {
    var f := a + h.blk[a].size - 8;
    && a - 4 in w && f in w && SizeOf(w[f]) == SizeOf(w[a - 4]) && AllocOf(w[f]) == AllocOf(w[a - 4])
  }

  ghost predicate IsFooter(h: Heap, p: int) {
    exists a {:trigger h.blk[a]} :: a in h.blk && p == a + h.blk[a].size - 8
  }

  /** w' is w but for the footers of the blocks. */
  ghost predicate FootersAside(w: Words, w': Words, h: Heap) {
    w'.Keys == w.Keys && forall p {:trigger w'[p]} :: p in w && !IsFooter(h, p) ==> w'[p] == w[p]
  }

  lemma FooterRead(w: Words, h: Heap, a: int)
    ensures a in h.blk ==>
      (FooterAgrees(w, h, a) <==>
        var f := a + h.blk[a].size - 8;
        && a - 4 in w && f in w && SizeOf(w[f]) == SizeOf(w[a - 4]) && AllocOf(w[f]) == AllocOf(w[a - 4]))
  {
  }

  /** Headers and link words are no footers. */
  lemma NoFooter(h: Heap, a: int)
    requires Inv(h) && a in h.blk
    ensures !IsFooter(h, a) && !IsFooter(h, a - 4) && !IsFooter(h, a + 4)
  {
    hide Inv;
    forall b | b in h.blk ensures a % 8 == 0 && (b + h.blk[b].size - 8) % 8 == 0 && b + h.blk[b].size - 8 != a {
      FooterApart(h, a, b);
    }
    OddWords(h, a);
  }

  lemma FooterApart(h: Heap, a: int, b: int)
    requires Inv(h) && a in h.blk && b in h.blk
    ensures a % 8 == 0 && (b + h.blk[b].size - 8) % 8 == 0 && b + h.blk[b].size - 8 != a
  {
    hide Chained, Listed, CompleteBut, CoalescedBut;
    BlockAligned(h, b);
    BlockAligned(h, a);
    hide Aligned;
    assert h.blk[a].size >= 16 && h.blk[b].size >= 16;
  }

  lemma OddWords(h: Heap, a: int)
    requires a % 8 == 0 && forall b {:trigger h.blk[b]} :: b in h.blk ==> (b + h.blk[b].size - 8) % 8 == 0
    ensures !IsFooter(h, a - 4) && !IsFooter(h, a + 4)
  {
  }

  /** Nor are the words of the table, the prologue and the epilogue. */
  lemma NoFooterOutside(h: Heap, p: int)
    requires Inv(h) && (p < h.lo || p == h.hi - 4)
    ensures !IsFooter(h, p)
  {
    forall b | b in h.blk ensures b + h.blk[b].size - 8 >= h.lo && b + h.blk[b].size - 8 <= h.hi - 8 {
      assert h.blk[b].size >= 16;
    }
  }

  lemma SlotAside(w: Words, w': Words, h: Heap, k: nat)
    requires Inv(h) && FootersAside(w, w', h) && k < SEG_SIZE && h.lo - TABLE + 4 * k in w
    ensures h.lo - TABLE + 4 * k in w' && w'[h.lo - TABLE + 4 * k] == w[h.lo - TABLE + 4 * k]
  {
    NoFooterOutside(h, h.lo - TABLE + 4 * k);
  }

  lemma BelowPrologue(h: Heap)
    requires Inv(h)
    ensures forall a :: a in h.blk ==> a >= h.lo
  {
    forall a | a in h.blk ensures a >= h.lo { assert h.blk[a].size >= 16; }
  }

  lemma BelowEnd(h: Heap)
    requires Inv(h)
    ensures forall a :: a in h.blk ==> a < h.hi
  {
    forall a | a in h.blk ensures a < h.hi { assert h.blk[a].size >= 16; }
  }

  /** No block starts between two stations. */
  lemma NextStation(h: Heap, a: int)
    requires Inv(h) && OnWalk(h, a) && a != h.hi
    ensures forall b :: b in h.blk ==> (b < a + WalkSize(h, a) <==> b < a || (b == a && a in h.blk))
  {
    forall b | b in h.blk ensures b < a + WalkSize(h, a) <==> b < a || (b == a && a in h.blk) {
      assert h.blk[b].size >= 16;
      if a in h.blk { assert h.blk[a].size >= 16; }
    }
  }

  /** The stations of mm_check's walk: the prologue, every block, the epilogue. */
  ghost predicate OnWalk(h: Heap, a: int) {
    a == h.lo - 8 || a in h.blk || a == h.hi
  }

  ghost function WalkSize(h: Heap, a: int): int {
    if a in h.blk then h.blk[a].size else if a == h.lo - 8 then 8 else 0
  }

  lemma WalkStep(w: Words, w': Words, h: Heap, a: int)
    requires Stored(w, h) && Inv(h) && OnWalk(h, a) && FootersAside(w, w', h)
    ensures a > 0 && h.lo - 8 <= a <= h.hi
    ensures a - 4 in w' && SizeOf(w'[a - 4]) == if a == h.hi then 0 else WalkSize(h, a)
    ensures a != h.hi ==>
      var n := WalkSize(h, a);
      && n > 0 && OnWalk(h, a + n) && a + n - 8 in w'
      && (a !in h.blk ==> SizeOf(w'[a + n - 8]) == n && AllocOf(w'[a + n - 8]) == AllocOf(w'[a - 4]))
  {
    hide Stored, Inv, FootersAside, SizeOf, AllocOf;
    if a in h.blk { BlockStation(w, w', h, a); } else { OuterStations(w, w', h); }
  }

  lemma BlockStation(w: Words, w': Words, h: Heap, a: int)
    requires Stored(w, h) && Inv(h) && a in h.blk && FootersAside(w, w', h)
    ensures
      var n := h.blk[a].size;
      && a > 0 && h.lo <= a < h.hi && n > 0 && OnWalk(h, a + n)
      && a - 4 in w' && SizeOf(w'[a - 4]) == n && a + n - 8 in w'
  {
    NoFooter(h, a);
    hide Disjoint, Listed, CompleteBut, CoalescedBut, Mapped, Framed, Linked, IsFooter;
    assert NextOk(h, a);
    ReadTags(w, h, a);
    assert h.blk[a].size >= 16;
  }

  /** The prologue and the epilogue. */
  lemma OuterStations(w: Words, w': Words, h: Heap)
    requires Stored(w, h) && Inv(h) && FootersAside(w, w', h)
    ensures 0 < h.lo - 8 < h.hi && OnWalk(h, h.lo) && h.lo - 12 in w' && h.lo - 8 in w' && h.hi - 4 in w'
    ensures SizeOf(w'[h.lo - 12]) == 8 == SizeOf(w'[h.lo - 8]) && AllocOf(w'[h.lo - 8]) == AllocOf(w'[h.lo - 12])
    ensures SizeOf(w'[h.hi - 4]) == 0
  {
    NoFooterOutside(h, h.lo - 8);
    NoFooterOutside(h, h.lo - 12);
    NoFooterOutside(h, h.hi - 4);
    hide Bounded, Disjoint, Aligned, Listed, CompleteBut, CoalescedBut, Mapped, Tagged, Linked, IsFooter;
  }

  lemma ListNodeTags(w: Words, w': Words, h: Heap, k: nat, i: nat)
    requires Stored(w, h) && Inv(h) && k < SEG_SIZE && i < |h.lists[k]| && FootersAside(w, w', h)
    ensures
      var a := h.lists[k][i];
      && a in h.blk && a % 8 == 0 && a in w' && w'[a] == w[a] && AllocOf(w'[a]) == 0
      && a - 4 in w' && SizeOf(w'[a - 4]) == h.blk[a].size
      && a + h.blk[a].size - 8 in w' && h.blk[a].size >= 16
  {
    var a := h.lists[k][i];
    ListNode(w, h, {}, k, i);
    ReadTags(w, h, a);
    NoFooter(h, a);
    BlockAligned(h, a);
    if i + 1 < |h.lists[k]| {
      ListNode(w, h, {}, k, i + 1);
      BlockAligned(h, h.lists[k][i + 1]);
    }
    hide Inv, Stored;
    EvenHead(h.lists[k], i);
  }

  predicate PrologueMapped(w: Words, start: int) {
    start + 96 in w && start + 100 in w && start + 104 in w && start + 108 in w
  }

  function PrologueWords(w: Words, start: int): Words {
    w[start + 96 := 0][start + 100 := 9][start + 104 := 9][start + 108 := 1]
  }

  lemma PrologueTags()
    ensures Pack(DSIZE, true) == 9 && Pack(0, true) == 1
  {
  }

  lemma EvenHead(s: seq<int>, i: nat)
    requires i < |s| && (i + 1 < |s| ==> s[i + 1] % 8 == 0)
    ensures Head(s[i + 1..]) % 2 == 0
  {
    if i + 1 < |s| { EvenEight(s[i + 1]); }
  }

  lemma EvenEight(x: int)
    requires x % 8 == 0
    ensures x % 2 == 0
  {
    var k := x / 8;
    assert x == 8 * k;
    Quotient(x, 2, 4 * k, 0);
  }

  /** The heap right after the prologue and epilogue have been written. */
  ghost function EmptyHeap(start: int): Heap {
    Heap(start + TABLE, start + TABLE, start + MAX_HEAP, map[], map[], seq(SEG_SIZE, _ => []))
  }

  ghost predicate TableEmpty(w: Words, start: int, k: int) {
    start + 4 * k in w && w[start + 4 * k] == 0
  }

  lemma EmptyInv(start: int)
    requires start % 8 == 0 && 8 <= start
    ensures Inv(EmptyHeap(start)) && Live(EmptyHeap(start)) == map[]
  {
  }

  lemma EmptyStored(w0: Words, w: Words, start: int)
    requires forall k {:trigger TableEmpty(w0, start, k)} :: 0 <= k < SEG_SIZE ==> TableEmpty(w0, start, k)
    requires PrologueMapped(w0, start) && w == PrologueWords(w0, start)
    requires WordsUpTo(w, start, start + MAX_HEAP)
    ensures Stored(w, EmptyHeap(start))
  {
    var h := EmptyHeap(start);
    forall k {:trigger ListOk(w, h, k)} | 0 <= k < SEG_SIZE ensures ListOk(w, h, k) {
      assert TableEmpty(w0, start, k);
    }
  }

  lemma PrevMerged(w: Words, g: Heap, q: int, asize: int)
    requires Inv(g) && q in g.blk && asize % 8 == 0
    requires Pending(w, g, q, if g.blk[q].size - 8 - asize > DSIZE then asize + 8 else g.blk[q].size)
    ensures q - 4 in w && AllocOf(w[q - 4]) == 1
  {
    PendingFacts(w, g, q, asize, if g.blk[q].size - 8 - asize > DSIZE then asize + 8 else g.blk[q].size);
  }

  /** Once the next block is taken in, the header before p still says allocated. */
  lemma NextMerged(w: Words, w': Words, h: Heap, g: Heap, p: int, asize: int)
    requires Stored(w, h) && Inv(h) && p in Live(h) && NextFree(h, p) && !PrevFree(h, p) && g == AbsorbNext(h, p)
    requires Inv(g) && p in g.blk && asize % 8 == 0
    requires Pending(w', g, p, if g.blk[p].size - 8 - asize > DSIZE then asize + 8 else g.blk[p].size)
    ensures p - 8 in w && p - SizeOf(w[p - 8]) - 4 in w' && AllocOf(w'[p - SizeOf(w[p - 8]) - 4]) == 1
  {
    hide Inv, AbsorbNext, Live;
    Surroundings(w, h, p);
    var q := p - SizeOf(w[p - 8]);
    var v := SetTags(w', p, g.blk[p].size, true);
    SizesPositive(g, p, p);
    AbsorbNextExtent(h, p);
    if q == h.lo - 8 {
      PrologueHeader(v, g);
    } else {
      NextKeepsOthers(h, p, q);
      InvTags(v, g, q);
    }
  }

  lemma PrologueHeader(w: Words, h: Heap)
    requires Stored(w, h)
    ensures h.lo - 12 in w && AllocOf(w[h.lo - 12]) == 1
  {
  }

  lemma InvTags(w: Words, h: Heap, a: int)
    requires Stored(w, h) && Inv(h) && a in h.blk
    ensures Reads(w, a - 4, h.blk[a].size, h.blk[a].alloc)
  {
    ReadTags(w, h, a);
  }

  lemma AbsorbNextExtent(h: Heap, p: int)
    ensures SameExtent(h, AbsorbNext(h, p))
  {
  }

  lemma NextKeepsOthers(h: Heap, p: int, q: int)
    requires Inv(h) && p in h.blk && NextFree(h, p) && q in h.blk && q < p
    ensures q in AbsorbNext(h, p).blk && AbsorbNext(h, p).blk[q] == h.blk[q]
  {
    assert h.blk[p].size >= 16;
  }

  lemma NullIsNoBlock(h: Heap, live: map<int, int>)
    requires Inv(h) && live == Live(h)
    ensures 0 !in live && 0 !in h.blk
  {
    forall a | a in h.blk ensures a >= 120 { assert h.blk[a].size >= 16; }
  }

  lemma ResizedRoom(h: Heap, p: int, size: int)
    requires Inv(h) && p in Live(h) && 0 < size <= TWO32 - 16
    ensures
      var (h', r) := SegMalloc.Realloc(h, p, size);
      r != 0 ==> r in Live(h') && Align(size) <= Live(h')[r]
  {
    hide Inv, SegMalloc.Realloc, Align;
    ReallocInv(h, p, size);
  }

  lemma ResizedContents(w: Words, w1: Words, w2: Words, h: Heap, h': Heap, p: int, r: int, size: int, c: int)
    requires Resized(h, p, size, h', r) && r != 0 && p in Live(h) && Kept(w, w1, Live(h) - {p})
    requires Copied(w, w1, p, r, c)
    requires Kept(w1, w2, Live(h')) && c <= Align(size)
    ensures Kept(w, w2, Live(h) - {p}) && Copied(w, w2, p, r, c)
  {
    assert Within(Live(h) - {p}, Live(h'));
    LiveWithin(Live(h) - {p});
    KeptTrans(w, w1, w2, Live(h) - {p}, Live(h'), Live(h) - {p});
    CopiedKept(w, w1, w2, p, r, c, Live(h'));
  }

  lemma Unmoved(w: Words, h: Heap, p: int)
    ensures Kept(w, w, Live(h) - {p}) && (p in Live(h) ==> Copied(w, w, p, p, Live(h)[p]))
  {
  }

  /** The guards of mm_realloc, exit by exit. */
  lemma ReallocCases(h: Heap, p: int, size: int)
    requires Inv(h) && p in Live(h) && 0 < size
    ensures
      var csize, asize := h.blk[p].size - 8, Align(size);
      var psize := FreeBefore(h, p);
      var nsize := FreeAfter(h, p);
      var r := SegMalloc.Realloc(h, p, size);
      && (asize <= csize && csize - asize <= 8 ==> r == (h, p))
      && (asize <= csize ==> r == (Trim(h, p, asize), p))
      && (asize > csize ==>
            if PrevFree(h, p) && psize + csize >= asize then r == (Trim(TakePrev(h, p), h.prev[p], asize), h.prev[p])
            else if !PrevFree(h, p) && NextFree(h, p) &&
              nsize + csize >= asize then r == (Trim(AbsorbNext(h, p), p, asize), p)
            else if PrevFree(h, p) && NextFree(h, p) && psize + nsize + csize >= asize then
              r == (Trim(TakePrev(AbsorbNext(h, p), p), h.prev[p], asize), h.prev[p])
            else
              var (h1, q) := SegMalloc.Malloc(h, size);
              r == if q == 0 then (h1, 0) else (SegMalloc.Free(h1, p), q))
  {
    hide Inv, TakePrev, AbsorbNext, SegMalloc.Malloc, SegMalloc.Free, Align, Shrink;
    NonNull(h, p);
  }

  /** What mm_realloc reads around block a. */
  lemma Surroundings(w: Words, h: Heap, a: int)
    requires Stored(w, h) && Inv(h) && a in h.blk
    ensures
      && a - 8 in w && var p := a - SizeOf(w[a - 8]);
      && Reads(w, a - 4, h.blk[a].size, h.blk[a].alloc)
      && Reads(w, p - 4, a - p, !PrevFree(h, a)) && p < a && (p == h.lo - 8 || p >= h.lo)
      && (PrevFree(h, a) ==> p == h.prev[a] && p in h.blk && a - p == h.blk[p].size)
      && (!PrevFree(h, a) ==> p == h.lo - 8 || (p in h.blk && h.blk[p].alloc))
      && Reads(w, a + h.blk[a].size - 4, SizeAt(h, a + h.blk[a].size), !NextFree(h, a))
  {
    ReadTags(w, h, a);
    ReadPrev(w, h, a);
    ReadNext(w, h, a);
    if a != h.lo { assert h.blk[h.prev[a]].size >= 16; }
  }

  lemma CopyPremises(w: Words, h: Heap, h1: Heap, p: int, r: int, size: int)
    requires Inv(h) && Inv(h1) && p in Live(h) && Live(h)[p] < Align(size) && Allocated(h, size, h1, r) && r != 0
    requires 0 < size <= TWO32 - 16
    ensures r in Live(h1) && p in Live(h1) && Live(h1)[p] == Live(h)[p] && r != p && p in h1.blk
    ensures h1.blk[p].size == Live(h)[p] + 8 && Live(h)[p] + 8 <= Live(h1)[r]
  {
    BlockAligned(h, p);
    AlignFacts(size);
    EightApart(Live(h)[p], Align(size));
  }

  lemma EightApart(a: int, b: int)
    requires (a + 8) % 8 == 0 && b % 8 == 0 && a < b
    ensures a + 8 <= b
  {
  }

  lemma NewPayload(w: Words, w1: Words, w2: Words, h: Heap, h1: Heap, p: int, r: int, c: int)
    requires Kept(w, w1, Live(h)) && Kept(w1, w2, Live(h1) - {r}) && Copied(w1, w2, p, r, c)
    requires p in Live(h) && c <= Live(h)[p] && r !in Live(h) && r in Live(h1) && Live(h1) == Live(h)[r := Live(h1)[r]]
    ensures Kept(w, w2, Live(h)) && Copied(w, w2, p, r, c)
  {
    assert Within(Live(h), Live(h1) - {r});
    LiveWithin(Live(h));
    KeptTrans(w, w1, w2, Live(h), Live(h1) - {r}, Live(h));
    KeptCopied(w, w1, w2, p, r, c, Live(h));
  }

  lemma FreedContents(w: Words, w2: Words, w3: Words, h: Heap, h1: Heap, p: int, r: int, c: int)
    requires Kept(w, w2, Live(h)) && Copied(w, w2, p, r, c) && Kept(w2, w3, Live(h1) - {p})
    requires r !in Live(h) && r in Live(h1) && Live(h1) == Live(h)[r := Live(h1)[r]] && r != p && c <= Live(h1)[r]
    ensures Kept(w, w3, Live(h) - {p}) && Copied(w, w3, p, r, c)
  {
    assert Within(Live(h) - {p}, Live(h)) && Within(Live(h) - {p}, Live(h1) - {p});
    KeptTrans(w, w2, w3, Live(h), Live(h1) - {p}, Live(h) - {p});
    CopiedKept(w, w2, w3, p, r, c, Live(h1) - {p});
  }

  /** Sizes and bounds of a merge with the block before p. */
  lemma PrevRoom(w: Words, h: Heap, p: int, q: int, asize: int)
    requires Stored(w, h) && Inv(h) && p in h.blk && PrevFree(h, p) && q == h.prev[p] && asize % 8 == 0
    requires h.blk[p].size - 8 < asize <= h.blk[p].size + h.blk[q].size - 8
    ensures
      var c, t := h.blk[p].size - 8, h.blk[p].size + h.blk[q].size;
      && p % 8 == 0 && q % 8 == 0 && c % 8 == 0 && t % 8 == 0 && (asize + 8) % 8 == 0
      && 8 <= c && c + 16 <= asize + 8 <= t && q < p && 120 <= h.lo <= q && q + t <= h.hi <= h.limit
      && p + c + 8 <= h.hi && FreeBlock(h, q) && LooseInv(h, {})
  {
    LivePremises(w, h, p);
    LivePremises(w, h, q);
    PrevTouches(h, p, q);
    hide Inv, Stored, LooseInv;
    EightApart(h.blk[p].size - 8, asize);
    Multiples(h.blk[p].size, h.blk[q].size);
    Multiples(asize, 8);
    NextEight(h.blk[p].size);
  }

  lemma PrevTouches(h: Heap, p: int, q: int)
    requires Inv(h) && p in h.blk && PrevFree(h, p) && q == h.prev[p]
    ensures q + h.blk[q].size == p
  {
    assert PrevOk(h, p);
  }

  lemma MovedDown(w: Words, w1: Words, w2: Words, h: Heap, h1: Heap, g: Heap, p: int, q: int, n: int)
    requires Inv(h) && p in Live(h) && Inv(g) && q in g.blk && g.blk[q].alloc && SameExtent(h1, g) && SameExtent(h, h1)
    requires Stored(w1, h1) && SameOutside(h1, g, q, q + g.blk[q].size) && Kept(w, w1, Live(h))
    requires Live(g) - {q} == Live(h) - {p}
    requires h.blk[p].size + 8 <= n <= g.blk[q].size && q - 4 in w1 && q + n - 8 in w1 && q + g.blk[q].size - 8 in w1
    requires w2 == MoveDown(w1, q, p, h.blk[p].size, n) && Copied(w1, w2, p, q, h.blk[p].size - 8)
    ensures Pending(w2, g, q, n) && Kept(w, w2, Live(h) - {p}) && Copied(w, w2, p, q, h.blk[p].size - 8)
  {
    hide Inv, Stored, Kept, SetTags, Copied, AgreeOutside, SameOutside, Tag, MoveDown;
    SizesPositive(h, p, p);
    InvIsLoose(g);
    MoveDownAgrees(w1, q, p, h.blk[p].size, n, g.blk[q].size);
    PendingHolds(w1, w2, h1, g, q, n);
    LessKept(w, w1, Live(h), p);
    KeptBoth(w, w1, w2, Live(h) - {p});
    KeptCopied(w, w1, w2, p, q, h.blk[p].size - 8, Live(h));
  }

  lemma GrewIntoNext(w: Words, w1: Words, w2: Words, h: Heap, p: int, b: int, n: int)
    requires Inv(h) && p in Live(h) && NextFree(h, p) && b == p + h.blk[p].size && Kept(w, w1, Live(h))
    requires Stored(w1, Unlink(h, b)) && w2 == SetTags(w1, p, n, true)
    requires n % 8 == 0 && h.blk[p].size <= n <= h.blk[p].size + h.blk[b].size && p - 4 in w1 && p + n - 8 in w1
    ensures
      var g := AbsorbNext(h, p);
      && Inv(g) && SameExtent(h, g) && Pending(w2, g, p, n) && p in g.blk &&
        g.blk[p].size == h.blk[p].size + h.blk[b].size
      && Kept(w, w2, Live(h) - {p}) && Copied(w, w2, p, p, h.blk[p].size - 8)
  {
    hide Inv, Stored, Kept, SetTags, Copied, AgreeOutside, SameOutside, Unlink, AbsorbNext, Tag;
    var g := AbsorbNext(h, p);
    var c := h.blk[p].size - 8;
    SizesPositive(h, p, b);
    TakeNextOutside(h, p);
    InvIsLoose(g);
    UnlinkKeepsBlocks(h, b);
    TagsMapped(w1, Unlink(h, b), b);
    TagsAgree(w1, p, n, g.blk[p].size);
    PendingHolds(w1, w2, Unlink(h, b), g, p, n);
    LessKept(w, w1, Live(h), p);
    KeptBoth(w, w1, w2, Live(h) - {p});
    TagsSpare(w1, p, n, c);
    KeptCopied(w, w1, w2, p, p, c, Live(h));
  }

  lemma NewSizeAligned(g: Heap, q: int, asize: int, n: int)
    requires Inv(g) && q in g.blk && asize % 8 == 0 && (n == asize + 8 || n == g.blk[q].size)
    ensures n % 8 == 0
  {
    BlockAligned(g, q);
  }

  /** The words after bp is linked behind prev and before curr; without prev it becomes the head. */
  function LinkWords(w: Words, t: int, prev: int, curr: int, bp: int): Words {
    if prev == 0 then PushWords(w, t, curr, bp)
    else if curr != 0 then w[prev := bp][bp + 4 := prev][bp := curr][curr + 4 := bp]
    else w[bp + 4 := prev][prev := bp][bp := 0]
  }

  lemma LinkedFirst(w: Words, t: int, curr: int, bp: int)
    ensures LinkWords(w, t, 0, curr, bp) == PushWords(w, t, curr, bp)
  {
  }

  /** The next even number. */
  function EvenUp(n: int): int {
    if n % 2 != 0 then n + 1 else n
  }

  lemma EvenWords(n: int)
    ensures EvenUp(n) * WSIZE % 8 == 0
  {
    var m := EvenUp(n);
    var k := m / 2;
    assert m == 2 * k;
    Quotient(m * WSIZE, 8, k, 0);
  }

  lemma BlocksApart(h: Heap, a: int, b: int)
    requires Inv(h) && a in h.blk && b in h.blk && a != b
    ensures a + h.blk[a].size <= b || b + h.blk[b].size <= a
  {
  }

  lemma CopyRoom(w: Words, h: Heap, p: int, r: int, csize: int)
    requires Stored(w, h) && Inv(h) && p in h.blk && r in Live(h) && p != r
    requires csize == h.blk[p].size - 8 && csize + 8 <= Live(h)[r]
    ensures p % 4 == 0 && r % 4 == 0 && (csize + 8) % 4 == 0 && csize >= 8
    ensures p + csize + 8 <= r || r + csize + 8 <= p
    ensures h.lo <= p && p + csize + 8 <= h.limit && h.lo <= r && r + csize + 8 <= h.limit
  {
    LiveIsBlock(h, r);
    BlocksApart(h, p, r);
    LivePremises(w, h, p);
    LivePremises(w, h, r);
    hide Inv, Stored, LooseInv, Live;
    Multiples(p, h.blk[p].size);
    Multiples(r, h.blk[p].size);
    Multiples(h.blk[p].size, 0);
  }

  lemma LivePremises(w: Words, h: Heap, a: int)
    requires Stored(w, h) && Inv(h) && a in h.blk
    ensures LooseInv(h, {}) && 120 <= h.lo <= a && a + h.blk[a].size <= h.hi <= h.limit && 16 <= h.blk[a].size
    ensures a % 8 == 0 && h.blk[a].size % 8 == 0 && |h.lists| == SEG_SIZE
    ensures Reads(w, a - 4, h.blk[a].size, h.blk[a].alloc) && a + h.blk[a].size - 8 in w
    ensures h.blk[a].alloc ==> a in Live(h) && Live(h)[a] == h.blk[a].size - 8
  {
    BlockAligned(h, a);
    ReadTags(w, h, a);
  }

  lemma TrimMapped(w: Words, h: Heap, p: int, asize: int)
    requires Stored(w, h) && Inv(h) && p in h.blk && asize % 8 == 0 && 8 <= asize && asize + 16 < h.blk[p].size
    ensures p - 4 in w && p + (asize + 8) - 8 in w
  {
    InnerMapped(w, h, h, p, h.blk[p].size, asize + 8);
  }

  /** The tag words of the first n bytes of the t bytes at q, in words w of a heap g that extends like h. */
  lemma InnerMapped(w: Words, h: Heap, g: Heap, q: int, t: int, n: int)
    requires Inv(h) && q in h.blk && Stored(w, g) && SameExtent(h, g)
    requires n % 8 == 0 && 16 <= n <= t && q + t <= h.hi
    ensures q - 4 in w && q + n - 8 in w
  {
    BlockAligned(h, q);
    Multiples(q, n);
    assert h.blk[q].size >= 16;
    IsMapped(w, g, q - 4);
    IsMapped(w, g, q + n - 8);
  }

  lemma LessKept(w: Words, w': Words, live: map<int, int>, p: int)
    requires Kept(w, w', live)
    ensures Kept(w, w', live - {p})
  {
    var less := live - {p};
    forall a, q {:trigger less[a], w'[q]} | a in less && a <= q < a + less[a] && q in w
      ensures q in w' && w'[q] == w[q] {
      assert live[a] == less[a];
    }
  }

  lemma PendingFacts(w: Words, g: Heap, q: int, asize: int, n: int)
    requires Pending(w, g, q, n) && Inv(g) && asize % 8 == 0
    requires n == asize + 8 || n == g.blk[q].size
    ensures q in Live(g) && n % 8 == 0 && g.blk[q].size % 8 == 0 && Reads(w, q - 4, n, true)
    ensures 120 <= g.lo <= q && q + g.blk[q].size <= g.hi <= g.limit
  {
    PendingBlock(g, q);
    hide Inv, Stored;
    if n == asize + 8 { NextEight(asize); }
    TagReads(n, true);
  }

  lemma PendingBlock(g: Heap, q: int)
    requires Inv(g) && q in g.blk && g.blk[q].alloc
    ensures q in Live(g) && g.blk[q].size % 8 == 0 && 120 <= g.lo <= q && q + g.blk[q].size <= g.hi <= g.limit
  {
    BlockAligned(g, q);
  }

  lemma ShrinkPremises(w: Words, g: Heap, q: int, n: int)
    requires Pending(w, g, q, n) && Inv(g) && n % 8 == 0 && n <= g.blk[q].size - 16
    ensures LooseInv(g, {}) && q + n - 4 in w && q + g.blk[q].size - 8 in w
    ensures
      var h1 := SetAlloc(Split(g, q, n), q + n, false);
      Shrink(g, q, n) == SegOps.Coalesce(Push(h1, q + n), q + n).0
    ensures
      var h1 := SetAlloc(Split(g, q, n), q + n, false);
      && LooseInv(Push(h1, q + n), {}) && FreeBlock(Push(h1, q + n), q + n)
      && Live(Push(h1, q + n)) == Live(h1) && Live(Shrink(g, q, n)) == Live(h1)
  {
    var h1 := SetAlloc(Split(g, q, n), q + n, false);
    var v := SetTags(w, q, g.blk[q].size, true);
    CutMapped(v, g, {}, q, n);
    TrimCut(g, q, n);
    TrimEffect(g, q, n);
    PushLoose(h1, {q + n}, q + n);
    assert {q + n} - {q + n} == {};
    SameBlocks(h1, Push(h1, q + n), 0);
    NewFreeBlock(h1, q + n);
  }

  /** What find_fit and extend_heap give place. */
  lemma MallocSteps(h: Heap, asize: int)
    requires Inv(h) && asize % 8 == 0 && 24 <= asize
    ensures SegMalloc.FindFit(h, asize) == FindFrom(h, 0 + FloorLog2(asize), asize)
    ensures SegMalloc.FindFit(h, asize) != 0 ==>
      var a := SegMalloc.FindFit(h, asize);
      FreeBlock(h, a) && asize <= h.blk[a].size
    ensures
      var (h1, b) := Extend(h, Max(asize, DCHUNKSIZE));
      && (b == 0 ==> h1 == h)
      && (b != 0 ==> Inv(h1) && Live(h1) == Live(h) && FreeBlock(h1, b) && asize <= h1.blk[b].size)
  {
    FindFitIs(h, asize);
    ExtendInv(h, Max(asize, DCHUNKSIZE));
  }

  lemma WordsOf(n: int)
    requires n % 8 == 0
    ensures n / 4 % 2 == 0 && 4 * (n / 4) == n
  {
  }

  lemma FreePremises(w: Words, h: Heap, p: int)
    requires Stored(w, h) && Inv(h) && p in Live(h)
    ensures LooseInv(h, {}) && p in h.blk && h.blk[p].alloc
    ensures
      var n := h.blk[p].size;
      && Reads(w, p - 4, n, true) && n % 8 == 0 && 16 <= n && 120 <= h.lo <= p && p + n <= h.hi <= h.limit
      && p - 4 in w && p + n - 8 in w
    ensures
      var g := SetAlloc(h, p, false);
      && LooseInv(g, {p}) && FreeBlock(g, p) && Live(g) == Live(h) - {p} && SameExtent(h, g)
      && LooseInv(Push(g, p), {}) && FreeBlock(Push(g, p), p) && Live(Push(g, p)) == Live(g)
  {
    ReadTags(w, h, p);
    SetAllocLoose(h, {}, p, false);
    assert {} + {p} == {p};
    FreeEffect(h, p);
    var g := SetAlloc(h, p, false);
    PushLoose(g, {p}, p);
    assert {p} - {p} == {};
    SameBlocks(g, Push(g, p), 0);
  }

  lemma TableSlots(w: Words, h: Heap)
    requires Stored(w, h)
    ensures |h.lists| == SEG_SIZE
    ensures forall k :: 0 <= k < SEG_SIZE ==> h.lo - TABLE + 4 * k in w && w[h.lo - TABLE + 4 * k] == Head(h.lists[k])
    ensures h.lo - TABLE + 4 * SEG_SIZE in w && w[h.lo - TABLE + 4 * SEG_SIZE] == 0
  {
    forall k | 0 <= k < SEG_SIZE
      ensures h.lo - TABLE + 4 * k in w && w[h.lo - TABLE + 4 * k] == Head(h.lists[k]) {
      assert ListOk(w, h, k);
    }
  }

  lemma GrowthMapped(w: Words, h: Heap, n: int)
    requires Stored(w, h) && LooseInv(h, {}) && n % 8 == 0 && n >= 16 && h.hi + n <= h.limit
    ensures h.hi - 4 in w && h.hi + n - 8 in w && h.hi + n - 4 in w && Tiled(h) && Listed(h)
  {
    GrowMapped(w, h, n);
  }

  lemma GrowFacts(h: Heap, n: int)
    requires Inv(h) && n % 8 == 0 && n >= 16 && h.hi + n <= h.limit
    ensures
      var g := Grow(h, n);
      && LooseInv(g, {h.hi}) && FreeBlock(g, h.hi) && g.blk[h.hi].size == n
      && g.lo == h.lo && g.hi == h.hi + n && g.limit == h.limit && Live(g) == Live(h)
      && LooseInv(Push(g, h.hi), {}) && FreeBlock(Push(g, h.hi), h.hi) && Live(Push(g, h.hi)) == Live(h)
  {
    var g := Grow(h, n);
    GrowLoose(h, {}, n);
    assert {} + {h.hi} == {h.hi};
    GrowEffect(h, n);
    PushLoose(g, {h.hi}, h.hi);
    assert {h.hi} - {h.hi} == {};
    SameBlocks(g, Push(g, h.hi), 0);
  }

  lemma PlacePremises(w: Words, h: Heap, a: int, asize: int)
    requires Stored(w, h) && Inv(h) && FreeBlock(h, a) && asize % 8 == 0
    ensures LooseInv(h, {}) && LooseInv(Unlink(h, a), {a}) && FreeBlock(Unlink(h, a), a)
    ensures
      var n := h.blk[a].size;
      Reads(w, a - 4, n, false) && n % 8 == 0 && (n - asize) % 8 == 0 && 120 <= h.lo <= a && a + n <= h.hi <= h.limit
  {
    UnlinkLoose(h, {}, a);
    assert {} + {a} == {a};
    ReadTags(w, h, a);
    PaddingAligned(h, a, asize);
  }

  /** What coalesce reads around block a. */
  lemma Neighbours(w: Words, h: Heap, a: int)
    requires Stored(w, h) && LooseInv(h, {}) && a in h.blk
    ensures
      && a - 8 in w && var p := a - SizeOf(w[a - 8]);
      && Reads(w, a - 4, h.blk[a].size, h.blk[a].alloc)
      && p - 4 in w && AllocOf(w[p - 4]) == Bit(!PrevFree(h, a))
      && a + h.blk[a].size - 4 in w && AllocOf(w[a + h.blk[a].size - 4]) == Bit(!NextFree(h, a))
  {
    ReadTags(w, h, a);
    ReadPrev(w, h, a);
    ReadNext(w, h, a);
  }

  lemma CoalesceIs(h: Heap, h1: Heap, a: int)
    requires LooseInv(h, {}) && a in h.blk && h1 == Unlink(h, a) && (PrevFree(h, a) || NextFree(h, a))
    ensures PrevFree(h1, a) == PrevFree(h, a) && NextFree(h1, a) == NextFree(h, a)
    ensures SegOps.Coalesce(h, a) == (Push(Fuse(h1, a), Front(h, a)), Front(h, a))
    ensures !PrevFree(h, a) ==> Fuse(h1, a) == AbsorbNext(h1, a) && Front(h, a) == a
    ensures !NextFree(h, a) ==> Fuse(h1, a) == AbsorbIntoPrev(h1, a)
    ensures PrevFree(h, a) ==> Front(h, a) == h1.prev[a]
  {
    TiledLocal(h, a);
    assert Local(h1, a);
    AbsorbNextLocal(h1, a);
  }

  /** A free block between two free blocks. */
  lemma Surround(h: Heap, limbo: set<int>, a: int)
    requires LooseInv(h, limbo) && FreeBlock(h, a) && PrevFree(h, a) && NextFree(h, a)
    ensures
      var p, b := h.prev[a], a + h.blk[a].size;
      FreeBlock(h, p) && FreeBlock(h, b) && p in h.blk && b in h.blk && p < a < b && p + h.blk[p].size == a
  {
    assert PrevOk(h, a);
  }

  /** The tag words of block a, in words w of a heap g with the blocks of h. */
  lemma TagWords(w: Words, g: Heap, h: Heap, limbo: set<int>, a: int)
    requires Stored(w, g) && g.blk == h.blk && LooseInv(h, limbo) && a in h.blk
    ensures
      var n := h.blk[a].size;
      && n % 8 == 0 && 16 <= n && a + n <= h.hi <= h.limit && h.lo <= a
      && Reads(w, a - 4, n, h.blk[a].alloc) && Reads(w, a + n - 8, n, h.blk[a].alloc)
  {
    assert TagOk(w, g, a);
    TagReads(h.blk[a].size, h.blk[a].alloc);
  }

  lemma UnlinkTwice(h: Heap, limbo: set<int>, x: int, y: int)
    requires LooseInv(h, limbo) && FreeBlock(h, x) && x !in limbo && FreeBlock(h, y) && y !in limbo && x != y
    ensures LooseInv(Unlink(h, x), limbo + {x})
    ensures FreeBlock(Unlink(h, x), y) && y !in limbo + {x}
  {
    UnlinkLoose(h, limbo, x);
  }

  /** A free block sits at one place of its list, and its links lead to mapped blocks. */
  lemma EnlistedAt(w: Words, h: Heap, limbo: set<int>, x: int) returns (i: nat)
    requires Stored(w, h) && LooseInv(h, limbo) && FreeBlock(h, x) && x !in limbo
    ensures Enlisted(h, x)
    ensures
      var s := h.lists[Class(h.blk[x].size)];
      && i == IndexOf(s, x) && x in w && x + 4 in w && w[x] == Older(s, i) && w[x + 4] == Newer(s, i)
      && Reads(w, x - 4, h.blk[x].size, false)
      && (Older(s, i) != 0 ==> Older(s, i) + 4 in w)
      && (Newer(s, i) != 0 ==> Newer(s, i) in w)
  {
    assert Enlisted(h, x);
    var c := Class(h.blk[x].size);
    var s := h.lists[c];
    i := IndexOf(s, x);
    ListNode(w, h, limbo, c, i);
    if i + 1 < |s| { ListNode(w, h, limbo, c, i + 1); }
    if i > 0 { ListNode(w, h, limbo, c, i - 1); }
  }

  lemma BlockFacts(w: Words, h: Heap, limbo: set<int>, a: int)
    requires Stored(w, h) && LooseInv(h, limbo) && a in h.blk
    ensures
      var n := h.blk[a].size;
      && |h.lists| == SEG_SIZE && 16 <= n <= h.hi - h.lo && 120 <= h.lo <= a && a + n <= h.hi <= h.limit
      && a in w && a + 4 in w && a - 4 in w && a + n - 8 in w
      && n % 8 == 0 && a % 8 == 0 && Reads(w, a - 4, n, h.blk[a].alloc) && Reads(w, a + n - 8, n, h.blk[a].alloc)
  {
    ReadTags(w, h, a);
    LinksMapped(w, h, a);
  }

  lemma SmallPowers()
    ensures Pow2(1) == 2 && Pow2(2) == 4
    ensures Pow2(25) == 0x200_0000
  {
    assert Pow2(5) == 32;
    assert Pow2(10) == 1024;
    assert Pow2(15) == 0x8000;
    assert Pow2(20) == 0x10_0000;
  }

  lemma ListMapped(w: Words, h: Heap, k: nat)
    requires Stored(w, h) && k < SEG_SIZE
    ensures h.lo - TABLE + 4 * k in w && w[h.lo - TABLE + 4 * k] == Head(h.lists[k])
  {
    assert ListOk(w, h, k);
  }

  /** What the words of the i-th block of list k say. */
  lemma ListNode(w: Words, h: Heap, limbo: set<int>, k: nat, i: nat)
    requires Stored(w, h) && LooseInv(h, limbo) && k < SEG_SIZE && i < |h.lists[k]|
    ensures
      var s := h.lists[k];
      && IsNode(h, k, s[i]) && s[i] != 0
      && Reads(w, s[i] - 4, h.blk[s[i]].size, false)
      && s[i] in w && w[s[i]] == Head(s[i + 1..]) && s[i] + 4 in w && w[s[i] + 4] == Newer(s, i)
      && h.blk[s[i]].size >= 16 && 120 <= h.lo <= s[i] < h.hi <= h.limit
  {
    var s := h.lists[k];
    assert ListOk(w, h, k);
    assert LinkOk(w, s, i);
    assert s[i] in h.lists[k];
    assert IsNode(h, k, s[i]);
    ReadTags(w, h, s[i]);
  }
}
