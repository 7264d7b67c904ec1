/** mm_malloc, mm_free and mm_realloc of mm-2017-19651.c on the abstract heap. */
module SegMalloc {
  import opened Basics
  import opened SegHeap
  import opened SegOps

  const TWO32: int := 0x1_0000_0000

  /** ALIGN on 32-bit unsigned operands: round up to a multiple of 8, wrapping. */
  function Align(n: int): int {
    (n + 7) % TWO32 / 8 * 8
  }

  /** The block size mm_malloc asks for. */
  function AdjustedSize(size: int): int {
    if size <= 16 then 24 else Align((size + 8) % TWO32)
  }

  // ---------------------------------------------------------------- the operations

  /** The first block of list `s`, from the head, that has `asize` bytes; 0 if none. */
  function FirstFit(h: Heap, s: seq<int>, asize: int): int {
    if s == [] then 0
    else if s[0] in h.blk && asize <= h.blk[s[0]].size then s[0]
    else FirstFit(h, s[1..], asize)
  }

  function FindFrom(h: Heap, k: nat, asize: int): int
    decreases SEG_SIZE - k
  {
    if k >= SEG_SIZE || k >= |h.lists| then 0
    else if FirstFit(h, h.lists[k], asize) != 0 then FirstFit(h, h.lists[k], asize)
    else FindFrom(h, k + 1, asize)
  }

  function FindFit(h: Heap, asize: int): int {
    FindFrom(h, FloorLog2(asize), asize)
  }

  /** place: small requests go to the back of the free block, large ones to its front. */
  function Place(h: Heap, a: int, asize: int): (Heap, int) {
    Carve(Unlink(h, a), a, asize)
  }

  function Carve(h: Heap, a: int, asize: int): (Heap, int) {
    if a !in h.blk then (h, 0)
    else if h.blk[a].size - asize < 16 then (SetAlloc(h, a, true), a)
    else if asize > MINSIZE then (Push(CutFront(h, a, asize), a + asize), a)
    else (Push(CutBack(h, a, h.blk[a].size - asize), a), a + h.blk[a].size - asize)
  }

  /** Cuts free block `a` in two and hands out the front or the back part. */
  function CutFront(h: Heap, a: int, n: int): Heap {
    SetAlloc(Split(h, a, n), a, true)
  }

  function CutBack(h: Heap, a: int, n: int): Heap {
    SetAlloc(Split(h, a, n), a + n, true)
  }

  /** extend_heap: 0 when mem_sbrk refuses. */
  function Extend(h: Heap, n: int): (Heap, int) {
    if h.hi + n > h.limit then (h, 0) else Coalesce(Push(Grow(h, n), h.hi), h.hi)
  }

  function Malloc(h: Heap, size: int): (Heap, int) {
    if size <= 0 then (h, 0) else
    var asize := AdjustedSize(size);
    var a := FindFit(h, asize);
    if a != 0 then Place(h, a, asize)
    else
      var (h1, b) := Extend(h, Max(asize, DCHUNKSIZE));
      if b == 0 then (h1, 0) else Place(h1, b, asize)
  }

  function Free(h: Heap, p: int): Heap {
    Coalesce(Push(SetAlloc(h, p, false), p), p).0
  }

  /** Cuts allocated block `p` down to `n` bytes and frees the rest. */
  function Shrink(h: Heap, p: int, n: int): Heap {
    Coalesce(Push(SetAlloc(Split(h, p, n), p + n, false), p + n), p + n).0
  }

  /** Gives back what block `p` has beyond a payload of `asize` bytes, if that is more than the
      8 bytes two tags need. */
  function Trim(h: Heap, p: int, asize: int): Heap {
    if p !in h.blk || h.blk[p].size - 8 - asize <= 8 then h else Shrink(h, p, asize + 8)
  }

  /** Allocated block `p` takes over the free block before it. */
  function TakePrev(h: Heap, p: int): Heap {
    SetAlloc(AbsorbIntoPrev(h, p), Front(h, p), true)
  }

  /** The free bytes just before and just after block p. */
  function FreeBefore(h: Heap, p: int): int {
    if PrevFree(h, p) then SizeAt(h, h.prev[p]) else 0
  }

  function FreeAfter(h: Heap, p: int): int {
    if NextFree(h, p) then SizeAt(h, p + h.blk[p].size) else 0
  }

  function Realloc(h: Heap, p: int, size: int): (Heap, int) {
    if p == 0 || p !in h.blk then Malloc(h, size)
    else if size <= 0 then (Free(h, p), p)
    else
      var csize := h.blk[p].size - 8;
      var asize := Align(size);
      var psize := FreeBefore(h, p);
      var nsize := FreeAfter(h, p);
      if asize <= csize then (Trim(h, p, asize), p)
      else if PrevFree(h, p) && psize + csize >= asize then (Trim(TakePrev(h, p), Front(h, p), asize), Front(h, p))
      else if !PrevFree(h, p) && NextFree(h, p) && nsize + csize >= asize then (Trim(AbsorbNext(h, p), p, asize), p)
      else if PrevFree(h, p) && NextFree(h, p) && psize + nsize + csize >= asize then
        (Trim(TakePrev(AbsorbNext(h, p), p), Front(h, p), asize), Front(h, p))
      else
        var (h1, r) := Malloc(h, size);
        if r == 0 then (h1, 0) else (Free(h1, p), r)
  }

  // ---------------------------------------------------------------- sizes

  lemma AlignFacts(n: int)
    requires 0 <= n <= TWO32 - 8
    ensures Align(n) % 8 == 0 && n <= Align(n) < n + 8
  {
  }

  /** Requests are rounded up correctly exactly when they do not wrap at 32 bits. */
  lemma AdjustedSizeFits(size: int)
    requires 0 < size < TWO32
    ensures AdjustedSize(size) >= size + 8 <==> size <= TWO32 - 16
    ensures size <= TWO32 - 16 ==>
      var n := AdjustedSize(size);
      n % 8 == 0 && n >= 24 && n - 8 >= Align(size) >= size && n <= Max(24, size + 15)
    ensures size > TWO32 - 16 ==> AdjustedSize(size) <= 8
  {
    hide Align;
    WrapOnce(size + 8);
    if size <= 16 {
      AlignFacts(size);
    } else if size <= TWO32 - 16 {
      AlignFacts(size);
      AlignFacts(size + 8);
      MultiplesBelow(Align(size), Align(size + 8), size);
    } else if size < TWO32 - 8 {
      AlignWraps(size + 8);
    } else {
      AlignFacts(size + 8 - TWO32);
    }
  }

  lemma WrapOnce(n: int)
    requires 0 <= n < 2 * TWO32
    ensures n % TWO32 == if n < TWO32 then n else n - TWO32
  {
  }

  lemma AlignWraps(n: int)
    requires TWO32 - 8 < n < TWO32
    ensures Align(n) == 0
  {
  }

  lemma MultiplesBelow(a: int, b: int, n: int)
    requires a % 8 == 0 && b % 8 == 0 && a < n + 8 && n + 8 <= b
    ensures a <= b - 8
  {
  }

  // ---------------------------------------------------------------- find_fit

  lemma {:induction false} FloorLog2Bounds(n: int)
    requires n >= 1
    ensures Pow2(FloorLog2(n)) <= n < 2 * Pow2(FloorLog2(n))
  {
    if n > 1 { FloorLog2Bounds(n / 2); }
  }

  lemma {:induction false} FloorLog2Monotone(m: int, n: int)
    requires m <= n
    ensures FloorLog2(m) <= FloorLog2(n)
  {
    if m > 1 { FloorLog2Monotone(m / 2, n / 2); }
  }

  /** A block of `n` bytes is on list min(23, floor(log2 n)). */
  lemma ClassBounds(n: int)
    requires n >= 1
    ensures Pow2(Class(n)) <= n
    ensures Class(n) < SEG_SIZE - 1 ==> n < 2 * Pow2(Class(n))
  {
    FloorLog2Bounds(n);
    if FloorLog2(n) >= SEG_SIZE { PowMonotone(SEG_SIZE - 1, FloorLog2(n)); }
  }

  lemma {:induction false} PowMonotone(j: nat, k: nat)
    requires j <= k
    ensures Pow2(j) <= Pow2(k)
  {
    if j < k { PowMonotone(j, k - 1); }
  }

  predicate Fits(h: Heap, x: int, asize: int) {
    x in h.blk && asize <= h.blk[x].size
  }

  /** r is the first element of s that fits, or 0 if there is none. */
  ghost predicate IsFirstFit(h: Heap, s: seq<int>, asize: int, r: int) {
    if r == 0 then forall x :: x in s ==> !Fits(h, x, asize)
    else exists i {:trigger s[i]} :: 0 <= i < |s| && s[i] == r && Fits(h, r, asize) && NoneBefore(h, s, i, asize)
  }

  ghost predicate NoneBefore(h: Heap, s: seq<int>, i: int, asize: int)
    requires 0 <= i <= |s|
  {
    forall j :: 0 <= j < i ==> !Fits(h, s[j], asize)
  }

  lemma {:induction false} FirstFitIs(h: Heap, s: seq<int>, asize: int)
    requires 0 !in s
    ensures IsFirstFit(h, s, asize, FirstFit(h, s, asize))
  {
    if s != [] && Fits(h, s[0], asize) {
      assert NoneBefore(h, s, 0, asize);
    } else if s != [] {
      FirstFitIs(h, s[1..], asize);
      var r := FirstFit(h, s[1..], asize);
      if r != 0 {
        var i :| 0 <= i < |s[1..]| && s[1..][i] == r && Fits(h, r, asize) && NoneBefore(h, s[1..], i, asize);
        assert s[i + 1] == r;
        forall j | 0 <= j < i + 1 ensures !Fits(h, s[j], asize) {
          if j > 0 { assert s[1..][j - 1] == s[j]; }
        }
      }
    }
  }

  /** No block of a list in [from, to) fits. */
  ghost predicate NoneFits(h: Heap, from: nat, to: nat, asize: int) {
    forall k, x {:trigger x in h.lists[k]} :: from <= k < to && k < |h.lists| && x in h.lists[k] ==> !Fits(h, x, asize)
  }

  lemma {:induction false} FindFromIs(h: Heap, k: nat, asize: int)
    requires |h.lists| == SEG_SIZE && forall j :: 0 <= j < SEG_SIZE ==> 0 !in h.lists[j]
    ensures
      var r := FindFrom(h, k, asize);
      if r == 0 then NoneFits(h, k, SEG_SIZE, asize)
      else exists j: nat {:trigger h.lists[j]} ::
             k <= j < SEG_SIZE && IsFirstFit(h, h.lists[j], asize, r) && NoneFits(h, k, j, asize)
    decreases SEG_SIZE - k
  {
    if k < SEG_SIZE {
      FirstFitIs(h, h.lists[k], asize);
      if FirstFit(h, h.lists[k], asize) == 0 { FindFromIs(h, k + 1, asize); }
    }
  }

  lemma FloorLog2AtLeast(n: int, k: nat)
    requires n >= 1
    ensures FloorLog2(n) >= k <==> n >= Pow2(k)
  {
    FloorLog2Bounds(n);
    if FloorLog2(n) >= k { PowMonotone(k, FloorLog2(n)); } else { PowMonotone(FloorLog2(n) + 1, k); }
  }

  lemma LowerClassesTooSmall(h: Heap, asize: int, to: nat)
    requires Listed(h) && to <= FloorLog2(asize) && to < SEG_SIZE
    ensures NoneFits(h, 0, to, asize)
  {
    forall k, x {:trigger x in h.lists[k]} | 0 <= k < to && k < |h.lists| && x in h.lists[k]
      ensures !Fits(h, x, asize) {
      assert IsNode(h, k, x);
      if asize <= h.blk[x].size { FloorLog2Monotone(asize, h.blk[x].size); }
    }
  }

  lemma ListsAvoidNull(h: Heap)
    requires Listed(h) && Bounded(h) && h.lo >= 120
    ensures forall j :: 0 <= j < SEG_SIZE ==> 0 !in h.lists[j]
  {
    forall j, x | 0 <= j < SEG_SIZE && x in h.lists[j] ensures x != 0 { assert IsNode(h, j, x); }
  }

  /** find_fit returns the first fitting block of the lowest list that has one. It misses a
      free block that fits exactly when the request is 2^24 bytes or more. */
  lemma FindFitIs(h: Heap, asize: int)
    requires LooseInv(h, {}) && asize >= 1
    ensures
      var r := FindFit(h, asize);
      && (r == 0 <==> asize >= Pow2(SEG_SIZE) || forall x :: x in h.blk && !h.blk[x].alloc ==> h.blk[x].size < asize)
      && (r != 0 ==>
            && r in h.blk && !h.blk[r].alloc && asize <= h.blk[r].size
            && exists k: nat {:trigger h.lists[k]} ::
                 k < SEG_SIZE && IsFirstFit(h, h.lists[k], asize, r) && NoneFits(h, 0, k, asize))
  {
    var f := FloorLog2(asize);
    var r := FindFit(h, asize);
    FloorLog2AtLeast(asize, SEG_SIZE);
    ListsAvoidNull(h);
    if f < SEG_SIZE {
      FindFromIs(h, f, asize);
      LowerClassesTooSmall(h, asize, f);
      if r == 0 {
        forall x | x in h.blk && !h.blk[x].alloc ensures h.blk[x].size < asize {
          assert Enlisted(h, x);
          assert !Fits(h, x, asize);
        }
      } else {
        var k: nat :| f <= k < SEG_SIZE && IsFirstFit(h, h.lists[k], asize, r) && NoneFits(h, f, k, asize);
        assert r in h.lists[k];
        assert IsNode(h, k, r);
        assert NoneFits(h, 0, k, asize);
      }
    }
  }

  // ---------------------------------------------------------------- place

  lemma CutLoose(h: Heap, a: int, n: int)
    requires LooseInv(h, {a}) && a in h.blk && n % 8 == 0 && 16 <= n <= h.blk[a].size - 16
    ensures a + n !in h.blk
    ensures LooseInv(CutFront(h, a, n), {a + n}) && LooseInv(CutBack(h, a, n), {a})
  {
    hide LooseInv, SetAlloc;
    SplitLoose(h, {a}, a, n);
    var h1 := Split(h, a, n);
    SetAllocLoose(h1, {a} + {a + n}, a, true);
    SetAllocLoose(h1, {a} + {a + n}, a + n, true);
    assert {a} + {a + n} - {a} == {a + n};
    assert {a} + {a + n} - {a + n} == {a};
  }

  lemma CutFrontEffect(h: Heap, a: int, n: int)
    requires a in h.blk && !h.blk[a].alloc && 16 <= n <= h.blk[a].size - 16 && a + n !in h.blk
    requires CoalescedBut(h, 0) && Bounded(h) && Disjoint(h) && a > 0
    ensures CoalescedBut(CutFront(h, a, n), 0)
    ensures Live(CutFront(h, a, n)) == Live(h)[a := n - 8]
  {
  }

  lemma CutBackEffect(h: Heap, a: int, n: int)
    requires a in h.blk && !h.blk[a].alloc && 16 <= n <= h.blk[a].size - 16 && a + n !in h.blk
    requires CoalescedBut(h, 0) && a > 0
    ensures CoalescedBut(CutBack(h, a, n), 0)
    ensures Live(CutBack(h, a, n)) == Live(h)[a + n := h.blk[a].size - n - 8]
  {
  }

  /** h' is h with a fresh payload r of at least `asize` - 8 bytes carved out of free block a. */
  ghost predicate Carved(h: Heap, a: int, asize: int, h': Heap, r: int)
    requires a in h.blk
  {
    && h'.lo == h.lo && h'.hi == h.hi && h'.limit == h.limit
    && r in h'.blk && asize <= h'.blk[r].size < asize + 16
    && a <= r && r + h'.blk[r].size <= a + h.blk[a].size
    && r !in Live(h) && Live(h') == Live(h)[r := h'.blk[r].size - 8]
  }

  /** place hands out a fresh payload of the requested size from inside the free block. */
  lemma PlaceInv(h: Heap, a: int, asize: int)
    requires Inv(h) && a in h.blk && !h.blk[a].alloc
    requires asize % 8 == 0 && 16 <= asize <= h.blk[a].size
    ensures Inv(Place(h, a, asize).0) && Carved(h, a, asize, Place(h, a, asize).0, Place(h, a, asize).1)
  {
    UnlinkLoose(h, {}, a);
    assert {} + {a} == {a};
    SameBlocks(h, Unlink(h, a), 0);
    CarveInv(Unlink(h, a), a, asize);
  }

  /** Where place puts the payload. A remainder below 16 bytes stays with the block; up to 200 bytes
      come from the back of the free block, more from its front, and the rest stays free. */
  lemma PlaceExact(h: Heap, a: int, asize: int)
    requires Inv(h) && a in h.blk && !h.blk[a].alloc
    requires asize % 8 == 0 && 16 <= asize <= h.blk[a].size
    ensures
      var (h', r) := Place(h, a, asize);
      var n := h.blk[a].size;
      if n - asize < 16 then r == a && h'.blk == h.blk[a := Block(n, true)]
      else if asize <= 200 then
        r + asize == a + n && h'.blk == h.blk[a := Block(n - asize, false)][r := Block(asize, true)]
      else r == a && h'.blk == h.blk[a := Block(asize, true)][a + asize := Block(n - asize, false)]
  {
    UnlinkLoose(h, {}, a);
    var n := h.blk[a].size;
    if n - asize >= 16 {
      NothingInside(h, a, a + asize);
      NothingInside(h, a, a + n - asize);
    }
  }

  lemma CarveInv(h: Heap, a: int, asize: int)
    requires LooseInv(h, {a}) && CoalescedBut(h, 0) && a in h.blk && !h.blk[a].alloc
    requires asize % 8 == 0 && 16 <= asize <= h.blk[a].size
    ensures Inv(Carve(h, a, asize).0) && Carved(h, a, asize, Carve(h, a, asize).0, Carve(h, a, asize).1)
  {
    PaddingAligned(h, a, asize);
    if h.blk[a].size - asize < 16 {
      assert Carve(h, a, asize) == (SetAlloc(h, a, true), a);
      PlaceWhole(h, a);
      PlaceWholeCarved(h, a, asize);
    } else if asize > MINSIZE {
      assert Carve(h, a, asize) == (Push(CutFront(h, a, asize), a + asize), a);
      PlaceFront(h, a, asize);
    } else {
      var n := h.blk[a].size - asize;
      assert Carve(h, a, asize) == (Push(CutBack(h, a, n), a), a + n);
      PlaceBack(h, a, n);
    }
  }

  lemma PaddingAligned(h: Heap, a: int, asize: int)
    requires Aligned(h) && a in h.blk && asize % 8 == 0
    ensures (h.blk[a].size - asize) % 8 == 0
  {
  }

  lemma PlaceWhole(h: Heap, a: int)
    requires LooseInv(h, {a}) && CoalescedBut(h, 0) && a in h.blk && !h.blk[a].alloc
    ensures Inv(SetAlloc(h, a, true))
  {
    SetAllocLoose(h, {a}, a, true);
    assert {a} - {a} == {};
  }

  lemma PlaceWholeCarved(h: Heap, a: int, asize: int)
    requires a in h.blk && !h.blk[a].alloc && asize <= h.blk[a].size < asize + 16
    ensures Carved(h, a, asize, SetAlloc(h, a, true), a)
  {
  }

  lemma PlaceFront(h: Heap, a: int, n: int)
    requires LooseInv(h, {a}) && CoalescedBut(h, 0) && a in h.blk && !h.blk[a].alloc
    requires n % 8 == 0 && 16 <= n <= h.blk[a].size - 16
    ensures
      var h' := Push(CutFront(h, a, n), a + n);
      Inv(h') && Carved(h, a, n, h', a)
  {
    hide LooseInv, Inv, CoalescedBut, Bounded, Disjoint, CutFront, Push, Live;
    BlockBounds(h, {a}, a);
    CutLoose(h, a, n);
    CutFrontEffect(h, a, n);
    CutFrontBlocks(h, a, n);
    PushCut(CutFront(h, a, n), a + n);
    PushExtent(CutFront(h, a, n), a + n);
  }

  lemma CutFrontBlocks(h: Heap, a: int, n: int)
    requires a in h.blk && !h.blk[a].alloc && 16 <= n <= h.blk[a].size - 16 && a + n !in h.blk
    ensures
      var g := CutFront(h, a, n);
      && a !in Live(h) && a in g.blk && g.blk[a] == Block(n, true) && a + n in g.blk && !g.blk[a + n].alloc
      && g.lo == h.lo && g.hi == h.hi && g.limit == h.limit
  {
  }

  lemma PushExtent(h: Heap, x: int)
    ensures
      var g := Push(h, x);
      g.blk == h.blk && g.lo == h.lo && g.hi == h.hi && g.limit == h.limit
  {
  }

  lemma BlockBounds(h: Heap, limbo: set<int>, a: int)
    requires LooseInv(h, limbo) && a in h.blk
    ensures a > 0 && Bounded(h) && Disjoint(h)
  {
    assert h.blk[a].size >= 16;
  }

  lemma PlaceBack(h: Heap, a: int, n: int)
    requires LooseInv(h, {a}) && CoalescedBut(h, 0) && a in h.blk && !h.blk[a].alloc
    requires n % 8 == 0 && 16 <= n <= h.blk[a].size - 16
    ensures
      var h' := Push(CutBack(h, a, n), a);
      Inv(h') && Carved(h, a, h.blk[a].size - n, h', a + n)
  {
    hide LooseInv, Inv, CoalescedBut, Bounded, Disjoint, CutBack, Push, Live;
    BlockBounds(h, {a}, a);
    CutLoose(h, a, n);
    CutBackEffect(h, a, n);
    CutBackBlocks(h, a, n);
    PushCut(CutBack(h, a, n), a);
    PushExtent(CutBack(h, a, n), a);
  }

  lemma CutBackBlocks(h: Heap, a: int, n: int)
    requires a in h.blk && !h.blk[a].alloc && 16 <= n <= h.blk[a].size - 16 && a + n !in h.blk
    ensures
      var g := CutBack(h, a, n);
      && a + n !in Live(h) && a + n in g.blk && g.blk[a + n] == Block(h.blk[a].size - n, true)
      && a in g.blk && !g.blk[a].alloc && g.lo == h.lo && g.hi == h.hi && g.limit == h.limit
  {
  }

  lemma PushCut(h: Heap, x: int)
    requires LooseInv(h, {x}) && x in h.blk && !h.blk[x].alloc && CoalescedBut(h, 0)
    ensures Inv(Push(h, x)) && Live(Push(h, x)) == Live(h)
  {
    PushLoose(h, {x}, x);
    assert {x} - {x} == {};
    SameBlocks(h, Push(h, x), 0);
  }

  // ---------------------------------------------------------------- extend_heap and mm_free

  lemma NewFreeBlock(h: Heap, a: int)
    requires LooseInv(h, {a}) && a in h.blk && !h.blk[a].alloc && CoalescedBut(h, a)
    ensures
      var (h', f) := Coalesce(Push(h, a), a);
      && Inv(h') && Live(h') == Live(h)
      && f in h'.blk && !h'.blk[f].alloc && h'.blk[f].size >= h.blk[a].size
      && h'.lo == h.lo && h'.hi == h.hi && h'.limit == h.limit
  {
    PushLoose(h, {a}, a);
    assert {a} - {a} == {};
    SameBlocks(h, Push(h, a), a);
    CoalesceInv(Push(h, a), a);
  }

  lemma GrowEffect(h: Heap, n: int)
    requires Bounded(h) && CoalescedBut(h, 0) && h.hi !in h.blk && h.lo > 0
    ensures CoalescedBut(Grow(h, n), h.hi) && Live(Grow(h, n)) == Live(h)
  {
  }

  lemma ExtendInv(h: Heap, n: int)
    requires Inv(h) && n % 8 == 0 && n >= 16
    ensures
      var (h', b) := Extend(h, n);
      && (b == 0 <==> h.hi + n > h.limit) && (b == 0 ==> h' == h)
      && (b != 0 ==>
            && Inv(h') && Live(h') == Live(h) && h'.lo == h.lo && h'.hi == h.hi + n && h'.limit == h.limit
            && b in h'.blk && !h'.blk[b].alloc && h'.blk[b].size >= n)
  {
    if h.hi + n <= h.limit {
      GrowLoose(h, {}, n);
      assert {} + {h.hi} == {h.hi};
      var g := Grow(h, n);
      GrowEffect(h, n);
      NewFreeBlock(g, h.hi);
      var (h', b) := Coalesce(Push(g, h.hi), h.hi);
      assert Extend(h, n) == (h', b);
      assert b != 0;
    }
  }

  lemma FreeEffect(h: Heap, p: int)
    requires Bounded(h) && CoalescedBut(h, 0) && p in h.blk && h.lo > 0
    ensures CoalescedBut(SetAlloc(h, p, false), p) && Live(SetAlloc(h, p, false)) == Live(h) - {p}
  {
  }

  /** mm_free gives up exactly the payload p. */
  lemma FreeInv(h: Heap, p: int)
    requires Inv(h) && p in Live(h)
    ensures
      var h' := Free(h, p);
      Inv(h') && Live(h') == Live(h) - {p} && h'.lo == h.lo && h'.hi == h.hi && h'.limit == h.limit
  {
    SetAllocLoose(h, {}, p, false);
    assert {} + {p} == {p};
    FreeEffect(h, p);
    NewFreeBlock(SetAlloc(h, p, false), p);
  }

  // ---------------------------------------------------------------- mm_malloc

  /** How mm_malloc leaves the heap: a fresh payload with room for `size` bytes, or, when no
      free block fits and mem_sbrk has no room, no change. It grows only when no free block fits. */
  ghost predicate Allocated(h: Heap, size: int, h': Heap, r: int) {
    && h'.lo == h.lo && h'.limit == h.limit
    && (r == 0 <==> FindFit(h, AdjustedSize(size)) == 0 && h.hi + Max(AdjustedSize(size), DCHUNKSIZE) > h.limit)
    && (r == 0 ==> h' == h)
    && h'.hi - h.hi ==
      (if r == 0 || FindFit(h, AdjustedSize(size)) != 0 then 0 else Max(AdjustedSize(size), DCHUNKSIZE))
    && (r != 0 ==>
          && r !in Live(h) && r in Live(h') && Live(h') == Live(h)[r := Live(h')[r]]
          && size <= Align(size) <= Live(h')[r] < AdjustedSize(size) + 8)
  }

  lemma MallocInv(h: Heap, size: int)
    requires Inv(h) && 0 < size <= TWO32 - 16
    ensures Inv(Malloc(h, size).0)
    ensures Allocated(h, size, Malloc(h, size).0, Malloc(h, size).1)
  {
    var asize := AdjustedSize(size);
    AdjustedSizeFits(size);
    FindFitIs(h, asize);
    var a := FindFit(h, asize);
    if a != 0 {
      assert Malloc(h, size) == Place(h, a, asize);
      PlaceInv(h, a, asize);
    } else {
      var n := Max(asize, DCHUNKSIZE);
      ExtendInv(h, n);
      var (h1, b) := Extend(h, n);
      if b != 0 {
        assert Malloc(h, size) == Place(h1, b, asize);
        PlaceInv(h1, b, asize);
      } else {
        assert Malloc(h, size) == (h, 0);
      }
    }
  }

  /** A list search with any size finds a free block or nothing. */
  lemma FoundIsFree(h: Heap, k: nat, asize: int)
    requires LooseInv(h, {})
    ensures
      var r := FindFrom(h, k, asize);
      r == 0 || (r in h.blk && !h.blk[r].alloc && asize <= h.blk[r].size)
  {
    ListsAvoidNull(h);
    FindFromIs(h, k, asize);
    var r := FindFrom(h, k, asize);
    if r != 0 {
      var j: nat :| k <= j < SEG_SIZE && IsFirstFit(h, h.lists[j], asize, r) && NoneFits(h, k, j, asize);
      var s := h.lists[j];
      var i :| 0 <= i < |s| && s[i] == r && Fits(h, r, asize);
      assert r in h.lists[j];
    }
  }

  /** What a wrapped size makes of a free block: nothing near the size that was asked for. */
  lemma PlaceTooSmall(h: Heap, a: int, asize: int, size: int)
    requires LooseInv(h, {}) && h.limit <= TWO32 && a in h.blk && !h.blk[a].alloc
    requires 0 <= asize <= 8 && size > TWO32 - 16
    ensures
      var (h', r) := Place(h, a, asize);
      r != 0 && (r in Live(h') ==> Live(h')[r] < size)
  {
    var h1 := Unlink(h, a);
    assert h1.blk == h.blk && |h1.lists| == |h.lists|;
    var c := h.blk[a].size;
    assert 120 <= h.lo && c <= h.hi - h.lo && h.hi <= h.limit && 16 <= c;
    if c - asize >= 16 {
      assert CutBack(h1, a, c - asize).blk[a + c - asize].size == asize;
    }
  }

  /** mm_malloc keeps its promise exactly when the size does not wrap at 32 bits or there is no
      memory left to hand out: otherwise the block is too small. */
  lemma MallocExact(h: Heap, size: int)
    requires Inv(h) && h.limit <= TWO32 && 0 < size < TWO32
    ensures
      Allocated(h, size, Malloc(h, size).0, Malloc(h, size).1) <==>
        size <= TWO32 - 16 || (FindFit(h, AdjustedSize(size)) == 0 && h.hi + DCHUNKSIZE > h.limit)
  {
    hide Inv, LooseInv, Live, Place, Extend, FindFrom, FloorLog2;
    AdjustedSizeFits(size);
    if size <= TWO32 - 16 {
      MallocInv(h, size);
    } else {
      var asize := AdjustedSize(size);
      AdjustedNat(size);
      InvIsLooseHere(h);
      var a := FindFit(h, asize);
      FoundIsFree(h, FloorLog2(asize), asize);
      if a != 0 {
        PlaceTooSmall(h, a, asize, size);
      } else {
        ExtendInv(h, DCHUNKSIZE);
        var (h1, b) := Extend(h, DCHUNKSIZE);
        if b != 0 {
          InvIsLooseHere(h1);
          PlaceTooSmall(h1, b, asize, size);
        }
      }
    }
  }

  lemma AdjustedNat(size: int)
    ensures AdjustedSize(size) >= 0
  {
  }

  lemma InvIsLooseHere(h: Heap)
    requires Inv(h)
    ensures LooseInv(h, {})
  {
  }

  // ---------------------------------------------------------------- mm_realloc

  lemma TrimCut(h: Heap, p: int, n: int)
    requires LooseInv(h, {}) && p in h.blk && h.blk[p].alloc && n % 8 == 0 && 16 <= n <= h.blk[p].size - 16
    ensures p + n !in h.blk && LooseInv(SetAlloc(Split(h, p, n), p + n, false), {p + n})
  {
    SplitLoose(h, {}, p, n);
    SetAllocLoose(Split(h, p, n), {} + {p + n}, p + n, false);
    assert {} + {p + n} + {p + n} == {p + n};
  }

  lemma TrimEffect(h: Heap, p: int, n: int)
    requires p in h.blk && h.blk[p].alloc && 16 <= n <= h.blk[p].size - 16 && p + n !in h.blk
    requires Bounded(h) && CoalescedBut(h, 0) && h.lo > 0
    ensures
      var h' := SetAlloc(Split(h, p, n), p + n, false);
      CoalescedBut(h', p + n) && Live(h') == Live(h)[p := n - 8] && h'.blk[p + n] == Block(h.blk[p].size - n, false)
  {
  }

  function TrimmedTo(size: int, asize: int): int {
    if size - 8 - asize <= 8 then size - 8 else asize
  }

  lemma ShrinkInv(h: Heap, p: int, n: int)
    requires Inv(h) && p in Live(h) && n % 8 == 0 && 16 <= n <= h.blk[p].size - 16
    ensures
      var h' := Shrink(h, p, n);
      && Inv(h') && Live(h') == Live(h)[p := n - 8]
      && h'.lo == h.lo && h'.hi == h.hi && h'.limit == h.limit
  {
    TrimCut(h, p, n);
    TrimEffect(h, p, n);
    NewFreeBlock(SetAlloc(Split(h, p, n), p + n, false), p + n);
  }

  lemma TrimRoom(h: Heap, p: int, asize: int)
    requires Inv(h) && p in h.blk && asize % 8 == 0 && h.blk[p].size - 8 - asize > 8
    ensures (asize + 8) % 8 == 0 && asize + 8 <= h.blk[p].size - 16
  {
  }

  lemma TrimInv(h: Heap, p: int, asize: int)
    requires Inv(h) && p in Live(h) && asize % 8 == 0 && 8 <= asize <= h.blk[p].size - 8
    ensures
      var h' := Trim(h, p, asize);
      && Inv(h') && Live(h') == Live(h)[p := TrimmedTo(h.blk[p].size, asize)]
      && h'.lo == h.lo && h'.hi == h.hi && h'.limit == h.limit
  {
    hide Inv, Trim, Shrink;
    if h.blk[p].size - 8 - asize > 8 {
      TrimRoom(h, p, asize);
      TrimIsShrink(h, p, asize, asize + 8);
      ShrinkInv(h, p, asize + 8);
    } else {
      TrimNothing(h, p, asize);
    }
  }

  lemma TrimNothing(h: Heap, p: int, asize: int)
    requires p in Live(h) && h.blk[p].size - 8 - asize <= 8
    ensures Trim(h, p, asize) == h && Live(h)[p := h.blk[p].size - 8] == Live(h)
  {
  }

  lemma TrimIsShrink(h: Heap, p: int, asize: int, n: int)
    requires n == asize + 8 && p in h.blk && h.blk[p].size - 8 - asize > 8
    ensures Trim(h, p, asize) == Shrink(h, p, n)
  {
  }

  lemma TakeNextInv(h: Heap, p: int)
    requires Inv(h) && p in Live(h) && NextFree(h, p)
    ensures
      var h' := AbsorbNext(h, p);
      var n := h.blk[p].size + h.blk[p + h.blk[p].size].size;
      && Inv(h') && p in h'.blk && h'.blk[p] == Block(n, true) && Live(h') == Live(h)[p := n - 8]
      && h'.lo == h.lo && h'.hi == h.hi && h'.limit == h.limit
  {
    AbsorbNextLoose(h, {}, p);
    AbsorbNextLive(h, p);
    TakeNextCoalesced(h, p);
  }

  lemma TakeNextCoalesced(h: Heap, p: int)
    requires CoalescedBut(h, 0) && p in h.blk && h.blk[p].alloc && NextFree(h, p)
    ensures CoalescedBut(AbsorbNext(h, p), 0)
  {
  }

  lemma TakePrevInv(h: Heap, p: int)
    requires Inv(h) && p in Live(h) && PrevFree(h, p)
    ensures
      var h' := TakePrev(h, p);
      var q := h.prev[p];
      var n := h.blk[q].size + h.blk[p].size;
      && Inv(h') && q in h'.blk && h'.blk[q] == Block(n, true) && Live(h') == (Live(h) - {p})[q := n - 8]
      && h'.lo == h.lo && h'.hi == h.hi && h'.limit == h.limit
  {
    var q := h.prev[p];
    assert PrevOk(h, p);
    AbsorbIntoPrevLoose(h, {}, p);
    assert {} + {q} - {p} == {q};
    AbsorbIntoPrevLive(h, p);
    TakePrevCoalesced(h, p);
    SetAllocLoose(AbsorbIntoPrev(h, p), {q}, q, true);
    assert {q} - {q} == {};
    TakePrevLive(h, p);
  }

  lemma TakePrevCoalesced(h: Heap, p: int)
    requires CoalescedBut(h, 0) && p in h.blk && PrevFree(h, p) && PrevOk(h, p)
    ensures CoalescedBut(TakePrev(h, p), 0)
  {
  }

  lemma TakePrevLive(h: Heap, p: int)
    requires Bounded(h) && p in h.blk && h.blk[p].alloc && PrevFree(h, p) && PrevOk(h, p)
    ensures
      var q := h.prev[p];
      Live(TakePrev(h, p)) == (Live(h) - {p})[q := h.blk[q].size + h.blk[p].size - 8]
  {
    AbsorbIntoPrevLive(h, p);
  }

  /** How mm_realloc moves or resizes payload p: the new payload r has room for `size` bytes and
      little more, and every other payload stays; on failure nothing changes. */
  ghost predicate Resized(h: Heap, p: int, size: int, h': Heap, r: int) {
    && h'.lo == h.lo && h'.limit == h.limit && h.hi <= h'.hi <= h.hi + Max(AdjustedSize(size), DCHUNKSIZE)
    && (r == 0 ==> h' == h)
    && (r != 0 ==>
          && (r == p || r !in Live(h)) && r in Live(h')
          && Live(h') == (Live(h) - {p})[r := Live(h')[r]]
          && size <= Align(size) <= Live(h')[r] < AdjustedSize(size) + 8)
  }

  lemma AlignBelowAdjusted(size: int)
    requires 0 < size <= TWO32 - 16
    ensures Align(size) < AdjustedSize(size)
  {
  }

  lemma NonNull(h: Heap, a: int)
    requires Inv(h) && a in h.blk
    ensures a != 0
  {
    assert h.blk[a].size >= 16;
  }

  lemma ReallocInPlace(h: Heap, p: int, size: int, h': Heap)
    requires Inv(h) && p in Live(h) && 0 < size <= TWO32 - 16 && Align(size) <= h.blk[p].size - 8
    requires h' == Trim(h, p, Align(size))
    ensures Inv(h') && Resized(h, p, size, h', p)
  {
    hide Inv, Trim, AbsorbNext, TakePrev, Align, AdjustedSize, PrevOk;
    AlignFacts(size);
    AlignBelowAdjusted(size);
    TrimInv(h, p, Align(size));
    NonNull(h, p);
  }

  lemma ReallocIntoNext(h: Heap, p: int, size: int, h1: Heap, h': Heap)
    requires Inv(h) && p in Live(h) && 0 < size <= TWO32 - 16 && NextFree(h, p)
    requires Align(size) <= h.blk[p].size + h.blk[p + h.blk[p].size].size - 8
    requires h1 == AbsorbNext(h, p) && h' == Trim(h1, p, Align(size))
    ensures Inv(h') && Resized(h, p, size, h', p)
  {
    hide Inv, Trim, AbsorbNext, TakePrev, Align, AdjustedSize, PrevOk;
    AlignFacts(size);
    TakeNextInv(h, p);
    AlignBelowAdjusted(size);
    TrimInv(h1, p, Align(size));
    NonNull(h, p);
  }

  lemma ReallocIntoPrev(h: Heap, p: int, size: int, h1: Heap, q: int, h': Heap)
    requires Inv(h) && p in Live(h) && 0 < size <= TWO32 - 16 && PrevFree(h, p) && q == h.prev[p]
    requires Align(size) <= h.blk[p].size + h.blk[q].size - 8
    requires h1 == TakePrev(h, p) && h' == Trim(h1, q, Align(size))
    ensures Inv(h') && Resized(h, p, size, h', q)
  {
    hide Inv, Trim, AbsorbNext, TakePrev, Align, AdjustedSize, PrevOk;
    AlignFacts(size);
    TakePrevInv(h, p);
    AlignBelowAdjusted(size);
    TrimInv(h1, q, Align(size));
    NonNull(TakePrev(h, p), q);
  }

  /** Resizing in a heap where p was first enlarged is resizing. */
  lemma ResizedAfterGrowth(h: Heap, p: int, size: int, h1: Heap, h': Heap, r: int)
    requires p in Live(h) && p in Live(h1) && Live(h1) == Live(h)[p := Live(h1)[p]]
    requires h1.lo == h.lo && h1.hi == h.hi && h1.limit == h.limit
    requires Resized(h1, p, size, h', r) && r != 0
    ensures Resized(h, p, size, h', r)
  {
    assert Live(h1) - {p} == Live(h) - {p};
  }

  lemma ReallocIntoBoth(h: Heap, p: int, size: int, h1: Heap, h2: Heap, q: int, h': Heap)
    requires Inv(h) && p in Live(h) && 0 < size <= TWO32 - 16 && NextFree(h, p) && PrevFree(h, p) && q == h.prev[p]
    requires Align(size) <= h.blk[p].size + h.blk[p + h.blk[p].size].size + h.blk[q].size - 8
    requires h1 == AbsorbNext(h, p) && h2 == TakePrev(h1, p) && h' == Trim(h2, q, Align(size))
    ensures Inv(h') && Resized(h, p, size, h', q)
  {
    TakeNextInv(h, p);
    TiledLocal(h, p);
    AbsorbNextLocal(h, p);
    ReallocIntoPrev(h1, p, size, h2, q, h');
    NonNull(h, q);
    ResizedAfterGrowth(h, p, size, h1, h', q);
  }

  lemma ReallocByMove(h: Heap, p: int, size: int, h1: Heap, r: int, h': Heap)
    requires Inv(h) && p in Live(h) && 0 < size <= TWO32 - 16
    requires (h1, r) == Malloc(h, size) && h' == if r == 0 then h1 else Free(h1, p)
    ensures Inv(h') && Resized(h, p, size, h', r)
  {
    hide Inv, Malloc, Free;
    MallocInv(h, size);
    NonNull(h, p);
    if r != 0 {
      FreeInv(h1, p);
      assert Live(h)[r := Live(h1)[r]] - {p} == (Live(h) - {p})[r := Live(h1)[r]];
    }
  }

  /** mm_realloc to a positive size, on every exit: the new payload has room for `size` bytes, it
      replaces p alone, and a refusal changes nothing. */
  lemma ReallocInv(h: Heap, p: int, size: int)
    requires Inv(h) && p in Live(h) && 0 < size <= TWO32 - 16
    ensures Inv(Realloc(h, p, size).0)
    ensures Resized(h, p, size, Realloc(h, p, size).0, Realloc(h, p, size).1)
  {
    hide Inv, Resized, Trim, AbsorbNext, TakePrev, Align, Malloc, Free;
    var csize := h.blk[p].size - 8;
    var asize := Align(size);
    var psize := FreeBefore(h, p);
    var nsize := FreeAfter(h, p);
    NonNull(h, p);
    if asize <= csize {
      ReallocInPlace(h, p, size, Trim(h, p, asize));
    } else if PrevFree(h, p) && psize + csize >= asize {
      ReallocIntoPrev(h, p, size, TakePrev(h, p), h.prev[p], Trim(TakePrev(h, p), h.prev[p], asize));
    } else if !PrevFree(h, p) && NextFree(h, p) && nsize + csize >= asize {
      ReallocIntoNext(h, p, size, AbsorbNext(h, p), Trim(AbsorbNext(h, p), p, asize));
    } else if PrevFree(h, p) && NextFree(h, p) && psize + nsize + csize >= asize {
      var h1 := AbsorbNext(h, p);
      ReallocIntoBoth(h, p, size, h1, TakePrev(h1, p), h.prev[p], Trim(TakePrev(h1, p), h.prev[p], asize));
    } else {
      var (h1, r) := Malloc(h, size);
      ReallocByMove(h, p, size, h1, r, if r == 0 then h1 else Free(h1, p));
    }
  }

  /** x is a free block of n bytes. */
  predicate FreeAt(h: Heap, x: int, n: int) {
    x in h.blk && h.blk[x] == Block(n, false)
  }

  lemma FreeNeighbours(h: Heap, p: int)
    requires Inv(h) && p in h.blk
    ensures var n := FreeBefore(h, p);
      if n == 0 then forall x, m {:trigger FreeAt(h, x, m)} :: FreeAt(h, x, m) ==> x + m != p else FreeAt(h, p - n, n)
    ensures var n := FreeAfter(h, p);
      if n == 0 then forall m {:trigger FreeAt(h, p + h.blk[p].size, m)} :: !FreeAt(h, p + h.blk[p].size, m)
      else FreeAt(h, p + h.blk[p].size, n)
    ensures FreeBefore(h, p) >= 0 && FreeAfter(h, p) >= 0 && (PrevFree(h, p) ==> h.prev[p] == p - FreeBefore(h, p))
    ensures (PrevFree(h, p) <==> FreeBefore(h, p) > 0) && (NextFree(h, p) <==> FreeAfter(h, p) > 0)
  {
    FreeBeforeIs(h, p);
    assert p != h.lo ==> PrevOk(h, p);
    assert PrevFree(h, p) ==> h.blk[h.prev[p]].size >= 16;
    assert NextFree(h, p) ==> h.blk[p + h.blk[p].size].size >= 16;
  }

  lemma FreeBeforeIs(h: Heap, p: int)
    requires Bounded(h) && Chained(h) && p in h.blk
    ensures var n := FreeBefore(h, p);
      if n == 0 then forall x, m {:trigger FreeAt(h, x, m)} :: FreeAt(h, x, m) ==> x + m != p else FreeAt(h, p - n, n)
  {
    assert p != h.lo ==> PrevOk(h, p);
    if PrevFree(h, p) {
      assert h.blk[h.prev[p]].size >= 16;
    } else {
      forall x, m {:trigger FreeAt(h, x, m)} | FreeAt(h, x, m) ensures x + m != p {
        assert NextOk(h, x);
        assert h.blk[x].size >= 16;
      }
    }
  }

  /** Where mm_realloc puts the payload, to a positive size. It stays among its own block and the free
      neighbours exactly when those have room, it stays where it is if it need not take the block
      before, and what is over by more than 8 bytes is given back. Otherwise it moves, or is refused
      exactly when no free block fits and the heap cannot grow. */
  lemma ReallocExact(h: Heap, p: int, size: int)
    requires Inv(h) && p in Live(h) && 0 < size <= TWO32 - 16
    ensures
      var (h', r) := Realloc(h, p, size);
      var asize, own, before, after := Align(size), Live(h)[p], FreeBefore(h, p), FreeAfter(h, p);
      var room := if asize <= own then own else if before > 0 && asize <= before + own then before + own
                  else before + own + after;
      if asize <= before + own + after then
        && r == (if asize <= own || before == 0 then p else p - before) && r in Live(h') && h'.hi == h.hi
        && Live(h')[r] == if room - asize <= 8 then room else asize
      else
        && (r == 0 <==> FindFit(h, AdjustedSize(size)) == 0 && h.hi + Max(AdjustedSize(size), DCHUNKSIZE) > h.limit)
        && r !in Live(h)
  {
    hide Inv, Trim, AbsorbNext, TakePrev, Align, AdjustedSize, Malloc, Free, FindFit, PrevOk;
    var csize, asize := h.blk[p].size - 8, Align(size);
    NonNull(h, p);
    AlignFacts(size);
    FreeNeighbours(h, p);
    if asize <= csize {
      TrimInv(h, p, asize);
    } else if PrevFree(h, p) && FreeBefore(h, p) + csize >= asize {
      TakePrevInv(h, p);
      TrimInv(TakePrev(h, p), h.prev[p], asize);
    } else if !PrevFree(h, p) && NextFree(h, p) && FreeAfter(h, p) + csize >= asize {
      TakeNextInv(h, p);
      TrimInv(AbsorbNext(h, p), p, asize);
    } else if PrevFree(h, p) && NextFree(h, p) && FreeBefore(h, p) + FreeAfter(h, p) + csize >= asize {
      TakeBothInv(h, p);
      TrimInv(TakePrev(AbsorbNext(h, p), p), h.prev[p], asize);
    } else {
      MallocInv(h, size);
      NullNotLive(h);
    }
  }

  lemma TakeBothInv(h: Heap, p: int)
    requires Inv(h) && p in Live(h) && NextFree(h, p) && PrevFree(h, p)
    ensures
      var h' := TakePrev(AbsorbNext(h, p), p);
      var q := h.prev[p];
      var n := h.blk[q].size + h.blk[p].size + h.blk[p + h.blk[p].size].size;
      Inv(h') && q in Live(h') && h'.blk[q] == Block(n, true) && h'.hi == h.hi
  {
    hide TakePrev;
    var h1 := AbsorbNext(h, p);
    TakeNextInv(h, p);
    TiledLocal(h, p);
    AbsorbNextLocal(h, p);
    TakePrevInv(h1, p);
  }

  lemma NullNotLive(h: Heap)
    requires Inv(h)
    ensures 0 !in Live(h)
  {
    forall a | a in Live(h) ensures a != 0 { NonNull(h, a); }
  }

  /** A null pointer asks for a new payload. Size zero frees the payload and answers its old address. */
  lemma ReallocEdges(h: Heap, p: int, size: int)
    requires Inv(h) && (p == 0 || p in Live(h)) && 0 <= size <= TWO32 - 16 && (p == 0 || size == 0)
    ensures
      var (h', r) := Realloc(h, p, size);
      && Inv(h')
      && (p == 0 && size > 0 ==> Allocated(h, size, h', r))
      && (p == 0 && size == 0 ==> h' == h && r == 0)
      && (p != 0 ==> r == p && Live(h') == Live(h) - {p} && h'.hi == h.hi)
  {
    hide Inv, Malloc, Free, Allocated;
    NullNotLive(h);
    if p == 0 {
      if size > 0 { MallocInv(h, size); } else { assert Malloc(h, size) == (h, 0) by { MallocNothing(h); } }
    } else {
      FreeInv(h, p);
    }
  }

  lemma MallocNothing(h: Heap)
    ensures Malloc(h, 0) == (h, 0)
  {
  }

  // ---------------------------------------------------------------- free, then malloc

  /** A request that the block just freed fits, to within 16 bytes and in the same class, gets that
      very block, and the heap is again what it was before the free. */
  lemma FreedIsReused(h: Heap, p: int, size: int)
    requires Inv(h) && p in Live(h) && 0 < size <= TWO32 - 16
    requires FreeBefore(h, p) == 0 && FreeAfter(h, p) == 0
    requires AdjustedSize(size) <= h.blk[p].size < AdjustedSize(size) + 16
    requires Class(h.blk[p].size) == FloorLog2(AdjustedSize(size))
    ensures Malloc(Free(h, p), size) == (h, p)
  {
    hide Inv, AdjustedSize, FloorLog2, Class, Extend, Place, FindFit;
    FreeNeighbours(h, p);
    NonNull(h, p);
    ListedApart(h, p);
    FreedAlone(h, p);
    var g, asize := Free(h, p), AdjustedSize(size);
    FirstInClass(h, p, asize);
    Refilled(h, p, asize);
  }

  lemma ListedApart(h: Heap, p: int)
    requires Inv(h) && p in h.blk
    ensures |h.lists| == SEG_SIZE && h.blk[p].size > 0 && (p != h.lo ==> p in h.prev && h.prev[p] != p)
  {
    assert p != h.lo ==> PrevOk(h, p);
    if p != h.lo { assert h.blk[h.prev[p]].size >= 16; }
    assert h.blk[p].size >= 16;
  }

  /** With no free neighbour the freed block goes to the head of its list as it is. */
  lemma FreedAlone(h: Heap, p: int)
    requires p in Live(h) && !PrevFree(h, p) && !NextFree(h, p)
    requires h.blk[p].size > 0 && (p != h.lo ==> p in h.prev && h.prev[p] != p)
    ensures Free(h, p) == Push(SetAlloc(h, p, false), p)
  {
    var g := Push(SetAlloc(h, p, false), p);
    assert !PrevFree(g, p) && !NextFree(g, p);
  }

  lemma FirstInClass(h: Heap, p: int, asize: int)
    requires p in Live(h) && p != 0 && |h.lists| == SEG_SIZE
    requires asize <= h.blk[p].size && Class(h.blk[p].size) == FloorLog2(asize)
    ensures FindFit(Push(SetAlloc(h, p, false), p), asize) == p
  {
    hide Class, FloorLog2;
    var g := Push(SetAlloc(h, p, false), p);
    assert g.lists[FloorLog2(asize)][0] == p;
  }

  lemma Refilled(h: Heap, p: int, asize: int)
    requires p in Live(h) && |h.lists| == SEG_SIZE && asize <= h.blk[p].size < asize + 16
    ensures Place(Push(SetAlloc(h, p, false), p), p, asize) == (h, p)
  {
    hide Class;
    var g := SetAlloc(h, p, false);
    var k := Class(h.blk[p].size);
    var s := [p] + h.lists[k];
    assert s[0] == p && Without(s, p) == h.lists[k];
    assert Push(g, p).lists[k := h.lists[k]] == h.lists;
    assert Unlink(Push(g, p), p) == g;
    assert h.blk[p := Block(h.blk[p].size, false)][p := Block(h.blk[p].size, true)] == h.blk;
  }
}
