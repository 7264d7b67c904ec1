/** The segregated-list heap of mm-2017-19651.c as a value: a tiling of the heap by
    blocks and 24 free lists, with one pure operation per C function. */
module SegHeap {
  import opened Basics

  const SEG_SIZE: nat := 24
  const MINSIZE: nat := 200
  const DCHUNKSIZE: nat := 4096
  const CHUNKSIZE: nat := 64

  datatype Block = Block(size: int, alloc: bool)

  /** `blk` maps a payload address to its block; `prev` maps each block boundary (a block
      address or `hi`) to the block that ends there; `lists[k]` is free list k from its head on. */
  datatype Heap = Heap(lo: int, hi: int, limit: int,
                       blk: map<int, Block>, prev: map<int, int>, lists: seq<seq<int>>)

  // ---------------------------------------------------------------- size classes

  function FloorLog2(n: int): nat {
    if n <= 1 then 0 else 1 + FloorLog2(n / 2)
  }

  /** The list that holds free blocks of n bytes. */
  function Class(n: int): (k: nat)
    ensures k < SEG_SIZE
  {
    if FloorLog2(n) < SEG_SIZE - 1 then FloorLog2(n) else SEG_SIZE - 1
  }

  // ---------------------------------------------------------------- the invariant

  /** Every block lies in [lo, hi) and has room for its tags and links. */
  ghost predicate Bounded(h: Heap) {
    forall a {:trigger h.blk[a]} :: a in h.blk ==>
      h.blk[a].size >= 16 && h.lo <= a && a + h.blk[a].size <= h.hi
  }

  ghost predicate Disjoint(h: Heap) {
    forall a, b {:trigger h.blk[a], h.blk[b]} ::
      a in h.blk && b in h.blk && a < b ==> a + h.blk[a].size <= b
  }

  ghost predicate Aligned(h: Heap) {
    && h.lo % 8 == 0 && h.hi % 8 == 0
    && (forall a {:trigger h.blk[a]} :: a in h.blk ==> a % 8 == 0 && h.blk[a].size % 8 == 0)
  }

  ghost predicate NextOk(h: Heap, a: int)
    requires a in h.blk
  {
    var e := a + h.blk[a].size;
    (e == h.hi || e in h.blk) && e in h.prev && h.prev[e] == a
  }

  ghost predicate PrevOk(h: Heap, e: int) {
    e in h.prev && h.prev[e] in h.blk && h.prev[e] + h.blk[h.prev[e]].size == e
  }

  /** Each block is followed by a block or by the end of the heap, and `prev` finds the block
      that ends at each boundary. */
  ghost predicate Chained(h: Heap) {
    && (h.lo == h.hi || (h.lo in h.blk && PrevOk(h, h.hi)))
    && (forall a {:trigger NextOk(h, a)} :: a in h.blk ==> NextOk(h, a))
    && (forall e {:trigger PrevOk(h, e)} :: e in h.blk && e != h.lo ==> PrevOk(h, e))
  }

  /** The blocks tile [lo, hi) exactly. */
  ghost predicate Tiled(h: Heap) {
    120 <= h.lo <= h.hi <= h.limit && Bounded(h) && Disjoint(h) && Aligned(h) && Chained(h)
  }

  ghost predicate IsNode(h: Heap, k: nat, x: int) {
    x in h.blk && !h.blk[x].alloc && Class(h.blk[x].size) == k
  }

  /** Every list is acyclic and holds only free blocks of its own class. */
  ghost predicate Listed(h: Heap) {
    && |h.lists| == SEG_SIZE
    && (forall k {:trigger Distinct(h.lists[k])} :: 0 <= k < SEG_SIZE ==> Distinct(h.lists[k]))
    && (forall k, x {:trigger x in h.lists[k]} :: 0 <= k < SEG_SIZE && x in h.lists[k] ==> IsNode(h, k, x))
  }

  ghost predicate Enlisted(h: Heap, x: int)
    requires x in h.blk && |h.lists| == SEG_SIZE
  {
    x in h.lists[Class(h.blk[x].size)]
  }

  /** Every free block outside `limbo` is on the list of its class; those in `limbo` are on none. */
  ghost predicate CompleteBut(h: Heap, limbo: set<int>)
    requires |h.lists| == SEG_SIZE
  {
    forall x {:trigger Enlisted(h, x)} :: x in h.blk && !h.blk[x].alloc ==> (Enlisted(h, x) <==> x !in limbo)
  }

  /** No two free blocks touch, except where `c` is one of them. */
  ghost predicate CoalescedBut(h: Heap, c: int) {
    forall x, y {:trigger h.blk[x], h.blk[y]} ::
      x in h.blk && y in h.blk && !h.blk[x].alloc && !h.blk[y].alloc && x + h.blk[x].size == y ==>
        x == c || y == c
  }

  ghost predicate LooseInv(h: Heap, limbo: set<int>) {
    Tiled(h) && Listed(h) && CompleteBut(h, limbo)
  }

  ghost predicate Inv(h: Heap) {
    LooseInv(h, {}) && CoalescedBut(h, 0)
  }

  /** What a client owns: the capacity of every allocated payload. */
  ghost function Live(h: Heap): map<int, int> {
    map x | x in h.blk && h.blk[x].alloc :: h.blk[x].size - 8
  }

  lemma LiveIsBlock(h: Heap, p: int)
    requires p in Live(h)
    ensures p in h.blk && h.blk[p].alloc && Live(h)[p] == h.blk[p].size - 8
  {
  }

  // ---------------------------------------------------------------- tiling edits
  // Each edit is total: outside the states the allocator reaches it leaves the heap alone.

  function SetAlloc(h: Heap, a: int, alloc: bool): Heap {
    if a !in h.blk then h else
    Heap(h.lo, h.hi, h.limit, h.blk[a := Block(h.blk[a].size, alloc)], h.prev, h.lists)
  }

  /** Joins block `a` with the block after it. */
  function Merge(h: Heap, a: int): Heap {
    if a !in h.blk || a + h.blk[a].size !in h.blk then h else
    var b := a + h.blk[a].size;
    var n := h.blk[a].size + h.blk[b].size;
    Heap(h.lo, h.hi, h.limit,
         (h.blk - {b})[a := Block(n, h.blk[a].alloc)], (h.prev - {b})[a + n := a], h.lists)
  }

  /** Cuts block `a` after its first `n` bytes. */
  function Split(h: Heap, a: int, n: int): Heap {
    if a !in h.blk then h else
    var e := a + h.blk[a].size;
    Heap(h.lo, h.hi, h.limit,
         h.blk[a := Block(n, h.blk[a].alloc)][a + n := Block(e - a - n, h.blk[a].alloc)],
         h.prev[a + n := a][e := a + n], h.lists)
  }

  /** Adds a free block of n bytes at the end of the heap. */
  function Grow(h: Heap, n: int): Heap {
    Heap(h.lo, h.hi + n, h.limit, h.blk[h.hi := Block(n, false)], h.prev[h.hi + n := h.hi], h.lists)
  }

  lemma SetAllocTiled(h: Heap, a: int, alloc: bool)
    requires Tiled(h) && a in h.blk
    ensures Tiled(SetAlloc(h, a, alloc))
  {
    var h' := SetAlloc(h, a, alloc);
    assert PrevOk(h, h.hi) ==> PrevOk(h', h.hi);
    forall x {:trigger NextOk(h', x)} | x in h'.blk ensures NextOk(h', x) { assert NextOk(h, x); }
    forall e {:trigger PrevOk(h', e)} | e in h'.blk && e != h.lo ensures PrevOk(h', e) { assert PrevOk(h, e); }
  }

  lemma MergeTiled(h: Heap, a: int)
    requires Tiled(h) && a in h.blk && a + h.blk[a].size in h.blk
    ensures Tiled(Merge(h, a))
  {
    MergeDisjoint(h, a);
    MergeChained(h, a);
    MergeAligned(h, a);
  }

  lemma MergeAligned(h: Heap, a: int)
    requires Aligned(h) && a in h.blk && a + h.blk[a].size in h.blk
    ensures Aligned(Merge(h, a))
  {
  }

  lemma MergeDisjoint(h: Heap, a: int)
    requires Bounded(h) && Disjoint(h) && a in h.blk && a + h.blk[a].size in h.blk
    ensures Bounded(Merge(h, a)) && Disjoint(Merge(h, a))
  {
    var b := a + h.blk[a].size;
    assert h.blk[b].size >= 16;
  }

  lemma MergeChained(h: Heap, a: int)
    requires Bounded(h) && Chained(h) && a in h.blk && a + h.blk[a].size in h.blk
    ensures Chained(Merge(h, a))
  {
    var h' := Merge(h, a);
    var b := a + h.blk[a].size;
    assert NextOk(h, a) && NextOk(h, b);
    forall x {:trigger NextOk(h', x)} | x in h'.blk ensures NextOk(h', x) { assert NextOk(h, x); }
    forall e {:trigger PrevOk(h', e)} | e == h.hi || (e in h'.blk && e != h.lo) ensures PrevOk(h', e) {
      assert PrevOk(h, e);
    }
  }

  lemma SplitTiled(h: Heap, a: int, n: int)
    requires Tiled(h) && a in h.blk && n % 8 == 0 && 16 <= n <= h.blk[a].size - 16
    ensures a + n !in h.blk
    ensures Tiled(Split(h, a, n))
  {
    NothingInside(h, a, a + n);
    SplitAligned(h, a, n);
    SplitDisjoint(h, a, n);
    SplitChained(h, a, n);
  }

  lemma NothingInside(h: Heap, a: int, x: int)
    requires Disjoint(h) && a in h.blk && a < x < a + h.blk[a].size
    ensures x !in h.blk
  {
    forall y | y in h.blk && y > a ensures y >= a + h.blk[a].size { assert h.blk[y] == h.blk[y]; }
  }

  lemma SplitAligned(h: Heap, a: int, n: int)
    requires Aligned(h) && a in h.blk && n % 8 == 0
    ensures Aligned(Split(h, a, n))
  {
  }

  lemma SplitDisjoint(h: Heap, a: int, n: int)
    requires Bounded(h) && Disjoint(h) && a in h.blk && 16 <= n <= h.blk[a].size - 16
    ensures Bounded(Split(h, a, n)) && Disjoint(Split(h, a, n))
  {
    var h' := Split(h, a, n);
    forall x, y {:trigger h'.blk[x], h'.blk[y]} | x in h'.blk && y in h'.blk && x < y
      ensures x + h'.blk[x].size <= y {
      SplitApart(h, a, n, x, y);
    }
  }

  lemma SplitApart(h: Heap, a: int, n: int, x: int, y: int)
    requires Disjoint(h) && a in h.blk && 16 <= n <= h.blk[a].size - 16
    requires x in Split(h, a, n).blk && y in Split(h, a, n).blk && x < y
    ensures x + Split(h, a, n).blk[x].size <= y
  {
  }

  lemma SplitChained(h: Heap, a: int, n: int)
    requires Bounded(h) && Chained(h) && a in h.blk && 16 <= n <= h.blk[a].size - 16 && a + n !in h.blk
    ensures Chained(Split(h, a, n))
  {
    var h' := Split(h, a, n);
    assert NextOk(h, a);
    forall x {:trigger NextOk(h', x)} | x in h'.blk ensures NextOk(h', x) {
      if x in h.blk { assert NextOk(h, x); }
    }
    forall e {:trigger PrevOk(h', e)} | e == h.hi || (e in h'.blk && e != h.lo) ensures PrevOk(h', e) {
      if e != a + n { assert PrevOk(h, e); }
    }
  }

  lemma GrowTiled(h: Heap, n: int)
    requires Tiled(h) && n % 8 == 0 && n >= 16 && h.hi + n <= h.limit
    ensures h.hi !in h.blk
    ensures Tiled(Grow(h, n))
  {
    HiIsFresh(h);
    GrowAligned(h, n);
    GrowDisjoint(h, n);
    GrowChained(h, n);
  }

  lemma HiIsFresh(h: Heap)
    requires Bounded(h)
    ensures h.hi !in h.blk
  {
    forall x | x in h.blk ensures x < h.hi { assert h.blk[x].size >= 16; }
  }

  lemma GrowAligned(h: Heap, n: int)
    requires Aligned(h) && n % 8 == 0
    ensures Aligned(Grow(h, n))
  {
  }

  lemma GrowDisjoint(h: Heap, n: int)
    requires Bounded(h) && Disjoint(h) && n >= 16 && h.lo <= h.hi
    ensures Bounded(Grow(h, n)) && Disjoint(Grow(h, n))
  {
  }

  lemma GrowChained(h: Heap, n: int)
    requires Bounded(h) && Chained(h) && n >= 16 && h.hi !in h.blk && h.lo <= h.hi
    ensures Chained(Grow(h, n))
  {
    var h' := Grow(h, n);
    forall x {:trigger NextOk(h', x)} | x in h'.blk ensures NextOk(h', x) {
      if x in h.blk { assert NextOk(h, x); }
    }
    forall e {:trigger PrevOk(h', e)} | e == h'.hi || (e in h'.blk && e != h.lo) ensures PrevOk(h', e) {
      if e != h'.hi { assert PrevOk(h, e); }
    }
  }

  // ---------------------------------------------------------------- free-list edits

  function IndexOf(s: seq<int>, x: int): (i: nat)
    requires x in s
    ensures i < |s| && s[i] == x
  {
    if s[0] == x then 0 else 1 + IndexOf(s[1..], x)
  }

  function Without(s: seq<int>, x: int): seq<int>
    requires x in s
  {
    var i := IndexOf(s, x);
    s[..i] + s[i + 1..]
  }

  /** Puts free block x at the head of the list of its class. */
  function Push(h: Heap, x: int): Heap {
    if x !in h.blk || |h.lists| != SEG_SIZE then h else
    var k := Class(h.blk[x].size);
    Heap(h.lo, h.hi, h.limit, h.blk, h.prev, h.lists[k := [x] + h.lists[k]])
  }

  /** Takes free block x off the list of its class. */
  function Unlink(h: Heap, x: int): Heap {
    if x !in h.blk || |h.lists| != SEG_SIZE || x !in h.lists[Class(h.blk[x].size)] then h else
    var k := Class(h.blk[x].size);
    Heap(h.lo, h.hi, h.limit, h.blk, h.prev, h.lists[k := Without(h.lists[k], x)])
  }

  lemma SameTiling(h: Heap, lists: seq<seq<int>>)
    requires Tiled(h)
    ensures Tiled(Heap(h.lo, h.hi, h.limit, h.blk, h.prev, lists))
  {
    var h' := Heap(h.lo, h.hi, h.limit, h.blk, h.prev, lists);
    assert PrevOk(h, h.hi) ==> PrevOk(h', h.hi);
    forall x {:trigger NextOk(h', x)} | x in h'.blk ensures NextOk(h', x) { assert NextOk(h, x); }
    forall e {:trigger PrevOk(h', e)} | e in h'.blk && e != h.lo ensures PrevOk(h', e) { assert PrevOk(h, e); }
  }

  lemma WithoutMembers(s: seq<int>, x: int)
    requires x in s && Distinct(s)
    ensures Distinct(Without(s, x))
    ensures forall y :: y in Without(s, x) <==> y in s && y != x
  {
    var i := IndexOf(s, x);
    var t := Without(s, x);
    forall y | y in s && y != x ensures y in t {
      var j :| 0 <= j < |s| && s[j] == y;
      assert t[if j < i then j else j - 1] == y;
    }
  }

  /** A block outside every list: allocated, or in limbo. */
  ghost predicate Loose(h: Heap, limbo: set<int>, x: int) {
    x in h.blk && (h.blk[x].alloc || x in limbo)
  }

  lemma LooseUnlisted(h: Heap, limbo: set<int>, x: int)
    requires Listed(h) && CompleteBut(h, limbo) && Loose(h, limbo, x)
    ensures forall k {:trigger h.lists[k]} :: 0 <= k < SEG_SIZE ==> x !in h.lists[k]
  {
    assert !h.blk[x].alloc ==> !Enlisted(h, x);
    forall k {:trigger h.lists[k]} | 0 <= k < SEG_SIZE ensures x !in h.lists[k] {
      assert x in h.lists[k] ==> IsNode(h, k, x);
    }
  }

  lemma PushLoose(h: Heap, limbo: set<int>, x: int)
    requires LooseInv(h, limbo) && x in h.blk && !h.blk[x].alloc && x in limbo
    ensures LooseInv(Push(h, x), limbo - {x})
  {
    SameTiling(h, Push(h, x).lists);
    PushListed(h, limbo, x);
  }

  lemma PushListed(h: Heap, limbo: set<int>, x: int)
    requires Listed(h) && CompleteBut(h, limbo) && x in h.blk && !h.blk[x].alloc && x in limbo
    ensures Listed(Push(h, x)) && CompleteBut(Push(h, x), limbo - {x})
  {
    var h' := Push(h, x);
    var c := Class(h.blk[x].size);
    LooseUnlisted(h, limbo, x);
    forall k {:trigger Distinct(h'.lists[k])} | 0 <= k < SEG_SIZE ensures Distinct(h'.lists[k]) {
      assert Distinct(h.lists[k]);
    }
    forall k, y {:trigger IsNode(h', k, y)} | 0 <= k < SEG_SIZE && y in h'.lists[k] ensures IsNode(h', k, y) {
      assert y in h.lists[k] || y == x;
    }
    forall y {:trigger Enlisted(h', y)} | y in h'.blk && !h'.blk[y].alloc
      ensures Enlisted(h', y) <==> y !in limbo - {x} {
      assert Enlisted(h, y) <==> y !in limbo;
    }
  }

  lemma UnlinkLoose(h: Heap, limbo: set<int>, x: int)
    requires LooseInv(h, limbo) && x in h.blk && !h.blk[x].alloc && x !in limbo
    ensures Enlisted(h, x)
    ensures LooseInv(Unlink(h, x), limbo + {x})
  {
    assert Enlisted(h, x);
    SameTiling(h, Unlink(h, x).lists);
    UnlinkListed(h, limbo, x);
  }

  lemma UnlinkListed(h: Heap, limbo: set<int>, x: int)
    requires Listed(h) && CompleteBut(h, limbo) && x in h.blk && !h.blk[x].alloc && Enlisted(h, x)
    ensures Listed(Unlink(h, x)) && CompleteBut(Unlink(h, x), limbo + {x})
  {
    var h' := Unlink(h, x);
    var c := Class(h.blk[x].size);
    assert Distinct(h.lists[c]);
    WithoutMembers(h.lists[c], x);
    forall k {:trigger Distinct(h'.lists[k])} | 0 <= k < SEG_SIZE ensures Distinct(h'.lists[k]) {
      assert Distinct(h.lists[k]);
    }
    forall k, y {:trigger IsNode(h', k, y)} | 0 <= k < SEG_SIZE && y in h'.lists[k] ensures IsNode(h', k, y) {
      assert y in h.lists[k];
    }
    forall y {:trigger Enlisted(h', y)} | y in h'.blk && !h'.blk[y].alloc
      ensures Enlisted(h', y) <==> y !in limbo + {x} {
      assert Enlisted(h, y) <==> y !in limbo;
    }
  }

  // Edits of the tiling leave the lists right as long as the blocks they touch are on none.

  lemma SetAllocLoose(h: Heap, limbo: set<int>, a: int, alloc: bool)
    requires LooseInv(h, limbo) && Loose(h, limbo, a)
    ensures LooseInv(SetAlloc(h, a, alloc), if alloc then limbo - {a} else limbo + {a})
  {
    SetAllocTiled(h, a, alloc);
    SetAllocListed(h, limbo, a, alloc);
  }

  lemma SetAllocListed(h: Heap, limbo: set<int>, a: int, alloc: bool)
    requires Listed(h) && CompleteBut(h, limbo) && Loose(h, limbo, a)
    ensures Listed(SetAlloc(h, a, alloc))
    ensures CompleteBut(SetAlloc(h, a, alloc), if alloc then limbo - {a} else limbo + {a})
  {
    var h' := SetAlloc(h, a, alloc);
    LooseUnlisted(h, limbo, a);
    forall k {:trigger Distinct(h'.lists[k])} | 0 <= k < SEG_SIZE ensures Distinct(h'.lists[k]) {
      assert Distinct(h.lists[k]);
    }
    forall y {:trigger Enlisted(h', y)} | y in h'.blk && !h'.blk[y].alloc
      ensures Enlisted(h', y) <==> y !in if alloc then limbo - {a} else limbo + {a} {
      if y != a { assert Enlisted(h, y) <==> y !in limbo; }
    }
  }

  lemma MergeLoose(h: Heap, limbo: set<int>, a: int)
    requires LooseInv(h, limbo) && Loose(h, limbo, a) && Loose(h, limbo, a + h.blk[a].size)
    ensures LooseInv(Merge(h, a), limbo - {a + h.blk[a].size})
  {
    MergeTiled(h, a);
    MergeListed(h, limbo, a);
  }

  lemma MergeListed(h: Heap, limbo: set<int>, a: int)
    requires Listed(h) && CompleteBut(h, limbo) && Loose(h, limbo, a) && Loose(h, limbo, a + h.blk[a].size)
    requires h.blk[a].size > 0
    ensures Listed(Merge(h, a)) && CompleteBut(Merge(h, a), limbo - {a + h.blk[a].size})
  {
    var h' := Merge(h, a);
    var b := a + h.blk[a].size;
    LooseUnlisted(h, limbo, a);
    LooseUnlisted(h, limbo, b);
    forall k {:trigger Distinct(h'.lists[k])} | 0 <= k < SEG_SIZE ensures Distinct(h'.lists[k]) {
      assert Distinct(h.lists[k]);
    }
    forall y {:trigger Enlisted(h', y)} | y in h'.blk && !h'.blk[y].alloc
      ensures Enlisted(h', y) <==> y !in limbo - {b} {
      if y != a { assert Enlisted(h, y) <==> y !in limbo; }
    }
  }

  lemma SplitLoose(h: Heap, limbo: set<int>, a: int, n: int)
    requires LooseInv(h, limbo) && Loose(h, limbo, a) && n % 8 == 0 && 16 <= n <= h.blk[a].size - 16
    ensures a + n !in h.blk
    ensures LooseInv(Split(h, a, n), limbo + {a + n})
  {
    SplitTiled(h, a, n);
    SplitListed(h, limbo, a, n);
  }

  lemma SplitListed(h: Heap, limbo: set<int>, a: int, n: int)
    requires Listed(h) && CompleteBut(h, limbo) && Loose(h, limbo, a) && a + n !in h.blk
    ensures Listed(Split(h, a, n)) && CompleteBut(Split(h, a, n), limbo + {a + n})
  {
    var h' := Split(h, a, n);
    LooseUnlisted(h, limbo, a);
    forall k {:trigger Distinct(h'.lists[k])} | 0 <= k < SEG_SIZE ensures Distinct(h'.lists[k]) {
      assert Distinct(h.lists[k]);
    }
    forall y {:trigger Enlisted(h', y)} | y in h'.blk && !h'.blk[y].alloc
      ensures Enlisted(h', y) <==> y !in limbo + {a + n} {
      if y in h.blk && y != a { assert Enlisted(h, y) <==> y !in limbo; }
    }
  }

  lemma GrowLoose(h: Heap, limbo: set<int>, n: int)
    requires LooseInv(h, limbo) && n % 8 == 0 && n >= 16 && h.hi + n <= h.limit
    ensures h.hi !in h.blk
    ensures LooseInv(Grow(h, n), limbo + {h.hi})
  {
    GrowTiled(h, n);
    GrowListed(h, limbo, n);
  }

  lemma GrowListed(h: Heap, limbo: set<int>, n: int)
    requires Listed(h) && CompleteBut(h, limbo) && h.hi !in h.blk
    ensures Listed(Grow(h, n)) && CompleteBut(Grow(h, n), limbo + {h.hi})
  {
    var h' := Grow(h, n);
    forall k {:trigger Distinct(h'.lists[k])} | 0 <= k < SEG_SIZE ensures Distinct(h'.lists[k]) {
      assert Distinct(h.lists[k]);
    }
    forall y {:trigger Enlisted(h', y)} | y in h'.blk && !h'.blk[y].alloc
      ensures Enlisted(h', y) <==> y !in limbo + {h.hi} {
      if y in h.blk { assert Enlisted(h, y) <==> y !in limbo; }
    }
  }

  // ---------------------------------------------------------------- what the tiling means

  ghost predicate Covers(h: Heap, a: int, x: int) {
    a in h.blk && a <= x < a + h.blk[a].size
  }

  /** Every address of the heap belongs to exactly one block. */
  lemma TilesExactly(h: Heap, x: int)
    requires Tiled(h) && h.lo <= x < h.hi
    ensures exists a :: Covers(h, a, x)
    ensures forall a, b :: Covers(h, a, x) && Covers(h, b, x) ==> a == b
  {
    CoverFrom(h, h.lo, x);
  }

  lemma {:induction false} CoverFrom(h: Heap, a: int, x: int)
    requires Bounded(h) && Chained(h) && a in h.blk && a <= x < h.hi
    ensures exists b :: Covers(h, b, x)
    decreases h.hi - a
  {
    var e := a + h.blk[a].size;
    if x < e {
      assert Covers(h, a, x);
    } else {
      assert NextOk(h, a);
      CoverFrom(h, e, x);
    }
  }
}
