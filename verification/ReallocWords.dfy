/** What mm_realloc does to the words while a block is being enlarged in place. */
module ReallocWords {
  import opened Basics
  import opened Memlib
  import opened SegHeap
  import opened SegOps
  import opened SegMalloc
  import opened SegWords

  /** The words of n payload bytes at p appear at q in w'. */
  ghost predicate Copied(w: Words, w': Words, p: int, q: int, n: int) {
    forall d {:trigger w[d]} :: d in w && p <= d < p + n ==> q + (d - p) in w' && w'[q + (d - p)] == w[d]
  }

  /** g owns block q, already tagged with the n bytes mm_realloc is going to keep of it. */
  ghost predicate Pending(w: Words, g: Heap, q: int, n: int) {
    && q in g.blk && g.blk[q].alloc && 16 <= n <= g.blk[q].size
    && Stored(SetTags(w, q, g.blk[q].size, true), g)
    && q - 4 in w && w[q - 4] == Pack(n, true) && q + n - 8 in w && w[q + n - 8] == Pack(n, true)
    && q + g.blk[q].size - 8 in w
  }

  lemma PendingWhole(w: Words, g: Heap, q: int, n: int)
    requires Pending(w, g, q, n) && n == g.blk[q].size
    ensures Stored(w, g)
  {
    assert SetTags(w, q, n, true) == w;
  }

  /** Freeing the tail of a pending block. */
  lemma PendingCut(w: Words, w': Words, g: Heap, q: int, n: int)
    requires Pending(w, g, q, n) && LooseInv(g, {}) && n % 8 == 0 && n <= g.blk[q].size - 16
    requires w' == SetTags(w, q + n, g.blk[q].size - n, false)
    ensures
      var h' := SetAlloc(Split(g, q, n), q + n, false);
      && Stored(w', h') && LooseInv(h', {q + n}) && SameExtent(g, h')
      && FreeBlock(h', q + n) && h'.blk[q + n].size == g.blk[q].size - n
      && Kept(w, w', Live(h'))
  {
    hide Stored, LooseInv, Kept, SameOutside;
    var t := g.blk[q].size;
    var v := SetTags(w, q, t, true);
    var h' := SetAlloc(Split(g, q, n), q + n, false);
    TrimCut(g, q, n);
    CutMapped(v, g, {}, q, n);
    assert SetTags(SetTags(v, q, n, true), q + n, t - n, false) == w';
    ShrinkOutside(g, q, n);
    SplitStored(v, w', g, h', {q + n}, q, n, t - n);
    TailTagsKept(w, w', h', q, n, t);
  }

  lemma ShrinkOutside(g: Heap, q: int, n: int)
    requires LooseInv(g, {}) && q in g.blk && g.blk[q].alloc && 16 <= n <= g.blk[q].size - 16 && q + n !in g.blk
    ensures
      var h' := SetAlloc(Split(g, q, n), q + n, false);
      && SameOutside(g, h', q, q + g.blk[q].size) && SameExtent(g, h')
      && q in h'.blk && h'.blk[q] == Block(n, true) && q + n in h'.blk &&
        h'.blk[q + n] == Block(g.blk[q].size - n, false)
  {
  }

  lemma TailTagsKept(w: Words, w': Words, h: Heap, q: int, n: int, t: int)
    requires LooseInv(h, {q + n}) && q in h.blk && h.blk[q].size == n && FreeBlock(h, q + n)
    requires h.blk[q + n].size == t - n
    requires w' == SetTags(w, q + n, t - n, false)
    ensures Kept(w, w', Live(h))
  {
    var live := Live(h);
    forall a, x {:trigger live[a], w'[x]} | a in live && a <= x < a + live[a] && x in w
      ensures x in w' && w'[x] == w[x] {
      assert h.blk[a].alloc && h.blk[q + n].size == t - n;
    }
  }

  /** The words w differ from those of h only inside block q of g, which is tagged for n bytes. */
  lemma PendingHolds(w: Words, w': Words, h: Heap, g: Heap, q: int, n: int)
    requires Stored(w, h) && LooseInv(g, {}) && q in g.blk && g.blk[q].alloc && 16 <= n <= g.blk[q].size && g.hi == h.hi
    requires SameOutside(h, g, q, q + g.blk[q].size) && AgreeOutside(w, w', q - 4, q + g.blk[q].size - 4)
    requires q - 4 in w && q + n - 8 in w && q + g.blk[q].size - 8 in w
    requires w'[q - 4] == Pack(n, true) && w'[q + n - 8] == Pack(n, true)
    ensures Pending(w', g, q, n) && Kept(w, w', Live(g) - {q})
  {
    hide Stored, LooseInv, Kept, SameOutside;
    var t := g.blk[q].size;
    var v := SetTags(w', q, t, true);
    OneBlockStored(w, v, h, g, {}, q);
    LiveOutsideLoose(g, q);
    KeptOutside(w, w', Live(g) - {q}, q, q + t);
  }

  lemma LiveOutsideLoose(g: Heap, q: int)
    requires LooseInv(g, {}) && q in g.blk
    ensures
      var live := Live(g) - {q};
      forall b {:trigger live[b]} :: b in live ==> b + live[b] + 4 <= q || b >= q + g.blk[q].size
  {
    LiveOutside(g, q);
  }

  // ---------------------------------------------------------------- the block before and after

  lemma TakeNextOutside(h: Heap, p: int)
    requires Inv(h) && p in Live(h) && NextFree(h, p)
    ensures
      var b := p + h.blk[p].size;
      var g := AbsorbNext(h, p);
      && Inv(g) && p in g.blk && g.blk[p] == Block(h.blk[p].size + h.blk[b].size, true)
      && SameOutside(Unlink(h, b), g, p, p + g.blk[p].size) && SameExtent(h, g)
      && Live(g) - {p} == Live(h) - {p}
  {
    hide Inv, LooseInv, AbsorbNext, Merge, Unlink, SameOutside, Live;
    var b := p + h.blk[p].size;
    TakeNextInv(h, p);
    TakeNextFacts(h, p, b);
    MergeOutsideLoose(Unlink(h, b), {} + {b}, p);
  }

  lemma TakeNextFacts(h: Heap, p: int, b: int)
    requires Inv(h) && p in Live(h) && NextFree(h, p) && b == p + h.blk[p].size
    ensures LooseInv(Unlink(h, b), {} + {b}) && Unlink(h, b).blk == h.blk
    ensures AbsorbNext(h, p) == Merge(Unlink(h, b), p)
  {
    UnlinkLoose(h, {}, b);
  }

  lemma TakePrevOutside(h: Heap, p: int, q: int)
    requires Inv(h) && p in Live(h) && PrevFree(h, p) && q == h.prev[p]
    ensures
      var g := TakePrev(h, p);
      && Inv(g) && q in g.blk && g.blk[q] == Block(h.blk[q].size + h.blk[p].size, true) && q < p == q + h.blk[q].size
      && SameOutside(Unlink(h, q), g, q, q + g.blk[q].size) && SameExtent(h, g)
      && Live(g) - {q} == Live(h) - {p}
  {
    hide Inv, TakePrev, AbsorbIntoPrev, SameOutside;
    TakePrevInv(h, p);
    TakePrevFacts(h, p, q);
    TakePrevSteps(h, p, q);
  }

  lemma TakePrevFacts(h: Heap, p: int, q: int)
    requires Inv(h) && p in Live(h) && PrevFree(h, p) && q == h.prev[p]
    ensures q in h.blk && q < p && q + h.blk[q].size == p && FreeBlock(h, q) && q !in Live(h)
    ensures LooseInv(Unlink(h, q), {q})
    ensures TakePrev(h, p) == SetAlloc(Merge(Unlink(h, q), q), q, true)
  {
    assert PrevOk(h, p);
    UnlinkLoose(h, {}, q);
    assert {} + {q} == {q};
  }

  lemma TakePrevSteps(h: Heap, p: int, q: int)
    requires p in h.blk && q in h.blk && q + h.blk[q].size == p && LooseInv(Unlink(h, q), {q})
    ensures
      var g := SetAlloc(Merge(Unlink(h, q), q), q, true);
      SameOutside(Unlink(h, q), g, q, q + h.blk[q].size + h.blk[p].size)
  {
    MergeOutsideLoose(Unlink(h, q), {q}, q);
    AllocOutside(Unlink(h, q), Merge(Unlink(h, q), q), q, q + h.blk[q].size + h.blk[p].size);
  }

  lemma AllocOutside(h: Heap, g: Heap, q: int, y: int)
    requires SameOutside(h, g, q, y) && q in g.blk && q < y
    ensures SameOutside(h, SetAlloc(g, q, true), q, y)
  {
  }

  lemma TakeBothOutside(h: Heap, p: int, q: int, b: int)
    requires Inv(h) && p in Live(h) && PrevFree(h, p) && q == h.prev[p] && NextFree(h, p) && b == p + h.blk[p].size
    ensures FreeBlock(h, b) && FreeBlock(h, q) && q < p < b && p == q + h.blk[q].size
    ensures
      var g := TakePrev(AbsorbNext(h, p), p);
      && Inv(g) && q in g.blk && g.blk[q] == Block(h.blk[q].size + h.blk[p].size + h.blk[b].size, true)
      && SameOutside(Unlink(Unlink(h, b), q), g, q, q + g.blk[q].size) && SameExtent(h, g)
      && Live(g) - {q} == Live(h) - {p}
  {
    hide Inv, TakePrev, SameOutside, AbsorbNext, Live, Merge, SetAlloc, Unlink;
    var h1 := AbsorbNext(h, p);
    TakePrevFacts(h, p, q);
    SizesPositive(h, p, b);
    TakeNextInv(h, p);
    NextKeepsPrev(h, p, q);
    TakePrevInv(h1, p);
    TakePrevFacts(h1, p, q);
    TakeBothSteps(h, p, q, b);
    assert Live(TakePrev(h1, p)) - {q} == Live(h) - {p};
  }

  lemma NextKeepsPrev(h: Heap, p: int, q: int)
    requires Inv(h) && p in h.blk && PrevFree(h, p) && q == h.prev[p] && NextFree(h, p)
    ensures
      var h1 := AbsorbNext(h, p);
      PrevFree(h1, p) && h1.prev[p] == q && h1.blk[q] == h.blk[q]
  {
    TiledLocal(h, p);
    AbsorbNextLocal(h, p);
  }

  lemma TakeBothSteps(h: Heap, p: int, q: int, b: int)
    requires Inv(h) && p in h.blk && PrevFree(h, p) && q == h.prev[p] && NextFree(h, p) && b == p + h.blk[p].size
    requires q < p && q + h.blk[q].size == p
    ensures
      SameOutside(Unlink(Unlink(h, b), q), TakePrev(AbsorbNext(h, p), p), q, b + h.blk[b].size)
  {
    hide Inv, LooseInv, SameOutside, Merge, Unlink, SetAlloc;
    var g := Unlink(Unlink(h, b), q);
    TakeBothIs(h, p, q, b);
    InvIsLoose(h);
    SizesPositive(h, p, b);
    UnlinkTwiceKeeps(h, b, q);
    FuseOutsideSteps(h, g, {}, p, q, b);
    MergedSize(g, p, q);
    AllocOutside(g, Merge(Merge(g, p), q), q, b + h.blk[b].size);
  }

  lemma TakeBothIs(h: Heap, p: int, q: int, b: int)
    requires Inv(h) && p in h.blk && PrevFree(h, p) && q == h.prev[p] && NextFree(h, p) && b == p + h.blk[p].size
    requires q < p && q + h.blk[q].size == p
    ensures TakePrev(AbsorbNext(h, p), p) == SetAlloc(Merge(Merge(Unlink(Unlink(h, b), q), p), q), q, true)
  {
    hide Inv;
    NextKeepsPrev(h, p, q);
    SizesPositive(h, p, b);
    UnlinkAfterMerge(Unlink(h, b), p, q);
  }

  lemma SizesPositive(h: Heap, p: int, b: int)
    requires Inv(h) && p in h.blk && b in h.blk
    ensures h.blk[p].size >= 16 && h.blk[b].size >= 16
  {
  }

  lemma InvIsLoose(h: Heap)
    requires Inv(h)
    ensures LooseInv(h, {}) && |h.lists| == SEG_SIZE && 120 <= h.lo <= h.hi <= h.limit
  {
  }

  // ---------------------------------------------------------------- moving the payload down

  /** Header of the new block, memmove of the old block, footer of the new block. */
  ghost function MoveDown(w: Words, q: int, p: int, len: int, n: int): Words {
    Moved(w[q - 4 := Pack(n, true)], q, p, len)[q + n - 8 := Pack(n, true)]
  }

  lemma MovedElsewhere(w: Words, q: int, p: int, len: int, x: int)
    requires x in w && !(q <= x < q + len)
    ensures x in Moved(w, q, p, len) && Moved(w, q, p, len)[x] == w[x]
  {
  }

  lemma MoveDownAgrees(w: Words, q: int, p: int, len: int, n: int, t: int)
    requires q - 4 in w && q + n - 8 in w && 0 <= len && len + 8 <= n <= t
    ensures
      var w' := MoveDown(w, q, p, len, n);
      AgreeOutside(w, w', q - 4, q + t - 4) && w'[q - 4] == Pack(n, true) && w'[q + n - 8] == Pack(n, true)
  {
  }

  lemma MovedCopies(w: Words, q: int, p: int, len: int, c: int, lo: int, hi: int)
    requires WordsUpTo(w, lo, hi) && lo <= q && c <= len && q % 4 == 0 && p % 4 == 0 && q + len <= hi
    ensures Copied(w, Moved(w, q, p, len), p, q, c)
  {
    hide WordsUpTo, Moved;
    forall d {:trigger w[d]} | d in w && p <= d < p + c
      ensures q + (d - p) in Moved(w, q, p, len) && Moved(w, q, p, len)[q + (d - p)] == w[d] {
      Target(w, q, p, d, q + (d - p), lo, hi);
      MovedOne(w, q, p, len, d, q + (d - p));
    }
  }

  lemma Target(w: Words, q: int, p: int, d: int, x: int, lo: int, hi: int)
    requires WordsUpTo(w, lo, hi) && lo <= q && q % 4 == 0 && p % 4 == 0 && d in w && p <= d && x == q + (d - p)
    requires x < hi
    ensures x in w
  {
    assert w[d] == w[d];
    FourMultiples(q, p, d);
  }

  lemma FourMultiples(q: int, p: int, d: int)
    requires q % 4 == 0 && p % 4 == 0 && d % 4 == 0
    ensures (q + (d - p)) % 4 == 0
  {
    var i, j, k := q / 4, p / 4, d / 4;
    assert q == 4 * i && p == 4 * j && d == 4 * k;
    Quotient(q + (d - p), 4, i + (k - j), 0);
  }

  lemma MovedOne(w: Words, q: int, p: int, len: int, d: int, x: int)
    requires d in w && p <= d < p + len && x == q + (d - p) && x in w
    ensures x in Moved(w, q, p, len) && Moved(w, q, p, len)[x] == w[d]
  {
    assert x - q + p == d;
  }

  lemma MoveDownCopies(w: Words, q: int, p: int, len: int, n: int, c: int, lo: int, hi: int)
    requires WordsUpTo(w, lo, hi) && lo <= q && c <= len && q % 4 == 0 && p % 4 == 0 && q + len <= hi
    requires q - 4 in w && q + n - 8 in w && q < p && len + 8 <= n
    ensures Copied(w, MoveDown(w, q, p, len, n), p, q, c)
  {
    hide WordsUpTo;
    var w1 := w[q - 4 := Pack(n, true)];
    forall d {:trigger w[d]} | d in w && p <= d < p + c
      ensures q + (d - p) in MoveDown(w, q, p, len, n) && MoveDown(w, q, p, len, n)[q + (d - p)] == w[d] {
      Target(w, q, p, d, q + (d - p), lo, hi);
      MovedOne(w1, q, p, len, d, q + (d - p));
    }
  }

  lemma SameOutsideSelf(h: Heap, limbo: set<int>, a: int)
    requires LooseInv(h, limbo) && a in h.blk
    ensures SameOutside(h, h, a, a + h.blk[a].size)
  {
  }

  /** Writing inside one payload. */
  lemma PayloadStored(w: Words, w': Words, h: Heap, r: int)
    requires Stored(w, h) && Inv(h) && r in Live(h) && AgreeOutside(w, w', r, r + Live(h)[r])
    ensures Stored(w', h) && Kept(w, w', Live(h) - {r})
  {
    hide Stored, Kept, SameOutside, Inv;
    InvIsLoose(h);
    SameOutsideSelf(h, {}, r);
    SizesPositive(h, r, r);
    PayloadTags(w, w', h, r);
    WiderAgrees(w, w', r, r + Live(h)[r], r - 4, r + h.blk[r].size - 4);
    OneBlockStored(w, w', h, h, {}, r);
  }

  lemma PayloadTags(w: Words, w': Words, h: Heap, r: int)
    requires Stored(w, h) && r in h.blk && AgreeOutside(w, w', r, r + h.blk[r].size - 8)
    ensures TagOk(w', h, r)
  {
    assert TagOk(w, h, r);
  }

  lemma WiderAgrees(w: Words, w': Words, x: int, y: int, u: int, v: int)
    requires AgreeOutside(w, w', x, y) && u <= x && y <= v
    ensures AgreeOutside(w, w', u, v)
  {
  }

  lemma MovedAgrees(w: Words, dst: int, src: int, n: int)
    ensures AgreeOutside(w, Moved(w, dst, src, n), dst, dst + n)
  {
  }

  lemma CopiedKept(w: Words, w1: Words, w2: Words, p: int, q: int, c: int, live: map<int, int>)
    requires Copied(w, w1, p, q, c) && Kept(w1, w2, live) && q in live && c <= live[q]
    ensures Copied(w, w2, p, q, c)
  {
    forall d {:trigger w[d]} | d in w && p <= d < p + c ensures q + (d - p) in w2 && w2[q + (d - p)] == w[d] {
      var x := q + (d - p);
      assert w1[x] == w[d] && q <= x < q + live[q];
    }
  }

  lemma KeptCopied(w: Words, w1: Words, w2: Words, p: int, q: int, c: int, live: map<int, int>)
    requires Kept(w, w1, live) && p in live && c <= live[p] && Copied(w1, w2, p, q, c)
    ensures Copied(w, w2, p, q, c)
  {
    forall d {:trigger w[d]} | d in w && p <= d < p + c ensures q + (d - p) in w2 && w2[q + (d - p)] == w[d] {
      assert w[d] == w1[d] && live[p] >= c;
    }
  }

  /** Two tags outside the first c bytes of p's payload leave these bytes alone. */
  lemma TagsSpare(w: Words, p: int, n: int, c: int)
    requires c <= n - 8
    ensures Copied(w, SetTags(w, p, n, true), p, p, c)
  {
  }

  lemma TagsAgree(w: Words, p: int, n: int, t: int)
    requires p - 4 in w && p + n - 8 in w && 16 <= n <= t
    ensures
      var w' := SetTags(w, p, n, true);
      AgreeOutside(w, w', p - 4, p + t - 4) && w'[p - 4] == Pack(n, true) && w'[p + n - 8] == Pack(n, true)
  {
  }
}
