/** The operations of mm-2017-19651.c on the abstract heap, and what they keep. */
module SegOps {
  import opened Basics
  import opened SegHeap

  // ---------------------------------------------------------------- coalescing

  function SizeAt(h: Heap, a: int): int {
    if a in h.blk then h.blk[a].size else 0
  }

  predicate PrevFree(h: Heap, a: int) {
    a != h.lo && a in h.prev && h.prev[a] in h.blk && !h.blk[h.prev[a]].alloc
  }

  predicate NextFree(h: Heap, a: int) {
    a in h.blk && a + h.blk[a].size in h.blk && !h.blk[a + h.blk[a].size].alloc
  }

  /** Block `a` swallows the free block after it, if there is one. */
  function AbsorbNext(h: Heap, a: int): Heap {
    if NextFree(h, a) then Merge(Unlink(h, a + h.blk[a].size), a) else h
  }

  /** The free block before `a`, if there is one, swallows it. */
  function AbsorbIntoPrev(h: Heap, a: int): Heap {
    if PrevFree(h, a) then Merge(Unlink(h, h.prev[a]), h.prev[a]) else h
  }

  /** Where `a` ends up when it is merged with the free block before it. */
  function Front(h: Heap, a: int): int {
    if PrevFree(h, a) then h.prev[a] else a
  }

  function Fuse(h: Heap, a: int): Heap {
    AbsorbIntoPrev(AbsorbNext(h, a), a)
  }

  /** coalesce: the four boundary-tag cases. */
  function Coalesce(h: Heap, a: int): (Heap, int) {
    if !PrevFree(h, a) && !NextFree(h, a) then (h, a)
    else (Push(Fuse(Unlink(h, a), a), Front(h, a)), Front(h, a))
  }

  /** The facts about block `a` and its neighbours that merging needs. */
  ghost predicate Local(h: Heap, a: int) {
    && a in h.blk && h.blk[a].size > 0
    && (NextFree(h, a) ==> h.blk[a + h.blk[a].size].size > 0)
    && (PrevFree(h, a) ==> PrevOk(h, a) && h.blk[h.prev[a]].size > 0)
  }

  lemma TiledLocal(h: Heap, a: int)
    requires Bounded(h) && Chained(h) && a in h.blk
    ensures Local(h, a)
  {
    assert a != h.lo ==> PrevOk(h, a);
  }

  lemma AbsorbNextLocal(h: Heap, a: int)
    requires Local(h, a)
    ensures
      var h' := AbsorbNext(h, a);
      && PrevFree(h', a) == PrevFree(h, a) && Front(h', a) == Front(h, a)
      && a in h'.blk && h'.blk[a].alloc == h.blk[a].alloc
      && (PrevFree(h, a) ==> PrevOk(h', a) && h'.blk[h.prev[a]] == h.blk[h.prev[a]])
  {
  }

  lemma AbsorbNextLoose(h: Heap, limbo: set<int>, a: int)
    requires LooseInv(h, limbo) && Loose(h, limbo, a)
    requires NextFree(h, a) ==> a + h.blk[a].size !in limbo
    ensures LooseInv(AbsorbNext(h, a), limbo)
  {
    if NextFree(h, a) {
      var b := a + h.blk[a].size;
      UnlinkLoose(h, limbo, b);
      MergeLoose(Unlink(h, b), limbo + {b}, a);
      assert limbo + {b} - {b} == limbo;
    }
  }

  lemma AbsorbIntoPrevLoose(h: Heap, limbo: set<int>, a: int)
    requires LooseInv(h, limbo) && Loose(h, limbo, a) && PrevFree(h, a) && h.prev[a] !in limbo
    ensures LooseInv(AbsorbIntoPrev(h, a), limbo + {h.prev[a]} - {a})
  {
    var p := h.prev[a];
    assert PrevOk(h, a);
    UnlinkLoose(h, limbo, p);
    MergeLoose(Unlink(h, p), limbo + {p}, p);
  }

  lemma FuseLoose(h: Heap, a: int)
    requires LooseInv(h, {a}) && a in h.blk && !h.blk[a].alloc
    ensures LooseInv(Fuse(h, a), {Front(h, a)})
  {
    TiledLocal(h, a);
    AbsorbNextLocal(h, a);
    AbsorbNextLoose(h, {a}, a);
    if PrevFree(h, a) {
      AbsorbIntoPrevLoose(AbsorbNext(h, a), {a}, a);
      assert {a} + {h.prev[a]} - {a} == {h.prev[a]};
    }
  }

  // What fusing does to the blocks: clients see nothing, and the result touches no free block.

  lemma AbsorbNextLive(h: Heap, a: int)
    requires Bounded(h) && a in h.blk && NextFree(h, a)
    ensures
      var n := h.blk[a].size + h.blk[a + h.blk[a].size].size;
      && AbsorbNext(h, a).blk[a] == Block(n, h.blk[a].alloc)
      && Live(AbsorbNext(h, a)) == if h.blk[a].alloc then Live(h)[a := n - 8] else Live(h)
  {
  }

  lemma AbsorbIntoPrevLive(h: Heap, a: int)
    requires Bounded(h) && a in h.blk && PrevFree(h, a) && PrevOk(h, a)
    ensures
      var p := h.prev[a];
      && AbsorbIntoPrev(h, a).blk[p] == Block(h.blk[p].size + h.blk[a].size, false)
      && Live(AbsorbIntoPrev(h, a)) == Live(h) - {a}
  {
  }

  lemma AbsorbNextApart(h: Heap, a: int)
    requires Bounded(h) && Chained(h) && CoalescedBut(h, a) && a in h.blk
    ensures CoalescedBut(AbsorbNext(h, a), a) && !NextFree(AbsorbNext(h, a), a)
  {
    if NextFree(h, a) {
      NextOfNextTaken(h, a);
      AbsorbNextCoalesced(h, a);
    }
  }

  lemma NextOfNextTaken(h: Heap, a: int)
    requires Bounded(h) && CoalescedBut(h, a) && a in h.blk && NextFree(h, a)
    ensures !NextFree(AbsorbNext(h, a), a) && !NextFree(h, a + h.blk[a].size)
  {
  }

  lemma AbsorbNextCoalesced(h: Heap, a: int)
    requires CoalescedBut(h, a) && a in h.blk && NextFree(h, a)
    ensures CoalescedBut(AbsorbNext(h, a), a)
  {
  }

  lemma AbsorbIntoPrevApart(h: Heap, a: int)
    requires Bounded(h) && Chained(h) && CoalescedBut(h, a) && a in h.blk && PrevFree(h, a)
    ensures
      var h' := AbsorbIntoPrev(h, a);
      var p := h.prev[a];
      CoalescedBut(h', p) && !PrevFree(h', p) && (NextFree(h', p) ==> NextFree(h, a))
  {
    var p := h.prev[a];
    assert PrevOk(h, a);
    assert p != h.lo ==> PrevOk(h, p);
    PrevOfPrevTaken(h, a);
    AbsorbIntoPrevCoalesced(h, a);
  }

  lemma PrevOfPrevTaken(h: Heap, a: int)
    requires CoalescedBut(h, a) && a in h.blk && h.blk[a].size > 0 && PrevFree(h, a) && PrevOk(h, a)
    requires h.blk[h.prev[a]].size > 0
    requires h.prev[a] != h.lo ==> PrevOk(h, h.prev[a]) && h.blk[h.prev[h.prev[a]]].size > 0
    ensures !PrevFree(h, h.prev[a]) && !PrevFree(AbsorbIntoPrev(h, a), h.prev[a])
    ensures NextFree(AbsorbIntoPrev(h, a), h.prev[a]) ==> NextFree(h, a)
  {
  }

  lemma AbsorbIntoPrevCoalesced(h: Heap, a: int)
    requires CoalescedBut(h, a) && a in h.blk && PrevFree(h, a) && PrevOk(h, a)
    ensures CoalescedBut(AbsorbIntoPrev(h, a), h.prev[a])
  {
  }

  /** A fused block no longer needs its exemption. */
  lemma ApartIsCoalesced(h: Heap, f: int)
    requires Bounded(h) && Chained(h) && CoalescedBut(h, f) && !NextFree(h, f) && !PrevFree(h, f)
    ensures CoalescedBut(h, 0)
  {
    forall x, y {:trigger h.blk[x], h.blk[y]} | x in h.blk && y in h.blk && !h.blk[x].alloc && !h.blk[y].alloc
      ensures x + h.blk[x].size != y
    {
      assert NextOk(h, x);
    }
  }

  lemma SameBlocks(h: Heap, h': Heap, c: int)
    requires h'.blk == h.blk
    ensures Live(h') == Live(h)
    ensures CoalescedBut(h, c) ==> CoalescedBut(h', c)
    ensures Bounded(h) && h'.lo == h.lo && h'.hi == h.hi ==> Bounded(h')
  {
  }

  lemma FuseApart(h: Heap, a: int)
    requires LooseInv(h, {a}) && a in h.blk && !h.blk[a].alloc && CoalescedBut(h, a)
    ensures
      var h' := Fuse(h, a);
      var f := Front(h, a);
      CoalescedBut(h', f) && !NextFree(h', f) && !PrevFree(h', f)
  {
    TiledLocal(h, a);
    AbsorbNextLocal(h, a);
    AbsorbNextLoose(h, {a}, a);
    AbsorbNextApart(h, a);
    FuseBackApart(AbsorbNext(h, a), a);
  }

  lemma FuseBackApart(h: Heap, a: int)
    requires Bounded(h) && Chained(h) && CoalescedBut(h, a) && !NextFree(h, a) && a in h.blk
    ensures
      var h' := AbsorbIntoPrev(h, a);
      var f := Front(h, a);
      CoalescedBut(h', f) && !NextFree(h', f) && !PrevFree(h', f)
  {
    if PrevFree(h, a) { AbsorbIntoPrevApart(h, a); }
  }

  lemma FuseLive(h: Heap, a: int)
    requires LooseInv(h, {a}) && a in h.blk && !h.blk[a].alloc
    ensures
      var h' := Fuse(h, a);
      var f := Front(h, a);
      && Live(h') == Live(h)
      && f in h'.blk && !h'.blk[f].alloc && f <= a && a + h.blk[a].size <= f + h'.blk[f].size
  {
    TiledLocal(h, a);
    AbsorbNextLocal(h, a);
    AbsorbNextLoose(h, {a}, a);
    if NextFree(h, a) { AbsorbNextLive(h, a); }
    FuseBackLive(AbsorbNext(h, a), a);
  }

  lemma FuseBackLive(h: Heap, a: int)
    requires Bounded(h) && a in h.blk && !h.blk[a].alloc && (PrevFree(h, a) ==> PrevOk(h, a))
    ensures
      var h' := AbsorbIntoPrev(h, a);
      var f := Front(h, a);
      && Live(h') == Live(h)
      && f in h'.blk && !h'.blk[f].alloc && f <= a && a + h.blk[a].size <= f + h'.blk[f].size
  {
    if PrevFree(h, a) {
      AbsorbIntoPrevLive(h, a);
      assert a !in Live(h);
    }
  }

  lemma FuseExtent(h: Heap, a: int)
    ensures Fuse(h, a).lo == h.lo && Fuse(h, a).hi == h.hi && Fuse(h, a).limit == h.limit
  {
  }

  /** Coalescing a fresh free block restores the invariant and is invisible to clients. */
  lemma CoalesceInv(h: Heap, a: int)
    requires LooseInv(h, {}) && a in h.blk && !h.blk[a].alloc && CoalescedBut(h, a)
    ensures
      var (h', f) := Coalesce(h, a);
      && Inv(h') && Live(h') == Live(h)
      && f in h'.blk && !h'.blk[f].alloc && f <= a && a + h.blk[a].size <= f + h'.blk[f].size
      && h'.lo == h.lo && h'.hi == h.hi && h'.limit == h.limit
  {
    if PrevFree(h, a) || NextFree(h, a) {
      UnlinkLoose(h, {}, a);
      assert {} + {a} == {a};
      var h1 := Unlink(h, a);
      SameBlocks(h, h1, a);
      FuseLoose(h1, a);
      FuseApart(h1, a);
      FuseLive(h1, a);
      FuseExtent(h1, a);
      var h2 := Fuse(h1, a);
      var f := Front(h, a);
      ApartIsCoalesced(h2, f);
      PushLoose(h2, {f}, f);
      assert {f} - {f} == {};
      SameBlocks(h2, Push(h2, f), 0);
    } else {
      ApartIsCoalesced(h, a);
    }
  }

  // ---------------------------------------------------------------- order of list and tag edits

  lemma IndexUnique(s: seq<int>, x: int, i: nat)
    requires Distinct(s) && i < |s| && s[i] == x
    ensures IndexOf(s, x) == i
  {
  }

  lemma WithoutCommutes(s: seq<int>, x: int, y: int)
    requires Distinct(s) && x in s && y in s && x != y
    ensures y in Without(s, x) && x in Without(s, y)
    ensures Without(Without(s, x), y) == Without(Without(s, y), x)
  {
    WithoutMembers(s, x);
    WithoutMembers(s, y);
    var i, j := IndexOf(s, x), IndexOf(s, y);
    if i < j { WithoutTwo(s, x, y); } else { WithoutTwo(s, y, x); }
  }

  lemma WithoutTwo(s: seq<int>, x: int, y: int)
    requires Distinct(s) && x in s && y in s && IndexOf(s, x) < IndexOf(s, y)
    requires y in Without(s, x) && x in Without(s, y) && Distinct(Without(s, x)) && Distinct(Without(s, y))
    ensures Without(Without(s, x), y) == Without(Without(s, y), x)
  {
    var i, j := IndexOf(s, x), IndexOf(s, y);
    var u, v := Without(s, x), Without(s, y);
    hide Distinct;
    assert u[j - 1] == s[j] && v[i] == s[i];
    IndexUnique(u, y, j - 1);
    IndexUnique(v, x, i);
    DropDrop(s, u, v, i, j);
  }

  lemma DropDrop(s: seq<int>, u: seq<int>, v: seq<int>, i: nat, j: nat)
    requires i < j < |s| && u == s[..i] + s[i + 1..] && v == s[..j] + s[j + 1..]
    ensures u[..j - 1] + u[j..] == v[..i] + v[i + 1..]
  {
    assert u[..j - 1] == s[..i] + s[i + 1..j];
    assert v[i + 1..] == s[i + 1..j] + s[j + 1..];
  }

  lemma UnlinkCommutes(h: Heap, x: int, y: int)
    requires Listed(h) && FreeListed(h, x) && FreeListed(h, y) && x != y
    ensures Unlink(Unlink(h, x), y) == Unlink(Unlink(h, y), x)
  {
    var c, d := Class(h.blk[x].size), Class(h.blk[y].size);
    assert Distinct(h.lists[c]) && Distinct(h.lists[d]);
    if c == d {
      WithoutCommutes(h.lists[c], x, y);
    } else {
      var k := h.lists[c := Without(h.lists[c], x)][d := Without(h.lists[d], y)];
      assert k == h.lists[d := Without(h.lists[d], y)][c := Without(h.lists[c], x)];
    }
  }

  ghost predicate FreeListed(h: Heap, x: int)
    requires |h.lists| == SEG_SIZE
  {
    x in h.blk && !h.blk[x].alloc && Enlisted(h, x)
  }

  lemma UnlinkAfterMerge(h: Heap, a: int, p: int)
    requires a in h.blk && a + h.blk[a].size in h.blk && p in h.blk && p != a && p != a + h.blk[a].size
    ensures Unlink(Merge(h, a), p) == Merge(Unlink(h, p), a)
  {
  }
}
