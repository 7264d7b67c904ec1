/** How a heap is written into memory words: boundary tags, free-list links, the table of list
    heads below the prologue, and the frame of prologue, padding and epilogue words. */
module SegWords {
  import opened Basics
  import opened SegHeap
  import opened SegOps
  import opened SegMalloc

  type Words = map<int, int>

  /** PACK */
  function Pack(size: int, alloc: bool): int {
    if alloc && size % 2 == 0 then size + 1 else size
  }

  function Tag(b: Block): int { Pack(b.size, b.alloc) }

  /** The table of list heads starts 112 bytes below the first block. */
  const TABLE: int := 112

  /** Every aligned word from the table to the end of the address range exists. */
  ghost predicate Mapped(w: Words, h: Heap) {
    forall p {:trigger p in w} :: h.lo - TABLE <= p < h.limit && p % 4 == 0 ==> p in w
  }

  ghost predicate TagOk(w: Words, h: Heap, a: int)
    requires a in h.blk
  {
    var n := h.blk[a].size;
    && a - 4 in w && w[a - 4] == Tag(h.blk[a])
    && a + n - 8 in w && w[a + n - 8] == Tag(h.blk[a])
  }

  ghost predicate Tagged(w: Words, h: Heap) {
    forall a {:trigger TagOk(w, h, a)} :: a in h.blk ==> TagOk(w, h, a)
  }

  ghost predicate Framed(w: Words, h: Heap) {
    && h.lo - 16 in w && h.lo - 12 in w && h.lo - 8 in w && h.hi - 4 in w
    && w[h.lo - 16] == 0                                // alignment padding
    && w[h.lo - 12] == 9 && w[h.lo - 8] == 9            // prologue header and footer
    && w[h.hi - 4] == 1                                 // epilogue header
  }

  function Head(s: seq<int>): int { if s == [] then 0 else s[0] }

  function Older(s: seq<int>, i: int): int { if 0 <= i && i + 1 < |s| then s[i + 1] else 0 }

  function Newer(s: seq<int>, i: int): int { if 0 < i <= |s| then s[i - 1] else 0 }

  /** The two link words of the i-th block of list s: first the older neighbour, then the newer. */
  ghost predicate LinkOk(w: Words, s: seq<int>, i: int)
    requires 0 <= i < |s|
  {
    && s[i] in w && w[s[i]] == Older(s, i)
    && s[i] + 4 in w && w[s[i] + 4] == Newer(s, i)
  }

  ghost predicate ListOk(w: Words, h: Heap, k: int)
    requires 0 <= k < |h.lists|
  {
    && h.lo - TABLE + 4 * k in w && w[h.lo - TABLE + 4 * k] == Head(h.lists[k])
    && (forall i {:trigger LinkOk(w, h.lists[k], i)} :: 0 <= i < |h.lists[k]| ==> LinkOk(w, h.lists[k], i))
  }

  ghost predicate Linked(w: Words, h: Heap) {
    && |h.lists| == SEG_SIZE
    && (forall k {:trigger ListOk(w, h, k)} :: 0 <= k < SEG_SIZE ==> ListOk(w, h, k))
  }

  ghost predicate Stored(w: Words, h: Heap) {
    Mapped(w, h) && Tagged(w, h) && Framed(w, h) && Linked(w, h)
  }

  /** w' differs from w at most at addresses in [x, y). */
  ghost predicate AgreeOutside(w: Words, w': Words, x: int, y: int) {
    && w'.Keys == w.Keys
    && (forall q {:trigger w'[q]} {:trigger w[q]} :: q in w && !(x <= q < y) ==> w'[q] == w[q])
  }

  /** No word of a payload of `live` changes from w to w'. */
  ghost predicate Kept(w: Words, w': Words, live: map<int, int>) {
    forall a, q {:trigger live[a], w'[q]} {:trigger live[a], w[q]} ::
      a in live && a <= q < a + live[a] && q in w ==> q in w' && w'[q] == w[q]
  }

  // ---------------------------------------------------------------- writing tags

  /** Inside [x, y) of h' the tags were rewritten; the blocks outside are those of h. */
  lemma TagsRewritten(w: Words, w': Words, h: Heap, h': Heap, x: int, y: int)
    requires Tagged(w, h) && AgreeOutside(w, w', x - 4, y - 4)
    requires forall b {:trigger h'.blk[b]} :: b in h'.blk && !(x <= b < y) ==>
               b in h.blk && h'.blk[b] == h.blk[b] && (b + h'.blk[b].size <= x || b >= y)
    requires forall b {:trigger TagOk(w', h', b)} :: b in h'.blk && x <= b < y ==> TagOk(w', h', b)
    requires Bounded(h')
    ensures Tagged(w', h')
  {
    forall b {:trigger TagOk(w', h', b)} | b in h'.blk ensures TagOk(w', h', b) {
      if !(x <= b < y) { assert h'.blk[b] == h.blk[b]; assert TagOk(w, h, b); }
    }
  }

  lemma FrameKept(w: Words, w': Words, h: Heap, x: int, y: int)
    requires Framed(w, h) && AgreeOutside(w, w', x - 4, y - 4) && h.lo <= x && y <= h.hi
    ensures Framed(w', h)
  {
  }

  lemma LinksKept(w: Words, w': Words, h: Heap, x: int, y: int)
    requires Linked(w, h) && AgreeOutside(w, w', x - 4, y - 4) && h.lo <= x
    requires forall k, a {:trigger a in h.lists[k]} :: 0 <= k < SEG_SIZE && a in h.lists[k] ==> a + 16 <= x || a >= y
    ensures Linked(w', h)
  {
    forall k {:trigger ListOk(w', h, k)} | 0 <= k < SEG_SIZE ensures ListOk(w', h, k) {
      assert ListOk(w, h, k);
      forall i {:trigger LinkOk(w', h.lists[k], i)} | 0 <= i < |h.lists[k]| ensures LinkOk(w', h.lists[k], i) {
        assert LinkOk(w, h.lists[k], i);
        assert h.lists[k][i] in h.lists[k];
      }
    }
  }

  // ---------------------------------------------------------------- writing links

  ghost predicate AgreeBut(w: Words, w': Words, d: set<int>) {
    && w'.Keys == w.Keys
    && (forall q {:trigger w'[q]} {:trigger w[q]} :: q in w && q !in d ==> w'[q] == w[q])
  }

  /** The words one list edit may touch: the links of two free blocks and one table entry. */
  ghost function EditSet(x: int, y: int, t: int): set<int> { {x, x + 4, y, y + 4, t} }

  ghost predicate FreeBlock(h: Heap, x: int) { x in h.blk && !h.blk[x].alloc }

  ghost predicate TableWord(h: Heap, t: int) { h.lo - TABLE <= t < h.lo - 16 }

  lemma LinksMissTags(h: Heap, x: int, b: int)
    requires Bounded(h) && Disjoint(h) && Aligned(h) && x in h.blk && b in h.blk
    ensures b - 4 != x && b - 4 != x + 4
    ensures b + h.blk[b].size - 8 != x && b + h.blk[b].size - 8 != x + 4
  {
    var k := h.blk[b].size;
    assert (b + k - 8) % 8 == 0;
  }

  lemma EditKeepsTags(w: Words, w': Words, h: Heap, x: int, y: int, t: int)
    requires Bounded(h) && Disjoint(h) && Aligned(h) && FreeBlock(h, x) && FreeBlock(h, y) && TableWord(h, t)
    requires AgreeBut(w, w', EditSet(x, y, t)) && Tagged(w, h)
    ensures Tagged(w', h)
  {
    forall b {:trigger TagOk(w', h, b)} | b in h.blk ensures TagOk(w', h, b) {
      LinksMissTags(h, x, b);
      LinksMissTags(h, y, b);
      assert TagOk(w, h, b);
    }
  }

  lemma EditKeepsFrame(w: Words, w': Words, h: Heap, x: int, y: int, t: int)
    requires Bounded(h) && FreeBlock(h, x) && FreeBlock(h, y) && TableWord(h, t)
    requires AgreeBut(w, w', EditSet(x, y, t)) && Framed(w, h)
    ensures Framed(w', h)
  {
  }

  lemma EditKeepsPayloads(w: Words, w': Words, h: Heap, x: int, y: int, t: int)
    requires Bounded(h) && Disjoint(h) && FreeBlock(h, x) && FreeBlock(h, y) && TableWord(h, t)
    requires AgreeBut(w, w', EditSet(x, y, t))
    ensures Kept(w, w', Live(h))
  {
    forall a, q {:trigger Live(h)[a], w'[q]} | a in Live(h) && a <= q < a + Live(h)[a] && q in w
      ensures q in w' && w'[q] == w[q] {
      assert h.blk[a].alloc;
    }
  }

  lemma EditKeepsOtherLists(w: Words, w': Words, h: Heap, h': Heap, x: int, y: int, c: int, k: int)
    requires Bounded(h) && Disjoint(h) && Listed(h) && 0 <= c < SEG_SIZE && 0 <= k < SEG_SIZE && k != c
    requires IsNode(h, c, x) && IsNode(h, c, y)
    requires AgreeBut(w, w', EditSet(x, y, h.lo - TABLE + 4 * c)) && ListOk(w, h, k)
    requires h'.lo == h.lo && |h'.lists| == SEG_SIZE && h'.lists[k] == h.lists[k]
    ensures ListOk(w', h', k)
  {
    var s := h.lists[k];
    forall i | 0 <= i < |s| ensures LinkOk(w', s, i) {
      assert LinkOk(w, s, i);
      assert s[i] in h.lists[k];
      assert IsNode(h, k, s[i]);
      assert h.blk[s[i]].size >= 16;
    }
  }

  /** The words after add_seglist put x in front of the list that starts at `curr`. */
  function PushWords(w: Words, t: int, curr: int, x: int): Words {
    if curr != 0 then w[curr + 4 := x][x := curr][x + 4 := 0][t := x]
    else w[x + 4 := 0][x := 0][t := x]
  }

  lemma PushListOk(w: Words, w': Words, h: Heap, x: int, c: int)
    requires Bounded(h) && Disjoint(h) && Listed(h) && h.lo >= 120 && FreeBlock(h, x) && c == Class(h.blk[x].size)
    requires x !in h.lists[c] && ListOk(w, h, c) && x in w && x + 4 in w
    requires w' == PushWords(w, h.lo - TABLE + 4 * c, Head(h.lists[c]), x)
    ensures ListOk(w', Push(h, x), c)
  {
    hide Bounded, Disjoint, Class, PushWords, LinkOk;
    var s := h.lists[c];
    var s', t := [x] + s, h.lo - TABLE + 4 * c;
    assert Push(h, x).lists[c] == s';
    assert Distinct(s);
    BlocksClear(h, x, x);
    forall i: nat {:trigger s[i]} | i < |s| ensures s[i] > t + 8 && Clear(s[i], x) && Clear(s[0], s[i]) {
      ListBlock(h, c, i);
      ListBlock(h, c, 0);
      BlocksClear(h, s[i], x);
      BlocksClear(h, s[0], s[i]);
    }
    forall i {:trigger LinkOk(w', s', i)} | 0 <= i < |s'| ensures LinkOk(w', s', i) {
      if s != [] { assert LinkOk(w, s, 0); }
      if i > 0 { assert LinkOk(w, s, i - 1); }
      PushLink(w, w', s, x, t, i);
    }
    PushHead(w, w', Head(s), x, t);
  }

  /** The link words of two blocks do not overlap, or the blocks are one. */
  predicate Clear(a: int, b: int) { a == b || a + 8 <= b || b + 8 <= a }

  lemma ListBlock(h: Heap, c: nat, i: nat)
    requires Listed(h) && c < SEG_SIZE && i < |h.lists[c]|
    ensures h.lists[c][i] in h.blk
  {
    assert h.lists[c][i] in h.lists[c];
    assert IsNode(h, c, h.lists[c][i]);
  }

  lemma BlocksClear(h: Heap, a: int, b: int)
    requires Bounded(h) && Disjoint(h) && a in h.blk && b in h.blk
    ensures Clear(a, b) && a >= h.lo
  {
    assert h.blk[a].size >= 16 && h.blk[b].size >= 16;
  }

  lemma PushHead(w: Words, w': Words, curr: int, x: int, t: int)
    requires w' == PushWords(w, t, curr, x)
    ensures t in w' && w'[t] == x
  {
  }

  lemma PushLink(w: Words, w': Words, s: seq<int>, x: int, t: int, i: nat)
    requires w' == PushWords(w, t, Head(s), x) && i <= |s| && x > t + 8 && x !in s && t > 0
    requires i > 0 ==> LinkOk(w, s, i - 1) && s[i - 1] > t + 8 && Clear(s[i - 1], x) && Clear(s[0], s[i - 1])
    requires s != [] ==> s[0] > t + 8 && Clear(s[0], x) && LinkOk(w, s, 0)
    requires i > 1 ==> s[0] != s[i - 1]
    ensures LinkOk(w', [x] + s, i)
  {
    if i > 0 { assert s[i - 1] in s; }
    if s != [] { assert s[0] in s; }
  }

  /** The words after remove_seglist took out a block between `older` and `newer`. */
  function UnlinkWords(w: Words, t: int, older: int, newer: int): Words {
    if newer == 0 then
      if older != 0 then w[t := older][older + 4 := 0] else w[t := older]
    else
      if older != 0 then w[newer := older][older + 4 := newer] else w[newer := older]
  }

  /** Distinct blocks do not share link words. */
  ghost predicate Spaced(s: seq<int>, lo: int) {
    && (forall i {:trigger s[i]} :: 0 <= i < |s| ==> s[i] >= lo)
    && (forall i, j {:trigger s[i], s[j]} :: 0 <= i < j < |s| ==> s[i] + 16 <= s[j] || s[j] + 16 <= s[i])
  }

  lemma ListsSpaced(h: Heap, c: int)
    requires Bounded(h) && Disjoint(h) && Listed(h) && 0 <= c < SEG_SIZE
    ensures Spaced(h.lists[c], h.lo)
  {
    var s := h.lists[c];
    assert Distinct(s);
    forall i {:trigger s[i]} | 0 <= i < |s| ensures IsNode(h, c, s[i]) { assert s[i] in h.lists[c]; }
  }

  lemma UnlinkChain(w: Words, w': Words, s: seq<int>, lo: int, t: int, i: int, j: int)
    requires 0 <= i < |s| && 0 <= j < |s| - 1 && Spaced(s, lo) && 4 <= lo && t + 4 <= lo
    requires forall m {:trigger LinkOk(w, s, m)} :: 0 <= m < |s| ==> LinkOk(w, s, m)
    requires w' == UnlinkWords(w, t, Older(s, i), Newer(s, i))
    ensures LinkOk(w', s[..i] + s[i + 1..], j)
  {
    var s' := s[..i] + s[i + 1..];
    var m := if j < i then j else j + 1;
    assert LinkOk(w, s, m);
    assert s'[j] == s[m];
    assert Older(s', j) == if j + 1 == i then Older(s, i) else Older(s, m);
    assert Newer(s', j) == if j == i then Newer(s, i) else Newer(s, m);
  }

  lemma UnlinkListOk(w: Words, w': Words, h: Heap, x: int, c: int, i: nat)
    requires Bounded(h) && Disjoint(h) && Listed(h) && h.lo >= 120
    requires FreeBlock(h, x) && c == Class(h.blk[x].size) && x in h.lists[c] && i == IndexOf(h.lists[c], x)
    requires ListOk(w, h, c)
    requires w' == UnlinkWords(w, h.lo - TABLE + 4 * c, Older(h.lists[c], i), Newer(h.lists[c], i))
    ensures ListOk(w', Unlink(h, x), c)
  {
    var s := h.lists[c];
    var s' := s[..i] + s[i + 1..];
    ListsSpaced(h, c);
    assert Unlink(h, x).lists[c] == s';
    var t := h.lo - TABLE + 4 * c;
    forall j {:trigger LinkOk(w', s', j)} | 0 <= j < |s'| ensures LinkOk(w', s', j) {
      UnlinkChain(w, w', s, h.lo, t, i, j);
    }
    UnlinkHead(w, w', s, h.lo, t, i);
  }

  lemma UnlinkHead(w: Words, w': Words, s: seq<int>, lo: int, t: int, i: int)
    requires 0 <= i < |s| && Spaced(s, lo) && 0 < t && t + 8 <= lo
    requires t in w && w[t] == Head(s)
    requires w' == UnlinkWords(w, t, Older(s, i), Newer(s, i))
    ensures t in w' && w'[t] == Head(s[..i] + s[i + 1..])
  {
  }

  /** Every list edit that touches only links of free blocks x, y and the table entry of list c,
      and leaves list c right, leaves everything right. */
  lemma EditStored(w: Words, w': Words, h: Heap, h': Heap, x: int, y: int, c: int)
    requires Stored(w, h) && Bounded(h) && Disjoint(h) && Aligned(h) && Listed(h)
    requires 0 <= c < SEG_SIZE && IsNode(h, c, x) && IsNode(h, c, y)
    requires AgreeBut(w, w', EditSet(x, y, h.lo - TABLE + 4 * c))
    requires |h'.lists| == SEG_SIZE && h' == Heap(h.lo, h.hi, h.limit, h.blk, h.prev, h'.lists)
    requires forall k {:trigger h'.lists[k]} :: 0 <= k < SEG_SIZE && k != c ==> h'.lists[k] == h.lists[k]
    requires ListOk(w', h', c)
    ensures Stored(w', h') && Kept(w, w', Live(h))
  {
    var t := h.lo - TABLE + 4 * c;
    EditKeepsTags(w, w', h, x, y, t);
    EditKeepsFrame(w, w', h, x, y, t);
    EditKeepsPayloads(w, w', h, x, y, t);
    TaggedSame(w', h, h');
    forall k {:trigger ListOk(w', h', k)} | 0 <= k < SEG_SIZE ensures ListOk(w', h', k) {
      if k != c {
        assert ListOk(w, h, k);
        assert h'.lists[k] == h.lists[k];
        EditKeepsOtherLists(w, w', h, h', x, y, c, k);
      }
    }
  }

  lemma TaggedSame(w: Words, h: Heap, h': Heap)
    requires Tagged(w, h) && h'.blk == h.blk
    ensures Tagged(w, h')
  {
    forall b {:trigger TagOk(w, h', b)} | b in h'.blk ensures TagOk(w, h', b) { assert TagOk(w, h, b); }
  }

  lemma LinksMapped(w: Words, h: Heap, x: int)
    requires Mapped(w, h) && Bounded(h) && Aligned(h) && h.hi <= h.limit && x in h.blk
    ensures x in w && x + 4 in w
  {
    BlockAligned(h, x);
    Multiples(x, 0);
    InBounds(h, x);
    hide Bounded, Aligned;
    IsMapped(w, h, x);
    IsMapped(w, h, x + 4);
  }

  lemma InBounds(h: Heap, x: int)
    requires Bounded(h) && x in h.blk
    ensures h.lo <= x && x + 16 <= h.hi
  {
  }

  lemma PushStored(w: Words, w': Words, h: Heap, limbo: set<int>, x: int)
    requires Stored(w, h) && LooseInv(h, limbo) && FreeBlock(h, x) && x in limbo
    requires w' == PushWords(w, h.lo - TABLE + 4 * Class(h.blk[x].size), Head(h.lists[Class(h.blk[x].size)]), x)
    ensures Stored(w', Push(h, x)) && Kept(w, w', Live(h))
  {
    var c := Class(h.blk[x].size);
    var t := h.lo - TABLE + 4 * c;
    var curr := Head(h.lists[c]);
    var y := if curr == 0 then x else curr;
    LooseUnlisted(h, limbo, x);
    assert ListOk(w, h, c);
    LinksMapped(w, h, x);
    if curr != 0 {
      assert h.lists[c][0] in h.lists[c];
      assert IsNode(h, c, curr);
      LinksMapped(w, h, curr);
    }
    assert AgreeBut(w, w', EditSet(x, y, t));
    PushListOk(w, w', h, x, c);
    EditStored(w, w', h, Push(h, x), x, y, c);
  }

  /** The blocks whose links an unlinking edits: the neighbours of x, or x itself at an end of the list. */
  function Beside(neighbour: int, x: int): int { if neighbour == 0 then x else neighbour }

  lemma NeighbourNodes(w: Words, h: Heap, c: nat, x: int, i: nat)
    requires Mapped(w, h) && Listed(h) && Bounded(h) && Aligned(h) && h.hi <= h.limit && c < SEG_SIZE
    requires i < |h.lists[c]| && h.lists[c][i] == x
    ensures
      var y, z := Beside(Older(h.lists[c], i), x), Beside(Newer(h.lists[c], i), x);
      IsNode(h, c, y) && IsNode(h, c, z) && y in w && y + 4 in w && z in w && z + 4 in w
  {
    var s := h.lists[c];
    assert x in h.lists[c];
    if i + 1 < |s| { assert s[i + 1] in h.lists[c]; }
    if i > 0 { assert s[i - 1] in h.lists[c]; }
    LinksMapped(w, h, Beside(Older(s, i), x));
    LinksMapped(w, h, Beside(Newer(s, i), x));
  }

  lemma UnlinkShape(h: Heap, x: int)
    requires FreeBlock(h, x) && |h.lists| == SEG_SIZE
    ensures
      var h' := Unlink(h, x);
      && |h'.lists| == SEG_SIZE && h' == Heap(h.lo, h.hi, h.limit, h.blk, h.prev, h'.lists)
      && forall k {:trigger h'.lists[k]} :: 0 <= k < SEG_SIZE && k != Class(h.blk[x].size) ==> h'.lists[k] == h.lists[k]
  {
  }

  lemma UnlinkStored(w: Words, w': Words, h: Heap, limbo: set<int>, x: int)
    requires Stored(w, h) && LooseInv(h, limbo) && FreeBlock(h, x) && x !in limbo && Enlisted(h, x)
    requires
      var c := Class(h.blk[x].size);
      var i := IndexOf(h.lists[c], x);
      w' == UnlinkWords(w, h.lo - TABLE + 4 * c, Older(h.lists[c], i), Newer(h.lists[c], i))
    ensures Stored(w', Unlink(h, x)) && Kept(w, w', Live(h))
  {
    hide Stored, LooseInv, Class, IndexOf, Listed, Bounded, Disjoint, Aligned, Mapped, ListOk,
      UnlinkWords, Older, Newer, IsNode, Kept, Live;
    UnlinkParts(w, h, limbo, x);
    var c := Class(h.blk[x].size);
    var s := h.lists[c];
    var i := IndexOf(s, x);
    UnlinkListOk(w, w', h, x, c, i);
    UnlinkShape(h, x);
    hide Unlink;
    NeighbourNodes(w, h, c, x, i);
    TableMapped(w, h, c);
    UnlinkAgrees(w, h.lo - TABLE + 4 * c, Older(s, i), Newer(s, i), Beside(Older(s, i), x), Beside(Newer(s, i), x));
    EditStored(w, w', h, Unlink(h, x), Beside(Older(s, i), x), Beside(Newer(s, i), x), c);
  }

  lemma UnlinkParts(w: Words, h: Heap, limbo: set<int>, x: int)
    requires Stored(w, h) && LooseInv(h, limbo) && FreeBlock(h, x) && Enlisted(h, x)
    ensures Mapped(w, h) && Bounded(h) && Disjoint(h) && Aligned(h) && Listed(h) && |h.lists| == SEG_SIZE
    ensures 120 <= h.lo && h.hi <= h.limit && ListOk(w, h, Class(h.blk[x].size)) && x in h.lists[Class(h.blk[x].size)]
  {
    assert ListOk(w, h, Class(h.blk[x].size));
  }

  lemma TableMapped(w: Words, h: Heap, c: nat)
    requires c < |h.lists| && ListOk(w, h, c)
    ensures h.lo - TABLE + 4 * c in w
  {
  }

  lemma UnlinkAgrees(w: Words, t: int, older: int, newer: int, y: int, z: int)
    requires t in w && (older != 0 ==> y == older && older + 4 in w) && (newer != 0 ==> z == newer && newer in w)
    ensures AgreeBut(w, UnlinkWords(w, t, older, newer), EditSet(y, z, t))
  {
  }

  // ---------------------------------------------------------------- tags of whole edits

  /** Outside [x, y) heap h' has only blocks of h, and [x, y) cuts none of them. */
  ghost predicate SameOutside(h: Heap, h': Heap, x: int, y: int) {
    && h'.lo == h.lo && h'.limit == h.limit && h'.lists == h.lists
    && (forall b {:trigger h'.blk[b]} :: b in h'.blk && !(x <= b < y) ==>
          b in h.blk && h'.blk[b] == h.blk[b] && (b + h'.blk[b].size <= x || b >= y))
  }

  ghost predicate NoNodes(h: Heap, x: int, y: int) {
    && |h.lists| == SEG_SIZE
    && (forall k, a {:trigger a in h.lists[k]} :: 0 <= k < SEG_SIZE && a in h.lists[k] ==> a + 16 <= x || a >= y)
  }

  lemma RetagStored(w: Words, w': Words, h: Heap, h': Heap, x: int, y: int)
    requires Stored(w, h) && Bounded(h') && AgreeOutside(w, w', x - 4, y - 4)
    requires SameOutside(h, h', x, y) && NoNodes(h', x, y) && h'.hi == h.hi && h.lo <= x && y <= h.hi
    requires forall b {:trigger TagOk(w', h', b)} :: b in h'.blk && x <= b < y ==> TagOk(w', h', b)
    ensures Stored(w', h')
  {
    TagsRewritten(w, w', h, h', x, y);
    FrameKept(w, w', h, x, y);
    LinksSame(w, h, h');
    LinksKept(w, w', h', x, y);
  }

  lemma LinksSame(w: Words, h: Heap, h': Heap)
    requires Linked(w, h) && h'.lo == h.lo && h'.lists == h.lists
    ensures Linked(w, h')
  {
    forall k {:trigger ListOk(w, h', k)} | 0 <= k < SEG_SIZE ensures ListOk(w, h', k) { assert ListOk(w, h, k); }
  }

  lemma LooseNoNodes(h: Heap, limbo: set<int>, a: int)
    requires Bounded(h) && Disjoint(h) && Listed(h) && CompleteBut(h, limbo) && Loose(h, limbo, a)
    ensures NoNodes(h, a, a + h.blk[a].size)
  {
    LooseUnlisted(h, limbo, a);
    forall k, z {:trigger z in h.lists[k]} | 0 <= k < SEG_SIZE && z in h.lists[k]
      ensures z + 16 <= a || z >= a + h.blk[a].size {
      assert IsNode(h, k, z);
    }
  }

  lemma NoNodesJoin(h: Heap, x: int, m: int, y: int)
    requires NoNodes(h, x, m) && NoNodes(h, m, y) && x + 16 <= m
    ensures NoNodes(h, x, y)
  {
  }

  lemma NothingElseInside(h: Heap, a: int, b: int)
    requires Disjoint(h) && a in h.blk && b in h.blk && a <= b < a + h.blk[a].size
    ensures b == a
  {
  }

  lemma MergeOutside(h: Heap, a: int)
    requires Bounded(h) && Disjoint(h) && a in h.blk && a + h.blk[a].size in h.blk
    ensures SameOutside(h, Merge(h, a), a, a + Merge(h, a).blk[a].size)
  {
  }

  lemma SetAllocOutside(h: Heap, a: int, alloc: bool)
    requires Bounded(h) && Disjoint(h) && a in h.blk
    ensures SameOutside(h, SetAlloc(h, a, alloc), a, a + h.blk[a].size)
  {
  }

  lemma SameOutsideCompose(h: Heap, h1: Heap, h2: Heap, x: int, y: int, u: int, v: int)
    requires SameOutside(h, h1, x, y) && SameOutside(h1, h2, u, v) && u <= x && y <= v
    ensures SameOutside(h, h2, u, v)
  {
    forall b {:trigger h2.blk[b]} | b in h2.blk && !(u <= b < v) ensures b in h.blk && h2.blk[b] == h.blk[b] {
      assert h2.blk[b] == h1.blk[b];
    }
  }

  /** Rewriting words of [x, y) leaves the payloads outside [x, y) alone. */
  lemma KeptOutside(w: Words, w': Words, live: map<int, int>, x: int, y: int)
    requires AgreeOutside(w, w', x - 4, y - 4)
    requires forall a {:trigger live[a]} :: a in live ==> a + live[a] + 4 <= x || a >= y
    ensures Kept(w, w', live)
  {
  }

  /** The blocks in [x, y) are rewritten as one block a == x of h'. */
  lemma OneBlockStored(w: Words, w': Words, h: Heap, h': Heap, limbo: set<int>, a: int)
    requires Stored(w, h) && LooseInv(h', limbo) && Loose(h', limbo, a) && h'.hi == h.hi
    requires SameOutside(h, h', a, a + h'.blk[a].size)
    requires AgreeOutside(w, w', a - 4, a + h'.blk[a].size - 4) && TagOk(w', h', a)
    ensures Stored(w', h')
    ensures Kept(w, w', Live(h') - {a})
  {
    var y := a + h'.blk[a].size;
    LooseNoNodes(h', limbo, a);
    forall b {:trigger TagOk(w', h', b)} | b in h'.blk && a <= b < y ensures TagOk(w', h', b) {
      NothingElseInside(h', a, b);
    }
    RetagStored(w, w', h, h', a, y);
    LiveOutside(h', a);
    KeptOutside(w, w', Live(h') - {a}, a, y);
  }

  lemma LiveOutside(h: Heap, a: int)
    requires Disjoint(h) && a in h.blk
    ensures
      var live := Live(h) - {a};
      forall b {:trigger live[b]} :: b in live ==> b + live[b] + 4 <= a || b >= a + h.blk[a].size
  {
    var live := Live(h) - {a};
    forall b {:trigger live[b]} | b in live ensures b + live[b] + 4 <= a || b >= a + h.blk[a].size {
      assert h.blk[b].alloc;
    }
  }

  /** The blocks in [x, y) are rewritten as two blocks a == x and b of h'. */
  lemma TwoBlocksStored(w: Words, w': Words, h: Heap, h': Heap, limbo: set<int>, a: int, b: int)
    requires Stored(w, h) && LooseInv(h', limbo) && Loose(h', limbo, a) && Loose(h', limbo, b) && h'.hi == h.hi
    requires b == a + h'.blk[a].size && SameOutside(h, h', a, b + h'.blk[b].size)
    requires AgreeOutside(w, w', a - 4, b + h'.blk[b].size - 4) && TagOk(w', h', a) && TagOk(w', h', b)
    ensures Stored(w', h')
    ensures Kept(w, w', Live(h') - {a} - {b})
  {
    var y := b + h'.blk[b].size;
    LooseNoNodes(h', limbo, a);
    LooseNoNodes(h', limbo, b);
    NoNodesJoin(h', a, b, y);
    forall c {:trigger TagOk(w', h', c)} | c in h'.blk && a <= c < y ensures TagOk(w', h', c) {
      if c < b { NothingElseInside(h', a, c); } else { NothingElseInside(h', b, c); }
    }
    RetagStored(w, w', h, h', a, y);
    LiveOutside(h', a);
    LiveOutside(h', b);
    KeptOutside(w, w', Live(h') - {a} - {b}, a, y);
  }

  /** The words after extend_heap turned the old epilogue into the header of a free block. */
  function GrowWords(w: Words, hi: int, n: int): Words {
    w[hi - 4 := n][hi + n - 8 := n][hi + n - 4 := 1]
  }

  lemma GrowStored(w: Words, w': Words, h: Heap, n: int)
    requires Stored(w, h) && Tiled(h) && Listed(h) && n % 8 == 0 && n >= 16 && h.hi + n <= h.limit
    requires w' == GrowWords(w, h.hi, n)
    ensures Stored(w', Grow(h, n)) && Kept(w, w', Live(h))
  {
    hide Aligned, Bounded, Disjoint, Chained, Listed, Mapped, Framed, Tagged, Linked, Kept, GrowWords;
    GrowMapped(w, h, n);
    GrowFrame(w, w', h, n);
    GrowTags(w, w', h, n);
    GrowLinks(w, w', h, n);
    GrowKept(w, w', h, n);
  }

  lemma GrowMapped(w: Words, h: Heap, n: int)
    requires Mapped(w, h) && Aligned(h) && h.lo <= h.hi && n % 8 == 0 && n >= 16 && h.hi + n <= h.limit
    ensures h.hi - 4 in w && h.hi + n - 8 in w && h.hi + n - 4 in w
  {
    Multiples(h.hi, n);
    IsMapped(w, h, h.hi - 4);
    IsMapped(w, h, h.hi + n - 8);
    IsMapped(w, h, h.hi + n - 4);
  }

  lemma Multiples(a: int, n: int)
    requires a % 8 == 0 && n % 8 == 0
    ensures a % 4 == 0 && (a - 4) % 4 == 0 && (a + 4) % 4 == 0
    ensures (a + n) % 8 == 0 && (a + n - 8) % 4 == 0 && (a + n - 4) % 4 == 0
  {
    var i, j := a / 8, n / 8;
    assert a == 8 * i && n == 8 * j;
    Quotient(a, 4, 2 * i, 0);
    Quotient(a - 4, 4, 2 * i - 1, 0);
    Quotient(a + 4, 4, 2 * i + 1, 0);
    Quotient(a + n, 8, i + j, 0);
    Quotient(a + n - 8, 4, 2 * (i + j) - 2, 0);
    Quotient(a + n - 4, 4, 2 * (i + j) - 1, 0);
  }

  /** The multiples of 8 on both sides. */
  lemma NextEight(n: int)
    requires n % 8 == 0
    ensures (n + 8) % 8 == 0 && (n - 8) % 8 == 0
  {
  }

  lemma IsMapped(w: Words, h: Heap, p: int)
    requires Mapped(w, h) && h.lo - TABLE <= p < h.limit && p % 4 == 0
    ensures p in w
  {
  }

  lemma GrowFrame(w: Words, w': Words, h: Heap, n: int)
    requires Mapped(w, h) && Framed(w, h) && n >= 16 && h.lo <= h.hi && w' == GrowWords(w, h.hi, n)
    ensures Mapped(w', Grow(h, n)) && Framed(w', Grow(h, n))
  {
    assert w.Keys <= w'.Keys;
  }

  lemma GrowTags(w: Words, w': Words, h: Heap, n: int)
    requires Tagged(w, h) && Bounded(h) && n >= 16 && n % 8 == 0 && w' == GrowWords(w, h.hi, n)
    ensures Tagged(w', Grow(h, n))
  {
    var h' := Grow(h, n);
    forall b {:trigger TagOk(w', h', b)} | b in h'.blk ensures TagOk(w', h', b) {
      if b != h.hi { assert TagOk(w, h, b); }
    }
  }

  lemma GrowLinks(w: Words, w': Words, h: Heap, n: int)
    requires Linked(w, h) && Bounded(h) && Listed(h) && n >= 16 && w' == GrowWords(w, h.hi, n) && h.lo <= h.hi
    requires h.hi - 4 in w && h.hi + n - 8 in w && h.hi + n - 4 in w
    ensures Linked(w', Grow(h, n))
  {
    var h' := Grow(h, n);
    LinksSame(w, h, h');
    forall k, z {:trigger z in h.lists[k]} | 0 <= k < SEG_SIZE && z in h.lists[k] ensures z + 16 <= h.hi {
      assert IsNode(h, k, z);
    }
    LinksKept(w, w', h', h.hi, h.hi + n + 4);
  }

  lemma GrowKept(w: Words, w': Words, h: Heap, n: int)
    requires Bounded(h) && n >= 16 && w' == GrowWords(w, h.hi, n)
    ensures Kept(w, w', Live(h))
  {
    forall a, q {:trigger Live(h)[a], w'[q]} | a in Live(h) && a <= q < a + Live(h)[a] && q in w
      ensures q in w' && w'[q] == w[q] {
      assert h.blk[a].alloc;
    }
  }

  // ---------------------------------------------------------------- reading tags

  /** GET_SIZE and GET_ALLOC of a tag word. */
  function SizeOf(v: int): int { v / 8 * 8 }

  function AllocOf(v: int): int { v % 2 }

  function Bit(alloc: bool): int { if alloc then 1 else 0 }

  lemma Eighths(k: int, bit: int)
    requires 0 <= bit <= 1
    ensures (8 * k + bit) / 8 == k && (8 * k + bit) % 2 == bit
  {
    var n := 8 * k + bit;
    Quotient(n, 8, k, bit);
    Quotient(n, 2, 4 * k, bit);
  }

  lemma TagReads(n: int, alloc: bool)
    requires n % 8 == 0
    ensures SizeOf(Pack(n, alloc)) == n && AllocOf(Pack(n, alloc)) == Bit(alloc) && Pack(n, alloc) == n + Bit(alloc)
  {
    var k := n / 8;
    assert n == 8 * k;
    Eighths(k, Bit(alloc));
  }

  ghost predicate Reads(w: Words, p: int, n: int, alloc: bool) {
    p in w && SizeOf(w[p]) == n && AllocOf(w[p]) == Bit(alloc)
  }

  lemma ReadTags(w: Words, h: Heap, a: int)
    requires Tagged(w, h) && Aligned(h) && a in h.blk
    ensures
      var n := h.blk[a].size;
      n % 8 == 0 && Reads(w, a - 4, n, h.blk[a].alloc) && Reads(w, a + n - 8, n, h.blk[a].alloc)
  {
    assert TagOk(w, h, a);
    TagReads(h.blk[a].size, h.blk[a].alloc);
  }

  /** The header after block a is that of the next block or the epilogue. */
  lemma ReadNext(w: Words, h: Heap, a: int)
    requires Tagged(w, h) && Framed(w, h) && Aligned(h) && Chained(h) && a in h.blk
    ensures
      var e := a + h.blk[a].size;
      Reads(w, e - 4, SizeAt(h, e), !NextFree(h, a))
  {
    assert NextOk(h, a);
    var e := a + h.blk[a].size;
    if e in h.blk { ReadTags(w, h, e); }
  }

  /** The footer before block a leads to the header of the previous block or the prologue. */
  lemma ReadPrev(w: Words, h: Heap, a: int)
    requires Tagged(w, h) && Framed(w, h) && Aligned(h) && Chained(h) && Bounded(h) && a in h.blk
    ensures
      a - 8 in w && var p := a - SizeOf(w[a - 8]);
      && Reads(w, p - 4, a - p, !PrevFree(h, a))
      && (if a == h.lo then p == a - 8 else PrevOk(h, a) && p == h.prev[a])
  {
    if a != h.lo {
      assert PrevOk(h, a);
      ReadTags(w, h, h.prev[a]);
    }
  }

  /** Writing both tags of a block that replaces the blocks of its range. */
  lemma JoinStored(w: Words, w': Words, h: Heap, h': Heap, limbo: set<int>, a: int)
    requires Stored(w, h) && LooseInv(h', limbo) && Loose(h', limbo, a) && h'.hi == h.hi
    requires SameOutside(h, h', a, a + h'.blk[a].size)
    requires a - 4 in w && a + h'.blk[a].size - 8 in w
    requires w' == w[a - 4 := Tag(h'.blk[a])][a + h'.blk[a].size - 8 := Tag(h'.blk[a])]
    ensures Stored(w', h') && Kept(w, w', Live(h') - {a})
  {
    assert h'.blk[a].size >= 16;
    OneBlockStored(w, w', h, h', limbo, a);
  }

  function SetTags(w: Words, a: int, n: int, alloc: bool): Words {
    w[a - 4 := Pack(n, alloc)][a + n - 8 := Pack(n, alloc)]
  }

  lemma FooterFirst(w: Words, a: int, n: int, alloc: bool)
    ensures w[a + n - 8 := Pack(n, alloc)][a - 4 := Pack(n, alloc)] == SetTags(w, a, n, alloc)
  {
  }

  lemma TagsMapped(w: Words, h: Heap, a: int)
    requires Stored(w, h) && a in h.blk
    ensures a - 4 in w && a + h.blk[a].size - 8 in w
  {
    assert TagOk(w, h, a);
  }

  /** Block a takes in the block after it, which is on no list: the words are w, the heap g. */
  lemma MergeStored(w: Words, w': Words, g: Heap, limbo: set<int>, a: int)
    requires Stored(w, g) && LooseInv(g, limbo) && Loose(g, limbo, a) && Loose(g, limbo, a + g.blk[a].size)
    requires w' == SetTags(w, a, g.blk[a].size + g.blk[a + g.blk[a].size].size, g.blk[a].alloc)
    ensures Stored(w', Merge(g, a)) && LooseInv(Merge(g, a), limbo - {a + g.blk[a].size})
    ensures Kept(w, w', Live(g) - {a} - {a + g.blk[a].size})
  {
    hide Stored, LooseInv, Kept, SameOutside;
    var b := a + g.blk[a].size;
    MergeLoose(g, limbo, a);
    TagsMapped(w, g, a);
    TagsMapped(w, g, b);
    MergeOutsideLoose(g, limbo, a);
    JoinStored(w, w', g, Merge(g, a), limbo - {b}, a);
    assert Live(Merge(g, a)) - {a} == Live(g) - {a} - {b};
  }

  lemma MergeOutsideLoose(g: Heap, limbo: set<int>, a: int)
    requires LooseInv(g, limbo) && a in g.blk && a + g.blk[a].size in g.blk
    ensures SameOutside(g, Merge(g, a), a, a + Merge(g, a).blk[a].size)
    ensures g.blk[a].size >= 16 && g.blk[a + g.blk[a].size].size >= 16
  {
    MergeOutside(g, a);
  }

  ghost predicate Within(live: map<int, int>, wider: map<int, int>) {
    forall a {:trigger live[a]} :: a in live ==> a in wider && live[a] <= wider[a]
  }

  lemma LiveWithin(live: map<int, int>)
    ensures Within(live, live)
  {
  }

  lemma KeptTrans(w: Words, w1: Words, w2: Words, live0: map<int, int>, live1: map<int, int>, live: map<int, int>)
    requires Kept(w, w1, live0) && Kept(w1, w2, live1) && Within(live, live0) && Within(live, live1)
    ensures Kept(w, w2, live)
  {
    forall a, q {:trigger live[a], w2[q]} | a in live && a <= q < a + live[a] && q in w
      ensures q in w2 && w2[q] == w[q] {
      var v := w[q];
      assert live0[a] >= live[a] && live1[a] >= live[a];
      assert w1[q] == v;
    }
  }

  lemma KeptBoth(w: Words, w1: Words, w2: Words, live: map<int, int>)
    requires Kept(w, w1, live) && Kept(w1, w2, live)
    ensures Kept(w, w2, live)
  {
    KeptTrans(w, w1, w2, live, live, live);
  }

  ghost predicate SameExtent(h: Heap, h': Heap) {
    h'.lo == h.lo && h'.hi == h.hi && h'.limit == h.limit
  }

  /** remove_seglist on the next block, then both tags of the joined block: case 2. */
  lemma AbsorbNextStored(w: Words, w1: Words, w2: Words, h: Heap, limbo: set<int>, a: int)
    requires LooseInv(h, limbo) && Loose(h, limbo, a) && NextFree(h, a) && a + h.blk[a].size !in limbo
    requires Stored(w1, Unlink(h, a + h.blk[a].size)) && Kept(w, w1, Live(h))
    requires w2 == SetTags(w1, a, h.blk[a].size + h.blk[a + h.blk[a].size].size, h.blk[a].alloc)
    ensures Stored(w2, AbsorbNext(h, a)) && LooseInv(AbsorbNext(h, a), limbo) && Kept(w, w2, Live(h) - {a})
    ensures SameExtent(h, AbsorbNext(h, a)) && a in AbsorbNext(h, a).blk
    ensures AbsorbNext(h, a).blk[a] == Block(h.blk[a].size + h.blk[a + h.blk[a].size].size, h.blk[a].alloc)
  {
    hide Stored, LooseInv, Kept, Unlink;
    var b := a + h.blk[a].size;
    var g := Unlink(h, b);
    UnlinkLoose(h, limbo, b);
    UnlinkKeepsBlocks(h, b);
    MergeStored(w1, w2, g, limbo + {b}, a);
    AbsorbNextLoose(h, limbo, a);
    FreeNotLive(h, b);
    KeptTrans(w, w1, w2, Live(h), Live(h) - {a} - {b}, Live(h) - {a});
  }

  lemma UnlinkKeepsBlocks(h: Heap, x: int)
    ensures
      var g := Unlink(h, x);
      g.blk == h.blk && g.prev == h.prev && g.lo == h.lo && g.hi == h.hi && g.limit == h.limit && Live(g) == Live(h)
  {
  }

  lemma FreeNotLive(h: Heap, x: int)
    requires FreeBlock(h, x)
    ensures Live(h) - {x} == Live(h)
  {
  }

  /** remove_seglist on the previous block, then both tags of the joined block: case 3. */
  lemma AbsorbIntoPrevStored(w: Words, w1: Words, w2: Words, h: Heap, limbo: set<int>, a: int, p: int)
    requires LooseInv(h, limbo) && FreeBlock(h, a) && a in limbo && PrevFree(h, a) && p == h.prev[a] && p !in limbo
    requires Stored(w1, Unlink(h, p)) && Kept(w, w1, Live(h))
    requires w2 == SetTags(w1, p, h.blk[p].size + h.blk[a].size, false)
    ensures Stored(w2, AbsorbIntoPrev(h, a)) && LooseInv(AbsorbIntoPrev(h, a), limbo + {p} - {a})
    ensures Kept(w, w2, Live(h))
    ensures SameExtent(h, AbsorbIntoPrev(h, a)) && p in AbsorbIntoPrev(h, a).blk
    ensures AbsorbIntoPrev(h, a).blk[p] == Block(h.blk[p].size + h.blk[a].size, false)
  {
    hide Stored, LooseInv, Kept, Unlink;
    var g := Unlink(h, p);
    PrevIs(h, limbo, a);
    UnlinkLoose(h, limbo, p);
    UnlinkKeepsBlocks(h, p);
    MergeStored(w1, w2, g, limbo + {p}, p);
    AbsorbIntoPrevLoose(h, limbo, a);
    FreeNotLive(h, a);
    FreeNotLive(h, p);
    KeptTrans(w, w1, w2, Live(h), Live(h) - {p} - {a}, Live(h));
  }

  lemma PrevIs(h: Heap, limbo: set<int>, a: int)
    requires LooseInv(h, limbo) && a in h.blk && PrevFree(h, a)
    ensures PrevOk(h, a) && h.prev[a] < a
  {
    assert PrevOk(h, a);
  }

  /** Both neighbours removed, then the outer header and footer: case 4. */
  lemma FuseStored(w: Words, w1: Words, w2: Words, h: Heap, a: int, p: int, b: int)
    requires LooseInv(h, {a}) && FreeBlock(h, a) && PrevFree(h, a) && p == h.prev[a] && NextFree(h, a)
    requires b == a + h.blk[a].size && Stored(w1, Unlink(Unlink(h, p), b)) && Kept(w, w1, Live(h))
    requires w2 == SetTags(w1, p, h.blk[p].size + h.blk[a].size + h.blk[b].size, false)
    ensures Stored(w2, Fuse(h, a)) && LooseInv(Fuse(h, a), {p}) && Kept(w, w2, Live(h))
    ensures SameExtent(h, Fuse(h, a)) && p in Fuse(h, a).blk
    ensures Fuse(h, a).blk[p] == Block(h.blk[p].size + h.blk[a].size + h.blk[b].size, false)
  {
    hide Stored, LooseInv, Kept, SameOutside, Fuse, Live;
    var g := Unlink(Unlink(h, p), b);
    PrevIs(h, {a}, a);
    FuseIs(h, a, p, b);
    FuseLoose(h, a);
    UnlinkKeepsBlocks(h, p);
    UnlinkKeepsBlocks(Unlink(h, p), b);
    FuseOutside(h, g, a, p, b);
    TagsMapped(w1, g, p);
    TagsMapped(w1, g, b);
    JoinStored(w1, w2, g, Fuse(h, a), {p}, p);
    FuseLive(h, a);
    FreeNotLive(Fuse(h, a), p);
    KeptTrans(w, w1, w2, Live(h), Live(Fuse(h, a)), Live(h));
  }

  lemma FuseSteps(h: Heap, a: int, p: int, b: int)
    requires LooseInv(h, {a}) && FreeBlock(h, a) && PrevFree(h, a) && p == h.prev[a] && NextFree(h, a)
    requires b == a + h.blk[a].size
    ensures Fuse(h, a) == Merge(Merge(Unlink(Unlink(h, p), b), a), p)
  {
    hide LooseInv;
    FusePremises(h, a, p, b);
    UnlinkCommutes(h, p, b);
    TiledLocal(h, a);
    AbsorbNextLocal(h, a);
    UnlinkAfterMerge(Unlink(h, b), a, p);
  }

  lemma UnlinkTwiceKeeps(h: Heap, p: int, b: int)
    ensures Unlink(Unlink(h, p), b).blk == h.blk && SameExtent(h, Unlink(Unlink(h, p), b))
  {
  }

  lemma MergeTwice(g: Heap, a: int, p: int, b: int)
    requires p in g.blk && a in g.blk && b in g.blk && p < a < b
    requires p + g.blk[p].size == a && a + g.blk[a].size == b && !g.blk[p].alloc
    ensures Merge(Merge(g, a), p).blk ==
      (g.blk - {b, a})[p := Block(g.blk[p].size + g.blk[a].size + g.blk[b].size, false)]
    ensures SameExtent(g, Merge(Merge(g, a), p))
  {
    DropUpdated(g.blk, a, b, Block(g.blk[a].size + g.blk[b].size, g.blk[a].alloc));
  }

  lemma FuseIs(h: Heap, a: int, p: int, b: int)
    requires LooseInv(h, {a}) && FreeBlock(h, a) && PrevFree(h, a) && p == h.prev[a] && NextFree(h, a)
    requires b == a + h.blk[a].size
    ensures Fuse(h, a) == Merge(Merge(Unlink(Unlink(h, p), b), a), p)
    ensures Fuse(h, a).blk == (h.blk - {b, a})[p := Block(h.blk[p].size + h.blk[a].size + h.blk[b].size, false)]
    ensures SameExtent(h, Fuse(h, a))
  {
    hide LooseInv, Fuse, Merge, Unlink, Listed, Bounded, Chained, FreeListed;
    FuseSteps(h, a, p, b);
    FusePremises(h, a, p, b);
    UnlinkTwiceKeeps(h, p, b);
    MergeTwice(Unlink(Unlink(h, p), b), a, p, b);
  }

  lemma FusePremises(h: Heap, a: int, p: int, b: int)
    requires LooseInv(h, {a}) && FreeBlock(h, a) && PrevFree(h, a) && p == h.prev[a] && NextFree(h, a)
    requires b == a + h.blk[a].size
    ensures Listed(h) && Bounded(h) && Chained(h) && p < a < b && p + h.blk[p].size == a
    ensures FreeListed(h, p) && FreeListed(h, b)
  {
    assert PrevOk(h, a);
    assert Enlisted(h, p) && Enlisted(h, b);
  }

  lemma DropUpdated<K, V>(m: map<K, V>, a: K, b: K, v: V)
    requires a != b
    ensures (m - {b})[a := v] - {a} == m - {b, a}
  {
  }

  lemma FuseOutside(h: Heap, g: Heap, a: int, p: int, b: int)
    requires LooseInv(h, {a}) && FreeBlock(h, a) && PrevFree(h, a) && p == h.prev[a] && NextFree(h, a)
    requires b == a + h.blk[a].size && g == Unlink(Unlink(h, p), b)
    ensures SameOutside(g, Fuse(h, a), p, b + h.blk[b].size)
  {
    hide LooseInv, SameOutside, Fuse, Merge;
    FuseIs(h, a, p, b);
    FusePremises(h, a, p, b);
    FuseOutsideSteps(h, g, {a}, a, p, b);
  }

  lemma FuseOutsideSteps(h: Heap, g: Heap, limbo: set<int>, a: int, p: int, b: int)
    requires LooseInv(h, limbo) && p in h.blk && a in h.blk && b in h.blk && g.blk == h.blk && g.lo == h.lo
    requires g.hi == h.hi
    requires a == p + h.blk[p].size && b == a + h.blk[a].size
    ensures SameOutside(g, Merge(Merge(g, a), p), p, b + h.blk[b].size)
  {
    var g1 := Merge(g, a);
    assert Bounded(g) && Disjoint(g);
    hide LooseInv, SameOutside;
    MergeOutside(g, a);
    MergeDisjoint(g, a);
    MergedSize(g, a, p);
    hide Bounded, Disjoint, Merge;
    MergeOutside(g1, p);
    SameOutsideCompose(g, g1, Merge(g1, p), a, b + h.blk[b].size, p, b + h.blk[b].size);
  }

  lemma MergedSize(g: Heap, a: int, p: int)
    requires p in g.blk && a in g.blk && a + g.blk[a].size in g.blk && p + g.blk[p].size == a
    requires g.blk[p].size > 0 && g.blk[a].size > 0
    ensures
      var g1, b := Merge(g, a), a + g.blk[a].size;
      && p in g1.blk && a in g1.blk && g1.blk[p].size == g.blk[p].size &&
        g1.blk[a].size == g.blk[a].size + g.blk[b].size
      && p in Merge(g1, p).blk && Merge(g1, p).blk[p].size == g.blk[p].size + g.blk[a].size + g.blk[b].size
  {
  }

  // ---------------------------------------------------------------- place

  lemma SplitStored(w: Words, w': Words, g: Heap, h': Heap, limbo: set<int>, a: int, n: int, m: int)
    requires Stored(w, g) && LooseInv(h', limbo) && SameExtent(g, h') && SameOutside(g, h', a, a + n + m)
    requires Loose(h', limbo, a) && Loose(h', limbo, a + n) && h'.blk[a].size == n && h'.blk[a + n].size == m
    requires a - 4 in w && a + n - 8 in w && a + n - 4 in w && a + n + m - 8 in w
    requires w' == SetTags(SetTags(w, a, n, h'.blk[a].alloc), a + n, m, h'.blk[a + n].alloc)
    ensures Stored(w', h') && Kept(w, w', Live(h') - {a} - {a + n})
  {
    assert h'.blk[a].size >= 16 && h'.blk[a + n].size >= 16;
    TwoBlocksStored(w, w', g, h', limbo, a, a + n);
  }

  /** All four words exist when a block is cut. */
  lemma CutMapped(w: Words, g: Heap, limbo: set<int>, a: int, n: int)
    requires Stored(w, g) && LooseInv(g, limbo) && a in g.blk && n % 8 == 0 && 16 <= n <= g.blk[a].size - 16
    ensures a - 4 in w && a + n - 8 in w && a + n - 4 in w && a + g.blk[a].size - 8 in w
  {
    TagsMapped(w, g, a);
    BlockAligned(g, a);
    Multiples(a, n);
    IsMapped(w, g, a + n - 8);
    IsMapped(w, g, a + n - 4);
  }

  lemma BlockAligned(g: Heap, a: int)
    requires Aligned(g) && a in g.blk
    ensures a % 8 == 0 && g.blk[a].size % 8 == 0
  {
  }

  lemma SetAllocStored(w: Words, w': Words, g: Heap, limbo: set<int>, a: int, alloc: bool)
    requires Stored(w, g) && LooseInv(g, limbo) && Loose(g, limbo, a)
    requires w' == SetTags(w, a, g.blk[a].size, alloc)
    ensures Stored(w', SetAlloc(g, a, alloc)) && Kept(w, w', Live(g) - {a}) && SameExtent(g, SetAlloc(g, a, alloc))
    ensures a in SetAlloc(g, a, alloc).blk && SetAlloc(g, a, alloc).blk[a] == Block(g.blk[a].size, alloc)
    ensures LooseInv(SetAlloc(g, a, alloc), if alloc then limbo - {a} else limbo + {a})
  {
    hide Stored, LooseInv, Kept, SameOutside;
    var limbo' := if alloc then limbo - {a} else limbo + {a};
    SetAllocLoose(g, limbo, a, alloc);
    TagsMapped(w, g, a);
    SetAllocOutsideLoose(g, limbo, a, alloc);
    JoinStored(w, w', g, SetAlloc(g, a, alloc), limbo', a);
    assert Live(SetAlloc(g, a, alloc)) - {a} == Live(g) - {a};
  }

  lemma SetAllocOutsideLoose(g: Heap, limbo: set<int>, a: int, alloc: bool)
    requires LooseInv(g, limbo) && a in g.blk
    ensures SameOutside(g, SetAlloc(g, a, alloc), a, a + g.blk[a].size)
  {
    SetAllocOutside(g, a, alloc);
  }

  lemma CutStored(w: Words, w': Words, g: Heap, a: int, n: int, front: bool)
    requires Stored(w, g) && LooseInv(g, {a}) && FreeBlock(g, a) && n % 8 == 0 && 16 <= n <= g.blk[a].size - 16
    requires w' == SetTags(SetTags(w, a, n, front), a + n, g.blk[a].size - n, !front)
    ensures front ==>
      var h' := CutFront(g, a, n);
      && Stored(w', h') && LooseInv(h', {a + n}) && SameExtent(g, h')
      && FreeBlock(h', a + n) && h'.blk[a + n].size == g.blk[a].size - n
    ensures !front ==>
      var h' := CutBack(g, a, n);
      Stored(w', h') && LooseInv(h', {a}) && SameExtent(g, h') && FreeBlock(h', a) && h'.blk[a].size == n
    ensures Kept(w, w', Live(g)) && Within(Live(g), Live(if front then CutFront(g, a, n) else CutBack(g, a, n)))
  {
    hide Stored, LooseInv, Kept, SameOutside;
    CutLoose(g, a, n);
    CutMapped(w, g, {a}, a, n);
    var h' := if front then CutFront(g, a, n) else CutBack(g, a, n);
    CutOutside(g, a, n, h');
    SplitStored(w, w', g, h', if front then {a + n} else {a}, a, n, g.blk[a].size - n);
    CutLive(g, a, n);
    KeptTrans(w, w, w', Live(g), Live(h') - {a} - {a + n}, Live(g)) by { KeptSame(w, Live(g)); }
  }

  lemma KeptSame(w: Words, live: map<int, int>)
    ensures Kept(w, w, live)
  {
  }

  lemma CutOutside(g: Heap, a: int, n: int, h': Heap)
    requires LooseInv(g, {a}) && FreeBlock(g, a) && 16 <= n <= g.blk[a].size - 16
    requires h' == CutFront(g, a, n) || h' == CutBack(g, a, n)
    ensures SameOutside(g, h', a, a + g.blk[a].size)
  {
  }

  lemma CutLive(g: Heap, a: int, n: int)
    requires FreeBlock(g, a) && a + n !in g.blk && n != 0
    ensures Live(CutFront(g, a, n)) - {a} - {a + n} == Live(g)
    ensures Live(CutBack(g, a, n)) - {a} - {a + n} == Live(g)
    ensures Within(Live(g), Live(CutFront(g, a, n))) && Within(Live(g), Live(CutBack(g, a, n)))
  {
  }
}
