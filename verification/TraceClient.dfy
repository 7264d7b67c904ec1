/** What mdriver.c, as a client of the allocator, records about its payloads, and why no correct
    step of the allocator can upset it. */
module TraceClient {
  import opened Memlib
  import opened SegHeap
  import opened SegMalloc
  import opened SegWords
  import opened ReallocWords
  import opened RangeList

  // ---------------------------------------------------------------- bytes of payloads

  /** The n bytes at p all have value v. */
  ghost predicate BytesAre(w: Words, p: int, n: int, v: int) {
    forall x {:trigger ByteAt(w, x)} :: p <= x < p + n ==> ByteAt(w, x) == v
  }

  ghost predicate PayloadMapped(w: Words, p: int, n: int) {
    p % 4 == 0 && forall q {:trigger q in w} :: p <= q < p + n && q % 4 == 0 ==> q in w
  }

  lemma WordOfByte(x: int, p: int)
    requires p % 4 == 0 && p <= x
    ensures (x - x % 4) % 4 == 0 && p <= x - x % 4 <= x
  {
  }

  lemma KeptBytes(w: Words, w': Words, live: map<int, int>, p: int, n: int, v: int)
    requires Kept(w, w', live) && p in live && n <= live[p] && PayloadMapped(w, p, live[p]) && BytesAre(w, p, n, v)
    ensures BytesAre(w', p, n, v)
  {
    forall x {:trigger ByteAt(w', x)} | p <= x < p + n ensures ByteAt(w', x) == v {
      WordOfByte(x, p);
      var q := x - x % 4;
      assert q in w;
      assert ByteAt(w, x) == v;
      assert w'[q] == w[q] && live[p] >= n;
    }
  }

  lemma CopiedByte(w: Words, w': Words, p: int, q: int, n: int, j: int)
    requires Copied(w, w', p, q, n) && PayloadMapped(w, p, n) && q % 4 == 0 && 0 <= j < n
    ensures ByteAt(w', q + j) == ByteAt(w, p + j)
  {
    WordOfByte(p + j, p);
    SameOffset(p, q, j);
    var d := p + j - (p + j) % 4;
    assert d in w;
    assert w'[q + (d - p)] == w[d];
  }

  lemma SameOffset(p: int, q: int, j: int)
    requires p % 4 == 0 && q % 4 == 0
    ensures (q + j) % 4 == (p + j) % 4
  {
  }

  lemma CopiedBytes(w: Words, w': Words, p: int, q: int, n: int, v: int)
    requires Copied(w, w', p, q, n) && PayloadMapped(w, p, n) && q % 4 == 0 && BytesAre(w, p, n, v)
    ensures BytesAre(w', q, n, v)
  {
    forall x {:trigger ByteAt(w', x)} | q <= x < q + n ensures ByteAt(w', x) == v {
      CopiedByte(w, w', p, q, n, x - q);
      assert ByteAt(w, p + (x - q)) == v;
    }
  }

  /** Every live payload is mapped and aligned. */
  lemma LiveMapped(w: Words, h: Heap, p: int)
    requires Stored(w, h) && Inv(h) && p in Live(h)
    ensures PayloadMapped(w, p, Live(h)[p]) && p % 8 == 0 && Live(h)[p] % 8 == 0
    ensures h.lo <= p && p + Live(h)[p] + 8 <= h.hi <= h.limit
  {
    LiveBounds(h, p);
    hide Inv, Stored, Live;
    StoredMapped(w, h);
    forall q {:trigger q in w} | p <= q < p + Live(h)[p] && q % 4 == 0 ensures q in w { IsMapped(w, h, q); }
  }

  lemma StoredMapped(w: Words, h: Heap)
    requires Stored(w, h)
    ensures Mapped(w, h)
  {
  }

  lemma BlockBounds(h: Heap, p: int)
    requires Inv(h) && p in h.blk
    ensures 120 <= h.lo <= p && p + h.blk[p].size <= h.hi <= h.limit
  {
  }

  lemma LiveBounds(h: Heap, p: int)
    requires Inv(h) && p in Live(h)
    ensures p % 8 == 0 && p % 4 == 0 && Live(h)[p] % 8 == 0
    ensures 120 <= h.lo <= p && p + Live(h)[p] + 8 <= h.hi <= h.limit
  {
    BlockAligned(h, p);
    LiveIsBlock(h, p);
    BlockBounds(h, p);
    hide Inv, Live;
    NextEight(h.blk[p].size);
    Multiples(p, 0);
  }

  // ---------------------------------------------------------------- the client's records

  /** For each payload: how many bytes were requested and the byte it was filled with. */
  datatype Client = Client(req: map<int, int>, fill: map<int, int>)

  ghost predicate Matches(c: Client, live: map<int, int>) {
    && c.req.Keys == live.Keys && c.fill.Keys == live.Keys
    && (forall a {:trigger c.req[a]} :: a in c.req ==> 0 < c.req[a] <= live[a])
  }

  ghost predicate Filled(w: Words, c: Client) {
    forall a {:trigger c.fill[a]} :: a in c.fill && a in c.req ==> BytesAre(w, a, c.req[a], c.fill[a])
  }

  ghost predicate Recorded(ranges: seq<Range>, req: map<int, int>) {
    && DistinctStarts(ranges)
    && (forall r {:trigger r in ranges} :: r in ranges ==> r.lo in req && r.hi == r.lo + req[r.lo] - 1)
    && (forall a {:trigger req[a]} :: a in req ==> Range(a, a + req[a] - 1) in ranges)
  }

  /** A fresh payload of a valid heap passes every check of add_range. */
  lemma FreshIsAcceptable(h: Heap, r: int, size: int, ranges: seq<Range>, req: map<int, int>, start: int)
    requires Inv(h) && r in Live(h) && 0 < size <= Live(h)[r] && r !in req && start <= h.lo
    requires forall a {:trigger req[a]} :: a in req ==> a in Live(h) && 0 < req[a] <= Live(h)[a]
    requires forall x {:trigger x in ranges} :: x in ranges ==> x.lo in req && x.hi == x.lo + req[x.lo] - 1
    ensures Acceptable(ranges, r, size, start, h.hi - 1)
  {
    BlockAligned(h, r);
    forall x | x in ranges ensures !Clashes(x, r, r + size - 1) {
      assert req[x.lo] <= Live(h)[x.lo];
      assert h.blk[x.lo].size >= 16 && h.blk[r].size >= 16;
    }
  }

  lemma RecordNew(ranges: seq<Range>, req: map<int, int>, a: int, n: int)
    requires Recorded(ranges, req) && a !in req
    ensures Recorded([Range(a, a + n - 1)] + ranges, req[a := n])
  {
    var ranges', req' := [Range(a, a + n - 1)] + ranges, req[a := n];
    assert forall r :: r in ranges' <==> r == Range(a, a + n - 1) || r in ranges;
    forall i, j | 0 <= i < j < |ranges'| ensures ranges'[i].lo != ranges'[j].lo {
      assert ranges'[j] == ranges[j - 1];
      assert ranges[j - 1] in ranges;
    }
  }

  lemma RecordDropped(ranges: seq<Range>, req: map<int, int>, a: int)
    requires Recorded(ranges, req)
    ensures Recorded(Dropped(ranges, a), req - {a})
  {
    DroppedMembers(ranges, a);
    hide Dropped, DistinctStarts;
    var req' := req - {a};
    forall b {:trigger req'[b]} | b in req' ensures Range(b, b + req'[b] - 1) in Dropped(ranges, a) {
      assert Range(b, b + req[b] - 1) in ranges;
    }
  }

  lemma FilledKept(w: Words, w': Words, c: Client, c': Client, live: map<int, int>, h: Heap)
    requires Filled(w, c) && Kept(w, w', live) && Stored(w, h) && Inv(h) && Within(live, Live(h))
    requires forall a {:trigger c'.req[a]} ::
      a in c'.req ==> a in live && a in c.req && c'.req[a] == c.req[a] <= live[a]
    requires forall a {:trigger c'.fill[a]} :: a in c'.fill ==> a in c.fill && c'.fill[a] == c.fill[a]
    ensures Filled(w', c')
  {
    forall a {:trigger c'.fill[a]} | a in c'.fill && a in c'.req ensures BytesAre(w', a, c'.req[a], c'.fill[a]) {
      assert c'.req[a] == c.req[a] && c.fill[a] == c'.fill[a];
      LiveMapped(w, h, a);
      assert live[a] <= Live(h)[a];
      KeptBytes(w, w', live, a, c.req[a], c.fill[a]);
    }
  }

  // ---------------------------------------------------------------- one request

  /** malloc returned r, and memset filled it. */
  lemma AllocRecorded(w: Words, w1: Words, w2: Words, h: Heap, h': Heap, c: Client, r: int, size: int, v: int)
    requires Inv(h) && Inv(h') && Stored(w, h) && Stored(w1, h') && Matches(c, Live(h)) && Filled(w, c)
    requires r !in Live(h) && r in Live(h') && Live(h') == Live(h)[r := Live(h')[r]] && 0 < size <= Live(h')[r]
    requires Kept(w, w1, Live(h)) && Kept(w1, w2, Live(h') - {r}) && BytesAre(w2, r, size, v)
    ensures
      var c' := Client(c.req[r := size], c.fill[r := v]);
      Matches(c', Live(h')) && Filled(w2, c')
  {
    hide Inv, Stored, Kept, Live, BytesAre;
    var c' := Client(c.req[r := size], c.fill[r := v]);
    LiveWithin(Live(h));
    FilledKept(w, w1, c, c, Live(h), h);
    assert Within(Live(h') - {r}, Live(h'));
    assert Live(h') - {r} == Live(h);
    FilledKept(w1, w2, c, c, Live(h') - {r}, h');
    forall a {:trigger c'.fill[a]} | a in c'.fill && a in c'.req ensures BytesAre(w2, a, c'.req[a], c'.fill[a]) {
      if a != r { assert c.fill[a] == c'.fill[a]; }
    }
  }

  /** free gave up p. */
  lemma FreeRecorded(w: Words, w1: Words, h: Heap, h': Heap, c: Client, p: int)
    requires Inv(h) && Stored(w, h) && Matches(c, Live(h)) && Filled(w, c) && p in Live(h)
    requires Live(h') == Live(h) - {p} && Kept(w, w1, Live(h) - {p})
    ensures
      var c' := Client(c.req - {p}, c.fill - {p});
      Matches(c', Live(h')) && Filled(w1, c')
  {
    hide Inv, Stored, Kept, Live, BytesAre;
    var c' := Client(c.req - {p}, c.fill - {p});
    assert Within(Live(h) - {p}, Live(h));
    FilledKept(w, w1, c, c', Live(h) - {p}, h);
  }

  /** realloc moved p to r; then memset filled r. */
  lemma ReallocRecorded(w: Words, w1: Words, w2: Words, h: Heap, h': Heap, c: Client, p: int, r: int, size: int, v: int)
    requires Inv(h) && Inv(h') && Stored(w, h) && Stored(w1, h') && Matches(c, Live(h)) && Filled(w, c) && p in Live(h)
    requires (r == p || r !in Live(h)) && r in Live(h') && Live(h') == (Live(h) - {p})[r := Live(h')[r]]
    requires 0 < size <= Live(h')[r]
    requires Kept(w, w1, Live(h) - {p}) && Kept(w1, w2, Live(h') - {r}) && BytesAre(w2, r, size, v)
    ensures
      var c' := Client((c.req - {p})[r := size], (c.fill - {p})[r := v]);
      Matches(c', Live(h')) && Filled(w2, c')
  {
    hide Inv, Stored, Kept, Live, BytesAre;
    var c0 := Client(c.req - {p}, c.fill - {p});
    var c' := Client((c.req - {p})[r := size], (c.fill - {p})[r := v]);
    assert Within(Live(h) - {p}, Live(h)) && Within(Live(h') - {r}, Live(h'));
    FilledKept(w, w1, c, c0, Live(h) - {p}, h);
    assert Live(h') - {r} == Live(h) - {p};
    FilledKept(w1, w2, c0, c0, Live(h') - {r}, h');
    forall a {:trigger c'.fill[a]} | a in c'.fill && a in c'.req ensures BytesAre(w2, a, c'.req[a], c'.fill[a]) {
      if a != r { assert c0.fill[a] == c'.fill[a]; }
    }
  }

  /** The first n bytes of p are found again at r. */
  lemma MovedBytes(w: Words, w1: Words, h: Heap, h': Heap, p: int, r: int, m: int, n: int, v: int)
    requires Inv(h) && Stored(w, h) && p in Live(h) && Inv(h') && Stored(w1, h') && r in Live(h')
    requires Copied(w, w1, p, r, m) && n <= m <= Live(h)[p] && BytesAre(w, p, n, v)
    ensures BytesAre(w1, r, n, v)
  {
    LiveMapped(w, h, p);
    LiveMapped(w1, h', r);
    forall d {:trigger w[d]} | d in w && p <= d < p + n ensures r + (d - p) in w1 && w1[r + (d - p)] == w[d] { }
    CopiedBytes(w, w1, p, r, n, v);
  }
}
