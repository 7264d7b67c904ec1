/** eval_mm_valid and eval_mm_util of mdriver.c: the trace interpreter that judges the allocator. */
module Mdriver {
  import opened Basics
  import opened Memlib
  import opened SegHeap
  import opened SegOps
  import opened SegMalloc
  import opened SegWords
  import opened ReallocWords
  import opened Mm
  import opened RangeList
  import opened TraceClient
  import opened Packing

  datatype Op = Alloc(index: int, size: int) | Realloc(index: int, size: int) | Free(index: int)

  /** The heap and the payload of each live id. */
  datatype DState = DState(h: Heap, at: map<int, int>)

  /** One request; None when the allocator returns NULL. */
  function Step(d: DState, op: Op): Option<DState> {
    match op
    case Alloc(i, n) =>
      var (h', p) := SegMalloc.Malloc(d.h, n);
      if p == 0 then None else Some(DState(h', d.at[i := p]))
    case Realloc(i, n) =>
      if i !in d.at then None else
      var (h', p) := SegMalloc.Realloc(d.h, d.at[i], n);
      if p == 0 then None else Some(DState(h', d.at[i := p]))
    case Free(i) =>
      if i !in d.at then None else Some(DState(SegMalloc.Free(d.h, d.at[i]), d.at - {i}))
  }

  /** All requests of a trace in order. */
  function Run(d: DState, ops: seq<Op>): Option<DState>
    decreases |ops|
  {
    if ops == [] then Some(d)
    else
      var r := Step(d, ops[0]);
      if r.None? then None else Run(r.value, ops[1..])
  }

  /** Ids in range, positive sizes, allocation of dead ids only, reallocation and free of live ids only. */
  predicate WellFormedOp(op: Op, live: set<int>, numIds: int) {
    && 0 <= op.index < numIds
    && (op.Alloc? ==> op.index !in live && 0 < op.size < 0x8000_0000)
    && (op.Realloc? ==> op.index in live && 0 < op.size < 0x8000_0000)
    && (op.Free? ==> op.index in live)
  }

  function LiveAfter(op: Op, live: set<int>): set<int> {
    if op.Free? then live - {op.index} else live + {op.index}
  }

  predicate WellFormed(ops: seq<Op>, live: set<int>, numIds: int)
    decreases |ops|
  {
    ops == [] || (WellFormedOp(ops[0], live, numIds) && WellFormed(ops[1..], LiveAfter(ops[0], live), numIds))
  }

  /** The data check compares a plain char with a value up to 255, so it fails for ids whose low
      byte is 128 or more. */
  predicate CharSafe(op: Op) {
    op.Realloc? ==> op.index % 256 < 128
  }

  class Driver {
    const alloc: Allocator
    const ranges: Ranges
    const blocks: array<int>
    const blockSizes: array<int>
    ghost var at: map<int, int>
    ghost var c: Client

    constructor (a: Allocator, r: Ranges, b: array<int>, s: array<int>)
      ensures alloc == a && ranges == r && blocks == b && blockSizes == s
    {
      alloc, ranges, blocks, blockSizes := a, r, b, s;
      at, c := map[], Client(map[], map[]);
    }

    ghost predicate Apart()
      reads this, alloc
    {
      && blocks != blockSizes && blocks.Length == blockSizes.Length
      && blocks as object != alloc.mem.cells && blockSizes as object != alloc.mem.cells
    }

    /** The arrays and the client's records agree on every live id. */
    ghost predicate Tracks()
      reads this, blocks, blockSizes
      requires blocks.Length == blockSizes.Length
    {
      && (forall i {:trigger at[i]} :: i in at ==>
            && 0 <= i < blocks.Length && blocks[i] == at[i] && at[i] in c.req && at[i] in c.fill
            && blockSizes[i] == c.req[at[i]] && c.fill[at[i]] == i % 256)
      && (forall i, j {:trigger at[i], at[j]} :: i in at && j in at && i != j ==> at[i] != at[j])
    }

    ghost predicate Valid()
      reads this, alloc, alloc.mem, alloc.mem.cells, ranges, ranges.nodes, blocks, blockSizes
    {
      && alloc.Valid() && ranges.Valid() && Apart() && Tracks()
      && Matches(c, Live(alloc.h)) && Filled(alloc.mem.words, c) && Recorded(ranges.contents, c.req)
    }

    ghost function State(): DState
      reads this, alloc
    {
      DState(alloc.h, at)
    }

    /** memset over a payload */
    method Memset(p: int, v: int, n: int)
      requires alloc.Valid() && p in Live(alloc.h) && 0 <= n <= Live(alloc.h)[p] && 0 <= v < 256
      modifies alloc.mem`words, alloc.mem.cells
      ensures alloc.Valid()
      ensures BytesAre(alloc.mem.words, p, n, v)
      ensures Kept(old(alloc.mem.words), alloc.mem.words, Live(alloc.h) - {p})
    {
      hide Memory.Valid, Stored, Inv, Live, Kept, SetByte, ByteAt, PayloadMapped;
      ghost var w0 := alloc.mem.words;
      ghost var cap := Live(alloc.h)[p];
      LiveMapped(w0, alloc.h, p);
      var i := 0;
      while i < n
        invariant 0 <= i <= n && alloc.Ties() && alloc.mem.Valid()
        invariant AgreeOutside(w0, alloc.mem.words, p, p + cap)
        invariant BytesAre(alloc.mem.words, p, i, v)
      {
        ghost var w1 := alloc.mem.words;
        PayloadByte(w0, w1, p, cap, p + i);
        alloc.mem.WordRange(p + i - (p + i) % 4);
        SetByteIs(w1, p + i, v);
        alloc.mem.PutByte(p + i, v);
        SetByteAgrees(w0, w1, p, cap, p + i, v);
        i := i + 1;
      }
      PayloadStored(w0, alloc.mem.words, alloc.h, p);
    }

    /** The data check after mm_realloc: it passes exactly for ids whose low byte is a plain char. */
    method DataPreserved(newp: int, index: int, n: int) returns (ok: bool)
      requires alloc.Valid() && newp in Live(alloc.h) && 0 < n <= Live(alloc.h)[newp]
      requires BytesAre(alloc.mem.words, newp, n, index % 256)
      ensures ok <==> index % 256 < 128
    {
      hide Memory.Valid, Stored, Inv, Live, ByteAt;
      LiveMapped(alloc.mem.words, alloc.h, newp);
      var j := 0;
      while j < n
        invariant 0 <= j <= n && (j > 0 ==> index % 256 < 128)
      {
        var b := alloc.mem.GetByte(newp + j);
        var newpj := if b < 128 then b else b - 256;
        if newpj != index % 256 { return false; }
        j := j + 1;
      }
      ok := true;
    }

    /** The ALLOC case of the interpreter. */
    method DoAlloc(index: int, size: int) returns (ok: bool)
      requires Valid() && WellFormedOp(Alloc(index, size), at.Keys, blocks.Length)
      modifies this, alloc`h, alloc.mem`brk, alloc.mem`words, alloc.mem.cells, ranges, ranges.nodes, blocks, blockSizes
      ensures ok <==> Step(old(State()), Alloc(index, size)).Some?
      ensures ok ==> Valid() && State() == Step(old(State()), Alloc(index, size)).value
      ensures forall n :: n in ranges.nodes ==> n in old(ranges.nodes) || fresh(n)
    {
      hide Memory.Valid, Stored, Inv, Live, Kept, Filled, Recorded, SegMalloc.Malloc, BytesAre, Allocated,
        Matches, Ranges.Valid, Acceptable;
      ghost var h0, w0 := alloc.h, alloc.mem.words;
      var p := alloc.Malloc(size);
      if p == 0 {
        return false;
      }
      ghost var w1 := alloc.mem.words;
      AllocatedRoom(h0, size, alloc.h, p);
      AllocAcceptable(h0, alloc.h, p, size, ranges.contents, c, alloc.mem.start);
      RecordNew(ranges.contents, c.req, p, size);
      ok := ranges.Add(p, size, alloc.mem.start, alloc.mem.brk - 1);
      if !ok { return false; }
      Memset(p, index % 256, size);
      AllocRecorded(w0, w1, alloc.mem.words, h0, alloc.h, c, p, size, index % 256);
      MatchedKeys(c, h0);
      Remember(index, p, size, Client(c.req[p := size], c.fill[p := index % 256]));
    }

    /** "Remember region" */
    method Remember(index: int, p: int, size: int, ghost c': Client)
      requires Apart() && Tracks() && 0 <= index < blocks.Length
      requires p in c'.req && c'.req[p] == size && p in c'.fill && c'.fill[p] == index % 256
      requires forall j {:trigger at[j]} :: j in at && j != index ==>
                 && at[j] != p && at[j] in c'.req && c'.req[at[j]] == c.req[at[j]]
                 && at[j] in c'.fill && c'.fill[at[j]] == c.fill[at[j]]
      modifies this`at, this`c, blocks, blockSizes
      ensures Apart() && Tracks() && at == old(at)[index := p] && c == c'
    {
      blocks[index] := p;
      blockSizes[index] := size;
      at := at[index := p];
      c := c';
    }

    /** The FREE case of the interpreter. */
    method DoFree(index: int)
      requires Valid() && WellFormedOp(Free(index), at.Keys, blocks.Length)
      modifies this, alloc`h, alloc.mem`brk, alloc.mem`words, alloc.mem.cells, ranges, ranges.nodes
      ensures Step(old(State()), Free(index)).Some?
      ensures Valid() && State() == Step(old(State()), Free(index)).value
      ensures forall n :: n in ranges.nodes ==> n in old(ranges.nodes) || fresh(n)
    {
      hide Memory.Valid, Stored, Inv, Live, Kept, Filled, Recorded, SegMalloc.Free, BytesAre, Matches, Ranges.Valid;
      ghost var h0, w0 := alloc.h, alloc.mem.words;
      MatchedKeys(c, h0);
      var p := blocks[index];
      assert at[index] == p;
      RecordDropped(ranges.contents, c.req, p);
      ranges.Remove(p);
      FreeInv(h0, p);
      alloc.Free(p);
      FreeRecorded(w0, alloc.mem.words, h0, alloc.h, c, p);
      at := at - {index};
      c := Client(c.req - {p}, c.fill - {p});
    }

    /** The range of the old payload makes way for the range of the new one, which is accepted. */
    method MoveRange(oldp: int, newp: int, size: int, ghost h0: Heap) returns (ok: bool)
      requires alloc.Valid() && ranges.Valid() && Matches(c, Live(h0)) && Recorded(ranges.contents, c.req)
      requires oldp in Live(h0)
      requires (newp == oldp || newp !in Live(h0)) && newp in Live(alloc.h)
      requires Live(alloc.h) == (Live(h0) - {oldp})[newp := Live(alloc.h)[newp]]
      requires 0 < size <= Live(alloc.h)[newp]
      modifies ranges, ranges.nodes
      ensures ok && ranges.Valid() && Recorded(ranges.contents, (c.req - {oldp})[newp := size])
      ensures forall n :: n in ranges.nodes ==> n in old(ranges.nodes) || fresh(n)
    {
      hide Memory.Valid, Stored, Inv, Live, Recorded, Matches, Ranges.Valid, Acceptable;
      RecordDropped(ranges.contents, c.req, oldp);
      ranges.Remove(oldp);
      ReallocAcceptable(h0, alloc.h, oldp, newp, size, ranges.contents, c, alloc.mem.start);
      RecordNew(ranges.contents, c.req - {oldp}, newp, size);
      ok := ranges.Add(newp, size, alloc.mem.start, alloc.mem.brk - 1);
    }

    /** The REALLOC case of the interpreter. */
    method DoRealloc(index: int, size: int) returns (ok: bool)
      requires Valid() && WellFormedOp(Realloc(index, size), at.Keys, blocks.Length)
      modifies this, alloc`h, alloc.mem`brk, alloc.mem`words, alloc.mem.cells, ranges, ranges.nodes, blocks, blockSizes
      ensures ok <==> Step(old(State()), Realloc(index, size)).Some? && CharSafe(Realloc(index, size))
      ensures ok ==> Valid() && State() == Step(old(State()), Realloc(index, size)).value
      ensures forall n :: n in ranges.nodes ==> n in old(ranges.nodes) || fresh(n)
    {
      hide Memory.Valid, Stored, Inv, Live, Kept, Filled, Recorded, SegMalloc.Realloc, BytesAre, Matches, Ranges.Valid,
        Copied, Resized, Acceptable;
      ghost var h0, w0, c0 := alloc.h, alloc.mem.words, c;
      MatchedKeys(c, h0);
      var oldp := blocks[index];
      assert at[index] == oldp;
      FilledAt(w0, c, oldp);
      var newp := alloc.Realloc(oldp, size);
      if newp == 0 {
        return false;
      }
      ghost var w1 := alloc.mem.words;
      ResizedFacts(h0, oldp, size, alloc.h, newp);
      ok := MoveRange(oldp, newp, size, h0);
      if !ok { return false; }
      var oldsize := blockSizes[index];
      if size < oldsize { oldsize := size; }
      FilledPrefix(w0, oldp, c.req[oldp], oldsize, index % 256);
      MovedBytes(w0, w1, h0, alloc.h, oldp, newp, Min(Live(h0)[oldp], Live(alloc.h)[newp]), oldsize, index % 256);
      ok := DataPreserved(newp, index, oldsize);
      if !ok { return false; }
      Memset(newp, index % 256, size);
      ReallocRecorded(w0, w1, alloc.mem.words, h0, alloc.h, c, oldp, newp, size, index % 256);
      Remember(index, newp, size, Client((c.req - {oldp})[newp := size], (c.fill - {oldp})[newp := index % 256]));
    }

    /** One request of the trace. */
    method DoOp(op: Op) returns (ok: bool)
      requires Valid() && WellFormedOp(op, at.Keys, blocks.Length)
      modifies this, alloc`h, alloc.mem`brk, alloc.mem`words, alloc.mem.cells, ranges, ranges.nodes, blocks, blockSizes
      ensures ok <==> Step(old(State()), op).Some? && CharSafe(op)
      ensures ok ==> Valid() && State() == Step(old(State()), op).value
      ensures forall n :: n in ranges.nodes ==> n in old(ranges.nodes) || fresh(n)
    {
      match op {
        case Alloc(index, size) => ok := DoAlloc(index, size);
        case Realloc(index, size) => ok := DoRealloc(index, size);
        case Free(index) =>
          DoFree(index);
          ok := true;
      }
    }

    /** Everything eval_mm_valid does before the first request. */
    method Start() returns (ok: bool)
      requires alloc.mem.Valid() && ranges.Valid() && Apart()
      modifies this`at, this`c, alloc, alloc.mem`brk, alloc.mem`words, alloc.mem.cells, ranges
      ensures ok && Valid() && State() == FreshState(alloc.mem.start) && ranges.nodes == []
    {
      hide Memory.Valid, Stored, Inv, Extend, Live, Ranges.Valid;
      alloc.mem.ResetBrk();
      ranges.Clear();
      var r := alloc.Init();
      if r < 0 { return false; }
      at, c := map[], Client(map[], map[]);
      ok := true;
    }

    /** eval_mm_valid: it accepts a well-formed trace exactly when no request runs out of memory and
        no id reallocated has a low byte of 128 or more. */
    method EvalMmValid(ops: seq<Op>) returns (ok: bool)
      requires alloc.mem.Valid() && ranges.Valid() && Apart() && WellFormed(ops, {}, blocks.Length)
      modifies this, alloc, alloc.mem`brk, alloc.mem`words, alloc.mem.cells, ranges, ranges.nodes, blocks, blockSizes
      ensures ok <==> Run(FreshState(alloc.mem.start), ops).Some? && forall op :: op in ops ==> CharSafe(op)
      ensures TABLE + CHUNKSIZE + Demand(ops) <= MAX_HEAP ==> (ok <==> forall op :: op in ops ==> CharSafe(op))
    {
      hide Valid, Step, Demand, FreshState;
      ghost var first := FreshState(alloc.mem.start);
      FitsMemory(alloc.mem, ops, blocks.Length);
      ok := Start();
      if !ok { return false; }
      var i := 0;
      assert ops[0..] == ops && at.Keys == {} by { FreshIds(alloc.mem.start); }
      while i < |ops|
        invariant 0 <= i <= |ops| && Valid()
        invariant WellFormed(ops[i..], at.Keys, blocks.Length)
        invariant Run(State(), ops[i..]) == Run(first, ops)
        invariant forall op :: op in ops[..i] ==> CharSafe(op)
        invariant forall n :: n in ranges.nodes ==> n in old(ranges.nodes) || fresh(n)
      {
        var op := ops[i];
        assert ops[i..][0] == op && ops[i..][1..] == ops[i + 1..];
        assert ops[..i + 1] == ops[..i] + [op];
        ghost var d := State();
        forall k | 0 <= k < |ranges.nodes| ensures ranges.nodes[k] in old(ranges.nodes) || fresh(ranges.nodes[k]) {
          assert ranges.nodes[k] in ranges.nodes;
        }
        ok := DoOp(op);
        if !ok {
          assert op in ops;
          return false;
        }
        StepIds(d, op);
        i := i + 1;
      }
      assert ops[..i] == ops;
      ok := true;
    }

    // -------------------------------------------------------------- eval_mm_util

    ghost predicate UtilValid(sz: map<int, int>)
      reads this, alloc, alloc.mem, alloc.mem.cells, blocks, blockSizes
    {
      alloc.Valid() && Apart() && Tracks() && Matches(c, Live(alloc.h)) && SizesOk(at, sz, c.req)
    }

    /** The ALLOC case of eval_mm_util; total_size follows the sizes of the live ids. */
    method UtilAlloc(i: int, size: int, total0: int, ghost sz: map<int, int>) returns (ok: bool, totalSize: int)
      requires UtilValid(sz) && WellFormedOp(Alloc(i, size), at.Keys, blocks.Length) && total0 == Sum(sz)
      modifies this, alloc`h, alloc.mem`brk, alloc.mem`words, alloc.mem.cells, blocks, blockSizes
      ensures ok <==> Step(old(State()), Alloc(i, size)).Some?
      ensures ok ==> UtilValid(SizesAfter(sz, Alloc(i, size))) && State() == Step(old(State()), Alloc(i, size)).value
      ensures ok ==> totalSize == Sum(SizesAfter(sz, Alloc(i, size)))
      ensures ok ==> old(alloc.h.hi) - old(alloc.h.lo) <= alloc.h.hi - alloc.h.lo
    {
      hide Memory.Valid, Stored, Inv, Live, Kept, SegMalloc.Malloc, SegMalloc.Realloc, SegMalloc.Free, BytesAre,
        Matches,
        Copied, Resized, Allocated, Sum, SizesOk;
      ghost var h0 := alloc.h;
      MatchedKeys(c, h0);
      var p := alloc.Malloc(size);
      if p == 0 { return false, 0; }
      AllocatedRoom(h0, size, alloc.h, p);
      AllocatedGrows(h0, size, alloc.h, p);
      MatchNew(c, Live(h0), Live(alloc.h), p, size, i % 256);
      SizesNew(at, sz, c.req, i, p, size);
      Remember(i, p, size, Client(c.req[p := size], c.fill[p := i % 256]));
      SumUpdate(sz, i, size);
      totalSize := total0 + size;
      ok := true;
    }

    /** The REALLOC case of eval_mm_util. */
    method UtilRealloc(i: int, newsize: int, total0: int, ghost sz: map<int, int>) returns (ok: bool, totalSize: int)
      requires UtilValid(sz) && WellFormedOp(Realloc(i, newsize), at.Keys, blocks.Length) && total0 == Sum(sz)
      modifies this, alloc`h, alloc.mem`brk, alloc.mem`words, alloc.mem.cells, blocks, blockSizes
      ensures ok <==> Step(old(State()), Realloc(i, newsize)).Some?
      ensures ok ==> UtilValid(SizesAfter(sz, Realloc(i, newsize)))
      ensures ok ==> State() == Step(old(State()), Realloc(i, newsize)).value
      ensures ok ==> totalSize == Sum(SizesAfter(sz, Realloc(i, newsize)))
      ensures ok ==> old(alloc.h.hi) - old(alloc.h.lo) <= alloc.h.hi - alloc.h.lo
    {
      hide Memory.Valid, Stored, Inv, Live, Kept, SegMalloc.Malloc, SegMalloc.Realloc, SegMalloc.Free, BytesAre,
        Matches,
        Copied, Resized, Allocated, Sum, SizesOk;
      ghost var h0 := alloc.h;
      MatchedKeys(c, h0);
      var oldsize := blockSizes[i];
      var oldp := blocks[i];
      SizeOfId(at, sz, c.req, i);
      assert at[i] == oldp;
      var newp := alloc.Realloc(oldp, newsize);
      if newp == 0 { return false, 0; }
      ResizedFacts(h0, oldp, newsize, alloc.h, newp);
      ResizedGrows(h0, oldp, newsize, alloc.h, newp);
      MatchMoved(c, Live(h0), Live(alloc.h), oldp, newp, newsize, i % 256);
      SizesMoved(at, sz, c.req, i, oldp, newp, newsize);
      Remember(i, newp, newsize, Client((c.req - {oldp})[newp := newsize], (c.fill - {oldp})[newp := i % 256]));
      SumUpdate(sz, i, newsize);
      totalSize := total0 + (newsize - oldsize);
      ok := true;
    }

    /** The FREE case of eval_mm_util. */
    method UtilFree(i: int, total0: int, ghost sz: map<int, int>) returns (ok: bool, totalSize: int)
      requires UtilValid(sz) && WellFormedOp(Free(i), at.Keys, blocks.Length) && total0 == Sum(sz)
      modifies this, alloc`h, alloc.mem`brk, alloc.mem`words, alloc.mem.cells
      ensures ok <==> Step(old(State()), Free(i)).Some?
      ensures ok ==> UtilValid(SizesAfter(sz, Free(i))) && State() == Step(old(State()), Free(i)).value
      ensures ok ==> totalSize == Sum(SizesAfter(sz, Free(i)))
      ensures ok ==> old(alloc.h.hi) - old(alloc.h.lo) <= alloc.h.hi - alloc.h.lo
    {
      hide Memory.Valid, Stored, Inv, Live, Kept, SegMalloc.Malloc, SegMalloc.Realloc, SegMalloc.Free, BytesAre,
        Matches,
        Copied, Resized, Allocated, Sum, SizesOk;
      ghost var h0 := alloc.h;
      MatchedKeys(c, h0);
      var size := blockSizes[i];
      var p := blocks[i];
      SizeOfId(at, sz, c.req, i);
      assert at[i] == p;
      FreeInv(h0, p);
      alloc.Free(p);
      MatchFreed(c, Live(h0), Live(alloc.h), p);
      SizesFreed(at, sz, c.req, i, p);
      at := at - {i};
      c := Client(c.req - {p}, c.fill - {p});
      SumRemove(sz, i);
      totalSize := total0 - size;
      ok := true;
    }

    method UtilOp(op: Op, total0: int, ghost sz: map<int, int>) returns (ok: bool, totalSize: int)
      requires UtilValid(sz) && WellFormedOp(op, at.Keys, blocks.Length) && total0 == Sum(sz)
      modifies this, alloc`h, alloc.mem`brk, alloc.mem`words, alloc.mem.cells, blocks, blockSizes
      ensures ok <==> Step(old(State()), op).Some?
      ensures ok ==> UtilValid(SizesAfter(sz, op)) && State() == Step(old(State()), op).value
      ensures ok ==> totalSize == Sum(SizesAfter(sz, op))
      ensures ok ==> old(alloc.h.hi) - old(alloc.h.lo) <= alloc.h.hi - alloc.h.lo
    {
      hide UtilValid, Sum, Step;
      match op {
        case Alloc(i, size) => ok, totalSize := UtilAlloc(i, size, total0, sz);
        case Realloc(i, size) => ok, totalSize := UtilRealloc(i, size, total0, sz);
        case Free(i) => ok, totalSize := UtilFree(i, total0, sz);
      }
    }

    method StartUtil()
      requires alloc.mem.Valid() && Apart()
      modifies this`at, this`c, alloc, alloc.mem`brk, alloc.mem`words, alloc.mem.cells
      ensures UtilValid(map[]) && State() == FreshState(alloc.mem.start)
    {
      alloc.mem.ResetBrk();
      var r := alloc.Init();
      at, c := map[], Client(map[], map[]);
    }

    lemma Positive(sz: map<int, int>)
      requires UtilValid(sz)
      ensures sz.Keys == at.Keys && forall i {:trigger sz[i]} :: i in sz ==> sz[i] > 0
    {
      hide Inv, Stored, Live;
    }

    lemma HeapSize(sz: map<int, int>)
      requires UtilValid(sz)
      ensures alloc.mem.brk == alloc.h.hi && 0 < alloc.h.hi - alloc.mem.start
      ensures alloc.h.hi - alloc.h.lo <= alloc.h.hi - alloc.mem.start
    {
      hide Stored;
    }

    /** The requested bytes of the live ids fit into the heap. */
    lemma LiveSum(sz: map<int, int>)
      requires UtilValid(sz)
      ensures Sum(sz) <= alloc.h.hi - alloc.h.lo
    {
      hide Stored, Memory.Valid;
      assert alloc.h.lo <= alloc.h.hi;
      forall i {:trigger sz[i]} | i in sz
        ensures i in at && sz[i] > 0 && at[i] in Live(alloc.h) && sz[i] <= Live(alloc.h)[at[i]] {
        assert c.req[at[i]] == sz[i];
      }
      SizesPacked(alloc.h, at, sz);
      PackedSum(sz, at, alloc.h.lo, alloc.h.hi);
    }

    /** eval_mm_util: None when the allocator fails; otherwise the high-water mark of the requested
        bytes and the final heap size, whose quotient is the utilisation. The heap size is what the
        requests left the allocator with. */
    method EvalMmUtil(ops: seq<Op>) returns (r: Option<(int, int)>)
      requires alloc.mem.Valid() && ranges.Valid() && Apart() && WellFormed(ops, {}, blocks.Length)
      modifies this, alloc, alloc.mem`brk, alloc.mem`words, alloc.mem.cells, blocks, blockSizes
      ensures r.Some? <==> Run(FreshState(alloc.mem.start), ops).Some?
      ensures r.Some? ==> r.value.0 == HighWater(map[], ops) && 0 <= r.value.0 <= r.value.1 && 0 < r.value.1
      ensures r.Some? ==>
        var size := Run(FreshState(alloc.mem.start), ops).value.h.hi - alloc.mem.start;
        r.value.1 == size == alloc.mem.brk - alloc.mem.start <= TABLE + CHUNKSIZE + Demand(ops)
    {
      hide Step, UtilValid, Sum;
      ghost var first := FreshState(alloc.mem.start);
      StartUtil();
      ghost var sz: map<int, int> := map[];
      var totalSize, maxTotalSize := 0, 0;
      var i := 0;
      SumEmpty();
      assert ops[0..] == ops && at.Keys == {};
      while i < |ops|
        invariant 0 <= i <= |ops| && UtilValid(sz) && WellFormed(ops[i..], at.Keys, blocks.Length)
        invariant Run(State(), ops[i..]) == Run(first, ops)
        invariant totalSize == Sum(sz) <= maxTotalSize && 0 <= maxTotalSize <= alloc.h.hi - alloc.h.lo
        invariant Max(maxTotalSize, HighWater(sz, ops[i..])) == HighWater(map[], ops)
      {
        var op := ops[i];
        assert ops[i..][0] == op && ops[i..][1..] == ops[i + 1..];
        ghost var d := State();
        Positive(sz);
        var ok;
        ok, totalSize := UtilOp(op, totalSize, sz);
        if !ok { return None; }
        StepIds(d, op);
        FreeLowers(sz, op);
        sz := SizesAfter(sz, op);
        LiveSum(sz);
        if !op.Free? {
          maxTotalSize := if totalSize > maxTotalSize then totalSize else maxTotalSize;
        }
        i := i + 1;
      }
      HeapSize(sz);
      assert ops[i..] == [];
      TraceSize(alloc.mem.start, ops, blocks.Length);
      r := Some((maxTotalSize, alloc.mem.brk - alloc.mem.start));
    }
  }

  /** The requested sizes of the live ids after one request. */
  function SizesAfter(sz: map<int, int>, op: Op): map<int, int> {
    match op
    case Alloc(i, n) => sz[i := n]
    case Realloc(i, n) => sz[i := n]
    case Free(i) => sz - {i}
  }

  lemma SizesPacked(h: Heap, at: map<int, int>, sz: map<int, int>)
    requires Inv(h)
    requires forall i {:trigger sz[i]} ::
      i in sz ==> i in at && sz[i] > 0 && at[i] in Live(h) && sz[i] <= Live(h)[at[i]]
    requires forall i, j {:trigger at[i], at[j]} :: i in at && j in at && i != j ==> at[i] != at[j]
    ensures Packed(sz, at, h.lo, h.hi)
  {
    hide Inv, Live;
    forall i {:trigger sz[i]} | i in sz ensures h.lo <= at[i] && at[i] + sz[i] <= h.hi {
      LiveInside(h, at[i]);
    }
    forall i, j {:trigger sz[i], sz[j]} | i in sz && j in sz && at[i] < at[j] ensures at[i] + sz[i] <= at[j] {
      LiveApart(h, at[i], at[j]);
    }
  }

  lemma LiveInside(h: Heap, p: int)
    requires Inv(h) && p in Live(h)
    ensures h.lo <= p && p + Live(h)[p] + 8 <= h.hi
  {
    assert h.blk[p].size >= 16;
  }

  lemma LiveApart(h: Heap, p: int, q: int)
    requires Inv(h) && p in Live(h) && q in Live(h) && p < q
    ensures p + Live(h)[p] + 8 <= q
  {
    assert h.blk[p].size >= 16 && h.blk[q].size >= 16;
  }

  /** The largest total of live requested bytes while a trace runs. */
  ghost function HighWater(sz: map<int, int>, ops: seq<Op>): int
    decreases |ops|
  {
    if ops == [] then Sum(sz) else Max(Sum(sz), HighWater(SizesAfter(sz, ops[0]), ops[1..]))
  }

  /** Request j is the last one for id i, and it asks for n bytes. */
  ghost predicate LastAsks(ops: seq<Op>, j: int, i: int, n: int) {
    && 0 <= j < |ops| && ops[j].index == i && !ops[j].Free? && ops[j].size == n
    && forall k {:trigger ops[k]} :: j < k < |ops| ==> ops[k].index != i
  }

  /** sz holds, for every id that is live after the requests, the size it last asked for. */
  ghost predicate Requested(ops: seq<Op>, sz: map<int, int>) {
    forall i, n {:trigger RequestedAt(ops, sz, i, n)} :: RequestedAt(ops, sz, i, n)
  }

  ghost predicate RequestedAt(ops: seq<Op>, sz: map<int, int>, i: int, n: int) {
    i in sz && sz[i] == n <==> exists j {:trigger LastAsks(ops, j, i, n)} :: LastAsks(ops, j, i, n)
  }

  /** The sizes after all requests. */
  function SizesOf(ops: seq<Op>): map<int, int> {
    if ops == [] then map[] else SizesAfter(SizesOf(ops[..|ops| - 1]), ops[|ops| - 1])
  }

  lemma {:induction false} SizesRequested(ops: seq<Op>)
    ensures Requested(ops, SizesOf(ops))
  {
    forall i, n ensures RequestedAt(ops, SizesOf(ops), i, n) { SizeRequested(ops, i, n); }
  }

  lemma {:induction false} SizeRequested(ops: seq<Op>, i: int, n: int)
    ensures RequestedAt(ops, SizesOf(ops), i, n)
  {
    if ops != [] {
      var last := |ops| - 1;
      var front, op := ops[..last], ops[last];
      SizeRequested(front, i, n);
      if op.index == i {
        forall j {:trigger LastAsks(ops, j, i, n)} | LastAsks(ops, j, i, n) ensures j == last {
          assert ops[last] == op;
        }
        if !op.Free? && op.size == n { assert LastAsks(ops, last, i, n); }
      } else {
        forall j {:trigger LastAsks(ops, j, i, n)} | LastAsks(ops, j, i, n)
          ensures exists k {:trigger LastAsks(front, k, i, n)} :: LastAsks(front, k, i, n) {
          assert ops[last] == op;
          assert LastAsks(front, j, i, n);
        }
        forall j {:trigger LastAsks(front, j, i, n)} | LastAsks(front, j, i, n)
          ensures exists k {:trigger LastAsks(ops, k, i, n)} :: LastAsks(ops, k, i, n) {
          assert LastAsks(ops, j, i, n);
        }
      }
    }
  }

  /** The sizes after the requests are determined by them. */
  lemma RequestedUnique(ops: seq<Op>, sz: map<int, int>, sz': map<int, int>)
    requires Requested(ops, sz) && Requested(ops, sz')
    ensures sz == sz'
  {
    forall i | i in sz ensures i in sz' && sz'[i] == sz[i] {
      assert RequestedAt(ops, sz, i, sz[i]) && RequestedAt(ops, sz', i, sz[i]);
    }
    forall i | i in sz' ensures i in sz {
      assert RequestedAt(ops, sz, i, sz'[i]) && RequestedAt(ops, sz', i, sz'[i]);
    }
  }

  /** No total of live requested bytes, after any number of requests, is above the high-water mark,
      and one of them reaches it. */
  lemma HighWaterIs(ops: seq<Op>)
    ensures forall k, sz {:trigger Requested(ops[..k], sz)} ::
      0 <= k <= |ops| && Requested(ops[..k], sz) ==> Sum(sz) <= HighWater(map[], ops)
    ensures exists k, sz {:trigger Requested(ops[..k], sz)} ::
      0 <= k <= |ops| && Requested(ops[..k], sz) && Sum(sz) == HighWater(map[], ops)
  {
    hide Requested, Sum, HighWater;
    assert ops[..0] == [] && ops[0..] == ops;
    var best := HighWaterFrom(ops, 0);
    SizesRequested(ops[..best]);
    forall k, sz {:trigger Requested(ops[..k], sz)} | 0 <= k <= |ops| && Requested(ops[..k], sz)
      ensures Sum(sz) <= HighWater(map[], ops) {
      SizesRequested(ops[..k]);
      RequestedUnique(ops[..k], sz, SizesOf(ops[..k]));
    }
  }

  lemma {:induction false} HighWaterFrom(ops: seq<Op>, k: nat) returns (best: nat)
    requires k <= |ops|
    ensures k <= best <= |ops| && Sum(SizesOf(ops[..best])) == HighWater(SizesOf(ops[..k]), ops[k..])
    ensures forall j {:trigger ops[..j]} :: k <= j <= |ops| ==>
      Sum(SizesOf(ops[..j])) <= HighWater(SizesOf(ops[..k]), ops[k..])
    decreases |ops| - k
  {
    hide Sum, SizesAfter;
    if k == |ops| {
      best := k;
    } else {
      assert ops[..k + 1][..k] == ops[..k] && ops[k..][1..] == ops[k + 1..];
      best := HighWaterFrom(ops, k + 1);
      if Sum(SizesOf(ops[..k])) >= HighWater(SizesOf(ops[..k + 1]), ops[k + 1..]) { best := k; }
    }
  }

  lemma SumEmpty()
    ensures Sum(map[]) == 0
  {
  }

  lemma FreeLowers(sz: map<int, int>, op: Op)
    requires op.Free? ==> op.index in sz && sz[op.index] > 0
    ensures op.Free? ==> Sum(SizesAfter(sz, op)) <= Sum(sz)
  {
    if op.Free? { SumRemove(sz, op.index); }
  }

  /** sz gives the requested size of every live id. */
  ghost predicate SizesOk(at: map<int, int>, sz: map<int, int>, req: map<int, int>) {
    sz.Keys == at.Keys && forall i {:trigger sz[i]} :: i in sz ==> at[i] in req && sz[i] == req[at[i]]
  }

  lemma SizeOfId(at: map<int, int>, sz: map<int, int>, req: map<int, int>, i: int)
    requires SizesOk(at, sz, req) && i in at
    ensures i in sz && at[i] in req && sz[i] == req[at[i]]
  {
  }

  lemma SizesNew(at: map<int, int>, sz: map<int, int>, req: map<int, int>, i: int, p: int, n: int)
    requires SizesOk(at, sz, req) && p !in req && i !in at
    ensures SizesOk(at[i := p], sz[i := n], req[p := n]) && i !in sz
  {
  }

  lemma SizesMoved(at: map<int, int>, sz: map<int, int>, req: map<int, int>, i: int, p: int, r: int, n: int)
    requires SizesOk(at, sz, req) && i in at && at[i] == p && (r == p || r !in req)
    requires forall j {:trigger at[j]} :: j in at && j != i ==> at[j] != p
    ensures SizesOk(at[i := r], sz[i := n], (req - {p})[r := n])
  {
  }

  lemma SizesFreed(at: map<int, int>, sz: map<int, int>, req: map<int, int>, i: int, p: int)
    requires SizesOk(at, sz, req) && i in at && at[i] == p
    requires forall j {:trigger at[j]} :: j in at && j != i ==> at[j] != p
    ensures SizesOk(at - {i}, sz - {i}, req - {p})
  {
  }

  lemma AllocatedGrows(h: Heap, size: int, h': Heap, r: int)
    requires Allocated(h, size, h', r)
    ensures h'.lo == h.lo && h.hi <= h'.hi
  {
  }

  lemma ResizedGrows(h: Heap, p: int, size: int, h': Heap, r: int)
    requires Resized(h, p, size, h', r)
    ensures h'.lo == h.lo && h.hi <= h'.hi
  {
  }

  lemma MatchNew(c: Client, live: map<int, int>, live': map<int, int>, p: int, n: int, v: int)
    requires Matches(c, live) && p in live' && live' == live[p := live'[p]] && 0 < n <= live'[p] && p !in live
    ensures Matches(Client(c.req[p := n], c.fill[p := v]), live')
  {
  }

  lemma MatchMoved(c: Client, live: map<int, int>, live': map<int, int>, p: int, r: int, n: int, v: int)
    requires Matches(c, live) && p in live && r in live' && live' == (live - {p})[r := live'[r]] && 0 < n <= live'[r]
    requires r == p || r !in live
    ensures Matches(Client((c.req - {p})[r := n], (c.fill - {p})[r := v]), live')
  {
  }

  lemma MatchFreed(c: Client, live: map<int, int>, live': map<int, int>, p: int)
    requires Matches(c, live) && live' == live - {p}
    ensures Matches(Client(c.req - {p}, c.fill - {p}), live')
  {
  }

  /** The state of the interpreter before the first request. */
  ghost function FreshState(start: int): DState {
    DState(Extend(EmptyHeap(start), CHUNKSIZE).0, map[])
  }

  lemma StepIds(d: DState, op: Op)
    requires Step(d, op).Some?
    ensures Step(d, op).value.at.Keys == LiveAfter(op, d.at.Keys)
  {
  }

  lemma MatchedKeys(c: Client, h: Heap)
    requires Matches(c, Live(h)) && Inv(h)
    ensures c.req.Keys == Live(h).Keys == c.fill.Keys && 0 !in Live(h)
    ensures forall a {:trigger c.req[a]} :: a in c.req ==> 0 < c.req[a] <= Live(h)[a]
  {
    NullIsNoBlock(h, Live(h));
  }

  lemma FilledAt(w: Words, c: Client, p: int)
    requires Filled(w, c) && p in c.req && p in c.fill
    ensures BytesAre(w, p, c.req[p], c.fill[p])
  {
    assert c.fill[p] == c.fill[p];
  }

  lemma FilledPrefix(w: Words, p: int, n: int, m: int, v: int)
    requires BytesAre(w, p, n, v) && m <= n
    ensures BytesAre(w, p, m, v)
  {
  }

  lemma ResizedFacts(h: Heap, p: int, size: int, h': Heap, r: int)
    requires Resized(h, p, size, h', r) && r != 0
    ensures (r == p || r !in Live(h)) && r in Live(h') && Live(h') == (Live(h) - {p})[r := Live(h')[r]]
    ensures size <= Live(h')[r]
  {
  }

  lemma ReallocAcceptable(h: Heap, h': Heap, p: int, r: int, size: int, ranges: seq<Range>, c: Client, start: int)
    requires Inv(h') && Matches(c, Live(h)) && Recorded(ranges, c.req - {p}) && start <= h'.lo && p in Live(h)
    requires (r == p || r !in Live(h)) && r in Live(h') && Live(h') == (Live(h) - {p})[r := Live(h')[r]]
    requires 0 < size <= Live(h')[r]
    ensures Acceptable(ranges, r, size, start, h'.hi - 1) && r !in c.req - {p}
  {
    hide Inv, Live;
    FreshIsAcceptable(h', r, size, ranges, c.req - {p}, start);
  }

  lemma AllocatedRoom(h: Heap, size: int, h': Heap, r: int)
    requires Allocated(h, size, h', r) && r != 0
    ensures r !in Live(h) && r in Live(h') && Live(h') == Live(h)[r := Live(h')[r]] && size <= Live(h')[r]
  {
  }

  lemma AllocAcceptable(h: Heap, h': Heap, r: int, size: int, ranges: seq<Range>, c: Client, start: int)
    requires Inv(h') && Matches(c, Live(h)) && Recorded(ranges, c.req) && start <= h'.lo
    requires r !in Live(h) && r in Live(h') && Live(h') == Live(h)[r := Live(h')[r]] && 0 < size <= Live(h')[r]
    ensures Acceptable(ranges, r, size, start, h'.hi - 1) && r !in c.req
  {
    hide Inv, Live;
    FreshIsAcceptable(h', r, size, ranges, c.req, start);
  }

  lemma PayloadByte(w0: Words, w: Words, p: int, cap: int, x: int)
    requires PayloadMapped(w0, p, cap) && p % 8 == 0 && p <= x < p + cap && w.Keys == w0.Keys
    ensures x - x % 4 in w && p <= x - x % 4 < p + cap
  {
    WordOfByte(x, p);
  }

  lemma SetByteAgrees(w0: Words, w: Words, p: int, cap: int, x: int, v: int)
    requires AgreeOutside(w0, w, p, p + cap) && x - x % 4 in w && p <= x - x % 4 < p + cap
    ensures AgreeOutside(w0, SetByte(w, x, v), p, p + cap)
  {
  }

  // ---------------------------------------------------------------- every run of the allocator

  /** The heap invariant, and the live ids own the live payloads one to one. */
  ghost predicate Good(d: DState) {
    && Inv(d.h)
    && (forall i {:trigger d.at[i]} :: i in d.at ==> d.at[i] in Live(d.h))
    && (forall i, j {:trigger d.at[i], d.at[j]} :: i in d.at && j in d.at && i != j ==> d.at[i] != d.at[j])
    && (forall a {:trigger Live(d.h)[a]} :: a in Live(d.h) ==> exists i {:trigger d.at[i]} :: i in d.at && d.at[i] == a)
  }

  /** No free block fits a request and mem_sbrk would have to go beyond the limit. */
  ghost predicate NoRoom(h: Heap, size: int) {
    FindFit(h, AdjustedSize(size)) == 0 && h.hi + Max(AdjustedSize(size), DCHUNKSIZE) > h.limit
  }

  lemma FreshGood(start: int)
    requires start % 8 == 0 && 8 <= start
    ensures Good(FreshState(start)) && Live(FreshState(start).h) == map[]
  {
    hide Inv, Live, Extend;
    EmptyInv(start);
    ExtendInv(EmptyHeap(start), CHUNKSIZE);
  }

  lemma OwnersAfterNew(h: Heap, h': Heap, at: map<int, int>, i: int, p: int)
    requires Good(DState(h, at)) && Inv(h') && i !in at && p !in Live(h) && p in Live(h')
    requires Live(h') == Live(h)[p := Live(h')[p]]
    ensures Good(DState(h', at[i := p]))
  {
    hide Inv, Live;
    var d', at' := DState(h', at[i := p]), at[i := p];
    forall a {:trigger Live(h')[a]} | a in Live(h') ensures exists j {:trigger at'[j]} :: j in at' && at'[j] == a {
      if a == p {
        assert at'[i] == a;
      } else {
        assert Live(h)[a] == Live(h')[a];
        var j :| j in at && at[j] == a;
        assert at'[j] == a;
      }
    }
  }

  lemma OwnersAfterFree(h: Heap, h': Heap, at: map<int, int>, i: int)
    requires Good(DState(h, at)) && Inv(h') && i in at && Live(h') == Live(h) - {at[i]}
    ensures Good(DState(h', at - {i}))
  {
    hide Inv, Live;
    var at' := at - {i};
    forall a {:trigger Live(h')[a]} | a in Live(h') ensures exists j {:trigger at'[j]} :: j in at' && at'[j] == a {
      assert Live(h)[a] == Live(h')[a];
      var j :| j in at && at[j] == a;
      assert at'[j] == a;
    }
  }

  lemma OwnersAfterMove(h: Heap, h': Heap, at: map<int, int>, i: int, r: int)
    requires Good(DState(h, at)) && Inv(h') && i in at && (r == at[i] || r !in Live(h)) && r in Live(h')
    requires Live(h') == (Live(h) - {at[i]})[r := Live(h')[r]]
    ensures Good(DState(h', at[i := r]))
  {
    hide Inv, Live;
    var at' := at[i := r];
    forall a {:trigger Live(h')[a]} | a in Live(h') ensures exists j {:trigger at'[j]} :: j in at' && at'[j] == a {
      if a == r {
        assert at'[i] == a;
      } else {
        assert Live(h)[a] == Live(h')[a];
        var j :| j in at && at[j] == a;
        assert at'[j] == a;
      }
    }
  }

  /** One request keeps the state good, and is refused only when memory runs out. */
  lemma StepGood(d: DState, op: Op, numIds: int)
    requires Good(d) && WellFormedOp(op, d.at.Keys, numIds)
    ensures Step(d, op).Some? ==> Good(Step(d, op).value)
    ensures Step(d, op).None? ==> !op.Free? && NoRoom(d.h, op.size)
  {
    hide Inv, Live, SegMalloc.Malloc, SegMalloc.Realloc, SegMalloc.Free, Good, NoRoom;
    GoodHas(d, op);
    match op
    case Alloc(i, n) =>
      MallocInv(d.h, n);
      var (h', p) := SegMalloc.Malloc(d.h, n);
      AllocStep(d.h, n, h', p);
      if p != 0 { OwnersAfterNew(d.h, h', d.at, i, p); }
    case Realloc(i, n) =>
      ReallocInv(d.h, d.at[i], n);
      var (h', r) := SegMalloc.Realloc(d.h, d.at[i], n);
      ReallocStep(d.h, d.at[i], n);
      if r != 0 { OwnersAfterMove(d.h, h', d.at, i, r); }
    case Free(i) =>
      FreeInv(d.h, d.at[i]);
      OwnersAfterFree(d.h, SegMalloc.Free(d.h, d.at[i]), d.at, i);
  }

  lemma GoodHas(d: DState, op: Op)
    requires Good(d)
    ensures Inv(d.h) && (op.index in d.at ==> d.at[op.index] in Live(d.h))
  {
  }

  lemma AllocStep(h: Heap, size: int, h': Heap, r: int)
    requires Allocated(h, size, h', r)
    ensures r == 0 <==> NoRoom(h, size)
    ensures r != 0 ==> r !in Live(h) && r in Live(h') && Live(h') == Live(h)[r := Live(h')[r]]
  {
  }

  lemma ReallocStep(h: Heap, p: int, size: int)
    requires Inv(h) && p in Live(h) && 0 < size <= TWO32 - 16
    ensures
      var (h', r) := SegMalloc.Realloc(h, p, size);
      && (r == 0 ==> NoRoom(h, size))
      && (r != 0 ==> (r == p || r !in Live(h)) && r in Live(h') && Live(h') == (Live(h) - {p})[r := Live(h')[r]])
  {
    hide Inv, Live, Trim, TakePrev, AbsorbNext, SegMalloc.Malloc, SegMalloc.Free, NoRoom, SegMalloc.Realloc, Align;
    ReallocInv(h, p, size);
    MallocInv(h, size);
    var (h1, q) := SegMalloc.Malloc(h, size);
    AllocStep(h, size, h1, q);
    LiveIsBlock(h, p);
    ReallocCases(h, p, size);
    NullIsNoBlock(h, Live(h));
  }

  /** Whatever well-formed requests are made, the heap invariant holds and the client owns exactly
      the live payloads. */
  lemma {:induction false} RunGood(d: DState, ops: seq<Op>, numIds: int)
    requires Good(d) && WellFormed(ops, d.at.Keys, numIds) && Run(d, ops).Some?
    ensures Good(Run(d, ops).value)
    decreases |ops|
  {
    if ops != [] {
      StepGood(d, ops[0], numIds);
      StepIds(d, ops[0]);
      RunGood(Step(d, ops[0]).value, ops[1..], numIds);
    }
  }

  /** The allocator's theorem: after mm_init and any well-formed trace the heap invariant holds. */
  lemma TraceGood(start: int, ops: seq<Op>, numIds: int)
    requires start % 8 == 0 && 8 <= start
    requires WellFormed(ops, {}, numIds) && Run(FreshState(start), ops).Some?
    ensures Good(Run(FreshState(start), ops).value)
  {
    hide Good, Inv, Extend, Run, WellFormed, Step;
    FreshGood(start);
    assert FreshState(start).at.Keys == {};
    RunGood(FreshState(start), ops, numIds);
  }

  // ---------------------------------------------------------------- traces that always fit

  /** By how much one request can raise the break. */
  function Need(op: Op): int {
    if op.Free? then 0 else Max(AdjustedSize(op.size), DCHUNKSIZE)
  }

  /** By how much a trace can raise the break, whatever is freed. */
  function Demand(ops: seq<Op>): int {
    if ops == [] then 0 else Need(ops[0]) + Demand(ops[1..])
  }

  lemma StepGrows(d: DState, op: Op, numIds: int)
    requires Good(d) && WellFormedOp(op, d.at.Keys, numIds) && Step(d, op).Some?
    ensures
      var h' := Step(d, op).value.h;
      h'.hi <= d.h.hi + Need(op) && h'.limit == d.h.limit
  {
    hide Inv, Live, SegMalloc.Malloc, SegMalloc.Realloc, SegMalloc.Free, Good, AdjustedSize;
    GoodHas(d, op);
    match op
    case Alloc(_, n) => MallocInv(d.h, n);
    case Realloc(i, n) => ReallocInv(d.h, d.at[i], n);
    case Free(i) => FreeInv(d.h, d.at[i]);
  }

  lemma {:induction false} DemandNat(ops: seq<Op>)
    ensures Demand(ops) >= 0
  {
    if ops != [] { DemandNat(ops[1..]); }
  }

  lemma {:induction false} RunFits(d: DState, ops: seq<Op>, numIds: int)
    requires Good(d) && WellFormed(ops, d.at.Keys, numIds) && d.h.hi + Demand(ops) <= d.h.limit
    ensures Run(d, ops).Some?
    decreases |ops|
  {
    hide Good, Inv, AdjustedSize, FindFit, Step;
    if ops != [] {
      DemandNat(ops[1..]);
      StepGood(d, ops[0], numIds);
      assert Step(d, ops[0]).Some?;
      StepGrows(d, ops[0], numIds);
      StepIds(d, ops[0]);
      RunFits(Step(d, ops[0]).value, ops[1..], numIds);
    }
  }

  /** A trace whose requests, rounded up, fit the region all together never runs out of memory. */
  lemma TraceFits(start: int, ops: seq<Op>, numIds: int)
    requires start % 8 == 0 && 8 <= start && WellFormed(ops, {}, numIds)
    requires TABLE + CHUNKSIZE + Demand(ops) <= MAX_HEAP
    ensures Run(FreshState(start), ops).Some?
  {
    hide Good, Inv, Extend, Run, WellFormed, Step, Demand;
    FreshGood(start);
    FreshExtent(start);
    assert FreshState(start).at.Keys == {};
    RunFits(FreshState(start), ops, numIds);
  }

  lemma {:induction false} RunSize(d: DState, ops: seq<Op>, numIds: int)
    requires Good(d) && WellFormed(ops, d.at.Keys, numIds) && Run(d, ops).Some?
    ensures Run(d, ops).value.h.hi <= d.h.hi + Demand(ops)
    decreases |ops|
  {
    hide Good, Inv, AdjustedSize, FindFit, Step, Need;
    if ops != [] {
      StepGood(d, ops[0], numIds);
      StepGrows(d, ops[0], numIds);
      StepIds(d, ops[0]);
      RunSize(Step(d, ops[0]).value, ops[1..], numIds);
    }
  }

  /** The heap after a trace is no larger than the initial one and its rounded requests. */
  lemma TraceSize(start: int, ops: seq<Op>, numIds: int)
    requires start % 8 == 0 && 8 <= start && WellFormed(ops, {}, numIds) && Run(FreshState(start), ops).Some?
    ensures Run(FreshState(start), ops).value.h.hi - start <= TABLE + CHUNKSIZE + Demand(ops)
  {
    hide Good, Inv, Extend, Run, WellFormed, Step, Demand;
    FreshGood(start);
    FreshExtent(start);
    assert FreshState(start).at.Keys == {};
    RunSize(FreshState(start), ops, numIds);
  }

  lemma FitsMemory(mem: Memory, ops: seq<Op>, numIds: int)
    requires mem.Valid() && WellFormed(ops, {}, numIds)
    ensures TABLE + CHUNKSIZE + Demand(ops) <= MAX_HEAP ==> Run(FreshState(mem.start), ops).Some?
  {
    hide Memory.Valid, Demand, FreshState, Run;
    mem.Bounds();
    if TABLE + CHUNKSIZE + Demand(ops) <= MAX_HEAP { TraceFits(mem.start, ops, numIds); }
  }

  lemma FreshIds(start: int)
    ensures FreshState(start).at.Keys == {}
  {
  }

  lemma FreshExtent(start: int)
    requires start % 8 == 0 && 8 <= start
    ensures FreshState(start).h.hi == start + TABLE + CHUNKSIZE && FreshState(start).h.limit == start + MAX_HEAP
  {
    hide Inv, Extend;
    EmptyInv(start);
    ExtendInv(EmptyHeap(start), CHUNKSIZE);
  }

  /** A trace of two requests for id 128, whose low byte is negative as a plain char. */
  const REALLOC_128 := [Alloc(128, 1), Realloc(128, 1)]

  lemma Realloc128()
    ensures WellFormed(REALLOC_128, {}, 129) && Demand(REALLOC_128) == 2 * DCHUNKSIZE
    ensures !(forall op :: op in REALLOC_128 ==> CharSafe(op))
  {
    var ops := REALLOC_128;
    assert ops[1..] == [Realloc(128, 1)] && ops[1..][1..] == [];
    assert LiveAfter(ops[0], {}) == {128};
    assert Need(ops[0]) == DCHUNKSIZE && Need(ops[1]) == DCHUNKSIZE;
    assert ops[1] in ops && !CharSafe(ops[1]);
  }

  /** The char comparison at work: the allocator serves this trace and the verdict rejects it. */
  lemma RejectedTrace(start: int)
    requires start % 8 == 0 && 8 <= start
    ensures WellFormed(REALLOC_128, {}, 129) && Run(FreshState(start), REALLOC_128).Some?
    ensures !(forall op :: op in REALLOC_128 ==> CharSafe(op))
  {
    hide Run, FreshState, WellFormed, Demand, CharSafe;
    Realloc128();
    TraceFits(start, REALLOC_128, 129);
  }

  // ---------------------------------------------------------------- the first requests

  /** After mm_init there is one block, 64 free bytes at byte 112. */
  lemma FreshBlock(start: int)
    requires start % 8 == 0 && 8 <= start
    ensures FreshState(start).h.blk == map[start + 112 := Block(64, false)]
  {
    hide Class;
    var g := Grow(EmptyHeap(start), CHUNKSIZE);
    assert g.blk == map[start + 112 := Block(64, false)];
  }

  /** The first 16 bytes come from the back of that block: 24 bytes are cut off for them. */
  lemma FirstMalloc(start: int)
    requires start % 8 == 0 && 8 <= start
    ensures SegMalloc.Malloc(FreshState(start).h, 16).1 == start + 152
  {
    hide Inv, LooseInv, Extend, Place, FindFit, FreshState;
    var h := FreshState(start).h;
    FreshInv(start);
    FreshBlock(start);
    FindFitIs(h, 24);
    assert h.blk[start + 112] == Block(64, false);
    PlaceExact(h, start + 112, 24);
  }

  lemma FreshInv(start: int)
    requires start % 8 == 0 && 8 <= start
    ensures Inv(FreshState(start).h) && LooseInv(FreshState(start).h, {})
  {
    FreshGood(start);
  }

  /** A hundred bytes do not fit into it: the heap grows by 4096 bytes, to 4272 in all, and 100 bytes
      of those are in use. */
  lemma HundredBytes(start: int)
    requires start % 8 == 0 && 8 <= start
    ensures
      var ops := [Alloc(0, 100)];
      && WellFormed(ops, {}, 1) && HighWater(map[], ops) == 100
      && Run(FreshState(start), ops).Some? && Run(FreshState(start), ops).value.h.hi - start == 4272
  {
    hide Inv, LooseInv, Extend, Place, FindFit, FreshState, SegMalloc.Malloc, Live;
    var h := FreshState(start).h;
    var ops := [Alloc(0, 100)];
    assert ops[1..] == [];
    FreshInv(start);
    FreshBlock(start);
    FreshExtent(start);
    FindFitIs(h, 112);
    assert h.blk[start + 112] == Block(64, false);
    MallocInv(h, 100);
    SumEmpty();
    SumUpdate(map[], 0, 100);
  }
}
