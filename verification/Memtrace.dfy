/** The allocation tracer of part3/memtrace.c: running totals and a list of blocks, proved to keep the
    ledger of the run. */
module Memtrace {
  import opened MemList
  import Packing

  datatype LogEntry =
    | LogMalloc(size: nat, ret: int)
    | LogCalloc(nmemb: nat, size: nat, ret: int)
    | LogRealloc(ptr: int, size: nat, ret: int)
    | LogFree(ptr: int)
    | IllegalFree
    | DoubleFree

  /** A call of the traced program; `ret` is what the real allocator answers. */
  datatype Op =
    | Malloc(size: nat, ret: int)
    | Calloc(nmemb: nat, size: nat, ret: int)
    | Realloc(ptr: int, size: nat, ret: int)
    | Free(ptr: int)

  const NULL := 0

  // ---------------------------------------------------------------- the ledger of a run

  /** The live blocks, every address ever handed out, the NULL answers (how many, the size asked for
      in the last one, and in all of them), the bytes allocated and freed, and the log. */
  datatype Ledger = Ledger(live: map<int, nat>, handed: set<int>, nulls: nat, nullSize: nat, failed: int,
                           calls: nat, allocb: int, freeb: int, log: seq<LogEntry>)

  const START := Ledger(map[], {}, 0, 0, 0, 0, 0, 0, [])

  /** The allocator answers with NULL or an address that is not live, and realloc gets a live block. */
  predicate Admissible(l: Ledger, op: Op) {
    match op
    case Malloc(_, ret) => ret !in l.live
    case Calloc(_, _, ret) => ret !in l.live
    case Realloc(ptr, _, ret) => ptr in l.live && (ret == ptr || ret !in l.live)
    case Free(_) => true
  }

  function Product(a: nat, b: nat): nat { a * b }

  /** A call that asked for `size` bytes and got `ret`. A NULL answer is booked like a block at NULL. */
  function Obtain(l: Ledger, ret: int, size: nat, entry: LogEntry): Ledger {
    var booked := l.(calls := l.calls + 1, allocb := l.allocb + size, log := l.log + [entry]);
    if ret == NULL then booked.(nulls := l.nulls + 1, nullSize := size, failed := l.failed + size)
    else booked.(live := l.live[ret := size], handed := l.handed + {ret})
  }

  function Release(l: Ledger, ptr: int): Ledger
    requires ptr in l.live
  {
    l.(live := l.live - {ptr}, freeb := l.freeb + l.live[ptr])
  }

  function Step(l: Ledger, op: Op): Ledger
    requires Admissible(l, op)
  {
    match op
    case Malloc(size, ret) => Obtain(l, ret, size, LogMalloc(size, ret))
    case Calloc(nmemb, size, ret) => Obtain(l, ret, Product(nmemb, size), LogCalloc(nmemb, size, ret))
    case Realloc(ptr, size, ret) =>
      Obtain(Release(l, ptr), ret, size, LogRealloc(ptr, size, ret))
    case Free(ptr) =>
      var logged := l.(log := l.log + [LogFree(ptr)]);
      if ptr in l.live then Release(logged, ptr)
      else logged.(log := logged.log + [if ptr in l.handed then DoubleFree else IllegalFree])
  }

  ghost predicate AdmissibleRun(ops: seq<Op>)
    decreases |ops|, 0
  {
    ops == [] || (AdmissibleRun(ops[..|ops| - 1]) && Admissible(Run(ops[..|ops| - 1]), ops[|ops| - 1]))
  }

  ghost function Run(ops: seq<Op>): Ledger
    requires AdmissibleRun(ops)
    decreases |ops|, 1
  {
    if ops == [] then START else Step(Run(ops[..|ops| - 1]), ops[|ops| - 1])
  }

  lemma {:induction false} PrefixAdmissible(ops: seq<Op>, n: nat)
    requires AdmissibleRun(ops) && n <= |ops|
    ensures AdmissibleRun(ops[..n])
    decreases |ops|
  {
    if n == |ops| {
      assert ops[..n] == ops;
    } else {
      PrefixAdmissible(ops[..|ops| - 1], n);
      assert ops[..|ops| - 1][..n] == ops[..n];
    }
  }

  ghost predicate Consistent(l: Ledger) {
    && l.live.Keys <= l.handed && NULL !in l.handed
    && l.allocb - l.freeb == Packing.Sum(l.live) + l.failed
  }

  lemma StepConsistent(l: Ledger, op: Op)
    requires Consistent(l) && Admissible(l, op)
    ensures Consistent(Step(l, op))
  {
    match op
    case Malloc(size, ret) => ObtainConsistent(l, ret, size, LogMalloc(size, ret));
    case Calloc(nmemb, size, ret) => ObtainConsistent(l, ret, Product(nmemb, size), LogCalloc(nmemb, size, ret));
    case Realloc(ptr, size, ret) =>
      ReleaseConsistent(l, ptr);
      ObtainConsistent(Release(l, ptr), ret, size, LogRealloc(ptr, size, ret));
    case Free(ptr) =>
      if ptr in l.live { ReleaseConsistent(l, ptr); }
  }

  lemma ObtainConsistent(l: Ledger, ret: int, size: nat, entry: LogEntry)
    requires Consistent(l) && ret !in l.live
    ensures Consistent(Obtain(l, ret, size, entry))
  {
    if ret != NULL { Packing.SumUpdate(l.live, ret, size); }
  }

  lemma ReleaseConsistent(l: Ledger, ptr: int)
    requires Consistent(l) && ptr in l.live
    ensures Consistent(Release(l, ptr))
  {
    Packing.SumRemove(l.live, ptr);
  }

  /** The bytes a call asks for. */
  function Asked(op: Op): int {
    match op
    case Malloc(size, _) => size
    case Calloc(nmemb, size, _) => nmemb * size
    case Realloc(_, size, _) => size
    case Free(_) => 0
  }

  function AskedBytes(ops: seq<Op>): int {
    if ops == [] then 0 else AskedBytes(ops[..|ops| - 1]) + Asked(ops[|ops| - 1])
  }

  /** What a call asked for in vain. */
  function Missed(op: Op): int { if op.Free? || op.ret != NULL then 0 else Asked(op) }

  function MissedBytes(ops: seq<Op>): int {
    if ops == [] then 0 else MissedBytes(ops[..|ops| - 1]) + Missed(ops[|ops| - 1])
  }

  /** In every run the bytes allocated are those asked for, and those not freed are the sizes of the
      live blocks and of the requests answered with NULL. */
  lemma {:induction false} LedgerBalances(ops: seq<Op>)
    requires AdmissibleRun(ops)
    ensures Run(ops).allocb == AskedBytes(ops)
    ensures Run(ops).allocb - Run(ops).freeb == Packing.Sum(Run(ops).live) + MissedBytes(ops)
    ensures Consistent(Run(ops)) && Run(ops).failed == MissedBytes(ops)
    decreases |ops|
  {
    if ops != [] {
      LedgerBalances(ops[..|ops| - 1]);
      StepConsistent(Run(ops[..|ops| - 1]), ops[|ops| - 1]);
    }
  }

  /** How many calls of a run were requests, and how many of those were answered with NULL. */
  function Requests(ops: seq<Op>, failed: bool): int {
    if ops == [] then 0 else
    var op := ops[|ops| - 1];
    Requests(ops[..|ops| - 1], failed) + (if !op.Free? && (failed ==> op.ret == NULL) then 1 else 0)
  }

  lemma {:induction false} RequestsCounted(ops: seq<Op>)
    requires AdmissibleRun(ops)
    ensures Run(ops).calls == Requests(ops, false) && Run(ops).nulls == Requests(ops, true)
    decreases |ops|
  {
    if ops != [] { RequestsCounted(ops[..|ops| - 1]); }
  }

  predicate HandsOut(op: Op, p: int) { !op.Free? && op.ret == p && p != NULL }

  predicate TakesBack(op: Op, p: int) { (op.Free? || op.Realloc?) && op.ptr == p }

  /** Position i hands out p and nothing after it takes p back. */
  ghost predicate LastsFrom(ops: seq<Op>, i: int, p: int) {
    && 0 <= i < |ops| && HandsOut(ops[i], p)
    && forall j {:trigger ops[j]} :: i < j < |ops| ==> !TakesBack(ops[j], p) || HandsOut(ops[j], p)
  }

  lemma StepLive(l: Ledger, op: Op, p: int)
    requires Admissible(l, op)
    ensures p in Step(l, op).handed <==> p in l.handed || HandsOut(op, p)
    ensures p in Step(l, op).live <==> HandsOut(op, p) || (p in l.live && !TakesBack(op, p))
  {
  }

  /** An address is known exactly when some call handed it out, and live exactly when nothing took
      it back since. */
  lemma {:induction false} HistoryOf(ops: seq<Op>, p: int)
    requires AdmissibleRun(ops)
    ensures p in Run(ops).handed <==> exists i {:trigger ops[i]} :: 0 <= i < |ops| && HandsOut(ops[i], p)
    ensures p in Run(ops).live <==> exists i {:trigger LastsFrom(ops, i, p)} :: LastsFrom(ops, i, p)
    decreases |ops|
  {
    if ops != [] {
      var n := |ops| - 1;
      var front, op := ops[..n], ops[n];
      HistoryOf(front, p);
      StepLive(Run(front), op, p);
      if p in Run(front).handed {
        var i :| 0 <= i < |front| && HandsOut(front[i], p);
        assert HandsOut(ops[i], p);
      }
      if HandsOut(op, p) {
        assert LastsFrom(ops, n, p);
      } else {
        forall i {:trigger ops[i]} | 0 <= i < |ops| && HandsOut(ops[i], p) ensures p in Run(front).handed {
          assert HandsOut(front[i], p);
        }
        if p in Run(front).live && !TakesBack(op, p) {
          var i :| LastsFrom(front, i, p);
          assert LastsFrom(ops, i, p);
        }
        forall i {:trigger LastsFrom(ops, i, p)} | LastsFrom(ops, i, p)
          ensures p in Run(front).live && !TakesBack(op, p) {
          assert ops[n] == op;
          assert LastsFrom(front, i, p);
        }
      }
    }
  }

  /** Position i hands out p, and later calls neither hand it out again nor take it back. */
  ghost predicate Latest(ops: seq<Op>, i: int, p: int) {
    && 0 <= i < |ops| && HandsOut(ops[i], p)
    && forall j {:trigger ops[j]} :: i < j < |ops| ==> !TakesBack(ops[j], p) && !HandsOut(ops[j], p)
  }

  lemma StepSize(l: Ledger, op: Op, p: int)
    requires Admissible(l, op)
    ensures HandsOut(op, p) ==> p in Step(l, op).live && Step(l, op).live[p] == Asked(op)
    ensures p in l.live && !HandsOut(op, p) && !TakesBack(op, p) ==>
      p in Step(l, op).live && Step(l, op).live[p] == l.live[p]
  {
  }

  /** A live block has the size that the call which last handed it out asked for. */
  lemma {:induction false} SizeOf(ops: seq<Op>, p: int)
    requires AdmissibleRun(ops)
    ensures p in Run(ops).live <==> exists i {:trigger Latest(ops, i, p)} :: Latest(ops, i, p)
    ensures forall i {:trigger Latest(ops, i, p)} :: Latest(ops, i, p) ==>
      p in Run(ops).live && Run(ops).live[p] == Asked(ops[i])
    decreases |ops|
  {
    if ops != [] {
      hide Asked, HandsOut, TakesBack, Admissible, Step;
      var n := |ops| - 1;
      var front, op := ops[..n], ops[n];
      SizeOf(front, p);
      StepLive(Run(front), op, p);
      StepSize(Run(front), op, p);
      if HandsOut(op, p) {
        assert Latest(ops, n, p);
      } else if p in Run(front).live && !TakesBack(op, p) {
        var i :| Latest(front, i, p);
        assert Latest(ops, i, p);
      }
      forall i {:trigger Latest(ops, i, p)} | Latest(ops, i, p)
        ensures p in Run(ops).live && Run(ops).live[p] == Asked(ops[i]) {
        assert ops[n] == op;
        if i < n { assert Latest(front, i, p); }
      }
    }
  }

  /** What a free adds to the log and to the bytes freed after any run. A pointer that no call handed
      out is illegal, one that was taken back since is freed twice, and a live one is freed. */
  lemma FreeLogged(ops: seq<Op>, p: int)
    requires AdmissibleRun(ops)
    ensures
      var all := ops + [Op.Free(p)];
      var known := exists i {:trigger ops[i]} :: 0 <= i < |ops| && HandsOut(ops[i], p);
      var live := exists i {:trigger LastsFrom(ops, i, p)} :: LastsFrom(ops, i, p);
      && AdmissibleRun(all)
      && Run(all).log == Run(ops).log +
           (if live then [LogFree(p)] else if known then [LogFree(p), DoubleFree] else [LogFree(p), IllegalFree])
      && (!live ==> Run(all).freeb == Run(ops).freeb)
      && forall i {:trigger Latest(ops, i, p)} :: Latest(ops, i, p) ==>
           Run(all).freeb == Run(ops).freeb + Asked(ops[i])
  {
    var all := ops + [Op.Free(p)];
    assert all[..|ops|] == ops && all[|ops|] == Op.Free(p);
    HistoryOf(ops, p);
    SizeOf(ops, p);
    hide HandsOut, LastsFrom, Latest, Asked;
  }

  // ---------------------------------------------------------------- the tracer

  /** The list records every address handed out, with count 1 and the right size while it is live, and
      at NULL how often the answer was NULL. */
  ghost predicate Records(items: seq<Block>, l: Ledger) {
    forall p {:trigger RecordsAt(items, l, p)} :: RecordsAt(items, l, p)
  }

  ghost predicate RecordsAt(items: seq<Block>, l: Ledger, p: int) {
    match Lookup(items, p)
    case Missing => p !in l.handed && p !in l.live && (p == NULL ==> l.nulls == 0)
    case Known(b) => if p == NULL then IsNullBlock(l, b) else RecordsKnown(l, b, p)
  }

  ghost predicate IsNullBlock(l: Ledger, b: Block) {
    l.nulls > 0 && b == Block(NULL, l.nullSize, l.nulls)
  }

  ghost predicate RecordsKnown(l: Ledger, b: Block, p: int) {
    p in l.handed && if p in l.live then b == Block(p, l.live[p], 1) else b.cnt == 0
  }

  /** Recording a new block in the list. */
  lemma RecordsObtain(items: seq<Block>, l: Ledger, ret: int, size: nat, entry: LogEntry)
    requires Sorted(items) && Records(items, l) && Consistent(l) && ret !in l.live
    ensures Records(Put(items, Block(ret, size, Count(items, ret) + 1)), Obtain(l, ret, size, entry))
  {
    assert RecordsAt(items, l, ret);
    var b := Block(ret, size, Count(items, ret) + 1);
    forall p ensures RecordsAt(Put(items, b), Obtain(l, ret, size, entry), p) {
      PutLookup(items, b, p);
      assert RecordsAt(items, l, p);
    }
  }

  /** Counting a block down. */
  lemma RecordsRelease(items: seq<Block>, l: Ledger, ptr: int)
    requires Sorted(items) && Records(items, l) && Consistent(l) && ptr in l.live
    ensures Lookup(items, ptr) == Known(Block(ptr, l.live[ptr], 1))
    ensures Records(Put(items, Block(ptr, l.live[ptr], 0)), Release(l, ptr))
  {
    assert RecordsAt(items, l, ptr);
    var b := Block(ptr, l.live[ptr], 0);
    forall p ensures RecordsAt(Put(items, b), Release(l, ptr), p) {
      PutLookup(items, b, p);
      assert RecordsAt(items, l, p);
    }
  }

  /** The blocks that fini reports. */
  function Unfreed(items: seq<Block>): seq<Block> {
    if items == [] then []
    else if items[|items| - 1].cnt != 0 then Unfreed(items[..|items| - 1]) + [items[|items| - 1]]
    else Unfreed(items[..|items| - 1])
  }

  lemma {:induction false} UnfreedMembers(items: seq<Block>)
    ensures forall b :: b in Unfreed(items) <==> b in items && b.cnt != 0
  {
    if items != [] {
      var front := items[..|items| - 1];
      UnfreedMembers(front);
      assert items == front + [items[|items| - 1]];
    }
  }

  lemma {:induction false} UnfreedSorted(items: seq<Block>)
    requires Sorted(items)
    ensures Sorted(Unfreed(items))
  {
    if items != [] {
      var front, last := items[..|items| - 1], items[|items| - 1];
      assert Sorted(front) by {
        forall i, j {:trigger front[i], front[j]} | 0 <= i < j < |front| ensures front[i].ptr < front[j].ptr {
          assert items[i].ptr < items[j].ptr;
        }
      }
      UnfreedSorted(front);
      UnfreedMembers(front);
      if last.cnt != 0 {
        var u := Unfreed(front) + [last];
        forall i, j {:trigger u[i], u[j]} | 0 <= i < j < |u| ensures u[i].ptr < u[j].ptr {
          if j == |u| - 1 {
            assert Unfreed(front)[i] in front;
            var k :| 0 <= k < |front| && front[k] == u[i];
            assert items[k].ptr < items[|items| - 1].ptr;
          } else {
            assert Unfreed(front)[i].ptr < Unfreed(front)[j].ptr;
          }
        }
      }
    }
  }

  /** The blocks not freed: the live ones, and NULL as often as it was answered. */
  ghost predicate NotFreed(l: Ledger, b: Block) {
    (b.ptr in l.live && b == Block(b.ptr, l.live[b.ptr], 1)) || IsNullBlock(l, b)
  }

  /** The report lists exactly those. */
  lemma ReportsLive(items: seq<Block>, l: Ledger, b: Block)
    requires Sorted(items) && Records(items, l) && Consistent(l)
    ensures b in Unfreed(items) <==> NotFreed(l, b)
  {
    UnfreedMembers(items);
    LookupMember(items, b);
    assert RecordsAt(items, l, b.ptr);
    if b.ptr in l.live { LookupMember(items, Block(b.ptr, l.live[b.ptr], 1)); }
    LookupMember(items, Block(NULL, l.nullSize, l.nulls));
  }

  class Tracer {
    const list: List
    var nMalloc: nat
    var nCalloc: nat
    var nRealloc: nat
    var nAllocb: int
    var nFreeb: int
    var log: seq<LogEntry>
    ghost var ledger: Ledger

    ghost predicate Valid()
      reads this, list, list.nodes, list.head
    {
      && list.Valid() && Sorted(list.items) && Records(list.items, ledger) && Consistent(ledger)
      && ledger.calls == nMalloc + nCalloc + nRealloc && ledger.allocb == nAllocb && ledger.freeb == nFreeb &&
        ledger.log == log
    }

    /** init */
    constructor ()
      ensures Valid() && ledger == START && fresh(list) && fresh(list.head) && fresh(list.nodes)
    {
      list := new List();
      nMalloc, nCalloc, nRealloc, nAllocb, nFreeb, log := 0, 0, 0, 0, 0, [];
      ledger := START;
      new;
      assert Packing.Sum(map[]) == 0;
    }

    method Malloc(size: nat, ret: int)
      requires Valid() && Admissible(ledger, Op.Malloc(size, ret))
      modifies this, list, list.nodes, list.head
      ensures Valid() && ledger == Step(old(ledger), Op.Malloc(size, ret)) && OnlyNewNodes()
      ensures nAllocb == old(nAllocb) + size && log == old(log) + [LogMalloc(size, ret)]
    {
      RecordsObtain(list.items, ledger, ret, size, LogMalloc(size, ret));
      StepConsistent(ledger, Op.Malloc(size, ret));
      ObtainTotals(ledger, ret, size, LogMalloc(size, ret));
      hide Records, Consistent, List.Valid, Sorted, Put, Count, Obtain;
      nMalloc := nMalloc + 1;
      nAllocb := nAllocb + size;
      list.Alloc(ret, size);
      log := log + [LogMalloc(size, ret)];
      ledger := Step(ledger, Op.Malloc(size, ret));
    }

    method Calloc(nmemb: nat, size: nat, ret: int)
      requires Valid() && Admissible(ledger, Op.Calloc(nmemb, size, ret))
      modifies this, list, list.nodes, list.head
      ensures Valid() && ledger == Step(old(ledger), Op.Calloc(nmemb, size, ret)) && OnlyNewNodes()
      ensures nAllocb == old(nAllocb) + nmemb * size && log == old(log) + [LogCalloc(nmemb, size, ret)]
      ensures ret != NULL ==> ret in ledger.live && ledger.live[ret] == nmemb * size
    {
      CallocBooked(ledger, nmemb, size, ret);
      RecordsObtain(list.items, ledger, ret, Product(nmemb, size), LogCalloc(nmemb, size, ret));
      StepConsistent(ledger, Op.Calloc(nmemb, size, ret));
      ObtainTotals(ledger, ret, Product(nmemb, size), LogCalloc(nmemb, size, ret));
      hide Records, Consistent, List.Valid, Sorted, Put, Product, Count, Obtain;
      nCalloc := nCalloc + 1;
      nAllocb := nAllocb + Product(nmemb, size);
      list.Alloc(ret, Product(nmemb, size));
      log := log + [LogCalloc(nmemb, size, ret)];
      ledger := Step(ledger, Op.Calloc(nmemb, size, ret));
    }

    /** The branch is taken because the address is listed with a positive count. */
    method Credit(ptr: int)
      requires list.Valid() && Sorted(list.items) && Lookup(list.items, ptr).Known?
      requires Lookup(list.items, ptr).block.cnt > 0
      modifies this`nFreeb
      ensures nFreeb == old(nFreeb) + Lookup(list.items, ptr).block.size
    {
      hide List.Valid, Sorted, Lookup;
      var prev := list.Find(ptr);
      assert prev != null && prev.cnt > 0;
      nFreeb := nFreeb + prev.size;
    }

    method Replace(ptr: int, ret: int, size: nat)
      requires list.Valid() && Sorted(list.items) && Lookup(list.items, ptr).Known?
      modifies list, list.nodes, list.head
      ensures list.Valid() && Sorted(list.items) && OnlyNewNodes()
      ensures var b := Lookup(old(list.items), ptr).block;
        var counted := Put(old(list.items), Block(ptr, b.size, b.cnt - 1));
        list.items == Put(counted, Block(ret, size, Count(counted, ret) + 1))
    {
      hide List.Valid, Sorted, Put, Lookup, Count;
      list.Dealloc(ptr);
      list.Alloc(ret, size);
    }

    /** The branch of realloc for a live block; the block may stay where it is. */
    method Realloc(ptr: int, size: nat, ret: int)
      requires Valid() && Admissible(ledger, Op.Realloc(ptr, size, ret))
      modifies this, list, list.nodes, list.head
      ensures Valid() && ledger == Step(old(ledger), Op.Realloc(ptr, size, ret)) && OnlyNewNodes()
      ensures nAllocb == old(nAllocb) + size && log == old(log) + [LogRealloc(ptr, size, ret)]
    {
      RecordsMoved(list.items, ledger, ptr, size, ret);
      StepConsistent(ledger, Op.Realloc(ptr, size, ret));
      MovedTotals(ledger, ptr, size, ret);
      hide Records, Consistent, List.Valid, Sorted, Put, Lookup, Count, Step, Admissible;
      nRealloc := nRealloc + 1;
      nAllocb := nAllocb + size;
      log := log + [LogRealloc(ptr, size, ret)];
      Credit(ptr);
      Replace(ptr, ret, size);
      ledger := Step(ledger, Op.Realloc(ptr, size, ret));
    }

    /** free: unknown addresses are illegal, known ones that are not live are freed twice. */
    method Free(ptr: int)
      requires Valid()
      modifies this, list, list.nodes
      ensures Valid() && ledger == Step(old(ledger), Op.Free(ptr)) && list.nodes == old(list.nodes)
      ensures log == old(log) +
        (if ptr in old(ledger.live) then [LogFree(ptr)]
         else if ptr in old(ledger.handed) then [LogFree(ptr), DoubleFree] else [LogFree(ptr), IllegalFree])
    {
      RecordsFreed(list.items, ledger, ptr);
      StepConsistent(ledger, Op.Free(ptr));
      hide Records, Consistent, List.Valid, Sorted, Put, Lookup;
      log := log + [LogFree(ptr)];
      var curr := list.Find(ptr);
      if ptr == NULL || curr == null {
        log := log + [IllegalFree];
      } else if curr.cnt <= 0 {
        log := log + [DoubleFree];
      } else {
        nFreeb := nFreeb + curr.size;
        list.Dealloc(ptr);
      }
      ledger := Step(ledger, Op.Free(ptr));
    }

    /** fini: the totals and the blocks never freed, in address order. */
    method Fini() returns (avg: int, allocb: int, freeb: int, report: seq<Block>)
      requires Valid()
      ensures allocb == ledger.allocb && freeb == ledger.freeb
      ensures avg == if ledger.calls > 0 then allocb / ledger.calls else 0
      ensures Sorted(report)
      ensures forall b: Block :: b in report <==> NotFreed(ledger, b)
    {
      avg := 0;
      if nMalloc + nCalloc + nRealloc != 0 { avg := nAllocb / (nMalloc + nCalloc + nRealloc); }
      allocb, freeb, report := nAllocb, nFreeb, [];
      var curr: Item? := list.head;
      ghost var k := -1;
      while curr != null
        invariant -1 <= k <= |list.nodes| && curr == if k < 0 then list.head else list.NodeAt(k)
        invariant report == Unfreed(list.items[..if k < 0 then 0 else k])
        decreases |list.nodes| - k
      {
        if k >= 0 {
          assert list.LinkedAt(k);
          assert list.items[..k + 1][..k] == list.items[..k];
        }
        if curr.cnt != 0 {
          report := report + [Block(curr.ptr, curr.size, curr.cnt)];
        }
        curr := curr.next;
        k := k + 1;
      }
      assert list.items[..|list.items|] == list.items;
      UnfreedSorted(list.items);
      forall b: Block ensures b in report <==> NotFreed(ledger, b) {
        ReportsLive(list.items, ledger, b);
      }
    }

    method Do(op: Op)
      requires Valid() && Admissible(ledger, op)
      modifies this, list, list.nodes, list.head
      ensures Valid() && ledger == Step(old(ledger), op) && OnlyNewNodes()
    {
      hide Valid, Admissible, Step;
      match op
      case Malloc(size, ret) => Malloc(size, ret);
      case Calloc(nmemb, size, ret) => Calloc(nmemb, size, ret);
      case Realloc(ptr, size, ret) => Realloc(ptr, size, ret);
      case Free(ptr) => Free(ptr);
    }

    /** A whole run of the traced program. */
    method Trace(ops: seq<Op>)
      requires Valid() && ledger == START && AdmissibleRun(ops)
      modifies this, list, list.nodes, list.head
      ensures Valid() && ledger == Run(ops)
    {
      for i := 0 to |ops|
        invariant AdmissibleRun(ops[..i]) && Valid() && ledger == Run(ops[..i]) && OnlyNewNodes()
      {
        PrefixAdmissible(ops, i + 1);
        assert ops[..i + 1][..i] == ops[..i];
        forall k | 0 <= k < |list.nodes| ensures list.nodes[k] in old(list.nodes) || fresh(list.nodes[k]) {
          assert list.nodes[k] in list.nodes;
        }
        Do(ops[i]);
      }
      assert ops[..|ops|] == ops;
    }

    twostate predicate OnlyNewNodes()
      reads this, list
    {
      forall n :: n in list.nodes ==> n in old(list.nodes) || fresh(n)
    }
  }

  lemma CallocBooked(l: Ledger, nmemb: nat, size: nat, ret: int)
    requires Admissible(l, Op.Calloc(nmemb, size, ret))
    ensures
      var m := Step(l, Op.Calloc(nmemb, size, ret));
      && Product(nmemb, size) == nmemb * size && m.allocb == l.allocb + nmemb * size
      && (ret != NULL ==> ret in m.live && m.live[ret] == nmemb * size)
  {
  }

  lemma ObtainTotals(l: Ledger, ret: int, size: nat, entry: LogEntry)
    ensures
      var m := Obtain(l, ret, size, entry);
      m.calls == l.calls + 1 && m.allocb == l.allocb + size && m.freeb == l.freeb && m.log == l.log + [entry]
  {
  }

  lemma MovedTotals(l: Ledger, ptr: int, size: nat, ret: int)
    requires Admissible(l, Op.Realloc(ptr, size, ret))
    ensures
      var m := Step(l, Op.Realloc(ptr, size, ret));
      && m.calls == l.calls + 1 && m.allocb == l.allocb + size && m.freeb == l.freeb + l.live[ptr]
      && m.log == l.log + [LogRealloc(ptr, size, ret)]
  {
  }

  /** What realloc does to the list. */
  lemma RecordsMoved(items: seq<Block>, l: Ledger, ptr: int, size: nat, ret: int)
    requires Sorted(items) && Records(items, l) && Consistent(l) && Admissible(l, Op.Realloc(ptr, size, ret))
    ensures Lookup(items, ptr) == Known(Block(ptr, l.live[ptr], 1))
    ensures var counted := Put(items, Block(ptr, l.live[ptr], 0));
      Sorted(counted) && Records(Put(counted, Block(ret, size, Count(counted, ret) + 1)), Step(l, Op.Realloc(ptr,
        size, ret)))
  {
    RecordsRelease(items, l, ptr);
    ReleaseConsistent(l, ptr);
    PutSorted(items, Block(ptr, l.live[ptr], 0));
    RecordsObtain(Put(items, Block(ptr, l.live[ptr], 0)), Release(l, ptr), ret, size, LogRealloc(ptr, size, ret));
  }

  /** What free finds in the list, and what it leaves there. */
  lemma RecordsFreed(items: seq<Block>, l: Ledger, ptr: int)
    requires Sorted(items) && Records(items, l) && Consistent(l)
    ensures var m := Step(l, Op.Free(ptr));
      match Lookup(items, ptr)
      case Missing => ptr !in l.live && ptr !in l.handed && Records(items, m)
      case Known(b) =>
        if ptr == NULL then ptr !in l.live && ptr !in l.handed && Records(items, m)
        else if b.cnt <= 0 then ptr !in l.live && ptr in l.handed && Records(items, m)
        else ptr in l.live && b == Block(ptr, l.live[ptr], 1)
             && Records(Put(items, Block(ptr, b.size, b.cnt - 1)), m)
  {
    assert RecordsAt(items, l, ptr);
    var m := Step(l, Op.Free(ptr));
    if ptr in l.live {
      RecordsRelease(items, l, ptr);
      RecordsLogged(Put(items, Block(ptr, l.live[ptr], 0)), Release(l, ptr), m);
    } else {
      RecordsLogged(items, l, m);
    }
  }

  ghost predicate SameBlocks(l: Ledger, m: Ledger) {
    l.live == m.live && l.handed == m.handed && l.nulls == m.nulls && l.nullSize == m.nullSize
  }

  /** The list does not record the log. */
  lemma RecordsLogged(items: seq<Block>, l: Ledger, m: Ledger)
    requires Records(items, l)
    ensures SameBlocks(l, m) ==> Records(items, m)
  {
    if SameBlocks(l, m) {
      forall p ensures RecordsAt(items, m, p) { assert RecordsAt(items, l, p); }
    }
  }
}
