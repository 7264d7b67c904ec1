/** What csim.c has to count: a cache of 2^s recency lists of at most E tags each. */
module CacheTrace {
  import opened Basics
  import opened Lru

  /** One line of a trace file: an operation and an address. */
  datatype Item = Item(id: char, addr: nat)

  datatype Geometry = Geometry(s: nat, e: nat, b: nat)

  /** csim skips instruction loads. */
  predicate IsData(it: Item) { it.id != 'I' && it.id != ' ' }

  function Sets(g: Geometry): (n: nat)
    ensures n > 0
  {
    Pow2(g.s)
  }

  function BlockOf(g: Geometry, addr: nat): nat {
    DivNat(addr, Pow2(g.b));
    addr / Pow2(g.b)
  }

  function SetOf(g: Geometry, addr: nat): (k: nat)
    ensures k < Sets(g)
  {
    ModNat(BlockOf(g, addr), Sets(g));
    BlockOf(g, addr) % Sets(g)
  }

  function TagOf(g: Geometry, addr: nat): nat {
    DivNat(addr, Pow2(g.b + g.s));
    addr / Pow2(g.b + g.s)
  }

  lemma DivNat(a: nat, n: nat)
    requires n > 0
    ensures a / n >= 0
  {
  }

  lemma ModNat(a: nat, n: nat)
    requires n > 0
    ensures 0 <= a % n < n
  {
  }

  lemma {:induction false} Pow2Sum(a: nat, b: nat)
    ensures Pow2(a + b) == Pow2(a) * Pow2(b)
  {
    if a > 0 {
      Pow2Sum(a - 1, b);
      assert 2 * (Pow2(a - 1) * Pow2(b)) == 2 * Pow2(a - 1) * Pow2(b);
    }
  }

  lemma Regroup(m: int, n: int, q: int, r: int)
    ensures m * (n * q + r) == (m * n) * q + m * r
  {
    assert m * (n * q + r) == m * (n * q) + m * r;
    assert m * (n * q) == (m * n) * q;
  }

  lemma NestedRemainder(m: int, n: int, r: int, r': int)
    requires 0 <= r < n && 0 <= r' < m
    ensures 0 <= m * r + r' < m * n && m * n > 0
  {
    var d := n - 1 - r;
    assert m * d >= 0;
    assert m * n == m * (d + r + 1) == m * d + m * r + m;
    assert m * r >= 0;
  }

  lemma DivTwice(a: nat, m: int, n: int)
    requires m > 0 && n > 0
    ensures m * n > 0 && a / (m * n) == a / m / n
  {
    var u := a / m;
    var q := u / n;
    DivMod(a, m);
    DivMod(u, n);
    Combine(a, m, n, u, q, u % n, a % m);
  }

  lemma Combine(a: int, m: int, n: int, u: int, q: int, r: int, r': int)
    requires m > 0 && n > 0 && a == m * u + r' && u == n * q + r && 0 <= r < n && 0 <= r' < m
    ensures m * n > 0 && a / (m * n) == q
  {
    Regroup(m, n, q, r);
    NestedRemainder(m, n, r, r');
    Quotient(a, m * n, q, m * r + r');
  }

  /** The low b bits of an address are the offset in its block, the next s bits the set, the rest the
      tag: nothing else makes the sum come out. */
  lemma AddressParts(g: Geometry, addr: nat)
    ensures
      var m, n := Pow2(g.b), Pow2(g.s);
      && BlockOf(g, addr) * m <= addr < BlockOf(g, addr) * m + m
      && BlockOf(g, addr) == TagOf(g, addr) * n + SetOf(g, addr) && 0 <= SetOf(g, addr) < n
  {
    var m, n := Pow2(g.b), Pow2(g.s);
    Pow2Sum(g.b, g.s);
    DivTwice(addr, m, n);
    DivMod(addr, m);
    DivMod(addr / m, n);
    assert m * (addr / m) == (addr / m) * m && n * (addr / m / n) == (addr / m / n) * n;
  }

  lemma SameParts(n: int, q: int, k: int, q': int, k': int)
    requires 0 <= k < n && 0 <= k' < n
    ensures q * n + k == q' * n + k' <==> q == q' && k == k'
  {
    if q * n + k == q' * n + k' {
      Quotient(q * n + k, n, q, k);
      Quotient(q' * n + k', n, q', k');
    }
  }

  /** Set index and tag together identify the block. */
  lemma SameBlock(g: Geometry, x: nat, y: nat)
    ensures SetOf(g, x) == SetOf(g, y) && TagOf(g, x) == TagOf(g, y) <==> BlockOf(g, x) == BlockOf(g, y)
  {
    AddressParts(g, x);
    AddressParts(g, y);
    hide SetOf, TagOf, BlockOf, Pow2;
    SameParts(Pow2(g.s), TagOf(g, x), SetOf(g, x), TagOf(g, y), SetOf(g, y));
  }

  // ---------------------------------------------------------------- the reference simulation

  datatype Counts = Counts(hits: int, misses: int, evictions: int)

  datatype Sim = Sim(lists: seq<seq<int>>, counts: Counts)

  function Weight(it: Item): int { if it.id == 'M' then 1 else 0 }

  /** A modify is a load followed by a store that hits. */
  function Count(c: Counts, hit: bool, full: bool, m: int): Counts {
    if hit then Counts(c.hits + 1 + m, c.misses, c.evictions)
    else Counts(c.hits + m, c.misses + 1, c.evictions + (if full then 1 else 0))
  }

  function Step(g: Geometry, sim: Sim, it: Item): Sim
    requires |sim.lists| == Sets(g)
  {
    if !IsData(it) then sim else
    var k := SetOf(g, it.addr);
    var x := TagOf(g, it.addr);
    var l := sim.lists[k];
    Sim(sim.lists[k := Touch(l, x, g.e)], Count(sim.counts, x in l, |l| >= g.e, Weight(it)))
  }

  function Empty(g: Geometry): Sim { Sim(seq(Sets(g), _ => []), Counts(0, 0, 0)) }

  function Simulate(g: Geometry, trace: seq<Item>): (sim: Sim)
    ensures |sim.lists| == Sets(g)
    decreases |trace|
  {
    if trace == [] then Empty(g) else Step(g, Simulate(g, trace[..|trace| - 1]), trace[|trace| - 1])
  }

  /** The tags of the data accesses that go to set k. */
  function TagsOf(g: Geometry, trace: seq<Item>, k: nat): seq<int>
    decreases |trace|
  {
    if trace == [] then [] else
    var it := trace[|trace| - 1];
    var front := TagsOf(g, trace[..|trace| - 1], k);
    if IsData(it) && SetOf(g, it.addr) == k then front + [TagOf(g, it.addr)] else front
  }

  /** Each set sees only its own accesses. */
  lemma {:induction false} SetsAreIndependent(g: Geometry, trace: seq<Item>, k: nat)
    requires k < Sets(g)
    ensures Simulate(g, trace).lists[k] == LruList(TagsOf(g, trace, k), g.e)
    decreases |trace|
  {
    if trace != [] {
      var front, it := trace[..|trace| - 1], trace[|trace| - 1];
      SetsAreIndependent(g, front, k);
      var ts := TagsOf(g, front, k);
      assert (ts + [TagOf(g, it.addr)])[..|ts|] == ts;
    }
  }

  lemma {:induction false} TagsOfConcat(g: Geometry, t: seq<Item>, u: seq<Item>, k: nat)
    ensures TagsOf(g, t + u, k) == TagsOf(g, t, k) + TagsOf(g, u, k)
    decreases |u|
  {
    if u == [] {
      assert t + u == t;
    } else {
      var front := u[..|u| - 1];
      TagsOfConcat(g, t, front, k);
      assert (t + u)[..|t + u| - 1] == t + front;
      assert (t + u)[|t + u| - 1] == u[|u| - 1];
    }
  }

  // ---------------------------------------------------------------- reuse distance in a trace

  ghost predicate Hits(g: Geometry, trace: seq<Item>, addr: nat) {
    TagOf(g, addr) in Simulate(g, trace).lists[SetOf(g, addr)]
  }

  /** Position p of the trace accesses the block of addr. */
  ghost predicate Accesses(g: Geometry, trace: seq<Item>, p: int, addr: nat) {
    && 0 <= p < |trace| && trace[p].id != 'I' && trace[p].id != ' '
    && BlockOf(g, trace[p].addr) == BlockOf(g, addr)
  }

  /** Position k of the trace accesses another block of addr's set. */
  ghost predicate Competes(g: Geometry, trace: seq<Item>, k: int, addr: nat) {
    && 0 <= k < |trace| && trace[k].id != 'I' && trace[k].id != ' '
    && SetOf(g, trace[k].addr) == SetOf(g, addr) && BlockOf(g, trace[k].addr) != BlockOf(g, addr)
  }

  /** The tags of the other blocks of addr's set accessed after position p. */
  ghost function OthersSince(g: Geometry, trace: seq<Item>, p: int, addr: nat): set<int>
  {
    set k {:trigger Competes(g, trace, k, addr)} | p < k < |trace| && Competes(g, trace, k, addr) ::
      TagOf(g, trace[k].addr)
  }

  /** They are the other tags in the set's stream from there on. */
  lemma OthersInStream(g: Geometry, trace: seq<Item>, p: int, addr: nat)
    requires 0 <= p < |trace|
    ensures OthersSince(g, trace, p, addr) ==
      Elements(TagsOf(g, trace[p + 1..], SetOf(g, addr))) - {TagOf(g, addr)}
  {
    hide SetOf, TagOf, BlockOf;
    var u := trace[p + 1..];
    var ts := TagsOf(g, u, SetOf(g, addr));
    forall y | y in ts && y != TagOf(g, addr) ensures y in OthersSince(g, trace, p, addr) {
      var q :| 0 <= q < |ts| && ts[q] == y;
      var j := TracePosition(g, u, SetOf(g, addr), q);
      SameBlock(g, u[j].addr, addr);
      assert trace[p + 1 + j] == u[j];
      assert Competes(g, trace, p + 1 + j, addr);
    }
    forall k {:trigger Competes(g, trace, k, addr)} | p < k < |trace| && Competes(g, trace, k, addr)
      ensures TagOf(g, trace[k].addr) in ts && TagOf(g, trace[k].addr) != TagOf(g, addr) {
      SameBlock(g, trace[k].addr, addr);
      assert u[k - p - 1] == trace[k];
      TagOfAccess(g, u, k - p - 1);
    }
  }

  lemma {:induction false} TagOfAccess(g: Geometry, trace: seq<Item>, p: nat)
    requires p < |trace| && IsData(trace[p])
    ensures TagOf(g, trace[p].addr) in TagsOf(g, trace, SetOf(g, trace[p].addr))
    decreases |trace|
  {
    hide SetOf, TagOf;
    if p < |trace| - 1 { TagOfAccess(g, trace[..|trace| - 1], p); }
  }

  /** Where the access at trace position p shows up in its set's stream. */
  lemma StreamPosition(g: Geometry, trace: seq<Item>, p: int, addr: nat) returns (q: nat)
    requires Accesses(g, trace, p, addr)
    ensures q == |TagsOf(g, trace[..p], SetOf(g, addr))|
    ensures
      var ts := TagsOf(g, trace, SetOf(g, addr));
      q < |ts| && ts[q] == TagOf(g, addr) && Others(ts, q, TagOf(g, addr)) == OthersSince(g, trace, p, addr)
  {
    var k, x := SetOf(g, addr), TagOf(g, addr);
    SameBlock(g, trace[p].addr, addr);
    var t, u := trace[..p], trace[p + 1..];
    assert trace == t + [trace[p]] + u;
    TagsOfConcat(g, t + [trace[p]], u, k);
    assert (t + [trace[p]])[..p] == t;
    var front, rest := TagsOf(g, t, k), TagsOf(g, u, k);
    q := |front|;
    var ts := TagsOf(g, trace, k);
    assert ts == front + [x] + rest;
    StreamOthers(front, x, rest);
    OthersInStream(g, trace, p, addr);
  }

  lemma StreamOthers(front: seq<int>, x: int, rest: seq<int>)
    ensures Others(front + [x] + rest, |front|, x) == Elements(rest) - {x}
  {
    var ts := front + [x] + rest;
    forall y | y in rest && y != x ensures y in Others(ts, |front|, x) {
      var j :| 0 <= j < |rest| && rest[j] == y;
      assert ts[|front| + 1 + j] == y;
    }
  }

  /** And back: every occurrence in the stream comes from an access of the trace. */
  lemma {:induction false} TracePosition(g: Geometry, trace: seq<Item>, k: nat, q: nat) returns (p: nat)
    requires q < |TagsOf(g, trace, k)|
    ensures p < |trace| && IsData(trace[p]) && SetOf(g, trace[p].addr) == k
    ensures TagOf(g, trace[p].addr) == TagsOf(g, trace, k)[q] && |TagsOf(g, trace[..p], k)| == q
    decreases |trace|
  {
    var front := trace[..|trace| - 1];
    if q < |TagsOf(g, front, k)| {
      p := TracePosition(g, front, k, q);
      assert front[..p] == trace[..p];
    } else {
      p := |trace| - 1;
    }
  }

  /** Reuse distance: an access hits exactly when its block was accessed before and fewer than E
      other blocks of its set were accessed since. */
  lemma HitsByReuseDistance(g: Geometry, trace: seq<Item>, addr: nat)
    requires g.e > 0
    ensures Hits(g, trace, addr) <==>
      exists p {:trigger Accesses(g, trace, p, addr)} ::
        Accesses(g, trace, p, addr) && |OthersSince(g, trace, p, addr)| < g.e
  {
    var k, x := SetOf(g, addr), TagOf(g, addr);
    var ts := TagsOf(g, trace, k);
    SetsAreIndependent(g, trace, k);
    ReuseDistance(ts, g.e, x);
    if Hits(g, trace, addr) {
      var q :| 0 <= q < |ts| && ts[q] == x && |Others(ts, q, x)| < g.e;
      var p := TracePosition(g, trace, k, q);
      SameBlock(g, trace[p].addr, addr);
      assert Accesses(g, trace, p, addr);
      var q' := StreamPosition(g, trace, p, addr);
      assert q' == q;
    }
    forall p {:trigger Accesses(g, trace, p, addr)} | Accesses(g, trace, p, addr) &&
      |OthersSince(g, trace, p, addr)| < g.e
      ensures Hits(g, trace, addr) {
      var q := StreamPosition(g, trace, p, addr);
    }
  }

  // ---------------------------------------------------------------- totals

  function DataCount(trace: seq<Item>): int {
    if trace == [] then 0 else
    var it := trace[|trace| - 1];
    DataCount(trace[..|trace| - 1]) + (if IsData(it) then 1 + Weight(it) else 0)
  }

  function TotalLength(lists: seq<seq<int>>): nat {
    if lists == [] then 0 else |lists[0]| + TotalLength(lists[1..])
  }

  lemma {:induction false} TotalLengthUpdate(lists: seq<seq<int>>, k: nat, l: seq<int>)
    requires k < |lists|
    ensures TotalLength(lists[k := l]) == TotalLength(lists) - |lists[k]| + |l|
  {
    if k > 0 {
      assert lists[k := l][1..] == lists[1..][k - 1 := l];
      TotalLengthUpdate(lists[1..], k - 1, l);
    } else {
      assert lists[k := l][1..] == lists[1..];
    }
  }

  lemma {:induction false} TotalLengthBound(lists: seq<seq<int>>, e: nat)
    requires forall l :: l in lists ==> |l| <= e
    ensures TotalLength(lists) <= e * |lists|
  {
    if lists != [] {
      assert lists[0] in lists;
      TotalLengthBound(lists[1..], e);
      assert e * |lists| == e * |lists[1..]| + e;
    }
  }

  lemma {:induction false} RemoveLength(s: seq<int>, x: int)
    requires x in s
    ensures |Remove(s, x)| == |s| - 1
  {
    if s[0] != x { RemoveLength(s[1..], x); }
  }

  lemma TouchLength(s: seq<int>, x: int, e: nat)
    requires e > 0 && |s| <= e
    ensures |Touch(s, x, e)| == if x in s || |s| == e then |s| else |s| + 1
  {
    if x in s { RemoveLength(s, x); }
  }

  lemma EmptyBalance(g: Geometry)
    ensures TotalLength(Empty(g).lists) == 0 <= g.e * Sets(g)
  {
    TotalLengthBound(Empty(g).lists, 0);
    ProductNat(g.e, Sets(g));
  }

  lemma ProductNat(a: nat, b: nat)
    ensures a * b >= 0
  {
  }

  lemma BalanceStep(g: Geometry, sim: Sim, it: Item)
    requires g.e > 0 && |sim.lists| == Sets(g) && (forall l :: l in sim.lists ==> |l| <= g.e)
    ensures
      var next := Step(g, sim, it);
      && next.counts.hits + next.counts.misses ==
        sim.counts.hits + sim.counts.misses + (if IsData(it) then 1 + Weight(it) else 0)
      && next.counts.misses - next.counts.evictions - TotalLength(next.lists)
         == sim.counts.misses - sim.counts.evictions - TotalLength(sim.lists)
      && (forall l :: l in next.lists ==> |l| <= g.e)
  {
    if IsData(it) {
      var k, x := SetOf(g, it.addr), TagOf(g, it.addr);
      assert sim.lists[k] in sim.lists;
      hide SetOf, TagOf, Sets, Touch;
      TouchLength(sim.lists[k], x, g.e);
      TotalLengthUpdate(sim.lists, k, Touch(sim.lists[k], x, g.e));
    }
  }

  /** Every access is counted once, modifies twice, and misses fill lines or evict. */
  lemma {:induction false} CountsBalance(g: Geometry, trace: seq<Item>)
    requires g.e > 0
    ensures
      var sim := Simulate(g, trace);
      && sim.counts.hits + sim.counts.misses == DataCount(trace)
      && sim.counts.misses - sim.counts.evictions == TotalLength(sim.lists) <= g.e * Sets(g)
      && (forall l :: l in sim.lists ==> |l| <= g.e)
    decreases |trace|
  {
    if trace == [] {
      EmptyBalance(g);
    } else {
      var front, it := trace[..|trace| - 1], trace[|trace| - 1];
      CountsBalance(g, front);
      BalanceStep(g, Simulate(g, front), it);
      hide Step, TotalLength;
      TotalLengthBound(Simulate(g, trace).lists, g.e);
    }
  }

  /** Position p of the trace accesses data, and hits or misses. */
  ghost predicate Outcome(g: Geometry, trace: seq<Item>, p: int, hit: bool) {
    0 <= p < |trace| && trace[p].id != 'I' && trace[p].id != ' ' && (Hits(g, trace[..p], trace[p].addr) <==> hit)
  }

  ghost function Positions(g: Geometry, trace: seq<Item>, hit: bool): set<int> {
    set p | 0 <= p < |trace| && Outcome(g, trace, p, hit)
  }

  /** How many lines of the trace have the id. */
  function Lines(trace: seq<Item>, id: char): int {
    if trace == [] then 0 else Lines(trace[..|trace| - 1], id) + (if trace[|trace| - 1].id == id then 1 else 0)
  }

  /** What the program prints: the misses are the accesses whose block is not there, the hits are the
      others and the store half of every modify. */
  lemma {:induction false} CountsAre(g: Geometry, trace: seq<Item>)
    ensures
      var c := Simulate(g, trace).counts;
      c.hits == |Positions(g, trace, true)| + Lines(trace, 'M') && c.misses == |Positions(g, trace, false)|
    decreases |trace|
  {
    if trace != [] {
      var n := |trace| - 1;
      CountsAre(g, trace[..n]);
      OneLineMore(g, trace, true);
      OneLineMore(g, trace, false);
      hide Hits, SetOf, TagOf, Touch;
      assert Hits(g, trace[..n], trace[n].addr) <==>
        TagOf(g, trace[n].addr) in Simulate(g, trace[..n]).lists[SetOf(g, trace[n].addr)] by {
        HitsHere(g, trace[..n], trace[n].addr);
      }
    }
  }

  lemma HitsHere(g: Geometry, trace: seq<Item>, addr: nat)
    ensures Hits(g, trace, addr) <==> TagOf(g, addr) in Simulate(g, trace).lists[SetOf(g, addr)]
  {
  }

  lemma OneLineMore(g: Geometry, trace: seq<Item>, hit: bool)
    requires trace != []
    ensures
      var n := |trace| - 1;
      |Positions(g, trace, hit)| == |Positions(g, trace[..n], hit)| + (if Outcome(g, trace, n, hit) then 1 else 0)
  {
    hide Outcome;
    var n := |trace| - 1;
    forall p | 0 <= p < n ensures Outcome(g, trace[..n], p, hit) <==> Outcome(g, trace, p, hit) {
      SameOutcome(g, trace, n, p, hit);
    }
    assert Positions(g, trace, hit) ==
      Positions(g, trace[..n], hit) + (if Outcome(g, trace, n, hit) then {n} else {});
  }

  lemma SameOutcome(g: Geometry, trace: seq<Item>, n: nat, p: nat, hit: bool)
    requires p < n <= |trace|
    ensures Outcome(g, trace[..n], p, hit) <==> Outcome(g, trace, p, hit)
  {
    assert trace[..n][..p] == trace[..p];
  }

  /** Loads and stores count once, modifies twice, instruction loads not at all. */
  lemma {:induction false} LinesCounted(g: Geometry, trace: seq<Item>)
    requires g.e > 0 && forall it :: it in trace ==> it.id == 'I' || it.id == 'L' || it.id == 'S' || it.id == 'M'
    ensures
      var c := Simulate(g, trace).counts;
      c.hits + c.misses == Lines(trace, 'L') + Lines(trace, 'S') + 2 * Lines(trace, 'M')
    decreases |trace|
  {
    if trace != [] {
      var front, it := trace[..|trace| - 1], trace[|trace| - 1];
      LinesCounted(g, front);
      CountsBalance(g, front);
      BalanceStep(g, Simulate(g, front), it);
      assert it in trace;
      hide Step;
    }
  }

  // ---------------------------------------------------------------- more lines never hurt

  function Wider(g: Geometry): Geometry { Geometry(g.s, g.e + 1, g.b) }

  /** The contents of a cache with E lines per set are part of those with E + 1 lines. */
  lemma WiderHoldsMore(g: Geometry, trace: seq<Item>, k: nat, x: int)
    requires g.e > 0 && k < Sets(g) && x in Simulate(g, trace).lists[k]
    ensures x in Simulate(Wider(g), trace).lists[k]
  {
    SetsAreIndependent(g, trace, k);
    SetsAreIndependent(Wider(g), trace, k);
    SameStreams(g, trace, k);
    Inclusion(TagsOf(g, trace, k), g.e, x);
  }

  lemma {:induction false} SameStreams(g: Geometry, trace: seq<Item>, k: nat)
    ensures TagsOf(Wider(g), trace, k) == TagsOf(g, trace, k)
    decreases |trace|
  {
    if trace != [] {
      SameStreams(g, trace[..|trace| - 1], k);
      assert SetOf(Wider(g), trace[|trace| - 1].addr) == SetOf(g, trace[|trace| - 1].addr);
    }
  }

  /** A full set with one line more means a full set. */
  lemma WiderFull(g: Geometry, trace: seq<Item>, k: nat)
    requires g.e > 0 && k < Sets(g) && |Simulate(Wider(g), trace).lists[k]| >= g.e + 1
    ensures |Simulate(g, trace).lists[k]| >= g.e
  {
    SetsAreIndependent(g, trace, k);
    SetsAreIndependent(Wider(g), trace, k);
    SameStreams(g, trace, k);
    LruIsTopOfStack(TagsOf(g, trace, k), g.e);
    LruIsTopOfStack(TagsOf(g, trace, k), g.e + 1);
  }

  /** As E grows, hits never decrease and misses and evictions never increase. */
  lemma {:induction false} WiderCounts(g: Geometry, trace: seq<Item>)
    requires g.e > 0
    ensures
      var c, w := Simulate(g, trace).counts, Simulate(Wider(g), trace).counts;
      c.hits <= w.hits && w.misses <= c.misses && w.evictions <= c.evictions
    decreases |trace|
  {
    if trace != [] {
      var front, it := trace[..|trace| - 1], trace[|trace| - 1];
      WiderCounts(g, front);
      if IsData(it) {
        var k, x := SetOf(g, it.addr), TagOf(g, it.addr);
        assert SetOf(Wider(g), it.addr) == k && TagOf(Wider(g), it.addr) == x;
        if x in Simulate(g, front).lists[k] { WiderHoldsMore(g, front, k, x); }
        if |Simulate(Wider(g), front).lists[k]| >= g.e + 1 { WiderFull(g, front, k); }
      }
    }
  }
}
