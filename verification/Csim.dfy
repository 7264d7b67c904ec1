/** The cache simulator of csim.c: lines with a valid bit, a tag and an age counter, proved to count
    what the recency lists of CacheTrace count. */
module Csim {
  import opened Basics
  import opened Lru
  import opened CacheTrace

  datatype Line = Line(valid: bool, counter: int, tag: int)

  /** `who` lists the valid lines of a set from the most to the least recently used. */
  ghost predicate RowOk(row: seq<Line>, who: seq<int>) {
    && |who| <= |row|
    && (forall i {:trigger row[i]} :: 0 <= i < |row| ==> (row[i].valid <==> i < |who|))
    && (forall i {:trigger row[i]} :: 0 <= i < |who| ==> row[i].counter >= 0)
    && (forall i {:trigger i in who} :: 0 <= i < |who| ==> i in who)
    && (forall k {:trigger who[k]} :: 0 <= k < |who| ==> 0 <= who[k] < |who|)
    && (forall j, k {:trigger who[j], who[k]} :: 0 <= j < k < |who| ==> row[who[j]].counter < row[who[k]].counter)
    && (forall i, j {:trigger row[i], row[j]} :: 0 <= i < j < |who| ==> row[i].tag != row[j].tag)
  }

  /** The tags of a set, most recent first. */
  ghost function Recency(row: seq<Line>, who: seq<int>): seq<int>
    requires forall k {:trigger who[k]} :: 0 <= k < |who| ==> 0 <= who[k] < |row|
  {
    seq(|who|, k requires 0 <= k < |who| => row[who[k]].tag)
  }

  /** What the loop over the lines does to a valid line. */
  function Aged(l: Line, tag: int): Line {
    Line(l.valid, if l.tag == tag then 0 else l.counter + 1, l.tag)
  }

  /** The row after its first n lines, all valid, have been visited. */
  ghost predicate AgedUpTo(row: seq<Line>, row': seq<Line>, tag: int, n: int) {
    && |row'| == |row| && 0 <= n <= |row|
    && (forall i {:trigger row'[i]} :: 0 <= i < n ==> row'[i] == Aged(row[i], tag))
    && (forall i {:trigger row'[i]} :: n <= i < |row| ==> row'[i] == row[i])
  }

  /** Line v becomes or stays the most recent one, all other valid lines age. */
  ghost predicate Renewed(row: seq<Line>, row': seq<Line>, v: int, tag: int, n: int) {
    && |row'| == |row| && 0 <= v < n <= |row|
    && row'[v] == Line(true, 0, tag)
    && (forall i {:trigger row'[i]} ::
      0 <= i < n && i != v ==> row'[i] == Line(row[i].valid, row[i].counter + 1, row[i].tag))
    && (forall i {:trigger row'[i]} :: n <= i < |row| ==> row'[i] == row[i])
  }

  function Front(s: seq<int>, p: nat, x: int): seq<int>
    requires p < |s|
  {
    [x] + s[..p] + s[p + 1..]
  }

  lemma RecencyDistinct(row: seq<Line>, who: seq<int>)
    requires RowOk(row, who)
    ensures Distinct(Recency(row, who))
    ensures forall i {:trigger row[i]} :: 0 <= i < |who| ==> row[i].tag in Recency(row, who)
  {
    var s := Recency(row, who);
    forall j, k | 0 <= j < k < |s| ensures s[j] != s[k] {
      assert row[who[j]].counter < row[who[k]].counter;
    }
    forall i {:trigger row[i]} | 0 <= i < |who| ensures row[i].tag in s {
      assert i in who;
      var k :| 0 <= k < |who| && who[k] == i;
      assert s[k] == row[i].tag;
    }
  }

  /** Where the k-th entry of a list was before entry p moved to the front. */
  function Before(k: nat, p: nat): nat { if k == 0 then p else if k <= p then k - 1 else k }

  lemma FrontAt(s: seq<int>, p: nat, x: int, k: nat)
    requires p < |s| && k < |s|
    ensures |Front(s, p, x)| == |s| && Before(k, p) < |s|
    ensures Front(s, p, x)[k] == if k == 0 then x else s[Before(k, p)]
  {
  }

  lemma FrontMembers(who: seq<int>, p: nat, i: int)
    requires p < |who| && i in who
    ensures i in Front(who, p, who[p])
  {
    var k :| 0 <= k < |who| && who[k] == i;
    FrontAt(who, p, who[p], if k == p then 0 else if k < p then k + 1 else k);
  }

  lemma PromoteOrder(row: seq<Line>, who: seq<int>, p: nat, tag: int, row': seq<Line>, j: nat, k: nat)
    requires RowOk(row, who) && p < |who| && Renewed(row, row', who[p], tag, |who|)
    requires j < k < |who|
    ensures var who' := Front(who, p, who[p]);
      0 <= who'[j] < |row'| && 0 <= who'[k] < |row'| && row'[who'[j]].counter < row'[who'[k]].counter
  {
    FrontAt(who, p, who[p], j);
    FrontAt(who, p, who[p], k);
    Elsewhere(row, who, p, Before(k, p));
    if j > 0 { Elsewhere(row, who, p, Before(j, p)); }
  }

  /** Different places of the recency order hold different lines. */
  lemma Elsewhere(row: seq<Line>, who: seq<int>, p: nat, k: nat)
    requires RowOk(row, who) && p < |who| && k < |who| && k != p
    ensures who[k] != who[p]
  {
    if k < p {
      assert row[who[k]].counter < row[who[p]].counter;
    } else {
      assert row[who[p]].counter < row[who[k]].counter;
    }
  }

  lemma PromoteRecency(row: seq<Line>, who: seq<int>, p: nat, tag: int, row': seq<Line>, k: nat)
    requires RowOk(row, who) && p < |who| && Renewed(row, row', who[p], tag, |who|) && k < |who|
    ensures var who' := Front(who, p, who[p]);
      0 <= who'[k] < |who| && row'[who'[k]].tag == Front(Recency(row, who), p, tag)[k]
  {
    FrontAt(who, p, who[p], k);
    FrontAt(Recency(row, who), p, tag, k);
    if k > 0 { Elsewhere(row, who, p, Before(k, p)); }
  }

  /** A line already in the set moves to the front, possibly with a new tag. */
  lemma Promote(row: seq<Line>, who: seq<int>, p: nat, tag: int, row': seq<Line>)
    requires RowOk(row, who) && p < |who| && Renewed(row, row', who[p], tag, |who|)
    requires forall i {:trigger row[i]} :: 0 <= i < |who| && i != who[p] ==> row[i].tag != tag
    ensures RowOk(row', Front(who, p, who[p]))
    ensures Recency(row', Front(who, p, who[p])) == Front(Recency(row, who), p, tag)
  {
    hide Front;
    var who' := Front(who, p, who[p]);
    FrontAt(who, p, who[p], 0);
    FrontAt(Recency(row, who), p, tag, 0);
    forall k {:trigger who'[k]} | 0 <= k < |who'|
      ensures 0 <= who'[k] < |who'| && row'[who'[k]].tag == Front(Recency(row, who), p, tag)[k] {
      PromoteRecency(row, who, p, tag, row', k);
    }
    forall i {:trigger i in who'} | 0 <= i < |who'| ensures i in who' {
      assert i in who;
      FrontMembers(who, p, i);
    }
    forall j, k {:trigger who'[j], who'[k]} | 0 <= j < k < |who'|
      ensures row'[who'[j]].counter < row'[who'[k]].counter {
      PromoteOrder(row, who, p, tag, row', j, k);
    }
    forall i, j {:trigger row'[i], row'[j]} | 0 <= i < j < |who'| ensures row'[i].tag != row'[j].tag {
      assert row[i].tag != row[j].tag;
    }
  }

  lemma FillOrder(row: seq<Line>, who: seq<int>, tag: int, row': seq<Line>, j: nat, k: nat)
    requires RowOk(row, who) && Renewed(row, row', |who|, tag, |who| + 1) && j < k <= |who|
    ensures var who' := [|who|] + who;
      0 <= who'[j] <= |who| && 0 <= who'[k] <= |who| && row'[who'[j]].counter < row'[who'[k]].counter
  {
    assert row[who[k - 1]].counter >= 0;
    if j > 0 { assert row[who[j - 1]].counter < row[who[k - 1]].counter; }
  }

  /** The first invalid line is filled. */
  lemma Fill(row: seq<Line>, who: seq<int>, tag: int, row': seq<Line>)
    requires RowOk(row, who) && Renewed(row, row', |who|, tag, |who| + 1)
    requires forall i {:trigger row[i]} :: 0 <= i < |who| ==> row[i].tag != tag
    ensures RowOk(row', [|who|] + who)
    ensures Recency(row', [|who|] + who) == [tag] + Recency(row, who)
  {
    var who' := [|who|] + who;
    forall i {:trigger row'[i]} | 0 <= i < |who'| ensures row'[i].counter >= 0 {
      if i < |who| { assert row[i].counter >= 0; }
    }
    forall i {:trigger i in who'} | 0 <= i < |who'| ensures i in who' {
      if i < |who| { assert i in who; } else { assert who'[0] == i; }
    }
    forall j, k {:trigger who'[j], who'[k]} | 0 <= j < k < |who'|
      ensures row'[who'[j]].counter < row'[who'[k]].counter {
      FillOrder(row, who, tag, row', j, k);
    }
    forall i, j {:trigger row'[i], row'[j]} | 0 <= i < j < |who'| ensures row'[i].tag != row'[j].tag {
      if j < |who| { assert row[i].tag != row[j].tag; }
    }
  }

  lemma {:induction false} RemoveAt(s: seq<int>, p: nat)
    requires Distinct(s) && p < |s|
    ensures Remove(s, s[p]) == s[..p] + s[p + 1..]
  {
    if p > 0 {
      assert s == [s[0]] + s[1..];
      DistinctCons(s[0], s[1..]);
      RemoveAt(s[1..], p - 1);
    }
  }

  lemma TouchAt(s: seq<int>, p: nat, e: nat)
    requires Distinct(s) && p < |s|
    ensures Touch(s, s[p], e) == Front(s, p, s[p])
  {
    hide Distinct, Remove;
    RemoveAt(s, p);
    assert Touch(s, s[p], e) == [s[p]] + (s[..p] + s[p + 1..]);
  }

  /** A hit moves the tag to the front of the recency list. */
  lemma HitIsTouch(row: seq<Line>, who: seq<int>, v: nat, tag: int, row': seq<Line>) returns (who': seq<int>)
    requires RowOk(row, who) && v < |who| && row[v].tag == tag && AgedUpTo(row, row', tag, |who|)
    ensures RowOk(row', who') && tag in Recency(row, who)
    ensures Recency(row', who') == Touch(Recency(row, who), tag, |row|)
  {
    hide Touch, Front;
    assert v in who;
    var p :| 0 <= p < |who| && who[p] == v;
    who' := Front(who, p, v);
    RecencyDistinct(row, who);
    assert Recency(row, who)[p] == tag;
    TouchAt(Recency(row, who), p, |row|);
    forall i {:trigger row[i]} | 0 <= i < |who| && i != v ensures row[i].tag != tag { assert row[v].tag == tag; }
    Promote(row, who, p, tag, row');
  }

  /** A miss in a set with room fills a line. */
  lemma FillIsTouch(row: seq<Line>, who: seq<int>, tag: int, row': seq<Line>) returns (who': seq<int>)
    requires RowOk(row, who) && Renewed(row, row', |who|, tag, |who| + 1)
    requires forall i {:trigger row[i]} :: 0 <= i < |who| ==> row[i].tag != tag
    ensures RowOk(row', who') && tag !in Recency(row, who)
    ensures Recency(row', who') == Touch(Recency(row, who), tag, |row|)
  {
    who' := [|who|] + who;
    Fill(row, who, tag, row');
  }

  /** A miss in a full set replaces the line with the largest counter: the least recently used one. */
  lemma EvictIsTouch(row: seq<Line>, who: seq<int>, v: nat, tag: int, row': seq<Line>) returns (who': seq<int>)
    requires RowOk(row, who) && |who| == |row| > 0 && Renewed(row, row', v, tag, |who|)
    requires forall i {:trigger row[i]} :: 0 <= i < |who| ==> row[i].tag != tag && row[i].counter <= row[v].counter
    ensures RowOk(row', who') && tag !in Recency(row, who)
    ensures row[v].tag == Recency(row, who)[|who| - 1]
    ensures Recency(row', who') == Touch(Recency(row, who), tag, |row|)
  {
    assert v in who;
    var p :| 0 <= p < |who| && who[p] == v;
    assert who[|who| - 1] < |who|;
    assert row[who[|who| - 1]].counter <= row[v].counter;
    who' := Front(who, p, v);
    Promote(row, who, p, tag, row');
  }

  // ---------------------------------------------------------------- the program

  ghost predicate Hit(row: seq<Line>, tag: int, n: int) {
    exists i {:trigger row[i]} :: 0 <= i < n <= |row| && row[i].tag == tag
  }

  /** Line v has the largest counter among the first n. */
  ghost predicate Oldest(row: seq<Line>, n: int, v: int) {
    0 <= v < n <= |row| && forall i {:trigger row[i]} :: 0 <= i < n ==> row[i].counter <= row[v].counter
  }

  /** The first n lines are the valid ones, with distinct tags. */
  ghost predicate Prefix(row: seq<Line>, n: int) {
    && 0 <= n <= |row|
    && (forall i {:trigger row[i]} :: 0 <= i < |row| ==> (row[i].valid <==> i < n) && (i < n ==> row[i].counter >= 0))
    && (forall i, j {:trigger row[i], row[j]} :: 0 <= i < j < n ==> row[i].tag != row[j].tag)
  }

  ghost predicate AllInvalid(row: seq<Line>) {
    forall i {:trigger row[i]} :: 0 <= i < |row| ==> !row[i].valid
  }

  class Simulator {
    const g: Geometry
    const cache: seq<array<Line>>
    var hits: int
    var misses: int
    var evictions: int
    ghost var who: seq<seq<int>>

    ghost predicate Valid()
      reads this, cache
    {
      && g.e > 0 && |cache| == Sets(g) == |who|
      && (forall k {:trigger cache[k]} :: 0 <= k < |cache| ==> cache[k].Length == g.e && RowOk(cache[k][..], who[k]))
      && (forall j, k {:trigger cache[j], cache[k]} :: 0 <= j < k < |cache| ==> cache[j] != cache[k])
    }

    /** The recency list of set k. */
    ghost function List(k: nat): seq<int>
      requires Valid() && k < |who|
      reads this, cache
    {
      assert cache[k].Length == g.e;
      Recency(cache[k][..], who[k])
    }

    /** The simulation as recency lists and totals. */
    ghost function Sim(): (sim: Sim)
      requires Valid()
      reads this, cache
    {
      CacheTrace.Sim(seq(|who|, k requires 0 <= k < |who| && Valid() reads this, cache => List(k)),
                     Counts(hits, misses, evictions))
    }

    /** init_cache, with every line invalid. */
    constructor (g: Geometry)
      requires g.e > 0
      ensures Valid() && fresh(set l | l in cache) && this.g == g
      ensures Sim() == Empty(g)
    {
      this.g := g;
      var rows: seq<array<Line>> := [];
      for i := 0 to Sets(g)
        invariant |rows| == i
        invariant forall k {:trigger rows[k]} ::
          0 <= k < i ==> fresh(rows[k]) && rows[k].Length == g.e && AllInvalid(rows[k][..])
        invariant forall j, k {:trigger rows[j], rows[k]} :: 0 <= j < k < i ==> rows[j] != rows[k]
      {
        var row := new Line[g.e](_ => Line(false, 0, 0));
        rows := rows + [row];
      }
      cache := rows;
      hits, misses, evictions := 0, 0, 0;
      who := seq(Sets(g), _ => []);
      new;
      assert Sim().lists == Empty(g).lists;
    }

    /** The first invalid line takes the new tag. */
    method FillLine(lines: array<Line>, i: nat, tag: nat)
      requires i < lines.Length
      modifies lines
      ensures lines[..] == old(lines[..])[i := Line(true, 0, tag)]
    {
      lines[i] := lines[i].(valid := true);
      lines[i] := lines[i].(counter := 0);
      lines[i] := lines[i].(tag := tag);
    }

    /** One valid line: on a match its counter restarts, else it grows. */
    method AgeLine(lines: array<Line>, i: nat, tag: nat) returns (found: bool)
      requires i < lines.Length
      modifies lines
      ensures found <==> old(lines[i]).tag == tag
      ensures lines[..] == old(lines[..])[i := Aged(old(lines[i]), tag)]
    {
      found := lines[i].tag == tag;
      if found {
        lines[i] := lines[i].(counter := -1);
      }
      lines[i] := lines[i].(counter := lines[i].counter + 1);
    }

    /** The loop over the lines of a set: ages the valid ones, looks for the tag, fills the first
        invalid line on a miss. */
    method VisitLines(lines: array<Line>, tag: nat, id: char, ghost v: nat)
      returns (isHit: bool, emptyIndex: nat, lruIndex: nat, ghost filled: bool)
      requires lines.Length > 0 && Prefix(lines[..], v)
      modifies lines, this`hits, this`misses
      ensures var row, m := old(lines[..]), if id == 'M' then 1 else 0;
        if filled then
          && v < |row| && !Hit(row, tag, v) && isHit
          && Renewed(row, lines[..], v, tag, v + 1) && hits == old(hits) + m && misses == old(misses) + 1
        else
          && AgedUpTo(row, lines[..], tag, v) && emptyIndex == v && (isHit <==> Hit(row, tag, v))
          && (isHit || v == |row|) && Oldest(lines[..], v, lruIndex)
          && hits == old(hits) + (if isHit then 1 + m else 0) && misses == old(misses)
    {
      ghost var row := lines[..];
      isHit, emptyIndex, lruIndex, filled := false, 0, 0, false;
      var largest := -1;
      var i := 0;
      while i < lines.Length
        invariant 0 <= i <= lines.Length && emptyIndex == if i < v then i else v
        invariant AgedUpTo(row, lines[..], tag, emptyIndex)
        invariant isHit <==> Hit(row, tag, emptyIndex)
        invariant i > v ==> isHit
        invariant emptyIndex == 0 ==> largest == -1
        invariant emptyIndex > 0 ==> Oldest(lines[..], emptyIndex, lruIndex) && lines[lruIndex].counter == largest
        invariant hits == old(hits) + (if isHit then 1 + (if id == 'M' then 1 else 0) else 0) && misses == old(misses)
      {
        assert row[i].valid <==> i < v;
        if lines[i].valid {
          var found := AgeLine(lines, i, tag);
          if found {
            hits := hits + 1;
            if id == 'M' { hits := hits + 1; }
            isHit := true;
          }
          emptyIndex := emptyIndex + 1;
          if largest < lines[i].counter {
            largest := lines[i].counter;
            lruIndex := i;
          }
        } else if !isHit {
          FillLine(lines, emptyIndex, tag);
          misses := misses + 1;
          if id == 'M' { hits := hits + 1; }
          isHit := true;
          filled := true;
          break;
        }
        i := i + 1;
      }
    }

    /** The least recently used line of a full set is replaced. */
    method Evict(lines: array<Line>, v: nat, tag: nat, id: char, ghost row: seq<Line>, ghost w: seq<int>)
      returns (ghost w': seq<int>)
      requires RowOk(row, w) && |w| == |row| > 0
      requires AgedUpTo(row, lines[..], tag, |w|) && !Hit(row, tag, |w|) && Oldest(lines[..], |w|, v)
      modifies lines, this`hits, this`misses, this`evictions
      ensures RowOk(lines[..], w') && tag !in Recency(row, w)
      ensures Recency(lines[..], w') == Touch(Recency(row, w), tag, |row|)
      ensures hits == old(hits) + (if id == 'M' then 1 else 0) && misses == old(misses) + 1 &&
        evictions == old(evictions) + 1
    {
      ghost var aged := lines[..];
      misses := misses + 1;
      lines[v] := lines[v].(tag := tag);
      lines[v] := lines[v].(counter := 0);
      evictions := evictions + 1;
      if id == 'M' { hits := hits + 1; }
      EvictFits(row, w, aged, v, tag, lines[..]);
      w' := EvictIsTouch(row, w, v, tag, lines[..]);
    }

    /** One access to a set is one access to its recency list. */
    method AccessSet(lines: array<Line>, tag: nat, id: char, ghost w: seq<int>) returns (ghost w': seq<int>)
      requires lines.Length > 0 && RowOk(lines[..], w)
      modifies lines, this`hits, this`misses, this`evictions
      ensures RowOk(lines[..], w')
      ensures var l, m := old(Recency(lines[..], w)), if id == 'M' then 1 else 0;
        && Recency(lines[..], w') == Touch(l, tag, lines.Length)
        && Counts(hits, misses, evictions) ==
          Count(old(Counts(hits, misses, evictions)), tag in l, |l| >= lines.Length, m)
    {
      ghost var row := lines[..];
      RecencyDistinct(row, w);
      var isHit, emptyIndex, lruIndex, filled := VisitLines(lines, tag, id, |w|);
      if filled {
        w' := FillIsTouch(row, w, tag, lines[..]);
      } else if isHit {
        ghost var v :| 0 <= v < |w| && row[v].tag == tag;
        w' := HitIsTouch(row, w, v, tag, lines[..]);
      }
      if !isHit && emptyIndex == lines.Length {
        w' := Evict(lines, lruIndex, tag, id, row, w);
      }
    }

    /** One line of the trace does what one access to a recency list does. */
    method Access(it: Item)
      requires Valid()
      modifies this, cache
      ensures Valid() && Sim() == Step(g, old(Sim()), it)
    {
      hide Sets, SetOf, TagOf, RowOk, Touch;
      if !IsData(it) { return; }
      var setIndex, tag := SetOf(g, it.addr), TagOf(g, it.addr);
      ghost var l, lists := List(setIndex), Sim().lists;
      ghost var w' := AccessSet(cache[setIndex], tag, it.id, who[setIndex]);
      who := who[setIndex := w'];
      assert Valid();
      assert Sim().lists == lists[setIndex := Touch(l, tag, g.e)];
    }

    /** The main loop: the totals printed are those of the recency lists, so the misses are the accesses
        whose block is not there and the hits are the others and the store half of every modify. */
    method Run(trace: seq<Item>)
      requires Valid() && Sim() == Empty(g)
      modifies this, cache
      ensures Valid() && Sim() == Simulate(g, trace)
      ensures hits == |Positions(g, trace, true)| + Lines(trace, 'M') && misses == |Positions(g, trace, false)|
    {
      assert trace[..0] == [];
      for i := 0 to |trace|
        invariant Valid() && Sim() == Simulate(g, trace[..i])
      {
        Access(trace[i]);
        assert trace[..i + 1][..i] == trace[..i];
      }
      assert trace[..|trace|] == trace;
      CountsAre(g, trace);
    }
  }

  lemma EvictFits(row: seq<Line>, who: seq<int>, aged: seq<Line>, v: nat, tag: int, row': seq<Line>)
    requires RowOk(row, who) && |who| == |row| > 0 && AgedUpTo(row, aged, tag, |who|) && !Hit(row, tag, |who|)
    requires Oldest(aged, |who|, v) && row' == aged[v := Line(aged[v].valid, 0, tag)]
    ensures Renewed(row, row', v, tag, |who|)
    ensures forall i {:trigger row[i]} :: 0 <= i < |who| ==> row[i].tag != tag && row[i].counter <= row[v].counter
  {
    forall i {:trigger row[i]} | 0 <= i < |who| ensures row[i].tag != tag && row[i].counter <= row[v].counter {
      assert aged[i] == Aged(row[i], tag) && aged[i].counter <= aged[v].counter;
    }
    forall i {:trigger row'[i]} | 0 <= i < |who| && i != v
      ensures row'[i] == Line(row[i].valid, row[i].counter + 1, row[i].tag) {
      assert aged[i] == Aged(row[i], tag);
    }
    assert row[v].valid;
  }
}
