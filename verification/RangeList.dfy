/** The list of payload extents that mdriver.c keeps to detect overlaps. */
module RangeList {

  /** lo and hi are the first and last byte of a payload. */
  datatype Range = Range(lo: int, hi: int)

  class Node {
    var lo: int
    var hi: int
    var next: Node?

    constructor (lo: int, hi: int, next: Node?)
      ensures this.lo == lo && this.hi == hi && this.next == next
    {
      this.lo, this.hi, this.next := lo, hi, next;
    }
  }

  /** The overlap test of add_range: an end of [lo, hi] falls inside r. */
  predicate Clashes(r: Range, lo: int, hi: int) {
    (r.lo <= lo <= r.hi) || (r.lo <= hi <= r.hi)
  }

  /** add_range accepts a payload that is aligned, inside the heap and clashes with no other. */
  predicate Acceptable(ranges: seq<Range>, lo: int, size: int, heapLo: int, heapHi: int) {
    var hi := lo + size - 1;
    && lo % 8 == 0 && heapLo <= lo <= heapHi && heapLo <= hi <= heapHi
    && forall r :: r in ranges ==> !Clashes(r, lo, hi)
  }

  /** The test does not see a new range that encloses an old one. */
  lemma EnclosingRangeIsAccepted()
    ensures Acceptable([Range(16, 23)], 8, 40, 0, 100)
  {
  }

  /** For ranges that enclose none of the recorded ones the test is exact. */
  lemma ClashIsOverlap(r: Range, lo: int, hi: int)
    requires r.lo <= r.hi && lo <= hi
    ensures Clashes(r, lo, hi) || (lo < r.lo && r.hi < hi) <==> exists x {:trigger Common(r, lo, hi, x)} ::
      Common(r, lo, hi, x)
  {
    if Clashes(r, lo, hi) || (lo < r.lo && r.hi < hi) {
      var x := if r.lo <= lo then lo else r.lo;
      assert Common(r, lo, hi, x);
    }
  }

  predicate Common(r: Range, lo: int, hi: int, x: int) {
    lo <= x <= hi && r.lo <= x <= r.hi
  }

  /** A payload is accepted exactly when it is aligned to 8 bytes, inside the heap, and every recorded
      range is apart from it or enclosed by it. */
  lemma AcceptedExactly(ranges: seq<Range>, lo: int, size: int, heapLo: int, heapHi: int)
    requires size > 0 && forall r :: r in ranges ==> r.lo <= r.hi
    ensures Acceptable(ranges, lo, size, heapLo, heapHi) <==>
      && lo % 8 == 0 && heapLo <= lo && lo + size - 1 <= heapHi
      && forall r :: r in ranges ==>
           (forall x {:trigger Common(r, lo, lo + size - 1, x)} :: !Common(r, lo, lo + size - 1, x))
           || (lo < r.lo && r.hi < lo + size - 1)
  {
    forall r | r in ranges
      ensures Clashes(r, lo, lo + size - 1) || (lo < r.lo && r.hi < lo + size - 1) <==>
        exists x {:trigger Common(r, lo, lo + size - 1, x)} :: Common(r, lo, lo + size - 1, x) {
      ClashIsOverlap(r, lo, lo + size - 1);
    }
  }

  /** ranges without the first one that starts at lo. */
  function Dropped(ranges: seq<Range>, lo: int): seq<Range> {
    if ranges == [] then []
    else if ranges[0].lo == lo then ranges[1..]
    else [ranges[0]] + Dropped(ranges[1..], lo)
  }

  ghost predicate DistinctStarts(ranges: seq<Range>) {
    forall i, j :: 0 <= i < j < |ranges| ==> ranges[i].lo != ranges[j].lo
  }

  lemma {:induction false} DroppedMembers(ranges: seq<Range>, lo: int)
    requires DistinctStarts(ranges)
    ensures DistinctStarts(Dropped(ranges, lo))
    ensures forall r :: r in Dropped(ranges, lo) <==> r in ranges && r.lo != lo
  {
    if ranges != [] {
      var rest := ranges[1..];
      assert ranges == [ranges[0]] + rest;
      DroppedMembers(rest, lo);
      if ranges[0].lo != lo {
        assert forall r :: r in Dropped(ranges, lo) <==> r == ranges[0] || r in Dropped(rest, lo);
      }
    }
  }

  class Ranges {
    var head: Node?
    ghost var nodes: seq<Node>
    ghost var contents: seq<Range>

    ghost function NodeAt(i: int): Node?
      reads this
    {
      if 0 <= i < |nodes| then nodes[i] else null
    }

    ghost predicate LinkedAt(i: int)
      requires 0 <= i < |nodes| == |contents|
      reads this, nodes
    {
      contents[i] == Range(nodes[i].lo, nodes[i].hi) && nodes[i].next == NodeAt(i + 1)
    }

    ghost predicate Valid()
      reads this, nodes
    {
      && |nodes| == |contents| && head == NodeAt(0)
      && (forall i, j {:trigger nodes[i], nodes[j]} :: 0 <= i < j < |nodes| ==> nodes[i] != nodes[j])
      && (forall i {:trigger LinkedAt(i)} :: 0 <= i < |nodes| ==> LinkedAt(i))
    }

    constructor ()
      ensures Valid() && contents == [] && nodes == []
    {
      head, nodes, contents := null, [], [];
    }

    /** clear_ranges */
    method Clear()
      requires Valid()
      modifies this
      ensures Valid() && contents == [] && nodes == []
    {
      var p := head;
      ghost var i := 0;
      while p != null
        invariant 0 <= i <= |nodes| && p == NodeAt(i)
        decreases |nodes| - i
      {
        assert LinkedAt(i);
        p := p.next;
        i := i + 1;
      }
      head, nodes, contents := null, [], [];
    }

    /** The overlap loop of add_range. */
    method FindClash(lo: int, hi: int) returns (found: bool)
      requires Valid()
      ensures found <==> exists r :: r in contents && Clashes(r, lo, hi)
    {
      var p := head;
      ghost var i := 0;
      while p != null
        invariant 0 <= i <= |nodes| && p == NodeAt(i)
        invariant forall j :: 0 <= j < i ==> !Clashes(contents[j], lo, hi)
        decreases |nodes| - i
      {
        assert LinkedAt(i);
        if (lo >= p.lo && lo <= p.hi) || (hi >= p.lo && hi <= p.hi) {
          assert contents[i] in contents;
          return true;
        }
        p := p.next;
        i := i + 1;
      }
      found := false;
    }

    method Prepend(lo: int, hi: int)
      requires Valid()
      modifies this
      ensures Valid() && contents == [Range(lo, hi)] + old(contents)
      ensures forall n :: n in nodes ==> n in old(nodes) || fresh(n)
    {
      var p := new Node(lo, hi, head);
      ghost var nodes0, contents0 := nodes, contents;
      head, nodes, contents := p, [p] + nodes, [Range(lo, hi)] + contents;
      forall i {:trigger LinkedAt(i)} | 0 <= i < |nodes| ensures LinkedAt(i) {
        assert i > 0 ==> old(LinkedAt(i - 1));
      }
    }

    /** add_range */
    method Add(lo: int, size: int, heapLo: int, heapHi: int) returns (ok: bool)
      requires Valid() && size > 0
      modifies this
      ensures Valid() && (ok <==> Acceptable(old(contents), lo, size, heapLo, heapHi))
      ensures contents == if ok then [Range(lo, lo + size - 1)] + old(contents) else old(contents)
      ensures forall n :: n in nodes ==> n in old(nodes) || fresh(n)
    {
      var hi := lo + size - 1;
      if lo % 8 != 0 { return false; }
      if lo < heapLo || lo > heapHi || hi < heapLo || hi > heapHi { return false; }
      var clash := FindClash(lo, hi);
      if clash { return false; }
      Prepend(lo, hi);
      ok := true;
    }

    /** The search loop of remove_range. */
    method Find(lo: int) returns (prev: Node?, p: Node?, ghost i: nat)
      requires Valid()
      ensures i <= |nodes| && p == NodeAt(i) && prev == NodeAt(i - 1)
      ensures Dropped(contents, lo) == contents[..i] + (if i < |nodes| then contents[i + 1..] else [])
    {
      prev, p, i := null, head, 0;
      while p != null && p.lo != lo
        invariant 0 <= i <= |nodes| && p == NodeAt(i) && prev == NodeAt(i - 1)
        invariant Dropped(contents, lo) == contents[..i] + Dropped(contents[i..], lo)
        decreases |nodes| - i
      {
        assert LinkedAt(i);
        DroppedStep(contents, lo, i);
        prev := p;
        p := p.next;
        i := i + 1;
      }
      if p != null {
        assert LinkedAt(i);
        assert contents[i..][1..] == contents[i + 1..];
      }
    }

    method Unlink(prev: Node?, p: Node, ghost i: nat)
      requires Valid() && i < |nodes| && p == nodes[i] && prev == NodeAt(i - 1)
      modifies this, nodes
      ensures Valid() && contents == old(contents)[..i] + old(contents)[i + 1..]
      ensures nodes == old(nodes)[..i] + old(nodes)[i + 1..]
    {
      assert LinkedAt(i);
      assert i > 0 ==> LinkedAt(i - 1);
      if prev == null { head := p.next; } else { prev.next := p.next; }
      nodes, contents := nodes[..i] + nodes[i + 1..], contents[..i] + contents[i + 1..];
      forall j {:trigger LinkedAt(j)} | 0 <= j < |nodes| ensures LinkedAt(j) {
        assert old(LinkedAt(if j < i then j else j + 1));
      }
    }

    /** remove_range */
    method Remove(lo: int)
      requires Valid()
      modifies this, nodes
      ensures Valid() && contents == Dropped(old(contents), lo)
      ensures forall n :: n in nodes ==> n in old(nodes)
    {
      var prev, p, i := Find(lo);
      if p != null { Unlink(prev, p, i); }
    }
  }

  lemma DroppedStep(ranges: seq<Range>, lo: int, i: nat)
    requires i < |ranges| && ranges[i].lo != lo
    requires Dropped(ranges, lo) == ranges[..i] + Dropped(ranges[i..], lo)
    ensures Dropped(ranges, lo) == ranges[..i + 1] + Dropped(ranges[i + 1..], lo)
  {
    assert ranges[i..][1..] == ranges[i + 1..];
    assert ranges[..i] + [ranges[i]] == ranges[..i + 1];
  }
}
