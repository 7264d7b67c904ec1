/** Recency lists: what an LRU set of E lines is supposed to do, and its stack theory. */
module Lru {
  import opened Basics

  function Remove(s: seq<int>, x: int): seq<int> {
    if s == [] then [] else if s[0] == x then s[1..] else [s[0]] + Remove(s[1..], x)
  }

  /** One access to an E-line set; the list holds its tags, most recent first. */
  function Touch(s: seq<int>, x: int, e: nat): seq<int> {
    if x in s then [x] + Remove(s, x)
    else if |s| < e then [x] + s
    else if e == 0 then [] else [x] + s[..e - 1]
  }

  /** The list after the accesses `ts`. */
  function LruList(ts: seq<int>, e: nat): seq<int> {
    if ts == [] then [] else Touch(LruList(ts[..|ts| - 1], e), ts[|ts| - 1], e)
  }

  /** All tags ever accessed, most recent first. */
  function Stack(ts: seq<int>): seq<int> {
    if ts == [] then [] else
    var x := ts[|ts| - 1];
    [x] + Remove(Stack(ts[..|ts| - 1]), x)
  }

  function Take(s: seq<int>, e: nat): seq<int> {
    if e < |s| then s[..e] else s
  }

  lemma DistinctCons(a: int, s: seq<int>)
    ensures Distinct([a] + s) <==> Distinct(s) && a !in s
  {
    var t := [a] + s;
    if Distinct(t) {
      forall i, j | 0 <= i < j < |s| ensures s[i] != s[j] { assert s[i] == t[i + 1] && s[j] == t[j + 1]; }
      forall i | 0 <= i < |s| ensures s[i] != a { assert s[i] == t[i + 1] && t[0] == a; }
    }
    if Distinct(s) && a !in s {
      forall i, j | 0 <= i < j < |t|
        ensures t[i] != t[j] { assert t[j] == s[j - 1]; assert i > 0 ==> t[i] == s[i - 1]; }
    }
  }

  lemma {:induction false} RemoveMembers(s: seq<int>, x: int)
    requires Distinct(s)
    ensures Distinct(Remove(s, x))
    ensures forall y :: y in Remove(s, x) <==> y in s && y != x
    ensures |Remove(s, x)| == if x in s then |s| - 1 else |s|
  {
    if s != [] {
      assert s == [s[0]] + s[1..];
      DistinctCons(s[0], s[1..]);
      RemoveMembers(s[1..], x);
      if s[0] != x { DistinctCons(s[0], Remove(s[1..], x)); }
    }
  }

  lemma TakeCons(a: int, s: seq<int>, e: nat)
    requires e > 0
    ensures Take([a] + s, e) == [a] + Take(s, e - 1)
  {
  }

  /** Removing x commutes with cutting the list, as long as x is in the part that stays. */
  lemma {:induction false} TakeRemove(s: seq<int>, x: int, e: nat)
    requires Distinct(s) && e > 0
    ensures Take(Remove(s, x), e - 1) == if x in Take(s, e) then Remove(Take(s, e), x) else Take(s, e - 1)
  {
    if s == [] {
    } else {
      var a, rest := s[0], s[1..];
      assert s == [a] + rest;
      DistinctCons(a, rest);
      TakeCons(a, rest, e);
      if a == x {
        assert Take(s, e)[1..] == Take(rest, e - 1);
      } else if e > 1 {
        TakeRemove(rest, x, e - 1);
        TakeCons(a, Remove(rest, x), e - 1);
        TakeCons(a, rest, e - 1);
        RemoveCons(a, Take(rest, e - 1), x);
        assert x in Take(s, e) <==> x in Take(rest, e - 1);
      }
    }
  }

  lemma RemoveCons(a: int, s: seq<int>, x: int)
    requires a != x
    ensures Remove([a] + s, x) == [a] + Remove(s, x)
  {
    assert ([a] + s)[1..] == s;
  }

  lemma {:induction false} StackDistinct(ts: seq<int>)
    ensures Distinct(Stack(ts))
    ensures forall y :: y in Stack(ts) <==> y in ts
  {
    if ts != [] {
      var front, x := ts[..|ts| - 1], ts[|ts| - 1];
      assert ts == front + [x];
      StackDistinct(front);
      RemoveMembers(Stack(front), x);
    }
  }

  /** Stack property: an E-line set always holds the E most recent tags. */
  lemma {:induction false} LruIsTopOfStack(ts: seq<int>, e: nat)
    requires e > 0
    ensures LruList(ts, e) == Take(Stack(ts), e)
  {
    if ts != [] {
      var front, x := ts[..|ts| - 1], ts[|ts| - 1];
      var s := Stack(front);
      LruIsTopOfStack(front, e);
      StackDistinct(front);
      TakeRemove(s, x, e);
      assert Take([x] + Remove(s, x), e) == [x] + Take(Remove(s, x), e - 1);
      RemoveMembers(s, x);
      if x !in Take(s, e) && |s| < e { NotThere(s, x); }
    }
  }

  lemma {:induction false} NotThere(s: seq<int>, x: int)
    requires x !in s
    ensures Remove(s, x) == s
  {
    if s != [] { NotThere(s[1..], x); }
  }

  /** Inclusion: what E lines hold, E + 1 lines hold too. */
  lemma Inclusion(ts: seq<int>, e: nat, x: int)
    requires e > 0 && x in LruList(ts, e)
    ensures x in LruList(ts, e + 1)
  {
    LruIsTopOfStack(ts, e);
    LruIsTopOfStack(ts, e + 1);
    var s := Stack(ts);
    var i :| 0 <= i < |Take(s, e)| && Take(s, e)[i] == x;
    assert Take(s, e + 1)[i] == x;
  }

  // ---------------------------------------------------------------- reuse distance

  /** The tags other than x accessed after position p. */
  ghost function Others(ts: seq<int>, p: int, x: int): set<int> {
    set k | p < k < |ts| && 0 <= k && ts[k] != x :: ts[k]
  }

  ghost function Elements(s: seq<int>): set<int> {
    set x | x in s
  }

  lemma ElementsCons(a: int, s: seq<int>)
    ensures Elements([a] + s) == {a} + Elements(s)
  {
  }

  lemma {:induction false} DistinctCount(s: seq<int>)
    requires Distinct(s)
    ensures |Elements(s)| == |s|
  {
    if s != [] {
      var front, x := s[..|s| - 1], s[|s| - 1];
      DistinctCount(front);
      assert Elements(s) == Elements(front) + {x};
      assert x !in Elements(front);
    }
  }

  /** x was last accessed at p. */
  ghost predicate LastAt(ts: seq<int>, x: int, p: int) {
    0 <= p < |ts| && ts[p] == x && forall k :: p < k < |ts| ==> ts[k] != x
  }

  /** Above x on the stack are exactly the tags accessed since. */
  lemma {:induction false} AboveOnStack(ts: seq<int>, x: int, p: int) returns (i: nat)
    requires LastAt(ts, x, p)
    ensures i < |Stack(ts)| && Stack(ts)[i] == x
    ensures Elements(Stack(ts)[..i]) == Others(ts, p, x)
  {
    var front, y := ts[..|ts| - 1], ts[|ts| - 1];
    var s := Stack(front);
    StackDistinct(front);
    if y == x {
      i := 0;
      assert Others(ts, p, x) == {};
    } else {
      assert ts == front + [y];
      assert LastAt(front, x, p);
      var j := AboveOnStack(front, x, p);
      assert Others(ts, p, x) == Others(front, p, x) + {y};
      i := RemoveAbove(s, y, x, j);
      var s' := [y] + Remove(s, y);
      assert s'[..i + 1] == [y] + Remove(s, y)[..i];
      ElementsCons(y, Remove(s, y)[..i]);
      i := i + 1;
    }
  }

  /** Where x goes when y is removed, and what stays above it. */
  lemma {:induction false} RemoveAbove(s: seq<int>, y: int, x: int, j: nat) returns (i: nat)
    requires Distinct(s) && j < |s| && s[j] == x && x != y
    ensures i < |Remove(s, y)| && Remove(s, y)[i] == x
    ensures Elements(Remove(s, y)[..i]) == Elements(s[..j]) - {y}
  {
    if s[0] == y {
      i := j - 1;
      assert s == [y] + s[1..];
      DistinctCons(y, s[1..]);
      assert s[..j] == [y] + s[1..][..i];
      ElementsCons(y, s[1..][..i]);
      assert y !in Elements(s[1..][..i]);
    } else if j == 0 {
      i := 0;
    } else {
      assert s == [s[0]] + s[1..];
      DistinctCons(s[0], s[1..]);
      var k := RemoveAbove(s[1..], y, x, j - 1);
      i := k + 1;
      var r := Remove(s[1..], y);
      assert Remove(s, y)[..i] == [s[0]] + r[..k] && s[..j] == [s[0]] + s[1..][..j - 1];
      ElementsCons(s[0], r[..k]);
      ElementsCons(s[0], s[1..][..j - 1]);
    }
  }

  lemma {:induction false} LastExists(ts: seq<int>, p: int) returns (q: int)
    requires 0 <= p < |ts|
    ensures p <= q && LastAt(ts, ts[p], q)
    decreases |ts| - p
  {
    if exists k :: p < k < |ts| && ts[k] == ts[p] {
      var k :| p < k < |ts| && ts[k] == ts[p];
      q := LastExists(ts, k);
    } else {
      q := p;
    }
  }

  lemma SubsetCount(a: set<int>, b: set<int>)
    requires a <= b
    ensures |a| <= |b|
  {
    assert b == a + (b - a);
  }

  /** Reuse distance: x hits exactly when it was accessed before and fewer than E other tags were
      accessed since. */
  lemma ReuseDistance(ts: seq<int>, e: nat, x: int)
    requires e > 0
    ensures x in LruList(ts, e) <==> exists p :: 0 <= p < |ts| && ts[p] == x && |Others(ts, p, x)| < e
  {
    LruIsTopOfStack(ts, e);
    StackDistinct(ts);
    var s := Stack(ts);
    if x in ts {
      var p :| 0 <= p < |ts| && ts[p] == x;
      var q := LastExists(ts, p);
      var i := AboveOnStack(ts, x, q);
      DistinctCount(s[..i]);
      assert |Others(ts, q, x)| == i;
      if i < e { assert Take(s, e)[i] == x; }
      forall r | 0 <= r < |ts| && ts[r] == x ensures |Others(ts, r, x)| >= i {
        SubsetCount(Others(ts, q, x), Others(ts, r, x));
      }
    }
  }
}
