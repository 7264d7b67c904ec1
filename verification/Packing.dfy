/** Sums over finite maps, and the bound on what disjoint intervals can hold. */
module Packing {

  ghost function Sum(m: map<int, int>): int
    decreases |m|
  {
    if forall k :: k !in m then 0 else
    var k :| k in m;
    m[k] + Sum(m - {k})
  }

  lemma {:induction false} SumRemove(m: map<int, int>, k: int)
    requires k in m
    ensures Sum(m) == m[k] + Sum(m - {k})
    decreases |m|
  {
    var j :| j in m && Sum(m) == m[j] + Sum(m - {j});
    if j != k {
      SumRemove(m - {j}, k);
      SumRemove(m - {k}, j);
      assert m - {j} - {k} == m - {k} - {j};
    }
  }

  lemma SumUpdate(m: map<int, int>, k: int, v: int)
    ensures Sum(m[k := v]) == Sum(m) - (if k in m then m[k] else 0) + v
  {
    SumRemove(m[k := v], k);
    assert m[k := v] - {k} == m - {k};
    if k in m { SumRemove(m, k); } else { assert m - {k} == m; }
  }

  /** The intervals [at[i], at[i] + size[i]) lie in [lo, hi) and do not overlap. */
  ghost predicate Packed(size: map<int, int>, at: map<int, int>, lo: int, hi: int) {
    && (forall i {:trigger size[i]} :: i in size ==> i in at && size[i] > 0 && lo <= at[i] && at[i] + size[i] <= hi)
    && (forall i, j {:trigger size[i], size[j]} :: i in size && j in size && at[i] < at[j] ==> at[i] + size[i] <= at[j])
    && (forall i, j {:trigger size[i], size[j]} :: i in size && j in size && i != j ==> at[i] != at[j])
  }

  lemma {:induction false} Topmost(size: map<int, int>, at: map<int, int>) returns (top: int)
    requires size != map[] && forall i {:trigger size[i]} :: i in size ==> i in at
    ensures top in size && forall i {:trigger size[i]} :: i in size ==> at[i] <= at[top]
    decreases |size|
  {
    assert (forall i :: i !in size) ==> size == map[];
    top :| top in size;
    var rest := size - {top};
    if rest != map[] {
      var t := Topmost(rest, at);
      var first := top;
      if at[t] > at[first] { top := t; }
      forall i {:trigger size[i]} | i in size ensures at[i] <= at[top] {
        assert i != first ==> rest[i] == size[i];
      }
    }
  }

  /** Disjoint intervals together are no longer than the range that holds them. */
  lemma {:induction false} PackedSum(size: map<int, int>, at: map<int, int>, lo: int, hi: int)
    requires Packed(size, at, lo, hi) && lo <= hi
    ensures Sum(size) <= hi - lo
    decreases |size|
  {
    if size != map[] {
      var top := Topmost(size, at);
      SumRemove(size, top);
      assert size[top] > 0;
      var rest := size - {top};
      forall i {:trigger rest[i]} | i in rest
        ensures i in at && rest[i] > 0 && lo <= at[i] && at[i] + rest[i] <= at[top] {
        assert rest[i] == size[i];
      }
      PackedSum(rest, at, lo, at[top]);
    }
  }
}
