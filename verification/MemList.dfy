/** The block list of memlist.c: a linked list with a dummy head, sorted by address. */
module MemList {

  /** One tracked address: the size of its block and how often it is allocated. */
  datatype Block = Block(ptr: int, size: nat, cnt: int)

  datatype Found = Missing | Known(block: Block)

  ghost predicate Sorted(items: seq<Block>) {
    forall i, j {:trigger items[i], items[j]} :: 0 <= i < j < |items| ==> items[i].ptr < items[j].ptr
  }

  function Lookup(items: seq<Block>, ptr: int): Found {
    if items == [] then Missing
    else if items[0].ptr == ptr then Known(items[0])
    else Lookup(items[1..], ptr)
  }

  function Count(items: seq<Block>, ptr: int): int {
    match Lookup(items, ptr) case Missing => 0 case Known(b) => b.cnt
  }

  /** The list with the entry of one address set, in address order. */
  function Put(items: seq<Block>, b: Block): seq<Block> {
    if items == [] then [b]
    else if items[0].ptr < b.ptr then [items[0]] + Put(items[1..], b)
    else if items[0].ptr == b.ptr then [b] + items[1..]
    else [b] + items
  }

  lemma SortedTail(items: seq<Block>)
    requires Sorted(items) && items != []
    ensures Sorted(items[1..])
  {
    var rest := items[1..];
    forall i, j {:trigger rest[i], rest[j]} | 0 <= i < j < |rest| ensures rest[i].ptr < rest[j].ptr {
      assert items[i + 1].ptr < items[j + 1].ptr;
    }
  }

  lemma SortedCons(b: Block, rest: seq<Block>)
    requires Sorted(rest) && (rest != [] ==> b.ptr < rest[0].ptr)
    ensures Sorted([b] + rest)
  {
    var items := [b] + rest;
    forall i, j {:trigger items[i], items[j]} | 0 <= i < j < |items| ensures items[i].ptr < items[j].ptr {
      assert items[j] == rest[j - 1];
      if i > 0 { assert rest[i - 1].ptr < rest[j - 1].ptr; }
      else if j > 1 { assert rest[0].ptr < rest[j - 1].ptr; }
    }
  }

  lemma {:induction false} PutSorted(items: seq<Block>, b: Block)
    requires Sorted(items)
    ensures Sorted(Put(items, b))
    ensures Put(items, b)[0].ptr == if items == [] || b.ptr < items[0].ptr then b.ptr else items[0].ptr
  {
    if items == [] {
    } else {
      var rest := items[1..];
      assert items == [items[0]] + rest;
      SortedTail(items);
      if rest != [] { assert items[0].ptr < items[1].ptr; }
      if items[0].ptr < b.ptr {
        PutSorted(rest, b);
        SortedCons(items[0], Put(rest, b));
      } else if items[0].ptr == b.ptr {
        SortedCons(b, rest);
      } else {
        SortedCons(b, items);
      }
    }
  }

  /** In a sorted list nothing below the first address can be found. */
  lemma {:induction false} NotBelow(items: seq<Block>, ptr: int)
    requires Sorted(items) && (items == [] || ptr < items[0].ptr)
    ensures Lookup(items, ptr) == Missing
  {
    if items != [] {
      SortedTail(items);
      if items[1..] != [] { assert items[0].ptr < items[1].ptr; }
      NotBelow(items[1..], ptr);
    }
  }

  /** Setting one entry is seen there and nowhere else. */
  lemma {:induction false} PutLookup(items: seq<Block>, b: Block, ptr: int)
    requires Sorted(items)
    ensures Lookup(Put(items, b), ptr) == if ptr == b.ptr then Known(b) else Lookup(items, ptr)
  {
    if items == [] {
      assert [b][1..] == [];
    } else {
      SortedTail(items);
      if items[0].ptr < b.ptr {
        PutLookup(items[1..], b, ptr);
        assert Put(items, b)[1..] == Put(items[1..], b);
      } else {
        assert ([b] + items)[1..] == items;
        assert ([b] + items[1..])[1..] == items[1..];
      }
    }
  }

  lemma {:induction false} LookupMember(items: seq<Block>, b: Block)
    requires Sorted(items)
    ensures b in items <==> Lookup(items, b.ptr) == Known(b)
  {
    if items != [] {
      SortedTail(items);
      LookupMember(items[1..], b);
      assert items == [items[0]] + items[1..];
    }
  }

  /** Where Put acts. */
  lemma {:induction false} PutAt(items: seq<Block>, b: Block, k: nat)
    requires k <= |items| && (forall j {:trigger items[j]} :: 0 <= j < k ==> items[j].ptr < b.ptr)
    requires k < |items| ==> items[k].ptr >= b.ptr
    ensures Put(items, b) == items[..k] + [b] + items[(if k < |items| && items[k].ptr == b.ptr then k + 1 else k)..]
  {
    if k > 0 {
      var j := if k < |items| && items[k].ptr == b.ptr then k + 1 else k;
      PutAt(items[1..], b, k - 1);
      TailSpliced(items, b, k, j);
    }
  }

  lemma TailSpliced(items: seq<Block>, b: Block, k: nat, j: nat)
    requires 0 < k <= j <= |items|
    ensures [items[0]] + (items[1..][..k - 1] + [b] + items[1..][j - 1..]) == items[..k] + [b] + items[j..]
  {
  }

  lemma PutReplaces(items: seq<Block>, b: Block, k: nat)
    requires k < |items| && (forall j {:trigger items[j]} ::
      0 <= j < k ==> items[j].ptr < b.ptr) && items[k].ptr == b.ptr
    ensures Put(items, b) == items[k := b]
  {
    PutAt(items, b, k);
  }

  lemma PutInserts(items: seq<Block>, b: Block, k: nat)
    requires k <= |items| && (forall j {:trigger items[j]} :: 0 <= j < k ==> items[j].ptr < b.ptr)
    requires k < |items| ==> items[k].ptr > b.ptr
    ensures Put(items, b) == items[..k] + [b] + items[k..]
  {
    PutAt(items, b, k);
  }

  lemma {:induction false} LookupAt(items: seq<Block>, ptr: int, k: nat)
    requires k <= |items| && (forall j {:trigger items[j]} :: 0 <= j < k ==> items[j].ptr != ptr)
    requires k < |items| ==> items[k].ptr == ptr
    ensures Lookup(items, ptr) == if k < |items| then Known(items[k]) else Missing
  {
    if k > 0 { LookupAt(items[1..], ptr, k - 1); }
  }

  lemma LookupFrom(items: seq<Block>, ptr: int, k: nat)
    requires Sorted(items) && k <= |items| && (forall j {:trigger items[j]} :: 0 <= j < k ==> items[j].ptr < ptr)
    requires k < |items| ==> items[k].ptr >= ptr
    ensures Lookup(items, ptr) == if k < |items| && items[k].ptr == ptr then Known(items[k]) else Missing
  {
    if k < |items| && items[k].ptr > ptr {
      forall j {:trigger items[j]} | k < j < |items| ensures items[j].ptr != ptr { assert items[k].ptr < items[j].ptr; }
      LookupAt(items, ptr, |items|);
    } else {
      LookupAt(items, ptr, k);
    }
  }

  // ---------------------------------------------------------------- the linked list

  class Item {
    var ptr: int
    var size: nat
    var cnt: int
    var next: Item?

    /** A calloc'd item. */
    constructor ()
      ensures ptr == 0 && size == 0 && cnt == 0 && next == null
    {
      ptr, size, cnt, next := 0, 0, 0, null;
    }

    constructor Tracking(ptr: int, size: nat)
      ensures this.ptr == ptr && this.size == size && cnt == 1 && next == null
    {
      this.ptr, this.size, cnt, next := ptr, size, 1, null;
    }

    ghost function View(): Block
      reads this
    {
      Block(ptr, size, cnt)
    }
  }

  class List {
    const head: Item
    ghost var nodes: seq<Item>
    ghost var items: seq<Block>

    ghost function NodeAt(i: int): Item?
      reads this
    {
      if 0 <= i < |nodes| then nodes[i] else null
    }

    ghost function Before(i: int): Item?
      reads this
    {
      if i == 0 then head else NodeAt(i - 1)
    }

    ghost predicate LinkedAt(i: int)
      requires 0 <= i < |nodes| == |items|
      reads this, nodes
    {
      items[i] == nodes[i].View() && nodes[i].next == NodeAt(i + 1)
    }

    ghost predicate Valid()
      reads this, nodes, head
    {
      && |nodes| == |items| && head !in nodes && head.cnt == 0 && head.next == NodeAt(0)
      && (forall i, j {:trigger nodes[i], nodes[j]} :: 0 <= i < j < |nodes| ==> nodes[i] != nodes[j])
      && (forall i {:trigger LinkedAt(i)} :: 0 <= i < |nodes| ==> LinkedAt(i))
    }

    /** new_list */
    constructor ()
      ensures Valid() && items == [] && nodes == [] && fresh(head)
    {
      head := new Item();
      nodes := [];
      items := [];
    }

    /** find: the item of an address, if there is one. */
    method Find(ptr: int) returns (item: Item?)
      requires Valid() && Sorted(items)
      ensures item == null <==> Lookup(items, ptr) == Missing
      ensures item != null ==> item in nodes && Lookup(items, ptr) == Known(item.View())
    {
      var cur := head.next;
      ghost var k := 0;
      assert items[0..] == items;
      while cur != null && ptr > cur.ptr
        invariant 0 <= k <= |nodes| && cur == NodeAt(k)
        invariant Sorted(items[k..]) && Lookup(items, ptr) == Lookup(items[k..], ptr)
        decreases |nodes| - k
      {
        assert LinkedAt(k);
        SortedTail(items[k..]);
        assert items[k..][1..] == items[k + 1..];
        cur := cur.next;
        k := k + 1;
      }
      if cur != null { assert LinkedAt(k); }
      if cur != null && cur.ptr == ptr { return cur; }
      NotBelow(items[k..], ptr);
      return null;
    }

    /** The search loop of alloc. */
    method Seek(ptr: int) returns (prev: Item, cur: Item?, ghost k: nat)
      requires Valid()
      ensures k <= |nodes| && prev == Before(k) && cur == NodeAt(k)
      ensures cur != null ==> cur.ptr >= ptr
      ensures forall j {:trigger items[j]} :: 0 <= j < k ==> items[j].ptr < ptr
    {
      prev, cur, k := head, head.next, 0;
      while cur != null && cur.ptr < ptr
        invariant k <= |nodes| && prev == Before(k) && cur == NodeAt(k)
        invariant forall j {:trigger items[j]} :: 0 <= j < k ==> items[j].ptr < ptr
        decreases |nodes| - k
      {
        assert LinkedAt(k);
        prev, cur := cur, cur.next;
        k := k + 1;
      }
    }

    method Insert(prev: Item, i: Item, ghost k: nat)
      requires Valid() && k <= |nodes| && prev == Before(k) && i.next == NodeAt(k) && i != head && i !in nodes
      modifies this, nodes, head
      ensures Valid() && items == old(items)[..k] + [i.View()] + old(items)[k..]
      ensures nodes == old(nodes)[..k] + [i] + old(nodes)[k..]
    {
      if k > 0 { assert LinkedAt(k - 1); }
      prev.next := i;
      nodes, items := nodes[..k] + [i] + nodes[k..], items[..k] + [i.View()] + items[k..];
      forall j {:trigger LinkedAt(j)} | 0 <= j < |nodes| ensures LinkedAt(j) {
        if j < k { assert old(LinkedAt(j)); } else if j > k { assert old(LinkedAt(j - 1)); }
      }
    }

    /** An entry in place gets a new size and count. */
    method Update(cur: Item, size: nat, cnt: int, ghost k: nat)
      requires Valid() && k < |nodes| && cur == nodes[k]
      modifies nodes, this`items
      ensures Valid() && nodes == old(nodes) && items == old(items)[k := Block(old(items)[k].ptr, size, cnt)]
    {
      assert LinkedAt(k);
      cur.size := size;
      cur.cnt := cnt;
      items := items[k := cur.View()];
      forall j {:trigger LinkedAt(j)} | 0 <= j < |nodes| ensures LinkedAt(j) {
        assert old(LinkedAt(j));
      }
    }

    /** alloc: a known address is counted once more and takes the new size, a new one is inserted in order. */
    method Alloc(ptr: int, size: nat)
      requires Valid() && Sorted(items)
      modifies this, nodes, head
      ensures Valid() && Sorted(items) && (forall n :: n in nodes ==> n in old(nodes) || fresh(n))
      ensures items == Put(old(items), Block(ptr, size, Count(old(items), ptr) + 1))
    {
      var i := new Item.Tracking(ptr, size);
      var prev, cur, k := Seek(ptr);
      assert cur != null ==> items[k] == cur.View() by { assert cur != null ==> LinkedAt(k); }
      assert |nodes| == |items|;
      LookupFrom(items, ptr, k);
      ghost var b := Block(ptr, size, Count(items, ptr) + 1);
      PutSorted(items, b);
      hide Valid, Sorted, Put, Lookup;
      if cur == null {
        PutInserts(items, b, k);
        Insert(prev, i, k);
      } else if cur.ptr == i.ptr {
        PutReplaces(items, b, k);
        Update(cur, i.size, cur.cnt + 1, k);
      } else {
        PutInserts(items, b, k);
        i.next := cur;
        Insert(prev, i, k);
      }
    }

    /** dealloc: a known address is counted once less. */
    method Dealloc(ptr: int)
      requires Valid() && Sorted(items)
      modifies nodes, this`items
      ensures Valid() && Sorted(items) && nodes == old(nodes)
      ensures items == match Lookup(old(items), ptr)
        case Missing => old(items)
        case Known(b) => Put(old(items), Block(ptr, b.size, b.cnt - 1))
    {
      var cur := head.next;
      ghost var k := 0;
      while cur != null && cur.ptr != ptr
        invariant 0 <= k <= |nodes| && cur == NodeAt(k)
        invariant forall j {:trigger items[j]} :: 0 <= j < k ==> items[j].ptr != ptr
        decreases |nodes| - k
      {
        assert LinkedAt(k);
        cur := cur.next;
        k := k + 1;
      }
      assert cur != null ==> items[k] == cur.View() by { assert cur != null ==> LinkedAt(k); }
      assert |nodes| == |items|;
      LookupAt(items, ptr, k);
      if cur != null {
        forall j {:trigger items[j]} | 0 <= j < k ensures items[j].ptr < ptr { assert items[j].ptr < items[k].ptr; }
        hide Valid, Sorted, Put, Lookup;
        PutReplaces(items, Block(ptr, cur.size, cur.cnt - 1), k);
        PutSorted(items, Block(ptr, cur.size, cur.cnt - 1));
        Update(cur, cur.size, cur.cnt - 1, k);
      }
    }
  }
}
