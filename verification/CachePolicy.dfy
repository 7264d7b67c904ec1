/** What the proxy's cache has to do: a bounded list of responses with their last-use times. */
module CachePolicy {
  import opened Streams

  const MAX_CACHE_SIZE := 1049000
  const MAX_OBJECT_SIZE := 102400

  datatype Key = Key(path: string, host: string)

  datatype Entry = Entry(key: Key, data: seq<byte>, time: int)

  /** A request, the response its server would give, the clock, and what malloc leaves in new memory. */
  datatype Get = Get(key: Key, response: seq<byte>, now: int, junk: seq<byte>)

  // ---------------------------------------------------------------- copies that stop at NUL

  /** The length of s up to its first NUL. */
  function Strlen(s: seq<byte>): (n: nat)
    ensures n <= |s| && (n < |s| ==> s[n] == 0)
    ensures forall i {:trigger s[i]} :: 0 <= i < n ==> s[i] != 0
  {
    if s == [] || s[0] == 0 then 0 else 1 + Strlen(s[1..])
  }

  function JunkAt(junk: seq<byte>, i: nat): byte { if i < |junk| then junk[i] else 0 }

  /** What strncat leaves of s in memory that held junk. */
  function StoredAs(s: seq<byte>, junk: seq<byte>): (t: seq<byte>)
    ensures |t| == |s|
  {
    seq(|s|, i requires 0 <= i < |s| => if i <= Strlen(s) then s[i] else JunkAt(junk, i))
  }

  /** A response is kept intact, whatever the memory held, exactly when it has no NUL before its last byte. */
  lemma KeptIntact(s: seq<byte>)
    ensures (forall junk :: StoredAs(s, junk) == s) <==> Strlen(s) + 1 >= |s|
  {
    if Strlen(s) + 1 < |s| {
      var i := |s| - 1;
      var other: byte := if s[i] == 0 then 1 else 0;
      var junk := seq(|s|, _ => other);
      assert StoredAs(s, junk)[i] != s[i];
    } else {
      forall junk ensures StoredAs(s, junk) == s {
      }
    }
  }

  // ---------------------------------------------------------------- the list

  function Volume(items: seq<Entry>): (v: nat) {
    if items == [] then 0 else |items[0].data| + Volume(items[1..])
  }

  /** The first entry with the key, or the length of the list. */
  function Index(items: seq<Entry>, key: Key): (i: nat)
    ensures i <= |items| && (i < |items| ==> items[i].key == key)
    ensures forall j {:trigger items[j]} :: 0 <= j < i ==> items[j].key != key
  {
    if items == [] || items[0].key == key then 0 else 1 + Index(items[1..], key)
  }

  /** The first of the first n entries among those used longest ago. */
  function Victim(items: seq<Entry>, n: nat): (v: nat)
    requires 0 < n <= |items|
    ensures v < n
    ensures forall j {:trigger items[j]} :: 0 <= j < n ==> items[v].time <= items[j].time
    ensures forall j {:trigger items[j]} :: 0 <= j < v ==> items[v].time < items[j].time
  {
    if n == 1 then 0 else
    var v := Victim(items, n - 1);
    if items[n - 1].time < items[v].time then n - 1 else v
  }

  function Without(items: seq<Entry>, k: nat): seq<Entry>
    requires k < |items|
  {
    items[..k] + items[k + 1..]
  }

  /** Victims leave until `need` more bytes fit. */
  function MakeRoom(items: seq<Entry>, need: nat): seq<Entry>
    decreases |items|
  {
    if items == [] || Volume(items) + need <= MAX_CACHE_SIZE then items
    else MakeRoom(Without(items, Victim(items, |items|)), need)
  }

  function Insert(items: seq<Entry>, g: Get): seq<Entry> {
    MakeRoom(items, |g.response|) + [Entry(g.key, StoredAs(g.response, g.junk), g.now)]
  }

  /** The cache after a request. */
  function Handle(items: seq<Entry>, g: Get): seq<Entry> {
    var i := Index(items, g.key);
    if i < |items| then items[i := items[i].(time := g.now)]
    else if |g.response| <= MAX_OBJECT_SIZE then Insert(items, g)
    else items
  }

  /** The bytes the client gets. */
  function Answer(items: seq<Entry>, g: Get): seq<byte> {
    var i := Index(items, g.key);
    if i < |items| then items[i].data else g.response
  }

  function Run(gets: seq<Get>): seq<Entry> {
    if gets == [] then [] else Handle(Run(gets[..|gets| - 1]), gets[|gets| - 1])
  }

  // ---------------------------------------------------------------- the volume

  lemma {:induction false} VolumeWithout(items: seq<Entry>, k: nat)
    requires k < |items|
    ensures Volume(items) == |items[k].data| + Volume(Without(items, k))
  {
    if k > 0 {
      VolumeWithout(items[1..], k - 1);
      assert Without(items, k) == [items[0]] + Without(items[1..], k - 1);
    } else {
      assert Without(items, k) == items[1..];
    }
  }

  lemma {:induction false} VolumeConcat(a: seq<Entry>, b: seq<Entry>)
    ensures Volume(a + b) == Volume(a) + Volume(b)
  {
    if a == [] {
      assert a + b == b;
    } else {
      assert (a + b)[1..] == a[1..] + b;
      VolumeConcat(a[1..], b);
    }
  }

  lemma VolumeRetimed(items: seq<Entry>, k: nat, now: int)
    requires k < |items|
    ensures Volume(items[k := items[k].(time := now)]) == Volume(items)
  {
    var e := items[k].(time := now);
    VolumeWithout(items, k);
    VolumeWithout(items[k := e], k);
    assert Without(items[k := e], k) == Without(items, k);
  }

  lemma {:induction false} RoomMade(items: seq<Entry>, need: nat)
    requires need <= MAX_CACHE_SIZE
    ensures Volume(MakeRoom(items, need)) + need <= MAX_CACHE_SIZE
    decreases |items|
  {
    if items != [] && Volume(items) + need > MAX_CACHE_SIZE {
      RoomMade(Without(items, Victim(items, |items|)), need);
    }
  }

  /** Whatever was evicted was used no later than anything kept. */
  lemma {:induction false} EvictedAreOldest(items: seq<Entry>, need: nat, d: Entry, e: Entry)
    requires d in items && d !in MakeRoom(items, need) && e in MakeRoom(items, need)
    ensures d.time <= e.time
    decreases |items|
  {
    var v := Victim(items, |items|);
    var rest := Without(items, v);
    Kept(rest, need, e);
    InWithout(items, v, e);
    if d in rest {
      EvictedAreOldest(rest, need, d, e);
    } else {
      OnlyOut(items, v, d);
    }
  }

  lemma {:induction false} Kept(items: seq<Entry>, need: nat, e: Entry)
    requires e in MakeRoom(items, need)
    ensures e in items
    decreases |items|
  {
    if items != [] && Volume(items) + need > MAX_CACHE_SIZE {
      var v := Victim(items, |items|);
      Kept(Without(items, v), need, e);
      InWithout(items, v, e);
    }
  }

  lemma InWithout(items: seq<Entry>, k: nat, e: Entry)
    requires k < |items| && e in Without(items, k)
    ensures e in items
  {
  }

  lemma OnlyOut(items: seq<Entry>, k: nat, d: Entry)
    requires k < |items| && d in items
    ensures d in Without(items, k) || d == items[k]
  {
    var i :| 0 <= i < |items| && items[i] == d;
    var w := Without(items, k);
    if i < k { assert w[i] == d; } else if i > k { assert w[i - 1] == d; }
  }

  /** No more is evicted than needed: with the last victim still in, the response would not have fitted. */
  lemma {:induction false} EvictionIsNeeded(items: seq<Entry>, need: nat) returns (last: Entry)
    requires need <= MAX_CACHE_SIZE && MakeRoom(items, need) != items
    ensures last in items && Volume(MakeRoom(items, need)) + |last.data| + need > 1049000
    decreases |items|
  {
    var v := Victim(items, |items|);
    var rest := Without(items, v);
    VolumeWithout(items, v);
    if MakeRoom(rest, need) == rest {
      last := items[v];
    } else {
      last := EvictionIsNeeded(rest, need);
      InWithout(items, v, last);
    }
  }

  lemma SingleVolume(e: Entry)
    ensures Volume([e]) == |e.data|
  {
    assert [e][1..] == [];
  }

  lemma HandleVolume(items: seq<Entry>, g: Get)
    requires Volume(items) <= MAX_CACHE_SIZE
    ensures Volume(Handle(items, g)) <= MAX_CACHE_SIZE
  {
    var i := Index(items, g.key);
    if i < |items| {
      VolumeRetimed(items, i, g.now);
    } else if |g.response| <= MAX_OBJECT_SIZE {
      var e := Entry(g.key, StoredAs(g.response, g.junk), g.now);
      RoomMade(items, |g.response|);
      VolumeConcat(MakeRoom(items, |g.response|), [e]);
      SingleVolume(e);
    }
  }

  // ---------------------------------------------------------------- what survives eviction

  ghost predicate UniqueKeys(items: seq<Entry>) {
    forall i, j {:trigger items[i], items[j]} :: 0 <= i < j < |items| ==> items[i].key != items[j].key
  }

  lemma WithoutUnique(items: seq<Entry>, k: nat)
    requires k < |items| && UniqueKeys(items)
    ensures UniqueKeys(Without(items, k)) && forall e :: e in Without(items, k) ==> e in items
  {
    var w := Without(items, k);
    forall i, j {:trigger w[i], w[j]} | 0 <= i < j < |w| ensures w[i].key != w[j].key {
      assert items[if i < k then i else i + 1].key != items[if j < k then j else j + 1].key;
    }
  }

  lemma {:induction false} MakeRoomUnique(items: seq<Entry>, need: nat)
    requires UniqueKeys(items)
    ensures UniqueKeys(MakeRoom(items, need)) && forall e :: e in MakeRoom(items, need) ==> e in items
    decreases |items|
  {
    if items != [] && Volume(items) + need > MAX_CACHE_SIZE {
      var v := Victim(items, |items|);
      WithoutUnique(items, v);
      MakeRoomUnique(Without(items, v), need);
    }
  }

  lemma NotIndexed(items: seq<Entry>, key: Key, e: Entry)
    requires Index(items, key) == |items| && e in items
    ensures e.key != key
  {
  }

  lemma HandleUnique(items: seq<Entry>, g: Get)
    requires UniqueKeys(items)
    ensures UniqueKeys(Handle(items, g))
    ensures forall e :: e in Handle(items, g) ==>
      if e.key == g.key then e.time == g.now else e in items
  {
    var i := Index(items, g.key);
    if i < |items| {
      forall j {:trigger items[j]} | 0 <= j < |items| && j != i ensures items[j].key != g.key {
        if j > i { assert items[i].key != items[j].key; }
      }
    } else if |g.response| <= MAX_OBJECT_SIZE {
      var room := MakeRoom(items, |g.response|);
      MakeRoomUnique(items, |g.response|);
      forall e | e in room ensures e.key != g.key { NotIndexed(items, g.key, e); }
    }
  }

  /** Request i is the last one for the key. */
  ghost predicate LastUse(gets: seq<Get>, i: int, key: Key) {
    0 <= i < |gets| && gets[i].key == key && forall j {:trigger gets[j]} :: i < j < |gets| ==> gets[j].key != key
  }

  /** Request i is an earlier one for the key, and its response is what the entry holds. */
  ghost predicate ComesFrom(gets: seq<Get>, i: int, e: Entry) {
    && 0 <= i < |gets| && gets[i].key == e.key && |gets[i].response| <= MAX_OBJECT_SIZE
    && e.data == StoredAs(gets[i].response, gets[i].junk)
  }

  ghost predicate Explained(gets: seq<Get>, e: Entry) {
    && (exists i {:trigger LastUse(gets, i, e.key)} :: LastUse(gets, i, e.key) && e.time == gets[i].now)
    && (exists i {:trigger ComesFrom(gets, i, e)} :: ComesFrom(gets, i, e))
  }

  lemma ExplainedLater(gets: seq<Get>, g: Get, e: Entry)
    requires Explained(gets, e) && e.key != g.key
    ensures Explained(gets + [g], e)
  {
    var all := gets + [g];
    var i :| LastUse(gets, i, e.key) && e.time == gets[i].now;
    assert LastUse(all, i, e.key) && all[i] == gets[i];
    var k :| ComesFrom(gets, k, e);
    assert all[k] == gets[k] && ComesFrom(all, k, e);
  }

  lemma ExplainedHit(gets: seq<Get>, g: Get, e: Entry)
    requires Explained(gets, e) && e.key == g.key
    ensures Explained(gets + [g], e.(time := g.now))
  {
    var all, e' := gets + [g], e.(time := g.now);
    assert LastUse(all, |gets|, e'.key) && all[|gets|] == g;
    var k :| ComesFrom(gets, k, e);
    assert all[k] == gets[k] && ComesFrom(all, k, e');
  }

  lemma ExplainedNew(gets: seq<Get>, g: Get)
    requires |g.response| <= MAX_OBJECT_SIZE
    ensures Explained(gets + [g], Entry(g.key, StoredAs(g.response, g.junk), g.now))
  {
    var all, e := gets + [g], Entry(g.key, StoredAs(g.response, g.junk), g.now);
    assert all[|gets|] == g && LastUse(all, |gets|, e.key) && ComesFrom(all, |gets|, e);
  }

  lemma HandleExplained(gets: seq<Get>, items: seq<Entry>, g: Get)
    requires UniqueKeys(items) && forall e :: e in items ==> Explained(gets, e)
    ensures forall e :: e in Handle(items, g) ==> Explained(gets + [g], e)
  {
    HandleUnique(items, g);
    forall e | e in Handle(items, g) ensures Explained(gets + [g], e) {
      if e.key != g.key {
        ExplainedLater(gets, g, e);
      } else {
        var i := Index(items, g.key);
        if i < |items| {
          assert items[i] in items;
          ExplainedHit(gets, g, items[i]);
          HitEntry(items, g, e);
        } else {
          ExplainedNew(gets, g);
          NewEntry(items, g, e);
        }
      }
    }
  }

  lemma HitEntry(items: seq<Entry>, g: Get, e: Entry)
    requires UniqueKeys(items) && Index(items, g.key) < |items| && e in Handle(items, g) && e.key == g.key
    ensures e == items[Index(items, g.key)].(time := g.now)
  {
    var i := Index(items, g.key);
    var all := Handle(items, g);
    var j :| 0 <= j < |all| && all[j] == e;
  }

  lemma NewEntry(items: seq<Entry>, g: Get, e: Entry)
    requires UniqueKeys(items) && Index(items, g.key) == |items| && e in Handle(items, g) && e.key == g.key
    ensures |g.response| <= MAX_OBJECT_SIZE && e == Entry(g.key, StoredAs(g.response, g.junk), g.now)
  {
    if |g.response| <= MAX_OBJECT_SIZE {
      MakeRoomUnique(items, |g.response|);
      if e in MakeRoom(items, |g.response|) { NotIndexed(items, g.key, e); }
    } else {
      NotIndexed(items, g.key, e);
    }
  }

  /** After every run: the volume is bounded, keys are unique, every entry's time is the clock of the
      last request for its key, and its bytes are what was stored of an earlier response to that key. */
  lemma {:induction false} RunInvariant(gets: seq<Get>)
    ensures Volume(Run(gets)) <= 1049000 && UniqueKeys(Run(gets))
    ensures forall e :: e in Run(gets) ==> Explained(gets, e)
  {
    if gets != [] {
      var front, g := gets[..|gets| - 1], gets[|gets| - 1];
      RunInvariant(front);
      HandleVolume(Run(front), g);
      HandleUnique(Run(front), g);
      HandleExplained(front, Run(front), g);
      assert gets == front + [g];
    }
  }

  /** If the server of a key always gives the same response and it is free of inner NULs, the client
      cannot tell the cache from the server. */
  lemma {:induction false} Transparent(gets: seq<Get>, g: Get)
    requires forall i {:trigger gets[i]} :: 0 <= i < |gets| && gets[i].key == g.key ==> gets[i].response == g.response
    requires Strlen(g.response) + 1 >= |g.response|
    ensures Answer(Run(gets), g) == g.response
  {
    var items := Run(gets);
    RunInvariant(gets);
    if Index(items, g.key) < |items| { SameResponse(gets, g, items[Index(items, g.key)]); }
  }

  lemma SameResponse(gets: seq<Get>, g: Get, e: Entry)
    requires forall i {:trigger gets[i]} :: 0 <= i < |gets| && gets[i].key == g.key ==> gets[i].response == g.response
    requires Strlen(g.response) + 1 >= |g.response| && e.key == g.key && Explained(gets, e)
    ensures e.data == g.response
  {
    var k :| ComesFrom(gets, k, e);
    assert gets[k].response == g.response;
    KeptIntact(g.response);
  }

  /** With a clock that strictly increases, the victim is the entry whose key was requested longest ago. */
  lemma {:induction false} VictimIsLeastRecent(gets: seq<Get>, j: nat, last: int, lastOfJ: int)
    requires forall a, b {:trigger gets[a], gets[b]} :: 0 <= a < b < |gets| ==> gets[a].now < gets[b].now
    requires j < |Run(gets)| && j != Victim(Run(gets), |Run(gets)|)
    requires LastUse(gets, last, Run(gets)[Victim(Run(gets), |Run(gets)|)].key)
    requires LastUse(gets, lastOfJ, Run(gets)[j].key)
    ensures last < lastOfJ
  {
    var items := Run(gets);
    var v := Victim(items, |items|);
    RunInvariant(gets);
    assert items[j] in items && items[v] in items;
    LastUseTime(gets, last, items[v]);
    LastUseTime(gets, lastOfJ, items[j]);
    assert items[v].time <= items[j].time;
    assert items[v].key != items[j].key;
  }

  lemma LastUseTime(gets: seq<Get>, i: int, e: Entry)
    requires LastUse(gets, i, e.key) && Explained(gets, e)
    ensures e.time == gets[i].now
  {
    var k :| LastUse(gets, k, e.key) && e.time == gets[k].now;
    assert gets[i].key == gets[k].key;
  }
}
