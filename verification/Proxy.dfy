/** The cache of proxy.c: a linked list of responses, written and searched as the proxy does. */
module Proxy {
  import opened Basics
  import opened Streams
  import opened Rio
  import opened Headers
  import opened CachePolicy
  import opened Visits

  const MAXLINE := 8192

  class CachedItem {
    var hostname: string
    var path: string
    var size: nat
    var data: seq<byte>
    var next: CachedItem?
    var accessTime: int

    constructor ()
      ensures hostname == "" && path == "" && size == 0 && data == [] && next == null && accessTime == 0
    {
      hostname, path, size, data, next, accessTime := "", "", 0, [], null, 0;
    }

    ghost function View(): Entry
      reads this
    {
      Entry(Key(path, hostname), data, accessTime)
    }
  }

  // ---------------------------------------------------------------- string copies

  lemma {:induction false} StrlenConcat(a: seq<byte>, b: seq<byte>)
    ensures Strlen(a + b) == if Strlen(a) < |a| then Strlen(a) else |a| + Strlen(b)
  {
    if a == [] {
      assert a + b == b;
    } else if a[0] != 0 {
      assert (a + b)[1..] == a[1..] + b;
      StrlenConcat(a[1..], b);
    }
  }

  lemma StrlenIs(s: seq<byte>, n: nat)
    requires n <= |s| && (n < |s| ==> s[n] == 0) && forall i {:trigger s[i]} :: 0 <= i < n ==> s[i] != 0
    ensures Strlen(s) == n
  {
    var k := Strlen(s);
    if k < |s| { assert s[k] == 0; }
  }

  /** safe_strncpy: the bytes of src up to a NUL, at most n, then a NUL. It writes up to n + 1 bytes. */
  method SafeStrncpy(dst: array<byte>, at: nat, src: array<byte>, n: nat)
    requires dst != src && at + n < dst.Length && n <= src.Length
    modifies dst
    ensures forall i {:trigger dst[i]} :: 0 <= i < at ==> dst[i] == old(dst[i])
    ensures var m := Strlen(src[..n]);
      && (forall i {:trigger dst[i]} :: at <= i < at + m ==> dst[i] == src[i - at])
      && dst[at + m] == 0
      && (forall i {:trigger dst[i]} :: at + m < i < dst.Length ==> dst[i] == old(dst[i]))
  {
    var m := 0;
    while m < n && src[m] != 0
      invariant m <= n
      invariant forall i {:trigger src[i]} :: 0 <= i < m ==> src[i] != 0
      invariant forall i {:trigger dst[i]} :: at <= i < at + m ==> dst[i] == src[i - at]
      invariant forall i {:trigger dst[i]} :: 0 <= i < at || at + m <= i < dst.Length ==> dst[i] == old(dst[i])
    {
      dst[at + m] := src[m];
      m := m + 1;
    }
    StrlenIs(src[..n], m);
    dst[at + m] := 0;
  }

  /** u agrees with s up to and including its first NUL. */
  ghost predicate Agrees(u: seq<byte>, s: seq<byte>) {
    |s| <= |u| && forall i {:trigger u[i]} :: 0 <= i < |s| && i <= Strlen(s) ==> u[i] == s[i]
  }

  lemma AgreeingStrlen(u: seq<byte>, s: seq<byte>)
    requires Agrees(u, s)
    ensures Strlen(u[..|s|]) == Strlen(s)
  {
    StrlenIs(u[..|s|], Strlen(s));
  }

  /** One more chunk of the response in cache_buf. */
  method SaveChunk(cacheBuf: array<byte>, at: nat, readBuf: array<byte>, n: nat, ghost got: seq<byte>)
    requires cacheBuf != readBuf && |got| == at && at + n < cacheBuf.Length && n <= readBuf.Length
    requires Agrees(cacheBuf[..], got)
    modifies cacheBuf
    ensures Agrees(cacheBuf[..], got + readBuf[..n])
  {
    ghost var b := readBuf[..n];
    SafeStrncpy(cacheBuf, at, readBuf, n);
    StrlenConcat(got, b);
    ghost var u, s := cacheBuf[..], got + b;
    forall i {:trigger u[i]} | 0 <= i < |s| && i <= Strlen(s) ensures u[i] == s[i] {
      if i < at {
        assert s[i] == got[i];
      } else {
        assert s[i] == b[i - at];
      }
    }
  }

  /** The copy of a finished response into its own memory. The last cell of each array is the byte
      after what the program allocates: the terminator of a copy without NUL lands there. */
  method SaveResponse(cacheBuf: array<byte>, n: nat, junk: seq<byte>, ghost response: seq<byte>)
    returns (data: seq<byte>)
    requires |response| == n < cacheBuf.Length && Agrees(cacheBuf[..], response)
    ensures data == StoredAs(response, junk)
  {
    var block := new byte[n + 1](i requires i >= 0 => JunkAt(junk, i));
    AgreeingStrlen(cacheBuf[..], response);
    SafeStrncpy(block, 0, cacheBuf, n);
    ghost var u := cacheBuf[..];
    assert u[..n] == cacheBuf[..n];
    data := block[..n];
    forall i | 0 <= i < n ensures data[i] == StoredAs(response, junk)[i] {
      if i <= Strlen(response) { assert u[i] == response[i]; }
    }
  }

  // ---------------------------------------------------------------- the cache

  class Cache {
    const root: CachedItem
    const headers: HeaderList
    var cacheVolume: int
    ghost var nodes: seq<CachedItem>
    ghost var items: seq<Entry>

    ghost function NodeAt(i: int): CachedItem?
      reads this`nodes
    {
      if 0 <= i < |nodes| then nodes[i] else null
    }

    ghost function Before(i: int): CachedItem?
      reads this`nodes
    {
      if i == 0 then root else NodeAt(i - 1)
    }

    ghost predicate LinkedAt(i: int)
      requires 0 <= i < |nodes| == |items|
      reads this`nodes, this`items, nodes
    {
      items[i] == nodes[i].View() && nodes[i].size == |nodes[i].data| && nodes[i].next == NodeAt(i + 1)
    }

    /** The list is the abstract one; the volume is counted apart. */
    ghost predicate Linked()
      reads this`nodes, this`items, nodes, root
    {
      && |nodes| == |items| && root !in nodes && root.path == "" && root.next == NodeAt(0)
      && (forall i, j {:trigger nodes[i], nodes[j]} :: 0 <= i < j < |nodes| ==> nodes[i] != nodes[j])
      && (forall i {:trigger LinkedAt(i)} :: 0 <= i < |nodes| ==> LinkedAt(i))
    }

    ghost predicate Valid()
      reads this, nodes, root
    {
      Linked() && cacheVolume == Volume(items)
    }

    /** init_cache */
    constructor ()
      ensures Valid() && items == [] && nodes == [] && fresh(root) && fresh(headers) && headers.headers == []
    {
      root := new CachedItem();
      headers := new HeaderList();
      cacheVolume := 0;
      nodes, items := [], [];
    }

    /** search_cache */
    method SearchCache(path: string, hostname: string) returns (item: CachedItem?)
      requires Linked() && path != ""
      ensures item == NodeAt(Index(items, Key(path, hostname)))
    {
      var temp: CachedItem? := root;
      ghost var k := 0;
      var first := true;
      while temp != null
        invariant 0 <= k <= |nodes| && temp == if first then root else NodeAt(k)
        invariant first ==> k == 0
        invariant forall j {:trigger items[j]} :: 0 <= j < k ==> items[j].key != Key(path, hostname)
        decreases |nodes| - k, first
      {
        if !first { assert LinkedAt(k); }
        if path == temp.path && hostname == temp.hostname { return temp; }
        temp := temp.next;
        if first { first := false; } else { k := k + 1; }
      }
      return null;
    }

    /** update_time */
    method UpdateTime(target: CachedItem, now: int, ghost k: nat)
      requires Linked() && k < |nodes| && target == nodes[k]
      modifies nodes, this`items
      ensures Linked() && nodes == old(nodes) && items == old(items)[k := old(items)[k].(time := now)]
    {
      assert LinkedAt(k);
      target.accessTime := now;
      items := items[k := items[k].(time := now)];
      forall j {:trigger LinkedAt(j)} | 0 <= j < |nodes| ensures LinkedAt(j) { assert old(LinkedAt(j)); }
    }

    /** LRU: the first of the items used longest ago; the list must not be empty. */
    method LRU() returns (eviction: CachedItem)
      requires Linked() && items != []
      ensures eviction == nodes[Victim(items, |items|)]
    {
      var temp := root.next;
      eviction := temp;
      assert LinkedAt(0);
      var least := temp.accessTime;
      ghost var v, k := 0, 0;
      while temp != null
        invariant 0 <= k <= |nodes| && temp == NodeAt(k)
        invariant 0 <= v < |nodes| && eviction == nodes[v] && least == items[v].time
        invariant v == if k == 0 then 0 else Victim(items, k)
        decreases |nodes| - k
      {
        assert LinkedAt(k);
        if least > temp.accessTime {
          least := temp.accessTime;
          eviction := temp;
          v := k;
        }
        temp := temp.next;
        k := k + 1;
      }
    }

    /** delete_cache */
    method DeleteCache(eviction: CachedItem, ghost v: nat)
      requires Valid() && v < |nodes| && eviction == nodes[v]
      modifies this, nodes, root
      ensures Valid() && nodes == old(nodes)[..v] + old(nodes)[v + 1..] && items == Without(old(items), v)
    {
      var temp := root;
      ghost var k := 0;
      while temp.next != eviction
        invariant 0 <= k <= v && temp == Before(k)
        decreases v - k
      {
        if k > 0 { assert LinkedAt(k - 1); }
        temp := temp.next;
        k := k + 1;
      }
      if k > 0 { assert LinkedAt(k - 1); }
      assert eviction.size == |items[v].data| by { assert LinkedAt(v); }
      VolumeWithout(items, v);
      hide Linked, Volume;
      Unlink(temp, eviction, v);
      cacheVolume := cacheVolume - eviction.size;
    }

    method Unlink(temp: CachedItem, eviction: CachedItem, ghost v: nat)
      requires Linked() && v < |nodes| && eviction == nodes[v] && temp == Before(v)
      modifies this`nodes, this`items, nodes, root
      ensures Linked() && nodes == old(nodes)[..v] + old(nodes)[v + 1..] && items == Without(old(items), v)
      ensures eviction.size == old(eviction.size)
    {
      assert LinkedAt(v);
      if v > 0 { assert LinkedAt(v - 1); }
      temp.next := eviction.next;
      nodes, items := nodes[..v] + nodes[v + 1..], Without(items, v);
      forall j {:trigger LinkedAt(j)} | 0 <= j < |nodes| ensures LinkedAt(j) {
        assert old(LinkedAt(if j < v then j else j + 1));
      }
    }

    /** create_cache: a blank item at the end of the list. */
    method CreateCache() returns (target: CachedItem)
      requires Linked()
      modifies this`nodes, this`items, nodes, root
      ensures Linked() && fresh(target) && nodes == old(nodes) + [target]
      ensures items == old(items) + [Entry(Key("", ""), [], 0)]
    {
      var temp := root;
      ghost var k := 0;
      while temp.next != null
        invariant 0 <= k <= |nodes| && temp == Before(k)
        decreases |nodes| - k
      {
        if k > 0 { assert LinkedAt(k - 1); }
        temp := temp.next;
        k := k + 1;
      }
      if k > 0 { assert LinkedAt(k - 1); }
      target := new CachedItem();
      temp.next := target;
      nodes, items := nodes + [target], items + [target.View()];
      forall j {:trigger LinkedAt(j)} | 0 <= j < |nodes| ensures LinkedAt(j) {
        if j < |nodes| - 1 { assert old(LinkedAt(j)); }
      }
    }

    /** The new item takes the response. */
    method Fill(target: CachedItem, path: string, hostname: string, data: seq<byte>, now: int, ghost before: seq<Entry>)
      requires Linked() && |nodes| > 0 && target == nodes[|nodes| - 1]
      requires items == before + [Entry(Key("", ""), [], 0)] && cacheVolume == Volume(before)
      modifies this`items, this`cacheVolume, target
      ensures Valid() && nodes == old(nodes) && items == before + [Entry(Key(path, hostname), data, now)]
    {
      assert LinkedAt(|nodes| - 1);
      target.size := |data|;
      target.hostname := hostname;
      target.path := path;
      target.data := data;
      cacheVolume := cacheVolume + |data|;
      target.accessTime := now;
      items := before + [target.View()];
      VolumeConcat(before, [target.View()]);
      SingleVolume(target.View());
      hide Volume;
      forall j {:trigger LinkedAt(j)} | 0 <= j < |nodes| ensures LinkedAt(j) {
        assert old(LinkedAt(j));
      }
    }

    /** The eviction loop: it ends, and it never asks an empty list for a victim. */
    method Evict(cacheSize: nat)
      requires Valid() && cacheSize <= MAX_OBJECT_SIZE
      modifies this, nodes, root
      ensures Valid() && items == MakeRoom(old(items), cacheSize) && OnlyNewNodes()
    {
      while cacheVolume + cacheSize > MAX_CACHE_SIZE
        invariant Valid() && MakeRoom(items, cacheSize) == MakeRoom(old(items), cacheSize) && OnlyNewNodes()
        decreases |items|
      {
        assert items != [];
        var eviction := LRU();
        forall k | 0 <= k < |nodes| ensures nodes[k] in old(nodes) || fresh(nodes[k]) { assert nodes[k] in nodes; }
        DeleteCache(eviction, Victim(items, |items|));
      }
    }

    twostate predicate OnlyNewNodes()
      reads this
    {
      forall n :: n in nodes ==> n in old(nodes) || fresh(n)
    }

    /** The end of send_request for a cachable response. */
    method InsertResponse(path: string, hostname: string, cacheBuf: array<byte>, cacheSize: nat, now: int,
                          junk: seq<byte>, ghost response: seq<byte>)
      requires Valid() && |response| == cacheSize <= MAX_OBJECT_SIZE < cacheBuf.Length && Agrees(cacheBuf[..], response)
      modifies this, nodes, root
      ensures Valid() && OnlyNewNodes() && items == Insert(old(items), Get(Key(path, hostname), response, now, junk))
    {
      hide Linked, MakeRoom, Volume;
      Evict(cacheSize);
      ghost var before := items;
      forall k | 0 <= k < |nodes| ensures nodes[k] in old(nodes) || fresh(nodes[k]) { assert nodes[k] in nodes; }
      var newCache := CreateCache();
      var data := SaveResponse(cacheBuf, cacheSize, junk, response);
      Fill(newCache, path, hostname, data, now, before);
    }

    /** send_request from the first byte of the response on: the client gets all of it, and the cache
        keeps it when it is small enough. */
    method SendRequest(rio: Reader, path: string, hostname: string, now: int, junk: seq<byte>) returns (sent: seq<byte>)
      requires Valid() && rio.Valid() && Failed !in rio.fd.schedule
      modifies this, nodes, root, rio, rio.fd, rio.buf
      ensures Valid() && OnlyNewNodes() && sent == old(rio.Undelivered())
      ensures items ==
        if |sent| <= MAX_OBJECT_SIZE then Insert(old(items), Get(Key(path, hostname), sent, now, junk)) else old(items)
    {
      var cacheBuf := new byte[MAX_OBJECT_SIZE + 1];
      var cachable, cacheSize;
      sent, cachable, cacheSize := Relay(rio, cacheBuf);
      if cachable {
        InsertResponse(path, hostname, cacheBuf, cacheSize, now, junk, sent);
      }
    }

    /** server_handler: replay what is cached under the path and the first Host header there is, else
        ask the server. */
    method ServerHandler(rio: Reader, path: string, now: int, junk: seq<byte>) returns (sent: seq<byte>)
      requires Valid() && rio.Valid() && Failed !in rio.fd.schedule && path != ""
      requires Lookup(headers.headers, HOST).Some?
      modifies this, nodes, root, rio, rio.fd, rio.buf
      ensures Valid() && OnlyNewNodes()
      ensures var g := Get(Key(path, Lookup(headers.headers, HOST).value), old(rio.Undelivered()), now, junk);
        items == Handle(old(items), g) && sent == Answer(old(items), g)
    {
      var host := headers.GetHeaderByKey(HOST);
      var target := SearchCache(path, host.value);
      hide Linked, Valid, Insert, Volume;
      if target != null {
        sent := Replay(target, now, Index(items, Key(path, host.value)));
        return;
      }
      sent := SendRequest(rio, path, host.value, now, junk);
    }

    /** A hit: the stored bytes are sent and the time is renewed. */
    method Replay(target: CachedItem, now: int, ghost k: nat) returns (sent: seq<byte>)
      requires Valid() && k < |nodes| && k < |items| && target == nodes[k]
      modifies this`items, nodes
      ensures Valid() && nodes == old(nodes) && items == old(items)[k := old(items)[k].(time := now)]
      ensures sent == old(items)[k].data
    {
      assert LinkedAt(k);
      hide Linked, LinkedAt, Volume;
      sent := target.data;
      VolumeRetimed(items, k, now);
      UpdateTime(target, now, k);
    }

    /** thread_handler: read the request, then answer it. */
    method ServeOne(v: Visit) returns (sent: seq<byte>)
      requires Valid() && v.path != "" && Failed !in v.schedule
      modifies this, nodes, root, headers
      ensures Valid() && OnlyNewNodes() && headers.headers == WithDefaults(old(headers.headers) + v.parsed, v.hostname)
      ensures Lookup(headers.headers, HOST).Some?
      ensures var g := Get(Key(v.path, Lookup(headers.headers, HOST).value), v.response, v.now, v.junk);
        items == Handle(old(items), g) && sent == Answer(old(items), g)
    {
      hide Linked, Valid, Handle, Answer, WithDefaults;
      headers.ClientHandler(v.parsed, v.hostname);
      var server := new Descriptor(v.response, v.schedule);
      var rio := new Reader(server);
      sent := ServerHandler(rio, v.path, v.now, v.junk);
    }

    /** A whole sequential run of the proxy, one connection after the other. */
    method ServeAll(visits: seq<Visit>) returns (answers: seq<seq<byte>>)
      requires Valid() && items == [] && headers.headers == []
      requires forall v :: v in visits ==> v.path != "" && Failed !in v.schedule
      modifies this, nodes, root, headers
      ensures Valid() && items == Run(Gets(visits)) && headers.headers == HeadersAfter(visits) && |answers| == |visits|
      ensures forall i {:trigger answers[i]} :: 0 <= i < |visits| ==> answers[i] == AnswerTo(visits[..i + 1])
    {
      hide Linked, Valid, Handle, Answer, AnswerTo, Run, Gets, HeadersAfter, WithDefaults;
      NoVisits(visits);
      answers := [];
      for i := 0 to |visits|
        invariant Valid() && OnlyNewNodes() && items == Run(Gets(visits[..i])) && |answers| == i
        invariant headers.headers == HeadersAfter(visits[..i])
        invariant forall j {:trigger answers[j]} :: 0 <= j < i ==> answers[j] == AnswerTo(visits[..j + 1])
      {
        assert visits[i] in visits;
        forall k | 0 <= k < |nodes| ensures nodes[k] in old(nodes) || fresh(nodes[k]) { assert nodes[k] in nodes; }
        var sent := ServeOne(visits[i]);
        OneMore(visits, i);
        answers := answers + [sent];
      }
      assert visits[..|visits|] == visits;
    }
  }

  lemma NoVisits(visits: seq<Visit>)
    ensures Run(Gets(visits[..0])) == [] && HeadersAfter(visits[..0]) == []
  {
    assert visits[..0] == [];
  }

  /** What one more visit does to a run. */
  lemma OneMore(visits: seq<Visit>, i: nat)
    requires i < |visits|
    ensures
      var v, hs := visits[i], WithDefaults(HeadersAfter(visits[..i]) + visits[i].parsed, visits[i].hostname);
      && HeadersAfter(visits[..i + 1]) == hs
      && (Lookup(hs, HOST).Some? ==>
            var g := Get(Key(v.path, Lookup(hs, HOST).value), v.response, v.now, v.junk);
            && Run(Gets(visits[..i + 1])) == Handle(Run(Gets(visits[..i])), g)
            && AnswerTo(visits[..i + 1]) == Answer(Run(Gets(visits[..i])), g))
  {
    hide WithDefaults, Handle, Answer;
    var one := visits[..i + 1];
    assert one[..i] == visits[..i] && one[i] == visits[i];
    RunOnce(one);
  }

  lemma Rejoin(sent: seq<byte>, rest: seq<byte>, n: nat)
    requires n <= |rest|
    ensures sent + rest == (sent + rest[..n]) + rest[n..] && rest[0..] == rest
  {
  }

  /** The read loop of send_request: every chunk goes to the client, and to cache_buf while it fits. */
  method Relay(rio: Reader, cacheBuf: array<byte>) returns (sent: seq<byte>, cachable: bool, cacheSize: nat)
    requires rio.Valid() && Failed !in rio.fd.schedule && cacheBuf.Length == MAX_OBJECT_SIZE + 1 && cacheBuf != rio.buf
    modifies rio, rio.fd, rio.buf, cacheBuf
    ensures sent == old(rio.Undelivered()) && (cachable <==> |sent| <= 102400)
    ensures cachable ==> cacheSize == |sent| && Agrees(cacheBuf[..], sent)
  {
    ghost var response := rio.Undelivered();
    var readBuf := new byte[MAXLINE];
    sent, cachable, cacheSize := [], true, 0;
    while true
      invariant rio.Valid() && Failed !in rio.fd.schedule && response == sent + rio.Undelivered()
      invariant cachable ==> cacheSize == |sent| <= MAX_OBJECT_SIZE && Agrees(cacheBuf[..], sent)
      invariant !cachable ==> |sent| > MAX_OBJECT_SIZE
      decreases |rio.Undelivered()|
    {
      ghost var rest := rio.Undelivered();
      hide Reader.Undelivered, Reader.Valid, Agrees;
      var n := rio.ReadNb(readBuf, MAXLINE);
      Rejoin(sent, rest, n);
      if n <= 0 { break; }
      if cachable {
        if n + cacheSize <= MAX_OBJECT_SIZE {
          SaveChunk(cacheBuf, cacheSize, readBuf, n, sent);
          cacheSize := cacheSize + n;
        } else {
          cachable := false;
        }
      }
      sent := sent + readBuf[..n];
    }
  }
}
