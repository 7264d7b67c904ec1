/** Whole runs of the proxy: which cache key each visit gets, and what its client sees. */
module Visits {
  import opened Basics
  import opened Streams
  import opened Headers
  import opened CachePolicy

  /** One connection: the headers sent and the host of the request line, the path, the response its
      server would give and how that socket behaves, the clock, and what malloc leaves in new memory. */
  datatype Visit = Visit(parsed: seq<Header>, hostname: string, path: string, response: seq<byte>,
                         schedule: seq<Event>, now: int, junk: seq<byte>)

  /** The header list after a run. */
  function HeadersAfter(visits: seq<Visit>): seq<Header> {
    if visits == [] then [] else
    var v := visits[|visits| - 1];
    WithDefaults(HeadersAfter(visits[..|visits| - 1]) + v.parsed, v.hostname)
  }

  /** The Host header that send_request and search_cache see after a run. */
  function HostSeen(visits: seq<Visit>): string {
    match Lookup(HeadersAfter(visits), HOST) case Some(host) => host case None => ""
  }

  /** The cache request that the last visit of a run makes. */
  function GetOf(visits: seq<Visit>): Get
    requires visits != []
  {
    var v := visits[|visits| - 1];
    Get(Key(v.path, HostSeen(visits)), v.response, v.now, v.junk)
  }

  function Gets(visits: seq<Visit>): (gs: seq<Get>)
    ensures |gs| == |visits|
  {
    if visits == [] then [] else Gets(visits[..|visits| - 1]) + [GetOf(visits)]
  }

  /** What the client of the last visit gets. */
  function AnswerTo(visits: seq<Visit>): seq<byte>
    requires visits != []
  {
    Answer(Run(Gets(visits[..|visits| - 1])), GetOf(visits))
  }

  /** The host that one visit to an untouched proxy puts first. */
  function OwnHost(v: Visit): string {
    match Lookup(v.parsed, HOST) case Some(host) => host case None => v.hostname
  }

  /** However long the run, every key carries the host of its first visit. */
  lemma {:induction false} OneHost(visits: seq<Visit>)
    requires visits != []
    ensures Lookup(HeadersAfter(visits), HOST) == Some(OwnHost(visits[0])) && HostSeen(visits) == OwnHost(visits[0])
  {
    var front, v := visits[..|visits| - 1], visits[|visits| - 1];
    HostAfter(HeadersAfter(front), v.parsed, v.hostname);
    if front != [] { OneHost(front); }
  }

  lemma {:induction false} GetAt(visits: seq<Visit>, i: nat)
    requires i < |visits|
    ensures Gets(visits)[i] == GetOf(visits[..i + 1])
  {
    hide GetOf;
    if i < |visits| - 1 {
      var front := visits[..|visits| - 1];
      GetAt(front, i);
      assert front[..i + 1] == visits[..i + 1];
    } else {
      assert visits[..i + 1] == visits;
    }
  }

  /** Two visits share a cache entry exactly when they ask for the same path, whatever their hosts. */
  lemma SharedEntry(visits: seq<Visit>, i: nat, j: nat)
    requires i < |visits| && j < |visits|
    ensures Gets(visits)[i].key == Gets(visits)[j].key <==> visits[i].path == visits[j].path
  {
    hide Gets, HostSeen, OwnHost, HeadersAfter;
    GetAt(visits, i);
    GetAt(visits, j);
    OneHost(visits[..i + 1]);
    OneHost(visits[..j + 1]);
  }

  /** The client gets what its server sends when all earlier visits to that path had the same response
      and it has no NUL before its last byte. */
  lemma {:induction false} ClientSeesServer(visits: seq<Visit>)
    requires visits != []
    requires
      var v := visits[|visits| - 1];
      && Strlen(v.response) + 1 >= |v.response|
      && forall i {:trigger visits[i]} ::
        0 <= i < |visits| && visits[i].path == v.path ==> visits[i].response == v.response
    ensures AnswerTo(visits) == visits[|visits| - 1].response
  {
    hide Gets, HostSeen, Strlen;
    var n := |visits| - 1;
    var gets, g := Gets(visits[..n]), GetOf(visits);
    forall i {:trigger gets[i]} | 0 <= i < |gets| && gets[i].key == g.key ensures gets[i].response == g.response {
      PathAt(visits[..n], i);
      assert visits[..n][i] == visits[i];
    }
    Transparent(gets, g);
  }

  /** After the first visit to a path with a cachable response, the next visit to that path gets what
      was stored of it. So it gets its own server's response exactly when the two agree, whatever
      hosts the two asked for. */
  lemma {:induction false} NextVisit(visits: seq<Visit>, u: Visit, v: Visit)
    requires forall i {:trigger visits[i]} :: 0 <= i < |visits| ==> visits[i].path != u.path
    requires u.path == v.path && |u.response| <= 102400
    ensures AnswerTo(visits + [u, v]) == StoredAs(u.response, u.junk)
  {
    hide HeadersAfter, HostSeen, OwnHost, Gets, Run, Handle, Answer, StoredAs, Index;
    var one, two := visits + [u], visits + [u, v];
    assert one[..|visits|] == visits && two[..|visits| + 1] == one && one[|visits|] == u && two[|visits| + 1] == v;
    OneHost(one);
    OneHost(two);
    assert one[0] == two[0];
    var items, g := Run(Gets(visits)), GetOf(one);
    Missing(visits, g.key);
    RunOnce(one);
    InsertedLast(items, g);
    AnswerFound(Run(Gets(one)), GetOf(two));
  }

  lemma RunOnce(visits: seq<Visit>)
    requires visits != []
    ensures Run(Gets(visits)) == Handle(Run(Gets(visits[..|visits| - 1])), GetOf(visits))
  {
    hide Handle, GetOf;
    var gets := Gets(visits);
    assert gets[..|gets| - 1] == Gets(visits[..|visits| - 1]);
  }

  lemma AnswerFound(items: seq<Entry>, g: Get)
    requires Index(items, g.key) < |items|
    ensures Answer(items, g) == items[Index(items, g.key)].data
  {
  }

  lemma {:induction false} Missing(visits: seq<Visit>, key: Key)
    requires forall i {:trigger visits[i]} :: 0 <= i < |visits| ==> visits[i].path != key.path
    ensures Index(Run(Gets(visits)), key) == |Run(Gets(visits))|
  {
    hide Run, Gets, Volume;
    var items := Run(Gets(visits));
    RunInvariant(Gets(visits));
    forall j | 0 <= j < |items| ensures items[j].key != key {
      assert items[j] in items;
      var i :| ComesFrom(Gets(visits), i, items[j]);
      PathAt(visits, i);
    }
  }

  lemma PathAt(visits: seq<Visit>, i: nat)
    requires i < |visits|
    ensures Gets(visits)[i].key.path == visits[i].path && Gets(visits)[i].response == visits[i].response
  {
    hide Gets, HostSeen;
    GetAt(visits, i);
  }

  /** A response just inserted is found. */
  lemma {:induction false} InsertedLast(items: seq<Entry>, g: Get)
    requires Index(items, g.key) == |items| && |g.response| <= MAX_OBJECT_SIZE
    ensures
      var after := Handle(items, g);
      Index(after, g.key) < |after| && after[Index(after, g.key)].data == StoredAs(g.response, g.junk)
  {
    var room := MakeRoom(items, |g.response|);
    var after := Handle(items, g);
    var k := Index(after, g.key);
    assert after[|room|].key == g.key;
    if k < |room| {
      Kept(items, |g.response|, room[k]);
      NotIndexed(items, g.key, room[k]);
    }
  }

  /** Two hosts, one path: the second client gets the first host's response. */
  lemma TwoHosts()
    ensures
      var u := Visit([Header(HOST, "a")], "a", "/", [1], [], 0, []);
      var v := Visit([Header(HOST, "b")], "b", "/", [2], [], 1, []);
      AnswerTo([u, v]) == [1] != v.response
  {
    var u := Visit([Header(HOST, "a")], "a", "/", [1], [], 0, []);
    var v := Visit([Header(HOST, "b")], "b", "/", [2], [], 1, []);
    NextVisit([], u, v);
    assert [] + [u, v] == [u, v];
    assert StoredAs([1], []) == [1];
  }
}
