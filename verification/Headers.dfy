/** The header list of proxy.c: one global list that every request appends to and nothing clears. */
module Headers {
  import opened Basics

  datatype Header = Header(name: string, data: string)

  const HOST := "Host"
  const USER_AGENT := "Agent: Mozilla/5.0 (X11; Linux x86_64; rv:10.0.3) Gecko/20120305 Firefox/10.0.3"

  /** The data of the first header with the name. */
  function Lookup(headers: seq<Header>, name: string): Option<string> {
    if headers == [] then None
    else if headers[0].name == name then Some(headers[0].data)
    else Lookup(headers[1..], name)
  }

  /** What comes later never replaces what is there. */
  lemma {:induction false} FirstStays(headers: seq<Header>, more: seq<Header>, name: string)
    ensures Lookup(headers + more, name) ==
      if Lookup(headers, name).Some? then Lookup(headers, name) else Lookup(more, name)
  {
    if headers == [] {
      assert headers + more == more;
    } else {
      assert (headers + more)[1..] == headers[1..] + more;
      FirstStays(headers[1..], more, name);
    }
  }

  lemma {:induction false} NotFound(headers: seq<Header>, name: string)
    requires forall i {:trigger headers[i]} :: 0 <= i < |headers| ==> headers[i].name != name
    ensures Lookup(headers, name).None?
  {
    if headers != [] { NotFound(headers[1..], name); }
  }

  lemma {:induction false} FoundAt(headers: seq<Header>, name: string, k: nat)
    requires k < |headers| && headers[k].name == name
    requires forall i {:trigger headers[i]} :: 0 <= i < k ==> headers[i].name != name
    ensures Lookup(headers, name) == Some(headers[k].data)
  {
    if k > 0 { FoundAt(headers[1..], name, k - 1); }
  }

  /** A default is appended when no header has its name. */
  function WithDefault(headers: seq<Header>, name: string, data: string): seq<Header> {
    if Lookup(headers, name).Some? then headers else headers + [Header(name, data)]
  }

  function WithDefaults(headers: seq<Header>, hostname: string): seq<Header> {
    WithDefault(WithDefault(WithDefault(WithDefault(
      headers, HOST, hostname), "User-Agent", USER_AGENT), "Connection", "close"), "Proxy-Connection", "close")
  }

  lemma DefaultKeeps(headers: seq<Header>, name: string, data: string, other: string)
    ensures Lookup(WithDefault(headers, name, data), other) ==
      if Lookup(headers, other).Some? then Lookup(headers, other) else if other == name then Some(data) else None
  {
    FirstStays(headers, [Header(name, data)], other);
  }

  /** What a request without the header gets. */
  function DefaultOf(name: string, hostname: string): Option<string> {
    if name == "Host" then Some(hostname)
    else if name == "User-Agent" then
      Some("Agent: Mozilla/5.0 (X11; Linux x86_64; rv:10.0.3) Gecko/20120305 Firefox/10.0.3")
    else if name == "Connection" || name == "Proxy-Connection" then Some("close")
    else None
  }

  /** What a lookup gives after a request with these headers for this host: the first such header there
      ever was, else the request's own, else the default. */
  lemma HeaderAfter(before: seq<Header>, parsed: seq<Header>, hostname: string, name: string)
    ensures Lookup(WithDefaults(before + parsed, hostname), name) ==
      if Lookup(before, name).Some? then Lookup(before, name)
      else if Lookup(parsed, name).Some? then Lookup(parsed, name)
      else DefaultOf(name, hostname)
  {
    hide Lookup, WithDefault;
    var h0 := before + parsed;
    FirstStays(before, parsed, name);
    var h1 := WithDefault(h0, HOST, hostname);
    DefaultKeeps(h0, HOST, hostname, name);
    var h2 := WithDefault(h1, "User-Agent", USER_AGENT);
    DefaultKeeps(h1, "User-Agent", USER_AGENT, name);
    var h3 := WithDefault(h2, "Connection", "close");
    DefaultKeeps(h2, "Connection", "close", name);
    DefaultKeeps(h3, "Proxy-Connection", "close", name);
  }

  /** So there is a Host header: the first there ever was or, failing that, the host of the request line. */
  lemma HostAfter(before: seq<Header>, parsed: seq<Header>, hostname: string)
    ensures Lookup(WithDefaults(before + parsed, hostname), HOST) ==
      if Lookup(before, HOST).Some? then Lookup(before, HOST)
      else if Lookup(parsed, HOST).Some? then Lookup(parsed, HOST)
      else Some(hostname)
  {
    HeaderAfter(before, parsed, hostname, HOST);
  }

  class HeaderList {
    var headers: seq<Header>

    constructor ()
      ensures headers == []
    {
      headers := [];
    }

    /** insert_header */
    method InsertHeader(header: Header)
      modifies this
      ensures headers == old(headers) + [header]
    {
      headers := headers + [header];
    }

    /** get_header_by_key */
    method GetHeaderByKey(name: string) returns (data: Option<string>)
      ensures data == Lookup(headers, name)
    {
      var i := 0;
      while i < |headers|
        invariant i <= |headers| && forall j {:trigger headers[j]} :: 0 <= j < i ==> headers[j].name != name
      {
        if headers[i].name == name {
          FoundAt(headers, name, i);
          return Some(headers[i].data);
        }
        i := i + 1;
      }
      NotFound(headers, name);
      data := None;
    }

    method InsertDefault(name: string, data: string)
      modifies this
      ensures headers == WithDefault(old(headers), name, data)
    {
      var found := GetHeaderByKey(name);
      if found.None? { InsertHeader(Header(name, data)); }
    }

    /** init_header */
    method InitHeader(hostname: string)
      modifies this
      ensures headers == WithDefaults(old(headers), hostname)
    {
      hide WithDefault;
      InsertDefault(HOST, hostname);
      InsertDefault("User-Agent", USER_AGENT);
      InsertDefault("Connection", "close");
      InsertDefault("Proxy-Connection", "close");
    }

    /** client_handler, after parsing: the request's headers, then the defaults. */
    method ClientHandler(parsed: seq<Header>, hostname: string)
      modifies this
      ensures headers == WithDefaults(old(headers) + parsed, hostname)
      ensures Lookup(headers, HOST).Some?
    {
      ghost var before := headers;
      for i := 0 to |parsed|
        invariant headers == before + parsed[..i]
      {
        InsertHeader(parsed[i]);
      }
      assert parsed[..|parsed|] == parsed;
      InitHeader(hostname);
      HostAfter(before, parsed, hostname);
    }
  }
}
