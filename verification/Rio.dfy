/** The buffered reader of csapp.c. */
module Rio {
  import opened Basics
  import opened Streams

  const RIO_BUFSIZE := 8192

  /** An open descriptor: the bytes still to come and how the next calls of read() will end. */
  class Descriptor {
    var stream: seq<byte>
    var schedule: seq<Event>

    constructor (stream: seq<byte>, schedule: seq<Event>)
      ensures this.stream == stream && this.schedule == schedule
    {
      this.stream, this.schedule := stream, schedule;
    }

    /** read(): -1 when interrupted or failed, 0 at the end, else at least one byte and at most n. */
    method Read(buf: array<byte>, n: nat) returns (count: int, interrupted: bool)
      requires 0 < n <= buf.Length
      modifies this, buf
      ensures -1 <= count <= n && count <= |old(stream)|
      ensures count < 0 ==> stream == old(stream) && buf[..] == old(buf[..])
      ensures count < 0 ==> old(schedule) != [] && old(schedule)[0] == if interrupted then Interrupted else Failed
      ensures count == 0 ==> old(stream) == [] && stream == []
      ensures count > 0 ==> buf[..count] + stream == old(stream)
      ensures schedule == if old(schedule) == [] then [] else old(schedule)[1..]
    {
      var event := if schedule == [] then Short(n) else schedule[0];
      schedule := if schedule == [] then [] else schedule[1..];
      if !event.Short? { return -1, event.Interrupted?; }
      var k := Min(Min(n, |stream|), if event.count == 0 then 1 else event.count);
      for i := 0 to k
        invariant k <= |stream| && buf[..i] == stream[..i] && stream == old(stream)
        invariant schedule == if old(schedule) == [] then [] else old(schedule)[1..]
      {
        buf[i] := stream[i];
      }
      assert stream == stream[..k] + stream[k..];
      stream := stream[k..];
      return k, false;
    }
  }

  class Reader {
    const fd: Descriptor
    const buf: array<byte>
    var cnt: int
    var bufptr: nat

    ghost predicate Valid()
      reads this, fd, buf
    {
      buf.Length == RIO_BUFSIZE && (cnt > 0 ==> bufptr + cnt <= buf.Length)
    }

    /** What has been taken from the descriptor but not yet handed out, and what is still to come. */
    ghost function Undelivered(): seq<byte>
      requires Valid()
      reads this, fd, buf
    {
      (if cnt > 0 then buf[bufptr..bufptr + cnt] else []) + fd.stream
    }

    /** rio_readinitb */
    constructor (fd: Descriptor)
      ensures Valid() && fresh(buf) && this.fd == fd && Undelivered() == fd.stream
    {
      this.fd := fd;
      buf := new byte[RIO_BUFSIZE](_ => 0);
      cnt := 0;
      bufptr := 0;
    }

    /** The refill loop of rio_read. */
    method Refill() returns (status: int)
      requires Valid()
      modifies this, fd, buf
      ensures Valid() && Undelivered() == old(Undelivered()) && -1 <= status <= 1
      ensures status == 1 ==> cnt > 0
      ensures status == 0 ==> Undelivered() == []
      ensures status == -1 ==> Failed in old(fd.schedule)
      ensures Failed in fd.schedule ==> Failed in old(fd.schedule)
    {
      while cnt <= 0
        invariant Valid() && Undelivered() == old(Undelivered())
        invariant Failed in fd.schedule ==> Failed in old(fd.schedule)
        decreases |fd.schedule|, if cnt > 0 then 0 else 1
      {
        ghost var s := fd.stream;
        assert [] + s == s;
        var interrupted;
        cnt, interrupted := fd.Read(buf, RIO_BUFSIZE);
        if cnt < 0 {
          if !interrupted { return -1; }
        } else if cnt == 0 {
          return 0;
        } else {
          bufptr := 0;
          assert buf[0..cnt] == buf[..cnt];
        }
      }
      return 1;
    }

    /** The rest of rio_read: copy min(n, cnt) bytes out of the buffer. */
    method HandOut(usrbuf: array<byte>, at: nat, n: nat) returns (count: nat)
      requires Valid() && cnt > 0 && at + n <= usrbuf.Length && usrbuf != buf
      modifies this, usrbuf
      ensures Valid() && count == Min(n, old(cnt)) && count <= |old(Undelivered())|
      ensures Undelivered() == old(Undelivered())[count..] && usrbuf[at..at + count] == old(Undelivered())[..count]
      ensures usrbuf[..at] == old(usrbuf[..at])
    {
      count := n;
      if cnt < n { count := cnt; }
      ghost var b, all := buf[..], Undelivered();
      assert all == b[bufptr..bufptr + cnt] + fd.stream;
      Served(b, bufptr, cnt, count, fd.stream);
      Memcpy(usrbuf, at, buf, bufptr, count);
      bufptr := bufptr + count;
      cnt := cnt - count;
      assert Undelivered() == b[bufptr..bufptr + cnt] + fd.stream;
    }

    /** rio_read: refill an empty buffer, then hand out what is there. */
    method ReadSome(usrbuf: array<byte>, at: nat, n: nat) returns (count: int)
      requires Valid() && at + n <= usrbuf.Length && usrbuf != buf
      modifies this, fd, buf, usrbuf
      ensures Valid() && -1 <= count <= n && count <= |old(Undelivered())|
      ensures count < 0 ==> Failed in old(fd.schedule) && Undelivered() == old(Undelivered())
      ensures count >= 0 ==> Undelivered() == old(Undelivered())[count..]
      ensures count >= 0 ==> usrbuf[at..at + count] == old(Undelivered())[..count]
      ensures count == 0 && n > 0 ==> old(Undelivered()) == []
      ensures usrbuf[..at] == old(usrbuf[..at])
      ensures Failed in fd.schedule ==> Failed in old(fd.schedule)
    {
      ghost var all := Undelivered();
      assert all[0..] == all && usrbuf[at..at] == all[..0];
      hide Undelivered;
      var status := Refill();
      if status != 1 { return status; }
      count := HandOut(usrbuf, at, n);
    }

    /** rio_readnb: exactly the next min(n, remaining) bytes, however read() behaved, unless it failed. */
    method ReadNb(usrbuf: array<byte>, n: nat) returns (r: int)
      requires Valid() && n <= usrbuf.Length && usrbuf != buf
      modifies this, fd, buf, usrbuf
      ensures Valid() && (Failed in fd.schedule ==> Failed in old(fd.schedule))
      ensures r >= 0 ==> r == Min(n, |old(Undelivered())|)
      ensures r >= 0 ==> usrbuf[..r] == old(Undelivered())[..r] && Undelivered() == old(Undelivered())[r..]
      ensures r < 0 ==> r == -1 && Failed in old(fd.schedule) && Dropped(old(Undelivered()), Undelivered(), n)
    {
      ghost var s := Undelivered();
      assert s[0..] == s;
      hide Undelivered;
      var nleft, bufp := n, 0;
      while nleft > 0
        invariant Valid() && 0 <= nleft && 0 <= bufp && nleft + bufp == n && bufp <= |s|
        invariant Undelivered() == s[bufp..] && usrbuf[..bufp] == s[..bufp]
        invariant Failed in fd.schedule ==> Failed in old(fd.schedule)
      {
        var nread := ReadSome(usrbuf, bufp, nleft);
        if nread < 0 { return -1; }
        Extended(usrbuf[..], s, bufp, nread);
        if nread == 0 { break; }
        nleft := nleft - nread;
        bufp := bufp + nread;
      }
      return n - nleft;
    }

    /** rio_readlineb: the next line with its newline, at most maxlen - 1 bytes. Only at the end of the
        stream nothing is stored; with maxlen 0 the terminator is stored all the same. */
    method ReadLineb(usrbuf: array<byte>, maxlen: nat) returns (r: int)
      requires Valid() && Max(maxlen, 1) <= usrbuf.Length && usrbuf != buf
      modifies this, fd, buf, usrbuf
      ensures Valid() && (Failed in fd.schedule ==> Failed in old(fd.schedule))
      ensures r >= 0 ==> r == LineLength(old(Undelivered()), Max(maxlen - 1, 0))
      ensures r >= 0 ==> usrbuf[..r] == old(Undelivered())[..r] && Undelivered() == old(Undelivered())[r..]
      ensures r > 0 || (r == 0 && maxlen <= 1) ==> usrbuf[r] == 0
      ensures r < 0 ==> r == -1 && Failed in old(fd.schedule)
      ensures r < 0 ==> Dropped(old(Undelivered()), Undelivered(), Max(maxlen - 1, 0))
    {
      ghost var s := Undelivered();
      NothingYet(usrbuf[..], s);
      hide Valid, Undelivered, LineLength, Got, Dropped;
      var status, bufp := FillLine(usrbuf, maxlen, s);
      GotResult(usrbuf[..], s, Undelivered(), bufp);
      if status <= 0 { return status; }
      Terminate(usrbuf, bufp);
      return bufp;
    }

    /** The loop of rio_readlineb: status 1 when a line is there, 0 at the end, -1 when read failed. */
    method FillLine(usrbuf: array<byte>, maxlen: nat, ghost s: seq<byte>) returns (status: int, bufp: nat)
      requires Valid() && Max(maxlen, 1) <= usrbuf.Length && usrbuf != buf && Got(usrbuf[..], s, Undelivered(), 0)
      modifies this, fd, buf, usrbuf
      ensures Valid() && (Failed in fd.schedule ==> Failed in old(fd.schedule)) && -1 <= status <= 1
      ensures Got(usrbuf[..], s, Undelivered(), bufp) && bufp <= Max(maxlen - 1, 0)
      ensures status >= 0 ==> bufp == LineLength(s, Max(maxlen - 1, 0))
      ensures status == 0 ==> bufp == 0 && maxlen > 1
      ensures status < 0 ==> Failed in old(fd.schedule)
    {
      ghost var cap := Max(maxlen - 1, 0);
      hide Valid, Undelivered, LineLength, Got;
      var n := 1;
      bufp := 0;
      while n < maxlen
        invariant 1 <= n <= cap + 1 && bufp == n - 1
        invariant Valid() && Got(usrbuf[..], s, Undelivered(), bufp)
        invariant forall i {:trigger s[i]} :: 0 <= i < bufp && i < |s| ==> s[i] != NEWLINE
        invariant Failed in fd.schedule ==> Failed in old(fd.schedule)
      {
        GotBounds(usrbuf[..], s, Undelivered(), bufp);
        var rc, c := ReadByte(usrbuf, bufp, s);
        if rc == 1 {
          LineGoesOn(s, cap, bufp);
          bufp := bufp + 1;
          if c == NEWLINE { return 1, bufp; }
        } else if rc == 0 {
          LineFull(s, cap, bufp);
          return if n == 1 then 0 else 1, bufp;
        } else {
          return -1, bufp;
        }
        n := n + 1;
      }
      GotBounds(usrbuf[..], s, Undelivered(), bufp);
      LineFull(s, cap, bufp);
      status := 1;
    }

    /** One byte by rio_read(rp, &c, 1), stored at usrbuf[at]. */
    method ReadByte(usrbuf: array<byte>, at: nat, ghost s: seq<byte>) returns (rc: int, c: byte)
      requires Valid() && at < usrbuf.Length && usrbuf != buf
      requires Got(usrbuf[..], s, Undelivered(), at)
      modifies this, fd, buf, usrbuf
      ensures Valid() && (Failed in fd.schedule ==> Failed in old(fd.schedule)) && -1 <= rc <= 1
      ensures rc < 0 ==> Failed in old(fd.schedule)
      ensures rc == 1 ==> at < |s| && c == s[at] && Got(usrbuf[..], s, Undelivered(), at + 1)
      ensures rc <= 0 ==> Got(usrbuf[..], s, Undelivered(), at)
      ensures rc == 0 ==> at == |s|
    {
      hide Valid, Undelivered;
      var cell := new byte[1](_ => 0);
      rc := ReadSome(cell, 0, 1);
      c := cell[0];
      if rc == 1 {
        assert cell[0..1][0] == s[at..][..1][0];
        ghost var u := usrbuf[..];
        usrbuf[at] := c;
        GotByte(u, s, at, c);
        assert usrbuf[..] == u[at := c];
      } else if rc == 0 {
        assert s[at..][0..] == s[at..];
      }
    }
  }

  /** n bytes of s are in the buffer u and the rest is still to come. */
  ghost predicate Got(u: seq<byte>, s: seq<byte>, rest: seq<byte>, n: int) {
    0 <= n <= |s| && n <= |u| && u[..n] == s[..n] && rest == s[n..]
  }

  lemma NothingYet(u: seq<byte>, s: seq<byte>)
    ensures Got(u, s, s, 0)
  {
  }

  lemma GotBounds(u: seq<byte>, s: seq<byte>, rest: seq<byte>, n: int)
    requires Got(u, s, rest, n)
    ensures 0 <= n <= |s| && n <= |u|
  {
  }

  lemma GotByte(u: seq<byte>, s: seq<byte>, n: int, c: byte)
    requires 0 <= n < |s| && n < |u| && Got(u, s, s[n..], n) && c == s[n]
    ensures Got(u[n := c], s, s[n..][1..], n + 1)
  {
    assert u[n := c][..n + 1] == u[..n] + [c];
    assert s[..n + 1] == s[..n] + [s[n]];
  }

  lemma GotResult(u: seq<byte>, s: seq<byte>, rest: seq<byte>, n: int)
    requires Got(u, s, rest, n)
    ensures 0 <= n <= |s| && n <= |u| && u[..n] == s[..n] && rest == s[n..]
    ensures forall cap {:trigger Dropped(s, rest, cap)} :: n <= cap ==> Dropped(s, rest, cap)
  {
    assert rest == s[n..];
  }

  /** The NUL after the line. */
  method Terminate(usrbuf: array<byte>, n: nat)
    requires n < usrbuf.Length
    modifies usrbuf
    ensures usrbuf[n] == 0 && usrbuf[..n] == old(usrbuf[..n])
  {
    usrbuf[n] := 0;
  }

  /** After a failed read up to n bytes of s are gone: they were copied out but never counted. */
  ghost predicate Dropped(s: seq<byte>, rest: seq<byte>, n: nat) {
    exists k {:trigger s[k..]} :: 0 <= k <= n && k <= |s| && rest == s[k..]
  }

  lemma Extended(u: seq<byte>, s: seq<byte>, at: nat, n: nat)
    requires at + n <= |u| && at <= |s| && n <= |s[at..]| && u[..at] == s[..at] && u[at..at + n] == s[at..][..n]
    ensures u[..at + n] == s[..at + n] && s[at..][n..] == s[at + n..]
  {
    assert u[..at + n] == u[..at] + u[at..at + n];
  }

  /** Handing out the first n of c buffered bytes. */
  lemma Served(b: seq<byte>, p: nat, c: nat, n: nat, stream: seq<byte>)
    requires n <= c && p + c <= |b|
    ensures b[p..p + n] == (b[p..p + c] + stream)[..n]
    ensures b[p + n..p + c] + stream == (b[p..p + c] + stream)[n..]
  {
  }

  method Memcpy(dst: array<byte>, at: nat, src: array<byte>, from: nat, n: nat)
    requires dst != src && at + n <= dst.Length && from + n <= src.Length
    modifies dst
    ensures dst[..at] == old(dst[..at]) && dst[at..at + n] == src[from..from + n]
  {
    for i := 0 to n
      invariant dst[..at] == old(dst[..at]) && dst[at..at + i] == src[from..from + i]
    {
      dst[at + i] := src[from + i];
    }
  }

  /** Any interleaving of the two readers on one descriptor gets consecutive pieces of the stream. */
  method Serve(rp: Reader, qs: seq<Request>) returns (pieces: seq<seq<byte>>, ok: bool)
    requires rp.Valid()
    modifies rp, rp.fd, rp.buf
    ensures rp.Valid()
    ensures Failed !in old(rp.fd.schedule) ==> ok
    ensures ok ==> pieces == Pieces(old(rp.Undelivered()), qs) && rp.Undelivered() == Rest(old(rp.Undelivered()), qs)
  {
    ghost var s := rp.Undelivered();
    hide Wanted;
    pieces := [];
    assert qs[..0] == [];
    for i := 0 to |qs|
      invariant rp.Valid() && (Failed in rp.fd.schedule ==> Failed in old(rp.fd.schedule))
      invariant pieces == Pieces(s, qs[..i]) && rp.Undelivered() == Rest(s, qs[..i])
    {
      var piece;
      piece, ok := One(rp, qs[i]);
      if !ok { return; }
      assert qs[..i + 1] == qs[..i] + [qs[i]];
      PiecesSnoc(s, qs[..i], qs[i]);
      pieces := pieces + [piece];
    }
    assert qs[..|qs|] == qs;
    ok := true;
  }

  method One(rp: Reader, q: Request) returns (piece: seq<byte>, ok: bool)
    requires rp.Valid()
    modifies rp, rp.fd, rp.buf
    ensures rp.Valid() && (Failed in rp.fd.schedule ==> Failed in old(rp.fd.schedule))
    ensures !ok ==> Failed in old(rp.fd.schedule)
    ensures ok ==> var k := Wanted(old(rp.Undelivered()), q);
      piece == old(rp.Undelivered())[..k] && rp.Undelivered() == old(rp.Undelivered())[k..]
  {
    var usrbuf := new byte[if q.Bytes? then q.n else Max(q.maxlen, 1)](_ => 0);
    var r;
    if q.Bytes? { r := rp.ReadNb(usrbuf, q.n); } else { r := rp.ReadLineb(usrbuf, q.maxlen); }
    ok := r >= 0;
    piece := if ok then usrbuf[..r] else [];
  }
}
