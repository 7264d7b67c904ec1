/** Streams of bytes as read() serves them, and what a buffered reader has to deliver. */
module Streams {
  import opened Basics

  type byte = x: int | 0 <= x < 256

  const NEWLINE: byte := 10

  /** How one read() call ends: interrupted, failed, or with some of the bytes it could have had. */
  datatype Event = Interrupted | Failed | Short(count: nat)

  /** The length of the next line: through the first newline, but at most `cap` bytes. */
  function LineLength(s: seq<byte>, cap: nat): (r: nat)
    ensures r <= |s| && r <= cap
  {
    if cap == 0 || s == [] then 0
    else if s[0] == NEWLINE then 1
    else 1 + LineLength(s[1..], cap - 1)
  }

  /** A line stops at a newline, at the cap or at the end, and never runs past a newline. */
  lemma {:induction false} LineEnds(s: seq<byte>, cap: nat)
    ensures var r := LineLength(s, cap);
      && (forall i {:trigger s[i]} :: 0 <= i < r - 1 ==> s[i] != NEWLINE)
      && (r == cap || r == |s| || (r > 0 && s[r - 1] == NEWLINE))
  {
    if cap > 0 && s != [] && s[0] != NEWLINE {
      LineEnds(s[1..], cap - 1);
      forall i {:trigger s[i]} | 0 <= i < LineLength(s, cap) - 1 ensures s[i] != NEWLINE {
        if i > 0 { assert s[1..][i - 1] == s[i]; }
      }
    }
  }

  lemma {:induction false} LineGoesOn(s: seq<byte>, cap: nat, k: nat)
    requires k < |s| && k < cap && forall i {:trigger s[i]} :: 0 <= i < k ==> s[i] != NEWLINE
    ensures LineLength(s, cap) >= k + 1 && (s[k] == NEWLINE ==> LineLength(s, cap) == k + 1)
  {
    if k > 0 { LineGoesOn(s[1..], cap - 1, k - 1); }
  }

  lemma {:induction false} LineFull(s: seq<byte>, cap: nat, k: nat)
    requires k <= |s| && k <= cap && forall i {:trigger s[i]} :: 0 <= i < k ==> s[i] != NEWLINE
    requires k == |s| || k == cap
    ensures LineLength(s, cap) == k
  {
    if k > 0 { LineFull(s[1..], cap - 1, k - 1); }
  }

  /** A call of one of the two readers. */
  datatype Request = Bytes(n: nat) | Line(maxlen: nat)

  function Wanted(s: seq<byte>, q: Request): (r: nat)
    ensures r <= |s|
  {
    match q
    case Bytes(n) => Min(n, |s|)
    case Line(maxlen) => LineLength(s, Max(maxlen - 1, 0))
  }

  /** The pieces that the requests get from the stream s. */
  function Pieces(s: seq<byte>, qs: seq<Request>): seq<seq<byte>>
  {
    if qs == [] then [] else
    var k := Wanted(s, qs[0]);
    [s[..k]] + Pieces(s[k..], qs[1..])
  }

  function Rest(s: seq<byte>, qs: seq<Request>): seq<byte>
  {
    if qs == [] then s else Rest(s[Wanted(s, qs[0])..], qs[1..])
  }

  function Concat(pieces: seq<seq<byte>>): seq<byte> {
    if pieces == [] then [] else pieces[0] + Concat(pieces[1..])
  }

  /** Nothing is lost, repeated or reordered. */
  lemma {:induction false} PiecesPartition(s: seq<byte>, qs: seq<Request>)
    ensures Concat(Pieces(s, qs)) + Rest(s, qs) == s && |Pieces(s, qs)| == |qs|
  {
    if qs != [] {
      var k := Wanted(s, qs[0]);
      var p := Pieces(s[k..], qs[1..]);
      PiecesPartition(s[k..], qs[1..]);
      hide Wanted, Concat;
      assert Pieces(s, qs) == [s[..k]] + p && Rest(s, qs) == Rest(s[k..], qs[1..]);
      ConcatCons(s[..k], p);
      PutBack(s, k, Concat(p), Rest(s[k..], qs[1..]));
    }
  }

  /** Piece i is as its request wants it: n bytes, or a line that runs through its first newline or
      is cut at maxlen - 1 bytes. It is shorter only at the end of the stream. */
  lemma {:induction false} PieceIs(s: seq<byte>, qs: seq<Request>, i: nat)
    requires i < |qs|
    ensures |Pieces(s, qs)| == |qs|
    ensures
      var p, atEnd := Pieces(s, qs)[i], Rest(s, qs[..i + 1]) == [];
      match qs[i]
      case Bytes(n) => |p| == n || (|p| < n && atEnd)
      case Line(maxlen) =>
        && (|p| < maxlen || (|p| == 0 && maxlen == 0))
        && (forall j {:trigger p[j]} :: 0 <= j < |p| - 1 ==> p[j] != 10)
        && (|p| == Max(maxlen - 1, 0) || atEnd || (p != [] && p[|p| - 1] == 10))
  {
    PiecesPartition(s, qs);
    var k := Wanted(s, qs[0]);
    if i == 0 {
      assert qs[..1][1..] == [];
      FirstPiece(s, qs[0]);
    } else {
      hide Wanted;
      assert qs[..i + 1][1..] == qs[1..][..i];
      PieceIs(s[k..], qs[1..], i - 1);
    }
  }

  lemma FirstPiece(s: seq<byte>, q: Request)
    ensures
      var p := s[..Wanted(s, q)];
      match q
      case Bytes(n) => |p| == n || (|p| < n && |p| == |s|)
      case Line(maxlen) =>
        && (|p| < maxlen || (|p| == 0 && maxlen == 0))
        && (forall j {:trigger p[j]} :: 0 <= j < |p| - 1 ==> p[j] != 10)
        && (|p| == Max(maxlen - 1, 0) || |p| == |s| || (p != [] && p[|p| - 1] == 10))
  {
    if q.Line? {
      LineEnds(s, Max(q.maxlen - 1, 0));
      hide LineLength;
    }
  }

  lemma ConcatCons(x: seq<byte>, pieces: seq<seq<byte>>)
    ensures Concat([x] + pieces) == x + Concat(pieces)
  {
    assert ([x] + pieces)[1..] == pieces;
  }

  lemma PutBack(s: seq<byte>, k: nat, a: seq<byte>, b: seq<byte>)
    requires k <= |s| && a + b == s[k..]
    ensures s[..k] + a + b == s
  {
    assert s[..k] + a + b == s[..k] + (a + b);
  }

  lemma {:induction false} PiecesSnoc(s: seq<byte>, qs: seq<Request>, q: Request)
    ensures var r := Rest(s, qs); var k := Wanted(r, q);
      Pieces(s, qs + [q]) == Pieces(s, qs) + [r[..k]] && Rest(s, qs + [q]) == r[k..]
  {
    hide Wanted;
    if qs == [] {
      assert qs + [q] == [q];
    } else {
      var k := Wanted(s, qs[0]);
      PiecesSnoc(s[k..], qs[1..], q);
      assert (qs + [q])[1..] == qs[1..] + [q];
    }
  }
}
