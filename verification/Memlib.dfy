/** The simulated memory system of memlib.c: a fixed array of words and a break that only grows.
    The allocator reads and writes whole aligned words; bytes are parts of words. */
module Memlib {
  import opened Basics

  const MAX_HEAP: int := 20 * 1024 * 1024

  type word = x: int | 0 <= x < 0x1_0000_0000

  /** Byte k of a little-endian word. */
  function ByteOf(w: int, k: int): int {
    if k == 0 then w % 256
    else if k == 1 then w / 0x100 % 256
    else if k == 2 then w / 0x1_0000 % 256
    else w / 0x100_0000 % 256
  }

  function Unit(k: int): int {
    if k == 0 then 1 else if k == 1 then 0x100 else if k == 2 then 0x1_0000 else 0x100_0000
  }

  /** w with byte k replaced by v. */
  function WithByte(w: int, k: int, v: int): int {
    w + (v - ByteOf(w, k)) * Unit(k)
  }

  function Word(b0: int, b1: int, b2: int, b3: int): int {
    b0 + b1 * 0x100 + b2 * 0x1_0000 + b3 * 0x100_0000
  }

  lemma BytesOfWord(b0: int, b1: int, b2: int, b3: int)
    requires 0 <= b0 < 256 && 0 <= b1 < 256 && 0 <= b2 < 256 && 0 <= b3 < 256
    ensures
      var w := Word(b0, b1, b2, b3);
      0 <= w < 0x1_0000_0000 && ByteOf(w, 0) == b0 && ByteOf(w, 1) == b1 && ByteOf(w, 2) == b2 && ByteOf(w, 3) == b3
  {
    var w := Word(b0, b1, b2, b3);
    assert w / 0x100 == b1 + b2 * 0x100 + b3 * 0x1_0000;
    assert w / 0x1_0000 == b2 + b3 * 0x100;
    assert w / 0x100_0000 == b3;
  }

  lemma WordOfBytes(w: int)
    requires 0 <= w < 0x1_0000_0000
    ensures w == Word(ByteOf(w, 0), ByteOf(w, 1), ByteOf(w, 2), ByteOf(w, 3))
  {
    assert w / 0x100 / 0x100 == w / 0x1_0000;
    assert w / 0x1_0000 / 0x100 == w / 0x100_0000;
    assert w / 0x100_0000 < 256;
  }

  lemma WithByteIs(w: int, k: int, v: int)
    requires 0 <= w < 0x1_0000_0000 && 0 <= k < 4 && 0 <= v < 256
    ensures 0 <= WithByte(w, k, v) < 0x1_0000_0000
    ensures forall j :: 0 <= j < 4 ==> ByteOf(WithByte(w, k, v), j) == if j == k then v else ByteOf(w, j)
  {
    var b0, b1, b2, b3 := ByteOf(w, 0), ByteOf(w, 1), ByteOf(w, 2), ByteOf(w, 3);
    WordOfBytes(w);
    var c0, c1 := if k == 0 then v else b0, if k == 1 then v else b1;
    var c2, c3 := if k == 2 then v else b2, if k == 3 then v else b3;
    assert WithByte(w, k, v) == Word(c0, c1, c2, c3);
    BytesOfWord(c0, c1, c2, c3);
  }

  /** The byte at address a. */
  function ByteAt(w: map<int, int>, a: int): int {
    if a - a % 4 in w then ByteOf(w[a - a % 4], a % 4) else 0
  }

  function SetByte(w: map<int, int>, a: int, v: int): map<int, int> {
    if a - a % 4 in w then w[a - a % 4 := WithByte(w[a - a % 4], a % 4, v)] else w
  }

  ghost function MovedWord(w: map<int, int>, dst: int, src: int, n: int, q: int): int
    requires q in w
  {
    if dst <= q < dst + n && q - dst + src in w then w[q - dst + src] else w[q]
  }

  lemma SetByteIs(w: map<int, int>, a: int, v: int)
    requires a - a % 4 in w && 0 <= w[a - a % 4] < 0x1_0000_0000 && 0 <= v < 256
    ensures forall x {:trigger ByteAt(SetByte(w, a, v), x)} ::
      ByteAt(SetByte(w, a, v), x) == if x == a then v else ByteAt(w, x)
  {
    forall x {:trigger ByteAt(SetByte(w, a, v), x)}
      ensures ByteAt(SetByte(w, a, v), x) == if x == a then v else ByteAt(w, x) {
      WithByteIs(w[a - a % 4], a % 4, v);
      SameByte(x, a);
    }
  }

  lemma SameByte(x: int, a: int)
    ensures 0 <= x % 4 < 4 && (x == a <==> x - x % 4 == a - a % 4 && x % 4 == a % 4)
  {
  }

  /** The words from lo up to hi all exist, and no word lies beyond. */
  ghost predicate WordsUpTo(w: map<int, int>, lo: int, hi: int) {
    && (forall x {:trigger x in w} :: lo <= x < hi && x % 4 == 0 ==> x in w)
    && (forall x {:trigger w[x]} :: x in w ==> x % 4 == 0 && x < hi)
  }

  /** n bytes copied from src to dst as by memmove; all three are multiples of 4. */
  ghost function Moved(w: map<int, int>, dst: int, src: int, n: int): map<int, int> {
    map q | q in w :: MovedWord(w, dst, src, n, q)
  }

  /** Cell i holds v. */
  ghost predicate CellIs(w: map<int, int>, start: int, i: int, v: int) {
    start + 4 * i in w && w[start + 4 * i] == v
  }

  ghost predicate CellsAre(w: map<int, int>, start: int, cells: seq<int>) {
    forall i {:trigger cells[i]} :: 0 <= i < |cells| ==> CellIs(w, start, i, cells[i])
  }

  lemma MovedCell(w: map<int, int>, cells: seq<int>, start: int, d: int, s: int, m: int, i: int)
    requires CellsAre(w, start, cells) && 0 <= d && d + m <= |cells| && 0 <= s && s + m <= |cells| && 0 <= i < |cells|
    ensures CellIs(Moved(w, start + 4 * d, start + 4 * s, 4 * m), start, i,
      if d <= i < d + m then cells[i - d + s] else cells[i])
  {
    assert CellIs(w, start, i, cells[i]);
    if d <= i < d + m { assert CellIs(w, start, i - d + s, cells[i - d + s]); }
  }

  ghost predicate CellsMoved(cells: seq<int>, cells': seq<int>, d: int, s: int, m: int)
    requires 0 <= d && d + m <= |cells| && 0 <= s && s + m <= |cells|
  {
    |cells'| == |cells| &&
    forall i {:trigger cells'[i]} ::
      0 <= i < |cells| ==> cells'[i] == if d <= i < d + m then cells[i - d + s] else cells[i]
  }

  lemma MovedCells(w: map<int, int>, cells: seq<int>, cells': seq<int>, start: int, d: int, s: int, m: int)
    requires CellsAre(w, start, cells) && 0 <= d && d + m <= |cells| && 0 <= s && s + m <= |cells|
    requires CellsMoved(cells, cells', d, s, m)
    ensures CellsAre(Moved(w, start + 4 * d, start + 4 * s, 4 * m), start, cells')
    ensures Moved(w, start + 4 * d, start + 4 * s, 4 * m).Keys == w.Keys
  {
    var w' := Moved(w, start + 4 * d, start + 4 * s, 4 * m);
    forall i {:trigger cells'[i]} | 0 <= i < |cells'| ensures CellIs(w', start, i, cells'[i]) {
      MovedCell(w, cells, start, d, s, m, i);
    }
  }

  /** Which cell a word address means. */
  lemma CellIndex(p: int, start: int)
    requires start % 8 == 0 && p % 4 == 0
    ensures p == start + 4 * ((p - start) / 4)
  {
    var i, j := p / 4, start / 8;
    assert p == 4 * i && start == 8 * j;
    Quotient(p - start, 4, i - 2 * j, 0);
  }

  /** And back. */
  lemma CellAddress(i: int, start: int)
    requires start % 8 == 0
    ensures (start + 4 * i) % 4 == 0 && (start + 4 * i - start) / 4 == i
  {
    var j := start / 8;
    assert start == 8 * j;
    Quotient(start + 4 * i, 4, 2 * j + i, 0);
    Quotient(start + 4 * i - start, 4, i, 0);
  }

  lemma WordStart(a: int, start: int)
    requires start % 8 == 0 && start <= a
    ensures (a - a % 4) % 4 == 0 && start <= a - a % 4 <= a && 0 <= a % 4 < 4
  {
    var q, j := a / 4, start / 8;
    assert a == 4 * q + a % 4 && start == 8 * j;
    Quotient(4 * q, 4, q, 0);
  }

  class Memory {
    const start: int
    const cells: array<word>
    var brk: int
    /** What the array says, by byte address of each word. */
    ghost var words: map<int, int>

    ghost predicate Valid()
      reads this, cells
    {
      && start % 8 == 0 && 0 < start && start + MAX_HEAP <= 0x1_0000_0000
      && 4 * cells.Length == MAX_HEAP && start <= brk <= start + MAX_HEAP
      && (forall p {:trigger p in words} :: p in words <==> start <= p < start + MAX_HEAP && p % 4 == 0)
      && (forall i {:trigger cells[i]} :: 0 <= i < cells.Length ==> CellIs(words, start, i, cells[i]))
    }

    /** mem_init: `base` is the aligned address the system gives. */
    constructor (base: int)
      requires base % 8 == 0 && 0 < base && base + MAX_HEAP <= 0x1_0000_0000
      ensures Valid() && fresh(cells) && start == base && brk == base
    {
      start := base;
      brk := base;
      cells := new word[MAX_HEAP / 4];
      new;
      Quotient(MAX_HEAP, 4, cells.Length, 0);
      forall p | base <= p < base + MAX_HEAP && p % 4 == 0
        ensures 0 <= (p - base) / 4 < cells.Length { CellIndex(p, base); }
      words := map p | base <= p < base + MAX_HEAP && p % 4 == 0 :: cells[(p - base) / 4] as int;
      forall i {:trigger cells[i]} | 0 <= i < cells.Length ensures CellIs(words, start, i, cells[i]) {
        CellAddress(i, base);
      }
    }

    lemma InRange(p: int)
      requires Valid() && start <= p < start + MAX_HEAP && p % 4 == 0
      ensures p in words
    {
    }

    lemma CellInRange(i: int)
      requires Valid() && 0 <= i && 4 * i < MAX_HEAP
      ensures start + 4 * i in words
    {
      CellAddress(i, start);
    }

    lemma Bounds()
      requires Valid()
      ensures start % 8 == 0 && 8 <= start && start + MAX_HEAP <= 0x1_0000_0000
    {
    }

    lemma WordRange(p: int)
      requires Valid() && p in words
      ensures 0 <= words[p] < 0x1_0000_0000
    {
      var i := (p - start) / 4;
      CellIndex(p, start);
      assert CellIs(words, start, i, cells[i]);
    }

    lemma AllInRange()
      requires Valid()
      ensures WordsUpTo(words, start, start + MAX_HEAP)
    {
    }

    /** mem_reset_brk */
    method ResetBrk()
      requires Valid()
      modifies this`brk
      ensures Valid() && brk == start
    {
      brk := start;
    }

    /** mem_sbrk: -1 when the range is exhausted. */
    method Sbrk(incr: int) returns (oldBrk: int)
      requires Valid()
      modifies this`brk
      ensures Valid()
      ensures (oldBrk == -1 <==> incr < 0 || old(brk) + incr > start + MAX_HEAP)
      ensures oldBrk == -1 ==> brk == old(brk)
      ensures oldBrk != -1 ==> oldBrk == old(brk) && brk == old(brk) + incr
    {
      if incr < 0 || brk + incr > start + MAX_HEAP {
        return -1;
      }
      oldBrk := brk;
      brk := brk + incr;
    }

    method Get(p: int) returns (w: word)
      requires Valid() && p in words
      ensures w == words[p]
    {
      var i := (p - start) / 4;
      CellIndex(p, start);
      w := cells[i];
    }

    method Put(p: int, w: word)
      requires Valid() && p in words
      modifies this`words, cells
      ensures Valid() && words == old(words)[p := w]
    {
      var i := (p - start) / 4;
      CellIndex(p, start);
      cells[i] := w;
      words := words[p := w];
    }

    /** memmove, for whole words. */
    method Memmove(dst: int, src: int, n: int)
      requires Valid() && n >= 0 && n % 4 == 0 && dst % 4 == 0 && src % 4 == 0
      requires start <= dst && dst + n <= start + MAX_HEAP && start <= src && src + n <= start + MAX_HEAP
      modifies this`words, cells
      ensures Valid() && words == Moved(old(words), dst, src, n)
    {
      var d, s, m := (dst - start) / 4, (src - start) / 4, n / 4;
      CellIndex(dst, start);
      CellIndex(src, start);
      assert n == 4 * m;
      MoveWords(d, s, m);
    }

    method MoveWords(d: nat, s: nat, m: nat)
      requires Valid() && d + m <= cells.Length && s + m <= cells.Length
      modifies this`words, cells
      ensures Valid() && words == Moved(old(words), start + 4 * d, start + 4 * s, 4 * m)
    {
      ghost var before, w := cells[..], words;
      assert CellsAre(w, start, before);
      MoveCells(d, s, m);
      ghost var after := cells[..];
      MovedCells(w, before, after, start, d, s, m);
      hide Valid, Moved, MovedWord, CellsAre, CellsMoved;
      words := Moved(w, start + 4 * d, start + 4 * s, 4 * m);
      Restored(after);
    }

    /** The shape is what it was and the words say what the cells say. */
    twostate lemma Restored(after: seq<int>)
      requires old(Valid()) && brk == old(brk) && words.Keys == old(words.Keys)
      requires after == cells[..] && CellsAre(words, start, after)
      ensures Valid()
    {
      forall p {:trigger p in words} ensures p in words <==> start <= p < start + MAX_HEAP && p % 4 == 0 {
        assert p in words <==> p in old(words);
      }
      forall i {:trigger cells[i]} | 0 <= i < cells.Length ensures CellIs(words, start, i, cells[i]) {
        assert CellIs(words, start, i, after[i]);
      }
    }

    method MoveCells(d: nat, s: nat, m: nat)
      requires d + m <= cells.Length && s + m <= cells.Length
      modifies cells
      ensures CellsMoved(old(cells[..]), cells[..], d, s, m)
    {
      forall i | 0 <= i < m {
        cells[d + i] := cells[s + i];
      }
    }

    lemma WordOf(a: int)
      requires Valid() && start <= a < start + MAX_HEAP
      ensures a - a % 4 in words
    {
      WordStart(a, start);
    }

    /** One byte store of memset. */
    method PutByte(a: int, v: int)
      requires Valid() && start <= a < start + MAX_HEAP && 0 <= v < 256
      modifies this`words, cells
      ensures Valid() && words == SetByte(old(words), a, v)
    {
      var k := a % 4;
      WordOf(a);
      hide Valid, WithByte;
      var w := Get(a - k);
      WithByteIs(w, k, v);
      Put(a - k, WithByte(w, k, v));
    }

    method GetByte(a: int) returns (v: int)
      requires Valid() && start <= a < start + MAX_HEAP
      ensures v == ByteAt(words, a) && 0 <= v < 256
    {
      WordOf(a);
      var w := Get(a - a % 4);
      v := ByteOf(w, a % 4);
    }
  }
}
