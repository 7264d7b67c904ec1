/** The signal-safe number printer of csapp.c. Characters are their codes. */
module Sio {
  import opened Basics

  /** C's % and / truncate toward zero. */
  function TruncMod(v: int, b: int): int
    requires b > 0
  {
    if v >= 0 then v % b else -((-v) % b)
  }

  function TruncDiv(v: int, b: int): int
    requires b > 0
  {
    if v >= 0 then v / b else -((-v) / b)
  }

  predicate Base(b: int) { 2 <= b <= 36 }

  function DigitChar(c: int): int { if c < 10 then c + 48 else c - 10 + 97 }

  /** The characters that sio_ltoa leaves, most significant first. */
  function Numeral(v: int, b: int): (s: seq<int>)
    requires Base(b)
    ensures |s| > 0
    decreases if v < 0 then 0 else v
  {
    if v < b then [DigitChar(TruncMod(v, b))] else
    Shrinks(v, b);
    Numeral(v / b, b) + [DigitChar(v % b)]
  }

  lemma SmallerQuotient(v: int, b: int, q: int, r: int)
    requires v >= b >= 2 && v == b * q + r && 0 <= r < b
    ensures 0 < q < v
  {
    if q >= 1 {
      Doubles(b, q);
    } else {
      NotPositive(b, q);
    }
  }

  lemma Doubles(b: int, q: int)
    requires b >= 2 && q >= 0
    ensures b * q >= 2 * q
  {
  }

  lemma NotPositive(b: int, q: int)
    requires b >= 0 && q <= 0
    ensures b * q <= 0
  {
  }

  lemma Shrinks(v: int, b: int)
    requires v >= b >= 2
    ensures 0 < v / b < v
  {
    DivMod(v, b);
    SmallerQuotient(v, b, v / b, v % b);
  }

  // ---------------------------------------------------------------- reading back

  function DigitValue(c: int, b: int): Option<int> {
    if 48 <= c < 58 && c - 48 < b then Some(c - 48)
    else if 97 <= c < 123 && c - 87 < b then Some(c - 87)
    else None
  }

  /** The number a digit string denotes, if it is one. */
  function ReadBack(s: seq<int>, b: int): Option<int> {
    if s == [] then Some(0) else
    var d := DigitValue(s[|s| - 1], b);
    var front := ReadBack(s[..|s| - 1], b);
    if d.None? || front.None? then None else Some(front.value * b + d.value)
  }

  lemma {:induction false} PrintsNumber(v: int, b: int)
    requires Base(b) && v >= 0
    ensures ReadBack(Numeral(v, b), b) == Some(v)
    decreases v
  {
    hide DigitChar, DigitValue, ReadBack;
    if v < b {
      EmptyReadBack(b);
      DigitRead(v, b);
      ReadBackSnoc([], DigitChar(v), b);
      assert [] + [DigitChar(v)] == [DigitChar(v)];
      SmallMod(v, b);
    } else {
      Shrinks(v, b);
      PrintsNumber(v / b, b);
      DigitRead(v % b, b);
      ReadBackSnoc(Numeral(v / b, b), DigitChar(v % b), b);
      DivMod(v, b);
    }
  }

  lemma EmptyReadBack(b: int)
    ensures ReadBack([], b) == Some(0)
  {
  }

  lemma SmallMod(v: int, b: int)
    requires 0 <= v < b
    ensures v % b == v
  {
  }

  lemma DigitRead(c: int, b: int)
    requires Base(b) && 0 <= c < b
    ensures DigitValue(DigitChar(c), b) == Some(c)
  {
  }

  lemma ReadBackSnoc(s: seq<int>, c: int, b: int)
    ensures ReadBack(s + [c], b) ==
      if ReadBack(s, b).None? || DigitValue(c, b).None? then None else Some(ReadBack(s, b).value * b + DigitValue(c,
        b).value)
  {
    assert (s + [c])[..|s|] == s;
  }

  /** Printing and reading back gives the number exactly when it is not negative. */
  lemma RoundTrip(v: int, b: int)
    requires Base(b)
    ensures ReadBack(Numeral(v, b), b) == Some(v) <==> v >= 0
  {
    if v >= 0 {
      PrintsNumber(v, b);
    } else {
      assert Numeral(v, b)[..0] == [];
    }
  }

  /** No leading zero, except for zero itself, and every character is a digit of the base. */
  lemma {:induction false} NoLeadingZero(v: int, b: int)
    requires Base(b) && v >= 0
    ensures Numeral(v, b)[0] == 48 ==> v == 0 && Numeral(v, b) == [48]
    ensures forall c :: c in Numeral(v, b) ==> DigitValue(c, b).Some?
    decreases v
  {
    if v >= b {
      Shrinks(v, b);
      NoLeadingZero(v / b, b);
    }
  }

  /** Small numerals: 0, 2018 and ff. The sign of a negative number is lost: -5 is printed as a plus. */
  lemma SmallNumerals()
    ensures Numeral(0, 10) == [48] && Numeral(2018, 10) == [50, 48, 49, 56] && Numeral(255, 16) == [102, 102]
    ensures Numeral(-5, 10) == [43]
  {
    assert 2018 / 10 == 201 && 201 / 10 == 20 && 20 / 10 == 2 && 255 / 16 == 15;
  }

  /** A number of k bits needs at most k characters, whatever the base: a long fits 128 easily. */
  lemma {:induction false} NumeralLength(v: int, b: int, k: nat)
    requires Base(b) && k >= 1 && v < Pow2(k)
    ensures |Numeral(v, b)| <= k
    decreases k
  {
    if v >= b {
      Shrinks(v, b);
      assert Pow2(0) == 1;
      Halves(v, b, Pow2(k - 1));
      NumeralLength(v / b, b, k - 1);
    }
  }

  lemma Halves(v: int, b: int, p: int)
    requires v >= b >= 2 && v < 2 * p
    ensures v / b < p
  {
    DivMod(v, b);
    var q := v / b;
    if q >= p { Doubles(b, q); }
  }

  /** No character is NUL, so strlen finds the end. */
  lemma {:induction false} NumeralHasNoNul(v: int, b: int)
    requires Base(b)
    ensures forall c :: c in Numeral(v, b) ==> 0 < c < 128
    decreases if v < 0 then 0 else v
  {
    if v >= b {
      Shrinks(v, b);
      NumeralHasNoNul(v / b, b);
    }
  }

  // ---------------------------------------------------------------- the code

  function Reverse(s: seq<int>): (r: seq<int>)
    ensures |r| == |s|
  {
    if s == [] then [] else Reverse(s[1..]) + [s[0]]
  }

  lemma {:induction false} ReverseAt(s: seq<int>, k: nat)
    requires k < |s|
    ensures Reverse(s)[k] == s[|s| - 1 - k]
  {
    if k < |s| - 1 { ReverseAt(s[1..], k); }
  }

  lemma {:induction false} ReverseSnoc(s: seq<int>, x: int)
    ensures Reverse(s + [x]) == [x] + Reverse(s)
  {
    if s == [] {
      assert s + [x] == [x];
    } else {
      assert (s + [x])[1..] == s[1..] + [x];
      ReverseSnoc(s[1..], x);
    }
  }

  lemma {:induction false} ReverseMembers(s: seq<int>)
    ensures forall x :: x in s ==> x in Reverse(s)
  {
    if s != [] { ReverseMembers(s[1..]); }
  }

  method Strlen(s: array<int>, ghost n: nat) returns (i: nat)
    requires n < s.Length && s[n] == 0 && forall k {:trigger s[k]} :: 0 <= k < n ==> s[k] != 0
    ensures i == n
  {
    i := 0;
    while s[i] != 0
      invariant i <= n
      decreases n - i
    {
      i := i + 1;
    }
  }

  /** sio_reverse, in place. */
  method ReverseInPlace(s: array<int>, ghost n: nat)
    requires n < s.Length && s[n] == 0 && forall k {:trigger s[k]} :: 0 <= k < n ==> s[k] != 0
    modifies s
    ensures s[..n] == Reverse(old(s[..n])) && s[n..] == old(s[n..])
  {
    var len: int := Strlen(s, n);
    var i, j := 0, len - 1;
    while i < j
      invariant 0 <= i && j == n - 1 - i && i <= j + 1
      invariant forall k {:trigger s[k]} :: 0 <= k < i || j < k < n ==> s[k] == old(s[n - 1 - k])
      invariant forall k {:trigger s[k]} :: i <= k <= j || n <= k < s.Length ==> s[k] == old(s[k])
    {
      var c := s[i];
      s[i] := s[j];
      s[j] := c;
      i, j := i + 1, j - 1;
    }
    ghost var was := old(s[..n]);
    forall k | 0 <= k < n ensures s[..n][k] == Reverse(was)[k] {
      ReverseAt(was, k);
    }
  }

  /** sio_ltoa: the numeral of v with its terminator. */
  method Ltoa(v0: int, s: array<int>, b: int)
    requires Base(b) && |Numeral(v0, b)| < s.Length
    modifies s
    ensures var n := |Numeral(v0, b)|; s[..n] == Numeral(v0, b) && s[n] == 0
  {
    ghost var t := Numeral(v0, b);
    var v, i := v0, 0;
    while true
      invariant 0 <= i < |t| && t == Numeral(v, b) + Reverse(s[..i])
      decreases if v < 0 then 0 else v
    {
      ghost var low := s[..i];
      var c := TruncMod(v, b);
      s[i] := if c < 10 then c + 48 else c - 10 + 97;
      i := i + 1;
      assert s[..i] == low + [DigitChar(c)];
      ReverseSnoc(low, DigitChar(c));
      Peel(v, b);
      v := TruncDiv(v, b);
      if v <= 0 {
        assert t == Reverse(s[..i]);
        break;
      }
    }
    s[i] := 0;
    NumeralHasNoNul(v0, b);
    ReverseMembers(s[..i]);
    forall k | 0 <= k < i ensures s[k] != 0 { assert s[..i][k] in s[..i]; }
    ReverseInPlace(s, i);
  }

  /** One turn of the loop takes the last character off the numeral. */
  lemma Peel(v: int, b: int)
    requires Base(b)
    ensures Numeral(v, b) == (if TruncDiv(v, b) > 0 then Numeral(TruncDiv(v, b), b) else []) + [DigitChar(TruncMod(v,
      b))]
    ensures TruncDiv(v, b) > 0 ==> 0 < TruncDiv(v, b) < v
  {
    if v >= b { Shrinks(v, b); } else { LastDigit(v, b); }
  }

  lemma LastDigit(v: int, b: int)
    requires v < b && b >= 2
    ensures TruncDiv(v, b) <= 0
  {
  }
}
