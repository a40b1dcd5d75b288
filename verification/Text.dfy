/**
 The string operations the serial loggers apply to every received line:
 Python's `str.strip()` with no argument, `str.split(sep)` with a one-character
 separator, and its inverse `sep.join(parts)`.
 */
module Text {

  /** True of exactly the characters for which Python's `str.isspace()` holds. */
  predicate IsSpace(c: char) {
    || c == ' '
    || ('\t' <= c <= '\r')               // tab, line feed, vertical tab, form feed, carriage return
    || ('\U{1C}' <= c <= '\U{1F}')       // file, group, record and unit separators
    || c == '\U{85}' || c == '\U{A0}' || c == '\U{1680}'
    || ('\U{2000}' <= c <= '\U{200A}')
    || c == '\U{2028}' || c == '\U{2029}' || c == '\U{202F}' || c == '\U{205F}' || c == '\U{3000}'
  }

  /** True when every character of `s` is whitespace (in particular when `s` is empty). */
  predicate AllSpace(s: string) {
    forall k :: 0 <= k < |s| ==> IsSpace(s[k])
  }

  /** Removes leading whitespace. */
  function TrimLeft(s: string): (r: string)
    ensures |r| <= |s| && r == s[|s| - |r|..]
    ensures forall k :: 0 <= k < |s| - |r| ==> IsSpace(s[k])
    ensures |r| > 0 ==> !IsSpace(r[0])
  {
    if |s| > 0 && IsSpace(s[0]) then TrimLeft(s[1..]) else s
  }

  /** Removes trailing whitespace. */
  function TrimRight(s: string): (r: string)
    ensures |r| <= |s| && r == s[..|r|]
    ensures forall k :: |r| <= k < |s| ==> IsSpace(s[k])
    ensures |r| > 0 ==> !IsSpace(r[|r| - 1])
  {
    if |s| > 0 && IsSpace(s[|s| - 1]) then TrimRight(s[..|s| - 1]) else s
  }

  /**
   `r` is what stripping `s` leaves when the kept part starts at index `i`:
   `r` sits at `i` in `s`, only whitespace surrounds it, and it neither starts
   nor ends with whitespace.
   */
  predicate StrippedAt(s: string, r: string, i: nat) {
    && i + |r| <= |s|
    && s[i..i + |r|] == r
    && (forall k :: 0 <= k < i ==> IsSpace(s[k]))
    && (forall k :: i + |r| <= k < |s| ==> IsSpace(s[k]))
    && (|r| > 0 ==> !IsSpace(r[0]) && !IsSpace(r[|r| - 1]))
  }

  /**
   A whitespace-free-at-the-front suffix `t` of `s`, cut down to a prefix `r`
   that is whitespace-free at the back, is a stripped form of `s`.
   */
  lemma StrippedFromTrims(s: string, t: string, r: string)
    requires |t| <= |s| && t == s[|s| - |t|..]
    requires forall k :: 0 <= k < |s| - |t| ==> IsSpace(s[k])
    requires |t| > 0 ==> !IsSpace(t[0])
    requires |r| <= |t| && r == t[..|r|]
    requires forall k :: |r| <= k < |t| ==> IsSpace(t[k])
    requires |r| > 0 ==> !IsSpace(r[|r| - 1])
    ensures StrippedAt(s, r, |s| - |t|)
  {
    var i := |s| - |t|;
    assert s[i..i + |r|] == r by {
      assert s[i..][..|r|] == s[i..i + |r|];
    }
    forall k | i + |r| <= k < |s|
      ensures IsSpace(s[k])
    {
      assert s[k] == t[k - i];
    }
    assert |r| > 0 ==> r[0] == t[0];
  }

  /** Trimming the left and then the right end leaves a stripped form of `s`. */
  lemma TrimBothStripped(s: string)
    ensures StrippedAt(s, TrimRight(TrimLeft(s)), |s| - |TrimLeft(s)|)
  {
    StrippedFromTrims(s, TrimLeft(s), TrimRight(TrimLeft(s)));
  }

  /** A stripped form is empty exactly when the whole string is whitespace. */
  lemma StrippedEmpty(s: string, r: string, i: nat)
    requires StrippedAt(s, r, i)
    ensures |r| == 0 <==> AllSpace(s)
  {
    if |r| > 0 {
      assert s[i] == r[0];
    }
  }

  /** Python's `s.strip()`: removes whitespace at both ends. */
  function Strip(s: string): (r: string)
    ensures exists i :: StrippedAt(s, r, i)
    ensures |r| == 0 <==> AllSpace(s)
  {
    var r := TrimRight(TrimLeft(s));
    TrimBothStripped(s);
    StrippedEmpty(s, r, |s| - |TrimLeft(s)|);
    r
  }

  /** Where a non-empty stripped part starts and ends is fixed by the first and last non-space characters. */
  lemma StrippedBounds(s: string, r1: string, i1: nat, r2: string, i2: nat)
    requires StrippedAt(s, r1, i1) && StrippedAt(s, r2, i2)
    requires |r1| > 0 && |r2| > 0
    ensures i1 == i2 && |r1| == |r2|
  {
    assert s[i1] == r1[0] && s[i2] == r2[0];
    assert s[i1 + |r1| - 1] == r1[|r1| - 1] && s[i2 + |r2| - 1] == r2[|r2| - 1];
  }

  /**
   The stripping relation determines its result: any two strings that are both
   a stripped form of `s` are equal, so the contract of `Strip` pins it down.
   */
  lemma StrippedUnique(s: string, r1: string, i1: nat, r2: string, i2: nat)
    requires StrippedAt(s, r1, i1) && StrippedAt(s, r2, i2)
    ensures r1 == r2
  {
    if |r1| > 0 && |r2| > 0 {
      StrippedBounds(s, r1, i1, r2, i2);
    }
  }

  /** Stripping an already stripped string changes nothing. */
  lemma StripIdempotent(s: string)
    ensures Strip(Strip(s)) == Strip(s)
  {
    var r := Strip(s);
    assert StrippedAt(r, r, 0) by {
      assert r[0..|r|] == r;
    }
    var i :| StrippedAt(r, Strip(r), i);
    StrippedUnique(r, r, 0, Strip(r), i);
  }

  /** Number of occurrences of `d` in `s`. */
  function Count(s: string, d: char): nat {
    if |s| == 0 then 0 else (if s[0] == d then 1 else 0) + Count(s[1..], d)
  }

  /** The longest prefix of `s` that does not contain `d`. */
  function Before(s: string, d: char): (r: string)
    ensures r <= s && d !in r
    ensures |r| < |s| ==> s[|r|] == d
  {
    if |s| == 0 || s[0] == d then [] else [s[0]] + Before(s[1..], d)
  }

  /**
   Python's `s.split(d)` for a one-character separator: the pieces of `s` between
   occurrences of `d`. There is always at least one piece, and no piece contains `d`.
   */
  function Split(s: string, d: char): (r: seq<string>)
    ensures |r| >= 1
    ensures forall k :: 0 <= k < |r| ==> d !in r[k]
    ensures Join(r, d) == s
    decreases |s|
  {
    if |s| == 0 then [[]]
    else
      var rest := Split(s[1..], d);
      assert s == [s[0]] + s[1..];
      if s[0] == d then
        JoinCons([], rest, d);
        [[]] + rest
      else
        JoinGrowFirst(s[0], rest, d);
        [[s[0]] + rest[0]] + rest[1..]
  }

  /** Joining a piece in front of others puts one separator between it and their join. */
  lemma JoinCons(p: string, rest: seq<string>, d: char)
    requires |rest| >= 1
    ensures Join([p] + rest, d) == p + [d] + Join(rest, d)
  {
    assert ([p] + rest)[1..] == rest;
  }

  /** Growing the first piece by one character grows the join by that character. */
  lemma JoinGrowFirst(c: char, parts: seq<string>, d: char)
    requires |parts| >= 1
    ensures Join([[c] + parts[0]] + parts[1..], d) == [c] + Join(parts, d)
  {
    var grown := [[c] + parts[0]] + parts[1..];
    assert grown[1..] == parts[1..];
  }

  /** Python's `d.join(parts)`: the pieces with one `d` between neighbours. */
  function Join(parts: seq<string>, d: char): string
    requires |parts| >= 1
    decreases |parts|
  {
    if |parts| == 1 then parts[0] else parts[0] + [d] + Join(parts[1..], d)
  }

  /** Splitting loses nothing: joining the pieces with the separator gives back the string. */
  lemma JoinSplit(s: string, d: char)
    ensures Join(Split(s, d), d) == s
  {
  }

  /** A string without `d` splits into itself alone. */
  lemma {:induction false} SplitNoSeparator(p: string, d: char)
    requires d !in p
    ensures Split(p, d) == [p]
    decreases |p|
  {
    if |p| > 0 {
      assert p[0] != d;
      assert d !in p[1..];
      SplitNoSeparator(p[1..], d);
      assert p == [p[0]] + p[1..];
    }
  }

  /** A separator-free piece followed by the separator splits off as one piece. */
  lemma {:induction false} SplitPiece(p: string, t: string, d: char)
    requires d !in p
    ensures Split(p + [d] + t, d) == [p] + Split(t, d)
    decreases |p|
  {
    if |p| == 0 {
      assert p + [d] + t == [d] + t;
      assert ([d] + t)[1..] == t;
    } else {
      assert (p + [d] + t)[1..] == p[1..] + [d] + t;
      assert d !in p[1..];
      SplitPiece(p[1..], t, d);
      assert p == [p[0]] + p[1..];
    }
  }

  /** Joining separator-free pieces and splitting again gives back the pieces. */
  lemma {:induction false} SplitJoin(parts: seq<string>, d: char)
    requires |parts| >= 1
    requires forall k :: 0 <= k < |parts| ==> d !in parts[k]
    ensures Split(Join(parts, d), d) == parts
    decreases |parts|
  {
    if |parts| == 1 {
      SplitNoSeparator(parts[0], d);
    } else {
      SplitJoin(parts[1..], d);
      SplitPiece(parts[0], Join(parts[1..], d), d);
      assert parts == [parts[0]] + parts[1..];
    }
  }

  /** There is one piece more than there are separators. */
  lemma {:induction false} SplitCount(s: string, d: char)
    ensures |Split(s, d)| == Count(s, d) + 1
    decreases |s|
  {
    if |s| > 0 {
      SplitCount(s[1..], d);
    }
  }

  /** The first piece is the text before the first separator. */
  lemma {:induction false} SplitFirst(s: string, d: char)
    ensures Split(s, d)[0] == Before(s, d)
    decreases |s|
  {
    if |s| > 0 && s[0] != d {
      SplitFirst(s[1..], d);
    }
  }
}
