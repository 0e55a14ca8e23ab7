/**
 * The pieces of Python's string handling that the movie log relies on:
 * `str.strip()` with no argument, `str.split(',')`, `",".join(...)`,
 * the ordering `<` on `str` and the `list.sort()` that uses it.
 */
module Text {

  /** Python's `str.isspace()` for one character: the characters `str.strip()` removes. */
  predicate IsSpace(c: char) {
    || c == ' ' || c == '\t' || c == '\n' || c == '\r'
    || c == '\U{0B}' || c == '\U{0C}'
    || ('\U{1C}' <= c <= '\U{1F}')
    || c == '\U{85}' || c == '\U{A0}' || c == '\U{1680}'
    || ('\U{2000}' <= c <= '\U{200A}')
    || c == '\U{2028}' || c == '\U{2029}' || c == '\U{202F}' || c == '\U{205F}' || c == '\U{3000}'
  }

  predicate AllSpace(s: string) {
    forall i :: 0 <= i < |s| ==> IsSpace(s[i])
  }

  /** Neither end of `s` is whitespace: `s` is what `strip()` leaves alone. */
  predicate NoOuterSpace(s: string) {
    s == [] || (!IsSpace(s[0]) && !IsSpace(s[|s| - 1]))
  }

  /**
   * `s.strip()`: drops whitespace from both ends. The result is empty
   * exactly when `s` is all whitespace, has no whitespace at either end,
   * and is `s` itself exactly when `s` has none there to begin with.
   */
  function Strip(s: string): (r: string)
    ensures NoOuterSpace(r)
    ensures r == [] <==> AllSpace(s)
    ensures r == s <==> NoOuterSpace(s)
    decreases |s|
  {
    if s == [] then []
    else if IsSpace(s[0]) then
      assert AllSpace(s) <==> AllSpace(s[1..]) by {
        assert forall i :: 1 <= i < |s| ==> s[i] == s[1..][i - 1];
      }
      Strip(s[1..])
    else if IsSpace(s[|s| - 1]) then
      assert AllSpace(s) <==> AllSpace(s[..|s| - 1]) by {
        assert forall i :: 0 <= i < |s| - 1 ==> s[i] == s[..|s| - 1][i];
      }
      Strip(s[..|s| - 1])
    else s
  }

  /**
   * `s.split(',')`: the pieces between commas, left to right. There is
   * always at least one piece: "" splits into [""].
   */
  function Split(s: string): (parts: seq<string>)
    ensures |parts| >= 1
  {
    if s == [] then [[]]
    else if s[0] == ',' then [[]] + Split(s[1..])
    else
      var rest := Split(s[1..]);
      [[s[0]] + rest[0]] + rest[1..]
  }

  /** No piece of a split holds a comma. */
  lemma {:induction false} SplitPiecesCommaFree(s: string)
    ensures forall j :: 0 <= j < |Split(s)| ==> ',' !in Split(s)[j]
  {
    if s != [] {
      SplitPiecesCommaFree(s[1..]);
      var rest := Split(s[1..]);
      if s[0] != ',' {
        assert forall j :: 1 <= j < |Split(s)| ==> Split(s)[j] == rest[j];
      } else {
        assert forall j :: 1 <= j < |Split(s)| ==> Split(s)[j] == rest[j - 1];
      }
    }
  }

  /** The number of characters in all the pieces together. */
  function TotalLength(parts: seq<string>): nat {
    if parts == [] then 0 else |parts[0]| + TotalLength(parts[1..])
  }

  /**
   * `",".join(parts)`: the pieces in order, one comma between each two
   * neighbours and none at either end, so `[]` and `[""]` both give "".
   */
  function Join(parts: seq<string>): (r: string)
    ensures |parts| >= 1 ==> |r| == TotalLength(parts) + |parts| - 1
    ensures |parts| == 0 ==> r == []
    ensures |parts| >= 1 ==> parts[0] <= r
  {
    if |parts| == 0 then []
    else if |parts| == 1 then parts[0]
    else parts[0] + [','] + Join(parts[1..])
  }

  lemma {:induction false} JoinPrepend(c: char, parts: seq<string>)
    requires |parts| >= 1
    ensures Join([[c] + parts[0]] + parts[1..]) == [c] + Join(parts)
  {
    var q := [[c] + parts[0]] + parts[1..];
    if |parts| > 1 {
      assert q[1..] == parts[1..];
    }
  }

  /**
   * `s.strip()` takes away a whitespace prefix and a whitespace suffix and
   * nothing else. With `NoOuterSpace(Strip(s))` this makes the result the
   * longest such middle part.
   */
  lemma {:induction false} StripInfix(s: string) returns (lead: string, trail: string)
    ensures AllSpace(lead) && AllSpace(trail)
    ensures s == lead + Strip(s) + trail
    decreases |s|
  {
    if s == [] || (!IsSpace(s[0]) && !IsSpace(s[|s| - 1])) {
      lead, trail := [], [];
    } else if IsSpace(s[0]) {
      var l, t := StripInfix(s[1..]);
      lead, trail := [s[0]] + l, t;
      assert forall i :: 1 <= i < |lead| ==> lead[i] == l[i - 1];
      SpaceInFront(s, l, Strip(s), t);
    } else {
      var l, t := StripInfix(s[..|s| - 1]);
      lead, trail := l, t + [s[|s| - 1]];
      assert forall i :: 0 <= i < |t| ==> trail[i] == t[i];
      SpaceAtBack(s, l, Strip(s), t);
    }
  }

  lemma SpaceInFront(s: string, l: string, m: string, t: string)
    requires s != [] && s[1..] == l + m + t
    ensures s == ([s[0]] + l) + m + t
  {
    assert s == [s[0]] + s[1..];
  }

  lemma SpaceAtBack(s: string, l: string, m: string, t: string)
    requires s != [] && s[..|s| - 1] == l + m + t
    ensures s == l + m + (t + [s[|s| - 1]])
  {
    assert s == s[..|s| - 1] + [s[|s| - 1]];
  }

  /**
   * Joining two non-empty lists of pieces one after the other is joining
   * each and putting one comma between: the separator is a comma between
   * neighbours, whatever the pieces hold.
   */
  lemma {:induction false} JoinAppend(a: seq<string>, b: seq<string>)
    requires |a| >= 1 && |b| >= 1
    ensures Join(a + b) == Join(a) + [','] + Join(b)
    decreases |a|
  {
    if |a| == 1 {
      assert (a + b)[1..] == b;
    } else {
      assert (a + b)[1..] == a[1..] + b;
      JoinAppend(a[1..], b);
    }
  }

  /** Joining the pieces of a split gives back the original string. */
  lemma {:induction false} JoinSplit(s: string)
    ensures Join(Split(s)) == s
  {
    if s == [] {
    } else if s[0] == ',' {
      JoinSplit(s[1..]);
      var rest := Split(s[1..]);
      assert ([[]] + rest)[1..] == rest;
    } else {
      JoinSplit(s[1..]);
      var rest := Split(s[1..]);
      JoinPrepend(s[0], rest);
    }
  }

  /** Splitting `p + s` where `p` holds no comma glues `p` onto the first piece of `s`. */
  lemma {:induction false} SplitPrefix(p: string, s: string)
    requires ',' !in p
    ensures Split(p + s) == [p + Split(s)[0]] + Split(s)[1..]
  {
    if p == [] {
      assert p + s == s;
      assert p + Split(s)[0] == Split(s)[0];
      assert Split(s) == [Split(s)[0]] + Split(s)[1..];
    } else {
      assert (p + s)[0] == p[0];
      assert (p + s)[1..] == p[1..] + s;
      SplitPrefix(p[1..], s);
      assert [p[0]] + (p[1..] + Split(s)[0]) == p + Split(s)[0];
    }
  }

  /**
   * Splitting a comma-free list of pieces joined with commas gives back the
   * pieces. With JoinSplit this says Split(s) is the one comma-free list of
   * pieces whose join is s.
   */
  lemma {:induction false} SplitJoin(parts: seq<string>)
    requires |parts| >= 1
    requires forall p | p in parts :: ',' !in p
    ensures Split(Join(parts)) == parts
  {
    if |parts| == 1 {
      SplitPrefix(parts[0], []);
      assert parts[0] + [] == parts[0];
    } else {
      var tail := parts[1..];
      assert forall p | p in tail :: p in parts;
      SplitJoin(tail);
      var s := [','] + Join(tail);
      assert parts[0] + [','] + Join(tail) == parts[0] + s;
      SplitPrefix(parts[0], s);
      assert s[0] == ',' && s[1..] == Join(tail);
      assert Split(s) == [[]] + tail;
      assert parts[0] + [] == parts[0];
      assert parts == [parts[0]] + tail;
    }
  }

  // ---------------------------------------------------------------------
  // Python's ordering of str values and list.sort()
  // ---------------------------------------------------------------------

  /** `a <= b` on Python strings: lexicographic by code point, a prefix first. */
  predicate Le(a: string, b: string)
    ensures a <= b ==> Le(a, b)
  {
    if a == [] then true
    else if b == [] then false
    else if a[0] != b[0] then a[0] < b[0]
    else Le(a[1..], b[1..])
  }

  /** `a < b` on Python strings. */
  predicate Lt(a: string, b: string) {
    Le(a, b) && a != b
  }

  /**
   * Unless `a` is a prefix of `b`, `a <= b` holds exactly when, at the first
   * position where the two differ, `a` has the smaller code point.
   */
  lemma {:induction false} LeFirstDifference(a: string, b: string, k: nat)
    requires k < |a| && k < |b| && a[..k] == b[..k] && a[k] != b[k]
    ensures Le(a, b) <==> a[k] < b[k]
  {
    if k > 0 {
      assert a[0] == a[..k][0] && b[0] == b[..k][0];
      assert a[1..][..k - 1] == a[..k][1..] && b[1..][..k - 1] == b[..k][1..];
      LeFirstDifference(a[1..], b[1..], k - 1);
    }
  }

  lemma {:induction false} LeTotal(a: string, b: string)
    ensures Le(a, b) || Le(b, a)
  {
    if a != [] && b != [] && a[0] == b[0] {
      LeTotal(a[1..], b[1..]);
    }
  }

  lemma {:induction false} LeAntisymmetric(a: string, b: string)
    requires Le(a, b) && Le(b, a)
    ensures a == b
  {
    if a != [] && b != [] {
      LeAntisymmetric(a[1..], b[1..]);
      assert a == [a[0]] + a[1..] && b == [b[0]] + b[1..];
    }
  }

  lemma {:induction false} LeTransitive(a: string, b: string, c: string)
    requires Le(a, b) && Le(b, c)
    ensures Le(a, c)
  {
    if a != [] && b != [] && c != [] && a[0] == b[0] == c[0] {
      LeTransitive(a[1..], b[1..], c[1..]);
    }
  }

  predicate Ascending(s: seq<string>) {
    forall i, j :: 0 <= i < j < |s| ==> Le(s[i], s[j])
  }

  predicate StrictlyAscending(s: seq<string>) {
    forall i, j :: 0 <= i < j < |s| ==> Lt(s[i], s[j])
  }

  predicate Distinct(s: seq<string>) {
    forall i, j :: 0 <= i < j < |s| ==> s[i] != s[j]
  }

  /** Puts `x` in front of the first element it does not exceed. */
  function Insert(x: string, s: seq<string>): (r: seq<string>)
    ensures multiset(r) == multiset(s) + multiset{x}
  {
    if s == [] then [x]
    else if Le(x, s[0]) then [x] + s
    else
      assert s == [s[0]] + s[1..];
      [s[0]] + Insert(x, s[1..])
  }

  /** A lower bound of `x` and of every element of `s` bounds every element of `Insert(x, s)`. */
  lemma InsertLowerBound(b: string, x: string, s: seq<string>)
    requires Le(b, x)
    requires forall j :: 0 <= j < |s| ==> Le(b, s[j])
    ensures forall j :: 0 <= j < |Insert(x, s)| ==> Le(b, Insert(x, s)[j])
  {
    var r := Insert(x, s);
    forall j | 0 <= j < |r| ensures Le(b, r[j]) {
      assert r[j] in multiset(r);
      if r[j] != x {
        assert r[j] in multiset(s);
        var k :| 0 <= k < |s| && s[k] == r[j];
      }
    }
  }

  lemma {:induction false} InsertAscending(x: string, s: seq<string>)
    requires Ascending(s)
    ensures Ascending(Insert(x, s))
  {
    if s == [] {
    } else if Le(x, s[0]) {
      forall j | 1 <= j < |s| ensures Le(x, s[j]) {
        LeTransitive(x, s[0], s[j]);
      }
      var r := [x] + s;
      assert forall j :: 1 <= j < |r| ==> r[j] == s[j - 1];
    } else {
      LeTotal(x, s[0]);
      var tail := Insert(x, s[1..]);
      InsertAscending(x, s[1..]);
      InsertLowerBound(s[0], x, s[1..]);
      var r := [s[0]] + tail;
      assert forall j :: 1 <= j < |r| ==> r[j] == tail[j - 1];
    }
  }

  /** `xs.sort()`: an ascending rearrangement of `xs`. */
  function Sort(xs: seq<string>): (r: seq<string>)
    ensures multiset(r) == multiset(xs)
    ensures Ascending(r)
  {
    if xs == [] then []
    else
      assert xs == [xs[0]] + xs[1..];
      var rest := Sort(xs[1..]);
      InsertAscending(xs[0], rest);
      Insert(xs[0], rest)
  }

  lemma {:induction false} DistinctCounts(s: seq<string>, x: string)
    requires Distinct(s)
    ensures multiset(s)[x] <= 1
  {
    if s != [] {
      assert s == [s[0]] + s[1..];
      DistinctCounts(s[1..], x);
      if s[0] == x {
        assert x !in s[1..];
      }
    }
  }

  /**
   * Sorting a list without duplicates (the list Python builds from a set)
   * gives a strictly ascending list of the same elements.
   */
  lemma SortDistinct(xs: seq<string>)
    requires Distinct(xs)
    ensures StrictlyAscending(Sort(xs))
    ensures forall t :: t in Sort(xs) <==> t in xs
  {
    var r := Sort(xs);
    forall t ensures t in r <==> t in xs {
      assert t in r <==> t in multiset(r);
      assert t in xs <==> t in multiset(xs);
    }
    forall i, j | 0 <= i < j < |r| ensures Lt(r[i], r[j]) {
      if r[i] == r[j] {
        assert r == r[..j] + r[j..];
        assert r[i] in r[..j];
        assert r[j] in r[j..];
        assert multiset(r)[r[i]] == multiset(r[..j])[r[i]] + multiset(r[j..])[r[i]];
        DistinctCounts(xs, r[i]);
        assert false;
      }
    }
  }
}
