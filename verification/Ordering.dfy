/** The total orders the evaluator sorts and compares by, and a stable sort. */
module Ordering {
  import opened Sequences

  /** The UTF-16 code units of a string: one unit for a character of the basic plane, a
      surrogate pair for any other. */
  function Utf16Key(s: string): seq<int> {
    if s == [] then [] else CharUnits(s[0]) + Utf16Key(s[1..])
  }

  function CharUnits(c: char): seq<int> {
    var n := c as int;
    if n < 0x1_0000 then [n]
    else [0xD800 + (n - 0x1_0000) / 0x400, 0xDC00 + (n - 0x1_0000) % 0x400]
  }

  /** Code points, the order of Python's own string comparison. */
  function CodePoints(s: string): seq<int> {
    if s == [] then [] else [s[0] as int] + CodePoints(s[1..])
  }

  /** Lexicographic comparison of number sequences: negative, zero or positive. */
  function Compare(a: seq<int>, b: seq<int>): int {
    if a == [] then (if b == [] then 0 else -1)
    else if b == [] then 1
    else if a[0] < b[0] then -1
    else if a[0] > b[0] then 1
    else Compare(a[1..], b[1..])
  }

  /** Lexicographic comparison of tuples of keys. */
  function CompareTuples(a: seq<seq<int>>, b: seq<seq<int>>): int {
    if a == [] then (if b == [] then 0 else -1)
    else if b == [] then 1
    else if Compare(a[0], b[0]) != 0 then Compare(a[0], b[0])
    else CompareTuples(a[1..], b[1..])
  }

  predicate TextAtMost(a: string, b: string) { Compare(CodePoints(a), CodePoints(b)) <= 0 }

  lemma {:induction false} CompareFlips(a: seq<int>, b: seq<int>)
    ensures Compare(a, b) == -Compare(b, a)
    ensures Compare(a, b) == 0 <==> a == b
  {
    if a != [] && b != [] && a[0] == b[0] {
      CompareFlips(a[1..], b[1..]);
      assert a == [a[0]] + a[1..] && b == [b[0]] + b[1..];
    }
  }

  lemma {:induction false} CompareTransitive(a: seq<int>, b: seq<int>, c: seq<int>)
    requires Compare(a, b) <= 0 && Compare(b, c) <= 0
    ensures Compare(a, c) <= 0
    ensures Compare(a, b) < 0 || Compare(b, c) < 0 ==> Compare(a, c) < 0
  {
    if a != [] && b != [] && c != [] && a[0] == b[0] == c[0] {
      CompareTransitive(a[1..], b[1..], c[1..]);
    }
  }

  lemma {:induction false} TuplesFlip(a: seq<seq<int>>, b: seq<seq<int>>)
    ensures CompareTuples(a, b) == -CompareTuples(b, a)
    ensures CompareTuples(a, b) == 0 <==> a == b
  {
    if a != [] && b != [] {
      CompareFlips(a[0], b[0]);
      TuplesFlip(a[1..], b[1..]);
      assert a == [a[0]] + a[1..] && b == [b[0]] + b[1..];
    }
  }

  lemma {:induction false} TuplesTransitive(a: seq<seq<int>>, b: seq<seq<int>>, c: seq<seq<int>>)
    requires CompareTuples(a, b) <= 0 && CompareTuples(b, c) <= 0
    ensures CompareTuples(a, c) <= 0
    ensures CompareTuples(a, b) < 0 || CompareTuples(b, c) < 0 ==> CompareTuples(a, c) < 0
  {
    if a != [] && b != [] && c != [] {
      CompareTransitive(a[0], b[0], c[0]);
      CompareFlips(a[0], b[0]);
      CompareFlips(b[0], c[0]);
      CompareFlips(a[0], c[0]);
      if a[0] == b[0] == c[0] { TuplesTransitive(a[1..], b[1..], c[1..]); }
    }
  }

  lemma CharUnitsDiffer(c: char, d: char)
    requires CharUnits(c)[0] == CharUnits(d)[0]
    requires |CharUnits(c)| == |CharUnits(d)| == 2 ==> CharUnits(c)[1] == CharUnits(d)[1]
    ensures c == d
  { }

  /** Surrogates are reserved, so the code units determine the string. */
  lemma {:induction false} Utf16KeyInjective(s: string, t: string)
    requires Utf16Key(s) == Utf16Key(t)
    ensures s == t
  {
    if s != [] && t != [] {
      var u, v := CharUnits(s[0]), CharUnits(t[0]);
      assert Utf16Key(s)[0] == u[0] && Utf16Key(t)[0] == v[0];
      if |u| == |v| == 2 { assert Utf16Key(s)[1] == u[1] && Utf16Key(t)[1] == v[1]; }
      CharUnitsDiffer(s[0], t[0]);
      assert Utf16Key(s)[|u|..] == Utf16Key(s[1..]) && Utf16Key(t)[|u|..] == Utf16Key(t[1..]);
      Utf16KeyInjective(s[1..], t[1..]);
      assert s == [s[0]] + s[1..] && t == [t[0]] + t[1..];
    }
  }

  lemma {:induction false} ComparePrefix(a: seq<int>, b: seq<int>, k: nat)
    requires Compare(a, b) <= 0 && k <= |a| && k <= |b|
    ensures Compare(a[..k], b[..k]) <= 0
  {
    if k > 0 && a[0] == b[0] {
      ComparePrefix(a[1..], b[1..], k - 1);
      assert a[..k][1..] == a[1..][..k - 1] && b[..k][1..] == b[1..][..k - 1];
    }
  }

  lemma {:induction false} CompareAppend(a: seq<int>, b: seq<int>, c: seq<int>)
    requires Compare(a, b) <= 0 && |a| == |b|
    ensures Compare(a + c, b + c) <= 0
  {
    if a == [] {
      assert a + c == c && b + c == c;
      CompareFlips(c, c);
    } else if a[0] == b[0] {
      CompareAppend(a[1..], b[1..], c);
      assert (a + c)[1..] == a[1..] + c && (b + c)[1..] == b[1..] + c;
    }
  }

  /** Where two keys first part. */
  lemma {:induction false} FirstDifference(a: seq<int>, b: seq<int>) returns (k: nat)
    requires |a| == |b| && Compare(a, b) < 0
    ensures k < |a| && a[..k] == b[..k] && a[k] < b[k]
  {
    if a[0] != b[0] {
      k := 0;
    } else {
      var j := FirstDifference(a[1..], b[1..]);
      k := j + 1;
      assert a[..k] == [a[0]] + a[1..][..j] && b[..k] == [b[0]] + b[1..][..j];
    }
  }

  // ----- What the orders mean

  /** a ends or is smaller where the two part. */
  ghost predicate PartsBelow(a: seq<int>, b: seq<int>) {
    exists k :: 0 <= k <= |a| && k < |b| && a[..k] == b[..k] && (k == |a| || a[k] < b[k])
  }

  lemma {:induction false} CompareMeaning(a: seq<int>, b: seq<int>)
    ensures Compare(a, b) < 0 <==> PartsBelow(a, b)
  {
    if b == [] {
    } else if a == [] || a[0] < b[0] {
      assert a[..0] == b[..0];
    } else if a[0] == b[0] {
      CompareMeaning(a[1..], b[1..]);
      if PartsBelow(a[1..], b[1..]) {
        var k :| 0 <= k <= |a| - 1 && k < |b| - 1 && a[1..][..k] == b[1..][..k]
                 && (k == |a| - 1 || a[1..][k] < b[1..][k]);
        assert a[..k + 1] == [a[0]] + a[1..][..k] && b[..k + 1] == [b[0]] + b[1..][..k];
      }
      if PartsBelow(a, b) { PartsBelowTail(a, b); }
    } else if PartsBelow(a, b) {
      PartsBelowHead(a, b);
    }
  }

  lemma PartsBelowHead(a: seq<int>, b: seq<int>)
    requires a != [] && PartsBelow(a, b)
    ensures a[0] <= b[0]
  {
    var k :| 0 <= k <= |a| && k < |b| && a[..k] == b[..k] && (k == |a| || a[k] < b[k]);
    if k > 0 { assert a[0] == a[..k][0] == b[..k][0] == b[0]; }
  }

  lemma PartsBelowTail(a: seq<int>, b: seq<int>)
    requires a != [] && b != [] && a[0] == b[0] && PartsBelow(a, b)
    ensures PartsBelow(a[1..], b[1..])
  {
    var k :| 0 <= k <= |a| && k < |b| && a[..k] == b[..k] && (k == |a| || a[k] < b[k]);
    assert k > 0;
    assert a[1..][..k - 1] == a[..k][1..] && b[1..][..k - 1] == b[..k][1..];
  }

  /** A character of the basic plane is its own unit; any other is the surrogate pair that stands for it. */
  lemma CharUnitsMeaning(c: char)
    ensures var n, units := c as int, CharUnits(c);
      if n < 0x1_0000 then units == [n]
      else |units| == 2 && 0xD800 <= units[0] < 0xDC00 && 0xDC00 <= units[1] < 0xE000
           && n == 0x1_0000 + (units[0] - 0xD800) * 0x400 + (units[1] - 0xDC00)
  { }

  lemma {:induction false} Utf16KeyAppends(s: string, t: string)
    ensures Utf16Key(s + t) == Utf16Key(s) + Utf16Key(t)
  {
    if s == [] {
      assert s + t == t;
    } else {
      assert (s + t)[1..] == s[1..] + t;
      Utf16KeyAppends(s[1..], t);
    }
  }

  /** s is before t by code units. */
  predicate Utf16Less(s: string, t: string) { Compare(Utf16Key(s), Utf16Key(t)) < 0 }

  lemma Utf16Trichotomy(s: string, t: string)
    ensures Utf16Less(s, t) || Utf16Less(t, s) || s == t
    ensures Utf16Less(s, t) ==> !Utf16Less(t, s) && s != t
    ensures Compare(Utf16Key(s), Utf16Key(t)) == 0 <==> s == t
  {
    CompareFlips(Utf16Key(s), Utf16Key(t));
    if Utf16Key(s) == Utf16Key(t) { Utf16KeyInjective(s, t); }
  }

  /** Pairs of keys: the first decides, and then the second. */
  lemma TwoKeys(a: seq<int>, b: seq<int>, c: seq<int>, d: seq<int>)
    ensures CompareTuples([a, b], [c, d]) <= 0 <==> Compare(a, c) < 0 || (Compare(a, c) == 0 && Compare(b, d) <= 0)
  {
    assert [a, b][1..] == [b] && [c, d][1..] == [d];
    assert [b][1..] == [] && [d][1..] == [];
    assert CompareTuples([b], [d]) == if Compare(b, d) != 0 then Compare(b, d) else CompareTuples([b][1..], [d][1..]);
  }

  lemma ThreeKeys(a: seq<int>, b: seq<int>, c: seq<int>, d: seq<int>, e: seq<int>, f: seq<int>)
    ensures CompareTuples([a, b, c], [d, e, f]) <= 0
       <==> Compare(a, d) < 0 || (Compare(a, d) == 0 && CompareTuples([b, c], [e, f]) <= 0)
  {
    assert [a, b, c][1..] == [b, c] && [d, e, f][1..] == [e, f];
  }

  /** Where the first letters differ they decide. */
  lemma FirstLetters(s: string, t: string)
    requires s != "" && t != "" && s[0] != t[0]
    ensures TextAtMost(s, t) <==> s[0] < t[0]
  { }

  function KeysOf(texts: seq<string>): seq<seq<int>> {
    seq(|texts|, i requires 0 <= i < |texts| => Utf16Key(texts[i]))
  }

  /** The texts are the same, or the first in which they differ is before. */
  ghost predicate TextsInOrder(s: seq<string>, t: seq<string>) {
    s == t || exists k :: 0 <= k < |s| && k < |t| && s[..k] == t[..k] && Utf16Less(s[k], t[k])
  }

  lemma {:induction false} KeysMeaning(s: seq<string>, t: seq<string>)
    requires |s| == |t|
    ensures CompareTuples(KeysOf(s), KeysOf(t)) <= 0 <==> TextsInOrder(s, t)
  {
    if s != [] {
      assert KeysOf(s)[1..] == KeysOf(s[1..]) && KeysOf(t)[1..] == KeysOf(t[1..]);
      KeysMeaning(s[1..], t[1..]);
      Utf16Trichotomy(s[0], t[0]);
      if s[0] == t[0] {
        TextsTail(s, t);
      } else if Utf16Less(s[0], t[0]) {
        assert s[..0] == t[..0];
      } else if TextsInOrder(s, t) {
        TextsHead(s, t);
      }
    }
  }

  lemma TextsHead(s: seq<string>, t: seq<string>)
    requires |s| == |t| > 0 && TextsInOrder(s, t)
    ensures s[0] == t[0] || Utf16Less(s[0], t[0])
  {
    if s != t {
      var k :| 0 <= k < |s| && s[..k] == t[..k] && Utf16Less(s[k], t[k]);
      if k > 0 { assert s[0] == s[..k][0] == t[..k][0] == t[0]; }
    }
  }

  lemma TextsTail(s: seq<string>, t: seq<string>)
    requires |s| == |t| > 0 && s[0] == t[0]
    ensures TextsInOrder(s, t) <==> TextsInOrder(s[1..], t[1..])
  {
    assert s == [s[0]] + s[1..] && t == [t[0]] + t[1..];
    if s[1..] != t[1..] {
      if TextsInOrder(s[1..], t[1..]) { TextsLonger(s, t); }
      if TextsInOrder(s, t) { TextsShorter(s, t); }
    }
  }

  lemma TextsLonger(s: seq<string>, t: seq<string>)
    requires |s| == |t| > 0 && s[0] == t[0] && s[1..] != t[1..] && TextsInOrder(s[1..], t[1..])
    ensures TextsInOrder(s, t)
  {
    var k :| 0 <= k < |s| - 1 && s[1..][..k] == t[1..][..k] && Utf16Less(s[1..][k], t[1..][k]);
    assert s[..k + 1] == [s[0]] + s[1..][..k] && t[..k + 1] == [t[0]] + t[1..][..k];
    assert s[k + 1] == s[1..][k] && t[k + 1] == t[1..][k];
  }

  lemma TextsShorter(s: seq<string>, t: seq<string>)
    requires |s| == |t| > 0 && s[0] == t[0] && s[1..] != t[1..] && TextsInOrder(s, t)
    ensures TextsInOrder(s[1..], t[1..])
  {
    Utf16Trichotomy(s[0], t[0]);
    var k :| 0 <= k < |s| && s[..k] == t[..k] && Utf16Less(s[k], t[k]);
    assert s[1..][..k - 1] == s[..k][1..] && t[1..][..k - 1] == t[..k][1..];
    assert s[1..][k - 1] == s[k] && t[1..][k - 1] == t[k];
  }

  // ----- Sorting with a comparison function

  ghost predicate TotalPreorder<T(!new)>(le: (T, T) -> bool) {
    && (forall x, y :: le(x, y) || le(y, x))
    && (forall x, y, z :: le(x, y) && le(y, z) ==> le(x, z))
  }

  ghost predicate SortedBy<T>(s: seq<T>, le: (T, T) -> bool) {
    forall i, j :: 0 <= i < j < |s| ==> le(s[i], s[j])
  }

  /** Puts x behind every element that is not strictly above it. */
  function Insert<T>(s: seq<T>, x: T, le: (T, T) -> bool): seq<T> {
    if s == [] || le(s[|s| - 1], x) then s + [x]
    else Insert(s[..|s| - 1], x, le) + [s[|s| - 1]]
  }

  /** Stable sort. */
  function SortBy<T>(s: seq<T>, le: (T, T) -> bool): seq<T> {
    if s == [] then [] else Insert(SortBy(s[..|s| - 1], le), s[|s| - 1], le)
  }

  lemma {:induction false} InsertElements<T>(s: seq<T>, x: T, le: (T, T) -> bool)
    ensures multiset(Insert(s, x, le)) == multiset(s) + multiset{x}
    ensures forall y :: y in Insert(s, x, le) <==> y in s || y == x
    ensures |Insert(s, x, le)| == |s| + 1
  {
    if s != [] && !le(s[|s| - 1], x) {
      InsertElements(s[..|s| - 1], x, le);
      assert s == s[..|s| - 1] + [s[|s| - 1]];
    }
  }

  lemma {:induction false} InsertSorted<T(!new)>(s: seq<T>, x: T, le: (T, T) -> bool)
    requires TotalPreorder(le) && SortedBy(s, le)
    ensures SortedBy(Insert(s, x, le), le)
  {
    if s != [] && !le(s[|s| - 1], x) {
      var front, last := s[..|s| - 1], s[|s| - 1];
      InsertSorted(front, x, le);
      InsertElements(front, x, le);
      forall y | y in Insert(front, x, le) ensures le(y, last) {
        if y in front {
          var i :| 0 <= i < |front| && front[i] == y;
          assert s[i] == y;
        }
      }
    } else if s != [] {
      forall i | 0 <= i < |s| ensures le(s[i], x) {
        if i < |s| - 1 { assert le(s[i], s[|s| - 1]); }
      }
    }
  }

  lemma {:induction false} SortElements<T>(s: seq<T>, le: (T, T) -> bool)
    ensures multiset(SortBy(s, le)) == multiset(s)
    ensures forall y :: y in SortBy(s, le) <==> y in s
    ensures |SortBy(s, le)| == |s|
  {
    if s != [] {
      SortElements(s[..|s| - 1], le);
      InsertElements(SortBy(s[..|s| - 1], le), s[|s| - 1], le);
      assert s == s[..|s| - 1] + [s[|s| - 1]];
    }
  }

  lemma {:induction false} SortSorts<T(!new)>(s: seq<T>, le: (T, T) -> bool)
    requires TotalPreorder(le)
    ensures SortedBy(SortBy(s, le), le)
  {
    if s != [] {
      SortSorts(s[..|s| - 1], le);
      InsertSorted(SortBy(s[..|s| - 1], le), s[|s| - 1], le);
    }
  }

  /** Sorting a sorted list changes nothing. */
  lemma {:induction false} SortOfSorted<T>(s: seq<T>, le: (T, T) -> bool)
    requires SortedBy(s, le)
    ensures SortBy(s, le) == s
  {
    if s != [] {
      var front, last := s[..|s| - 1], s[|s| - 1];
      assert s == front + [last];
      SortOfSorted(front, le);
      if front != [] { assert le(s[|s| - 2], last); }
      assert Insert(front, last, le) == front + [last];
    }
  }

  lemma FilterSorted<T>(s: seq<T>, f: T -> bool, le: (T, T) -> bool)
    requires SortedBy(s, le)
    ensures SortedBy(Filter(s, f), le)
  {
    if s != [] {
      var front, last := s[..|s| - 1], s[|s| - 1];
      FilterSorted(front, f, le);
      FilterMembers(front, f);
      forall i | 0 <= i < |Filter(front, f)| ensures le(Filter(front, f)[i], last) {
        var y := Filter(front, f)[i];
        FilterMember(front, f, y);
        var j :| 0 <= j < |front| && front[j] == y;
        assert s[j] == y;
      }
    }
  }

  lemma LastIsGreatest<T>(a: seq<T>, le: (T, T) -> bool, x: T)
    requires SortedBy(a, le) && x in a
    ensures x == a[|a| - 1] || le(x, a[|a| - 1])
  { }

  lemma WithoutLast<T>(a: seq<T>, x: T)
    requires a != [] && a[|a| - 1] == x
    ensures multiset(a[..|a| - 1]) == multiset(a) - multiset{x}
  {
    assert a == a[..|a| - 1] + [x];
  }

  lemma SameLast<T>(a: seq<T>, b: seq<T>, le: (T, T) -> bool)
    requires SortedBy(a, le) && SortedBy(b, le) && a != [] && multiset(a) == multiset(b)
    requires forall x, y :: x in a && y in a && le(x, y) && le(y, x) ==> x == y
    ensures b != [] && a[|a| - 1] == b[|b| - 1]
  {
    var x := a[|a| - 1];
    assert x in multiset(a);
    assert x in b;
    var y := b[|b| - 1];
    assert y in multiset(b);
    assert y in a;
    LastIsGreatest(b, le, x);
    LastIsGreatest(a, le, y);
  }

  lemma FrontsMatch<T>(a: seq<T>, b: seq<T>, le: (T, T) -> bool)
    requires SortedBy(a, le) && SortedBy(b, le) && a != [] && multiset(a) == multiset(b)
    requires forall x, y :: x in a && y in a && le(x, y) && le(y, x) ==> x == y
    ensures b != [] && a[|a| - 1] == b[|b| - 1]
    ensures multiset(a[..|a| - 1]) == multiset(b[..|b| - 1])
    ensures SortedBy(a[..|a| - 1], le) && SortedBy(b[..|b| - 1], le)
  {
    SameLast(a, b, le);
    WithoutLast(a, a[|a| - 1]);
    WithoutLast(b, a[|a| - 1]);
  }

  lemma Rejoined<T>(a: seq<T>, b: seq<T>)
    requires a != [] && b != [] && a[|a| - 1] == b[|b| - 1] && a[..|a| - 1] == b[..|b| - 1]
    ensures a == b
  {
    assert a == a[..|a| - 1] + [a[|a| - 1]] && b == b[..|b| - 1] + [b[|b| - 1]];
  }

  /** Two sorted arrangements of the same elements agree wherever the order tells elements apart. */
  lemma {:induction false} SortedUnique<T>(a: seq<T>, b: seq<T>, le: (T, T) -> bool)
    requires SortedBy(a, le) && SortedBy(b, le)
    requires multiset(a) == multiset(b)
    requires forall x, y :: x in a && y in a && le(x, y) && le(y, x) ==> x == y
    ensures a == b
  {
    if a == [] {
      assert |multiset(b)| == 0;
    } else {
      FrontsMatch(a, b, le);
      SortedUnique(a[..|a| - 1], b[..|b| - 1], le);
      Rejoined(a, b);
    }
  }

  /** Stability: what was sorted by `tie` before stays sorted by `tie` among equals of `le`. */
  lemma {:induction false} SortIsStable<T(!new)>(s: seq<T>, le: (T, T) -> bool, tie: (T, T) -> bool)
    requires TotalPreorder(le) && SortedBy(s, tie)
    ensures SortedBy(SortBy(s, le), (x, y) => le(x, y) && (le(y, x) ==> tie(x, y)))
  {
    if s != [] {
      var front, x := s[..|s| - 1], s[|s| - 1];
      SortIsStable(front, le, tie);
      SortElements(front, le);
      forall y | y in front ensures tie(y, x) { }
      InsertIsStable(SortBy(front, le), x, le, tie);
    }
  }

  lemma {:induction false} InsertIsStable<T(!new)>(s: seq<T>, x: T, le: (T, T) -> bool, tie: (T, T) -> bool)
    requires TotalPreorder(le)
    requires SortedBy(s, (x, y) => le(x, y) && (le(y, x) ==> tie(x, y)))
    requires forall y :: y in s ==> tie(y, x)
    ensures SortedBy(Insert(s, x, le), (x, y) => le(x, y) && (le(y, x) ==> tie(x, y)))
  {
    if s != [] {
      var front, last := s[..|s| - 1], s[|s| - 1];
      if le(last, x) {
        forall i | 0 <= i < |s| ensures le(s[i], x) && tie(s[i], x) {
          if i < |s| - 1 { assert le(s[i], last); }
          assert s[i] in s;
        }
      } else {
        InsertIsStable(front, x, le, tie);
        InsertElements(front, x, le);
        forall y | y in Insert(front, x, le) ensures le(y, last) && (le(last, y) ==> tie(y, last)) {
          if y != x || y in front {
            var i :| 0 <= i < |front| && front[i] == y;
            assert s[i] == y;
          }
        }
      }
    }
  }

  // ----- The last of a sorted part

  lemma {:induction false} InsertFilter<T(!new)>(s: seq<T>, x: T, le: (T, T) -> bool, f: T -> bool)
    requires TotalPreorder(le) && SortedBy(s, le)
    ensures Filter(Insert(s, x, le), f) == if f(x) then Insert(Filter(s, f), x, le) else Filter(s, f)
  {
    if s != [] && !le(s[|s| - 1], x) {
      InsertFilter(s[..|s| - 1], x, le, f);
    } else if s != [] && f(x) {
      AllBelow(s, x, le);
      FilterMembers(s, f);
      if Filter(s, f) != [] { assert Filter(s, f)[|Filter(s, f)| - 1] in Filter(s, f); }
    }
  }

  lemma AllBelow<T(!new)>(s: seq<T>, x: T, le: (T, T) -> bool)
    requires TotalPreorder(le) && SortedBy(s, le) && s != [] && le(s[|s| - 1], x)
    ensures forall y :: y in s ==> le(y, x)
  {
    forall i | 0 <= i < |s| ensures le(s[i], x) {
      if i < |s| - 1 { assert le(s[i], s[|s| - 1]); }
    }
  }

  /** Sorting and keeping a part may be done in either order. */
  lemma {:induction false} SortFilter<T(!new)>(s: seq<T>, le: (T, T) -> bool, f: T -> bool)
    requires TotalPreorder(le)
    ensures Filter(SortBy(s, le), f) == SortBy(Filter(s, f), le)
  {
    if s != [] {
      SortFilter(s[..|s| - 1], le, f);
      SortSorts(s[..|s| - 1], le);
      InsertFilter(SortBy(s[..|s| - 1], le), s[|s| - 1], le, f);
    }
  }

  /** The greatest element that satisfies f, the last of them if several are. */
  function LastMax<T>(s: seq<T>, f: T -> bool, le: (T, T) -> bool): Option<T> {
    if s == [] then None
    else
      var rest, x := LastMax(s[..|s| - 1], f, le), s[|s| - 1];
      if f(x) && (rest.None? || le(rest.value, x)) then Some(x) else rest
  }

  ghost predicate LastGreatest<T>(s: seq<T>, f: T -> bool, le: (T, T) -> bool, x: T) {
    exists i :: 0 <= i < |s| && s[i] == x && GreatestAt(s, f, le, i)
  }

  ghost predicate GreatestAt<T>(s: seq<T>, f: T -> bool, le: (T, T) -> bool, i: nat)
    requires i < |s|
  {
    f(s[i]) && forall j :: 0 <= j < |s| && f(s[j]) ==> if j <= i then le(s[j], s[i]) else !le(s[i], s[j])
  }

  lemma GreatestMore<T(!new)>(s: seq<T>, last: T, f: T -> bool, le: (T, T) -> bool, i: nat)
    requires TotalPreorder(le) && i < |s|
    ensures GreatestAt(s + [last], f, le, i) <==> GreatestAt(s, f, le, i) && !(f(last) && le(s[i], last))
  {
    var all := s + [last];
    assert forall j :: 0 <= j < |s| ==> all[j] == s[j];
    assert all[|s|] == last;
    if GreatestAt(all, f, le, i) {
      forall j | 0 <= j < |s| && f(s[j]) ensures if j <= i then le(s[j], s[i]) else !le(s[i], s[j]) {
        assert f(all[j]);
      }
    }
  }

  lemma {:induction false} LastMaxFound<T(!new)>(s: seq<T>, f: T -> bool, le: (T, T) -> bool)
    requires TotalPreorder(le)
    ensures LastMax(s, f, le).None? ==> forall y :: y in s ==> !f(y)
    ensures LastMax(s, f, le).Some? ==> f(LastMax(s, f, le).value) && LastMax(s, f, le).value in s
    ensures LastMax(s, f, le).Some? ==> forall y :: y in s && f(y) ==> le(y, LastMax(s, f, le).value)
  {
    if s != [] {
      LastMaxFound(s[..|s| - 1], f, le);
      assert s == s[..|s| - 1] + [s[|s| - 1]];
    }
  }

  lemma LastIsGreatestAt<T(!new)>(s: seq<T>, last: T, f: T -> bool, le: (T, T) -> bool)
    requires TotalPreorder(le)
    ensures GreatestAt(s + [last], f, le, |s|) <==> f(last) && forall y :: y in s && f(y) ==> le(y, last)
  {
    var all := s + [last];
    assert forall j :: 0 <= j < |s| ==> all[j] == s[j];
    if GreatestAt(all, f, le, |s|) {
      forall y | y in s && f(y) ensures le(y, last) {
        var j :| 0 <= j < |s| && s[j] == y;
        assert f(all[j]);
      }
    }
  }

  /** What is computed is the last of the greatest. */
  lemma {:induction false} LastMaxMeaning<T(!new)>(s: seq<T>, f: T -> bool, le: (T, T) -> bool, x: T)
    requires TotalPreorder(le)
    ensures LastMax(s, f, le) == Some(x) <==> LastGreatest(s, f, le, x)
  {
    if s != [] {
      var front, last := s[..|s| - 1], s[|s| - 1];
      assert s == front + [last];
      LastMaxMeaning(front, f, le, x);
      LastMaxStep(front, last, f, le, x);
    }
  }

  lemma LastMaxStep<T(!new)>(front: seq<T>, last: T, f: T -> bool, le: (T, T) -> bool, x: T)
    requires TotalPreorder(le)
    requires LastMax(front, f, le) == Some(x) <==> LastGreatest(front, f, le, x)
    ensures LastMax(front + [last], f, le) == Some(x) <==> LastGreatest(front + [last], f, le, x)
  {
    var s := front + [last];
    assert s[..|s| - 1] == front;
    LastMaxFound(front, f, le);
    LastIsGreatestAt(front, last, f, le);
    forall i: nat | i < |front|
      ensures GreatestAt(s, f, le, i) <==> GreatestAt(front, f, le, i) && !(f(last) && le(front[i], last))
    {
      GreatestMore(front, last, f, le, i);
    }
    if LastMax(s, f, le) == Some(x) {
      if LastMax(front, f, le) == Some(x) && !(f(last) && le(x, last)) {
        var i :| 0 <= i < |front| && front[i] == x && GreatestAt(front, f, le, i);
        assert s[i] == x;
      } else {
        assert s[|front|] == x;
      }
    }
    if LastGreatest(s, f, le, x) {
      var i :| 0 <= i < |s| && s[i] == x && GreatestAt(s, f, le, i);
      if i < |front| { assert front[i] == x; }
    }
  }

  /** It is the last element that satisfies f once the list is sorted. */
  lemma {:induction false} LastMaxIsLastSorted<T(!new)>(s: seq<T>, f: T -> bool, le: (T, T) -> bool)
    requires TotalPreorder(le)
    ensures var kept := Filter(SortBy(s, le), f);
            LastMax(s, f, le) == if kept == [] then None else Some(kept[|kept| - 1])
  {
    SortFilter(s, le, f);
    if s != [] {
      LastMaxIsLastSorted(s[..|s| - 1], f, le);
      SortFilter(s[..|s| - 1], le, f);
    }
  }
}
