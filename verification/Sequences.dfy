/** Filtering, searching and summing over sequences, in the left-to-right order in which the
    evaluator's comprehensions read its lists. Recursion is on the last element, so that a fact
    about a prefix of a list is a fact about an earlier moment of the loop that reads it. */
module Sequences {

  datatype Option<+T> = None | Some(value: T)

  /** The elements of s that satisfy f, in order. */
  function Filter<T>(s: seq<T>, f: T -> bool): seq<T> {
    if s == [] then []
    else
      var rest := Filter(s[..|s| - 1], f);
      if f(s[|s| - 1]) then rest + [s[|s| - 1]] else rest
  }

  /** The first element of s that satisfies f. */
  function FirstOf<T>(s: seq<T>, f: T -> bool): Option<T> {
    if s == [] then None
    else
      var earlier := FirstOf(s[..|s| - 1], f);
      if earlier.Some? then earlier
      else if f(s[|s| - 1]) then Some(s[|s| - 1]) else None
  }

  /** The sum of g over s. */
  function Sum<T>(s: seq<T>, g: T -> int): int {
    if s == [] then 0 else Sum(s[..|s| - 1], g) + g(s[|s| - 1])
  }

  ghost predicate Distinct<T>(s: seq<T>) {
    forall i, j :: 0 <= i < j < |s| ==> s[i] != s[j]
  }

  lemma {:induction false} FilterMember<T>(s: seq<T>, f: T -> bool, x: T)
    ensures x in Filter(s, f) <==> x in s && f(x)
  {
    if s != [] {
      FilterMember(s[..|s| - 1], f, x);
      assert s == s[..|s| - 1] + [s[|s| - 1]];
    }
  }

  lemma FilterMembers<T>(s: seq<T>, f: T -> bool)
    ensures forall x :: x in Filter(s, f) <==> x in s && f(x)
  { }

  lemma {:induction false} FilterExt<T>(s: seq<T>, f: T -> bool, g: T -> bool)
    requires forall x :: x in s ==> f(x) == g(x)
    ensures Filter(s, f) == Filter(s, g)
  {
    if s != [] { FilterExt(s[..|s| - 1], f, g); }
  }

  lemma {:induction false} FilterAll<T>(s: seq<T>, f: T -> bool)
    requires forall x :: x in s ==> f(x)
    ensures Filter(s, f) == s
  {
    if s != [] { FilterAll(s[..|s| - 1], f); }
  }

  lemma {:induction false} FilterNone<T>(s: seq<T>, f: T -> bool)
    requires forall x :: x in s ==> !f(x)
    ensures Filter(s, f) == []
  {
    if s != [] { FilterNone(s[..|s| - 1], f); }
  }

  lemma {:induction false} FilterConcat<T>(a: seq<T>, b: seq<T>, f: T -> bool)
    ensures Filter(a + b, f) == Filter(a, f) + Filter(b, f)
  {
    if b == [] {
      assert a + b == a;
    } else {
      assert (a + b)[..|a + b| - 1] == a + b[..|b| - 1];
      FilterConcat(a, b[..|b| - 1], f);
    }
  }

  lemma FilterOne<T>(x: T, f: T -> bool)
    ensures Filter([x], f) == if f(x) then [x] else []
    ensures FirstOf([x], f) == if f(x) then Some(x) else None
  { }

  lemma FilterPair<T>(x: T, y: T, f: T -> bool)
    ensures Filter([x] + [y], f) == (if f(x) then [x] else []) + (if f(y) then [y] else [])
    ensures FirstOf([x] + [y], f) == if f(x) then Some(x) else if f(y) then Some(y) else None
  {
    FilterOne(x, f);
    FilterOne(y, f);
    FilterConcat([x], [y], f);
    FirstConcat([x], [y], f);
  }

  lemma {:induction false} FilterFilter<T>(s: seq<T>, f: T -> bool, g: T -> bool, h: T -> bool)
    requires forall x :: x in s ==> h(x) == (f(x) && g(x))
    ensures Filter(Filter(s, f), g) == Filter(s, h)
  {
    if s != [] {
      FilterFilter(s[..|s| - 1], f, g, h);
      FilterConcat(Filter(s[..|s| - 1], f), [s[|s| - 1]], g);
    }
  }

  lemma {:induction false} FilterDistinct<T>(s: seq<T>, f: T -> bool)
    requires Distinct(s)
    ensures Distinct(Filter(s, f))
  {
    if s != [] {
      FilterDistinct(s[..|s| - 1], f);
      FilterMembers(s[..|s| - 1], f);
    }
  }

  lemma {:induction false} FilterShorter<T>(s: seq<T>, f: T -> bool)
    ensures |Filter(s, f)| <= |s|
  {
    if s != [] { FilterShorter(s[..|s| - 1], f); }
  }

  /** If exactly one element passes f, two members that pass it are equal. */
  lemma OnlyOne<T>(s: seq<T>, f: T -> bool, x: T, y: T)
    requires |Filter(s, f)| == 1 && x in s && y in s && f(x) && f(y)
    ensures x == y
  {
    FilterMembers(s, f);
    assert x in Filter(s, f) && y in Filter(s, f);
  }

  lemma {:induction false} FirstFound<T>(s: seq<T>, f: T -> bool)
    ensures FirstOf(s, f).Some? ==> FirstOf(s, f).value in s && f(FirstOf(s, f).value)
    ensures FirstOf(s, f).None? <==> forall x :: x in s ==> !f(x)
  {
    if s != [] {
      FirstFound(s[..|s| - 1], f);
      assert s == s[..|s| - 1] + [s[|s| - 1]];
    }
  }

  lemma {:induction false} FirstExt<T>(s: seq<T>, f: T -> bool, g: T -> bool)
    requires forall x :: x in s ==> f(x) == g(x)
    ensures FirstOf(s, f) == FirstOf(s, g)
  {
    if s != [] { FirstExt(s[..|s| - 1], f, g); }
  }

  lemma {:induction false} FirstConcat<T>(a: seq<T>, b: seq<T>, f: T -> bool)
    ensures FirstOf(a + b, f) == if FirstOf(a, f).Some? then FirstOf(a, f) else FirstOf(b, f)
  {
    if b == [] {
      assert a + b == a;
    } else {
      assert (a + b)[..|a + b| - 1] == a + b[..|b| - 1];
      FirstConcat(a, b[..|b| - 1], f);
    }
  }

  /** Dropping elements in front of the first hit, or after it, keeps the hit. */
  lemma {:induction false} FirstSurvivesFilter<T>(s: seq<T>, keep: T -> bool, f: T -> bool)
    requires FirstOf(s, f).Some? && keep(FirstOf(s, f).value)
    ensures FirstOf(Filter(s, keep), f) == FirstOf(s, f)
  {
    if s != [] {
      var front, last := s[..|s| - 1], s[|s| - 1];
      if FirstOf(front, f).Some? {
        FirstSurvivesFilter(front, keep, f);
      } else {
        FirstFound(front, f);
        FilterMembers(front, keep);
        FirstFound(Filter(front, keep), f);
      }
      FirstConcat(Filter(front, keep), [last], f);
    }
  }

  /** Filtering by the searched property does not change what is found. */
  lemma {:induction false} FirstIsHeadOfFilter<T>(s: seq<T>, f: T -> bool)
    ensures FirstOf(s, f) == if Filter(s, f) == [] then None else Some(Filter(s, f)[0])
  {
    if s != [] { FirstIsHeadOfFilter(s[..|s| - 1], f); }
  }

  lemma {:induction false} SumConcat<T>(a: seq<T>, b: seq<T>, g: T -> int)
    ensures Sum(a + b, g) == Sum(a, g) + Sum(b, g)
  {
    if b == [] {
      assert a + b == a;
    } else {
      assert (a + b)[..|a + b| - 1] == a + b[..|b| - 1];
      SumConcat(a, b[..|b| - 1], g);
    }
  }

  /** One turn of an accumulating loop. */
  lemma SumOneMore<T>(s: seq<T>, x: T, f: T -> bool, g: T -> int)
    ensures Sum(Filter(s + [x], f), g) == Sum(Filter(s, f), g) + (if f(x) then g(x) else 0)
  { }

  lemma {:induction false} SumExt<T>(s: seq<T>, g: T -> int, h: T -> int)
    requires forall x :: x in s ==> g(x) == h(x)
    ensures Sum(s, g) == Sum(s, h)
  {
    if s != [] { SumExt(s[..|s| - 1], g, h); }
  }

  lemma {:induction false} SumScale<T>(s: seq<T>, g: T -> int, h: T -> int, k: int)
    requires forall x :: x in s ==> h(x) == k * g(x)
    ensures Sum(s, h) == k * Sum(s, g)
  {
    if s != [] {
      SumScale(s[..|s| - 1], g, h, k);
      assert h(s[|s| - 1]) == k * g(s[|s| - 1]);
    }
  }

  lemma {:induction false} SumNonNegative<T>(s: seq<T>, g: T -> int)
    requires forall x :: x in s ==> 0 <= g(x)
    ensures 0 <= Sum(s, g)
  {
    if s != [] { SumNonNegative(s[..|s| - 1], g); }
  }

  lemma {:induction false} SumFilterAtMost<T>(s: seq<T>, f: T -> bool, g: T -> int)
    requires forall x :: x in s ==> 0 <= g(x)
    ensures Sum(Filter(s, f), g) <= Sum(s, g)
  {
    if s != [] { SumFilterAtMost(s[..|s| - 1], f, g); }
  }

  // ----- Positions

  /** x is the first element of s that satisfies f. */
  ghost predicate FirstWith<T>(s: seq<T>, f: T -> bool, x: T) {
    exists i :: 0 <= i < |s| && s[i] == x && f(x) && forall j :: 0 <= j < i ==> !f(s[j])
  }

  lemma {:induction false} FirstMeaning<T>(s: seq<T>, f: T -> bool, x: T)
    ensures FirstOf(s, f) == Some(x) <==> FirstWith(s, f, x)
  {
    if s != [] {
      var front, last := s[..|s| - 1], s[|s| - 1];
      FirstMeaning(front, f, x);
      FirstFound(front, f);
      if FirstWith(front, f, x) {
        var i :| 0 <= i < |front| && front[i] == x && f(x) && forall j :: 0 <= j < i ==> !f(front[j]);
        assert s[i] == x && forall j :: 0 <= j < i ==> s[j] == front[j];
      }
      if FirstOf(s, f) == Some(last) && FirstOf(front, f).None? {
        assert forall j :: 0 <= j < |front| ==> s[j] == front[j];
      }
      if FirstWith(s, f, x) {
        var i :| 0 <= i < |s| && s[i] == x && f(x) && forall j :: 0 <= j < i ==> !f(s[j]);
        assert forall j :: 0 <= j < |front| ==> s[j] == front[j];
        if i < |front| { assert FirstWith(front, f, x); }
      }
    }
  }

  /** Two places of s satisfy f. */
  ghost predicate Twice<T>(s: seq<T>, f: T -> bool) { exists i, j :: 0 <= i < j < |s| && f(s[i]) && f(s[j]) }

  lemma TwiceMore<T>(s: seq<T>, last: T, f: T -> bool)
    ensures Twice(s + [last], f) <==> Twice(s, f) || (f(last) && exists x :: x in s && f(x))
  {
    var all := s + [last];
    assert forall i :: 0 <= i < |s| ==> all[i] == s[i];
    if Twice(s, f) {
      var i, j :| 0 <= i < j < |s| && f(s[i]) && f(s[j]);
      assert f(all[i]) && f(all[j]);
    }
    if f(last) && exists x :: x in s && f(x) {
      var i :| 0 <= i < |s| && f(s[i]);
      assert f(all[i]) && f(all[|s|]);
    }
  }

  lemma SomeFiltered<T>(s: seq<T>, f: T -> bool)
    ensures Filter(s, f) != [] <==> exists x :: x in s && f(x)
  {
    FilterMembers(s, f);
    if Filter(s, f) != [] { assert Filter(s, f)[0] in Filter(s, f); }
    if x :| x in s && f(x) { FilterMember(s, f, x); }
  }

  lemma {:induction false} CountMeaning<T>(s: seq<T>, f: T -> bool)
    ensures |Filter(s, f)| > 1 <==> Twice(s, f)
  {
    if s != [] {
      var front, last := s[..|s| - 1], s[|s| - 1];
      assert s == front + [last];
      CountMeaning(front, f);
      TwiceMore(front, last, f);
      SomeFiltered(front, f);
    }
  }

  /** x stands somewhere before y. */
  ghost predicate Precedes<T>(s: seq<T>, x: T, y: T) { exists i, j :: 0 <= i < j < |s| && s[i] == x && s[j] == y }

  lemma PrecedesMore<T>(s: seq<T>, last: T, x: T, y: T)
    ensures Precedes(s + [last], x, y) <==> Precedes(s, x, y) || (last == y && x in s)
  {
    var all := s + [last];
    if Precedes(s, x, y) {
      var i, j :| 0 <= i < j < |s| && s[i] == x && s[j] == y;
      assert all[i] == x && all[j] == y;
    }
    if last == y && x in s {
      var i :| 0 <= i < |s| && s[i] == x;
      assert all[i] == x && all[|s|] == y;
    }
  }

  lemma {:induction false} PrecedesInFilter<T>(s: seq<T>, f: T -> bool, x: T, y: T)
    requires f(x) && f(y)
    ensures Precedes(Filter(s, f), x, y) <==> Precedes(s, x, y)
  {
    if s != [] {
      var front, last := s[..|s| - 1], s[|s| - 1];
      assert s == front + [last];
      PrecedesInFilter(front, f, x, y);
      PrecedesMore(front, last, x, y);
      FilterMembers(front, f);
      PrecedesMore(Filter(front, f), last, x, y);
    }
  }

  // ----- Sums by class

  /** The elements of one class. */
  function OfClass<T, C(==)>(kind: T -> C, c: C): T -> bool { (x: T) => kind(x) == c }

  function ClassSum<T, C(==)>(s: seq<T>, kind: T -> C, m: T -> int): C -> int {
    (c: C) => Sum(Filter(s, OfClass(kind, c)), m)
  }

  lemma {:induction false} SumZero<T>(s: seq<T>, g: T -> int)
    requires forall x :: x in s ==> g(x) == 0
    ensures Sum(s, g) == 0
  {
    if s != [] { SumZero(s[..|s| - 1], g); }
  }

  /** Raising one class by v raises the sum over distinct classes by v. */
  lemma {:induction false} SumBump<C>(classes: seq<C>, g: C -> int, h: C -> int, c: C, v: int)
    requires Distinct(classes)
    requires forall d :: d in classes ==> h(d) == g(d) + (if d == c then v else 0)
    ensures Sum(classes, h) == Sum(classes, g) + (if c in classes then v else 0)
  {
    if classes != [] {
      var front, last := classes[..|classes| - 1], classes[|classes| - 1];
      assert classes == front + [last];
      SumBump(front, g, h, c, v);
      if last == c { assert c !in front; }
    }
  }

  /** A sum is the sum of its class sums, over any list of distinct classes that covers it. */
  lemma {:induction false} SumByClass<T, C>(s: seq<T>, classes: seq<C>, kind: T -> C, m: T -> int)
    requires Distinct(classes) && forall x :: x in s ==> kind(x) in classes
    ensures Sum(s, m) == Sum(classes, ClassSum(s, kind, m))
  {
    if s == [] {
      SumZero(classes, ClassSum(s, kind, m));
    } else {
      var front, last := s[..|s| - 1], s[|s| - 1];
      assert s == front + [last];
      SumByClass(front, classes, kind, m);
      forall d | d in classes
        ensures ClassSum(s, kind, m)(d) == ClassSum(front, kind, m)(d) + (if d == kind(last) then m(last) else 0)
      {
        FilterConcat(front, [last], OfClass(kind, d));
        FilterOne(last, OfClass(kind, d));
      }
      SumBump(classes, ClassSum(front, kind, m), ClassSum(s, kind, m), kind(last), m(last));
    }
  }
}
