/**
 The course catalog and the list stages of scripts/generate-index.js: the
 active filter, the theme-key default, and the order-preserving de-duplication
 of the theme keys in use.
 */
module Catalog {
  import opened Wrappers
  import opened Text
  import Themes

  /**
   One entry of `courses` in the catalog file. A field absent from the JSON
   object is `None`; `chapters` is a non-negative integer count.
   */
  datatype Course = Course(
    title: string,
    description: string,
    url: string,
    level: string,
    chapters: nat,
    tags: seq<string>,
    theme: Option<string>,
    status: Option<string>)

  /** The `site` object of the catalog file. */
  datatype Site = Site(
    title: string,
    description: string,
    brand: string,
    brandUrl: string,
    copyright: string)

  /** `c.status === 'active'`: a missing status is not active. */
  predicate IsActive(c: Course)
  {
    c.status == Some("active")
  }

  /** `courses.filter(c => c.status === 'active')`. */
  function ActiveCourses(cs: seq<Course>): (r: seq<Course>)
    ensures forall c :: c in r <==> c in cs && IsActive(c)
    ensures forall c {:trigger multiset(r)[c]} :: multiset(r)[c] == if IsActive(c) then multiset(cs)[c] else 0
  {
    if |cs| == 0 then []
    else
      var rest := ActiveCourses(cs[1..]);
      assert cs == [cs[0]] + cs[1..];
      (if IsActive(cs[0]) then [cs[0]] else []) + rest
  }

  /** The number of positions of `cs` that hold an active course. */
  function CountActive(cs: seq<Course>): nat
  {
    |ActivePositions(cs)|
  }

  /** The positions of `cs` that hold an active course. */
  function ActivePositions(cs: seq<Course>): set<nat>
  {
    set i: nat | i < |cs| && IsActive(cs[i])
  }

  lemma ActivePositionsSnoc(cs: seq<Course>)
    requires |cs| > 0
    ensures ActivePositions(cs) ==
            ActivePositions(cs[..|cs| - 1]) + (if IsActive(cs[|cs| - 1]) then {|cs| - 1} else {})
  {
    var n := |cs| - 1;
    var extra: set<nat> := if IsActive(cs[n]) then {n} else {};
    forall i | i in ActivePositions(cs)
      ensures i in ActivePositions(cs[..n]) + extra
    {
      if i < n {
        assert cs[..n][i] == cs[i];
      }
    }
    forall i | i in ActivePositions(cs[..n])
      ensures i in ActivePositions(cs)
    {
      assert cs[..n][i] == cs[i];
    }
  }

  /** The filter keeps as many courses as there are active positions. */
  lemma {:induction false} ActiveCoursesCount(cs: seq<Course>)
    ensures |ActiveCourses(cs)| == CountActive(cs)
  {
    if |cs| > 0 {
      var n := |cs| - 1;
      var prefix := cs[..n];
      ActiveCoursesCount(prefix);
      assert |ActiveCourses(cs)| == |ActiveCourses(prefix)| + (if IsActive(cs[n]) then 1 else 0) by {
        assert cs == prefix + [cs[n]];
        ActiveCoursesAppend(prefix, [cs[n]]);
        assert [cs[n]][1..] == [];
      }
      assert CountActive(cs) == CountActive(prefix) + (if IsActive(cs[n]) then 1 else 0) by {
        ActivePositionsSnoc(cs);
        assert n !in ActivePositions(prefix);
      }
    }
  }

  /** `a` is `b` with some elements removed, the rest in the same order. */
  predicate IsSubsequence<T(==)>(a: seq<T>, b: seq<T>)
  {
    if |a| == 0 then true
    else if |b| == 0 then false
    else if a[0] == b[0] then IsSubsequence(a[1..], b[1..])
    else IsSubsequence(a, b[1..])
  }

  /** The filter keeps its survivors in their original relative order. */
  lemma {:induction false} ActiveCoursesInOrder(cs: seq<Course>)
    ensures IsSubsequence(ActiveCourses(cs), cs)
  {
    if |cs| > 0 {
      ActiveCoursesInOrder(cs[1..]);
      var rest := ActiveCourses(cs[1..]);
      if IsActive(cs[0]) {
        assert ([cs[0]] + rest)[1..] == rest;
      } else {
        assert ActiveCourses(cs) == rest;
        if |rest| > 0 {
          assert rest[0] in rest;
          assert rest[0] != cs[0];
        }
      }
    }
  }

  /** Filtering a concatenation filters each part: the filter is applied element by element, in place. */
  lemma {:induction false} ActiveCoursesAppend(a: seq<Course>, b: seq<Course>)
    ensures ActiveCourses(a + b) == ActiveCourses(a) + ActiveCourses(b)
  {
    if |a| == 0 {
      assert a + b == b;
    } else {
      assert (a + b)[0] == a[0];
      assert (a + b)[1..] == a[1..] + b;
      ActiveCoursesAppend(a[1..], b);
    }
  }

  /** A catalog whose courses are all active is rendered whole. */
  lemma {:induction false} AllActiveKept(cs: seq<Course>)
    requires forall i :: 0 <= i < |cs| ==> IsActive(cs[i])
    ensures ActiveCourses(cs) == cs
  {
    if |cs| > 0 {
      AllActiveKept(cs[1..]);
    }
  }

  /** `c.theme || 'a'`: a missing or empty theme becomes the base key; any other key is kept verbatim. */
  function ThemeKey(c: Course): (k: string)
    ensures k != ""
    ensures k == Themes.BaseKey <==> c.theme in {None, Some(""), Some(Themes.BaseKey)}
    ensures c.theme.Some? && c.theme.value != "" ==> k == c.theme.value
  {
    match c.theme
    case None => Themes.BaseKey
    case Some(t) => if t == "" then Themes.BaseKey else t
  }

  /** `activeCourses.map(c => c.theme || 'a')`. */
  function ThemeKeys(cs: seq<Course>): (ks: seq<string>)
    ensures |ks| == |cs|
    ensures forall i :: 0 <= i < |cs| ==> ks[i] == ThemeKey(cs[i])
  {
    seq(|cs|, i requires 0 <= i < |cs| => ThemeKey(cs[i]))
  }

  predicate NoDuplicates<T(==)>(xs: seq<T>)
  {
    forall i, j :: 0 <= i < j < |xs| ==> xs[i] != xs[j]
  }

  /**
   `[...new Set(xs)]`: each distinct element once, at the place where it first
   occurs. Defined by growing the result as a `Set` grows on insertion.
   */
  function Unique<T(==,!new)>(xs: seq<T>): (r: seq<T>)
    ensures NoDuplicates(r)
    ensures forall x :: x in r <==> x in xs
    ensures |r| <= |xs|
  {
    if |xs| == 0 then []
    else
      var prefix := xs[..|xs| - 1];
      var last := xs[|xs| - 1];
      assert xs == prefix + [last];
      var p := Unique(prefix);
      if last in p then p else p + [last]
  }

  /** The first occurrence of `x` in a prefix that contains it is its first occurrence in the whole. */
  lemma FirstIndexPrefix<T>(xs: seq<T>, n: nat, x: T)
    requires n <= |xs| && x in xs[..n]
    ensures FirstIndex(xs[..n], x) == FirstIndex(xs, x)
  {
    var a, b := FirstIndex(xs[..n], x), FirstIndex(xs, x);
    assert xs[..n][..a] == xs[..a];
  }

  /**
   The de-duplicated keys appear in the order of their first occurrence, so
   with `Unique`'s contract they are exactly the first occurrences of `xs`.
   */
  lemma {:induction false} UniqueFirstOccurrenceOrder<T(!new)>(xs: seq<T>)
    ensures forall i, j :: 0 <= i < j < |Unique(xs)| ==>
              FirstIndex(xs, Unique(xs)[i]) < FirstIndex(xs, Unique(xs)[j])
  {
    if |xs| > 0 {
      var n := |xs| - 1;
      var prefix := xs[..n];
      var p := Unique(prefix);
      UniqueFirstOccurrenceOrder(prefix);
      forall x | x in p
        ensures FirstIndex(xs, x) == FirstIndex(prefix, x) < n
      {
        FirstIndexPrefix(xs, n, x);
      }
      if xs[n] !in p {
        assert xs[n] !in prefix;
        assert xs[..n + 1] == xs;
        assert FirstIndex(xs, xs[n]) == n;
      }
    }
  }

  /**
   `[...new Set(xs)]` computed as the source's runtime does it: scan once,
   appending each element the set of seen elements does not yet hold.
   */
  method DistinctInOrder<T(==,!new)>(xs: seq<T>) returns (r: seq<T>)
    ensures r == Unique(xs)
  {
    var seen: set<T> := {};
    r := [];
    var i := 0;
    while i < |xs|
      invariant 0 <= i <= |xs|
      invariant r == Unique(xs[..i])
      invariant seen == set x | x in r
    {
      assert xs[..i + 1][..i] == xs[..i];
      if xs[i] !in seen {
        seen := seen + {xs[i]};
        r := r + [xs[i]];
      }
      i := i + 1;
    }
    assert xs[..i] == xs;
  }

  /** `usedThemes`: the defaulted theme keys of the active courses, each once, in first-use order. */
  function UsedThemes(active: seq<Course>): (ks: seq<string>)
    ensures NoDuplicates(ks)
    ensures forall k :: k in ks <==> exists i :: 0 <= i < |active| && ThemeKey(active[i]) == k
  {
    var keys := ThemeKeys(active);
    assert forall k :: k in keys <==> exists i :: 0 <= i < |active| && ThemeKey(active[i]) == k by {
      forall k | k in keys ensures exists i :: 0 <= i < |active| && ThemeKey(active[i]) == k {
        var i :| 0 <= i < |keys| && keys[i] == k;
      }
    }
    Unique(keys)
  }
}
