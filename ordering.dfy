/**
 * Orderings and sequence helpers used by the read queries: SQLite's BINARY
 * text collation, DISTINCT, and ORDER BY as a stable sort.
 */
module Ordering {

  /** SQLite's BINARY collation on TEXT: memcmp over UTF-8, which orders
      by code point; a proper prefix comes first. */
  predicate TextLess(a: string, b: string)
    decreases |a|
  {
    if a == [] then b != []
    else if b == [] then false
    else if a[0] < b[0] then true
    else if a[0] == b[0] then TextLess(a[1..], b[1..])
    else false
  }

  lemma {:induction false} TextLessIrreflexive(a: string)
    ensures !TextLess(a, a)
    decreases |a|
  {
    if a != [] {
      TextLessIrreflexive(a[1..]);
    }
  }

  lemma {:induction false} TextLessTotal(a: string, b: string)
    ensures a == b || TextLess(a, b) || TextLess(b, a)
    decreases |a|
  {
    if a != [] && b != [] && a[0] == b[0] {
      TextLessTotal(a[1..], b[1..]);
      if a[1..] == b[1..] {
        assert a == [a[0]] + a[1..] && b == [b[0]] + b[1..];
      }
    }
  }

  lemma {:induction false} TextLessTransitive(a: string, b: string, c: string)
    requires TextLess(a, b) && TextLess(b, c)
    ensures TextLess(a, c)
    decreases |a|
  {
    if a != [] && a[0] == b[0] && b[0] == c[0] {
      TextLessTransitive(a[1..], b[1..], c[1..]);
    }
  }

  /** Every element strictly below every later one: sorted and duplicate-free. */
  predicate StrictlySorted(s: seq<string>)
  {
    forall i, j :: 0 <= i < j < |s| ==> TextLess(s[i], s[j])
  }

  predicate NoDuplicates<T(==)>(s: seq<T>)
  {
    forall i, j :: 0 <= i < j < |s| ==> s[i] != s[j]
  }

  lemma StrictlySortedHasNoDuplicates(s: seq<string>)
    requires StrictlySorted(s)
    ensures NoDuplicates(s)
  {
    forall i, j | 0 <= i < j < |s| ensures s[i] != s[j] {
      TextLessIrreflexive(s[i]);
    }
  }

  /** Inserts x into a strictly sorted list unless it is already there. */
  function InsertUnique(x: string, s: seq<string>): (r: seq<string>)
    requires StrictlySorted(s)
    ensures StrictlySorted(r)
    ensures forall y :: y in r <==> y == x || y in s
  {
    if s == [] then [x]
    else if x == s[0] then s
    else if TextLess(x, s[0]) then
      assert forall j :: 0 < j < |s| ==> TextLess(x, s[j]) by {
        forall j | 0 < j < |s| ensures TextLess(x, s[j]) {
          TextLessTransitive(x, s[0], s[j]);
        }
      }
      [x] + s
    else
      TextLessTotal(x, s[0]);
      var rest := InsertUnique(x, s[1..]);
      assert forall y :: y in rest ==> TextLess(s[0], y);
      [s[0]] + rest
  }

  /** Keeps the first occurrence of every value, in order of appearance. */
  function Distinct<T(==,!new)>(s: seq<T>): (r: seq<T>)
    ensures NoDuplicates(r)
    ensures forall x :: x in r <==> x in s
    ensures |r| <= |s|
  {
    if s == [] then []
    else
      var prefix := Distinct(s[..|s| - 1]);
      assert forall x :: x in s <==> x in s[..|s| - 1] || x == s[|s| - 1] by {
        assert s == s[..|s| - 1] + [s[|s| - 1]];
      }
      if s[|s| - 1] in prefix then prefix else prefix + [s[|s| - 1]]
  }

  /** geq is a total preorder: what ORDER BY needs of its comparison. */
  ghost predicate TotalPreorder<T(!new)>(geq: (T, T) -> bool)
  {
    && (forall a, b :: geq(a, b) || geq(b, a))
    && (forall a, b, c :: geq(a, b) && geq(b, c) ==> geq(a, c))
  }

  predicate SortedBy<T>(s: seq<T>, geq: (T, T) -> bool)
  {
    forall i, j :: 0 <= i < j < |s| ==> geq(s[i], s[j])
  }

  /** Inserts x before the first element it is geq to, so that x goes
      ahead of the elements it ties with. */
  function InsertBy<T>(x: T, s: seq<T>, geq: (T, T) -> bool): (r: seq<T>)
    ensures |r| == |s| + 1
    ensures multiset(r) == multiset(s) + multiset{x}
  {
    if s == [] then [x]
    else if geq(x, s[0]) then [x] + s
    else
      assert s == [s[0]] + s[1..];
      [s[0]] + InsertBy(x, s[1..], geq)
  }

  /** ORDER BY with the comparison geq: a permutation of the input. */
  function SortBy<T>(s: seq<T>, geq: (T, T) -> bool): (r: seq<T>)
    ensures |r| == |s|
    ensures multiset(r) == multiset(s)
  {
    if s == [] then []
    else
      assert s == [s[0]] + s[1..];
      InsertBy(s[0], SortBy(s[1..], geq), geq)
  }

  lemma {:induction false} InsertByMembers<T>(x: T, s: seq<T>, geq: (T, T) -> bool)
    ensures forall y :: y in InsertBy(x, s, geq) <==> y == x || y in s
  {
    var r := InsertBy(x, s, geq);
    forall y ensures y in r <==> y == x || y in s {
      calc {
        y in r;
        multiset(r)[y] > 0;
        (multiset(s) + multiset{x})[y] > 0;
        y == x || y in s;
      }
    }
  }

  lemma {:induction false} InsertBySorted<T(!new)>(x: T, s: seq<T>, geq: (T, T) -> bool)
    requires TotalPreorder(geq)
    requires SortedBy(s, geq)
    ensures SortedBy(InsertBy(x, s, geq), geq)
  {
    if s != [] && !geq(x, s[0]) {
      InsertBySorted(x, s[1..], geq);
      InsertByMembers(x, s[1..], geq);
      var rest := InsertBy(x, s[1..], geq);
      assert forall y :: y in rest ==> geq(s[0], y);
      var r := [s[0]] + rest;
      forall i, j | 0 <= i < j < |r| ensures geq(r[i], r[j]) {
        if i == 0 {
          assert r[j] in rest;
        } else {
          assert r[i] == rest[i - 1] && r[j] == rest[j - 1];
        }
      }
    }
  }

  lemma {:induction false} SortByIsSorted<T(!new)>(s: seq<T>, geq: (T, T) -> bool)
    requires TotalPreorder(geq)
    ensures SortedBy(SortBy(s, geq), geq)
  {
    if s != [] {
      SortByIsSorted(s[1..], geq);
      InsertBySorted(s[0], SortBy(s[1..], geq), geq);
    }
  }

  /** Sorting keeps exactly the elements it was given. */
  lemma SortByMembers<T>(s: seq<T>, geq: (T, T) -> bool, x: T)
    ensures x in SortBy(s, geq) <==> x in s
  {
    var r := SortBy(s, geq);
    assert x in r <==> multiset(r)[x] > 0;
    assert x in s <==> multiset(s)[x] > 0;
  }

  /** LIMIT n: SQLite treats a negative limit as "no limit". */
  function Limit<T>(s: seq<T>, n: int): (r: seq<T>)
    ensures n < 0 ==> r == s
    ensures 0 <= n ==> |r| == if n < |s| then n else |s|
    ensures |r| <= |s| && r == s[..|r|]
  {
    if n < 0 || |s| <= n then s else s[..n]
  }

  /** LIMIT drops rows and never repeats one. */
  lemma LimitSubMultiset<T>(s: seq<T>, n: int)
    ensures multiset(Limit(s, n)) <= multiset(s)
  {
    var r := Limit(s, n);
    assert s == r + s[|r|..];
  }
}
