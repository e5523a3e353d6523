/**
 * Python's ordering of `str` values (code point by code point, a proper
 * prefix before its extensions) and the built-in `sorted` on lists of strings.
 */
module LexOrder {

  import Seqs

  /** `a <= b` on Python strings. */
  predicate Le(a: string, b: string)
    decreases |a|
  {
    |a| == 0 || (|b| > 0 && (a[0] < b[0] || (a[0] == b[0] && Le(a[1..], b[1..]))))
  }

  lemma {:induction false} LeTotal(a: string, b: string)
    ensures Le(a, b) || Le(b, a)
    decreases |a|
  {
    if |a| > 0 && |b| > 0 && a[0] == b[0] {
      LeTotal(a[1..], b[1..]);
    }
  }

  lemma {:induction false} LeAntisymmetric(a: string, b: string)
    requires Le(a, b) && Le(b, a)
    ensures a == b
    decreases |a|
  {
    if |a| > 0 {
      LeAntisymmetric(a[1..], b[1..]);
      assert a == [a[0]] + a[1..] && b == [b[0]] + b[1..];
    }
  }

  lemma {:induction false} LeTransitive(a: string, b: string, c: string)
    requires Le(a, b) && Le(b, c)
    ensures Le(a, c)
    decreases |a|
  {
    if |a| > 0 && a[0] == b[0] && b[0] == c[0] {
      LeTransitive(a[1..], b[1..], c[1..]);
    }
  }

  /** Cutting two ordered strings to a common length keeps them ordered. */
  lemma {:induction false} LePrefixes(a: string, b: string, k: nat)
    requires Le(a, b) && k <= |a| && k <= |b|
    ensures Le(a[..k], b[..k])
    decreases k
  {
    if k > 0 && a[0] == b[0] {
      LePrefixes(a[1..], b[1..], k - 1);
      assert a[..k][1..] == a[1..][..k - 1];
      assert b[..k][1..] == b[1..][..k - 1];
    }
  }

  predicate Sorted(s: seq<string>) {
    forall i, j :: 0 <= i < j < |s| ==> Le(s[i], s[j])
  }

  /** Insertion of one string into a sorted list, before the first element not below it. */
  function Insert(x: string, s: seq<string>): (r: seq<string>)
    ensures multiset(r) == multiset(s) + multiset{x}
  {
    if s == [] then [x]
    else if Le(x, s[0]) then [x] + s
    else
      assert s == [s[0]] + s[1..];
      [s[0]] + Insert(x, s[1..])
  }

  lemma {:induction false} InsertSorted(x: string, s: seq<string>)
    requires Sorted(s)
    ensures Sorted(Insert(x, s))
  {
    if s == [] {
    } else if Le(x, s[0]) {
      forall j | 0 <= j < |s| ensures Le(x, s[j]) {
        if j > 0 { LeTransitive(x, s[0], s[j]); }
      }
    } else {
      InsertSorted(x, s[1..]);
      LeTotal(x, s[0]);
      ConsSorted(s[0], Insert(x, s[1..]), x, s[1..]);
    }
  }

  /** Putting `y` in front of a sorted list whose elements are `x` or above `y` keeps it sorted. */
  lemma ConsSorted(y: string, rest: seq<string>, x: string, s: seq<string>)
    requires Sorted(rest) && multiset(rest) == multiset(s) + multiset{x}
    requires Le(y, x) && forall k :: 0 <= k < |s| ==> Le(y, s[k])
    ensures Sorted([y] + rest)
  {
    forall j | 0 <= j < |rest| ensures Le(y, rest[j]) {
      assert rest[j] in multiset(rest);
    }
    var r := [y] + rest;
    forall i, j | 0 <= i < j < |r| ensures Le(r[i], r[j]) {
      if i > 0 { assert r[i] == rest[i - 1] && r[j] == rest[j - 1]; }
      else { assert r[j] == rest[j - 1]; }
    }
  }

  /** Python's `sorted` on a list of strings. */
  function Sort(s: seq<string>): (r: seq<string>)
    ensures multiset(r) == multiset(s) && |r| == |s|
    ensures Sorted(r)
  {
    if s == [] then []
    else
      assert s == [s[0]] + s[1..];
      InsertSorted(s[0], Sort(s[1..]));
      Insert(s[0], Sort(s[1..]))
  }

  /** Sorting a permutation of a sorted list gives that list. */
  lemma SortPermutation(rows: seq<string>, target: seq<string>)
    requires multiset(rows) == multiset(target) && Sorted(target)
    ensures Sort(rows) == target
  {
    SortedUnique(Sort(rows), target);
  }

  /** A list of strings has exactly one sorted arrangement. */
  lemma {:induction false} SortedUnique(a: seq<string>, b: seq<string>)
    requires Sorted(a) && Sorted(b) && multiset(a) == multiset(b)
    ensures a == b
    decreases |a|
  {
    if a == [] {
      assert |multiset(b)| == 0;
    } else {
      assert |b| == |multiset(b)| > 0;
      assert b[0] in multiset(a) && a[0] in multiset(b);
      var i :| 0 <= i < |a| && a[i] == b[0];
      var j :| 0 <= j < |b| && b[j] == a[0];
      assert Le(a[0], a[i]) by { if i == 0 { LeTotal(a[0], a[0]); } }
      assert Le(b[0], b[j]) by { if j == 0 { LeTotal(b[0], b[0]); } }
      LeAntisymmetric(a[0], b[0]);
      assert a == [a[0]] + a[1..] && b == [b[0]] + b[1..];
      assert multiset(a[1..]) == multiset(b[1..]) by {
        assert multiset(a) == multiset(a[1..]) + multiset{a[0]};
        assert multiset(b) == multiset(b[1..]) + multiset{a[0]};
        Seqs.MultisetCancel(multiset(a[1..]), multiset(b[1..]), a[0]);
      }
      SortedUnique(a[1..], b[1..]);
    }
  }
}
