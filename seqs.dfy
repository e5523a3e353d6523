/** Generic facts about sequences: mapping a function over them and permutations. */
module Seqs {

  /** The list comprehension `[f(x) for x in s]`. */
  function Map<A, B>(f: A -> B, s: seq<A>): (r: seq<B>)
    ensures |r| == |s|
    ensures forall i :: 0 <= i < |s| ==> r[i] == f(s[i])
  {
    seq(|s|, i requires 0 <= i < |s| => f(s[i]))
  }

  /** The sequence rotated right by one place: its last element moves to the front. */
  function CycleRight<A>(s: seq<A>): (r: seq<A>)
    requires |s| > 0
    ensures |r| == |s| && r[0] == s[|s| - 1]
    ensures forall i :: 0 < i < |s| ==> r[i] == s[i - 1]
  {
    [s[|s| - 1]] + s[..|s| - 1]
  }

  /** Concatenation is associative. */
  lemma AppendAssoc<A>(a: seq<A>, b: seq<A>, c: seq<A>)
    ensures a + (b + c) == (a + b) + c
  {
  }

  lemma CycleRightPermutes<A>(s: seq<A>)
    requires |s| > 0
    ensures multiset(CycleRight(s)) == multiset(s)
  {
    assert s == s[..|s| - 1] + [s[|s| - 1]];
  }

  lemma MultisetCancel<A>(p: multiset<A>, q: multiset<A>, x: A)
    requires p + multiset{x} == q + multiset{x}
    ensures p == q
  {
    forall y ensures p[y] == q[y] {
      assert (p + multiset{x})[y] == (q + multiset{x})[y];
    }
  }

  lemma MapConcat<A, B>(f: A -> B, x: seq<A>, y: seq<A>)
    ensures Map(f, x + y) == Map(f, x) + Map(f, y)
  {
  }

  /** Mapping a function over two permutations of each other gives two permutations. */
  lemma {:induction false} MapPermutation<A, B>(f: A -> B, a: seq<A>, b: seq<A>)
    requires multiset(a) == multiset(b)
    ensures multiset(Map(f, a)) == multiset(Map(f, b))
    decreases |a|
  {
    if a == [] {
      assert |multiset(b)| == 0;
    } else {
      var x := a[0];
      assert x in multiset(b);
      var j :| 0 <= j < |b| && b[j] == x;
      var front, back := b[..j], b[j + 1..];
      assert b == front + [x] + back;
      assert a == [x] + a[1..];
      assert multiset(b) == multiset(front + back) + multiset{x};
      assert multiset(a) == multiset(a[1..]) + multiset{x};
      MultisetCancel(multiset(a[1..]), multiset(front + back), x);
      MapPermutation(f, a[1..], front + back);
      MapConcat(f, front, back);
      MapConcat(f, front + [x], back);
      MapConcat(f, front, [x]);
      MapConcat(f, [x], a[1..]);
    }
  }

  /** An element at two positions occurs at least twice. */
  lemma RepeatedCount<A>(s: seq<A>, i: nat, j: nat)
    requires i < j < |s| && s[i] == s[j]
    ensures multiset(s)[s[i]] >= 2
  {
    assert s == s[..j] + [s[j]] + s[j + 1..];
    assert s[..j][i] == s[i];
  }

  /** An element that occurs twice occurs somewhere besides position p. */
  lemma OtherOccurrence<A>(s: seq<A>, p: nat) returns (q: nat)
    requires p < |s| && multiset(s)[s[p]] >= 2
    ensures q < |s| && q != p && s[q] == s[p]
  {
    var rest := s[..p] + s[p + 1..];
    assert s == s[..p] + [s[p]] + s[p + 1..];
    assert multiset(s) == multiset(rest) + multiset{s[p]};
    assert s[p] in multiset(rest);
    var r :| 0 <= r < |rest| && rest[r] == s[p];
    if r < p {
      q := r;
      assert rest[r] == s[r];
    } else {
      q := r + 1;
      assert rest[r] == s[r + 1];
    }
  }

  /** Every two elements, in list order, are related by rel. */
  predicate Pairwise<A>(s: seq<A>, rel: (A, A) -> bool)
  {
    forall i, j :: 0 <= i < j < |s| ==> rel(s[i], s[j])
  }

  /** A symmetric relation that holds pairwise holds pairwise in any reordering. */
  lemma PairwisePermutation<A>(a: seq<A>, b: seq<A>, rel: (A, A) -> bool)
    requires multiset(a) == multiset(b) && Pairwise(a, rel)
    requires forall x, y :: rel(x, y) ==> rel(y, x)
    ensures Pairwise(b, rel)
  {
    forall i, j | 0 <= i < j < |b| ensures rel(b[i], b[j]) {
      assert b[i] in multiset(a) && b[j] in multiset(a);
      var p :| 0 <= p < |a| && a[p] == b[i];
      var p' :| 0 <= p' < |a| && a[p'] == b[j];
      if p < p' {
        assert rel(a[p], a[p']);
      } else if p' < p {
        assert rel(a[p'], a[p]);
      } else {
        RepeatedCount(b, i, j);
        var q := OtherOccurrence(a, p);
        if q < p {
          assert rel(a[q], a[p]);
        } else {
          assert rel(a[p], a[q]);
        }
      }
    }
  }
}
