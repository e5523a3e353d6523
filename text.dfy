/** String helpers shared by the tokenizer, the code table and the codec. */
module Text {

  /** `s.startswith(w, i)` */
  predicate StartsAt(s: string, w: string, i: nat)
  {
    i + |w| <= |s| && s[i..i + |w|] == w
  }

  /** `a` is a prefix of `b`. */
  predicate IsPrefix(a: string, b: string)
  {
    |a| <= |b| && b[..|a|] == a
  }

  /** No character of `s` is the `'\0'` the encoder masks matched spans with. */
  predicate NoNul(s: string)
  {
    forall i :: 0 <= i < |s| ==> s[i] != '\0'
  }

  /** `''.join(ss)` */
  function Join(ss: seq<string>): string
  {
    if ss == [] then "" else ss[0] + Join(ss[1..])
  }

  lemma {:induction false} JoinAppend(a: seq<string>, b: seq<string>)
    ensures Join(a + b) == Join(a) + Join(b)
  {
    if a == [] {
      assert a + b == b;
    } else {
      assert (a + b)[0] == a[0];
      assert (a + b)[1..] == a[1..] + b;
      JoinAppend(a[1..], b);
    }
  }

  /** Sorted longest first, non-increasing lengths. */
  predicate LongestFirst(ws: seq<string>)
  {
    forall i, j :: 0 <= i < j < |ws| ==> |ws[i]| >= |ws[j]|
  }

  /** Insert w before the first element that is not longer than it. */
  function InsertByLength(w: string, ws: seq<string>): (r: seq<string>)
    ensures |r| == |ws| + 1
  {
    if ws == [] || |ws[0]| <= |w| then [w] + ws
    else [ws[0]] + InsertByLength(w, ws[1..])
  }

  /** Inserting adds w and loses nothing. */
  lemma {:induction false} InsertByLengthPermutes(w: string, ws: seq<string>)
    ensures multiset(InsertByLength(w, ws)) == multiset(ws) + multiset{w}
  {
    if ws != [] && |ws[0]| > |w| {
      InsertByLengthPermutes(w, ws[1..]);
      assert ws == [ws[0]] + ws[1..];
    }
  }

  /** Inserting into a longest-first list keeps it longest first. */
  lemma {:induction false} InsertByLengthSorted(w: string, ws: seq<string>)
    requires LongestFirst(ws)
    ensures LongestFirst(InsertByLength(w, ws))
  {
    if ws == [] || |ws[0]| <= |w| {
      ConsLongestFirst(w, ws);
    } else {
      var rest := InsertByLength(w, ws[1..]);
      InsertByLengthSorted(w, ws[1..]);
      InsertBounded(w, ws[1..], |ws[0]|);
      ConsLongestFirst(ws[0], rest);
    }
  }

  /** Inserting a word no longer than n among words no longer than n gives words no longer than n. */
  lemma {:induction false} InsertBounded(w: string, ws: seq<string>, n: nat)
    requires |w| <= n && forall j :: 0 <= j < |ws| ==> |ws[j]| <= n
    ensures forall j :: 0 <= j < |InsertByLength(w, ws)| ==> |InsertByLength(w, ws)[j]| <= n
  {
    if ws != [] && |ws[0]| > |w| {
      InsertBounded(w, ws[1..], n);
    }
  }

  /** A list is longest first when its tail is and its head is at least as long as every other element. */
  lemma ConsLongestFirst(a: string, ws: seq<string>)
    requires LongestFirst(ws) && forall j :: 0 <= j < |ws| ==> |ws[j]| <= |a|
    ensures LongestFirst([a] + ws)
  {
    var r := [a] + ws;
    forall i, j | 0 <= i < j < |r| ensures |r[i]| >= |r[j]| {
      assert r[j] == ws[j - 1];
      if i > 0 { assert r[i] == ws[i - 1]; }
    }
  }

  /**
   * `sorted(ws, key=len, reverse=True)`. Python's sort is stable, so words
   * of equal length keep their order; inserting each word before the
   * equally long words that follow it does the same.
   */
  function ByLengthDesc(ws: seq<string>): (r: seq<string>)
    ensures |r| == |ws|
  {
    if ws == [] then []
    else InsertByLength(ws[0], ByLengthDesc(ws[1..]))
  }

  /** The sorted list is a permutation of the words. */
  lemma {:induction false} ByLengthDescPermutes(ws: seq<string>)
    ensures multiset(ByLengthDesc(ws)) == multiset(ws)
  {
    if ws != [] {
      ByLengthDescPermutes(ws[1..]);
      InsertByLengthPermutes(ws[0], ByLengthDesc(ws[1..]));
      assert ws == [ws[0]] + ws[1..];
    }
  }

  /** The sorted list is longest first. */
  lemma {:induction false} ByLengthDescSorted(ws: seq<string>)
    ensures LongestFirst(ByLengthDesc(ws))
  {
    if ws != [] {
      ByLengthDescSorted(ws[1..]);
      InsertByLengthSorted(ws[0], ByLengthDesc(ws[1..]));
    }
  }
}
