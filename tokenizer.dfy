/**
 * `preprocess_message_for_tree`: a left-to-right scan that, at each cursor,
 * takes the longest caller-supplied word the text starts with there (words of
 * equal length in list order), or else one character, and counts what it takes.
 */
module Tokenizer {

  import opened Wrappers
  import opened Text
  import opened OrderedTable

  /** Symbol counts in first-occurrence order (the `defaultdict(int)` of the source). */
  type FreqTable = Table<nat>

  predicate NonEmptyWords(words: seq<string>)
  {
    forall w :: w in words ==> |w| > 0
  }

  /** Position of the first word of `order`, from position j on, that the text starts with at i. */
  function FirstMatchFrom(order: seq<string>, m: string, i: nat, j: nat): (r: Option<nat>)
    requires j <= |order|
    ensures r.Some? ==> j <= r.value < |order|
    decreases |order| - j
  {
    if j == |order| then None
    else if StartsAt(m, order[j], i) then Some(j)
    else FirstMatchFrom(order, m, i, j + 1)
  }

  /** The position found holds the first word from j on that matches; none found means none matches. */
  lemma {:induction false} FirstMatchFacts(order: seq<string>, m: string, i: nat, j: nat)
    requires j <= |order|
    ensures var r := FirstMatchFrom(order, m, i, j);
            (r.Some? ==> StartsAt(m, order[r.value], i) && forall q :: j <= q < r.value ==> !StartsAt(m, order[q], i))
            && (r.None? ==> forall q :: j <= q < |order| ==> !StartsAt(m, order[q], i))
    decreases |order| - j
  {
    if j < |order| && !StartsAt(m, order[j], i) {
      FirstMatchFacts(order, m, i, j + 1);
    }
  }

  /**
   * The symbol taken at cursor i: the first word in longest-first order that
   * the text starts with at i, or else the single character there.
   */
  function Take(m: string, words: seq<string>, i: nat): (w: string)
    requires i < |m| && NonEmptyWords(words)
    ensures 0 < |w| <= |m| - i
  {
    var order := ByLengthDesc(words);
    match FirstMatchFrom(order, m, i, 0)
    case Some(j) =>
      FirstMatchFacts(order, m, i, 0);
      ByLengthDescPermutes(words);
      assert order[j] in multiset(words);
      order[j]
    case None =>
      [m[i]]
  }

  /** The symbol taken occurs in the text at the cursor. */
  lemma TakeAt(m: string, words: seq<string>, i: nat)
    requires i < |m| && NonEmptyWords(words)
    ensures StartsAt(m, Take(m, words, i), i)
  {
    FirstMatchFacts(ByLengthDesc(words), m, i, 0);
    assert [m[i]] == m[i..i + 1];
  }

  /**
   * The symbol taken is a word only when one matches, and then the longest
   * matching one; otherwise it is the character at the cursor.
   */
  lemma TakeIsLongestMatch(m: string, words: seq<string>, i: nat)
    requires i < |m| && NonEmptyWords(words)
    ensures Take(m, words, i) in words
            || (Take(m, words, i) == [m[i]] && forall v :: v in words ==> !StartsAt(m, v, i))
    ensures forall v :: v in words && StartsAt(m, v, i) ==> |v| <= |Take(m, words, i)|
  {
    var order := ByLengthDesc(words);
    ByLengthDescPermutes(words);
    ByLengthDescSorted(words);
    FirstMatchFacts(order, m, i, 0);
    assert forall v :: v in words <==> v in order by {
      assert forall v :: v in words <==> v in multiset(order);
    }
    match FirstMatchFrom(order, m, i, 0)
    case Some(j) =>
      forall v | v in words && StartsAt(m, v, i) ensures |v| <= |order[j]| {
        var q :| 0 <= q < |order| && order[q] == v;
        assert j <= q;
      }
    case None =>
  }

  /** The symbols taken from cursor i to the end of the message. */
  function Tokens(m: string, words: seq<string>, i: nat): seq<string>
    requires i <= |m| && NonEmptyWords(words)
    decreases |m| - i
  {
    if i == |m| then []
    else
      var w := Take(m, words, i);
      [w] + Tokens(m, words, i + |w|)
  }

  /** The current count of k: `d[k]` on a defaultdict(int). */
  function CountOf(t: FreqTable, k: string): nat
  {
    match Get(t, k)
    case None => 0
    case Some(c) => c
  }

  /** `symbols_with_freq[k] += 1` */
  function Bump(t: FreqTable, k: string): FreqTable
  {
    Put<nat>(t, k, CountOf(t, k) + 1)
  }

  /** The table after counting the tokens in order. */
  function Counts(tokens: seq<string>): FreqTable
  {
    if tokens == [] then []
    else Bump(Counts(tokens[..|tokens| - 1]), tokens[|tokens| - 1])
  }

  /** Each symbol's count is the number of times it occurs among the tokens. */
  lemma {:induction false} CountsMultiplicity(tokens: seq<string>, k: string)
    ensures CountOf(Counts(tokens), k) == multiset(tokens)[k]
  {
    if tokens != [] {
      var front, last := tokens[..|tokens| - 1], tokens[|tokens| - 1];
      assert tokens == front + [last];
      CountsMultiplicity(front, k);
      GetPut<nat>(Counts(front), last, CountOf(Counts(front), last) + 1, k);
    }
  }

  lemma CountsAllMultiplicities(tokens: seq<string>)
    ensures forall k :: CountOf(Counts(tokens), k) == multiset(tokens)[k]
  {
    forall k
      ensures CountOf(Counts(tokens), k) == multiset(tokens)[k]
    {
      CountsMultiplicity(tokens, k);
    }
  }

  /** Sum over the table of length(symbol) * count. */
  function SumLen(t: FreqTable): nat
  {
    if t == [] then 0 else |t[0].0| * t[0].1 + SumLen(t[1..])
  }

  method Tokenize(message: string, words: seq<string>) returns (freq: FreqTable)
    requires NonEmptyWords(words)
    ensures freq == Counts(Tokens(message, words, 0))
    ensures forall k :: CountOf(freq, k) == multiset(Tokens(message, words, 0))[k]
    ensures SumLen(freq) == |message|
    ensures DistinctKeys(freq)
    ensures forall e :: e in freq ==> e.1 >= 1 && (e.0 in words || |e.0| == 1)
  {
    freq := [];
    var i := 0;
    ghost var taken: seq<string> := [];
    while i < |message|
      invariant i <= |message|
      invariant taken + Tokens(message, words, i) == Tokens(message, words, 0)
      invariant Join(taken) == message[..i]
      invariant freq == Counts(taken)
    {
      var order := ByLengthDesc(words);
      var matched := false;
      var j := 0;
      while j < |order|
        invariant j <= |order|
        invariant FirstMatchFrom(order, message, i, j) == FirstMatchFrom(order, message, i, 0)
      {
        if StartsAt(message, order[j], i) {
          matched := true;
          break;
        }
        j := j + 1;
      }
      var w := if matched then order[j] else [message[i]];
      assert w == Take(message, words, i);
      TakeStep(message, words, taken, freq, i, w);
      freq := Bump(freq, w);
      taken := taken + [w];
      i := i + |w|;
    }
    assert message[..i] == message;
    assert taken == Tokens(message, words, 0);
    TokensCover(message, words, 0);
    CountsAllMultiplicities(taken);
    CountsDistinct(taken);
    CountsSumLen(taken);
    CountsEntries(taken);
    TokensAreSymbols(message, words, 0);
  }

  /** Taking w at cursor i keeps the loop invariant of `Tokenize`. */
  lemma TakeStep(m: string, words: seq<string>, taken: seq<string>, freq: FreqTable, i: nat, w: string)
    requires i < |m| && NonEmptyWords(words) && w == Take(m, words, i)
    requires taken + Tokens(m, words, i) == Tokens(m, words, 0)
    requires Join(taken) == m[..i]
    requires freq == Counts(taken)
    ensures (taken + [w]) + Tokens(m, words, i + |w|) == Tokens(m, words, 0)
    ensures Join(taken + [w]) == m[..i + |w|]
    ensures Bump(freq, w) == Counts(taken + [w])
  {
    TokensStep(m, words, taken, i);
    TakeAt(m, words, i);
    JoinStep(taken, w, m, i);
    assert (taken + [w])[..|taken|] == taken;
  }

  lemma TokensStep(m: string, words: seq<string>, taken: seq<string>, i: nat)
    requires i < |m| && NonEmptyWords(words)
    requires taken + Tokens(m, words, i) == Tokens(m, words, 0)
    ensures (taken + [Take(m, words, i)]) + Tokens(m, words, i + |Take(m, words, i)|) == Tokens(m, words, 0)
  {
    var w := Take(m, words, i);
    var rest := Tokens(m, words, i + |w|);
    assert Tokens(m, words, i) == [w] + rest;
    assert (taken + [w]) + rest == taken + ([w] + rest);
  }

  lemma JoinStep(taken: seq<string>, w: string, m: string, i: nat)
    requires i <= |m| && Join(taken) == m[..i] && StartsAt(m, w, i)
    ensures Join(taken + [w]) == m[..i + |w|]
  {
    assert Join([w]) == w by {
      assert [w][1..] == [];
    }
    JoinAppend(taken, [w]);
    assert m[..i + |w|] == m[..i] + m[i..i + |w|];
  }

  /** Every symbol taken is one of the words or a single character. */
  lemma {:induction false} TokensAreSymbols(m: string, words: seq<string>, i: nat)
    requires i <= |m| && NonEmptyWords(words)
    ensures forall w :: w in Tokens(m, words, i) ==> w in words || |w| == 1
    decreases |m| - i
  {
    if i < |m| {
      var w := Take(m, words, i);
      assert Tokens(m, words, i) == [w] + Tokens(m, words, i + |w|);
      TakeIsLongestMatch(m, words, i);
      TokensAreSymbols(m, words, i + |w|);
    }
  }

  /** The tokens taken from cursor i, joined, are the rest of the message. */
  lemma {:induction false} TokensCover(m: string, words: seq<string>, i: nat)
    requires i <= |m| && NonEmptyWords(words)
    ensures Join(Tokens(m, words, i)) == m[i..]
    decreases |m| - i
  {
    if i < |m| {
      var w := Take(m, words, i);
      TokensCover(m, words, i + |w|);
      CoverStep(m, words, i);
    }
  }

  /** One symbol taken at cursor i, then the rest covered, covers the message from i. */
  lemma CoverStep(m: string, words: seq<string>, i: nat)
    requires i < |m| && NonEmptyWords(words)
    requires Join(Tokens(m, words, i + |Take(m, words, i)|)) == m[i + |Take(m, words, i)|..]
    ensures Join(Tokens(m, words, i)) == m[i..]
  {
    var w := Take(m, words, i);
    var rest := Tokens(m, words, i + |w|);
    TakeAt(m, words, i);
    assert Tokens(m, words, i) == [w] + rest;
    assert ([w] + rest)[1..] == rest;
    assert Join([w] + rest) == w + Join(rest);
    assert m[i..] == m[i..i + |w|] + m[i + |w|..];
  }

  /** Counting gives each symbol one entry. */
  lemma {:induction false} CountsDistinct(tokens: seq<string>)
    ensures DistinctKeys(Counts(tokens))
  {
    if tokens != [] {
      var t := Counts(tokens[..|tokens| - 1]);
      var last := tokens[|tokens| - 1];
      assert Counts(tokens) == Put<nat>(t, last, CountOf(t, last) + 1);
      CountsDistinct(tokens[..|tokens| - 1]);
      PutDistinct<nat>(t, last, CountOf(t, last) + 1);
    }
  }

  /** The symbols counted, weighted by their lengths, add up to the text they cover. */
  lemma {:induction false} CountsSumLen(tokens: seq<string>)
    ensures SumLen(Counts(tokens)) == |Join(tokens)|
  {
    if tokens != [] {
      var front, last := tokens[..|tokens| - 1], tokens[|tokens| - 1];
      assert Counts(tokens) == Bump(Counts(front), last);
      assert tokens == front + [last];
      assert Join([last]) == last by {
        assert [last][1..] == [];
      }
      JoinAppend(front, [last]);
      CountsSumLen(front);
      SumLenBump(Counts(front), last);
    }
  }

  /** Every counted symbol occurs among the tokens, at least once. */
  lemma {:induction false} CountsEntries(tokens: seq<string>)
    ensures forall e :: e in Counts(tokens) ==> e.1 >= 1 && e.0 in tokens
  {
    if tokens != [] {
      var front, last := tokens[..|tokens| - 1], tokens[|tokens| - 1];
      var t := Counts(front);
      assert Counts(tokens) == Put<nat>(t, last, CountOf(t, last) + 1);
      CountsEntries(front);
      PutEntries<nat>(t, last, CountOf(t, last) + 1);
      assert forall w :: w in front ==> w in tokens;
    }
  }

  lemma {:induction false} SumLenBump(t: FreqTable, k: string)
    ensures SumLen(Bump(t, k)) == SumLen(t) + |k|
  {
    if t == [] {
    } else if t[0].0 != k {
      SumLenBump(t[1..], k);
      assert CountOf(t, k) == CountOf(t[1..], k);
      assert Bump(t, k) == [t[0]] + Bump(t[1..], k);
    } else {
      var c := t[0].1;
      assert Bump(t, k) == [(k, c + 1)] + t[1..];
      assert |k| * (c + 1) == |k| * c + |k|;
    }
  }
}
