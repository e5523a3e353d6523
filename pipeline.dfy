/**
 * The steps put together as `main` runs them: count the symbols of the
 * message, build the tree, give each leaf its path, encode, decode.
 * Two places are corrected here (see the findings module for the code as
 * written): a lone symbol is given the codeword "0" instead of the empty
 * path, and when words are in play the message is encoded by the same
 * longest-match parse the counting is done with.
 */
module Pipeline {

  import opened Wrappers
  import opened Text
  import opened OrderedTable
  import opened Tokenizer
  import opened HuffmanTree
  import opened Codes
  import opened Codec
  import opened Decoding
  import opened Encoding

  /** The code table of a tree, with a lone leaf given "0" rather than "". */
  function FixedCodes(t: Tree): CodeTable
  {
    if t.Leaf? then [(t.sym, "0")] else PutAll([], Paths(t, ""))
  }

  /**
   * With one leaf per symbol the corrected table is a prefix code with
   * non-empty codewords over exactly the leaves' symbols.
   */
  lemma FixedCodesPrefixCode(t: Tree)
    requires DistinctKeys(Leaves(t))
    ensures PrefixFree(FixedCodes(t)) && NonEmptyCodes(FixedCodes(t))
    ensures Keys(FixedCodes(t)) == Keys(Leaves(t))
  {
    if t.Node? {
      CodesArePaths(t);
      PathsPrefixFree(t, "");
      PathsExtend(t, "");
      PathsKeys(t, "");
    }
  }

  /** The codewords of a list of symbols, in order. */
  function CodesFor(codes: CodeTable, tokens: seq<string>): (cs: seq<string>)
    ensures |cs| == |tokens| && forall i :: 0 <= i < |tokens| ==> cs[i] == CodeOf(codes, tokens[i])
  {
    if tokens == [] then [] else [CodeOf(codes, tokens[0])] + CodesFor(codes, tokens[1..])
  }

  /**
   * The corrected encoder: walk the message as the counting does, taking the
   * longest matching word or else one character, and emit each symbol's
   * codeword.
   */
  method EncodeTokens(message: string, words: seq<string>, codes: CodeTable) returns (encoded: string)
    requires NonEmptyWords(words)
    ensures encoded == Join(CodesFor(codes, Tokens(message, words, 0)))
  {
    encoded := "";
    var i := 0;
    ghost var all := Join(CodesFor(codes, Tokens(message, words, 0)));
    while i < |message|
      invariant i <= |message|
      invariant encoded + Join(CodesFor(codes, Tokens(message, words, i))) == all
      decreases |message| - i
    {
      var w := Take(message, words, i);
      EncodeStep(message, words, codes, i);
      encoded := encoded + CodeOf(codes, w);
      i := i + |w|;
    }
    assert Tokens(message, words, i) == [];
    assert encoded + "" == encoded;
  }

  lemma EncodeStep(m: string, words: seq<string>, codes: CodeTable, i: nat)
    requires i < |m| && NonEmptyWords(words)
    ensures var w := Take(m, words, i);
            Join(CodesFor(codes, Tokens(m, words, i)))
            == CodeOf(codes, w) + Join(CodesFor(codes, Tokens(m, words, i + |w|)))
  {
    var w := Take(m, words, i);
    var rest := Tokens(m, words, i + |w|);
    assert Tokens(m, words, i) == [w] + rest;
    assert ([w] + rest)[1..] == rest;
    assert CodesFor(codes, [w] + rest) == [CodeOf(codes, w)] + CodesFor(codes, rest);
    assert ([CodeOf(codes, w)] + CodesFor(codes, rest))[1..] == CodesFor(codes, rest);
  }

  /**
   * Decoding what the corrected encoder emits gives the message back, for
   * any non-empty words, whenever the table is a prefix code with non-empty codewords
   * that has a codeword for every symbol the parse takes.
   */
  lemma TokensRoundTrip(m: string, words: seq<string>, codes: CodeTable)
    requires NonEmptyWords(words) && PrefixFree(codes) && NonEmptyCodes(codes)
    requires forall w :: w in Tokens(m, words, 0) ==> w in Keys(codes)
    ensures Join(Run(Inverse(codes), Join(CodesFor(codes, Tokens(m, words, 0))), "")) == m
  {
    var tokens := Tokens(m, words, 0);
    var cs := CodesFor(codes, tokens);
    forall i | 0 <= i < |tokens| ensures (tokens[i], cs[i]) in codes {
      assert tokens[i] in tokens;
      GetFacts(codes, tokens[i]);
    }
    DecodeCodewords(codes, tokens, cs);
    TokensCover(m, words, 0);
  }

  /** Every symbol taken is a key of the counts. */
  lemma {:induction false} TokensCounted(tokens: seq<string>)
    ensures forall w :: w in tokens ==> w in Keys(Counts(tokens))
  {
    if tokens != [] {
      var front, last := tokens[..|tokens| - 1], tokens[|tokens| - 1];
      var t := Counts(front);
      assert Counts(tokens) == Put<nat>(t, last, CountOf(t, last) + 1);
      TokensCounted(front);
      PutKeys<nat>(t, last, CountOf(t, last) + 1);
      assert tokens == front + [last];
    }
  }

  /** A tree whose leaves are the entries of a table has the table's keys at its leaves. */
  lemma LeafKeys(freq: FreqTable, t: Tree)
    requires multiset(Leaves(t)) == multiset(freq)
    ensures forall k :: k in Keys(freq) <==> k in Keys(Leaves(t))
  {
    forall k ensures k in Keys(freq) <==> k in Keys(Leaves(t)) {
      SameKeys(freq, Leaves(t), k);
      SameKeys(Leaves(t), freq, k);
    }
  }

  lemma SameKeys(a: FreqTable, b: FreqTable, k: string)
    requires multiset(a) == multiset(b)
    ensures k in Keys(a) ==> k in Keys(b)
  {
    if k in Keys(a) {
      var i :| 0 <= i < |a| && Keys(a)[i] == k;
      assert a[i] in multiset(b);
      var j :| 0 <= j < |b| && b[j] == a[i];
      assert Keys(b)[j] == k;
    }
  }

  /**
   * The whole pipeline with the corrections: for any message and any
   * non-empty words, decoding the encoded message gives the message back;
   * only the empty message fails, because its tree has no root.
   */
  method Compress(message: string, words: seq<string>) returns (r: Result<(string, string)>)
    requires NonEmptyWords(words)
    ensures r.Err? <==> message == ""
    ensures r.Err? ==> r.error == EmptyHeap
    ensures r.Ok? ==> r.value.1 == message
  {
    var freq := Tokenize(message, words);
    var tree := BuildHuffmanTree(freq);
    if tree.Err? {
      NothingCounted(message, words);
      return Err(tree.error);
    }
    var t := tree.value;
    NothingCounted(message, words);
    var codes := GenerateHuffmanCodes(t, "", []);
    if t.Leaf? {
      codes := [(t.sym, "0")];
    }
    assert codes == FixedCodes(t);
    CountsDistinct(Tokens(message, words, 0));
    DistinctKeysPermutation(freq, Leaves(t));
    FixedCodesPrefixCode(t);
    TokensCounted(Tokens(message, words, 0));
    LeafKeys(freq, t);
    var encoded := EncodeTokens(message, words, codes);
    var decoded := HuffmanDecode(encoded, codes);
    TokensRoundTrip(message, words, codes);
    r := Ok((encoded, decoded));
  }

  /** Only the empty message yields an empty frequency table. */
  lemma NothingCounted(m: string, words: seq<string>)
    requires NonEmptyWords(words)
    ensures Counts(Tokens(m, words, 0)) == [] <==> m == ""
  {
    if m != "" {
      var tokens := Tokens(m, words, 0);
      assert tokens[0] in tokens;
      TokensCounted(tokens);
    }
  }

  /** A string that is one of a list's parts has no '\0' when the joined list has none. */
  lemma {:induction false} PartNoNul(ss: seq<string>, w: string)
    requires w in ss && NoNul(Join(ss))
    ensures NoNul(w)
  {
    var a, b := ss[0], Join(ss[1..]);
    assert Join(ss) == a + b;
    forall i | 0 <= i < |a| ensures a[i] != '\0' {
      assert (a + b)[i] == a[i];
    }
    forall i | 0 <= i < |b| ensures b[i] != '\0' {
      assert (a + b)[|a| + i] == b[i];
    }
    if a != w {
      PartNoNul(ss[1..], w);
    }
  }

  /** With no words every character of the message is a symbol taken. */
  lemma {:induction false} CharTokens(m: string, i: nat)
    requires i <= |m|
    ensures forall p :: i <= p < |m| ==> [m[p]] in Tokens(m, [], i)
    decreases |m| - i
  {
    if i < |m| {
      CharStep(m, i);
      CharTokens(m, i + 1);
    }
  }

  /** With no words the cursor takes one character at a time. */
  lemma CharStep(m: string, i: nat)
    requires i < |m|
    ensures Tokens(m, [], i) == [[m[i]]] + Tokens(m, [], i + 1)
  {
    TakeIsLongestMatch(m, [], i);
  }

  /**
   * The pipeline as written, with no words and with the lone-symbol
   * correction: the encoder's longest-first scans then see only single
   * characters, so the round trip holds for every message without '\0'.
   */
  method CompressChars(message: string) returns (r: Result<(string, string)>)
    requires NoNul(message)
    ensures r.Err? <==> message == ""
    ensures r.Err? ==> r.error == EmptyHeap
    ensures r.Ok? ==> r.value.1 == message
  {
    var freq := Tokenize(message, []);
    var tree := BuildHuffmanTree(freq);
    if tree.Err? {
      NothingCounted(message, []);
      return Err(tree.error);
    }
    var t := tree.value;
    var tokens := Tokens(message, [], 0);
    NothingCounted(message, []);
    var codes := GenerateHuffmanCodes(t, "", []);
    if t.Leaf? {
      codes := [(t.sym, "0")];
    }
    assert codes == FixedCodes(t);
    CountsDistinct(tokens);
    DistinctKeysPermutation(freq, Leaves(t));
    FixedCodesPrefixCode(t);
    LeafKeys(freq, t);
    CharsAreKeys(message, freq, codes);
    var encoded := HuffmanEncode(message, codes);
    var decoded := HuffmanDecode(encoded, codes);
    EncodeDecodeChars(message, codes);
    r := Ok((encoded, decoded));
  }

  /** What the character-only pipeline needs of its table. */
  lemma CharsAreKeys(m: string, freq: FreqTable, codes: CodeTable)
    requires NoNul(m) && freq == Counts(Tokens(m, [], 0))
    requires forall k :: k in Keys(freq) <==> k in Keys(codes)
    ensures PlainKeys(codes)
    ensures forall p :: 0 <= p < |m| ==> [m[p]] in Keys(codes)
  {
    CharsArePlain(m, freq, codes);
    CharTokens(m, 0);
    TokensCounted(Tokens(m, [], 0));
  }

  lemma CharsArePlain(m: string, freq: FreqTable, codes: CodeTable)
    requires NoNul(m) && freq == Counts(Tokens(m, [], 0))
    requires forall k :: k in Keys(freq) <==> k in Keys(codes)
    ensures PlainKeys(codes)
  {
    var tokens := Tokens(m, [], 0);
    TokensCover(m, [], 0);
    assert m[0..] == m;
    CountsEntries(tokens);
    TokensAreSymbols(m, [], 0);
    forall e | e in codes ensures |e.0| > 0 && NoNul(e.0) {
      var i :| 0 <= i < |codes| && codes[i] == e;
      assert Keys(codes)[i] == e.0;
      assert e.0 in Keys(codes);
      var j :| 0 <= j < |freq| && Keys(freq)[j] == e.0;
      assert freq[j] in freq;
      PartNoNul(tokens, e.0);
    }
  }
}
