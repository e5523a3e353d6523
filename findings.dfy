/**
 * Two places where `huffman.py` as written does not give the message back,
 * each shown on the code as written; the corrected versions are in the
 * pipeline module.
 *
 * Overlapping words: the counting parses the message left to right, but the
 * encoder looks for each symbol over the whole message, longest first, so it
 * can take an occurrence the parse never took and leave a character that no
 * record covers. With words "bc" and "ab", "bcabc" is counted as bc, ab, c,
 * each once. Whatever tree is built over those counts, as long as its code
 * table lists "bc" before "ab", the encoder records "bc" at 0 and at 3,
 * cannot find "ab" or "c" any more, and the output decodes to "bcbc". Which
 * tree is built depends on how ties between equally light trees are broken;
 * both the earliest-lightest rule of this model and the sift order of
 * Python's `heapq` give a table of that kind.
 *
 * A lone symbol: a tree that is a single leaf gives that symbol the empty
 * path, so every message encodes to nothing and decodes to nothing.
 */
module Findings {

  import opened Wrappers
  import opened Text
  import opened OrderedTable
  import opened Tokenizer
  import opened HuffmanTree
  import opened Codes
  import opened Codec
  import opened Decoding
  import opened Encoding
  import opened Pipeline

  /** A table whose keys are "bc", "ab" and "c", in an order that puts "bc" before "ab". */
  predicate BcBeforeAb<V>(t: Table<V>)
    ensures BcBeforeAb(t) ==> forall e :: e in t ==> |e.0| > 0
  {
    var ks := Keys(t);
    ks == ["bc", "ab", "c"] || ks == ["bc", "c", "ab"] || ks == ["c", "bc", "ab"]
  }

  /** The counts `preprocess_message_for_tree` makes of "bcabc" with words "bc" and "ab". */
  lemma OverlapCounted()
    ensures Counts(Tokens("bcabc", ["bc", "ab"], 0)) == [("bc", 1), ("ab", 1), ("c", 1)]
  {
    OverlapTokens();
    OverlapCounts();
  }

  /**
   * The encoder as written, on "bcabc", with any prefix code whose keys are
   * "bc", "ab" and "c" with "bc" before "ab": the output is the codeword of
   * "bc" twice, and it decodes to "bcbc", which is not the message.
   */
  lemma OverlapLosesText(codes: CodeTable)
    requires BcBeforeAb(codes) && PrefixFree(codes) && NonEmptyCodes(codes)
    ensures var cb := CodeOf(codes, "bc");
            Join(Codewords(SortByOffset(Segments("bcabc", codes)))) == cb + cb
            && Join(Run(Inverse(codes), cb + cb, "")) == "bcbc"
  {
    var cb := CodeOf(codes, "bc");
    OverlapOrder(codes);
    OverlapPasses(codes);
    OverlapEncoded(cb);
    OverlapDecoded(codes);
  }

  /**
   * The same for the code table `generate_huffman_codes` gives any tree whose
   * leaves are the three counted symbols with "bc" before "ab".
   */
  lemma OverlapTreeLosesText(t: Tree)
    requires BcBeforeAb(Leaves(t))
    ensures BcBeforeAb(PutAll([], Paths(t, "")))
    ensures var codes := PutAll([], Paths(t, ""));
            var cb := CodeOf(codes, "bc");
            Join(Codewords(SortByOffset(Segments("bcabc", codes)))) == cb + cb
            && Join(Run(Inverse(codes), cb + cb, "")) == "bcbc"
  {
    assert |Leaves(t)| == 3;
    assert t.Node?;
    FixedCodesPrefixCode(t);
    var codes := PutAll([], Paths(t, ""));
    assert FixedCodes(t) == codes;
    OverlapLosesText(codes);
  }

  /** The tree x + (y + z) over three symbols counted once each. */
  function ThreeTree(x: string, y: string, z: string): Tree
  {
    Node(3, Leaf(x, 1), Node(2, Leaf(y, 1), Leaf(z, 1)))
  }

  /** The code table of `ThreeTree(x, y, z)`: x=0, y=10, z=11. */
  function ThreeTable(x: string, y: string, z: string): (codes: CodeTable)
    requires |x| > 0 && |y| > 0 && |z| > 0
    ensures NonEmptyKeys(codes)
  {
    var codes := [(x, "0"), (y, "10"), (z, "11")];
    assert forall e :: e in codes ==> e == codes[0] || e == codes[1] || e == codes[2];
    codes
  }

  /** With three distinct symbols, recording the paths of x + (y + z) gives that table. */
  lemma ThreeCodes(x: string, y: string, z: string)
    requires |x| > 0 && |y| > 0 && |z| > 0 && x != y && x != z && y != z
    ensures PutAll([], Paths(ThreeTree(x, y, z), "")) == ThreeTable(x, y, z)
  {
    var p := [(x, "0"), (y, "10"), (z, "11")];
    assert "" + "0" == "0" && "" + "1" == "1" && "1" + "0" == "10" && "1" + "1" == "11";
    assert Paths(Node(2, Leaf(y, 1), Leaf(z, 1)), "1") == [(y, "10"), (z, "11")];
    assert Paths(ThreeTree(x, y, z), "") == p;
    var t1, t2 := [(x, "0")], [(x, "0"), (y, "10")];
    assert Put([], x, "0") == t1;
    assert Put(t1, y, "10") == [t1[0]] + Put(t1[1..], y, "10") == t2;
    assert Put(t2[1..], z, "11") == [t2[1]] + Put(t2[1..][1..], z, "11");
    assert Put(t2, z, "11") == [t2[0]] + Put(t2[1..], z, "11") == ThreeTable(x, y, z);
    assert PutAll([], p) == PutAll(t1, p[1..]);
    assert PutAll(t1, p[1..]) == PutAll(t2, p[2..]);
    assert PutAll(t2, p[2..]) == PutAll(ThreeTable(x, y, z), p[3..]);
  }

  /**
   * With this model's tie rule the rounds build `ThreeTree("c", "bc", "ab")`
   * for the counts of "bcabc", and the code as written gives it the table
   * c=0, bc=10, ab=11.
   */
  lemma OverlapModelTree()
    ensures Rounds(Singletons([("bc", 1), ("ab", 1), ("c", 1)])) == [ThreeTree("c", "bc", "ab")]
    ensures BcBeforeAb(Leaves(ThreeTree("c", "bc", "ab")))
    ensures PutAll([], Paths(ThreeTree("c", "bc", "ab"), "")) == ThreeTable("c", "bc", "ab")
  {
    OverlapTree();
    ThreeCodes("c", "bc", "ab");
    ModelLeaves();
  }

  /** The encoder as written, with that table, outputs "1010", which decodes to "bcbc". */
  lemma OverlapModelOutput()
    ensures Join(Codewords(SortByOffset(Segments("bcabc", ThreeTable("c", "bc", "ab"))))) == "1010"
    ensures Join(Run(Inverse(ThreeTable("c", "bc", "ab")), "1010", "")) == "bcbc"
  {
    ThreeCodes("c", "bc", "ab");
    ModelLeaves();
    OverlapCodeOf(ThreeTable("c", "bc", "ab"), "10");
    OverlapInstance(ThreeTree("c", "bc", "ab"), ThreeTable("c", "bc", "ab"), "10", "1010");
  }

  /**
   * The tree Python's `heapq` builds for the same counts: `heapify` moves "c"
   * to the front, the first round merges "c" and "ab", and the second puts
   * "bc" on the left, giving `ThreeTree("bc", "c", "ab")`. That tree is well
   * formed, its leaves are the counted entries, and its table is bc=0, c=10, ab=11.
   */
  lemma OverlapHeapqTree()
    ensures WellFormed(ThreeTree("bc", "c", "ab"))
    ensures multiset(Leaves(ThreeTree("bc", "c", "ab"))) == multiset([("bc", 1), ("ab", 1), ("c", 1)])
    ensures BcBeforeAb(Leaves(ThreeTree("bc", "c", "ab")))
    ensures PutAll([], Paths(ThreeTree("bc", "c", "ab"), "")) == ThreeTable("bc", "c", "ab")
  {
    HeapqLeaves();
    ThreeCodes("bc", "c", "ab");
  }

  /** The encoder as written, with that table, outputs "00", which again decodes to "bcbc". */
  lemma OverlapHeapqOutput()
    ensures Join(Codewords(SortByOffset(Segments("bcabc", ThreeTable("bc", "c", "ab"))))) == "00"
    ensures Join(Run(Inverse(ThreeTable("bc", "c", "ab")), "00", "")) == "bcbc"
  {
    HeapqLeaves();
    ThreeCodes("bc", "c", "ab");
    OverlapCodeOf(ThreeTable("bc", "c", "ab"), "0");
    OverlapInstance(ThreeTree("bc", "c", "ab"), ThreeTable("bc", "c", "ab"), "0", "00");
  }

  lemma ModelLeaves()
    ensures BcBeforeAb(Leaves(ThreeTree("c", "bc", "ab")))
  {
    assert Leaves(ThreeTree("c", "bc", "ab")) == [("c", 1), ("bc", 1), ("ab", 1)];
    assert Keys(Leaves(ThreeTree("c", "bc", "ab"))) == ["c", "bc", "ab"];
  }

  lemma HeapqLeaves()
    ensures Leaves(ThreeTree("bc", "c", "ab")) == [("bc", 1), ("c", 1), ("ab", 1)]
    ensures BcBeforeAb(Leaves(ThreeTree("bc", "c", "ab")))
  {
    assert Keys(Leaves(ThreeTree("bc", "c", "ab"))) == ["bc", "c", "ab"];
  }

  /** One tree's instance of the finding, once its table and codeword of "bc" are known. */
  lemma OverlapInstance(t: Tree, codes: CodeTable, c: string, out: string)
    requires BcBeforeAb(Leaves(t)) && PutAll([], Paths(t, "")) == codes && CodeOf(codes, "bc") == c && out == c + c
    ensures BcBeforeAb(codes)
    ensures Join(Codewords(SortByOffset(Segments("bcabc", codes)))) == out
    ensures Join(Run(Inverse(codes), out, "")) == "bcbc"
  {
    OverlapTreeLosesText(t);
  }

  lemma OverlapTokens()
    ensures Tokens("bcabc", ["bc", "ab"], 0) == ["bc", "ab", "c"]
  {
    var m, words := "bcabc", ["bc", "ab"];
    assert ByLengthDesc(words) == words;
    assert StartsAt(m, "bc", 0);
    assert Take(m, words, 0) == "bc";
    assert m[2] == 'a' && m[2..4] == "ab";
    assert !StartsAt(m, "bc", 2) && StartsAt(m, "ab", 2);
    assert Take(m, words, 2) == "ab";
    assert !StartsAt(m, "bc", 4) && !StartsAt(m, "ab", 4);
    assert Take(m, words, 4) == "c";
    assert Tokens(m, words, 5) == [];
  }

  lemma OverlapCounts()
    ensures Counts(["bc", "ab", "c"]) == [("bc", 1), ("ab", 1), ("c", 1)]
  {
    assert Counts(["bc"]) == [("bc", 1)];
    assert ["bc", "ab"][..1] == ["bc"];
    assert "bc"[0] != "ab"[0] && "ab"[0] != "c"[0] && "bc"[0] != "c"[0];
    assert CountOf([("bc", 1)], "ab") == 0;
    var t1: FreqTable := [("bc", 1)];
    assert t1[1..] == [];
    assert Counts(["bc", "ab"]) == [("bc", 1), ("ab", 1)];
    assert ["bc", "ab", "c"][..2] == ["bc", "ab"];
    var t: FreqTable := [("bc", 1), ("ab", 1)];
    assert CountOf(t, "c") == 0;
    assert t[1..][1..] == [];
    assert Put<nat>(t, "c", 1) == [("bc", 1), ("ab", 1), ("c", 1)];
  }

  /** Each of the three key orders sorts, longest first and stably, to bc, ab, c. */
  lemma OverlapOrder(codes: CodeTable)
    requires BcBeforeAb(codes)
    ensures Order(codes) == ["bc", "ab", "c"]
  {
    var ks := Keys(codes);
    if ks == ["bc", "ab", "c"] {
      SortBcAbC();
    } else if ks == ["bc", "c", "ab"] {
      SortBcCAb();
    } else {
      SortCBcAb();
    }
  }

  lemma SortBcAbC()
    ensures ByLengthDesc(["bc", "ab", "c"]) == ["bc", "ab", "c"]
  {
    var ks := ["bc", "ab", "c"];
    assert ks[1..] == ["ab", "c"] && ks[1..][1..] == ["c"] && ks[1..][1..][1..] == [];
    assert ByLengthDesc(["c"]) == ["c"];
    assert ByLengthDesc(["ab", "c"]) == ["ab", "c"];
  }

  lemma SortBcCAb()
    ensures ByLengthDesc(["bc", "c", "ab"]) == ["bc", "ab", "c"]
  {
    var ks := ["bc", "c", "ab"];
    assert ks[1..] == ["c", "ab"] && ks[1..][1..] == ["ab"] && ks[1..][1..][1..] == [];
    assert ByLengthDesc(["ab"]) == ["ab"];
    assert InsertByLength("c", ["ab"]) == ["ab", "c"];
    assert ByLengthDesc(["c", "ab"]) == ["ab", "c"];
  }

  lemma SortCBcAb()
    ensures ByLengthDesc(["c", "bc", "ab"]) == ["bc", "ab", "c"]
  {
    var ks := ["c", "bc", "ab"];
    assert ks[1..] == ["bc", "ab"];
    SortBcAb();
    assert InsertByLength("c", ["ab"]) == ["ab", "c"];
    assert InsertByLength("c", ["bc", "ab"]) == ["bc", "ab", "c"];
  }

  lemma SortBcAb()
    ensures ByLengthDesc(["bc", "ab"]) == ["bc", "ab"]
  {
    var ks := ["bc", "ab"];
    assert ks[1..] == ["ab"] && ks[1..][1..] == [];
    assert ByLengthDesc(["ab"]) == ["ab"];
  }

  /** The scan for "bc" takes it at 0, blanks it, and takes it again at 3. */
  lemma OverlapScan(cb: string)
    ensures Scan("bcabc", "bc", cb, 0) == ("\0\0a\0\0", [Segment(0, "bc", cb), Segment(3, "bc", cb)])
  {
    var m := "bcabc";
    assert StartsAt(m, "bc", 0);
    assert Find(m, "bc", 0) == Some(0);
    var m1 := Mask(m, 0, 2);
    assert m1 == "\0\0abc";
    assert m1[2..4][0] == 'a' && m1[3..5] == "bc";
    assert !StartsAt(m1, "bc", 2) && StartsAt(m1, "bc", 3);
    assert Find(m1, "bc", 2) == Some(3);
    var m2 := Mask(m1, 3, 2);
    assert m2 == "\0\0a\0\0";
    assert Scan(m2, "bc", cb, 5) == (m2, []);
    assert [Segment(3, "bc", cb)] + [] == [Segment(3, "bc", cb)];
    assert Scan(m1, "bc", cb, 2) == (m2, [Segment(3, "bc", cb)]);
    assert Scan(m, "bc", cb, 0) == (m2, [Segment(0, "bc", cb)] + [Segment(3, "bc", cb)]);
    assert [Segment(0, "bc", cb)] + [Segment(3, "bc", cb)] == [Segment(0, "bc", cb), Segment(3, "bc", cb)];
  }

  /** A symbol whose first character is absent from the text is not found. */
  lemma {:induction false} Absent(s: string, w: string, start: nat)
    requires start <= |s| && |w| > 0
    requires forall i :: start <= i < |s| ==> s[i] != w[0]
    ensures Find(s, w, start) == None
    decreases |s| - start
  {
    if start < |s| {
      if start + |w| <= |s| {
        assert s[start..start + |w|][0] == s[start];
      }
      Absent(s, w, start + 1);
    }
  }

  /** All three passes of the outer loop: only the two records of "bc" are made. */
  lemma OverlapPasses(codes: CodeTable)
    requires BcBeforeAb(codes)
    ensures var cb := CodeOf(codes, "bc");
            ScanUpTo("bcabc", ["bc", "ab", "c"], codes, 3)
            == ("\0\0a\0\0", [Segment(0, "bc", cb), Segment(3, "bc", cb)])
  {
    var m, cb := "bcabc", CodeOf(codes, "bc");
    var order := ["bc", "ab", "c"];
    var left := "\0\0a\0\0";
    var segs := [Segment(0, "bc", cb), Segment(3, "bc", cb)];
    OverlapFirstPass(codes);
    OverlapLeftover();
    ScanUpToStep(m, order, codes, 1);
    assert segs + [] == segs;
    assert ScanUpTo(m, order, codes, 2) == (left, segs);
    ScanUpToStep(m, order, codes, 2);
  }

  lemma OverlapFirstPass(codes: CodeTable)
    requires BcBeforeAb(codes)
    ensures var cb := CodeOf(codes, "bc");
            ScanUpTo("bcabc", ["bc", "ab", "c"], codes, 1)
            == ("\0\0a\0\0", [Segment(0, "bc", cb), Segment(3, "bc", cb)])
  {
    var m, cb := "bcabc", CodeOf(codes, "bc");
    var order := ["bc", "ab", "c"];
    var segs := [Segment(0, "bc", cb), Segment(3, "bc", cb)];
    OverlapScan(cb);
    assert ScanUpTo(m, order, codes, 0) == (m, []);
    ScanUpToStep(m, order, codes, 0);
    assert [] + segs == segs;
  }

  /** Neither of the remaining symbols occurs in what the first pass leaves. */
  lemma OverlapLeftover()
    ensures Find("\0\0a\0\0", "ab", 0) == None && Find("\0\0a\0\0", "c", 0) == None
  {
    var left := "\0\0a\0\0";
    forall q | 0 <= q <= |left| ensures !StartsAt(left, "ab", q) {
      if q + 2 <= |left| {
        assert left[q..q + 2][0] == left[q] && left[q..q + 2][1] == left[q + 1];
      }
    }
    Absent(left, "c", 0);
  }

  /** The codeword of "bc" in a table that lists it second, or first, with codeword c. */
  lemma OverlapCodeOf(codes: CodeTable, c: string)
    requires codes == [("c", "0"), ("bc", c), ("ab", "11")] || codes == [("bc", c), ("c", "10"), ("ab", "11")]
    ensures CodeOf(codes, "bc") == c
  {
    if codes[0].0 == "c" {
      assert "c" != "bc";
      assert codes[1..][0] == ("bc", c);
      assert Get(codes, "bc") == Get(codes[1..], "bc");
    }
  }

  /** The two records are already in offset order; their codewords joined are the codeword twice. */
  lemma OverlapEncoded(cb: string)
    ensures Join(Codewords(SortByOffset([Segment(0, "bc", cb), Segment(3, "bc", cb)]))) == cb + cb
  {
    var segs := [Segment(0, "bc", cb), Segment(3, "bc", cb)];
    assert segs[1..] == [Segment(3, "bc", cb)] && segs[1..][1..] == [];
    assert SortByOffset(segs[1..]) == [Segment(3, "bc", cb)];
    assert SortByOffset(segs) == segs;
    assert Codewords(segs) == [cb, cb];
    assert [cb, cb][1..] == [cb];
    assert Join([cb]) == cb + "";
  }

  /** In a prefix code with non-empty codewords, the codeword of "bc" twice decodes to "bcbc". */
  lemma OverlapDecoded(codes: CodeTable)
    requires BcBeforeAb(codes) && PrefixFree(codes) && NonEmptyCodes(codes)
    ensures var cb := CodeOf(codes, "bc");
            Join(Run(Inverse(codes), cb + cb, "")) == "bcbc"
  {
    var cb := CodeOf(codes, "bc");
    assert "bc" in Keys(codes);
    GetFacts(codes, "bc");
    assert ("bc", cb) in codes;
    TwiceDecodes(codes, "bc", cb);
    assert "bc" + "bc" == "bcbc";
  }

  /** A symbol's codeword twice decodes to the symbol twice. */
  lemma TwiceDecodes(codes: CodeTable, k: string, c: string)
    requires PrefixFree(codes) && NonEmptyCodes(codes) && (k, c) in codes
    ensures Join(Run(Inverse(codes), c + c, "")) == k + k
  {
    DecodeCodewords(codes, [k, k], [c, c]);
    JoinTwice(c);
    JoinTwice(k);
  }

  lemma JoinTwice(w: string)
    ensures Join([w, w]) == w + w
  {
    assert [w, w][1..] == [w] && [w][1..] == [];
    assert Join([w]) == w + "" == w;
  }

  lemma OverlapTree()
    ensures Rounds(Singletons([("bc", 1), ("ab", 1), ("c", 1)])) == [ThreeTree("c", "bc", "ab")]
  {
    var h0 := Singletons([("bc", 1), ("ab", 1), ("c", 1)]);
    assert h0 == [Leaf("bc", 1), Leaf("ab", 1), Leaf("c", 1)];
    var n2 := Node(2, Leaf("bc", 1), Leaf("ab", 1));
    OverlapFirstRound();
    OverlapSecondRound();
    assert Rounds(h0) == Rounds([Leaf("c", 1), n2]);
  }

  /** The first round merges the two leftmost leaves. */
  lemma OverlapFirstRound()
    ensures Step([Leaf("bc", 1), Leaf("ab", 1), Leaf("c", 1)])
            == [Leaf("c", 1), Node(2, Leaf("bc", 1), Leaf("ab", 1))]
  {
    var h0 := [Leaf("bc", 1), Leaf("ab", 1), Leaf("c", 1)];
    assert MinIndex(h0) == 0;
    var r1 := Remove(h0, 0);
    assert r1 == [Leaf("ab", 1), Leaf("c", 1)];
    assert MinIndex(r1) == 0;
    assert Remove(r1, 0) == [Leaf("c", 1)];
  }

  /** The second round merges what is left. */
  lemma OverlapSecondRound()
    ensures var n2 := Node(2, Leaf("bc", 1), Leaf("ab", 1));
            Step([Leaf("c", 1), n2]) == [Node(3, Leaf("c", 1), n2)]
  {
    var n2 := Node(2, Leaf("bc", 1), Leaf("ab", 1));
    var h1 := [Leaf("c", 1), n2];
    assert MinIndex(h1) == 0;
    assert Remove(h1, 0) == [n2];
    assert Remove([n2], 0) == [];
  }

  /**
   * A tree that is a single leaf: the code table as written gives its symbol
   * the empty codeword, every message encodes to the empty string, and the
   * empty string decodes to the empty string.
   */
  lemma LoneSymbolLost(m: string, s: string, f: nat)
    requires |s| > 0 && NoNul(s)
    ensures PutAll([], Paths(Leaf(s, f), "")) == [(s, "")]
    ensures Join(Codewords(SortByOffset(Segments(m, [(s, "")])))) == ""
    ensures Join(Run(Inverse([(s, "")]), "", "")) == ""
  {
    var codes: CodeTable := [(s, "")];
    assert PutAll([], codes) == PutAll(codes, codes[1..]);
    SegmentsFacts(m, codes);
    var L := SortByOffset(Segments(m, codes));
    forall i | 0 <= i < |L| ensures Codewords(L)[i] == "" {
      assert L[i] in multiset(Segments(m, codes));
      assert CodeOf(codes, s) == "";
    }
    SilentJoin(Codewords(L));
  }

  lemma {:induction false} SilentJoin(cs: seq<string>)
    requires forall i :: 0 <= i < |cs| ==> cs[i] == ""
    ensures Join(cs) == ""
  {
    if cs != [] {
      SilentJoin(cs[1..]);
    }
  }
}
