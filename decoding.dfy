/**
 * What `huffman_decode` gives back: for a prefix code whose codewords are
 * non-empty, reading the codewords of a list of symbols emits exactly those
 * symbols, and bits at the end that complete no codeword are dropped.
 */
module Decoding {

  import opened Text
  import opened OrderedTable
  import opened Codes
  import opened Codec

  /** No symbol is given the empty codeword. */
  predicate NonEmptyCodes(codes: CodeTable)
  {
    forall e :: e in codes ==> |e.1| > 0
  }

  /** In a prefix code no two symbols share a codeword. */
  lemma PrefixFreeDistinct(codes: CodeTable)
    requires PrefixFree(codes)
    ensures DistinctCodes(codes)
  {
    forall i, j | 0 <= i < j < |codes| ensures codes[i].1 != codes[j].1 {
      assert !IsPrefix(codes[i].1, codes[j].1);
      assert codes[j].1[..|codes[j].1|] == codes[j].1;
    }
  }

  /** In a prefix code, a proper prefix of a codeword is no codeword. */
  lemma ShorterNotCode(codes: CodeTable, k: string, c: string, n: nat)
    requires PrefixFree(codes) && (k, c) in codes && n < |c|
    ensures Get(Inverse(codes), c[..n]).None?
  {
    InverseSound(codes, c[..n]);
    var i :| 0 <= i < |codes| && codes[i] == (k, c);
    assert IsPrefix(c[..n], c);
    forall j | 0 <= j < |codes| ensures codes[j].1 != c[..n] {
      if j != i {
        assert !IsPrefix(codes[j].1, codes[i].1);
      }
    }
  }

  /**
   * Once the first n bits of a codeword have been read, reading the rest emits
   * its symbol and starts afresh.
   */
  lemma {:induction false} DecodeOne(codes: CodeTable, k: string, c: string, rest: string, n: nat)
    requires PrefixFree(codes) && (k, c) in codes && n < |c|
    ensures Run(Inverse(codes), c[n..] + rest, c[..n]) == [k] + Run(Inverse(codes), rest, "")
    decreases |c| - n
  {
    var rev := Inverse(codes);
    var bits := c[n..] + rest;
    assert bits[0] == c[n];
    assert c[..n] + [c[n]] == c[..n + 1];
    assert bits[1..] == c[n + 1..] + rest;
    if n + 1 == |c| {
      assert c[..n + 1] == c;
      assert c[n + 1..] + rest == rest;
      PrefixFreeDistinct(codes);
      InverseComplete(codes, k, c);
    } else {
      ShorterNotCode(codes, k, c, n + 1);
      DecodeOne(codes, k, c, rest, n + 1);
    }
  }

  /**
   * Decoding the concatenated codewords of a list of symbols, followed by
   * anything, emits that list and then what the rest decodes to.
   */
  lemma {:induction false} DecodeAll(codes: CodeTable, syms: seq<string>, cws: seq<string>, rest: string)
    requires PrefixFree(codes) && NonEmptyCodes(codes)
    requires |syms| == |cws| && forall i :: 0 <= i < |syms| ==> (syms[i], cws[i]) in codes
    ensures Run(Inverse(codes), Join(cws) + rest, "") == syms + Run(Inverse(codes), rest, "")
  {
    if cws != [] {
      DecodeFirst(codes, syms[0], cws, rest);
      DecodeAll(codes, syms[1..], cws[1..], rest);
      assert syms == [syms[0]] + syms[1..];
    } else {
      assert Join(cws) + rest == rest;
    }
  }

  /** The first codeword of a list, read from the start, emits its symbol. */
  lemma DecodeFirst(codes: CodeTable, k: string, cws: seq<string>, rest: string)
    requires PrefixFree(codes) && NonEmptyCodes(codes) && cws != [] && (k, cws[0]) in codes
    ensures Run(Inverse(codes), Join(cws) + rest, "") == [k] + Run(Inverse(codes), Join(cws[1..]) + rest, "")
  {
    var c := cws[0];
    assert Join(cws) + rest == c + (Join(cws[1..]) + rest);
    assert c[0..] == c && c[..0] == "";
    DecodeOne(codes, k, c, Join(cws[1..]) + rest, 0);
  }

  /** Bits that never complete a codeword emit nothing, and raise no error. */
  lemma {:induction false} TrailingDropped(rev: CodeTable, tail: string, cur: string)
    requires forall n :: 1 <= n <= |tail| ==> Get(rev, cur + tail[..n]).None?
    ensures Run(rev, tail, cur) == []
    decreases |tail|
  {
    if tail != [] {
      assert cur + [tail[0]] == cur + tail[..1];
      forall n | 1 <= n <= |tail[1..]|
        ensures Get(rev, (cur + [tail[0]]) + tail[1..][..n]).None?
      {
        assert (cur + [tail[0]]) + tail[1..][..n] == cur + tail[..n + 1];
      }
      TrailingDropped(rev, tail[1..], cur + [tail[0]]);
    }
  }

  /**
   * Decoding the codewords of a list of symbols gives back the symbols joined,
   * for any prefix code with non-empty codewords.
   */
  lemma DecodeCodewords(codes: CodeTable, syms: seq<string>, cws: seq<string>)
    requires PrefixFree(codes) && NonEmptyCodes(codes)
    requires |syms| == |cws| && forall i :: 0 <= i < |syms| ==> (syms[i], cws[i]) in codes
    ensures Join(Run(Inverse(codes), Join(cws), "")) == Join(syms)
  {
    DecodeAll(codes, syms, cws, "");
    assert Join(cws) + "" == Join(cws);
    assert syms + Run(Inverse(codes), "", "") == syms;
  }
}
