/**
 * `huffman_encode` and `huffman_decode`. The encoder works symbol by symbol,
 * longest symbol first: it finds each occurrence of the symbol in what is
 * left of the message, records (offset, codeword) and blanks the occurrence
 * out with '\0'; at the end it orders the records by offset and concatenates
 * their codewords. The decoder reads one bit at a time and emits a symbol as
 * soon as the bits read since the last symbol form one of the codewords.
 */
module Codec {

  import opened Wrappers
  import opened Text
  import opened OrderedTable
  import opened Codes

  /** `message.find(w, start)`: the first occurrence of w at or after start. */
  function Find(s: string, w: string, start: nat): (r: Option<nat>)
    requires start <= |s|
    ensures r.Some? ==> start <= r.value && r.value + |w| <= |s|
    decreases |s| - start
  {
    if StartsAt(s, w, start) then Some(start)
    else if start == |s| then None
    else Find(s, w, start + 1)
  }

  /** `str.find` returns a position where w occurs. */
  lemma {:induction false} FindAt(s: string, w: string, start: nat)
    requires start <= |s| && Find(s, w, start).Some?
    ensures StartsAt(s, w, Find(s, w, start).value)
    decreases |s| - start
  {
    if !StartsAt(s, w, start) {
      FindAt(s, w, start + 1);
    }
  }

  /** `str.find` returns the first position, from the cursor on, where w occurs. */
  lemma {:induction false} FindFirst(s: string, w: string, start: nat)
    requires start <= |s| && Find(s, w, start).Some?
    ensures forall q :: start <= q < Find(s, w, start).value ==> !StartsAt(s, w, q)
    decreases |s| - start
  {
    if !StartsAt(s, w, start) {
      FindFirst(s, w, start + 1);
    }
  }

  /** `str.find` returns -1 only when w occurs nowhere from the cursor on. */
  lemma {:induction false} FindNone(s: string, w: string, start: nat)
    requires start <= |s| && Find(s, w, start).None?
    ensures forall q :: start <= q <= |s| ==> !StartsAt(s, w, q)
    decreases |s| - start
  {
    if start < |s| {
      FindNone(s, w, start + 1);
    }
  }

  /** `s[:i] + '\0' * n + s[i + n:]`, one position at a time. */
  function Mask(s: string, i: nat, n: nat): (r: string)
    requires i + n <= |s|
    ensures |r| == |s|
    decreases n
  {
    if n == 0 then s else Mask(s[i := '\0'], i + 1, n - 1)
  }

  /** Masking blanks out exactly the positions [i, i + n). */
  lemma {:induction false} MaskAt(s: string, i: nat, n: nat)
    requires i + n <= |s|
    ensures forall p :: 0 <= p < |s| ==> Mask(s, i, n)[p] == if i <= p < i + n then '\0' else s[p]
    decreases n
  {
    if n > 0 {
      MaskAt(s[i := '\0'], i + 1, n - 1);
    }
  }

  /** One record of the encoder: where a symbol was found, the symbol, and its codeword. */
  datatype Segment = Segment(offset: nat, sym: string, code: string)

  /** `huffman_codes[symbol]` for a symbol the table holds. */
  function CodeOf(codes: CodeTable, k: string): string
  {
    match Get(codes, k)
    case Some(c) => c
    case None => ""
  }

  /**
   * The inner `while` loop for one symbol from cursor `start`: the message
   * with the occurrences blanked out, and the records made. An empty symbol
   * would be found at the cursor for ever, so it is only allowed in an empty
   * message, where the loop does not run.
   */
  function Scan(s: string, w: string, code: string, start: nat): (r: (string, seq<Segment>))
    requires start <= |s| && (|w| > 0 || |s| == 0)
    ensures |r.0| == |s|
    decreases |s| - start
  {
    if start >= |s| then (s, [])
    else
      match Find(s, w, start)
      case None => (s, [])
      case Some(i) =>
        var rest := Scan(Mask(s, i, |w|), w, code, i + |w|);
        (rest.0, [Segment(i, w, code)] + rest.1)
  }

  /** Every key of the table is a non-empty string. */
  predicate NonEmptyKeys(codes: CodeTable)
  {
    forall e :: e in codes ==> |e.0| > 0
  }

  /** `sorted(huffman_codes.keys(), key=len, reverse=True)` */
  function Order(codes: CodeTable): (order: seq<string>)
    ensures multiset(order) == multiset(Keys(codes))
    ensures forall w :: w in order <==> w in Keys(codes)
    ensures LongestFirst(order)
  {
    var order := ByLengthDesc(Keys(codes));
    ByLengthDescPermutes(Keys(codes));
    ByLengthDescSorted(Keys(codes));
    assert forall w :: w in order <==> w in multiset(Keys(codes));
    order
  }

  /** The message and the records after the outer loop has handled the first q symbols. */
  function ScanUpTo(m: string, order: seq<string>, codes: CodeTable, q: nat): (r: (string, seq<Segment>))
    requires q <= |order| && (|m| == 0 || forall w :: w in order ==> |w| > 0)
    ensures |r.0| == |m|
  {
    if q == 0 then (m, [])
    else
      var prev := ScanUpTo(m, order, codes, q - 1);
      var w := order[q - 1];
      var next := Scan(prev.0, w, CodeOf(codes, w), 0);
      (next.0, prev.1 + next.1)
  }

  /** `encoded_segments` before the sort, with the symbol each record is for. */
  function Segments(m: string, codes: CodeTable): seq<Segment>
    requires |m| == 0 || NonEmptyKeys(codes)
  {
    var order := Order(codes);
    ScanUpTo(m, order, codes, |order|).1
  }

  /** Put x before the first record whose offset is not smaller. */
  function InsertByOffset(x: Segment, s: seq<Segment>): (r: seq<Segment>)
    ensures multiset(r) == multiset(s) + multiset{x} && |r| == |s| + 1
  {
    if s == [] || x.offset <= s[0].offset then [x] + s
    else
      assert s == [s[0]] + s[1..];
      [s[0]] + InsertByOffset(x, s[1..])
  }

  /**
   * `encoded_segments.sort(key=lambda x: x[0])`: a stable sort by offset, so
   * records with equal offsets keep the order they were made in.
   */
  function SortByOffset(s: seq<Segment>): (r: seq<Segment>)
    ensures multiset(r) == multiset(s) && |r| == |s|
  {
    if s == [] then []
    else
      assert s == [s[0]] + s[1..];
      InsertByOffset(s[0], SortByOffset(s[1..]))
  }

  /** The codewords of the records, in order. */
  function Codewords(s: seq<Segment>): (cs: seq<string>)
    ensures |cs| == |s| && forall i :: 0 <= i < |s| ==> cs[i] == s[i].code
  {
    if s == [] then [] else [s[0].code] + Codewords(s[1..])
  }

  /** The symbols of the records, in order. */
  function Syms(s: seq<Segment>): (ws: seq<string>)
    ensures |ws| == |s| && forall i :: 0 <= i < |s| ==> ws[i] == s[i].sym
  {
    if s == [] then [] else [s[0].sym] + Syms(s[1..])
  }

  /**
   * `huffman_encode(message, huffman_codes)`: the codewords of the records
   * the scans make, in offset order.
   */
  method HuffmanEncode(message: string, codes: CodeTable) returns (encoded: string)
    requires |message| == 0 || NonEmptyKeys(codes)
    ensures encoded == Join(Codewords(SortByOffset(Segments(message, codes))))
  {
    var order := Order(codes);
    OrderNonEmpty(codes, |message|);
    var segments: seq<Segment> := [];
    var msg := message;
    for q := 0 to |order|
      invariant (msg, segments) == ScanUpTo(message, order, codes, q)
    {
      var symbol := order[q];
      msg, segments := EncodeSymbol(msg, symbol, CodeOf(codes, symbol), segments);
      ScanUpToStep(message, order, codes, q);
    }
    encoded := Join(Codewords(SortByOffset(segments)));
  }

  /**
   * The inner `while` loop of `huffman_encode` for one symbol: record and
   * blank out each occurrence, left to right.
   */
  method EncodeSymbol(msg0: string, symbol: string, code: string, segments0: seq<Segment>)
    returns (msg: string, segments: seq<Segment>)
    requires |symbol| > 0 || |msg0| == 0
    ensures (msg, segments) == Resume(msg0, symbol, code, 0, segments0)
  {
    msg, segments := msg0, segments0;
    ghost var goal := Resume(msg0, symbol, code, 0, segments0);
    var start := 0;
    while start < |msg|
      invariant start <= |msg| == |msg0|
      invariant goal == Resume(msg, symbol, code, start, segments)
      decreases |msg| - start
    {
      var found;
      found, msg, segments, start := Advance(msg, symbol, code, start, segments);
      if !found {
        return;
      }
    }
    ScanDone(msg, symbol, code, start, segments);
  }

  /**
   * One round of the inner loop: find the next occurrence from `start`; if
   * there is one, record it, blank it out and move past it.
   */
  method Advance(msg: string, symbol: string, code: string, start: nat, segments: seq<Segment>)
    returns (found: bool, msg': string, segments': seq<Segment>, start': nat)
    requires start < |msg| && |symbol| > 0
    ensures |msg'| == |msg| && start' <= |msg'|
    ensures found ==> start' > start
    ensures found ==> Resume(msg, symbol, code, start, segments) == Resume(msg', symbol, code, start', segments')
    ensures found <==> Find(msg, symbol, start).Some?
    ensures found ==> var i := Find(msg, symbol, start).value;
                      (msg', segments', start') == (Mask(msg, i, |symbol|), segments + [Segment(i, symbol, code)], i + |symbol|)
    ensures !found ==> (msg', segments', start') == (msg, segments, start)
    ensures !found ==> Resume(msg, symbol, code, start, segments) == (msg, segments)
  {
    var index := Find(msg, symbol, start);
    if index.None? {
      ScanDone(msg, symbol, code, start, segments);
      return false, msg, segments, start;
    }
    var i := index.value;
    msg', segments', start' := Mask(msg, i, |symbol|), segments + [Segment(i, symbol, code)], i + |symbol|;
    ScanSome(msg, symbol, code, start, i);
    ScanFound(msg, symbol, code, start, segments, msg', start', Segment(i, symbol, code));
    found := true;
  }

  lemma OrderNonEmpty(codes: CodeTable, n: nat)
    requires n == 0 || NonEmptyKeys(codes)
    ensures n == 0 || forall w :: w in Order(codes) ==> |w| > 0
  {
    forall w | w in Order(codes) && n > 0 ensures |w| > 0 {
      var i :| 0 <= i < |codes| && Keys(codes)[i] == w;
      assert codes[i] in codes;
    }
  }

  lemma ScanUpToStep(m: string, order: seq<string>, codes: CodeTable, q: nat)
    requires q < |order| && (|m| == 0 || forall w :: w in order ==> |w| > 0)
    ensures var prev := ScanUpTo(m, order, codes, q);
            var next := Scan(prev.0, order[q], CodeOf(codes, order[q]), 0);
            ScanUpTo(m, order, codes, q + 1) == (next.0, prev.1 + next.1)
  {
  }

  /** Where the scan for one symbol ends up when it resumes at `start` with `done` recorded. */
  function Resume(s: string, w: string, code: string, start: nat, done: seq<Segment>): (string, seq<Segment>)
    requires start <= |s| && (|w| > 0 || |s| == 0)
  {
    var r := Scan(s, w, code, start);
    (r.0, done + r.1)
  }

  lemma ScanFound(s: string, w: string, code: string, start: nat, done: seq<Segment>, s': string, j: nat, g: Segment)
    requires start <= |s| && j <= |s'| && |w| > 0
    requires Scan(s, w, code, start) == (Scan(s', w, code, j).0, [g] + Scan(s', w, code, j).1)
    ensures Resume(s, w, code, start, done) == Resume(s', w, code, j, done + [g])
  {
    var rest := Scan(s', w, code, j);
    assert done + ([g] + rest.1) == (done + [g]) + rest.1;
  }

  lemma ScanSome(s: string, w: string, code: string, start: nat, i: nat)
    requires start < |s| && |w| > 0 && Find(s, w, start) == Some(i)
    ensures i + |w| <= |s|
    ensures Scan(s, w, code, start)
            == (Scan(Mask(s, i, |w|), w, code, i + |w|).0, [Segment(i, w, code)] + Scan(Mask(s, i, |w|), w, code, i + |w|).1)
  {
  }

  lemma ScanDone(s: string, w: string, code: string, start: nat, done: seq<Segment>)
    requires start <= |s| && (|w| > 0 || |s| == 0)
    requires start >= |s| || Find(s, w, start).None?
    ensures Resume(s, w, code, start, done) == (s, done)
  {
    assert Scan(s, w, code, start) == (s, []);
    assert done + [] == done;
  }

  /**
   * `{v: k for k, v in huffman_codes.items()}`: each codeword maps to its
   * symbol; when two symbols share a codeword the later one wins, in the
   * place the codeword was first given.
   */
  function Inverse(codes: CodeTable): CodeTable
  {
    if codes == [] then []
    else
      var e := codes[|codes| - 1];
      Put(Inverse(codes[..|codes| - 1]), e.1, e.0)
  }

  /**
   * The symbols the decoding loop emits reading `bits`, when `cur` holds the
   * bits read since the last symbol. Bits left over at the end emit nothing.
   */
  function Run(rev: CodeTable, bits: string, cur: string): seq<string>
    decreases |bits|
  {
    if bits == [] then []
    else
      var c := cur + [bits[0]];
      match Get(rev, c)
      case Some(k) => [k] + Run(rev, bits[1..], "")
      case None => Run(rev, bits[1..], c)
  }

  /** `huffman_decode(encoded_message, huffman_codes)` */
  method HuffmanDecode(encoded: string, codes: CodeTable) returns (decoded: string)
    ensures decoded == Join(Run(Inverse(codes), encoded, ""))
  {
    var rev := Inverse(codes);
    var out: seq<string> := [];
    var cur := "";
    for i := 0 to |encoded|
      invariant out + Run(rev, encoded[i..], cur) == Run(rev, encoded, "")
    {
      assert encoded[i..][1..] == encoded[i + 1..] && encoded[i..][0] == encoded[i];
      ghost var rest := Run(rev, encoded[i + 1..], "");
      cur := cur + [encoded[i]];
      match Get(rev, cur)
      case Some(k) =>
        assert (out + [k]) + rest == out + ([k] + rest);
        out := out + [k];
        cur := "";
      case None =>
    }
    assert encoded[|encoded|..] == [];
    assert out + [] == out;
    decoded := Join(out);
  }

  /** Codewords of different entries differ. */
  predicate DistinctCodes(codes: CodeTable)
  {
    forall i, j :: 0 <= i < j < |codes| ==> codes[i].1 != codes[j].1
  }

  /** Looking a codeword up in the inverted table gives a symbol it was given to. */
  lemma {:induction false} InverseSound(codes: CodeTable, c: string)
    ensures Get(Inverse(codes), c).Some? ==> (Get(Inverse(codes), c).value, c) in codes
    decreases |codes|
  {
    if codes != [] {
      var n := |codes| - 1;
      var front, e := codes[..n], codes[n];
      assert codes == front + [e];
      assert Inverse(codes) == Put(Inverse(front), e.1, e.0);
      InverseSound(front, c);
      GetPut(Inverse(front), e.1, e.0, c);
      assert forall x :: x in front ==> x in codes;
    }
  }

  /** With distinct codewords, looking one up gives the symbol it was given to. */
  lemma {:induction false} InverseComplete(codes: CodeTable, k: string, c: string)
    requires DistinctCodes(codes) && (k, c) in codes
    ensures Get(Inverse(codes), c) == Some(k)
    decreases |codes|
  {
    var n := |codes| - 1;
    var front, e := codes[..n], codes[n];
    assert codes == front + [e];
    assert Inverse(codes) == Put(Inverse(front), e.1, e.0);
    GetPut(Inverse(front), e.1, e.0, c);
    if e != (k, c) {
      var i :| 0 <= i < |codes| && codes[i] == (k, c);
      assert i < n && front[i] == (k, c);
      assert forall a :: 0 <= a < n ==> front[a] == codes[a];
      assert DistinctCodes(front);
      InverseComplete(front, k, c);
    }
  }
}
