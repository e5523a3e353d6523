/**
 * What `huffman_encode` records. Every record is an occurrence of its symbol
 * in the original message, no two records overlap, and the working message
 * is blank exactly where the records cover it. A symbol's pass leaves no
 * occurrence of it in the working message, so when every character of the
 * message is itself a symbol every position ends up covered; and when every
 * position is covered, joining the records' symbols in offset order gives
 * the message back, so decoding the output restores it.
 */
module Encoding {

  import opened Text
  import opened OrderedTable
  import opened Codes
  import opened Codec
  import opened Decoding
  import Seqs

  /** Record g spans position p. */
  predicate Covers(g: Segment, p: int)
  {
    g.offset <= p < g.offset + |g.sym|
  }

  /** Some record spans position p. */
  predicate Covered(segs: seq<Segment>, p: int)
  {
    exists g :: g in segs && Covers(g, p)
  }

  /** Two records share no position. */
  predicate Disjoint(g: Segment, h: Segment)
  {
    g.offset + |g.sym| <= h.offset || h.offset + |h.sym| <= g.offset
  }

  /** Every record is a non-empty occurrence of its symbol in the message. */
  predicate Found(m: string, segs: seq<Segment>)
  {
    forall g :: g in segs ==> |g.sym| > 0 && StartsAt(m, g.sym, g.offset)
  }

  /** The working message is blank where a record covers it, and the message elsewhere. */
  predicate Working(m: string, s: string, segs: seq<Segment>)
  {
    |s| == |m| && forall p :: 0 <= p < |m| ==> s[p] == if Covered(segs, p) then '\0' else m[p]
  }

  /** What the encoder's state keeps as it goes. */
  predicate Consistent(m: string, s: string, segs: seq<Segment>)
  {
    Found(m, segs) && Seqs.Pairwise(segs, Disjoint) && Working(m, s, segs)
  }

  /** Every symbol of the table is non-empty and has no '\0' in it. */
  predicate PlainKeys(codes: CodeTable)
  {
    forall e :: e in codes ==> |e.0| > 0 && NoNul(e.0)
  }

  /** Every record is for a symbol of the table and carries that symbol's codeword. */
  predicate Recorded(codes: CodeTable, segs: seq<Segment>)
  {
    forall g :: g in segs ==> g.sym in Keys(codes) && g.code == CodeOf(codes, g.sym)
  }

  lemma CoveredAppend(segs: seq<Segment>, g: Segment, p: int)
    ensures Covered(segs + [g], p) <==> Covered(segs, p) || Covers(g, p)
  {
    if Covers(g, p) {
      assert g in segs + [g];
    }
    if Covered(segs, p) {
      var h :| h in segs && Covers(h, p);
      assert h in segs + [g];
    }
  }

  /** Two non-empty records are disjoint when the first spans no position of the second. */
  lemma DisjointIfNoCommon(g: Segment, h: Segment)
    requires |g.sym| > 0 && |h.sym| > 0
    requires forall p :: h.offset <= p < h.offset + |h.sym| ==> !Covers(g, p)
    ensures Disjoint(g, h)
  {
    var p0 := if g.offset <= h.offset then h.offset else g.offset;
    assert h.offset <= p0 < h.offset + |h.sym| ==> !Covers(g, p0);
  }

  /** Recording an occurrence found in the working message keeps the state consistent. */
  lemma MaskStep(m: string, s: string, segs: seq<Segment>, w: string, code: string, i: nat)
    requires Consistent(m, s, segs) && NoNul(w) && |w| > 0 && StartsAt(s, w, i)
    ensures StartsAt(m, w, i)
    ensures Consistent(m, Mask(s, i, |w|), segs + [Segment(i, w, code)])
  {
    var g := Segment(i, w, code);
    var s' := Mask(s, i, |w|);
    var segs' := segs + [g];
    forall p | i <= p < i + |w| ensures !Covered(segs, p) && s[p] == m[p] {
      assert s[p] == s[i..i + |w|][p - i] == w[p - i];
    }
    assert m[i..i + |w|] == w by {
      forall p | 0 <= p < |w| ensures m[i..i + |w|][p] == w[p] {
        assert s[i..i + |w|][p] == w[p];
      }
    }
    forall h | h in segs ensures Disjoint(h, g) && Disjoint(g, h) {
      forall p | i <= p < i + |w| ensures !Covers(h, p) {
        assert !Covered(segs, p);
      }
      DisjointIfNoCommon(h, g);
    }
    assert Seqs.Pairwise(segs', Disjoint) by {
      forall a, b | 0 <= a < b < |segs'| ensures Disjoint(segs'[a], segs'[b]) {
        if b < |segs| {
          assert segs'[a] == segs[a] && segs'[b] == segs[b];
        } else {
          assert segs'[a] == segs[a] && segs'[a] in segs;
        }
      }
    }
    MaskAt(s, i, |w|);
    forall p | 0 <= p < |m| ensures s'[p] == if Covered(segs', p) then '\0' else m[p] {
      CoveredAppend(segs, g, p);
    }
    forall h | h in segs' ensures |h.sym| > 0 && StartsAt(m, h.sym, h.offset) {
      if h != g {
        assert h in segs;
      }
    }
  }

  /** One occurrence found: the pass goes on from just past it. */
  lemma ScanStep(s: string, w: string, code: string, start: nat) returns (s1: string, j: nat, g: Segment)
    requires |w| > 0 && start < |s| && Find(s, w, start).Some?
    ensures start < j <= |s1| == |s|
    ensures (s1, j, g) == (Mask(s, Find(s, w, start).value, |w|), Find(s, w, start).value + |w|, Segment(Find(s, w, start).value, w, code))
    ensures Scan(s, w, code, start) == (Scan(s1, w, code, j).0, [g] + Scan(s1, w, code, j).1)
  {
    var i := Find(s, w, start).value;
    ScanSome(s, w, code, start, i);
    s1, j, g := Mask(s, i, |w|), i + |w|, Segment(i, w, code);
  }

  /** Recording the first occurrence from `start` keeps the state consistent. */
  lemma FoundStep(m: string, s: string, segs: seq<Segment>, w: string, code: string, start: nat)
    requires Consistent(m, s, segs) && NoNul(w) && |w| > 0 && start < |s| && Find(s, w, start).Some?
    ensures Consistent(m, Mask(s, Find(s, w, start).value, |w|), segs + [Segment(Find(s, w, start).value, w, code)])
  {
    FindAt(s, w, start);
    MaskStep(m, s, segs, w, code, Find(s, w, start).value);
  }

  lemma ConsistentCarry(m: string, segs: seq<Segment>, g: Segment, rest: (string, seq<Segment>), r: (string, seq<Segment>))
    requires Consistent(m, rest.0, (segs + [g]) + rest.1) && r == (rest.0, [g] + rest.1)
    ensures Consistent(m, r.0, segs + r.1)
  {
    Seqs.AppendAssoc(segs, [g], rest.1);
  }

  /** The pass for one symbol keeps the state consistent. */
  lemma {:induction false} ScanConsistent(m: string, s: string, segs: seq<Segment>, w: string, code: string, start: nat)
    requires Consistent(m, s, segs) && NoNul(w) && |w| > 0 && start <= |s|
    ensures Consistent(m, Scan(s, w, code, start).0, segs + Scan(s, w, code, start).1)
    decreases |s| - start
  {
    if start >= |s| || Find(s, w, start).None? {
      ScanDone(s, w, code, start, segs);
    } else {
      var s1, j, g := ScanStep(s, w, code, start);
      FoundStep(m, s, segs, w, code, start);
      ScanConsistent(m, s1, segs + [g], w, code, j);
      ConsistentCarry(m, segs, g, Scan(s1, w, code, j), Scan(s, w, code, start));
    }
  }

  /** The pass for one symbol records only that symbol, with the codeword it was given. */
  lemma {:induction false} ScanRecords(s: string, w: string, code: string, start: nat)
    requires start <= |s| && (|w| > 0 || |s| == 0)
    ensures forall g :: g in Scan(s, w, code, start).1 ==> g.sym == w && g.code == code
    decreases |s| - start
  {
    if start < |s| {
      match Find(s, w, start)
      case None =>
      case Some(i) =>
        ScanRecords(Mask(s, i, |w|), w, code, i + |w|);
    }
  }

  /** b is a with some characters blanked out. */
  predicate Blanked(a: string, b: string)
  {
    |a| == |b| && forall p :: 0 <= p < |a| ==> b[p] == a[p] || b[p] == '\0'
  }

  /** A pass only blanks characters out. */
  lemma {:induction false} ScanBlanks(s: string, w: string, code: string, start: nat)
    requires start <= |s| && (|w| > 0 || |s| == 0)
    ensures Blanked(s, Scan(s, w, code, start).0)
    decreases |s| - start
  {
    if start < |s| {
      match Find(s, w, start)
      case None =>
      case Some(i) =>
        MaskAt(s, i, |w|);
        ScanBlanks(Mask(s, i, |w|), w, code, i + |w|);
    }
  }

  /** An occurrence of a symbol without '\0' in a blanked string was there before. */
  lemma BlankedOccurrence(a: string, b: string, w: string, q: nat)
    requires Blanked(a, b) && NoNul(w)
    ensures StartsAt(b, w, q) ==> StartsAt(a, w, q)
  {
    if StartsAt(b, w, q) {
      forall p | 0 <= p < |w| ensures a[q..q + |w|][p] == w[p] {
        assert b[q..q + |w|][p] == w[p];
      }
    }
  }

  /** After the pass for w from `start`, w no longer occurs at or after `start`. */
  lemma {:induction false} ScanGone(s: string, w: string, code: string, start: nat)
    requires NoNul(w) && |w| > 0 && start <= |s|
    ensures forall q :: start <= q ==> !StartsAt(Scan(s, w, code, start).0, w, q)
    decreases |s| - start
  {
    if start < |s| {
      match Find(s, w, start)
      case None =>
        FindNone(s, w, start);
      case Some(i) =>
        var s' := Mask(s, i, |w|);
        var r := Scan(s', w, code, i + |w|).0;
        assert Scan(s, w, code, start).0 == r;
        ScanGone(s', w, code, i + |w|);
        ScanBlanks(s', w, code, i + |w|);
        forall q | start <= q < i + |w| ensures !StartsAt(r, w, q) {
          BlankedOccurrence(s', r, w, q);
          NotBeforeMask(s, w, start, q);
        }
    }
  }

  /** Just after masking the first occurrence from `start`, w occurs nowhere from `start` to the mask's end. */
  lemma NotBeforeMask(s: string, w: string, start: nat, q: nat)
    requires NoNul(w) && |w| > 0 && start <= |s| && Find(s, w, start).Some?
    requires start <= q < Find(s, w, start).value + |w|
    ensures !StartsAt(Mask(s, Find(s, w, start).value, |w|), w, q)
  {
    var i := Find(s, w, start).value;
    var s' := Mask(s, i, |w|);
    FindFirst(s, w, start);
    MaskAt(s, i, |w|);
    if q < i && q + |w| <= i {
      assert !StartsAt(s, w, q);
      assert s'[q..q + |w|] == s[q..q + |w|];
    } else if q + |w| <= |s| {
      var p := if q < i then i else q;
      assert s'[p] == '\0';
      assert s'[q..q + |w|][p - q] == '\0' != w[p - q];
    }
  }

  /** Symbols the encoder can scan for: non-empty and without '\0'. */
  predicate Plain(order: seq<string>)
  {
    forall w :: w in order ==> |w| > 0 && NoNul(w)
  }

  /** After any number of passes the state is consistent. */
  lemma {:induction false} ScanUpToConsistent(m: string, order: seq<string>, codes: CodeTable, q: nat)
    requires q <= |order| && Plain(order)
    ensures Consistent(m, ScanUpTo(m, order, codes, q).0, ScanUpTo(m, order, codes, q).1)
  {
    if q == 0 {
      assert Working(m, m, []);
    } else {
      var prev := ScanUpTo(m, order, codes, q - 1);
      var w := order[q - 1];
      ScanUpToConsistent(m, order, codes, q - 1);
      ScanConsistent(m, prev.0, prev.1, w, CodeOf(codes, w), 0);
    }
  }

  /** Every record made by the passes is for a scanned symbol and carries its codeword. */
  lemma {:induction false} ScanUpToRecords(m: string, order: seq<string>, codes: CodeTable, q: nat)
    requires q <= |order| && Plain(order)
    ensures forall g :: g in ScanUpTo(m, order, codes, q).1 ==> g.sym in order && g.code == CodeOf(codes, g.sym)
  {
    if q > 0 {
      var prev := ScanUpTo(m, order, codes, q - 1);
      var w := order[q - 1];
      ScanUpToRecords(m, order, codes, q - 1);
      ScanRecords(prev.0, w, CodeOf(codes, w), 0);
    }
  }

  /** After the passes for the first q symbols, none of them occurs in the working message. */
  lemma {:induction false} ScanUpToGone(m: string, order: seq<string>, codes: CodeTable, q: nat)
    requires q <= |order| && Plain(order)
    ensures forall k, p :: 0 <= k < q ==> !StartsAt(ScanUpTo(m, order, codes, q).0, order[k], p)
  {
    if q > 0 {
      var prev := ScanUpTo(m, order, codes, q - 1);
      var w := order[q - 1];
      var next := Scan(prev.0, w, CodeOf(codes, w), 0);
      assert ScanUpTo(m, order, codes, q).0 == next.0;
      ScanUpToGone(m, order, codes, q - 1);
      ScanGone(prev.0, w, CodeOf(codes, w), 0);
      ScanBlanks(prev.0, w, CodeOf(codes, w), 0);
      forall k, p | 0 <= k < q ensures !StartsAt(next.0, order[k], p) {
        if k < q - 1 {
          BlankedOccurrence(prev.0, next.0, order[k], p);
        }
      }
    }
  }

  /** The symbols of a table the encoder can use are plain. */
  lemma OrderPlain(codes: CodeTable)
    requires PlainKeys(codes)
    ensures Plain(Order(codes))
  {
    forall w | w in Order(codes) ensures |w| > 0 && NoNul(w) {
      var i :| 0 <= i < |codes| && Keys(codes)[i] == w;
      assert codes[i] in codes;
    }
  }

  /**
   * The records `huffman_encode` makes are occurrences of the table's symbols
   * in the message, carry those symbols' codewords, never overlap, and leave
   * uncovered only positions whose character is not blanked.
   */
  lemma SegmentsFacts(m: string, codes: CodeTable)
    requires PlainKeys(codes)
    ensures NonEmptyKeys(codes)
    ensures Found(m, Segments(m, codes)) && Seqs.Pairwise(Segments(m, codes), Disjoint)
    ensures Recorded(codes, Segments(m, codes))
  {
    var order := Order(codes);
    OrderPlain(codes);
    ScanUpToConsistent(m, order, codes, |order|);
    ScanUpToRecords(m, order, codes, |order|);
  }

  /**
   * When every character of the message is itself a symbol of the table, the
   * records cover every position: the pass for a one-character symbol leaves
   * none of it behind.
   */
  lemma CharsCovered(m: string, codes: CodeTable)
    requires PlainKeys(codes)
    requires forall p :: 0 <= p < |m| ==> [m[p]] in Keys(codes)
    ensures NonEmptyKeys(codes)
    ensures forall p :: 0 <= p < |m| ==> Covered(Segments(m, codes), p)
  {
    var order := Order(codes);
    OrderPlain(codes);
    var fin := ScanUpTo(m, order, codes, |order|);
    ScanUpToConsistent(m, order, codes, |order|);
    ScanUpToGone(m, order, codes, |order|);
    assert Working(m, fin.0, fin.1);
    forall p | 0 <= p < |m| ensures Covered(fin.1, p) {
      assert [m[p]] in order;
      var k :| 0 <= k < |order| && order[k] == [m[p]];
      PositionCovered(m, fin.0, fin.1, p);
    }
  }

  /** A position whose character the working message no longer holds is covered. */
  lemma PositionCovered(m: string, s: string, segs: seq<Segment>, p: nat)
    requires Working(m, s, segs) && p < |m| && !StartsAt(s, [m[p]], p)
    ensures Covered(segs, p)
  {
    assert s[p..p + 1] == [s[p]];
  }

  /** Records in non-decreasing offset order. */
  predicate ByOffset(s: seq<Segment>)
  {
    forall i, j :: 0 <= i < j < |s| ==> s[i].offset <= s[j].offset
  }

  lemma {:induction false} InsertByOffsetSorted(x: Segment, s: seq<Segment>)
    requires ByOffset(s)
    ensures ByOffset(InsertByOffset(x, s))
  {
    if s == [] || x.offset <= s[0].offset {
      PrependSorted(x, s);
    } else {
      InsertByOffsetSorted(x, s[1..]);
      var rest := InsertByOffset(x, s[1..]);
      forall g | g in rest ensures s[0].offset <= g.offset {
        assert g in multiset(s[1..]) + multiset{x};
      }
      PrependSorted(s[0], rest);
    }
  }

  /** A record no later than any of a sorted list's records can go in front of it. */
  lemma PrependSorted(x: Segment, s: seq<Segment>)
    requires ByOffset(s)
    requires forall g :: g in s ==> x.offset <= g.offset
    ensures ByOffset([x] + s)
  {
    var r := [x] + s;
    forall i, j | 0 <= i < j < |r| ensures r[i].offset <= r[j].offset {
      assert r[j] == s[j - 1];
      if i > 0 {
        assert r[i] == s[i - 1];
      } else {
        assert s[j - 1] in s;
      }
    }
  }

  /** The sort puts the records in offset order. */
  lemma {:induction false} SortByOffsetSorted(s: seq<Segment>)
    ensures ByOffset(SortByOffset(s))
  {
    if s != [] {
      SortByOffsetSorted(s[1..]);
      InsertByOffsetSorted(s[0], SortByOffset(s[1..]));
    }
  }

  /**
   * Records in offset order that never overlap, lie at or after `pos` and
   * cover every position from `pos` on spell out the message from `pos` on.
   */
  lemma {:induction false} TilesJoin(m: string, L: seq<Segment>, pos: nat)
    requires pos <= |m|
    requires Found(m, L) && forall g :: g in L ==> g.offset >= pos
    requires ByOffset(L) && Seqs.Pairwise(L, Disjoint)
    requires forall p :: pos <= p < |m| ==> Covered(L, p)
    ensures Join(Syms(L)) == m[pos..]
    decreases |L|
  {
    assert |L| > 0 ==> L[0] in L;
    if pos == |m| {
      assert L == [];
    } else {
      assert Covered(L, pos);
      TilesHead(L, pos);
      var x, rest := L[0], L[1..];
      var next := pos + |x.sym|;
      TilesTail(m, L, pos);
      TilesJoin(m, rest, next);
      SpellStep(m, L, pos);
    }
  }

  /** The first record spelling the message at `pos`, then the rest spelling what follows, spell it from `pos`. */
  lemma SpellStep(m: string, L: seq<Segment>, pos: nat)
    requires L != [] && StartsAt(m, L[0].sym, pos)
    requires Join(Syms(L[1..])) == m[pos + |L[0].sym|..]
    ensures Join(Syms(L)) == m[pos..]
  {
    var next := pos + |L[0].sym|;
    assert Syms(L) == [L[0].sym] + Syms(L[1..]);
    assert m[pos..] == m[pos..next] + m[next..];
  }

  /** The first of the sorted records starts at the first position to cover. */
  lemma TilesHead(L: seq<Segment>, pos: nat)
    requires forall g :: g in L ==> g.offset >= pos
    requires ByOffset(L) && Covered(L, pos)
    ensures |L| > 0 && L[0].offset == pos
  {
    var g :| g in L && Covers(g, pos);
    var j :| 0 <= j < |L| && L[j] == g;
    assert L[0] in L;
    assert L[0].offset <= g.offset;
  }

  /** The rest of the records lie after the first and cover what it leaves. */
  lemma TilesTail(m: string, L: seq<Segment>, pos: nat)
    requires pos < |m| && |L| > 0 && L[0].offset == pos
    requires Found(m, L) && forall g :: g in L ==> g.offset >= pos
    requires Seqs.Pairwise(L, Disjoint)
    requires forall p :: pos <= p < |m| ==> Covered(L, p)
    ensures pos + |L[0].sym| <= |m|
    ensures Found(m, L[1..]) && forall g :: g in L[1..] ==> g.offset >= pos + |L[0].sym|
    ensures Seqs.Pairwise(L[1..], Disjoint)
    ensures forall p :: pos + |L[0].sym| <= p < |m| ==> Covered(L[1..], p)
  {
    var x, rest := L[0], L[1..];
    var next := pos + |x.sym|;
    assert x in L;
    forall h | h in rest ensures h.offset >= next {
      var k :| 0 <= k < |rest| && rest[k] == h;
      assert L[k + 1] == h && Disjoint(L[0], L[k + 1]);
    }
    forall p | next <= p < |m| ensures Covered(rest, p) {
      assert Covered(L, p);
      var h :| h in L && Covers(h, p);
      var k :| 0 <= k < |L| && L[k] == h;
      assert k > 0 && rest[k - 1] == h;
    }
    assert Found(m, rest) by {
      forall h | h in rest ensures h in L { }
    }
    assert Seqs.Pairwise(rest, Disjoint) by {
      forall a, b | 0 <= a < b < |rest| ensures Disjoint(rest[a], rest[b]) {
        assert rest[a] == L[a + 1] && rest[b] == L[b + 1];
      }
    }
  }

  /**
   * When the records cover every position of the message, decoding what
   * `huffman_encode` returns gives the message back, for any prefix code with
   * non-empty codewords over symbols that have no '\0' in them.
   */
  lemma EncodeDecode(m: string, codes: CodeTable)
    requires PlainKeys(codes) && PrefixFree(codes) && NonEmptyCodes(codes)
    requires forall p :: 0 <= p < |m| ==> Covered(Segments(m, codes), p)
    ensures NonEmptyKeys(codes)
    ensures Join(Run(Inverse(codes), Join(Codewords(SortByOffset(Segments(m, codes)))), "")) == m
  {
    var segs := Segments(m, codes);
    SegmentsFacts(m, codes);
    var L := SortByOffset(segs);
    Resorted(m, codes, segs);
    forall p | 0 <= p < |m| ensures Covered(L, p) {
      CoveredResorted(segs, L, p);
    }
    TilesJoin(m, L, 0);
    forall i | 0 <= i < |L| ensures (Syms(L)[i], Codewords(L)[i]) in codes {
      assert L[i] in L;
      GetFacts(codes, L[i].sym);
    }
    DecodeCodewords(codes, Syms(L), Codewords(L));
  }

  /** Sorting the records by offset keeps what is known of each record and of every pair. */
  lemma Resorted(m: string, codes: CodeTable, segs: seq<Segment>)
    requires Found(m, segs) && Seqs.Pairwise(segs, Disjoint) && Recorded(codes, segs)
    ensures Found(m, SortByOffset(segs)) && Recorded(codes, SortByOffset(segs))
    ensures Seqs.Pairwise(SortByOffset(segs), Disjoint) && ByOffset(SortByOffset(segs))
  {
    var L := SortByOffset(segs);
    assert forall g :: g in L ==> g in segs by {
      forall g | g in L ensures g in segs {
        assert g in multiset(L);
      }
    }
    SortByOffsetSorted(segs);
    Seqs.PairwisePermutation(segs, L, Disjoint);
  }

  lemma CoveredResorted(segs: seq<Segment>, L: seq<Segment>, p: int)
    requires multiset(segs) == multiset(L)
    ensures Covered(segs, p) ==> Covered(L, p)
  {
    if Covered(segs, p) {
      var g :| g in segs && Covers(g, p);
      assert g in multiset(L);
    }
  }

  /** When every character of the message is a symbol of the table, the round trip holds. */
  lemma EncodeDecodeChars(m: string, codes: CodeTable)
    requires PlainKeys(codes) && PrefixFree(codes) && NonEmptyCodes(codes)
    requires forall p :: 0 <= p < |m| ==> [m[p]] in Keys(codes)
    ensures NonEmptyKeys(codes)
    ensures Join(Run(Inverse(codes), Join(Codewords(SortByOffset(Segments(m, codes)))), "")) == m
  {
    CharsCovered(m, codes);
    EncodeDecode(m, codes);
  }
}
