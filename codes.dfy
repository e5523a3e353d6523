/**
 * `generate_huffman_codes`: a depth-first walk from the root that records, at
 * each leaf, the path taken to reach it ("0" for a left turn, "1" for a right
 * turn) in a dict threaded through the recursion.
 */
module Codes {

  import opened Wrappers
  import opened Text
  import opened OrderedTable
  import opened HuffmanTree

  type CodeTable = Table<string>

  /** The (symbol, path) of every leaf, left to right, with every path starting with `prefix`. */
  function Paths(t: Tree, prefix: string): CodeTable
  {
    match t
    case Leaf(s, _) => [(s, prefix)]
    case Node(_, l, r) => Paths(l, prefix + "0") + Paths(r, prefix + "1")
  }

  /** The dict after `d[k] = v` for every entry in order. */
  function PutAll(acc: CodeTable, entries: CodeTable): CodeTable
    decreases |entries|
  {
    if entries == [] then acc else PutAll(Put(acc, entries[0].0, entries[0].1), entries[1..])
  }

  lemma {:induction false} PutAllConcat(acc: CodeTable, a: CodeTable, b: CodeTable)
    ensures PutAll(acc, a + b) == PutAll(PutAll(acc, a), b)
    decreases |a|
  {
    if a == [] {
      assert a + b == b;
    } else {
      assert (a + b)[0] == a[0];
      assert (a + b)[1..] == a[1..] + b;
      PutAllConcat(Put(acc, a[0].0, a[0].1), a[1..], b);
    }
  }

  /**
   * `generate_huffman_codes(node, prefix, huffman_codes)`: the dict it returns
   * is the one passed in with every leaf's path recorded, in depth-first order.
   */
  method GenerateHuffmanCodes(node: Tree, prefix: string, codes: CodeTable) returns (r: CodeTable)
    ensures r == PutAll(codes, Paths(node, prefix))
    decreases node
  {
    match node
    case Leaf(s, _) =>
      r := Put(codes, s, prefix);
      assert [(s, prefix)][1..] == [];
    case Node(_, left, right) =>
      r := GenerateHuffmanCodes(left, prefix + "0", codes);
      r := GenerateHuffmanCodes(right, prefix + "1", r);
      PutAllConcat(codes, Paths(left, prefix + "0"), Paths(right, prefix + "1"));
  }

  /** The paths are listed under the leaves' symbols, in the leaves' order. */
  lemma {:induction false} PathsKeys(t: Tree, prefix: string)
    ensures Keys(Paths(t, prefix)) == Keys(Leaves(t))
  {
    match t
    case Leaf(s, f) =>
    case Node(_, l, r) =>
      PathsKeys(l, prefix + "0");
      PathsKeys(r, prefix + "1");
      KeysConcat(Paths(l, prefix + "0"), Paths(r, prefix + "1"));
      KeysConcat(Leaves(l), Leaves(r));
  }

  lemma KeysConcat<V>(a: Table<V>, b: Table<V>)
    ensures Keys(a + b) == Keys(a) + Keys(b)
  {
  }

  /** Recording new keys into a dict appends them in order. */
  lemma {:induction false} PutAllFresh(acc: CodeTable, entries: CodeTable)
    requires DistinctKeys(acc + entries)
    ensures PutAll(acc, entries) == acc + entries
    decreases |entries|
  {
    if entries != [] {
      var k, v := entries[0].0, entries[0].1;
      assert k !in Keys(acc) by {
        forall i | 0 <= i < |acc| ensures acc[i].0 != k {
          assert (acc + entries)[i] == acc[i] && (acc + entries)[|acc|] == entries[0];
        }
      }
      PutNew(acc, k, v);
      assert acc + [(k, v)] + entries[1..] == acc + entries;
      PutAllFresh(acc + [(k, v)], entries[1..]);
    }
  }

  lemma {:induction false} PutNew<V>(t: Table<V>, k: string, v: V)
    requires k !in Keys(t)
    ensures Put(t, k, v) == t + [(k, v)]
  {
    if t != [] {
      assert Keys(t) == [t[0].0] + Keys(t[1..]);
      PutNew(t[1..], k, v);
    }
  }

  /**
   * With one leaf per symbol the returned dict holds exactly the leaves' paths,
   * in depth-first order, when the walk starts from a fresh empty dict.
   */
  lemma CodesArePaths(t: Tree)
    requires DistinctKeys(Leaves(t))
    ensures PutAll([], Paths(t, "")) == Paths(t, "")
  {
    PathsKeys(t, "");
    var p := Paths(t, "");
    forall i, j | 0 <= i < j < |p| ensures p[i].0 != p[j].0 {
      assert Keys(p)[i] == Keys(Leaves(t))[i] && Keys(p)[j] == Keys(Leaves(t))[j];
    }
    assert [] + p == p;
    PutAllFresh([], p);
  }

  /** Every path below `prefix` extends it, strictly when the tree is a node. */
  lemma {:induction false} PathsExtend(t: Tree, prefix: string)
    ensures forall e :: e in Paths(t, prefix) ==> IsPrefix(prefix, e.1)
    ensures t.Node? ==> forall e :: e in Paths(t, prefix) ==> |e.1| > |prefix|
  {
    match t
    case Leaf(s, f) =>
    case Node(_, l, r) =>
      PathsExtend(l, prefix + "0");
      PathsExtend(r, prefix + "1");
      forall e | e in Paths(t, prefix) ensures IsPrefix(prefix, e.1) && |e.1| > |prefix| {
        if e in Paths(l, prefix + "0") {
          assert e.1[..|prefix|] == (e.1[..|prefix| + 1])[..|prefix|];
        } else {
          assert e.1[..|prefix|] == (e.1[..|prefix| + 1])[..|prefix|];
        }
      }
  }

  /** No codeword is a prefix of another: the table is a prefix code. */
  predicate PrefixFree(t: CodeTable)
  {
    forall i, j :: 0 <= i < |t| && 0 <= j < |t| && i != j ==> !IsPrefix(t[i].1, t[j].1)
  }

  /** Two paths that part at position n, one with '0' and one with '1', are not prefixes of each other. */
  lemma Diverge(a: string, b: string, n: nat)
    requires n < |a| && n < |b| && a[n] == '0' && b[n] == '1'
    ensures !IsPrefix(a, b) && !IsPrefix(b, a)
  {
    if |a| <= |b| {
      assert b[..|a|][n] == b[n];
    }
    if |b| <= |a| {
      assert a[..|b|][n] == a[n];
    }
  }

  /** The paths to the leaves form a prefix code. */
  lemma {:induction false} PathsPrefixFree(t: Tree, prefix: string)
    ensures PrefixFree(Paths(t, prefix))
  {
    match t
    case Leaf(s, f) =>
    case Node(_, l, r) =>
      var a, b := Paths(l, prefix + "0"), Paths(r, prefix + "1");
      PathsPrefixFree(l, prefix + "0");
      PathsPrefixFree(r, prefix + "1");
      PathsExtend(l, prefix + "0");
      PathsExtend(r, prefix + "1");
      var p := a + b;
      forall i, j | 0 <= i < |p| && 0 <= j < |p| && i != j ensures !IsPrefix(p[i].1, p[j].1) {
        if i < |a| && j < |a| {
          assert p[i] == a[i] && p[j] == a[j];
        } else if i >= |a| && j >= |a| {
          assert p[i] == b[i - |a|] && p[j] == b[j - |a|];
        } else {
          var x, y := if i < |a| then p[i] else p[j], if i < |a| then p[j] else p[i];
          assert x in a && y in b;
          assert x.1[|prefix|] == (x.1[..|prefix| + 1])[|prefix|];
          assert y.1[|prefix|] == (y.1[..|prefix| + 1])[|prefix|];
          Diverge(x.1, y.1, |prefix|);
        }
      }
  }

  /** A lone leaf is given the empty path. */
  lemma LeafPath(s: string, f: nat)
    ensures Paths(Leaf(s, f), "") == [(s, "")]
  {
  }

  /** The leaf a sequence of turns leads to from the root, if it ends on one. */
  function Walk(t: Tree, bits: string): Option<string>
    decreases bits
  {
    match t
    case Leaf(s, _) => if bits == "" then Some(s) else None
    case Node(_, l, r) =>
      if bits == "" then None
      else if bits[0] == '0' then Walk(l, bits[1..])
      else if bits[0] == '1' then Walk(r, bits[1..])
      else None
  }

  /**
   * The path recorded for a symbol is exactly a root-to-leaf walk to a leaf
   * holding it: every entry is reached by walking its path, and every walk
   * that ends on a leaf is recorded.
   */
  lemma {:induction false} PathsAreWalks(t: Tree, prefix: string, s: string, bits: string)
    ensures (s, prefix + bits) in Paths(t, prefix) <==> Walk(t, bits) == Some(s)
    decreases t
  {
    match t
    case Leaf(sym, f) =>
      if bits == "" {
        assert prefix + bits == prefix;
      } else {
        assert |prefix + bits| != |prefix|;
      }
    case Node(_, l, r) =>
      var a, b := Paths(l, prefix + "0"), Paths(r, prefix + "1");
      PathsTurn(l, prefix, '0');
      PathsTurn(r, prefix, '1');
      if bits == "" {
        assert prefix + bits == prefix;
      } else {
        var c := bits[0];
        assert (prefix + bits)[|prefix|] == c;
        if c == '0' {
          assert prefix + bits == (prefix + "0") + bits[1..];
          PathsAreWalks(l, prefix + "0", s, bits[1..]);
        } else if c == '1' {
          assert prefix + bits == (prefix + "1") + bits[1..];
          PathsAreWalks(r, prefix + "1", s, bits[1..]);
        }
      }
  }

  /** Every path below a turn `c` taken after `prefix` has `c` right after the prefix. */
  lemma PathsTurn(t: Tree, prefix: string, c: char)
    ensures forall e :: e in Paths(t, prefix + [c]) ==> |e.1| > |prefix| && e.1[|prefix|] == c
  {
    PathsExtend(t, prefix + [c]);
    forall e | e in Paths(t, prefix + [c]) ensures |e.1| > |prefix| && e.1[|prefix|] == c {
      assert e.1[..|prefix| + 1][|prefix|] == c;
    }
  }
}
