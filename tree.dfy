/**
 * `HuffmanNode` and `build_huffman_tree`. A node is never changed after it is
 * built, so it is a value: a leaf carries a symbol and its frequency, an
 * internal node its frequency and two children (the source's `symbol=None`).
 */
module HuffmanTree {

  import opened Wrappers
  import opened OrderedTable

  datatype Tree =
    | Leaf(sym: string, freq: nat)
    | Node(freq: nat, left: Tree, right: Tree)

  /** Every internal node weighs what its two children weigh together. */
  predicate WellFormed(t: Tree)
  {
    match t
    case Leaf(_, _) => true
    case Node(f, l, r) => f == l.freq + r.freq && WellFormed(l) && WellFormed(r)
  }

  /** The (symbol, frequency) pairs at the leaves, left to right. */
  function Leaves(t: Tree): seq<(string, nat)>
  {
    match t
    case Leaf(s, f) => [(s, f)]
    case Node(_, l, r) => Leaves(l) + Leaves(r)
  }

  /** The leaves of every tree of a forest, tree after tree. */
  function LeavesOf(heap: seq<Tree>): seq<(string, nat)>
  {
    if heap == [] then [] else LeavesOf(heap[..|heap| - 1]) + Leaves(heap[|heap| - 1])
  }

  /** Total frequency of a forest. */
  function Weight(heap: seq<Tree>): nat
  {
    if heap == [] then 0 else Weight(heap[..|heap| - 1]) + heap[|heap| - 1].freq
  }

  /** Total count of a frequency table. */
  function Total(t: Table<nat>): nat
  {
    if t == [] then 0 else Total(t[..|t| - 1]) + t[|t| - 1].1
  }

  /** The weight of a well-formed tree is the total count at its leaves. */
  lemma {:induction false} WeightOfLeaves(t: Tree)
    requires WellFormed(t)
    ensures t.freq == Total(Leaves(t))
  {
    match t
    case Leaf(s, f) =>
      assert Leaves(t)[..0] == [];
    case Node(f, l, r) =>
      WeightOfLeaves(l);
      WeightOfLeaves(r);
      TotalConcat(Leaves(l), Leaves(r));
  }

  lemma {:induction false} TotalConcat(a: Table<nat>, b: Table<nat>)
    ensures Total(a + b) == Total(a) + Total(b)
    decreases |b|
  {
    if b == [] {
      assert a + b == a;
    } else {
      assert (a + b)[..|a + b| - 1] == a + b[..|b| - 1];
      TotalConcat(a, b[..|b| - 1]);
    }
  }

  /** Position of the lightest tree, the earliest one among equally light trees. */
  function MinIndex(heap: seq<Tree>): (k: nat)
    requires |heap| > 0
    ensures k < |heap|
    ensures forall j :: 0 <= j < |heap| ==> heap[k].freq <= heap[j].freq
    ensures forall j :: 0 <= j < k ==> heap[j].freq > heap[k].freq
  {
    if |heap| == 1 then 0
    else
      var k := MinIndex(heap[1..]);
      if heap[0].freq <= heap[1..][k].freq then 0 else k + 1
  }

  /** The forest without the tree at position k. */
  function Remove(heap: seq<Tree>, k: nat): (r: seq<Tree>)
    requires k < |heap|
    ensures |r| == |heap| - 1
  {
    heap[..k] + heap[k + 1..]
  }

  lemma {:induction false} LeavesOfConcat(a: seq<Tree>, b: seq<Tree>)
    ensures LeavesOf(a + b) == LeavesOf(a) + LeavesOf(b)
    decreases |b|
  {
    if b == [] {
      assert a + b == a;
    } else {
      assert (a + b)[..|a + b| - 1] == a + b[..|b| - 1];
      LeavesOfConcat(a, b[..|b| - 1]);
    }
  }

  lemma {:induction false} WeightConcat(a: seq<Tree>, b: seq<Tree>)
    ensures Weight(a + b) == Weight(a) + Weight(b)
    decreases |b|
  {
    if b == [] {
      assert a + b == a;
    } else {
      assert (a + b)[..|a + b| - 1] == a + b[..|b| - 1];
      WeightConcat(a, b[..|b| - 1]);
    }
  }

  /** Taking a tree out of a forest takes out its leaves. */
  lemma RemoveLeaves(heap: seq<Tree>, k: nat)
    requires k < |heap|
    ensures multiset(LeavesOf(heap)) == multiset(LeavesOf(Remove(heap, k))) + multiset(Leaves(heap[k]))
  {
    var pre, x, post := heap[..k], heap[k], heap[k + 1..];
    SplitAt(heap, k);
    LeavesOfConcat(pre + [x], post);
    PushOneLeaves(pre, x);
    LeavesOfConcat(pre, post);
    MultisetMiddle(LeavesOf(pre), Leaves(x), LeavesOf(post));
  }

  lemma SplitAt<T>(s: seq<T>, k: nat)
    requires k < |s|
    ensures s == (s[..k] + [s[k]]) + s[k + 1..]
  {
    assert s[..k + 1] == s[..k] + [s[k]];
    assert s == s[..k + 1] + s[k + 1..];
  }

  lemma PushOneLeaves(heap: seq<Tree>, t: Tree)
    ensures LeavesOf(heap + [t]) == LeavesOf(heap) + Leaves(t)
  {
    assert (heap + [t])[..|heap|] == heap;
  }

  lemma MultisetMiddle<T>(a: seq<T>, b: seq<T>, c: seq<T>)
    ensures multiset((a + b) + c) == multiset(a + c) + multiset(b)
  {
  }

  /** Taking a tree out of a forest takes out its weight. */
  lemma RemoveWeight(heap: seq<Tree>, k: nat)
    requires k < |heap|
    ensures Weight(heap) == Weight(Remove(heap, k)) + heap[k].freq
  {
    var pre, x, post := heap[..k], heap[k], heap[k + 1..];
    SplitAt(heap, k);
    WeightConcat(pre + [x], post);
    PushLeaves(pre, x);
    WeightConcat(pre, post);
  }

  /** Pushing a tree onto a forest adds its leaves and its weight. */
  lemma PushLeaves(heap: seq<Tree>, t: Tree)
    ensures LeavesOf(heap + [t]) == LeavesOf(heap) + Leaves(t)
    ensures Weight(heap + [t]) == Weight(heap) + t.freq
  {
    assert (heap + [t])[..|heap|] == heap;
  }

  /** The forest of one leaf per table entry. */
  function Singletons(freqs: Table<nat>): (heap: seq<Tree>)
    ensures |heap| == |freqs|
    ensures forall i :: 0 <= i < |freqs| ==> heap[i] == Leaf(freqs[i].0, freqs[i].1)
  {
    seq(|freqs|, i requires 0 <= i < |freqs| => Leaf(freqs[i].0, freqs[i].1))
  }

  lemma {:induction false} SingletonsLeaves(freqs: Table<nat>)
    ensures LeavesOf(Singletons(freqs)) == freqs
    ensures Weight(Singletons(freqs)) == Total(freqs)
    decreases |freqs|
  {
    if freqs != [] {
      var n := |freqs| - 1;
      assert Singletons(freqs)[..n] == Singletons(freqs[..n]);
      SingletonsLeaves(freqs[..n]);
      assert freqs == freqs[..n] + [freqs[n]];
    }
  }

  /** What the builder's forest keeps: well-formed trees holding exactly the table's entries. */
  predicate Holds(heap: seq<Tree>, freqs: Table<nat>)
  {
    && (forall i :: 0 <= i < |heap| ==> WellFormed(heap[i]))
    && multiset(LeavesOf(heap)) == multiset(freqs)
    && Weight(heap) == Total(freqs)
  }

  /** Merging two trees taken out of the forest into one keeps `Holds`. */
  lemma MergeKeeps(heap: seq<Tree>, freqs: Table<nat>, k1: nat, k2: nat)
    requires Holds(heap, freqs) && k1 < |heap| && k2 < |heap| - 1
    ensures var rest1 := Remove(heap, k1);
            var node := Node(heap[k1].freq + rest1[k2].freq, heap[k1], rest1[k2]);
            Holds(Remove(rest1, k2) + [node], freqs)
  {
    MergeWellFormed(heap, k1, k2);
    MergeLeaves(heap, k1, k2);
    MergeWeight(heap, k1, k2);
  }

  lemma MergeWellFormed(heap: seq<Tree>, k1: nat, k2: nat)
    requires k1 < |heap| && k2 < |heap| - 1 && forall i :: 0 <= i < |heap| ==> WellFormed(heap[i])
    ensures var rest1 := Remove(heap, k1);
            var next := Remove(rest1, k2) + [Node(heap[k1].freq + rest1[k2].freq, heap[k1], rest1[k2])];
            forall i :: 0 <= i < |next| ==> WellFormed(next[i])
  {
    var rest1 := Remove(heap, k1);
    var n1, n2 := heap[k1], rest1[k2];
    RemoveWellFormed(heap, k1);
    RemoveWellFormed(rest1, k2);
    assert WellFormed(Node(n1.freq + n2.freq, n1, n2));
    PushWellFormed(Remove(rest1, k2), Node(n1.freq + n2.freq, n1, n2));
  }

  lemma MergeWeight(heap: seq<Tree>, k1: nat, k2: nat)
    requires k1 < |heap| && k2 < |heap| - 1
    ensures var rest1 := Remove(heap, k1);
            Weight(Remove(rest1, k2) + [Node(heap[k1].freq + rest1[k2].freq, heap[k1], rest1[k2])]) == Weight(heap)
  {
    var rest1 := Remove(heap, k1);
    var rest2 := Remove(rest1, k2);
    var node := Node(heap[k1].freq + rest1[k2].freq, heap[k1], rest1[k2]);
    RemoveWeight(heap, k1);
    RemoveWeight(rest1, k2);
    PushLeaves(rest2, node);
  }

  lemma MergeLeaves(heap: seq<Tree>, k1: nat, k2: nat)
    requires k1 < |heap| && k2 < |heap| - 1
    ensures var rest1 := Remove(heap, k1);
            var node := Node(heap[k1].freq + rest1[k2].freq, heap[k1], rest1[k2]);
            multiset(LeavesOf(Remove(rest1, k2) + [node])) == multiset(LeavesOf(heap))
  {
    var rest1 := Remove(heap, k1);
    var rest2 := Remove(rest1, k2);
    var n1, n2 := heap[k1], rest1[k2];
    var node := Node(n1.freq + n2.freq, n1, n2);
    RemoveLeaves(heap, k1);
    RemoveLeaves(rest1, k2);
    PushNodeLeaves(rest2, node);
    Regroup(multiset(LeavesOf(heap)), multiset(LeavesOf(rest1)), multiset(LeavesOf(rest2)),
            multiset(LeavesOf(rest2 + [node])), multiset(Leaves(n1)), multiset(Leaves(n2)));
  }

  lemma Regroup<T>(h: multiset<T>, r1: multiset<T>, r2: multiset<T>, next: multiset<T>, b: multiset<T>, c: multiset<T>)
    requires h == r1 + b && r1 == r2 + c && next == r2 + b + c
    ensures next == h
  {
  }

  /** Pushing a node adds the leaves of both its children. */
  lemma PushNodeLeaves(heap: seq<Tree>, node: Tree)
    requires node.Node?
    ensures multiset(LeavesOf(heap + [node])) == multiset(LeavesOf(heap)) + multiset(Leaves(node.left)) + multiset(Leaves(node.right))
  {
    PushOneLeaves(heap, node);
    var a, b, c := LeavesOf(heap), Leaves(node.left), Leaves(node.right);
    assert Leaves(node) == b + c;
    assert multiset(a + (b + c)) == multiset(a) + multiset(b) + multiset(c);
  }

  lemma RemoveWellFormed(heap: seq<Tree>, k: nat)
    requires k < |heap| && forall i :: 0 <= i < |heap| ==> WellFormed(heap[i])
    ensures WellFormed(heap[k])
    ensures forall i :: 0 <= i < |heap| - 1 ==> WellFormed(Remove(heap, k)[i])
  {
    forall i | 0 <= i < |heap| - 1 ensures WellFormed(Remove(heap, k)[i]) {
      assert Remove(heap, k)[i] == if i < k then heap[i] else heap[i + 1];
    }
  }

  lemma PushWellFormed(heap: seq<Tree>, t: Tree)
    requires WellFormed(t) && forall i :: 0 <= i < |heap| ==> WellFormed(heap[i])
    ensures forall i :: 0 <= i < |heap| + 1 ==> WellFormed((heap + [t])[i])
  {
  }

  /** One round of the loop: pop the two lightest trees and push their merge. */
  function Step(heap: seq<Tree>): (next: seq<Tree>)
    requires |heap| > 1
    ensures |next| == |heap| - 1 && next[|next| - 1].Node?
  {
    var k1 := MinIndex(heap);
    var rest1 := Remove(heap, k1);
    var k2 := MinIndex(rest1);
    Remove(rest1, k2) + [Node(heap[k1].freq + rest1[k2].freq, heap[k1], rest1[k2])]
  }

  /** The forest once rounds have run until at most one tree is left. */
  function Rounds(heap: seq<Tree>): (last: seq<Tree>)
    ensures |last| == if |heap| == 0 then 0 else 1
    decreases |heap|
  {
    if |heap| <= 1 then heap else Rounds(Step(heap))
  }

  /**
   * `build_huffman_tree`: merge the two lightest trees until one is left. The
   * root weighs the table's total, every internal node weighs its children
   * together, and the leaves are the table's entries; a table of one entry
   * gives a leaf root and a larger one an internal root. On an empty table
   * `heap[0]` fails.
   */
  method BuildHuffmanTree(freqs: Table<nat>) returns (r: Result<Tree>)
    ensures r.Err? <==> freqs == []
    ensures r.Ok? ==> r.value == Rounds(Singletons(freqs))[0]
    ensures r.Err? ==> r.error == EmptyHeap
    ensures r.Ok? ==> WellFormed(r.value)
    ensures r.Ok? ==> multiset(Leaves(r.value)) == multiset(freqs)
    ensures r.Ok? ==> r.value.freq == Total(freqs)
    ensures r.Ok? ==> (r.value.Leaf? <==> |freqs| == 1)
  {
    var heap := Singletons(freqs);
    SingletonsHold(freqs);
    ghost var merged := false;
    ghost var goal := Rounds(heap);
    while |heap| > 1
      invariant merged ==> |freqs| > 1 && |heap| >= 1 && heap[|heap| - 1].Node?
      invariant !merged ==> |heap| == |freqs| && (|heap| > 0 ==> heap[0].Leaf?)
      invariant Holds(heap, freqs)
      invariant Rounds(heap) == goal
      decreases |heap|
    {
      StepKeeps(heap, freqs);
      var node1, node2;
      node1, node2, heap := MergeLightest(heap);
      merged := true;
    }
    if |heap| == 0 {
      return Err(EmptyHeap);
    }
    OneTree(heap, freqs);
    r := Ok(heap[0]);
  }

  /**
   * The loop body: `heappop` twice, the lightest tree and then the lightest of
   * the rest, and `heappush` of the node over them that weighs both.
   */
  method MergeLightest(heap: seq<Tree>) returns (node1: Tree, node2: Tree, next: seq<Tree>)
    requires |heap| > 1
    ensures node1 in heap && forall t :: t in multiset(heap) ==> node1.freq <= t.freq
    ensures node2 in multiset(heap) - multiset{node1}
    ensures forall t :: t in multiset(heap) - multiset{node1} ==> node2.freq <= t.freq
    ensures multiset(next) == multiset(heap) - multiset{node1, node2} + multiset{Node(node1.freq + node2.freq, node1, node2)}
    ensures next == Step(heap)
  {
    var k1 := MinIndex(heap);
    var rest1;
    node1, rest1 := heap[k1], Remove(heap, k1);
    var k2 := MinIndex(rest1);
    var rest2;
    node2, rest2 := rest1[k2], Remove(rest1, k2);
    next := rest2 + [Node(node1.freq + node2.freq, node1, node2)];
    PoppedStep(heap, node1, node2, next);
    PopTwo(heap, node1, node2, next);
  }

  /** What the two pops take out of the forest, and what the push leaves in it. */
  lemma PopTwo(heap: seq<Tree>, node1: Tree, node2: Tree, next: seq<Tree>)
    requires |heap| > 1 && node1 == heap[MinIndex(heap)]
    requires node2 == Remove(heap, MinIndex(heap))[MinIndex(Remove(heap, MinIndex(heap)))]
    requires next == Remove(Remove(heap, MinIndex(heap)), MinIndex(Remove(heap, MinIndex(heap)))) + [Node(node1.freq + node2.freq, node1, node2)]
    ensures node1 in heap && forall t :: t in multiset(heap) ==> node1.freq <= t.freq
    ensures node2 in multiset(heap) - multiset{node1}
    ensures forall t :: t in multiset(heap) - multiset{node1} ==> node2.freq <= t.freq
    ensures multiset(next) == multiset(heap) - multiset{node1, node2} + multiset{Node(node1.freq + node2.freq, node1, node2)}
  {
    var k1 := MinIndex(heap);
    var rest1 := Remove(heap, k1);
    var k2 := MinIndex(rest1);
    var rest2 := Remove(rest1, k2);
    PopLightest(heap);
    RemoveMultiset(heap, k1);
    PopLightest(rest1);
    RemoveMultiset(rest1, k2);
    MergeMultiset(heap, rest1, rest2, node1, node2, Node(node1.freq + node2.freq, node1, node2));
  }

  /** The two pops and the push are the round `Step` describes. */
  lemma PoppedStep(heap: seq<Tree>, node1: Tree, node2: Tree, next: seq<Tree>)
    requires |heap| > 1 && node1 == heap[MinIndex(heap)]
    requires node2 == Remove(heap, MinIndex(heap))[MinIndex(Remove(heap, MinIndex(heap)))]
    requires next == Remove(Remove(heap, MinIndex(heap)), MinIndex(Remove(heap, MinIndex(heap)))) + [Node(node1.freq + node2.freq, node1, node2)]
    ensures next == Step(heap)
  {
  }

  /** The tree `MinIndex` picks is in the forest and weighs no more than any tree of it. */
  lemma PopLightest(heap: seq<Tree>)
    requires |heap| > 0
    ensures heap[MinIndex(heap)] in heap
    ensures forall t :: t in multiset(heap) ==> heap[MinIndex(heap)].freq <= t.freq
  {
    forall t | t in multiset(heap) ensures heap[MinIndex(heap)].freq <= t.freq {
      var j :| 0 <= j < |heap| && heap[j] == t;
    }
  }

  /** The round takes the two trees out of the multiset and puts their merge in. */
  lemma MergeMultiset(heap: seq<Tree>, rest1: seq<Tree>, rest2: seq<Tree>, n1: Tree, n2: Tree, node: Tree)
    requires n1 in multiset(heap) && multiset(rest1) == multiset(heap) - multiset{n1}
    requires n2 in multiset(rest1) && multiset(rest2) == multiset(rest1) - multiset{n2}
    ensures multiset(rest2 + [node]) == multiset(heap) - multiset{n1, n2} + multiset{node}
  {
    MinusTwo(multiset(heap), n1, n2);
  }

  /** Taking the tree at position k out of a forest takes one copy of it out of the multiset. */
  lemma RemoveMultiset(heap: seq<Tree>, k: nat)
    requires k < |heap|
    ensures multiset(Remove(heap, k)) == multiset(heap) - multiset{heap[k]}
  {
    SplitAt(heap, k);
    MultisetMiddle(heap[..k], [heap[k]], heap[k + 1..]);
  }

  lemma MinusTwo<T>(a: multiset<T>, x: T, y: T)
    requires x in a && y in a - multiset{x}
    ensures a - multiset{x} - multiset{y} == a - multiset{x, y}
  {
  }

  /** A round keeps `Holds`. */
  lemma StepKeeps(heap: seq<Tree>, freqs: Table<nat>)
    requires |heap| > 1 && Holds(heap, freqs)
    ensures Holds(Step(heap), freqs)
  {
    MergeKeeps(heap, freqs, MinIndex(heap), MinIndex(Remove(heap, MinIndex(heap))));
  }

  lemma SingletonsHold(freqs: Table<nat>)
    ensures Holds(Singletons(freqs), freqs)
  {
    SingletonsLeaves(freqs);
  }

  lemma OneTree(heap: seq<Tree>, freqs: Table<nat>)
    requires |heap| == 1 && Holds(heap, freqs)
    ensures WellFormed(heap[0]) && multiset(Leaves(heap[0])) == multiset(freqs)
    ensures heap[0].freq == Total(freqs)
  {
    assert heap == [] + [heap[0]];
    PushLeaves([], heap[0]);
  }
}
