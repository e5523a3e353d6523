/**
 * The Burrows-Wheeler Transform of huffman.py: the forward transform sorts all
 * cyclic rotations of the text and keeps their last characters and the rank of
 * the text itself; the inverse rebuilds the sorted rotations by prepending the
 * last column and re-sorting, once per character.
 */
module Bwt {

  import opened Wrappers
  import Seqs
  import LexOrder

  /** `text[i:] + text[:i]` */
  function Rotation(t: string, i: nat): string
    requires i <= |t|
  {
    t[i..] + t[..i]
  }

  function Rotations(t: string): (r: seq<string>)
    ensures |r| == |t|
    ensures forall i :: 0 <= i < |t| ==> r[i] == Rotation(t, i)
  {
    seq(|t|, i requires 0 <= i < |t| => Rotation(t, i))
  }

  /** `row[-1]`; every row it is applied to is non-empty. */
  function LastChar(s: string): char
  {
    if |s| == 0 then '\0' else s[|s| - 1]
  }

  /** Python's `list.index`: the first position holding `x`, if any. */
  function IndexOf(rows: seq<string>, x: string): (r: Option<nat>)
    ensures r.Some? ==> r.value < |rows| && rows[r.value] == x
    ensures r.Some? ==> forall j :: 0 <= j < r.value ==> rows[j] != x
    ensures r.None? <==> x !in rows
  {
    if rows == [] then None
    else if rows[0] == x then Some(0)
    else
      assert rows == [rows[0]] + rows[1..];
      match IndexOf(rows[1..], x)
      case None => None
      case Some(k) => Some(k + 1)
  }

  /** Sorted rotations of the text: the matrix `m` of `bwt_transform`. */
  function SortedRotations(t: string): (m: seq<string>)
    ensures |m| == |t|
  {
    LexOrder.Sort(Rotations(t))
  }

  /** The matrix holds every rotation as often as it occurs, in sorted order, and each row is as long as the text. */
  lemma SortedRotationsFacts(t: string)
    ensures multiset(SortedRotations(t)) == multiset(Rotations(t))
    ensures LexOrder.Sorted(SortedRotations(t))
    ensures forall i :: 0 <= i < |t| ==> |SortedRotations(t)[i]| == |t|
  {
    var m := SortedRotations(t);
    forall i | 0 <= i < |m| ensures |m[i]| == |t| {
      assert m[i] in multiset(Rotations(t));
    }
  }

  /**
   * `bwt_transform`: the last column of the sorted rotations and the rank of the
   * text among them. The empty text has no rotations, so `m.index(text)` fails.
   */
  function BwtTransform(t: string): (r: Result<(string, nat)>)
    ensures r.Err? <==> |t| == 0
    ensures r.Err? ==> r.error == NotInList
    ensures r.Ok? ==> |r.value.0| == |t| && multiset(r.value.0) == multiset(t)
    ensures r.Ok? ==> r.value.1 < |t| && SortedRotations(t)[r.value.1] == t
    ensures r.Ok? ==> forall j :: 0 <= j < r.value.1 ==> SortedRotations(t)[j] != t
  {
    var m := SortedRotations(t);
    var lastColumn := Seqs.Map(LastChar, m);
    if |t| > 0 then
      SortedRotationsFacts(t);
      assert Rotation(t, 0) == t;
      assert t in multiset(Rotations(t));
      LastColumnPermutes(t);
      Ok((lastColumn, IndexOf(m, t).value))
    else
      Err(NotInList)
  }

  /** Character p of rotation i, as an index into the text. */
  lemma RotationAt(t: string, i: nat, p: nat)
    requires i < |t| && p < |t|
    ensures Rotation(t, i)[p] == t[if i + p < |t| then i + p else i + p - |t|]
  {
  }

  /** The last column lists the characters of the text, each as often as it occurs. */
  lemma LastColumnPermutes(t: string)
    requires |t| > 0
    ensures multiset(Seqs.Map(LastChar, SortedRotations(t))) == multiset(t)
  {
    var rots := Rotations(t);
    SortedRotationsFacts(t);
    Seqs.MapPermutation(LastChar, SortedRotations(t), rots);
    forall j | 0 <= j < |t|
      ensures Seqs.Map(LastChar, rots)[j] == Seqs.CycleRight(t)[j]
    {
      RotationAt(t, j, |t| - 1);
    }
    assert Seqs.Map(LastChar, rots) == Seqs.CycleRight(t);
    Seqs.CycleRightPermutes(t);
  }

  /** `[last_column[i] + table[i] for i in range(n)]` */
  function Prepend(l: string, table: seq<string>): (r: seq<string>)
    requires |table| == |l|
    ensures |r| == |l|
    ensures forall i :: 0 <= i < |l| ==> r[i] == [l[i]] + table[i]
  {
    seq(|l|, i requires 0 <= i < |l| => [l[i]] + table[i])
  }

  /** The table of `bwt_inverse` after k prepend-and-sort rounds. */
  function InverseTable(l: string, k: nat): (r: seq<string>)
    ensures |r| == |l|
  {
    if k == 0 then seq(|l|, _ => "")
    else LexOrder.Sort(Prepend(l, InverseTable(l, k - 1)))
  }

  /** Python list subscript: negative positions count from the end. */
  function PyIndex(rows: seq<string>, index: int): (r: Result<string>)
    ensures r.Ok? <==> -|rows| <= index < |rows|
    ensures r.Ok? ==> r.value == rows[if index < 0 then |rows| + index else index]
    ensures r.Err? ==> r.error == IndexOutOfRange
  {
    if 0 <= index < |rows| then Ok(rows[index])
    else if -|rows| <= index < 0 then Ok(rows[|rows| + index])
    else Err(IndexOutOfRange)
  }

  /**
   * `bwt_inverse`: n rounds of prepending the last column to the rows and sorting;
   * the answer is the row at the recorded index. On the output of the forward
   * transform it gives back the original text.
   */
  method BwtInverse(lastColumn: string, index: int) returns (r: Result<string>)
    ensures r == PyIndex(InverseTable(lastColumn, |lastColumn|), index)
    ensures r.Ok? <==> -|lastColumn| <= index < |lastColumn|
    ensures forall t :: BwtTransform(t) == Ok((lastColumn, index)) ==> r == Ok(t)
  {
    var n := |lastColumn|;
    var table := seq(n, _ => "");
    for k := 0 to n
      invariant table == InverseTable(lastColumn, k)
    {
      table := LexOrder.Sort(Prepend(lastColumn, table));
    }
    r := PyIndex(table, index);
    forall t | BwtTransform(t) == Ok((lastColumn, index)) ensures r == Ok(t) {
      RoundTrip(t);
    }
  }

  /** `s[:k]` as a function value, for mapping over the rows. */
  function PrefixOf(k: nat): string -> string
  {
    s => if k <= |s| then s[..k] else s
  }

  /** One inverse round applied to a row: its last character, then its first k characters. */
  function StepOf(k: nat): string -> string
  {
    s => [LastChar(s)] + (if k <= |s| then s[..k] else s)
  }

  /** One inverse round turns rotation j, cut to k characters, into rotation j - 1 cut to k + 1. */
  lemma StepOnRotation(t: string, j: nat, k: nat)
    requires j < |t| && k < |t|
    ensures StepOf(k)(Rotation(t, j)) == PrefixOf(k + 1)(Rotation(t, if j == 0 then |t| - 1 else j - 1))
  {
    var n := |t|;
    var prev := if j == 0 then n - 1 else j - 1;
    var a, b := Rotation(t, j), Rotation(t, prev);
    var lhs, rhs := [LastChar(a)] + a[..k], b[..k + 1];
    RotationAt(t, j, n - 1);
    RotationAt(t, prev, 0);
    assert lhs[0] == rhs[0];
    forall p | 0 < p <= k ensures lhs[p] == rhs[p] {
      RotationAt(t, j, p - 1);
      RotationAt(t, prev, p);
    }
    assert lhs == rhs;
  }

  /** Rotating each rotation right by one and cutting it to k + 1 characters. */
  lemma StepOnRotations(t: string, k: nat)
    requires k < |t|
    ensures Seqs.Map(StepOf(k), Rotations(t)) == Seqs.Map(PrefixOf(k + 1), Seqs.CycleRight(Rotations(t)))
  {
    var rots := Rotations(t);
    var lhs := Seqs.Map(StepOf(k), rots);
    var rhs := Seqs.Map(PrefixOf(k + 1), Seqs.CycleRight(rots));
    forall j | 0 <= j < |t| ensures lhs[j] == rhs[j] {
      StepOnRotation(t, j, k);
    }
  }

  /** The rows of a sorted table, cut to a common length, are still sorted. */
  lemma PrefixesSorted(m: seq<string>, k: nat)
    requires LexOrder.Sorted(m)
    requires forall i :: 0 <= i < |m| ==> k <= |m[i]|
    ensures LexOrder.Sorted(Seqs.Map(PrefixOf(k), m))
  {
    var cut := Seqs.Map(PrefixOf(k), m);
    forall i, j | 0 <= i < j < |cut| ensures LexOrder.Le(cut[i], cut[j]) {
      LexOrder.LePrefixes(m[i], m[j], k);
    }
  }

  /**
   * After k rounds the inverse table holds the sorted rotations cut to their
   * first k characters.
   */
  lemma InverseTableRows(t: string, k: nat)
    requires 0 < |t| && k <= |t|
    ensures InverseTable(Seqs.Map(LastChar, SortedRotations(t)), k)
            == Seqs.Map(PrefixOf(k), SortedRotations(t))
  {
    var m := SortedRotations(t);
    var l := Seqs.Map(LastChar, m);
    NoRounds(l, m);
    var j := 0;
    while j < k
      invariant j <= k && InverseTable(l, j) == Seqs.Map(PrefixOf(j), m)
    {
      RoundSorts(t, j + 1, l, InverseTable(l, j));
      j := j + 1;
    }
  }

  /** Before any round every row is empty. */
  lemma NoRounds(l: string, m: seq<string>)
    requires |l| == |m|
    ensures InverseTable(l, 0) == Seqs.Map(PrefixOf(0), m)
  {
    assert forall i :: 0 <= i < |m| ==> Seqs.Map(PrefixOf(0), m)[i] == "";
  }

  /** Sorting the rows after a round gives the sorted rotations cut to one more character. */
  lemma RoundSorts(t: string, k: nat, l: string, table: seq<string>)
    requires 0 < k <= |t| && l == Seqs.Map(LastChar, SortedRotations(t))
    requires table == Seqs.Map(PrefixOf(k - 1), SortedRotations(t))
    ensures LexOrder.Sort(Prepend(l, table)) == Seqs.Map(PrefixOf(k), SortedRotations(t))
  {
    var m := SortedRotations(t);
    var rows := Prepend(l, table);
    PrependIsStep(l, m, k - 1, table);
    StepPermutes(t, k - 1);
    assert multiset(rows) == multiset(Seqs.Map(PrefixOf(k), m));
    SortedRotationsFacts(t);
    PrefixesSorted(m, k);
    LexOrder.SortPermutation(rows, Seqs.Map(PrefixOf(k), m));
  }

  /** Prepending the last column to rows cut to k characters is one round on each row. */
  lemma PrependIsStep(l: string, m: seq<string>, k: nat, table: seq<string>)
    requires l == Seqs.Map(LastChar, m) && table == Seqs.Map(PrefixOf(k), m)
    ensures Prepend(l, table) == Seqs.Map(StepOf(k), m)
  {
  }

  /** A round on every sorted rotation cut to k gives the sorted rotations cut to k + 1, in some order. */
  lemma StepPermutes(t: string, k: nat)
    requires k < |t|
    ensures multiset(Seqs.Map(StepOf(k), SortedRotations(t))) == multiset(Seqs.Map(PrefixOf(k + 1), SortedRotations(t)))
  {
    var m, rots := SortedRotations(t), Rotations(t);
    SortedRotationsFacts(t);
    Seqs.MapPermutation(StepOf(k), m, rots);
    StepOnRotations(t, k);
    Seqs.CycleRightPermutes(rots);
    Seqs.MapPermutation(PrefixOf(k + 1), Seqs.CycleRight(rots), m);
  }

  /** Cutting rows of length n to n characters leaves them as they are. */
  lemma FullPrefixes(m: seq<string>, n: nat)
    requires forall i :: 0 <= i < |m| ==> |m[i]| == n
    ensures Seqs.Map(PrefixOf(n), m) == m
  {
    var cut := Seqs.Map(PrefixOf(n), m);
    forall i | 0 <= i < |m| ensures cut[i] == m[i] {
      assert cut[i] == PrefixOf(n)(m[i]);
    }
  }

  /** `bwt_inverse(*bwt_transform(t)) == t` for every non-empty text. */
  lemma RoundTrip(t: string)
    requires BwtTransform(t).Ok?
    ensures PyIndex(InverseTable(BwtTransform(t).value.0, |t|), BwtTransform(t).value.1) == Ok(t)
  {
    var m := SortedRotations(t);
    var (l, k) := BwtTransform(t).value;
    assert l == Seqs.Map(LastChar, m);
    InverseTableRows(t, |t|);
    SortedRotationsFacts(t);
    FullPrefixes(m, |t|);
  }
}
