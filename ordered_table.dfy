/**
 * Python dictionaries keyed by strings. A dict remembers insertion order, and
 * huffman.py depends on it (the encoder sorts the keys stably by length), so a
 * table is the list of its entries in that order.
 */
module OrderedTable {

  import opened Wrappers
  import Seqs

  type Table<V> = seq<(string, V)>

  /** `list(d.keys())` */
  function Keys<V>(t: Table<V>): (ks: seq<string>)
    ensures |ks| == |t|
    ensures forall i :: 0 <= i < |t| ==> ks[i] == t[i].0
  {
    seq(|t|, i requires 0 <= i < |t| => t[i].0)
  }

  /** `list(d.values())` */
  function Values<V>(t: Table<V>): (vs: seq<V>)
    ensures |vs| == |t|
    ensures forall i :: 0 <= i < |t| ==> vs[i] == t[i].1
  {
    seq(|t|, i requires 0 <= i < |t| => t[i].1)
  }

  /** A real dict holds each key once. */
  predicate DistinctKeys<V>(t: Table<V>)
  {
    forall i, j :: 0 <= i < j < |t| ==> t[i].0 != t[j].0
  }

  /** `d.get(k)` */
  function Get<V>(t: Table<V>, k: string): Option<V>
  {
    if t == [] then None
    else if t[0].0 == k then Some(t[0].1)
    else Get(t[1..], k)
  }

  /** `d[k] = v`: an existing key keeps its place, a new key goes last. */
  function Put<V>(t: Table<V>, k: string, v: V): Table<V>
  {
    if t == [] then [(k, v)]
    else if t[0].0 == k then [(k, v)] + t[1..]
    else [t[0]] + Put(t[1..], k, v)
  }

  /** A lookup finds a key exactly when the table holds it, and then one of its entries. */
  lemma {:induction false} GetFacts<V>(t: Table<V>, k: string)
    ensures Get(t, k).None? <==> k !in Keys(t)
    ensures Get(t, k).Some? ==> (k, Get(t, k).value) in t
  {
    if t != [] {
      assert Keys(t) == [t[0].0] + Keys(t[1..]);
      if t[0].0 != k {
        GetFacts(t[1..], k);
      }
    }
  }

  /** After `d[k] = v`, k maps to v and every other key to what it mapped to before. */
  lemma {:induction false} GetPut<V>(t: Table<V>, k: string, v: V, k': string)
    ensures Get(Put(t, k, v), k') == if k' == k then Some(v) else Get(t, k')
  {
    if t != [] && t[0].0 != k {
      GetPut(t[1..], k, v, k');
    }
  }

  /** `d[k] = v` keeps the key order, appending k when it is new. */
  lemma {:induction false} PutKeys<V>(t: Table<V>, k: string, v: V)
    ensures Keys(Put(t, k, v)) == if k in Keys(t) then Keys(t) else Keys(t) + [k]
  {
    if t != [] {
      KeysCons(t);
      if t[0].0 == k {
        KeysCons(Put(t, k, v));
      } else {
        PutKeys(t[1..], k, v);
        KeysCons(Put(t, k, v));
        Seqs.AppendAssoc([t[0].0], Keys(t[1..]), [k]);
      }
    }
  }

  lemma KeysCons<V>(t: Table<V>)
    requires t != []
    ensures Keys(t) == [t[0].0] + Keys(t[1..])
  {
  }

  /** `d[k] = v` keeps the keys distinct. */
  lemma PutDistinct<V>(t: Table<V>, k: string, v: V)
    requires DistinctKeys(t)
    ensures DistinctKeys(Put(t, k, v))
  {
    PutKeys(t, k, v);
    var r := Put(t, k, v);
    forall i, j | 0 <= i < j < |r| ensures r[i].0 != r[j].0 {
      assert Keys(r)[i] == r[i].0 && Keys(r)[j] == r[j].0;
      if j == |t| {
        assert Keys(r)[j] == k && k !in Keys(t);
        assert Keys(r)[i] == Keys(t)[i];
      } else {
        assert Keys(r)[i] == Keys(t)[i] && Keys(r)[j] == Keys(t)[j];
      }
    }
  }

  /** Every entry after `d[k] = v` is the new one or an old one. */
  lemma {:induction false} PutEntries<V>(t: Table<V>, k: string, v: V)
    ensures forall e :: e in Put(t, k, v) ==> e == (k, v) || e in t
  {
    if t != [] && t[0].0 != k {
      PutEntries(t[1..], k, v);
    }
  }

  /** In a table with distinct keys, an entry is what `d[k]` returns. */
  lemma {:induction false} GetEntry<V>(t: Table<V>, i: nat)
    requires DistinctKeys(t) && i < |t|
    ensures Get(t, t[i].0) == Some(t[i].1)
  {
    if i > 0 {
      GetEntry(t[1..], i - 1);
    }
  }

  /** Reordering the entries of a table keeps its keys distinct. */
  lemma DistinctKeysPermutation<V>(a: Table<V>, b: Table<V>)
    requires multiset(a) == multiset(b) && DistinctKeys(a)
    ensures DistinctKeys(b)
  {
    forall i, j | 0 <= i < j < |b| ensures b[i].0 != b[j].0 {
      assert b[i] in multiset(a) && b[j] in multiset(a);
      var p :| 0 <= p < |a| && a[p] == b[i];
      var p' :| 0 <= p' < |a| && a[p'] == b[j];
      if p < p' {
        assert a[p].0 != a[p'].0;
      } else if p' < p {
        assert a[p'].0 != a[p].0;
      } else if b[i].0 == b[j].0 {
        Seqs.RepeatedCount(b, i, j);
        var q := Seqs.OtherOccurrence(a, p);
        assert false;
      }
    }
  }
}
