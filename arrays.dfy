/**
 * PHP arrays used as ordered maps from string keys: a table is the list of
 * its entries in insertion order. Covers the three array operations the
 * analyzer's scoring and classification rely on:
 *
 *   $t[$k] = $v      Put(t, k, v)
 *   arsort($t)       ArSort(t)    (stable since PHP 8.0)
 *
 * `key()` of the sorted array is taken in module `Sentiment` (Classify).
 */
module PhpArrays {

  datatype Option<T> = None | Some(value: T)

  type Table<V> = seq<(string, V)>

  /** The keys of a table, in order. */
  function Keys<V>(t: Table<V>): (ks: seq<string>)
    ensures |ks| == |t|
    ensures forall i :: 0 <= i < |t| ==> ks[i] == t[i].0
  {
    if t == [] then [] else [t[0].0] + Keys(t[1..])
  }

  /** What every PHP array satisfies: no key appears twice. */
  predicate DistinctKeys<V>(t: Table<V>)
  {
    forall i, j :: 0 <= i < j < |t| ==> t[i].0 != t[j].0
  }

  /** The position of the key `k` in the table. */
  function IndexOfKey<V>(t: Table<V>, k: string): (i: nat)
    requires k in Keys(t)
    ensures i < |t| && t[i].0 == k
  {
    if t[0].0 == k then 0
    else
      assert Keys(t)[1..] == Keys(t[1..]);
      1 + IndexOfKey(t[1..], k)
  }

  /** `$t[$k] = $v`: an existing key keeps its position and takes the new
      value; a new key is appended at the end. */
  function Put<V>(t: Table<V>, k: string, v: V): (r: Table<V>)
    requires DistinctKeys(t)
    ensures DistinctKeys(r)
    ensures Keys(r) == if k in Keys(t) then Keys(t) else Keys(t) + [k]
    ensures forall i :: 0 <= i < |r| ==> if r[i].0 == k then r[i].1 == v else r[i] in t
  {
    if k in Keys(t) then
      var i := IndexOfKey(t, k);
      var r := t[i := (k, v)];
      assert forall j :: 0 <= j < |r| ==> r[j].0 == t[j].0;
      assert Keys(r) == Keys(t);
      r
    else
      var r := t + [(k, v)];
      assert forall j :: 0 <= j < |t| ==> r[j] == t[j] && t[j].0 == Keys(t)[j];
      assert Keys(r) == Keys(t) + [k];
      r
  }

  /** The distinct elements of `s`, in order of their first occurrence. */
  function Dedup(s: seq<string>): (r: seq<string>)
    ensures forall x :: x in r <==> x in s
    ensures forall i, j :: 0 <= i < j < |r| ==> r[i] != r[j]
  {
    if s == [] then []
    else
      var d := Dedup(s[..|s| - 1]);
      assert s == s[..|s| - 1] + [s[|s| - 1]];
      if s[|s| - 1] in d then d else d + [s[|s| - 1]]
  }

  /** The first-occurrence order of a prefix is a prefix of the whole order. */
  lemma {:induction false} DedupPrefix(s: seq<string>, n: nat)
    requires n <= |s|
    ensures Dedup(s[..n]) <= Dedup(s)
    decreases |s| - n
  {
    if n < |s| {
      DedupPrefix(s, n + 1);
      var p := s[..n + 1];
      assert p[..|p| - 1] == s[..n];
    } else {
      assert s[..n] == s;
    }
  }

  // ---------------------------------------------------------------------------
  // arsort and key()
  // ---------------------------------------------------------------------------

  /** Entries in non-increasing order of value. */
  predicate SortedDesc(t: Table<real>)
  {
    forall i, j :: 0 <= i < j < |t| ==> t[i].1 >= t[j].1
  }

  /** `m` is the first position holding the largest value of `t`. */
  predicate IsFirstMax(t: Table<real>, m: int)
  {
    && 0 <= m < |t|
    && (forall i :: 0 <= i < |t| ==> t[i].1 <= t[m].1)
    && (forall i :: 0 <= i < m ==> t[i].1 < t[m].1)
  }

  /** The first position of the largest value, found without sorting. */
  function FirstMaxIndex(t: Table<real>): (m: nat)
    requires t != []
    ensures IsFirstMax(t, m)
  {
    if |t| == 1 then 0
    else
      var p := t[..|t| - 1];
      var m := FirstMaxIndex(p);
      assert forall i :: 0 <= i < |p| ==> p[i] == t[i];
      if t[|t| - 1].1 > t[m].1 then |t| - 1 else m
  }

  /** Inserts `x` into a table sorted by decreasing value, after every entry
      whose value is at least that of `x` (this is what keeps the sort stable). */
  function Insert(x: (string, real), t: Table<real>): (r: Table<real>)
    ensures |r| == |t| + 1
    decreases |t|
  {
    if t == [] then [x]
    else if x.1 > t[0].1 then [x] + t
    else [t[0]] + Insert(x, t[1..])
  }

  /** Inserting adds exactly the one entry `x`. */
  lemma {:induction false} InsertPermutation(x: (string, real), t: Table<real>)
    ensures multiset(Insert(x, t)) == multiset(t) + multiset{x}
    decreases |t|
  {
    if t != [] && x.1 <= t[0].1 {
      InsertPermutation(x, t[1..]);
      assert t == [t[0]] + t[1..];
    }
  }

  /** `arsort`: entries by decreasing value, equal values in their original
      order (an insertion sort; any sort that keeps equal values in their
      original order gives the same result). */
  function ArSort(t: Table<real>): (r: Table<real>)
    ensures |r| == |t|
  {
    if t == [] then []
    else
      Insert(t[|t| - 1], ArSort(t[..|t| - 1]))
  }

  lemma {:induction false} InsertSorted(x: (string, real), t: Table<real>)
    requires SortedDesc(t)
    ensures SortedDesc(Insert(x, t))
    ensures Insert(x, t)[0] == if t != [] && x.1 <= t[0].1 then t[0] else x
    decreases |t|
  {
    if t != [] && x.1 <= t[0].1 {
      InsertSorted(x, t[1..]);
      InsertPermutation(x, t[1..]);
      var r := Insert(x, t[1..]);
      forall j | 0 <= j < |r| ensures t[0].1 >= r[j].1 {
        assert r[j] in multiset(r);
        assert r[j] == x || r[j] in multiset(t[1..]);
      }
    }
  }

  /** `arsort` only reorders the entries. */
  lemma {:induction false} ArSortPermutation(t: Table<real>)
    ensures multiset(ArSort(t)) == multiset(t)
  {
    if t != [] {
      var p := t[..|t| - 1];
      ArSortPermutation(p);
      InsertPermutation(t[|t| - 1], ArSort(p));
      assert t == p + [t[|t| - 1]];
    }
  }

  /** `arsort` puts the entries in non-increasing order of value. */
  lemma {:induction false} ArSortSorted(t: Table<real>)
    ensures SortedDesc(ArSort(t))
  {
    if t != [] {
      ArSortSorted(t[..|t| - 1]);
      InsertSorted(t[|t| - 1], ArSort(t[..|t| - 1]));
    }
  }

  /** After `arsort`, the first entry is the earliest entry with the largest
      value: equal values keep their original order. */
  lemma {:induction false} ArSortHead(t: Table<real>)
    requires t != []
    ensures ArSort(t)[0] == t[FirstMaxIndex(t)]
  {
    var p := t[..|t| - 1];
    var x := t[|t| - 1];
    if |t| == 1 {
    } else {
      ArSortHead(p);
      ArSortSorted(p);
      InsertSorted(x, ArSort(p));
      assert t[FirstMaxIndex(p)] == p[FirstMaxIndex(p)];
    }
  }

  /** At most one position is the first position of the largest value. */
  lemma FirstMaxUnique(t: Table<real>, m1: int, m2: int)
    requires IsFirstMax(t, m1) && IsFirstMax(t, m2)
    ensures m1 == m2
  {
    assert t[m1].1 == t[m2].1;
  }

  /** The entries of `t` whose value is `v`, in their order in `t`. */
  function WithValue(t: Table<real>, v: real): Table<real>
  {
    if t == [] then []
    else (if t[0].1 == v then [t[0]] else []) + WithValue(t[1..], v)
  }

  lemma {:induction false} WithValueAppend(a: Table<real>, b: Table<real>, v: real)
    ensures WithValue(a + b, v) == WithValue(a, v) + WithValue(b, v)
    decreases |a|
  {
    if a == [] {
      assert a + b == b;
    } else {
      var h := if a[0].1 == v then [a[0]] else [];
      assert (a + b)[0] == a[0] && (a + b)[1..] == a[1..] + b;
      assert WithValue(a + b, v) == h + WithValue(a[1..] + b, v);
      WithValueAppend(a[1..], b, v);
      assert WithValue(a, v) == h + WithValue(a[1..], v);
      assert h + (WithValue(a[1..], v) + WithValue(b, v)) == (h + WithValue(a[1..], v)) + WithValue(b, v);
    }
  }

  lemma {:induction false} WithValueNone(t: Table<real>, v: real)
    requires forall k :: 0 <= k < |t| ==> t[k].1 != v
    ensures WithValue(t, v) == []
    decreases |t|
  {
    if t != [] { WithValueNone(t[1..], v); }
  }

  /** An entry put in front of a sorted table whose values are all smaller
      comes, among the entries of its value, last. */
  lemma WithValueFront(x: (string, real), t: Table<real>, v: real)
    requires SortedDesc(t) && t != [] && x.1 > t[0].1
    ensures WithValue([x] + t, v) == WithValue(t, v) + (if x.1 == v then [x] else [])
  {
    var r := [x] + t;
    assert r[0] == x && r[1..] == t;
    if x.1 == v {
      assert forall k :: 0 <= k < |t| ==> t[k].1 <= t[0].1;
      WithValueNone(t, v);
    }
  }

  /** Inserting `x` into a sorted table puts it after every entry of equal value. */
  lemma {:induction false} InsertWithValue(x: (string, real), t: Table<real>, v: real)
    requires SortedDesc(t)
    ensures WithValue(Insert(x, t), v) == WithValue(t, v) + (if x.1 == v then [x] else [])
    decreases |t|
  {
    var tail := if x.1 == v then [x] else [];
    if t == [] {
      assert WithValue([x], v) == tail + WithValue([], v);
    } else if x.1 > t[0].1 {
      assert Insert(x, t) == [x] + t;
      WithValueFront(x, t, v);
    } else {
      var rest := Insert(x, t[1..]);
      var r := [t[0]] + rest;
      assert r[0] == t[0] && r[1..] == rest;
      var head := if t[0].1 == v then [t[0]] else [];
      assert WithValue(r, v) == head + WithValue(rest, v);
      assert Insert(x, t) == r;
      InsertWithValue(x, t[1..], v);
      assert WithValue(rest, v) == WithValue(t[1..], v) + tail;
      assert WithValue(t, v) == head + WithValue(t[1..], v);
      assert head + (WithValue(t[1..], v) + tail) == (head + WithValue(t[1..], v)) + tail;
    }
  }

  /** `arsort` is stable: for every value, the entries holding it come out in
      the order they went in. */
  lemma {:induction false} ArSortStable(t: Table<real>, v: real)
    ensures WithValue(ArSort(t), v) == WithValue(t, v)
  {
    if t != [] {
      var p := t[..|t| - 1];
      var x := t[|t| - 1];
      ArSortStable(p, v);
      ArSortSorted(p);
      InsertWithValue(x, ArSort(p), v);
      assert t == p + [x];
      WithValueAppend(p, [x], v);
      assert [x][1..] == [];
    }
  }
}
