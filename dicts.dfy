/** Python dictionaries whose order matters, as association lists in insertion order.
    Assigning to a present key replaces its value in place; assigning to an absent
    key appends it, as `d[k] = v` does. */
module Dicts {
  import opened Text

  type Dict<K, V> = seq<(K, V)>

  function KeysOf<K, V>(d: Dict<K, V>): (ks: seq<K>)
    ensures |ks| == |d|
    ensures forall i :: 0 <= i < |d| ==> ks[i] == d[i].0
  {
    if d == [] then [] else [d[0].0] + KeysOf(d[1..])
  }

  predicate HasKey<K(==), V>(d: Dict<K, V>, k: K)
  {
    k in KeysOf(d)
  }

  predicate UniqueKeys<K(==), V>(d: Dict<K, V>)
  {
    forall i, j :: 0 <= i < j < |d| ==> d[i].0 != d[j].0
  }

  lemma HasKeyCons<K, V>(d: Dict<K, V>, k: K)
    requires d != []
    ensures HasKey(d, k) <==> d[0].0 == k || HasKey(d[1..], k)
  {
    if HasKey(d, k) && d[0].0 != k {
      var i :| 0 <= i < |d| && KeysOf(d)[i] == k;
      assert KeysOf(d[1..])[i - 1] == k;
    }
    if HasKey(d[1..], k) {
      var i :| 0 <= i < |d| - 1 && KeysOf(d[1..])[i] == k;
      assert KeysOf(d)[i + 1] == k;
    }
  }

  /** `d[k]`: the value stored under k. */
  function Get<K(==), V>(d: Dict<K, V>, k: K): V
    requires HasKey(d, k)
  {
    HasKeyCons(d, k);
    if d[0].0 == k then d[0].1 else Get(d[1..], k)
  }

  /** In a dictionary, the entry at position i is what a lookup of its key finds. */
  lemma {:induction false} GetAt<K, V>(d: Dict<K, V>, i: int)
    requires UniqueKeys(d) && 0 <= i < |d|
    ensures HasKey(d, d[i].0) && Get(d, d[i].0) == d[i].1
  {
    assert KeysOf(d)[i] == d[i].0;
    if i > 0 {
      GetAt(d[1..], i - 1);
    }
  }

  /** `d[k] = v` */
  function Put<K(==), V>(d: Dict<K, V>, k: K, v: V): (r: Dict<K, V>)
    ensures KeysOf(r) == if HasKey(d, k) then KeysOf(d) else KeysOf(d) + [k]
  {
    if d == [] then [(k, v)]
    else if d[0].0 == k then
      assert KeysOf([(k, v)] + d[1..]) == KeysOf(d);
      [(k, v)] + d[1..]
    else
      HasKeyCons(d, k);
      var r := [d[0]] + Put(d[1..], k, v);
      assert r[1..] == Put(d[1..], k, v);
      r
  }

  /** After `d[k] = v`, a lookup of k finds v and every other key keeps its value. */
  lemma {:induction false} PutGet<K, V>(d: Dict<K, V>, k: K, v: V, j: K)
    requires j == k || HasKey(d, j)
    ensures HasKey(Put(d, k, v), j)
    ensures Get(Put(d, k, v), j) == if j == k then v else Get(d, j)
    decreases |d|
  {
    var r := Put(d, k, v);
    assert KeysOf(r) == if HasKey(d, k) then KeysOf(d) else KeysOf(d) + [k];
    assert HasKey(r, j) by {
      if j == k && !HasKey(d, k) { assert KeysOf(r)[|d|] == k; }
    }
    if d == [] {
    } else if d[0].0 == k {
      HasKeyCons(d, j);
      HasKeyCons(r, j);
    } else {
      HasKeyCons(d, j);
      HasKeyCons(r, j);
      if j != d[0].0 {
        PutGet(d[1..], k, v, j);
      }
    }
  }

  lemma UniqueKeysOf<K, V>(d: Dict<K, V>, e: Dict<K, V>)
    requires KeysOf(d) == KeysOf(e) && UniqueKeys(d)
    ensures UniqueKeys(e)
  {
    forall i, j | 0 <= i < j < |e| ensures e[i].0 != e[j].0 {
      assert KeysOf(e)[i] == d[i].0 && KeysOf(e)[j] == d[j].0;
    }
  }

  /** Assignment keeps the keys of a dictionary unique. */
  lemma PutUnique<K, V>(d: Dict<K, V>, k: K, v: V)
    requires UniqueKeys(d)
    ensures UniqueKeys(Put(d, k, v))
  {
    var r := Put(d, k, v);
    if HasKey(d, k) {
      UniqueKeysOf(d, r);
    } else {
      forall i, j | 0 <= i < j < |r| ensures r[i].0 != r[j].0 {
        assert KeysOf(r)[i] == r[i].0 && KeysOf(r)[j] == r[j].0;
        if j == |d| { assert KeysOf(d)[i] == r[i].0; } else { assert r[i].0 == d[i].0 && r[j].0 == d[j].0; }
      }
    }
  }

  /** After `d[k] = v` the keys are the old ones and k. */
  lemma PutKeys<K, V>(d: Dict<K, V>, k: K, v: V)
    ensures forall j :: HasKey(Put(d, k, v), j) <==> HasKey(d, j) || j == k
  {
    var r := Put(d, k, v);
    forall j ensures HasKey(r, j) <==> HasKey(d, j) || j == k {
      if HasKey(d, j) || j == k { PutGet(d, k, v, j); }
      if HasKey(r, j) && !HasKey(d, k) {
        var i :| 0 <= i < |r| && KeysOf(r)[i] == j;
        if i < |d| { assert KeysOf(d)[i] == j; }
      }
    }
  }

  /** Every entry after `d[k] = v` is an old entry or the new one. */
  lemma {:induction false} PutEntries<K, V>(d: Dict<K, V>, k: K, v: V)
    ensures forall e :: e in Put(d, k, v) ==> e in d || e == (k, v)
    decreases |d|
  {
    if d != [] && d[0].0 != k {
      PutEntries(d[1..], k, v);
    }
  }

  /** `a | b`: b's entries assigned into a, left to right. */
  function Merge<K(==), V>(a: Dict<K, V>, b: Dict<K, V>): Dict<K, V>
    decreases |b|
  {
    if b == [] then a else Merge(Put(a, b[0].0, b[0].1), b[1..])
  }

  /** Merging keeps the keys of a dictionary unique. */
  lemma {:induction false} MergeUnique<K, V>(a: Dict<K, V>, b: Dict<K, V>)
    requires UniqueKeys(a)
    ensures UniqueKeys(Merge(a, b))
    decreases |b|
  {
    if b != [] {
      PutUnique(a, b[0].0, b[0].1);
      MergeUnique(Put(a, b[0].0, b[0].1), b[1..]);
    }
  }

  predicate Disjoint<K(==), V>(a: Dict<K, V>, b: Dict<K, V>)
  {
    forall i, j :: 0 <= i < |a| && 0 <= j < |b| ==> a[i].0 != b[j].0
  }

  lemma PutAbsent<K, V>(d: Dict<K, V>, k: K, v: V)
    requires !HasKey(d, k)
    ensures Put(d, k, v) == d + [(k, v)]
    decreases |d|
  {
    if d != [] {
      HasKeyCons(d, k);
      PutAbsent(d[1..], k, v);
      assert [d[0]] + (d[1..] + [(k, v)]) == d + [(k, v)];
    }
  }

  lemma DisjointShift<K, V>(a: Dict<K, V>, b: Dict<K, V>)
    requires Disjoint(a, b) && UniqueKeys(b) && b != []
    ensures !HasKey(a, b[0].0)
    ensures Disjoint(a + [b[0]], b[1..]) && UniqueKeys(b[1..])
  {
    var a', b' := a + [b[0]], b[1..];
    forall i, j | 0 <= i < |a'| && 0 <= j < |b'| ensures a'[i].0 != b'[j].0 {
      assert b'[j] == b[j + 1];
      if i < |a| { assert a'[i] == a[i]; } else { assert a'[i] == b[0]; }
    }
    forall i, j | 0 <= i < j < |b'| ensures b'[i].0 != b'[j].0 {
      assert b'[i] == b[i + 1] && b'[j] == b[j + 1];
    }
  }

  /** Merging a dictionary with no key in common appends its entries in their order,
      so every value of a is kept and every entry of b is added. */
  lemma {:induction false} MergeDisjoint<K, V>(a: Dict<K, V>, b: Dict<K, V>)
    requires Disjoint(a, b) && UniqueKeys(b)
    ensures Merge(a, b) == a + b
    decreases |b|
  {
    if b != [] {
      DisjointShift(a, b);
      MergeAbsent(a, b);
      ConcatShift(a, b);
      MergeDisjoint(a + [b[0]], b[1..]);
    } else {
      assert a + b == a;
    }
  }

  lemma ConcatShift<K, V>(a: Dict<K, V>, b: Dict<K, V>)
    requires b != []
    ensures (a + [b[0]]) + b[1..] == a + b
  {
    assert b == [b[0]] + b[1..];
  }

  lemma MergeAbsent<K, V>(a: Dict<K, V>, b: Dict<K, V>)
    requires b != [] && !HasKey(a, b[0].0)
    ensures Merge(a, b) == Merge(a + [b[0]], b[1..])
  {
    PutAbsent(a, b[0].0, b[0].1);
  }

  // ---------------------------------------------------------------------------
  // `dict(sorted(d.items()))` for string keys: the same entries in ascending key
  // order (keys are unique, so the pairs compare by their keys alone).

  predicate SortedByKey<V>(d: Dict<string, V>)
  {
    forall i, j :: 0 <= i < j < |d| ==> LexLess(d[i].0, d[j].0)
  }

  function InsertByKey<V>(x: (string, V), s: Dict<string, V>): (r: Dict<string, V>)
    requires SortedByKey(s)
    requires forall i :: 0 <= i < |s| ==> s[i].0 != x.0
    ensures SortedByKey(r)
    ensures multiset(r) == multiset(s) + multiset{x}
    ensures |r| == |s| + 1
    ensures forall i :: 0 <= i < |r| ==> r[i] == x || r[i] in s
  {
    if s == [] then [x]
    else if LexLess(x.0, s[0].0) then
      forall j | 0 < j < |s| ensures LexLess(x.0, s[j].0) {
        LexLessTransitive(x.0, s[0].0, s[j].0);
      }
      [x] + s
    else
      LexLessTotal(x.0, s[0].0);
      var tail := InsertByKey(x, s[1..]);
      assert s == [s[0]] + s[1..];
      forall j | 0 <= j < |tail| ensures LexLess(s[0].0, tail[j].0) {
        if tail[j] != x {
          var k :| 0 <= k < |s[1..]| && s[1..][k] == tail[j];
        }
      }
      [s[0]] + tail
  }

  function SortByKey<V>(d: Dict<string, V>): (r: Dict<string, V>)
    requires UniqueKeys(d)
    ensures SortedByKey(r)
    ensures multiset(r) == multiset(d)
    ensures |r| == |d|
  {
    if d == [] then []
    else
      UniqueKeysTail(d);
      var tail := SortByKey(d[1..]);
      AbsentFromPermutation(d[0].0, d[1..], tail);
      assert d == [d[0]] + d[1..];
      InsertByKey(d[0], tail)
  }

  lemma UniqueKeysTail<K, V>(d: Dict<K, V>)
    requires UniqueKeys(d) && d != []
    ensures UniqueKeys(d[1..])
    ensures forall i :: 0 <= i < |d[1..]| ==> d[1..][i].0 != d[0].0
  {
    forall i, j | 0 <= i < j < |d[1..]| ensures d[1..][i].0 != d[1..][j].0 {
      assert d[1..][i] == d[i + 1] && d[1..][j] == d[j + 1];
    }
    forall i | 0 <= i < |d[1..]| ensures d[1..][i].0 != d[0].0 {
      assert d[1..][i] == d[i + 1];
    }
  }

  lemma AbsentFromPermutation<K, V>(k: K, s: Dict<K, V>, t: Dict<K, V>)
    requires multiset(t) == multiset(s)
    requires forall i :: 0 <= i < |s| ==> s[i].0 != k
    ensures forall i :: 0 <= i < |t| ==> t[i].0 != k
  {
    forall i | 0 <= i < |t| ensures t[i].0 != k {
      assert t[i] in multiset(s);
    }
  }

  lemma SortedIsUnique<V>(d: Dict<string, V>)
    requires SortedByKey(d)
    ensures UniqueKeys(d)
  {
    forall i, j | 0 <= i < j < |d| ensures d[i].0 != d[j].0 {
      if d[i].0 == d[j].0 { LexLessIrreflexive(d[i].0); }
    }
  }

  /** Sorting keeps the dictionary: the same keys, each with the same value. */
  lemma SortByKeySameEntries<V>(d: Dict<string, V>, k: string)
    requires UniqueKeys(d)
    ensures HasKey(SortByKey(d), k) <==> HasKey(d, k)
    ensures HasKey(d, k) ==> Get(SortByKey(d), k) == Get(d, k)
  {
    var r := SortByKey(d);
    SortedIsUnique(r);
    if HasKey(d, k) {
      var i :| 0 <= i < |d| && KeysOf(d)[i] == k;
      GetAt(d, i);
      assert d[i] in multiset(r);
      var j :| 0 <= j < |r| && r[j] == d[i];
      GetAt(r, j);
    }
    if HasKey(r, k) {
      var j :| 0 <= j < |r| && KeysOf(r)[j] == k;
      assert r[j] in multiset(d);
      var i :| 0 <= i < |d| && d[i] == r[j];
      assert KeysOf(d)[i] == k;
    }
  }
}
