/**
 * The group-by chains the pages repeat:
 *   `df.groupby(key).count().sort_values(by=..., ascending=False).reset_index()`,
 *   `df.groupby(key).nunique().sort_values(...)`,
 *   and `.loc[0:(n - 1), key].tolist()` on such a result (the top n keys).
 * pandas' default `sort_values` is not stable, so among keys with equal
 * measure the order is not promised. `IsRanking` states what every admissible
 * result satisfies; the functions return one admissible result and the lemmas
 * hold for every admissible result.
 */
module Grouping {
  import opened Seqs
  import opened Sorting

  /** The key column of a two-column result. */
  function Keys<K, V>(r: seq<(K, V)>): (ks: seq<K>)
    ensures |ks| == |r|
    ensures forall i :: 0 <= i < |r| ==> ks[i] == r[i].0
  {
    seq(|r|, i requires 0 <= i < |r| => r[i].0)
  }

  /** The distinct keys of a column, in order of first appearance. */
  function Uniq<K(==,!new)>(s: seq<K>): (r: seq<K>)
    ensures Distinct(r)
    ensures forall x :: x in r <==> x in s
  {
    if s == [] then []
    else
      var p := Uniq(s[..|s| - 1]);
      if s[|s| - 1] in p then p else p + [s[|s| - 1]]
  }

  /** Measures read down a result never increase (`ascending=False`). */
  ghost predicate NonIncreasing<K>(r: seq<(K, nat)>) {
    forall i, j :: 0 <= i < j < |r| ==> r[i].1 >= r[j].1
  }

  /** `r` lists every key of `keys` exactly once, each beside its measure,
      largest measure first; keys with equal measures may come in any order. */
  ghost predicate IsRanking<K(!new)>(keys: seq<K>, measure: K -> nat, r: seq<(K, nat)>) {
    && Distinct(Keys(r))
    && (forall k :: k in Keys(r) <==> k in keys)
    && (forall i :: 0 <= i < |r| ==> r[i].1 == measure(r[i].0))
    && NonIncreasing(r)
  }

  /** Groups `keys` and sorts the groups by `measure`, largest first. */
  function RankBy<K(==,!new)>(keys: seq<K>, measure: K -> nat): (r: seq<(K, nat)>)
    ensures IsRanking(keys, measure, r)
  {
    var u := Uniq(keys);
    var le := (a: K, b: K) => measure(a) >= measure(b);
    var sorted := InsertionSort(u, le);
    assert TotalPreorder(le);
    InsertionSortSorted(u, le);
    PermutationDistinct(u, sorted);
    assert forall k :: k in sorted <==> k in multiset(u);
    var r := seq(|sorted|, i requires 0 <= i < |sorted| => (sorted[i], measure(sorted[i])));
    assert Keys(r) == sorted;
    r
  }

  /** The number of rows of each key: `groupby(key).count()`. */
  function Occurrences<K(==)>(keys: seq<K>): K -> nat {
    k => multiset(keys)[k]
  }

  /** `groupby(key).count().sort_values(ascending=False)`. */
  function GroupCount<K(==,!new)>(keys: seq<K>): (r: seq<(K, nat)>)
    ensures IsRanking(keys, Occurrences(keys), r)
  {
    RankBy(keys, Occurrences(keys))
  }

  /** The distinct values that rows with key `k` carry. */
  function ValuesOf<K(==), V(==)>(pairs: seq<(K, V)>, k: K): set<V> {
    set p | p in pairs && p.0 == k :: p.1
  }

  /** The number of distinct values per key: `groupby(key).nunique()`. */
  function DistinctValues<K(==), V(==)>(pairs: seq<(K, V)>): K -> nat {
    k => |ValuesOf(pairs, k)|
  }

  /** `groupby(key).nunique().sort_values(ascending=False)`. */
  function GroupDistinct<K(==,!new), V(==)>(pairs: seq<(K, V)>): (r: seq<(K, nat)>)
    ensures IsRanking(Keys(pairs), DistinctValues(pairs), r)
  {
    RankBy(Keys(pairs), DistinctValues(pairs))
  }

  /** `ranking.loc[0:(n - 1), key].tolist()` behind an `if n < 1: return []`. */
  function TopN<K(==)>(r: seq<(K, nat)>, n: int): (top: seq<K>)
    ensures n < 1 ==> top == []
    ensures n >= 1 ==> |top| == if n < |r| then n else |r|
    ensures forall i :: 0 <= i < |top| ==> top[i] == r[i].0
  {
    if n < 1 then [] else Keys(r[..if n < |r| then n else |r|])
  }

  /** A ranking has one entry per distinct key. */
  lemma RankingSize<K(!new)>(keys: seq<K>, measure: K -> nat, r: seq<(K, nat)>)
    requires IsRanking(keys, measure, r)
    ensures |r| == |Elems(keys)|
  {
    DistinctElems(Keys(r));
    assert Elems(Keys(r)) == Elems(keys);
  }

  /** What `ranking.loc[0:(n - 1), key].tolist()` promises whatever order ties
      take: `[]` when `n < 1`, and otherwise `min(n, number of distinct keys)`
      distinct keys of the table in non-increasing measure, none of them beaten
      by a key left out. */
  ghost predicate IsTopN<K(!new)>(keys: seq<K>, measure: K -> nat, n: int, top: seq<K>) {
    && (n < 1 ==> top == [])
    && (n >= 1 ==> |top| == if n < |Elems(keys)| then n else |Elems(keys)|)
    && Distinct(top)
    && (forall k :: k in top ==> k in keys)
    && (forall i, j :: 0 <= i < j < |top| ==> measure(top[i]) >= measure(top[j]))
    && (forall k, x :: k in keys && k !in top && x in top ==> measure(k) <= measure(x))
  }

  /** The first `n` keys of any admissible ranking are an admissible top `n`. */
  lemma {:induction false} TopNSpec<K(!new)>(keys: seq<K>, measure: K -> nat, r: seq<(K, nat)>, n: int)
    requires IsRanking(keys, measure, r)
    ensures IsTopN(keys, measure, n, TopN(r, n))
  {
    RankingSize(keys, measure, r);
    var top := TopN(r, n);
    var m := if n < 1 then 0 else if n < |r| then n else |r|;
    assert top == Keys(r)[..m];
    forall k, x | k in keys && k !in top && x in top ensures measure(k) <= measure(x) {
      assert k in Keys(r);
      var a :| 0 <= a < |r| && r[a].0 == k;
      var b :| 0 <= b < m && top[b] == x;
      assert a >= m;
    }
  }

  /** The sum of the measure column. */
  function Total<K(==)>(r: seq<(K, nat)>): nat {
    if r == [] then 0 else r[0].1 + Total(r[1..])
  }

  /** The number of rows whose key is listed in `ks`, key by key. */
  function RowsOfKeys<K(==)>(ks: seq<K>, keys: seq<K>): nat {
    if ks == [] then 0 else multiset(keys)[ks[0]] + RowsOfKeys(ks[1..], keys)
  }

  lemma {:induction false} RowsOfKeysAppend<K>(ks: seq<K>, keys: seq<K>, x: K)
    ensures RowsOfKeys(ks, keys + [x]) == RowsOfKeys(ks, keys) + multiset(ks)[x]
  {
    if ks != [] {
      RowsOfKeysAppend(ks[1..], keys, x);
      assert ks == [ks[0]] + ks[1..];
    }
  }

  /** Listing every key once accounts for every row exactly once. */
  lemma {:induction false} RowsOfAllKeys<K>(ks: seq<K>, keys: seq<K>)
    requires Distinct(ks)
    requires forall k :: k in keys ==> k in ks
    ensures RowsOfKeys(ks, keys) == |keys|
  {
    if keys == [] {
      RowsOfNoKeys(ks, keys);
    } else {
      var init, x := keys[..|keys| - 1], keys[|keys| - 1];
      assert keys == init + [x];
      RowsOfAllKeys(ks, init);
      RowsOfKeysAppend(ks, init, x);
      DistinctOnce(ks);
      assert x in keys && x in ks;
      assert x in multiset(ks);
    }
  }

  lemma {:induction false} RowsOfNoKeys<K>(ks: seq<K>, keys: seq<K>)
    requires keys == []
    ensures RowsOfKeys(ks, keys) == 0
  {
    if ks != [] {
      RowsOfNoKeys(ks[1..], keys);
    }
  }

  lemma {:induction false} TotalOfCounts<K>(r: seq<(K, nat)>, keys: seq<K>)
    requires forall i :: 0 <= i < |r| ==> r[i].1 == multiset(keys)[r[i].0]
    ensures Total(r) == RowsOfKeys(Keys(r), keys)
  {
    if r != [] {
      TotalOfCounts(r[1..], keys);
      assert Keys(r)[1..] == Keys(r[1..]);
    }
  }

  /** The group counts add up to the number of rows. */
  lemma CountsSumToRows<K(!new)>(keys: seq<K>, r: seq<(K, nat)>)
    requires IsRanking(keys, Occurrences(keys), r)
    ensures Total(r) == |keys|
  {
    TotalOfCounts(r, keys);
    RowsOfAllKeys(Keys(r), keys);
  }

  /** A key has no more distinct values than rows. */
  lemma {:induction false} DistinctValuesBound<K, V>(pairs: seq<(K, V)>, k: K)
    ensures |ValuesOf(pairs, k)| <= multiset(Keys(pairs))[k]
  {
    if pairs != [] {
      var init, p := pairs[..|pairs| - 1], pairs[|pairs| - 1];
      DistinctValuesBound(init, k);
      assert pairs == init + [p];
      assert Keys(pairs) == Keys(init) + [p.0];
      assert ValuesOf(pairs, k) == ValuesOf(init, k) + (if p.0 == k then {p.1} else {});
    }
  }

  /** A ranking stays admissible when the key column is replaced by one with
      the same keys and the measure by one that agrees on those keys. */
  lemma RankingTransfer<K(!new)>(keys: seq<K>, measure: K -> nat, keys2: seq<K>, measure2: K -> nat, r: seq<(K, nat)>)
    requires IsRanking(keys, measure, r)
    requires forall k :: k in keys <==> k in keys2
    requires forall k :: k in keys ==> measure(k) == measure2(k)
    ensures IsRanking(keys2, measure2, r)
  {
    forall i | 0 <= i < |r| ensures r[i].1 == measure2(r[i].0) {
      assert r[i].0 in Keys(r);
    }
  }

  /** In a table of distinct (key, value) pairs, a key occurs once per
      distinct value it carries: counting rows after grouping by both columns
      is `nunique`. */
  lemma {:induction false} DistinctPairsCount<K, V>(u: seq<(K, V)>, k: K)
    requires Distinct(u)
    ensures multiset(Keys(u))[k] == |ValuesOf(u, k)|
  {
    if u != [] {
      var init, p := u[..|u| - 1], u[|u| - 1];
      assert u == init + [p];
      assert Distinct(init);
      DistinctPairsCount(init, k);
      assert Keys(u) == Keys(init) + [p.0];
      ValuesOfSnoc(init, p, k);
    }
  }

  /** Appending a pair adds its value to its key's values, and the value is
      new when the pairs stay distinct. */
  lemma ValuesOfSnoc<K, V>(init: seq<(K, V)>, p: (K, V), k: K)
    requires Distinct(init + [p])
    ensures |ValuesOf(init + [p], k)| == |ValuesOf(init, k)| + if p.0 == k then 1 else 0
  {
    var u := init + [p];
    assert ValuesOf(u, k) == ValuesOf(init, k) + (if p.0 == k then {p.1} else {});
    if p.0 == k {
      forall q | q in init && q.0 == k ensures q.1 != p.1 {
        var j :| 0 <= j < |init| && init[j] == q;
        assert u[j] != u[|u| - 1];
      }
    }
  }
}
