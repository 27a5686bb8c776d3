/**
 * Facts about sequences that the table operations share: the set of values in
 * a column, repetitions, and selecting rows with a boolean mask (pandas'
 * `df.loc[mask, :]`), which keeps the selected rows in their order.
 */
module Seqs {

  /** The distinct values of a column (`Series.unique()` as a set). */
  function Elems<T>(s: seq<T>): set<T> {
    set x | x in s
  }

  ghost predicate Distinct<T>(s: seq<T>) {
    forall i, j :: 0 <= i < j < |s| ==> s[i] != s[j]
  }

  /** A column has at most as many distinct values as it has rows. */
  lemma {:induction false} ElemsBound<T>(s: seq<T>)
    ensures |Elems(s)| <= |s|
  {
    if s != [] {
      var init := s[..|s| - 1];
      ElemsBound(init);
      assert Elems(s) == Elems(init) + {s[|s| - 1]};
    }
  }

  /** A column without repetitions has exactly one distinct value per row. */
  lemma {:induction false} DistinctElems<T>(s: seq<T>)
    requires Distinct(s)
    ensures |Elems(s)| == |s|
  {
    if s != [] {
      var init := s[..|s| - 1];
      DistinctElems(init);
      assert Elems(s) == Elems(init) + {s[|s| - 1]};
      assert s[|s| - 1] !in Elems(init);
    }
  }

  /** Without repetitions, every value occurs at most once. */
  lemma {:induction false} DistinctOnce<T>(s: seq<T>)
    requires Distinct(s)
    ensures forall x :: multiset(s)[x] <= 1
  {
    if s != [] {
      var init := s[..|s| - 1];
      DistinctOnce(init);
      assert s == init + [s[|s| - 1]];
      assert s[|s| - 1] !in multiset(init);
    }
  }

  /** Reordering a sequence without repetitions creates none. */
  lemma PermutationDistinct<T>(s: seq<T>, r: seq<T>)
    requires multiset(s) == multiset(r) && Distinct(s)
    ensures Distinct(r)
  {
    DistinctOnce(s);
    forall i, j | 0 <= i < j < |r| ensures r[i] != r[j] {
      var left, right := r[..j], r[j..];
      assert r == left + right;
      assert r[i] in left && r[j] == right[0];
      assert multiset(r)[r[j]] == multiset(left)[r[j]] + multiset(right)[r[j]];
    }
  }

  /** `r` can be obtained from `s` by deleting elements. */
  ghost predicate IsSubsequence<T>(r: seq<T>, s: seq<T>)
    decreases |s|
  {
    || r == []
    || (s != [] && ((r[0] == s[0] && IsSubsequence(r[1..], s[1..])) || IsSubsequence(r, s[1..])))
  }

  /** `s.loc[s.apply(keep), :]`: the rows for which `keep` holds, in their
      original order and with their multiplicities. */
  function Filter<T(!new)>(s: seq<T>, keep: T -> bool): (r: seq<T>)
    ensures forall x :: multiset(r)[x] == if keep(x) then multiset(s)[x] else 0
    ensures IsSubsequence(r, s)
  {
    if s == [] then []
    else
      assert s == [s[0]] + s[1..];
      var rest := Filter(s[1..], keep);
      if keep(s[0]) then
        assert ([s[0]] + rest)[1..] == rest;
        [s[0]] + rest
      else
        rest
  }

  /** A row is kept exactly when it is in the table and passes the mask. */
  lemma FilterMembers<T(!new)>(s: seq<T>, keep: T -> bool)
    ensures forall x :: x in Filter(s, keep) <==> x in s && keep(x)
  {
    var r := Filter(s, keep);
    forall x ensures x in r <==> x in s && keep(x) {
      assert x in r <==> x in multiset(r);
      assert x in s <==> x in multiset(s);
    }
  }

  /** A mask that keeps every row returns the whole table. */
  lemma {:induction false} FilterKeepsAll<T(!new)>(s: seq<T>, keep: T -> bool)
    requires forall x :: x in s ==> keep(x)
    ensures Filter(s, keep) == s
  {
    if s != [] {
      FilterKeepsAll(s[1..], keep);
      assert s == [s[0]] + s[1..];
    }
  }

  /** A mask that keeps no row returns the empty table. */
  lemma FilterKeepsNone<T(!new)>(s: seq<T>, keep: T -> bool)
    requires forall x :: x in s ==> !keep(x)
    ensures Filter(s, keep) == []
  {
    var r := Filter(s, keep);
    assert forall x :: multiset(r)[x] == 0;
    assert multiset(r) == multiset{};
  }

  /** `s.iloc[ks]`: the elements of `s` at the positions `ks`, in that order. */
  function Pick<T>(s: seq<T>, ks: seq<nat>): (r: seq<T>)
    requires forall k :: 0 <= k < |ks| ==> ks[k] < |s|
    ensures |r| == |ks|
    ensures forall k :: 0 <= k < |ks| ==> r[k] == s[ks[k]]
  {
    seq(|ks|, k requires 0 <= k < |ks| => s[ks[k]])
  }

  /** Picking one more position appends the element there. */
  lemma PickSnoc<T>(s: seq<T>, ks: seq<nat>, j: nat)
    requires forall k :: 0 <= k < |ks| ==> ks[k] < |s|
    requires j < |s|
    ensures Pick(s, ks + [j]) == Pick(s, ks) + [s[j]]
  {
  }

  /** A pandas `RangeIndex`: the labels `0, 1, ..., n - 1`. */
  function Range(n: nat): (r: seq<nat>)
    ensures |r| == n
    ensures forall i :: 0 <= i < n ==> r[i] == i
  {
    seq(n, i requires 0 <= i < n => i)
  }

  ghost predicate StrictlyIncreasing(s: seq<int>) {
    forall i, j :: 0 <= i < j < |s| ==> s[i] < s[j]
  }

  /** `s.apply(f)`: `f` applied to every element, in order. */
  function Map<T, U>(s: seq<T>, f: T -> U): (r: seq<U>)
    ensures |r| == |s|
    ensures forall i :: 0 <= i < |s| ==> r[i] == f(s[i])
  {
    seq(|s|, i requires 0 <= i < |s| => f(s[i]))
  }

  /** When exactly the occurrences of `y` are mapped to `x`, `x` occurs in
      the mapped sequence as often as `y` occurs in the original. */
  lemma {:induction false} MapPreimageCount<T, U>(s: seq<T>, f: T -> U, x: U, y: T)
    requires forall i :: 0 <= i < |s| ==> (f(s[i]) == x <==> s[i] == y)
    ensures multiset(Map(s, f))[x] == multiset(s)[y]
  {
    if s != [] {
      MapPreimageCount(s[1..], f, x, y);
      assert Map(s, f) == [f(s[0])] + Map(s[1..], f);
      assert s == [s[0]] + s[1..];
    }
  }

  /** Every element of a subsequence is an element of the sequence. */
  lemma {:induction false} SubsequenceMembers<T>(r: seq<T>, s: seq<T>)
    requires IsSubsequence(r, s)
    ensures forall x :: x in r ==> x in s
    decreases |s|
  {
    if r != [] {
      if r[0] == s[0] && IsSubsequence(r[1..], s[1..]) {
        SubsequenceMembers(r[1..], s[1..]);
        forall x | x in r ensures x in s {
          if x != r[0] {
            assert x in r[1..];
            assert x in s[1..];
          }
        }
      } else {
        SubsequenceMembers(r, s[1..]);
        forall x | x in r ensures x in s {
          assert x in s[1..];
        }
      }
    }
  }

  /** Deleting elements keeps any order the sequence was in. */
  lemma {:induction false} SubsequenceOrdered<T>(r: seq<T>, s: seq<T>, lt: (T, T) -> bool)
    requires IsSubsequence(r, s)
    requires forall i, j :: 0 <= i < j < |s| ==> lt(s[i], s[j])
    ensures forall i, j :: 0 <= i < j < |r| ==> lt(r[i], r[j])
    decreases |s|
  {
    if r != [] {
      if r[0] == s[0] && IsSubsequence(r[1..], s[1..]) {
        SubsequenceOrdered(r[1..], s[1..], lt);
        SubsequenceMembers(r[1..], s[1..]);
        forall i, j | 0 <= i < j < |r| ensures lt(r[i], r[j]) {
          assert r[j] == r[1..][j - 1];
          if i == 0 {
            assert r[j] in s[1..];
            var m :| 0 <= m < |s| - 1 && s[1..][m] == r[j];
            assert s[m + 1] == r[j];
          } else {
            assert r[i] == r[1..][i - 1];
          }
        }
      } else {
        SubsequenceOrdered(r, s[1..], lt);
      }
    }
  }

  /** `zip(a, b)`. */
  function Zip<T, U>(a: seq<T>, b: seq<U>): (r: seq<(T, U)>)
    requires |a| == |b|
    ensures |r| == |a|
    ensures forall i :: 0 <= i < |a| ==> r[i] == (a[i], b[i])
  {
    seq(|a|, i requires 0 <= i < |a| => (a[i], b[i]))
  }

  /** A subsequence is no longer than the sequence. */
  lemma {:induction false} SubsequenceLength<T>(r: seq<T>, s: seq<T>)
    requires IsSubsequence(r, s)
    ensures |r| <= |s|
    decreases |s|
  {
    if r != [] {
      if r[0] == s[0] && IsSubsequence(r[1..], s[1..]) {
        SubsequenceLength(r[1..], s[1..]);
      } else {
        SubsequenceLength(r, s[1..]);
      }
    }
  }
}
