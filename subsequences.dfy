/** Order-preserving selections from a sequence: picking the elements at a
    strictly increasing list of positions, and filtering by a predicate.
    Every list operation of the dashboard (the lift threshold, the item
    filter, the blank-cell drop and the redundant-rule elimination) keeps
    some of its input rows in their original order; this module says once
    what that means. */
module Subsequences {

  /** `idx` lists positions of a sequence of length `n`, strictly increasing. */
  ghost predicate Increasing(idx: seq<int>, n: int) {
    && (forall k :: 0 <= k < |idx| ==> 0 <= idx[k] < n)
    && (forall k, l :: 0 <= k < l < |idx| ==> idx[k] < idx[l])
  }

  /** The elements of `s` at the positions `idx`, in the order of `idx`
      (what a DataFrame's `.loc[indexes]` returns for unique labels). */
  function Pick<T>(s: seq<T>, idx: seq<int>): seq<T>
    requires forall k :: 0 <= k < |idx| ==> 0 <= idx[k] < |s|
  {
    seq(|idx|, k requires 0 <= k < |idx| => s[idx[k]])
  }

  /** `r` is `s` at the increasing positions `idx`. */
  ghost predicate PickedAt<T>(r: seq<T>, s: seq<T>, idx: seq<int>) {
    Increasing(idx, |s|) && r == Pick(s, idx)
  }

  /** `r` is obtained from `s` by deleting elements, keeping the rest in order. */
  ghost predicate IsSubsequence<T>(r: seq<T>, s: seq<T>) {
    exists idx :: PickedAt(r, s, idx)
  }

  /** `r` is `s` at the positions `idx`, which are exactly those where `p` holds. */
  ghost predicate SelectedAt<T>(r: seq<T>, s: seq<T>, p: T -> bool, idx: seq<int>) {
    && PickedAt(r, s, idx)
    && (forall i :: 0 <= i < |s| ==> (i in idx <==> p(s[i])))
  }

  /** `r` keeps exactly the positions of `s` at which `p` holds, in order. */
  ghost predicate SelectsWhere<T>(r: seq<T>, s: seq<T>, p: T -> bool) {
    exists idx :: SelectedAt(r, s, p, idx)
  }

  /** The elements of `s` satisfying `p`, in their original order (a list
      comprehension with an `if`, or a boolean-mask row selection). */
  function Filter<T>(p: T -> bool, s: seq<T>): (r: seq<T>)
    ensures |r| <= |s|
    ensures forall k :: 0 <= k < |r| ==> p(r[k]) && r[k] in s
    ensures forall i :: 0 <= i < |s| && p(s[i]) ==> s[i] in r
    decreases |s|
  {
    if s == [] then []
    else
      var front := s[..|s| - 1];
      Filter(p, front) + (if p(s[|s| - 1]) then [s[|s| - 1]] else [])
  }

  /** Picking positions of a prefix is the same from the whole sequence. */
  lemma PickFromPrefix<T>(s: seq<T>, m: int, idx: seq<int>)
    requires 0 <= m <= |s| && Increasing(idx, m)
    ensures Pick(s, idx) == Pick(s[..m], idx)
  {
  }

  /** A position past all listed ones may be appended. */
  lemma IncreasingSnoc(idx: seq<int>, m: int)
    requires 0 <= m && Increasing(idx, m)
    ensures Increasing(idx + [m], m + 1) && m !in idx
  {
  }

  /** Picking one more position appends that element. */
  lemma PickSnoc<T>(s: seq<T>, idx: seq<int>, j: int)
    requires forall k :: 0 <= k < |idx| ==> 0 <= idx[k] < |s|
    requires 0 <= j < |s|
    ensures Pick(s, idx + [j]) == Pick(s, idx) + [s[j]]
  {
  }

  /** Filtering keeps exactly the positions where the predicate holds. */
  lemma {:induction false} FilterSelects<T>(p: T -> bool, s: seq<T>)
    ensures SelectsWhere(Filter(p, s), s, p)
    decreases |s|
  {
    if s == [] {
      var idx: seq<int> := [];
      assert SelectedAt(Filter(p, s), s, p, idx);
    } else {
      var n := |s| - 1;
      var front := s[..n];
      FilterSelects(p, front);
      var idx :| SelectedAt(Filter(p, front), front, p, idx);
      var r := Filter(p, front);
      assert Filter(p, s) == r + (if p(s[n]) then [s[n]] else []);
      PickFromPrefix(s, n, idx);
      IncreasingSnoc(idx, n);
      var idx' := idx;
      if p(s[n]) {
        idx' := idx + [n];
        PickSnoc(s, idx, n);
      }
      forall i | 0 <= i < |s|
        ensures i in idx' <==> p(s[i])
      {
        if i < n {
          assert s[i] == front[i];
        }
      }
      assert SelectedAt(Filter(p, s), s, p, idx');
    }
  }

  /** A filtered sequence is a subsequence of its input. */
  lemma FilterIsSubsequence<T>(p: T -> bool, s: seq<T>)
    ensures IsSubsequence(Filter(p, s), s)
  {
    FilterSelects(p, s);
    var idx :| SelectedAt(Filter(p, s), s, p, idx);
  }

  /** A subsequence of a subsequence is a subsequence. */
  lemma SubsequenceTransitive<T>(a: seq<T>, b: seq<T>, c: seq<T>)
    requires IsSubsequence(a, b) && IsSubsequence(b, c)
    ensures IsSubsequence(a, c)
  {
    var ib :| PickedAt(a, b, ib);
    var ic :| PickedAt(b, c, ic);
    var ia := seq(|ib|, k requires 0 <= k < |ib| => ic[ib[k]]);
    assert PickedAt(a, c, ia);
  }

  /** Every element of a subsequence is an element of the sequence. */
  lemma SubsequenceMembers<T>(r: seq<T>, s: seq<T>)
    requires IsSubsequence(r, s)
    ensures forall k :: 0 <= k < |r| ==> r[k] in s
  {
    var idx :| PickedAt(r, s, idx);
    forall k | 0 <= k < |r| ensures r[k] in s {
      assert r[k] == s[idx[k]];
    }
  }

  /** Every sequence is a subsequence of itself. */
  lemma SubsequenceReflexive<T>(s: seq<T>)
    ensures IsSubsequence(s, s)
  {
    var idx := seq(|s|, k => k);
    assert PickedAt(s, s, idx);
  }
}
