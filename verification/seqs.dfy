/** Order-preserving selection over sequences: every row filter of the
    dashboard (date range, high-volume categories, drill-down) is an
    instance of `Filter`. */
module Seqs {

  /** `idx` lists strictly increasing positions of `b` at which the elements
      of `a` occur, in order. */
  ghost predicate Embedding<T>(idx: seq<nat>, a: seq<T>, b: seq<T>) {
    && |idx| == |a|
    && (forall i :: 0 <= i < |idx| ==> idx[i] < |b| && a[i] == b[idx[i]])
    && (forall i, j :: 0 <= i < j < |idx| ==> idx[i] < idx[j])
  }

  /** `a` is obtained from `b` by deleting elements: relative order is kept. */
  ghost predicate IsSubsequence<T>(a: seq<T>, b: seq<T>) {
    exists idx :: Embedding(idx, a, b)
  }

  /** A subsequence of the tail of `b` is a subsequence of `b`. */
  lemma SubsequenceSkip<T>(a: seq<T>, b: seq<T>)
    requires |b| > 0 && IsSubsequence(a, b[1..])
    ensures IsSubsequence(a, b)
  {
    var idx :| Embedding(idx, a, b[1..]);
    var shifted := seq(|idx|, i requires 0 <= i < |idx| => idx[i] + 1);
    assert Embedding(shifted, a, b);
  }

  /** Keeping the head of `b` in front of a subsequence of its tail gives a
      subsequence of `b`. */
  lemma SubsequenceTake<T>(a: seq<T>, b: seq<T>)
    requires |b| > 0 && IsSubsequence(a, b[1..])
    ensures IsSubsequence([b[0]] + a, b)
  {
    var idx :| Embedding(idx, a, b[1..]);
    var shifted := seq(|idx| + 1, i requires 0 <= i <= |idx| => if i == 0 then 0 else idx[i - 1] + 1);
    assert Embedding(shifted, [b[0]] + a, b);
  }

  /** The elements of `s` satisfying `keep`, in their original order, each as
      often as it occurs in `s` (a boolean-mask selection on a data frame). */
  function Filter<T(==,!new)>(s: seq<T>, keep: T -> bool): (r: seq<T>)
    ensures |r| <= |s|
    ensures forall x :: x in r ==> keep(x)
    ensures forall x :: multiset(r)[x] == if keep(x) then multiset(s)[x] else 0
    ensures IsSubsequence(r, s)
  {
    if |s| == 0 then
      assert Embedding([], [], s);
      []
    else
      var rest := Filter(s[1..], keep);
      assert s == [s[0]] + s[1..];
      assert multiset(s) == multiset{s[0]} + multiset(s[1..]);
      if keep(s[0]) then
        SubsequenceTake(rest, s);
        [s[0]] + rest
      else
        SubsequenceSkip(rest, s);
        rest
  }

  /** A filter whose predicate holds of every element keeps the whole sequence. */
  lemma {:induction false} FilterKeepsAll<T(!new)>(s: seq<T>, keep: T -> bool)
    requires forall x :: x in s ==> keep(x)
    ensures Filter(s, keep) == s
  {
    if |s| > 0 {
      FilterKeepsAll(s[1..], keep);
    }
  }

  /** A subset is no larger than its superset. */
  lemma SubsetCardinality<T>(a: set<T>, b: set<T>)
    requires a <= b
    ensures |a| <= |b|
  {
    assert b == a + (b - a);
  }
}
