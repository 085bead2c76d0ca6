/** High-volume categories: a category qualifies when its row count is
    strictly greater than one and a half times the median of the per-category
    row counts; the installment chart uses only rows of such categories. */
module HighVolume {
  import opened Wrappers
  import opened Seqs
  import opened Orders
  import opened Ranking

  /** How many values lie strictly below `v`. */
  function CountBelow(xs: seq<nat>, v: real): (n: nat)
    ensures n <= |xs|
  {
    if |xs| == 0 then 0 else (if (xs[0] as real) < v then 1 else 0) + CountBelow(xs[1..], v)
  }

  /** How many values lie strictly above `v`. */
  function CountAbove(xs: seq<nat>, v: real): (n: nat)
    ensures n <= |xs|
  {
    if |xs| == 0 then 0 else (if (xs[0] as real) > v then 1 else 0) + CountAbove(xs[1..], v)
  }

  predicate Ascending(s: seq<nat>) {
    forall i, j :: 0 <= i < j < |s| ==> s[i] <= s[j]
  }

  lemma ConsAscending(a: nat, rest: seq<nat>)
    requires Ascending(rest)
    requires forall y :: y in rest ==> a <= y
    ensures Ascending([a] + rest)
  {
    var r := [a] + rest;
    forall i, j | 0 <= i < j < |r| ensures r[i] <= r[j] {
      assert r[j] == rest[j - 1];
      if i > 0 {
        assert r[i] == rest[i - 1];
      } else {
        assert rest[j - 1] in rest;
      }
    }
  }

  function InsertAsc(x: nat, s: seq<nat>): (r: seq<nat>)
    requires Ascending(s)
    ensures Ascending(r)
    ensures multiset(r) == multiset(s) + multiset{x}
  {
    if |s| == 0 then [x]
    else if x <= s[0] then
      ConsAscending(x, s);
      [x] + s
    else
      var rest := InsertAsc(x, s[1..]);
      InsertAscAboveHead(x, s, rest);
      ConsAscending(s[0], rest);
      assert s == [s[0]] + s[1..];
      [s[0]] + rest
  }

  /** Inserting a value larger than the head into the tail leaves the head a
      lower bound. */
  lemma InsertAscAboveHead(x: nat, s: seq<nat>, rest: seq<nat>)
    requires |s| > 0 && Ascending(s) && s[0] < x
    requires multiset(rest) == multiset(s[1..]) + multiset{x}
    ensures forall y :: y in rest ==> s[0] <= y
  {
    forall y | y in rest ensures s[0] <= y {
      assert y in multiset(rest);
      if y != x {
        assert y in multiset(s[1..]);
        var j :| 0 <= j < |s[1..]| && s[1..][j] == y;
        assert s[j + 1] == y;
      }
    }
  }

  /** The values in ascending order. */
  function SortAsc(xs: seq<nat>): (r: seq<nat>)
    ensures Ascending(r)
    ensures multiset(r) == multiset(xs)
  {
    if |xs| == 0 then []
    else
      assert xs == [xs[0]] + xs[1..];
      InsertAsc(xs[0], SortAsc(xs[1..]))
  }

  lemma {:induction false} CountsConcat(a: seq<nat>, b: seq<nat>, v: real)
    ensures CountBelow(a + b, v) == CountBelow(a, v) + CountBelow(b, v)
    ensures CountAbove(a + b, v) == CountAbove(a, v) + CountAbove(b, v)
  {
    if |a| == 0 {
      assert a + b == b;
    } else {
      assert (a + b)[1..] == a[1..] + b;
      CountsConcat(a[1..], b, v);
    }
  }

  /** Taking one value out of a sequence removes exactly its own
      contribution to each count. */
  lemma CountsRemove(b: seq<nat>, i: nat, v: real)
    requires i < |b|
    ensures CountBelow(b, v) == (if (b[i] as real) < v then 1 else 0) + CountBelow(b[..i] + b[i + 1..], v)
    ensures CountAbove(b, v) == (if (b[i] as real) > v then 1 else 0) + CountAbove(b[..i] + b[i + 1..], v)
  {
    assert b == b[..i] + ([b[i]] + b[i + 1..]);
    CountsConcat(b[..i], [b[i]] + b[i + 1..], v);
    CountsConcat([b[i]], b[i + 1..], v);
    CountsConcat(b[..i], b[i + 1..], v);
    assert [b[i]][1..] == [];
  }

  /** Removing the value at position `i` removes one copy of it. */
  lemma MultisetRemove(b: seq<nat>, i: nat)
    requires i < |b|
    ensures multiset(b[..i] + b[i + 1..]) == multiset(b) - multiset{b[i]}
  {
    assert b == b[..i] + [b[i]] + b[i + 1..];
  }

  /** The counts depend only on the values, not on their order. */
  lemma {:induction false} CountsPermutation(a: seq<nat>, b: seq<nat>, v: real)
    requires multiset(a) == multiset(b)
    ensures CountBelow(a, v) == CountBelow(b, v)
    ensures CountAbove(a, v) == CountAbove(b, v)
    decreases |a|
  {
    if |a| == 0 {
      assert |b| == |multiset(b)| == 0;
    } else {
      assert a[0] in multiset(b);
      var i :| 0 <= i < |b| && b[i] == a[0];
      MultisetRemove(b, i);
      assert multiset(a[1..]) == multiset(a) - multiset{a[0]} by {
        assert a == [a[0]] + a[1..];
      }
      CountsPermutation(a[1..], b[..i] + b[i + 1..], v);
      CountsRemove(b, i, v);
    }
  }

  /** When every value from position `k` on is at least `v`, at most `k`
      values lie below `v`. */
  lemma {:induction false} FewBelow(s: seq<nat>, k: nat, v: real)
    requires k <= |s|
    requires forall j :: k <= j < |s| ==> s[j] as real >= v
    ensures CountBelow(s, v) <= k
  {
    if |s| > 0 {
      if k == 0 {
        assert s[0] as real >= v;
        FewBelow(s[1..], 0, v);
      } else {
        FewBelow(s[1..], k - 1, v);
      }
    }
  }

  /** When every value before position `k` is at most `v`, at most
      `|s| - k` values lie above `v`. */
  lemma {:induction false} FewAbove(s: seq<nat>, k: nat, v: real)
    requires k <= |s|
    requires forall j :: 0 <= j < k ==> s[j] as real <= v
    ensures CountAbove(s, v) <= |s| - k
  {
    if |s| > 0 && k > 0 {
      FewAbove(s[1..], k - 1, v);
    }
  }

  /** When every value before position `k` is below `v`, at least `k`
      values lie below `v`. */
  lemma {:induction false} ManyBelow(s: seq<nat>, k: nat, v: real)
    requires k <= |s|
    requires forall j :: 0 <= j < k ==> (s[j] as real) < v
    ensures CountBelow(s, v) >= k
  {
    if k > 0 {
      ManyBelow(s[1..], k - 1, v);
    }
  }

  /** When every value from position `k` on is above `v`, at least
      `|s| - k` values lie above `v`. */
  lemma {:induction false} ManyAbove(s: seq<nat>, k: nat, v: real)
    requires k <= |s|
    requires forall j :: k <= j < |s| ==> (s[j] as real) > v
    ensures CountAbove(s, v) >= |s| - k
  {
    if |s| > 0 {
      if k == 0 {
        ManyAbove(s[1..], 0, v);
      } else {
        ManyAbove(s[1..], k - 1, v);
      }
    }
  }

  /** `lo` and `hi` are the two middle values of an even number of values:
      fewer than half lie below `lo` and at most half above it, at most half
      lie below `hi` and fewer than half above it. */
  predicate MiddlePair(xs: seq<nat>, lo: nat, hi: nat) {
    && 2 * CountBelow(xs, lo as real) + 2 <= |xs|
    && 2 * CountAbove(xs, lo as real) <= |xs|
    && 2 * CountBelow(xs, hi as real) <= |xs|
    && 2 * CountAbove(xs, hi as real) + 2 <= |xs|
  }

  /** The two middle positions of a sorted even-length sequence hold a
      middle pair. */
  lemma SortedMiddlePair(s: seq<nat>)
    requires |s| > 0 && |s| % 2 == 0 && Ascending(s)
    ensures MiddlePair(s, s[|s| / 2 - 1], s[|s| / 2])
  {
    var k := |s| / 2;
    var lo, hi := s[k - 1], s[k];
    FewBelow(s, k - 1, lo as real);
    FewAbove(s, k, lo as real);
    FewBelow(s, k, hi as real);
    FewAbove(s, k + 1, hi as real);
  }

  /** In a sorted sequence, the lower value of a middle pair sits at the
      lower middle position. */
  lemma SortedLowMiddle(s: seq<nat>, lo: nat)
    requires |s| > 0 && |s| % 2 == 0 && Ascending(s)
    requires 2 * CountBelow(s, lo as real) + 2 <= |s| && 2 * CountAbove(s, lo as real) <= |s|
    ensures lo == s[|s| / 2 - 1]
  {
    var k := |s| / 2;
    if lo > s[k - 1] {
      ManyBelow(s, k, lo as real);
    }
    if lo < s[k - 1] {
      ManyAbove(s, k - 1, lo as real);
    }
  }

  /** In a sorted sequence, the upper value of a middle pair sits at the
      upper middle position. */
  lemma SortedHighMiddle(s: seq<nat>, hi: nat)
    requires |s| > 0 && |s| % 2 == 0 && Ascending(s)
    requires 2 * CountBelow(s, hi as real) <= |s| && 2 * CountAbove(s, hi as real) + 2 <= |s|
    ensures hi == s[|s| / 2]
  {
    var k := |s| / 2;
    if hi > s[k] {
      ManyBelow(s, k + 1, hi as real);
    }
    if hi < s[k] {
      ManyAbove(s, k, hi as real);
    }
  }

  /** A middle pair is the two middle values of the sorted values, so there
      is only one. */
  lemma MiddlePairIsSorted(xs: seq<nat>, lo: nat, hi: nat)
    requires |xs| > 0 && |xs| % 2 == 0 && MiddlePair(xs, lo, hi)
    ensures |SortAsc(xs)| == |xs|
    ensures lo == SortAsc(xs)[|xs| / 2 - 1] && hi == SortAsc(xs)[|xs| / 2]
  {
    var s := SortAsc(xs);
    assert |s| == |multiset(s)| == |xs|;
    MiddlePairPermuted(xs, s, lo, hi);
    SortedLowMiddle(s, lo);
    SortedHighMiddle(s, hi);
  }

  /** Being a middle pair does not depend on the order of the values. */
  lemma MiddlePairPermuted(xs: seq<nat>, s: seq<nat>, lo: nat, hi: nat)
    requires multiset(s) == multiset(xs) && |s| == |xs|
    requires MiddlePair(xs, lo, hi)
    ensures MiddlePair(s, lo, hi)
  {
    CountsPermutation(xs, s, lo as real);
    CountsPermutation(xs, s, hi as real);
  }

  /** The middle value of a sorted sequence, or the mean of the two middle
      values when its length is even. */
  function Middle(s: seq<nat>): real
    requires |s| > 0
  {
    var k := |s| / 2;
    if |s| % 2 == 1 then s[k] as real else (s[k - 1] + s[k]) as real / 2.0
  }

  /** The median of the values: the middle one of the sorted values, or the
      mean of the two middle ones when there is an even number of them; no
      median (NaN) for no values. */
  function Median(xs: seq<nat>): (m: Option<real>)
    ensures m.None? <==> |xs| == 0
    ensures m.Some? && |xs| % 2 == 1 ==> exists i :: 0 <= i < |xs| && xs[i] as real == m.value
    ensures m.Some? && |xs| % 2 == 0 ==>
              exists i, j :: 0 <= i < |xs| && 0 <= j < |xs| && (xs[i] + xs[j]) as real / 2.0 == m.value
  {
    if |xs| == 0 then None
    else
      var s := SortAsc(xs);
      assert |s| == |multiset(s)| == |xs|;
      MedianIsMadeOfValues(xs, s);
      Some(Middle(s))
  }

  /** At most half of the values lie strictly below the median, and at most
      half strictly above it. */
  lemma MedianBalances(xs: seq<nat>)
    ensures Median(xs).Some? ==> 2 * CountBelow(xs, Median(xs).value) <= |xs|
    ensures Median(xs).Some? ==> 2 * CountAbove(xs, Median(xs).value) <= |xs|
  {
    if |xs| > 0 {
      var s := SortAsc(xs);
      assert |s| == |multiset(s)| == |xs|;
      assert Median(xs) == Some(Middle(s));
      MedianSplits(s);
      CountsPermutation(xs, s, Middle(s));
    }
  }

  /** For an even number of values the median is the mean of a middle pair,
      which `MiddlePairIsSorted` shows to be the two middle sorted values. */
  lemma MedianMiddles(xs: seq<nat>)
    ensures Median(xs).Some? && |xs| % 2 == 0 ==>
              exists lo: nat, hi: nat :: MiddlePair(xs, lo, hi) && Median(xs).value == (lo + hi) as real / 2.0
  {
    if |xs| > 0 && |xs| % 2 == 0 {
      var s := SortAsc(xs);
      assert |s| == |multiset(s)| == |xs|;
      var k := |s| / 2;
      assert Median(xs) == Some(Middle(s));
      SortedMiddlePair(s);
      CountsPermutation(xs, s, s[k - 1] as real);
      CountsPermutation(xs, s, s[k] as real);
      assert MiddlePair(xs, s[k - 1], s[k]);
    }
  }

  lemma MedianSplits(s: seq<nat>)
    requires |s| > 0 && Ascending(s)
    ensures 2 * CountBelow(s, Middle(s)) <= |s| && 2 * CountAbove(s, Middle(s)) <= |s|
  {
    if |s| % 2 == 1 {
      OddSplits(s);
    } else {
      EvenSplits(s);
    }
  }

  lemma OddSplits(s: seq<nat>)
    requires |s| % 2 == 1 && Ascending(s)
    ensures 2 * CountBelow(s, Middle(s)) <= |s| && 2 * CountAbove(s, Middle(s)) <= |s|
  {
    var k := |s| / 2;
    var m := s[k] as real;
    assert Middle(s) == m;
    assert forall j :: k <= j < |s| ==> s[j] as real >= m;
    FewBelow(s, k, m);
    assert forall j :: 0 <= j < k + 1 ==> s[j] as real <= m;
    FewAbove(s, k + 1, m);
  }

  lemma EvenSplits(s: seq<nat>)
    requires |s| > 0 && |s| % 2 == 0 && Ascending(s)
    ensures 2 * CountBelow(s, Middle(s)) <= |s| && 2 * CountAbove(s, Middle(s)) <= |s|
  {
    var k := |s| / 2;
    var m := (s[k - 1] + s[k]) as real / 2.0;
    assert Middle(s) == m;
    assert s[k - 1] <= s[k];
    assert forall j :: k <= j < |s| ==> s[j] as real >= m;
    FewBelow(s, k, m);
    assert forall j :: 0 <= j < k ==> s[j] as real <= m;
    FewAbove(s, k, m);
  }

  lemma MedianIsMadeOfValues(xs: seq<nat>, s: seq<nat>)
    requires multiset(s) == multiset(xs) && |s| == |xs| > 0
    ensures |xs| % 2 == 1 ==> exists i :: 0 <= i < |xs| && xs[i] as real == Middle(s)
    ensures |xs| % 2 == 0 ==>
              exists i, j :: 0 <= i < |xs| && 0 <= j < |xs| && (xs[i] + xs[j]) as real / 2.0 == Middle(s)
  {
    var k := |s| / 2;
    assert s[k] in multiset(xs);
    var j :| 0 <= j < |xs| && xs[j] == s[k];
    if |s| % 2 == 0 {
      assert s[k - 1] in multiset(xs);
      var i :| 0 <= i < |xs| && xs[i] == s[k - 1];
      assert (xs[i] + xs[j]) as real / 2.0 == Middle(s);
    }
  }

  /** The per-category row counts, in group order. */
  function Counts(gs: seq<Group>): (cs: seq<nat>)
    ensures |cs| == |gs|
    ensures forall i :: 0 <= i < |gs| ==> cs[i] == gs[i].count
  {
    seq(|gs|, i requires 0 <= i < |gs| => gs[i].count)
  }

  /** The keys of the groups whose count lies strictly below `v`. */
  function KeysBelow(gs: seq<Group>, v: real): set<string> {
    set x | x in gs && (x.count as real) < v :: x.key
  }

  /** The keys of the groups whose count lies strictly above `v`. */
  function KeysAbove(gs: seq<Group>, v: real): set<string> {
    set x | x in gs && (x.count as real) > v :: x.key
  }

  lemma KeysBelowCons(gs: seq<Group>, v: real)
    requires |gs| > 0
    ensures KeysBelow(gs, v)
         == (if (gs[0].count as real) < v then {gs[0].key} else {}) + KeysBelow(gs[1..], v)
    ensures KeysBelow(gs[1..], v) <= KeySet(gs[1..])
  {
    assert forall x :: x in gs <==> x == gs[0] || x in gs[1..];
  }

  /** With distinct keys, the counts below `v` are as many as their keys. */
  lemma {:induction false} CountBelowKeys(gs: seq<Group>, v: real)
    requires DistinctKeys(gs)
    ensures CountBelow(Counts(gs), v) == |KeysBelow(gs, v)|
  {
    if |gs| > 0 {
      HeadKeyFresh(gs);
      CountBelowKeys(gs[1..], v);
      assert Counts(gs)[1..] == Counts(gs[1..]);
      KeysBelowCons(gs, v);
    } else {
      assert KeysBelow(gs, v) == {};
    }
  }

  lemma KeysAboveCons(gs: seq<Group>, v: real)
    requires |gs| > 0
    ensures KeysAbove(gs, v)
         == (if (gs[0].count as real) > v then {gs[0].key} else {}) + KeysAbove(gs[1..], v)
    ensures KeysAbove(gs[1..], v) <= KeySet(gs[1..])
  {
    assert forall x :: x in gs <==> x == gs[0] || x in gs[1..];
  }

  /** With distinct keys, the counts above `v` are as many as their keys. */
  lemma {:induction false} CountAboveKeys(gs: seq<Group>, v: real)
    requires DistinctKeys(gs)
    ensures CountAbove(Counts(gs), v) == |KeysAbove(gs, v)|
  {
    if |gs| > 0 {
      HeadKeyFresh(gs);
      CountAboveKeys(gs[1..], v);
      assert Counts(gs)[1..] == Counts(gs[1..]);
      KeysAboveCons(gs, v);
    } else {
      assert KeysAbove(gs, v) == {};
    }
  }

  /** The categories with strictly fewer than `v` rows. */
  function CategoriesBelow(rows: seq<Row>, v: real): set<string> {
    set k | k in Keys(rows, ByCategory) && (KeyCount(rows, ByCategory, k) as real) < v
  }

  /** The categories with strictly more than `v` rows. */
  function CategoriesAbove(rows: seq<Row>, v: real): set<string> {
    set k | k in Keys(rows, ByCategory) && (KeyCount(rows, ByCategory, k) as real) > v
  }

  /** The category groups below or above `v` are the categories below or above it. */
  lemma GroupsAreCategories(rows: seq<Row>, gs: seq<Group>, v: real)
    requires gs == GroupRows(rows, ByCategory)
    ensures KeysBelow(gs, v) == CategoriesBelow(rows, v)
    ensures KeysAbove(gs, v) == CategoriesAbove(rows, v)
  {
    forall k | k in Keys(rows, ByCategory)
      ensures exists x :: x in gs && x.key == k
    {
      assert k in KeySet(gs);
    }
  }

  /** Counting group counts below or above `v` counts the categories below
      or above it. */
  lemma CountsAreCategories(rows: seq<Row>, gs: seq<Group>, v: real)
    requires gs == GroupRows(rows, ByCategory)
    ensures CountBelow(Counts(gs), v) == |CategoriesBelow(rows, v)|
    ensures CountAbove(Counts(gs), v) == |CategoriesAbove(rows, v)|
  {
    CountBelowKeys(gs, v);
    CountAboveKeys(gs, v);
    GroupsAreCategories(rows, gs, v);
  }

  /** The `i`-th group count is the row count of a category. */
  lemma CountIsCategoryCount(rows: seq<Row>, gs: seq<Group>, i: int)
    requires gs == GroupRows(rows, ByCategory) && 0 <= i < |gs|
    ensures gs[i].key in Keys(rows, ByCategory)
    ensures Counts(gs)[i] == KeyCount(rows, ByCategory, gs[i].key)
  {
    assert gs[i] in gs;
    assert gs[i].key in KeySet(gs);
  }

  /** `lo` and `hi` are the two middle category row counts among `n`
      categories: `MiddlePair` stated over categories. */
  predicate CategoryMiddlePair(rows: seq<Row>, n: nat, lo: nat, hi: nat) {
    && 2 * |CategoriesBelow(rows, lo as real)| + 2 <= n
    && 2 * |CategoriesAbove(rows, lo as real)| <= n
    && 2 * |CategoriesBelow(rows, hi as real)| <= n
    && 2 * |CategoriesAbove(rows, hi as real)| + 2 <= n
  }

  /** Median of the per-category row counts; None when no row has a category.
      At most half of the categories have fewer rows than the median and at
      most half more; for an odd number of categories it is one category's
      count, and for an even number it is the mean of the two middle
      category counts. */
  function MedianCount(rows: seq<Row>): (m: Option<real>)
    ensures m.None? <==> Keys(rows, ByCategory) == {}
    ensures m.Some? ==> 2 * |CategoriesBelow(rows, m.value)| <= |Keys(rows, ByCategory)|
    ensures m.Some? ==> 2 * |CategoriesAbove(rows, m.value)| <= |Keys(rows, ByCategory)|
    ensures m.Some? && |Keys(rows, ByCategory)| % 2 == 1 ==>
              exists k :: k in Keys(rows, ByCategory) && KeyCount(rows, ByCategory, k) as real == m.value
    ensures m.Some? && |Keys(rows, ByCategory)| % 2 == 0 ==>
              exists k, l :: k in Keys(rows, ByCategory) && l in Keys(rows, ByCategory)
                && (KeyCount(rows, ByCategory, k) + KeyCount(rows, ByCategory, l)) as real / 2.0 == m.value
    ensures m.Some? && |Keys(rows, ByCategory)| % 2 == 0 ==>
              exists lo: nat, hi: nat :: CategoryMiddlePair(rows, |Keys(rows, ByCategory)|, lo, hi)
                && m.value == (lo + hi) as real / 2.0
  {
    var gs := GroupRows(rows, ByCategory);
    DistinctKeysCount(gs);
    MedianCountBalance(rows, gs);
    MedianOfCategories(rows, gs);
    MedianCountMiddles(rows, gs);
    Median(Counts(gs))
  }

  /** The median's balance over the groups, carried over to categories. */
  lemma MedianCountBalance(rows: seq<Row>, gs: seq<Group>)
    requires gs == GroupRows(rows, ByCategory)
    ensures var m := Median(Counts(gs));
            m.Some? ==> 2 * |CategoriesBelow(rows, m.value)| <= |gs| && 2 * |CategoriesAbove(rows, m.value)| <= |gs|
  {
    var m := Median(Counts(gs));
    if m.Some? {
      MedianBalances(Counts(gs));
      CountsAreCategories(rows, gs, m.value);
    }
  }

  /** `v` is one category's count for an odd number `n` of categories, and
      the mean of two categories' counts for an even number. */
  predicate MedianOfCategoriesHolds(rows: seq<Row>, n: nat, v: real) {
    && (n % 2 == 1 ==>
          exists k :: k in Keys(rows, ByCategory) && KeyCount(rows, ByCategory, k) as real == v)
    && (n % 2 == 0 ==>
          exists k, l :: k in Keys(rows, ByCategory) && l in Keys(rows, ByCategory)
            && (KeyCount(rows, ByCategory, k) + KeyCount(rows, ByCategory, l)) as real / 2.0 == v)
  }

  /** The median of the group counts is built from category row counts. */
  lemma MedianOfCategories(rows: seq<Row>, gs: seq<Group>)
    requires gs == GroupRows(rows, ByCategory)
    ensures Median(Counts(gs)).Some? ==> MedianOfCategoriesHolds(rows, |gs|, Median(Counts(gs)).value)
  {
    if Median(Counts(gs)).Some? {
      if |gs| % 2 == 1 {
        OddMedianIsCategoryCount(rows, gs);
      } else {
        EvenMedianIsCategoryMean(rows, gs);
      }
    }
  }

  /** The position of a value equal to the median of an odd number of values. */
  lemma OddMedianIndex(xs: seq<nat>) returns (i: int)
    requires |xs| % 2 == 1
    ensures Median(xs).Some? && 0 <= i < |xs| && xs[i] as real == Median(xs).value
  {
    i :| 0 <= i < |xs| && xs[i] as real == Median(xs).value;
  }

  /** The positions of two values whose mean is the median of an even number of values. */
  lemma EvenMedianIndices(xs: seq<nat>) returns (i: int, j: int)
    requires |xs| > 0 && |xs| % 2 == 0
    ensures Median(xs).Some? && 0 <= i < |xs| && 0 <= j < |xs| && (xs[i] + xs[j]) as real / 2.0 == Median(xs).value
  {
    i, j :| 0 <= i < |xs| && 0 <= j < |xs| && (xs[i] + xs[j]) as real / 2.0 == Median(xs).value;
  }

  lemma OddMedianIsCategoryCount(rows: seq<Row>, gs: seq<Group>)
    requires gs == GroupRows(rows, ByCategory)
    requires Median(Counts(gs)).Some? && |gs| % 2 == 1
    ensures exists k :: k in Keys(rows, ByCategory) && KeyCount(rows, ByCategory, k) as real == Median(Counts(gs)).value
  {
    var i := OddMedianIndex(Counts(gs));
    CountIsCategoryCount(rows, gs, i);
  }

  lemma EvenMedianIsCategoryMean(rows: seq<Row>, gs: seq<Group>)
    requires gs == GroupRows(rows, ByCategory)
    requires Median(Counts(gs)).Some? && |gs| % 2 == 0
    ensures exists k, l :: k in Keys(rows, ByCategory) && l in Keys(rows, ByCategory)
              && (KeyCount(rows, ByCategory, k) + KeyCount(rows, ByCategory, l)) as real / 2.0
                 == Median(Counts(gs)).value
  {
    var i, j := EvenMedianIndices(Counts(gs));
    CountIsCategoryCount(rows, gs, i);
    CountIsCategoryCount(rows, gs, j);
  }

  /** For an even number of categories, the middle pair of the group counts
      is a middle pair of the categories. */
  lemma MedianCountMiddles(rows: seq<Row>, gs: seq<Group>)
    requires gs == GroupRows(rows, ByCategory)
    ensures var m := Median(Counts(gs));
            m.Some? && |gs| % 2 == 0 ==>
              exists lo: nat, hi: nat :: CategoryMiddlePair(rows, |gs|, lo, hi) && m.value == (lo + hi) as real / 2.0
  {
    var cs := Counts(gs);
    if Median(cs).Some? && |gs| % 2 == 0 {
      MedianMiddles(cs);
      var lo: nat, hi: nat :| MiddlePair(cs, lo, hi) && Median(cs).value == (lo + hi) as real / 2.0;
      CountsAreCategories(rows, gs, lo as real);
      CountsAreCategories(rows, gs, hi as real);
      assert CategoryMiddlePair(rows, |gs|, lo, hi);
    }
  }

  /** There is only one middle pair of categories, so with `MedianCount`'s
      even-case clause the median is fixed: counts 1 and 3 give 2. */
  lemma CategoryMiddlePairUnique(rows: seq<Row>, lo: nat, hi: nat, lo': nat, hi': nat)
    ensures var n := |Keys(rows, ByCategory)|;
            n > 0 && n % 2 == 0 && CategoryMiddlePair(rows, n, lo, hi) && CategoryMiddlePair(rows, n, lo', hi')
            ==> lo == lo' && hi == hi'
  {
    var n := |Keys(rows, ByCategory)|;
    if n > 0 && n % 2 == 0 && CategoryMiddlePair(rows, n, lo, hi) && CategoryMiddlePair(rows, n, lo', hi') {
      var gs := GroupRows(rows, ByCategory);
      var cs := Counts(gs);
      DistinctKeysCount(gs);
      CountsAreCategories(rows, gs, lo as real);
      CountsAreCategories(rows, gs, hi as real);
      CountsAreCategories(rows, gs, lo' as real);
      CountsAreCategories(rows, gs, hi' as real);
      assert MiddlePair(cs, lo, hi) && MiddlePair(cs, lo', hi');
      MiddlePairIsSorted(cs, lo, hi);
      MiddlePairIsSorted(cs, lo', hi');
    }
  }

  /** The threshold test: strictly more than one and a half times the median. */
  predicate AboveThreshold(count: nat, median: real) {
    count as real > median * 1.5
  }

  /** The keys of the groups whose count passes the threshold set by the
      median of the groups' counts. */
  function HighVolumeKeys(gs: seq<Group>): set<string> {
    match Median(Counts(gs))
    case None => {}
    case Some(m) => set x | x in gs && AboveThreshold(x.count, m) :: x.key
  }

  /** The high-volume categories of a table. */
  function HighVolumeCategories(rows: seq<Row>): (r: set<string>)
    ensures forall c :: c in r ==>
              c in Keys(rows, ByCategory) && MedianCount(rows).Some?
              && KeyCount(rows, ByCategory, c) as real > 1.5 * MedianCount(rows).value
    ensures forall c ::
              (c in Keys(rows, ByCategory) && MedianCount(rows).Some?
               && KeyCount(rows, ByCategory, c) as real > 1.5 * MedianCount(rows).value) ==> c in r
  {
    var gs := GroupRows(rows, ByCategory);
    var r := HighVolumeKeys(gs);
    assert forall c :: c in Keys(rows, ByCategory) ==> exists x :: x in gs && x.key == c;
    r
  }

  /** The median of three counts, two of which are equal and no larger
      than the third, is that shared count. */
  lemma MedianOfThree(a: nat, c: nat)
    requires a <= c
    ensures Median([a, a, c]) == Some(a as real)
  {
    var s := SortAsc([a, a, c]);
    assert multiset(s) == multiset{a, a, c};
    assert |s| == |multiset(s)| == 3;
    assert s[0] in multiset(s) && s[1] in multiset(s) && s[2] in multiset(s);
    assert s[0] <= s[1] <= s[2];
    assert s[1] == a;
  }

  /** Three categories with 2, 2 and 3 rows: the median is 2, so the
      threshold is 3, and a count of exactly 3 does not qualify. */
  lemma CountAtThresholdExcluded(a: string, b: string, c: string)
    ensures Median([2, 2, 3]) == Some(2.0)
    ensures HighVolumeKeys([Group(a, 0.0, 2), Group(b, 0.0, 2), Group(c, 0.0, 3)]) == {}
  {
    var gs := [Group(a, 0.0, 2), Group(b, 0.0, 2), Group(c, 0.0, 3)];
    assert Counts(gs) == [2, 2, 3];
    MedianOfThree(2, 3);
    NoneAboveTwo(a, b, c);
  }

  lemma NoneAboveTwo(a: string, b: string, c: string)
    ensures (set x | x in [Group(a, 0.0, 2), Group(b, 0.0, 2), Group(c, 0.0, 3)] && AboveThreshold(x.count, 2.0) :: x.key) == {}
  {
    var gs := [Group(a, 0.0, 2), Group(b, 0.0, 2), Group(c, 0.0, 3)];
    assert forall x :: x in gs ==> !AboveThreshold(x.count, 2.0);
  }

  /** With 2, 2 and 4 rows the threshold is still 3, and the category with
      4 rows is the only one that qualifies. */
  lemma CountAboveThresholdIncluded(a: string, b: string, c: string)
    requires c != a && c != b
    ensures HighVolumeKeys([Group(a, 0.0, 2), Group(b, 0.0, 2), Group(c, 0.0, 4)]) == {c}
  {
    var gs := [Group(a, 0.0, 2), Group(b, 0.0, 2), Group(c, 0.0, 4)];
    assert Counts(gs) == [2, 2, 4];
    MedianOfThree(2, 4);
    OnlyLargestAboveTwo(a, b, c);
  }

  lemma OnlyLargestAboveTwo(a: string, b: string, c: string)
    requires c != a && c != b
    ensures (set x | x in [Group(a, 0.0, 2), Group(b, 0.0, 2), Group(c, 0.0, 4)] && AboveThreshold(x.count, 2.0) :: x.key) == {c}
  {
    var gs := [Group(a, 0.0, 2), Group(b, 0.0, 2), Group(c, 0.0, 4)];
    var hv := set x | x in gs && AboveThreshold(x.count, 2.0) :: x.key;
    assert AboveThreshold(gs[2].count, 2.0);
    assert c in hv;
    forall k | k in hv ensures k == c {
      var x :| x in gs && AboveThreshold(x.count, 2.0) && x.key == k;
      assert x == gs[2];
    }
  }

  /** The row predicate of the installment chart. */
  function InCategories(cats: set<string>): Row -> bool {
    (x: Row) => x.category.Some? && x.category.value in cats
  }

  /** `isin`: the rows whose category is one of `cats`, in table order (a
      row without a category is never in the list). */
  function RowsOfCategories(rows: seq<Row>, cats: set<string>): (r: seq<Row>)
    ensures forall x :: x in r ==> x.category.Some? && x.category.value in cats
    ensures forall x :: x in rows && x.category.Some? && x.category.value in cats
              ==> multiset(r)[x] == multiset(rows)[x]
    ensures forall x :: multiset(r)[x] <= multiset(rows)[x]
    ensures IsSubsequence(r, rows)
  {
    Filter(rows, InCategories(cats))
  }

  /** The rows of the installment chart: exactly the rows of high-volume
      categories, in table order. */
  function FilteredByQuantity(rows: seq<Row>): (r: seq<Row>)
    ensures forall x :: x in r ==> x in rows && x.category.Some? && x.category.value in HighVolumeCategories(rows)
    ensures forall x :: x in rows && x.category.Some? && x.category.value in HighVolumeCategories(rows) ==> x in r
    ensures forall x :: x in rows && x.category.Some? && x.category.value in HighVolumeCategories(rows)
              ==> multiset(r)[x] == multiset(rows)[x]
    ensures IsSubsequence(r, rows)
  {
    RowsOfCategories(rows, HighVolumeCategories(rows))
  }
}
