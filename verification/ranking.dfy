/** Grouped sales: rows grouped by category or by state, each group's price
    sum and row count, the groups ranked by a measure in non-increasing
    order, and the first N of the ranking. */
module Ranking {
  import opened Wrappers
  import opened Orders

  /** The column a table is grouped by. Rows without a category belong to no
      category group. */
  datatype GroupKey = ByCategory | ByState

  function KeyOf(r: Row, g: GroupKey): Option<string> {
    match g
    case ByCategory => r.category
    case ByState => Some(r.state)
  }

  /** One group: its key, the sum of its rows' prices and its row count. */
  datatype Group = Group(key: string, total: real, count: nat)

  /** The keys occurring in the table. */
  function Keys(rows: seq<Row>, g: GroupKey): set<string> {
    set r | r in rows && KeyOf(r, g).Some? :: KeyOf(r, g).value
  }

  /** Price sum of the rows with key `k`. */
  function KeyTotal(rows: seq<Row>, g: GroupKey, k: string): real {
    if |rows| == 0 then 0.0
    else (if KeyOf(rows[0], g) == Some(k) then rows[0].price else 0.0) + KeyTotal(rows[1..], g, k)
  }

  /** Number of rows with key `k`. */
  function KeyCount(rows: seq<Row>, g: GroupKey, k: string): nat {
    if |rows| == 0 then 0
    else (if KeyOf(rows[0], g) == Some(k) then 1 else 0) + KeyCount(rows[1..], g, k)
  }

  /** Price sum of the rows that have a key at all. */
  function KeyedTotal(rows: seq<Row>, g: GroupKey): real {
    if |rows| == 0 then 0.0
    else (if KeyOf(rows[0], g).Some? then rows[0].price else 0.0) + KeyedTotal(rows[1..], g)
  }

  /** Number of rows that have a key at all. */
  function KeyedCount(rows: seq<Row>, g: GroupKey): nat {
    if |rows| == 0 then 0
    else (if KeyOf(rows[0], g).Some? then 1 else 0) + KeyedCount(rows[1..], g)
  }

  lemma KeysCons(rows: seq<Row>, g: GroupKey)
    requires |rows| > 0
    ensures Keys(rows, g) == Keys(rows[1..], g) + (if KeyOf(rows[0], g).Some? then {KeyOf(rows[0], g).value} else {})
  {
    assert forall r :: r in rows <==> r == rows[0] || r in rows[1..];
  }

  function KeySet(gs: seq<Group>): set<string> {
    set x | x in gs :: x.key
  }

  predicate DistinctKeys(gs: seq<Group>) {
    forall i, j :: 0 <= i < j < |gs| ==> gs[i].key != gs[j].key
  }

  /** Sum of the totals of the groups with key `k`. */
  function TotalFor(gs: seq<Group>, k: string): real {
    if |gs| == 0 then 0.0 else (if gs[0].key == k then gs[0].total else 0.0) + TotalFor(gs[1..], k)
  }

  /** Sum of the counts of the groups with key `k`. */
  function CountFor(gs: seq<Group>, k: string): nat {
    if |gs| == 0 then 0 else (if gs[0].key == k then gs[0].count else 0) + CountFor(gs[1..], k)
  }

  function SumTotals(gs: seq<Group>): real {
    if |gs| == 0 then 0.0 else gs[0].total + SumTotals(gs[1..])
  }

  function SumCounts(gs: seq<Group>): nat {
    if |gs| == 0 then 0 else gs[0].count + SumCounts(gs[1..])
  }

  lemma KeySetCons(gs: seq<Group>)
    requires |gs| > 0
    ensures KeySet(gs) == {gs[0].key} + KeySet(gs[1..])
  {
    assert forall x :: x in gs <==> x == gs[0] || x in gs[1..];
  }

  /** With distinct keys, the head's key is not among the tail's keys. */
  lemma HeadKeyFresh(gs: seq<Group>)
    requires |gs| > 0 && DistinctKeys(gs)
    ensures gs[0].key !in KeySet(gs[1..])
    ensures DistinctKeys(gs[1..])
  {
    forall x | x in gs[1..] ensures x.key != gs[0].key {
      var j :| 0 <= j < |gs[1..]| && gs[1..][j] == x;
      assert gs[j + 1] == x;
    }
  }

  /** A fresh key in front of groups with distinct keys keeps keys distinct. */
  lemma ConsDistinct(x: Group, gs: seq<Group>)
    requires DistinctKeys(gs) && x.key !in KeySet(gs)
    ensures DistinctKeys([x] + gs)
  {
    var r := [x] + gs;
    forall i, j | 0 <= i < j < |r| ensures r[i].key != r[j].key {
      assert r[j] == gs[j - 1];
      if i > 0 {
        assert r[i] == gs[i - 1];
      } else {
        assert gs[j - 1] in gs;
      }
    }
  }

  /** Adds one row with key `k` and price `price` to the groups: the group
      of `k` gains the price and one row, or a new group is appended. */
  function Accumulate(gs: seq<Group>, k: string, price: real): (r: seq<Group>)
    ensures |r| > 0
  {
    if |gs| == 0 then [Group(k, price, 1)]
    else if gs[0].key == k then [Group(k, gs[0].total + price, gs[0].count + 1)] + gs[1..]
    else [gs[0]] + Accumulate(gs[1..], k, price)
  }

  lemma {:induction false} AccumulateKeys(gs: seq<Group>, k: string, price: real)
    ensures KeySet(Accumulate(gs, k, price)) == KeySet(gs) + {k}
  {
    var r := Accumulate(gs, k, price);
    KeySetCons(r);
    if |gs| == 0 {
      assert r[1..] == [];
    } else {
      KeySetCons(gs);
      if gs[0].key == k {
        assert r[1..] == gs[1..];
      } else {
        assert r[1..] == Accumulate(gs[1..], k, price);
        AccumulateKeys(gs[1..], k, price);
      }
    }
  }

  lemma {:induction false} AccumulateDistinct(gs: seq<Group>, k: string, price: real)
    requires DistinctKeys(gs)
    ensures DistinctKeys(Accumulate(gs, k, price))
  {
    var r := Accumulate(gs, k, price);
    if |gs| > 0 {
      HeadKeyFresh(gs);
      if gs[0].key == k {
        assert r == [r[0]] + gs[1..];
        ConsDistinct(r[0], gs[1..]);
      } else {
        var rest := Accumulate(gs[1..], k, price);
        AccumulateDistinct(gs[1..], k, price);
        AccumulateKeys(gs[1..], k, price);
        ConsDistinct(gs[0], rest);
      }
    }
  }

  lemma {:induction false} AccumulateTally(gs: seq<Group>, k: string, price: real, key: string)
    ensures TotalFor(Accumulate(gs, k, price), key) == TotalFor(gs, key) + (if key == k then price else 0.0)
    ensures CountFor(Accumulate(gs, k, price), key) == CountFor(gs, key) + (if key == k then 1 else 0)
  {
    var r := Accumulate(gs, k, price);
    if |gs| == 0 {
      assert r[1..] == [];
    } else if gs[0].key == k {
      assert r[1..] == gs[1..];
    } else {
      assert r[1..] == Accumulate(gs[1..], k, price);
      AccumulateTally(gs[1..], k, price, key);
    }
  }

  lemma {:induction false} AccumulateSums(gs: seq<Group>, k: string, price: real)
    ensures SumTotals(Accumulate(gs, k, price)) == SumTotals(gs) + price
    ensures SumCounts(Accumulate(gs, k, price)) == SumCounts(gs) + 1
  {
    var r := Accumulate(gs, k, price);
    if |gs| == 0 {
      assert r[1..] == [];
    } else if gs[0].key == k {
      assert r[1..] == gs[1..];
    } else {
      assert r[1..] == Accumulate(gs[1..], k, price);
      AccumulateSums(gs[1..], k, price);
    }
  }

  lemma {:induction false} AccumulatePositive(gs: seq<Group>, k: string, price: real)
    requires forall x :: x in gs ==> x.count >= 1
    ensures forall x :: x in Accumulate(gs, k, price) ==> x.count >= 1
  {
    var r := Accumulate(gs, k, price);
    if |gs| > 0 && gs[0].key != k {
      assert forall x :: x in gs[1..] ==> x in gs;
      AccumulatePositive(gs[1..], k, price);
      assert forall x :: x in r ==> x == gs[0] || x in Accumulate(gs[1..], k, price);
    } else if |gs| > 0 {
      assert forall x :: x in r ==> x == r[0] || x in gs[1..];
    }
  }

  /** The streaming group-by: each row is added to its key's group; rows
      without a key are dropped. */
  function Tally(rows: seq<Row>, g: GroupKey): seq<Group> {
    if |rows| == 0 then []
    else
      match KeyOf(rows[0], g)
      case None => Tally(rows[1..], g)
      case Some(k) => Accumulate(Tally(rows[1..], g), k, rows[0].price)
  }

  lemma {:induction false} TallyShape(rows: seq<Row>, g: GroupKey)
    ensures DistinctKeys(Tally(rows, g))
    ensures KeySet(Tally(rows, g)) == Keys(rows, g)
    ensures forall x :: x in Tally(rows, g) ==> x.count >= 1
  {
    if |rows| > 0 {
      TallyShape(rows[1..], g);
      KeysCons(rows, g);
      var rest := Tally(rows[1..], g);
      if KeyOf(rows[0], g).Some? {
        var k := KeyOf(rows[0], g).value;
        AccumulateKeys(rest, k, rows[0].price);
        AccumulateDistinct(rest, k, rows[0].price);
        AccumulatePositive(rest, k, rows[0].price);
      }
    }
  }

  lemma {:induction false} TallyCounts(rows: seq<Row>, g: GroupKey, key: string)
    ensures TotalFor(Tally(rows, g), key) == KeyTotal(rows, g, key)
    ensures CountFor(Tally(rows, g), key) == KeyCount(rows, g, key)
  {
    if |rows| > 0 {
      TallyCounts(rows[1..], g, key);
      if KeyOf(rows[0], g).Some? {
        AccumulateTally(Tally(rows[1..], g), KeyOf(rows[0], g).value, rows[0].price, key);
      }
    }
  }

  lemma {:induction false} TallySums(rows: seq<Row>, g: GroupKey)
    ensures SumTotals(Tally(rows, g)) == KeyedTotal(rows, g)
    ensures SumCounts(Tally(rows, g)) == KeyedCount(rows, g)
  {
    if |rows| > 0 {
      TallySums(rows[1..], g);
      if KeyOf(rows[0], g).Some? {
        AccumulateSums(Tally(rows[1..], g), KeyOf(rows[0], g).value, rows[0].price);
      }
    }
  }

  /** In groups with distinct keys, the lookup by a group's key finds that group. */
  lemma {:induction false} LookupOwnKey(gs: seq<Group>, i: nat)
    requires DistinctKeys(gs) && i < |gs|
    ensures TotalFor(gs, gs[i].key) == gs[i].total
    ensures CountFor(gs, gs[i].key) == gs[i].count
  {
    HeadKeyFresh(gs);
    if i == 0 {
      AbsentKeyLooksUpZero(gs[1..], gs[0].key);
    } else {
      LookupOwnKey(gs[1..], i - 1);
    }
  }

  lemma {:induction false} AbsentKeyLooksUpZero(gs: seq<Group>, k: string)
    requires k !in KeySet(gs)
    ensures TotalFor(gs, k) == 0.0 && CountFor(gs, k) == 0
  {
    if |gs| > 0 {
      KeySetCons(gs);
      AbsentKeyLooksUpZero(gs[1..], k);
    }
  }

  /** Group-by on one key column: one group per key that occurs, carrying
      exactly the price sum and the row count of that key. */
  function GroupRows(rows: seq<Row>, g: GroupKey): (gs: seq<Group>)
    ensures DistinctKeys(gs)
    ensures KeySet(gs) == Keys(rows, g)
    ensures forall x :: x in gs ==> x.total == KeyTotal(rows, g, x.key)
    ensures forall x :: x in gs ==> x.count == KeyCount(rows, g, x.key) && x.count >= 1
  {
    var gs := Tally(rows, g);
    TallyShape(rows, g);
    assert forall x :: x in gs ==> x.total == KeyTotal(rows, g, x.key) && x.count == KeyCount(rows, g, x.key) by {
      forall x | x in gs
        ensures x.total == KeyTotal(rows, g, x.key) && x.count == KeyCount(rows, g, x.key)
      {
        var i :| 0 <= i < |gs| && gs[i] == x;
        LookupOwnKey(gs, i);
        TallyCounts(rows, g, x.key);
      }
    }
    gs
  }

  /** The group totals add up to the sales of the keyed rows and the group
      counts to the number of keyed rows; grouped by state that is all
      sales, since every row has a state. */
  lemma GroupTotalsPartitionSales(rows: seq<Row>, g: GroupKey)
    ensures SumTotals(GroupRows(rows, g)) == KeyedTotal(rows, g)
    ensures SumCounts(GroupRows(rows, g)) == KeyedCount(rows, g)
    ensures SumTotals(GroupRows(rows, ByState)) == TotalPrice(rows)
  {
    TallySums(rows, g);
    TallySums(rows, ByState);
    StateKeysEveryRow(rows);
  }

  lemma {:induction false} StateKeysEveryRow(rows: seq<Row>)
    ensures KeyedTotal(rows, ByState) == TotalPrice(rows)
  {
    if |rows| > 0 {
      StateKeysEveryRow(rows[1..]);
    }
  }

  /** Distinct keys: as many groups as keys. */
  lemma {:induction false} DistinctKeysCount(gs: seq<Group>)
    requires DistinctKeys(gs)
    ensures |KeySet(gs)| == |gs|
  {
    if |gs| > 0 {
      KeySetCons(gs);
      HeadKeyFresh(gs);
      DistinctKeysCount(gs[1..]);
    }
  }

  /** The quantity a ranking orders groups by: summed price or row count. */
  datatype Measure = Revenue | Volume

  function Weight(x: Group, m: Measure): real {
    match m
    case Revenue => x.total
    case Volume => x.count as real
  }

  /** Non-increasing by the measure. */
  predicate RankedBy(s: seq<Group>, m: Measure) {
    forall i, j :: 0 <= i < j < |s| ==> Weight(s[i], m) >= Weight(s[j], m)
  }

  /** A group weighing at least as much as every group of a ranking can
      head it. */
  lemma ConsRanked(a: Group, rest: seq<Group>, m: Measure)
    requires RankedBy(rest, m)
    requires forall y :: y in rest ==> Weight(y, m) <= Weight(a, m)
    ensures RankedBy([a] + rest, m)
  {
    var r := [a] + rest;
    forall i, j | 0 <= i < j < |r| ensures Weight(r[i], m) >= Weight(r[j], m) {
      assert r[j] == rest[j - 1];
      if i > 0 {
        assert r[i] == rest[i - 1];
      } else {
        assert rest[j - 1] in rest;
      }
    }
  }

  /** Inserts `x` into a ranking before the first group it outweighs or ties. */
  function Insert(x: Group, s: seq<Group>, m: Measure): (r: seq<Group>)
    requires RankedBy(s, m)
    ensures RankedBy(r, m)
    ensures multiset(r) == multiset(s) + multiset{x}
  {
    if |s| == 0 then [x]
    else if Weight(x, m) >= Weight(s[0], m) then
      ConsRanked(x, s, m);
      [x] + s
    else
      var rest := Insert(x, s[1..], m);
      assert s == [s[0]] + s[1..];
      InsertBelowHead(x, s, rest, m);
      ConsRanked(s[0], rest, m);
      [s[0]] + rest
  }

  lemma InsertBelowHead(x: Group, s: seq<Group>, rest: seq<Group>, m: Measure)
    requires |s| > 0 && RankedBy(s, m) && Weight(x, m) < Weight(s[0], m)
    requires multiset(rest) == multiset(s[1..]) + multiset{x}
    ensures forall y :: y in rest ==> Weight(y, m) <= Weight(s[0], m)
  {
    forall y | y in rest ensures Weight(y, m) <= Weight(s[0], m) {
      assert y in multiset(rest);
      if y != x {
        assert y in multiset(s[1..]);
        var j :| 0 <= j < |s[1..]| && s[1..][j] == y;
        assert s[j + 1] == y;
      }
    }
  }

  /** Insertion sort into non-increasing order of the measure (a
      `sort_values(ascending=False)`; the order among equal weights is not
      specified). */
  function SortDesc(s: seq<Group>, m: Measure): (r: seq<Group>)
    ensures RankedBy(r, m)
    ensures multiset(r) == multiset(s)
  {
    if |s| == 0 then []
    else
      assert s == [s[0]] + s[1..];
      Insert(s[0], SortDesc(s[1..], m), m)
  }

  /** Groups with the same elements have the same keys. */
  lemma PermutedKeys(a: seq<Group>, b: seq<Group>)
    requires multiset(a) == multiset(b)
    ensures KeySet(a) == KeySet(b)
    ensures forall x :: x in a <==> x in b
  {
    assert forall x :: x in a <==> x in multiset(a);
    assert forall x :: x in b <==> x in multiset(b);
  }

  lemma {:induction false} InsertDistinct(x: Group, s: seq<Group>, m: Measure)
    requires RankedBy(s, m) && DistinctKeys(s) && x.key !in KeySet(s)
    ensures DistinctKeys(Insert(x, s, m))
  {
    if |s| == 0 {
    } else if Weight(x, m) >= Weight(s[0], m) {
      ConsDistinct(x, s);
    } else {
      HeadKeyFresh(s);
      KeySetCons(s);
      InsertDistinct(x, s[1..], m);
      var rest := Insert(x, s[1..], m);
      assert multiset(rest) == multiset(s[1..]) + multiset{x};
      assert multiset(rest) == multiset(s[1..] + [x]);
      PermutedKeys(rest, s[1..] + [x]);
      assert KeySet(s[1..] + [x]) == KeySet(s[1..]) + {x.key} by {
        assert forall y :: y in s[1..] + [x] <==> y in s[1..] || y == x;
      }
      ConsDistinct(s[0], rest);
    }
  }

  lemma {:induction false} SortDistinct(s: seq<Group>, m: Measure)
    requires DistinctKeys(s)
    ensures DistinctKeys(SortDesc(s, m))
  {
    if |s| > 0 {
      HeadKeyFresh(s);
      SortDistinct(s[1..], m);
      PermutedKeys(SortDesc(s[1..], m), s[1..]);
      InsertDistinct(s[0], SortDesc(s[1..], m), m);
    }
  }

  /** Total or count of key `k`, as the measure weighs it. */
  function KeyWeight(rows: seq<Row>, g: GroupKey, m: Measure, k: string): real {
    match m
    case Revenue => KeyTotal(rows, g, k)
    case Volume => KeyCount(rows, g, k) as real
  }

  /** The groups ranked by the measure, with distinct keys. */
  function Ranked(rows: seq<Row>, g: GroupKey, m: Measure): (r: seq<Group>)
    ensures RankedBy(r, m)
    ensures DistinctKeys(r)
    ensures KeySet(r) == Keys(rows, g)
    ensures |r| == |Keys(rows, g)|
    ensures forall x :: x in r ==> x.total == KeyTotal(rows, g, x.key) && x.count == KeyCount(rows, g, x.key)
  {
    var gs := GroupRows(rows, g);
    var r := SortDesc(gs, m);
    SortDistinct(gs, m);
    PermutedKeys(r, gs);
    DistinctKeysCount(gs);
    assert |r| == |multiset(r)| == |gs|;
    r
  }

  /** The first `n` groups of the ranking by `m`: the `head(n)` of the sorted
      group-by. Every key left out weighs no more than any key kept. */
  function Top(rows: seq<Row>, g: GroupKey, m: Measure, n: nat): (r: seq<Group>)
    ensures |r| == if n < |Keys(rows, g)| then n else |Keys(rows, g)|
    ensures r == Ranked(rows, g, m)[..|r|]
    ensures RankedBy(r, m)
    ensures DistinctKeys(r)
    ensures forall x :: x in r ==> x.key in Keys(rows, g)
    ensures forall x :: x in r ==> x.total == KeyTotal(rows, g, x.key) && x.count == KeyCount(rows, g, x.key)
    ensures forall x, k :: x in r && k in Keys(rows, g) && k !in KeySet(r) ==> KeyWeight(rows, g, m, k) <= Weight(x, m)
  {
    var ranked := Ranked(rows, g, m);
    var len := if n < |ranked| then n else |ranked|;
    var r := ranked[..len];
    TopDominates(rows, g, m, ranked, len);
    assert forall x :: x in r ==> x in ranked;
    r
  }

  lemma TopDominates(rows: seq<Row>, g: GroupKey, m: Measure, ranked: seq<Group>, len: nat)
    requires ranked == Ranked(rows, g, m) && len <= |ranked|
    ensures forall x, k :: x in ranked[..len] && k in Keys(rows, g) && k !in KeySet(ranked[..len]) ==>
              KeyWeight(rows, g, m, k) <= Weight(x, m)
  {
    var r := ranked[..len];
    forall x, k | x in r && k in Keys(rows, g) && k !in KeySet(r)
      ensures KeyWeight(rows, g, m, k) <= Weight(x, m)
    {
      var i :| 0 <= i < len && r[i] == x;
      var y :| y in ranked && y.key == k;
      var j :| 0 <= j < |ranked| && ranked[j] == y;
      assert Weight(ranked[i], m) >= Weight(ranked[j], m);
    }
  }

  /** The 20 best-selling categories: up to 20 distinct categories with their
      sales, best first, and no category left out sold more than one shown. */
  function TopCategories(rows: seq<Row>): (r: seq<Group>)
    ensures |r| == if 20 < |Keys(rows, ByCategory)| then 20 else |Keys(rows, ByCategory)|
    ensures forall i, j :: 0 <= i < j < |r| ==> r[i].total >= r[j].total && r[i].key != r[j].key
    ensures forall x :: x in r ==> x.key in Keys(rows, ByCategory) && x.total == KeyTotal(rows, ByCategory, x.key)
    ensures forall x, k :: x in r && k in Keys(rows, ByCategory) && k !in KeySet(r) ==>
              KeyTotal(rows, ByCategory, k) <= x.total
  {
    Top(rows, ByCategory, Revenue, 20)
  }

  /** The 10 best-selling customer states, in the same sense. */
  function TopStates(rows: seq<Row>): (r: seq<Group>)
    ensures |r| == if 10 < |Keys(rows, ByState)| then 10 else |Keys(rows, ByState)|
    ensures forall i, j :: 0 <= i < j < |r| ==> r[i].total >= r[j].total && r[i].key != r[j].key
    ensures forall x :: x in r ==> x.key in Keys(rows, ByState) && x.total == KeyTotal(rows, ByState, x.key)
    ensures forall x, k :: x in r && k in Keys(rows, ByState) && k !in KeySet(r) ==>
              KeyTotal(rows, ByState, k) <= x.total
  {
    Top(rows, ByState, Revenue, 10)
  }

  /** The keys of a list of groups, in order. */
  function KeyList(gs: seq<Group>): (ks: seq<string>)
    ensures |ks| == |gs|
    ensures forall i :: 0 <= i < |gs| ==> ks[i] == gs[i].key
  {
    seq(|gs|, i requires 0 <= i < |gs| => gs[i].key)
  }

  lemma KeyListCovers(gs: seq<Group>)
    ensures forall k :: k in KeySet(gs) <==> k in KeyList(gs)
  {
    var ks := KeyList(gs);
    forall k | k in KeySet(gs) ensures k in ks {
      var x :| x in gs && x.key == k;
      var i :| 0 <= i < |gs| && gs[i] == x;
      assert ks[i] == k;
    }
    forall k | k in ks ensures k in KeySet(gs) {
      var i :| 0 <= i < |ks| && ks[i] == k;
      assert gs[i] in gs;
    }
  }

  /** The drill-down's category choices: the 30 categories with the most
      rows, most frequent first. */
  function CategoryOptions(rows: seq<Row>): (r: seq<string>)
    ensures |r| == if 30 < |Keys(rows, ByCategory)| then 30 else |Keys(rows, ByCategory)|
    ensures forall i :: 0 <= i < |r| ==> r[i] in Keys(rows, ByCategory)
    ensures forall i, j :: 0 <= i < j < |r| ==> r[i] != r[j]
    ensures forall i, j :: 0 <= i < j < |r| ==> KeyCount(rows, ByCategory, r[i]) >= KeyCount(rows, ByCategory, r[j])
    ensures forall i, k :: 0 <= i < |r| && k in Keys(rows, ByCategory) && k !in r ==>
              KeyCount(rows, ByCategory, k) <= KeyCount(rows, ByCategory, r[i])
  {
    var top := Top(rows, ByCategory, Volume, 30);
    KeyListCovers(top);
    OptionsOrdered(rows, top);
    KeyList(top)
  }

  lemma OptionsOrdered(rows: seq<Row>, top: seq<Group>)
    requires top == Top(rows, ByCategory, Volume, 30)
    ensures forall i :: 0 <= i < |top| ==> top[i] in top
    ensures forall i, j :: 0 <= i < j < |top| ==> KeyCount(rows, ByCategory, top[i].key) >= KeyCount(rows, ByCategory, top[j].key)
    ensures forall i, k :: 0 <= i < |top| && k in Keys(rows, ByCategory) && k !in KeySet(top) ==>
              KeyCount(rows, ByCategory, k) <= KeyCount(rows, ByCategory, top[i].key)
  {
    forall i, j | 0 <= i < j < |top|
      ensures KeyCount(rows, ByCategory, top[i].key) >= KeyCount(rows, ByCategory, top[j].key)
    {
      assert top[i] in top && top[j] in top;
      assert Weight(top[i], Volume) >= Weight(top[j], Volume);
    }
    forall i, k | 0 <= i < |top| && k in Keys(rows, ByCategory) && k !in KeySet(top)
      ensures KeyCount(rows, ByCategory, k) <= KeyCount(rows, ByCategory, top[i].key)
    {
      assert top[i] in top;
      assert KeyWeight(rows, ByCategory, Volume, k) <= Weight(top[i], Volume);
    }
  }
}
