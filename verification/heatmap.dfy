/** The weekday × day-part heatmap: distinct orders per (day name, day-part
    label) group, pivoted and reindexed onto a fixed 7×4 grid, and the
    drill-down that redraws it for one category and one state. */
module Heatmap {
  import opened Wrappers
  import opened Seqs
  import opened Orders

  /** The row order of the grid. */
  const DayOrder: seq<string> := ["Monday", "Tuesday", "Wednesday", "Thursday", "Friday", "Saturday", "Sunday"]
  /** The column order of the grid. */
  const TimeOrder: seq<string> := ["Morning (5-12)", "Afternoon (12-18)", "Evening (18-22)", "Night (22-5)"]

  const Weekdays: seq<Weekday> := [Monday, Tuesday, Wednesday, Thursday, Friday, Saturday, Sunday]
  const Parts: seq<DayPart> := [Morning, Afternoon, Evening, Night]

  /** The fixed orders list every weekday and every day part once, by label. */
  lemma OrdersAreLabels()
    ensures |DayOrder| == |Weekdays| == 7 && |TimeOrder| == |Parts| == 4
    ensures forall i :: 0 <= i < 7 ==> DayOrder[i] == DayName(Weekdays[i])
    ensures forall j :: 0 <= j < 4 ==> TimeOrder[j] == DayPartLabel(Parts[j])
    ensures forall w: Weekday :: w in Weekdays
    ensures forall p: DayPart :: p in Parts
    ensures forall i, k :: 0 <= i < k < 7 ==> Weekdays[i] != Weekdays[k]
    ensures forall j, k :: 0 <= j < k < 4 ==> Parts[j] != Parts[k]
  {
    forall w: Weekday ensures w in Weekdays {
      assert Weekdays[DayIndex(w)] == w;
    }
    forall p: DayPart ensures p in Parts {
      assert Parts[PartIndex(p)] == p;
    }
  }

  /** Row of a weekday in the grid. */
  function DayIndex(w: Weekday): nat {
    match w
    case Monday => 0
    case Tuesday => 1
    case Wednesday => 2
    case Thursday => 3
    case Friday => 4
    case Saturday => 5
    case Sunday => 6
  }

  /** Column of a day part in the grid. */
  function PartIndex(p: DayPart): nat {
    match p
    case Morning => 0
    case Afternoon => 1
    case Evening => 2
    case Night => 3
  }

  /** Different weekdays and different day parts carry different labels, so
      grouping by label is grouping by weekday and day part. */
  lemma LabelsDistinct()
    ensures forall w: Weekday, w': Weekday :: DayName(w) == DayName(w') ==> w == w'
    ensures forall p: DayPart, p': DayPart :: DayPartLabel(p) == DayPartLabel(p') ==> p == p'
  {
  }

  /** A heatmap group key: (day name, day-part label). */
  type Cell = (string, string)

  function CellOf(x: Row): Cell {
    (DayName(x.weekday), DayPartLabel(TimeOfDay(x.hour)))
  }

  predicate InCell(x: Row, w: Weekday, p: DayPart) {
    x.weekday == w && TimeOfDay(x.hour) == p
  }

  lemma CellOfMatches(x: Row, w: Weekday, p: DayPart)
    ensures CellOf(x) == (DayName(w), DayPartLabel(p)) <==> InCell(x, w, p)
  {
    LabelsDistinct();
  }

  /** The groups present in the table. */
  function Cells(rows: seq<Row>): set<Cell> {
    set x | x in rows :: CellOf(x)
  }

  /** The distinct order ids of one group. */
  function CellOrders(rows: seq<Row>, c: Cell): set<string> {
    set x | x in rows && CellOf(x) == c :: x.orderId
  }

  /** Order ids per group, collected row by row. */
  function Collect(rows: seq<Row>): map<Cell, set<string>> {
    if |rows| == 0 then map[]
    else
      var g := Collect(rows[..|rows| - 1]);
      var x := rows[|rows| - 1];
      var c := CellOf(x);
      g[c := (if c in g then g[c] else {}) + {x.orderId}]
  }

  lemma CellsSnoc(rows: seq<Row>, x: Row)
    ensures Cells(rows + [x]) == Cells(rows) + {CellOf(x)}
  {
    assert forall y :: y in rows + [x] <==> y in rows || y == x;
  }

  lemma CellOrdersSnoc(rows: seq<Row>, x: Row, c: Cell)
    ensures CellOrders(rows + [x], c) == CellOrders(rows, c) + (if CellOf(x) == c then {x.orderId} else {})
  {
    assert forall y :: y in rows + [x] <==> y in rows || y == x;
  }

  lemma {:induction false} CollectFacts(rows: seq<Row>)
    ensures forall c :: c in Collect(rows) <==> c in Cells(rows)
    ensures forall c :: c in Collect(rows) ==> Collect(rows)[c] == CellOrders(rows, c)
  {
    if |rows| > 0 {
      var init := rows[..|rows| - 1];
      var x := rows[|rows| - 1];
      assert rows == init + [x];
      CollectFacts(init);
      CellsSnoc(init, x);
      forall c | c in Collect(rows) ensures Collect(rows)[c] == CellOrders(rows, c) {
        CellOrdersSnoc(init, x, c);
      }
    }
  }

  /** groupby on (day name, day-part label) followed by the number of
      distinct order ids: one entry per group present, each holding at
      least one order. */
  function Pivot(rows: seq<Row>): (p: map<Cell, nat>)
    ensures forall c :: c in p <==> c in Cells(rows)
    ensures forall c :: c in p ==> p[c] == |CellOrders(rows, c)| && p[c] >= 1
  {
    var g := Collect(rows);
    CollectFacts(rows);
    assert forall c :: c in Cells(rows) ==> exists x :: x in rows && CellOf(x) == c && x.orderId in CellOrders(rows, c);
    map c | c in g :: |g[c]|
  }

  /** Reindexing a pivot onto fixed row and column orders: a label pair with
      no entry becomes a missing cell. */
  function Reindex(p: map<Cell, nat>, rowOrder: seq<string>, colOrder: seq<string>): (h: seq<seq<Option<nat>>>)
    ensures |h| == |rowOrder|
    ensures forall i :: 0 <= i < |h| ==> |h[i]| == |colOrder|
    ensures forall i, j :: 0 <= i < |rowOrder| && 0 <= j < |colOrder| ==>
              (h[i][j].Some? <==> (rowOrder[i], colOrder[j]) in p)
              && (h[i][j].Some? ==> h[i][j].value == p[(rowOrder[i], colOrder[j])])
  {
    seq(|rowOrder|, i requires 0 <= i < |rowOrder| =>
      seq(|colOrder|, j requires 0 <= j < |colOrder| =>
        if (rowOrder[i], colOrder[j]) in p then Some(p[(rowOrder[i], colOrder[j])]) else None))
  }

  /** The distinct orders placed on weekday `w` in day part `p`. */
  function OrdersIn(rows: seq<Row>, w: Weekday, p: DayPart): set<string> {
    set x | x in rows && InCell(x, w, p) :: x.orderId
  }

  /** Reference count for one cell, defined without labels: the number of
      distinct orders, or no value when no row falls in the cell. */
  function CellCount(rows: seq<Row>, w: Weekday, p: DayPart): (n: Option<nat>)
    ensures n.None? <==> forall x :: x in rows ==> !InCell(x, w, p)
    ensures n.Some? ==> n.value == |OrdersIn(rows, w, p)| && n.value >= 1
  {
    var ids := OrdersIn(rows, w, p);
    assert forall x :: x in rows && InCell(x, w, p) ==> x.orderId in ids;
    if |ids| == 0 then None else Some(|ids|)
  }

  lemma LabelledCellIsCell(rows: seq<Row>, w: Weekday, p: DayPart)
    ensures (DayName(w), DayPartLabel(p)) in Cells(rows) <==> exists x :: x in rows && InCell(x, w, p)
    ensures CellOrders(rows, (DayName(w), DayPartLabel(p))) == OrdersIn(rows, w, p)
  {
    forall x ensures CellOf(x) == (DayName(w), DayPartLabel(p)) <==> InCell(x, w, p) {
      CellOfMatches(x, w, p);
    }
  }

  /** The heatmap: seven rows Monday..Sunday, four columns Morning..Night,
      each cell the number of distinct orders in that weekday and day part,
      or no value when there is none. */
  function Grid(rows: seq<Row>): (h: seq<seq<Option<nat>>>)
    ensures |h| == 7
    ensures forall i :: 0 <= i < 7 ==> |h[i]| == 4
    ensures forall i, j :: 0 <= i < 7 && 0 <= j < 4 ==> h[i][j] == CellCount(rows, Weekdays[i], Parts[j])
  {
    var h := Reindex(Pivot(rows), DayOrder, TimeOrder);
    OrdersAreLabels();
    assert forall i, j :: 0 <= i < 7 && 0 <= j < 4 ==> h[i][j] == CellCount(rows, Weekdays[i], Parts[j]) by {
      forall i, j | 0 <= i < 7 && 0 <= j < 4 ensures h[i][j] == CellCount(rows, Weekdays[i], Parts[j]) {
        LabelledCellIsCell(rows, Weekdays[i], Parts[j]);
      }
    }
    h
  }

  /** Every order is placed at one instant, so all rows of an order share
      its weekday and hour. */
  predicate OneTimestampPerOrder(rows: seq<Row>) {
    forall x, y :: x in rows && y in rows && x.orderId == y.orderId ==> x.weekday == y.weekday && x.hour == y.hour
  }

  function RowTotal(cells: seq<Option<nat>>): nat {
    if |cells| == 0 then 0 else cells[0].GetOr(0) + RowTotal(cells[1..])
  }

  /** The sum of all cells, missing cells counting as zero. */
  function GridTotal(h: seq<seq<Option<nat>>>): nat {
    if |h| == 0 then 0 else RowTotal(h[0]) + GridTotal(h[1..])
  }

  function OrdersInParts(rows: seq<Row>, w: Weekday, ps: seq<DayPart>): set<string> {
    set x | x in rows && x.weekday == w && TimeOfDay(x.hour) in ps :: x.orderId
  }

  function OrdersOnDays(rows: seq<Row>, ws: seq<Weekday>): set<string> {
    set x | x in rows && x.weekday in ws :: x.orderId
  }

  lemma CellTotal(rows: seq<Row>, w: Weekday, p: DayPart)
    ensures CellCount(rows, w, p).GetOr(0) == |OrdersIn(rows, w, p)|
  {
    if CellCount(rows, w, p).None? {
      assert OrdersIn(rows, w, p) == {};
    }
  }

  /** Splitting a list of day parts into its head and the rest splits the
      orders into two disjoint sets. */
  lemma PartsSplit(rows: seq<Row>, w: Weekday, ps: seq<DayPart>)
    requires OneTimestampPerOrder(rows)
    requires |ps| > 0 && ps[0] !in ps[1..]
    ensures OrdersInParts(rows, w, ps) == OrdersIn(rows, w, ps[0]) + OrdersInParts(rows, w, ps[1..])
    ensures OrdersIn(rows, w, ps[0]) * OrdersInParts(rows, w, ps[1..]) == {}
  {
    PartsUnion(rows, w, ps);
    PartsDisjoint(rows, w, ps);
  }

  lemma PartsUnion(rows: seq<Row>, w: Weekday, ps: seq<DayPart>)
    requires |ps| > 0
    ensures OrdersInParts(rows, w, ps) == OrdersIn(rows, w, ps[0]) + OrdersInParts(rows, w, ps[1..])
  {
    assert forall p :: p in ps <==> p == ps[0] || p in ps[1..] by {
      assert ps == [ps[0]] + ps[1..];
    }
  }

  lemma PartsDisjoint(rows: seq<Row>, w: Weekday, ps: seq<DayPart>)
    requires OneTimestampPerOrder(rows)
    requires |ps| > 0 && ps[0] !in ps[1..]
    ensures OrdersIn(rows, w, ps[0]) * OrdersInParts(rows, w, ps[1..]) == {}
  {
    forall id | id in OrdersIn(rows, w, ps[0]) ensures id !in OrdersInParts(rows, w, ps[1..]) {
      var x :| x in rows && InCell(x, w, ps[0]) && x.orderId == id;
      assert forall y :: y in rows && y.orderId == id ==> TimeOfDay(y.hour) == ps[0];
    }
  }

  lemma {:induction false} PartsTotal(rows: seq<Row>, w: Weekday, ps: seq<DayPart>, cells: seq<Option<nat>>)
    requires OneTimestampPerOrder(rows)
    requires forall j, k :: 0 <= j < k < |ps| ==> ps[j] != ps[k]
    requires |cells| == |ps| && forall j :: 0 <= j < |ps| ==> cells[j] == CellCount(rows, w, ps[j])
    ensures RowTotal(cells) == |OrdersInParts(rows, w, ps)|
  {
    if |ps| == 0 {
      assert OrdersInParts(rows, w, ps) == {};
    } else {
      PartsTotal(rows, w, ps[1..], cells[1..]);
      CellTotal(rows, w, ps[0]);
      assert ps[0] !in ps[1..];
      PartsSplit(rows, w, ps);
    }
  }

  lemma DaysUnion(rows: seq<Row>, ws: seq<Weekday>)
    requires |ws| > 0
    ensures OrdersOnDays(rows, ws) == OrdersInParts(rows, ws[0], Parts) + OrdersOnDays(rows, ws[1..])
  {
    OrdersAreLabels();
    assert forall v :: v in ws <==> v == ws[0] || v in ws[1..] by {
      assert ws == [ws[0]] + ws[1..];
    }
  }

  lemma DaysDisjoint(rows: seq<Row>, ws: seq<Weekday>)
    requires OneTimestampPerOrder(rows)
    requires |ws| > 0 && ws[0] !in ws[1..]
    ensures OrdersInParts(rows, ws[0], Parts) * OrdersOnDays(rows, ws[1..]) == {}
  {
    forall id | id in OrdersInParts(rows, ws[0], Parts) ensures id !in OrdersOnDays(rows, ws[1..]) {
      var x :| x in rows && x.weekday == ws[0] && TimeOfDay(x.hour) in Parts && x.orderId == id;
      assert forall y :: y in rows && y.orderId == id ==> y.weekday == ws[0];
    }
  }

  lemma {:induction false} DaysTotal(rows: seq<Row>, ws: seq<Weekday>, h: seq<seq<Option<nat>>>)
    requires OneTimestampPerOrder(rows)
    requires forall i, k :: 0 <= i < k < |ws| ==> ws[i] != ws[k]
    requires |h| == |ws|
    requires forall i :: 0 <= i < |ws| ==> |h[i]| == 4
    requires forall i, j :: 0 <= i < |ws| && 0 <= j < 4 ==> h[i][j] == CellCount(rows, ws[i], Parts[j])
    ensures GridTotal(h) == |OrdersOnDays(rows, ws)|
  {
    if |ws| == 0 {
      assert OrdersOnDays(rows, ws) == {};
    } else {
      OrdersAreLabels();
      PartsTotal(rows, ws[0], Parts, h[0]);
      DaysTotal(rows, ws[1..], h[1..]);
      assert ws[0] !in ws[1..];
      DaysUnion(rows, ws);
      DaysDisjoint(rows, ws);
    }
  }

  /** When every order has one purchase instant, each order lands in exactly
      one cell, so the cells add up to the number of distinct orders. */
  lemma GridCountsEveryOrderOnce(rows: seq<Row>)
    requires OneTimestampPerOrder(rows)
    ensures GridTotal(Grid(rows)) == |OrderIds(rows)|
  {
    OrdersAreLabels();
    DaysTotal(rows, Weekdays, Grid(rows));
    assert OrdersOnDays(rows, Weekdays) == OrderIds(rows);
  }

  /** Drill-down row test: the selected category and the selected state; no
      selection (an empty option list) matches no row, and a row without a
      category never matches. */
  predicate Matches(x: Row, category: Option<string>, state: Option<string>) {
    category.Some? && x.category == category && state.Some? && x.state == state.value
  }

  function MatchesOf(category: Option<string>, state: Option<string>): Row -> bool {
    (x: Row) => Matches(x, category, state)
  }

  /** The rows of the selected category and state, in table order. */
  function Selected(rows: seq<Row>, category: Option<string>, state: Option<string>): (r: seq<Row>)
    ensures forall x :: x in r ==> Matches(x, category, state)
    ensures forall x :: x in rows && Matches(x, category, state) ==> multiset(r)[x] == multiset(rows)[x]
    ensures forall x :: multiset(r)[x] <= multiset(rows)[x]
    ensures IsSubsequence(r, rows)
  {
    Filter(rows, MatchesOf(category, state))
  }

  datatype DrillDown = NoData | Pattern(grid: seq<seq<Option<nat>>>)

  /** The drill-down: a warning when nothing matches, otherwise the heatmap
      of the matching rows. */
  function Drill(rows: seq<Row>, category: Option<string>, state: Option<string>): (d: DrillDown)
    ensures d.NoData? <==> forall x :: x in rows ==> !Matches(x, category, state)
    ensures d.Pattern? ==> d.grid == Grid(Selected(rows, category, state))
  {
    var sel := Selected(rows, category, state);
    assert forall x :: x in rows && Matches(x, category, state) ==> x in multiset(sel);
    if |sel| == 0 then NoData else
      assert sel[0] in sel;
      Pattern(Grid(sel))
  }

  /** The cells of a sub-table never exceed those of the table: a cell with
      no orders in the table has none in the sub-table either. */
  lemma SubTableCellsWithin(sub: seq<Row>, rows: seq<Row>, w: Weekday, p: DayPart)
    requires forall x :: x in sub ==> x in rows
    ensures CellCount(rows, w, p).None? ==> CellCount(sub, w, p).None?
    ensures CellCount(sub, w, p).GetOr(0) <= CellCount(rows, w, p).GetOr(0)
  {
    assert OrdersIn(sub, w, p) <= OrdersIn(rows, w, p);
    SubsetCardinality(OrdersIn(sub, w, p), OrdersIn(rows, w, p));
  }

  /** A drill-down cell never exceeds the corresponding cell of the full
      heatmap, and is empty wherever the full one is. */
  lemma DrillCellsWithinFullGrid(rows: seq<Row>, category: Option<string>, state: Option<string>)
    ensures Drill(rows, category, state).Pattern? ==>
              forall i, j :: 0 <= i < 7 && 0 <= j < 4 ==>
                var d := Drill(rows, category, state).grid[i][j];
                var f := Grid(rows)[i][j];
                (f.None? ==> d.None?) && (d.Some? ==> f.Some? && d.value <= f.value)
  {
    var sel := Selected(rows, category, state);
    if Drill(rows, category, state).Pattern? {
      assert forall x :: x in sel ==> x in rows by {
        forall x | x in sel ensures x in rows {
          assert x in multiset(sel);
        }
      }
      forall i, j | 0 <= i < 7 && 0 <= j < 4
        ensures var d := Grid(sel)[i][j]; var f := Grid(rows)[i][j];
                (f.None? ==> d.None?) && (d.Some? ==> f.Some? && d.value <= f.value)
      {
        SubTableCellsWithin(sel, rows, Weekdays[i], Parts[j]);
      }
    }
  }
}
