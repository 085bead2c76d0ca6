/** The dashboard's date-range control: an inclusive filter on the purchase
    day, whose default bounds are the earliest and latest day of the table. */
module DateFilter {
  import opened Wrappers
  import opened Seqs
  import opened Orders

  predicate InRange(r: Row, start: int, end: int) {
    start <= r.day <= end
  }

  /** The row predicate of the filter, as one closure shared by the filter
      and the lemmas about it. */
  function InRangeOf(start: int, end: int): Row -> bool {
    r => InRange(r, start, end)
  }

  /** Rows purchased on a day in [start, end], in table order. */
  function FilterByDate(rows: seq<Row>, start: int, end: int): (r: seq<Row>)
    ensures forall x :: x in r ==> start <= x.day <= end
    ensures forall x :: x in rows && start <= x.day <= end ==> multiset(r)[x] == multiset(rows)[x]
    ensures forall x :: multiset(r)[x] <= multiset(rows)[x]
    ensures IsSubsequence(r, rows)
  {
    Filter(rows, InRangeOf(start, end))
  }

  /** Earliest and latest purchase day, or None for an empty table (the
      slider has no range then). */
  function DayBounds(rows: seq<Row>): (b: Option<(int, int)>)
    ensures b.None? <==> |rows| == 0
    ensures b.Some? ==> forall x :: x in rows ==> b.value.0 <= x.day <= b.value.1
    ensures b.Some? ==> exists x :: x in rows && x.day == b.value.0
    ensures b.Some? ==> exists y :: y in rows && y.day == b.value.1
  {
    if |rows| == 0 then None
    else
      var rest := DayBounds(rows[1..]);
      assert rows[0] in rows;
      assert forall x :: x in rows[1..] ==> x in rows;
      assert forall x :: x in rows ==> x == rows[0] || x in rows[1..];
      match rest
      case None => Some((rows[0].day, rows[0].day))
      case Some((lo, hi)) =>
        Some((if rows[0].day < lo then rows[0].day else lo,
              if rows[0].day > hi then rows[0].day else hi))
  }

  /** A range that covers every row's day keeps the table unchanged. */
  lemma WideRangeKeepsAll(rows: seq<Row>, start: int, end: int)
    requires forall x :: x in rows ==> start <= x.day <= end
    ensures FilterByDate(rows, start, end) == rows
  {
    FilterKeepsAll(rows, InRangeOf(start, end));
  }

  /** With the default slider position nothing is dropped. */
  lemma DefaultRangeKeepsAll(rows: seq<Row>)
    requires |rows| > 0
    ensures FilterByDate(rows, DayBounds(rows).value.0, DayBounds(rows).value.1) == rows
  {
    var (lo, hi) := DayBounds(rows).value;
    WideRangeKeepsAll(rows, lo, hi);
  }

  /** Splitting the range at `mid` splits the filtered rows: the two halves
      together hold exactly the rows of the whole range. */
  lemma RangeSplitRows(rows: seq<Row>, start: int, mid: int, end: int)
    requires start <= mid + 1 && mid <= end
    ensures multiset(FilterByDate(rows, start, end))
         == multiset(FilterByDate(rows, start, mid)) + multiset(FilterByDate(rows, mid + 1, end))
  {
  }

  /** Total sales over a range equal the sum over the two halves of any split. */
  lemma {:induction false} RangeSplitSales(rows: seq<Row>, start: int, mid: int, end: int)
    requires start <= mid + 1 && mid <= end
    ensures TotalPrice(FilterByDate(rows, start, end))
         == TotalPrice(FilterByDate(rows, start, mid)) + TotalPrice(FilterByDate(rows, mid + 1, end))
  {
    if |rows| > 0 {
      RangeSplitSales(rows[1..], start, mid, end);
      var x := rows[0];
      var whole := FilterByDate(rows[1..], start, end);
      var lower := FilterByDate(rows[1..], start, mid);
      var upper := FilterByDate(rows[1..], mid + 1, end);
      if InRange(x, start, mid) {
        assert FilterByDate(rows, start, mid) == [x] + lower;
      } else if InRange(x, mid + 1, end) {
        assert FilterByDate(rows, mid + 1, end) == [x] + upper;
      }
    }
  }

  /** Three orders bought on 2017-01-01, 2017-02-01 and 2017-03-01 (day
      numbers 17167, 17198, 17226 counted from 1970-01-01) for 10, 20 and 30;
      the range 2017-01-15 .. 2017-02-15 (17181 .. 17212) keeps only the
      second, so sales are 20 over one order. */
  lemma ThreeOrderExample()
    ensures var rows := [SampleRow("a", 17167, 10.0), SampleRow("b", 17198, 20.0), SampleRow("c", 17226, 30.0)];
            var kept := FilterByDate(rows, 17181, 17212);
            kept == [rows[1]] && TotalPrice(kept) == 20.0 && |OrderIds(kept)| == 1
  {
    var rows := [SampleRow("a", 17167, 10.0), SampleRow("b", 17198, 20.0), SampleRow("c", 17226, 30.0)];
    var kept := FilterByDate(rows, 17181, 17212);
    assert rows[1..][1..][1..] == [];
    assert kept == [rows[1]];
    assert OrderIds(kept) == {"b"} by {
      assert forall r :: r in kept <==> r == rows[1];
    }
  }

  function SampleRow(id: string, day: int, price: Price): Row {
    Row(id, day, 10, Monday, Some("toys"), "SP", id, price, 5, 1, None, None)
  }
}
