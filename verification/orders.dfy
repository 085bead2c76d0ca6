/** The joined order table of the dashboard: one `Row` per order item,
    repeated for each pair of payment row and review row of its order (the
    joins are on the order id), enriched with product and customer columns, and
    the per-row rules derived from it (day part, delivery delay) together with
    the two headline figures (total sales, distinct order count). */
module Orders {
  import opened Wrappers

  /** Day of week of the purchase timestamp, Monday first. */
  datatype Weekday = Monday | Tuesday | Wednesday | Thursday | Friday | Saturday | Sunday

  /** Coarse time-of-day bucket of the purchase hour. */
  datatype DayPart = Morning | Afternoon | Evening | Night

  /** An item price in the table's currency; item prices are never negative. */
  type Price = p: real | p >= 0.0

  /** One line of the joined table. Dates are day numbers, instants are
      integers on a common clock; both are taken as already decoded. */
  datatype Row = Row(
    orderId: string,
    day: int,                   // calendar day of the purchase timestamp
    hour: int,                  // hour of the purchase timestamp
    weekday: Weekday,           // day name of the purchase timestamp
    category: Option<string>,   // translated product category; None when unmapped
    state: string,              // customer state
    customer: string,           // customer id shared across a customer's orders
    price: Price,
    reviewScore: int,
    installments: int,
    delivered: Option<int>,     // delivery to customer; None when missing
    estimated: Option<int>      // estimated delivery; None when missing
  )

  /** Day part of a purchase hour: three half-open ranges and a catch-all. */
  function TimeOfDay(hour: int): (p: DayPart)
    ensures p == Morning <==> 5 <= hour < 12
    ensures p == Afternoon <==> 12 <= hour < 18
    ensures p == Evening <==> 18 <= hour < 22
    ensures p == Night <==> hour < 5 || 22 <= hour
  {
    if 5 <= hour < 12 then Morning
    else if 12 <= hour < 18 then Afternoon
    else if 18 <= hour < 22 then Evening
    else Night
  }

  /** The label the dashboard shows for a day part. */
  function DayPartLabel(p: DayPart): string {
    match p
    case Morning => "Morning (5-12)"
    case Afternoon => "Afternoon (12-18)"
    case Evening => "Evening (18-22)"
    case Night => "Night (22-5)"
  }

  /** The name the dashboard shows for a weekday. */
  function DayName(w: Weekday): string {
    match w
    case Monday => "Monday"
    case Tuesday => "Tuesday"
    case Wednesday => "Wednesday"
    case Thursday => "Thursday"
    case Friday => "Friday"
    case Saturday => "Saturday"
    case Sunday => "Sunday"
  }

  /** Number of hours h in [lo, hi) with `TimeOfDay(h) == p`. */
  function HoursIn(p: DayPart, lo: int, hi: int): nat
    decreases hi - lo
  {
    if hi <= lo then 0
    else (if TimeOfDay(lo) == p then 1 else 0) + HoursIn(p, lo + 1, hi)
  }

  /** Each of the 24 hours lands in exactly one bucket, and the buckets have
      7, 6, 4 and 7 hours. */
  lemma DayPartsPartitionTheDay()
    ensures HoursIn(Morning, 0, 24) == 7
    ensures HoursIn(Afternoon, 0, 24) == 6
    ensures HoursIn(Evening, 0, 24) == 4
    ensures HoursIn(Night, 0, 24) == 7
  {
    ThreeRanges(Morning, 5, 12, false, true);
    ThreeRanges(Afternoon, 12, 18, false, true);
    ThreeRanges(Evening, 18, 22, false, true);
    ThreeRanges(Night, 5, 22, true, false);
  }

  /** Counts a bucket over [0, 24) split at `a` and `b`, where membership is
      `outer` on [0, a) and [b, 24) and `inner` on [a, b). */
  lemma ThreeRanges(p: DayPart, a: int, b: int, outer: bool, inner: bool)
    requires 0 <= a <= b <= 24
    requires forall h :: 0 <= h < a ==> (TimeOfDay(h) == p) == outer
    requires forall h :: a <= h < b ==> (TimeOfDay(h) == p) == inner
    requires forall h :: b <= h < 24 ==> (TimeOfDay(h) == p) == outer
    ensures HoursIn(p, 0, 24) == (if outer then a + 24 - b else 0) + (if inner then b - a else 0)
  {
    HoursInSplit(p, 0, a, 24);
    HoursInSplit(p, a, b, 24);
    HoursInUniform(p, 0, a, outer);
    HoursInUniform(p, a, b, inner);
    HoursInUniform(p, b, 24, outer);
  }

  lemma {:induction false} HoursInSplit(p: DayPart, lo: int, mid: int, hi: int)
    requires lo <= mid <= hi
    ensures HoursIn(p, lo, hi) == HoursIn(p, lo, mid) + HoursIn(p, mid, hi)
    decreases mid - lo
  {
    if lo < mid {
      HoursInSplit(p, lo + 1, mid, hi);
    }
  }

  /** On a range where membership in the bucket does not change, the bucket
      counts all of its hours or none. */
  lemma {:induction false} HoursInUniform(p: DayPart, lo: int, hi: int, inside: bool)
    requires lo <= hi
    requires forall h :: lo <= h < hi ==> (TimeOfDay(h) == p) == inside
    ensures HoursIn(p, lo, hi) == if inside then hi - lo else 0
    decreases hi - lo
  {
    if lo < hi {
      HoursInUniform(p, lo + 1, hi, inside);
    }
  }

  /** A row is delayed iff both dates are known and the delivery came
      strictly after the estimate; a missing date compares false. */
  predicate IsDelayed(r: Row)
    ensures r.delivered.None? || r.estimated.None? ==> !IsDelayed(r)
    ensures IsDelayed(r) <==> r.delivered.Some? && r.estimated.Some? && r.estimated.value < r.delivered.value
  {
    match (r.delivered, r.estimated)
    case (Some(d), Some(e)) => d > e
    case _ => false
  }

  /** Sum of the price column (the sales KPI). It is never negative, it is
      zero exactly when every item is free, and no single item exceeds it. */
  function TotalPrice(rows: seq<Row>): (t: real)
    ensures t >= 0.0
    ensures t == 0.0 <==> forall i :: 0 <= i < |rows| ==> rows[i].price == 0.0
    ensures forall i :: 0 <= i < |rows| ==> rows[i].price <= t
  {
    if |rows| == 0 then 0.0
    else
      var rest := TotalPrice(rows[1..]);
      assert forall i :: 1 <= i < |rows| ==> rows[i] == rows[1..][i - 1];
      rows[0].price + rest
  }

  lemma {:induction false} TotalPriceConcat(a: seq<Row>, b: seq<Row>)
    ensures TotalPrice(a + b) == TotalPrice(a) + TotalPrice(b)
  {
    if |a| > 0 {
      assert (a + b)[1..] == a[1..] + b;
      TotalPriceConcat(a[1..], b);
    } else {
      assert a + b == b;
    }
  }

  /** The distinct order ids of a table. */
  function OrderIds(rows: seq<Row>): set<string> {
    set r | r in rows :: r.orderId
  }

  lemma OrderIdsSnoc(rows: seq<Row>, x: Row)
    ensures OrderIds(rows + [x]) == OrderIds(rows) + {x.orderId}
  {
    assert forall r :: r in rows + [x] <==> r in rows || r == x;
  }

  /** The distinct order count KPI, counted in one pass. */
  method CountDistinctOrders(rows: seq<Row>) returns (n: nat)
    ensures n == |OrderIds(rows)|
    ensures n <= |rows|
    ensures n == 0 <==> |rows| == 0
  {
    var seen: set<string> := {};
    var i := 0;
    while i < |rows|
      invariant 0 <= i <= |rows|
      invariant seen == OrderIds(rows[..i])
      invariant |seen| <= i
    {
      OrderIdsSnoc(rows[..i], rows[i]);
      assert rows[..i + 1] == rows[..i] + [rows[i]];
      seen := seen + {rows[i].orderId};
      i := i + 1;
    }
    assert rows[..i] == rows;
    if |rows| > 0 {
      assert rows[0].orderId in seen;
    }
    n := |seen|;
  }
}
