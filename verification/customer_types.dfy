/** Repeat-customer analysis over the date-filtered table: a customer is a
    repeater when they placed more than one distinct order in the range, and
    sales are split between repeaters and one-time customers. */
module CustomerTypes {
  import opened Wrappers
  import opened Seqs
  import opened Orders

  datatype CustomerType = Repeater | NonRepeater

  function Customers(rows: seq<Row>): set<string> {
    set r | r in rows :: r.customer
  }

  /** The distinct orders a customer placed within `rows`. */
  function OrdersOf(rows: seq<Row>, c: string): set<string> {
    set r | r in rows && r.customer == c :: r.orderId
  }

  predicate IsRepeater(rows: seq<Row>, c: string) {
    |OrdersOf(rows, c)| > 1
  }

  function TypeOf(rows: seq<Row>, c: string): CustomerType {
    if IsRepeater(rows, c) then Repeater else NonRepeater
  }

  /** A customer is a repeater exactly when two of their rows carry
      different order ids. */
  lemma RepeaterIffTwoOrders(rows: seq<Row>, c: string)
    ensures IsRepeater(rows, c) <==>
      exists i, j :: 0 <= i < |rows| && 0 <= j < |rows| && rows[i].customer == c
                     && rows[j].customer == c && rows[i].orderId != rows[j].orderId
  {
    var ids := OrdersOf(rows, c);
    if IsRepeater(rows, c) {
      var a :| a in ids;
      assert |ids - {a}| == |ids| - 1;
      var b :| b in ids - {a};
      var x :| x in rows && x.customer == c && x.orderId == a;
      var y :| y in rows && y.customer == c && y.orderId == b;
      var i :| 0 <= i < |rows| && rows[i] == x;
      var j :| 0 <= j < |rows| && rows[j] == y;
    }
    if exists i, j :: 0 <= i < |rows| && 0 <= j < |rows| && rows[i].customer == c
                      && rows[j].customer == c && rows[i].orderId != rows[j].orderId {
      var i, j :| 0 <= i < |rows| && 0 <= j < |rows| && rows[i].customer == c
                  && rows[j].customer == c && rows[i].orderId != rows[j].orderId;
      assert rows[i] in rows && rows[j] in rows;
      assert {rows[i].orderId, rows[j].orderId} <= ids;
      assert |{rows[i].orderId, rows[j].orderId}| == 2;
      SubsetCardinality({rows[i].orderId, rows[j].orderId}, ids);
    }
  }

  /** When no customer has two distinct orders in range, every row is a
      one-time customer's row. */
  lemma SingleOrdersMeanNoRepeaters(rows: seq<Row>)
    requires forall i, j :: 0 <= i < |rows| && 0 <= j < |rows| && rows[i].customer == rows[j].customer
               ==> rows[i].orderId == rows[j].orderId
    ensures forall i :: 0 <= i < |rows| ==> TypeOf(rows, rows[i].customer) == NonRepeater
  {
    forall i | 0 <= i < |rows|
      ensures TypeOf(rows, rows[i].customer) == NonRepeater
    {
      RepeaterIffTwoOrders(rows, rows[i].customer);
    }
  }

  lemma CustomersSnoc(rows: seq<Row>, x: Row)
    ensures Customers(rows + [x]) == Customers(rows) + {x.customer}
    ensures forall c :: OrdersOf(rows + [x], c)
                        == OrdersOf(rows, c) + (if x.customer == c then {x.orderId} else {})
  {
    assert forall r :: r in rows + [x] <==> r in rows || r == x;
  }

  /** Distinct-order count per customer (a group-by with nunique), built in
      one pass over the table. */
  method CountOrdersPerCustomer(rows: seq<Row>) returns (counts: map<string, nat>)
    ensures counts.Keys == Customers(rows)
    ensures forall c :: c in counts ==> counts[c] == |OrdersOf(rows, c)|
  {
    var seen: map<string, set<string>> := map[];
    var i := 0;
    while i < |rows|
      invariant 0 <= i <= |rows|
      invariant seen.Keys == Customers(rows[..i])
      invariant forall c :: c in seen ==> seen[c] == OrdersOf(rows[..i], c)
    {
      var r := rows[i];
      CustomersSnoc(rows[..i], r);
      assert rows[..i + 1] == rows[..i] + [r];
      var prior := if r.customer in seen then seen[r.customer] else {};
      seen := seen[r.customer := prior + {r.orderId}];
      i := i + 1;
    }
    assert rows[..i] == rows;
    counts := map c | c in seen :: |seen[c]|;
  }

  /** The customer-type column: Repeater exactly for the rows whose customer
      has more than one distinct order in `rows`. */
  method ClassifyRows(rows: seq<Row>) returns (types: seq<CustomerType>)
    ensures |types| == |rows|
    ensures forall i :: 0 <= i < |rows| ==>
              (types[i] == Repeater <==> |OrdersOf(rows, rows[i].customer)| > 1)
    ensures forall i :: 0 <= i < |rows| ==> types[i] == TypeOf(rows, rows[i].customer)
  {
    var counts := CountOrdersPerCustomer(rows);
    var repeaters := set c | c in counts && counts[c] > 1;
    assert forall i :: 0 <= i < |rows| ==> rows[i].customer in Customers(rows);
    types := seq(|rows|, i requires 0 <= i < |rows| =>
                 if rows[i].customer in repeaters then Repeater else NonRepeater);
  }

  /** Sales of one customer type and its share of total sales (None when the
      total is zero: prices are never negative, so the share is then 0/0). */
  datatype TypeSales = TypeSales(kind: CustomerType, sales: real, ratio: Option<real>)

  /** The customer-type column as a row function over the table `rows`. */
  function TypeColumn(rows: seq<Row>): Row -> CustomerType {
    (x: Row) => TypeOf(rows, x.customer)
  }

  /** Some row is classified `t` by `kind`. */
  predicate Occurs(rows: seq<Row>, kind: Row -> CustomerType, t: CustomerType) {
    exists x :: x in rows && kind(x) == t
  }

  /** Some row of the table belongs to a customer of type `t`. */
  predicate TypeOccurs(rows: seq<Row>, t: CustomerType) {
    Occurs(rows, TypeColumn(rows), t)
  }

  /** Price total of the rows that `kind` classifies as `t`. */
  function PriceOf(rows: seq<Row>, kind: Row -> CustomerType, t: CustomerType): (p: real)
    ensures p >= 0.0
  {
    if |rows| == 0 then 0.0
    else (if kind(rows[0]) == t then rows[0].price else 0.0) + PriceOf(rows[1..], kind, t)
  }

  /** Sales of customers of type `t`. */
  function TypeRevenue(rows: seq<Row>, t: CustomerType): real {
    PriceOf(rows, TypeColumn(rows), t)
  }

  /** The two classes split the total. */
  lemma {:induction false} PriceOfSplits(rows: seq<Row>, kind: Row -> CustomerType)
    ensures PriceOf(rows, kind, Repeater) + PriceOf(rows, kind, NonRepeater) == TotalPrice(rows)
  {
    if |rows| > 0 {
      PriceOfSplits(rows[1..], kind);
    }
  }

  /** A class no row belongs to has no sales. */
  lemma {:induction false} PriceOfAbsent(rows: seq<Row>, kind: Row -> CustomerType, t: CustomerType)
    requires !Occurs(rows, kind, t)
    ensures PriceOf(rows, kind, t) == 0.0
  {
    if |rows| > 0 {
      assert rows[0] in rows;
      assert !Occurs(rows[1..], kind, t) by {
        forall x | x in rows[1..] ensures kind(x) != t {
          assert x in rows;
        }
      }
      PriceOfAbsent(rows[1..], kind, t);
    }
  }

  function SalesSum(es: seq<TypeSales>): real {
    if |es| == 0 then 0.0 else es[0].sales + SalesSum(es[1..])
  }

  function RatioSum(es: seq<TypeSales>): real {
    if |es| == 0 then 0.0 else es[0].ratio.GetOr(0.0) + RatioSum(es[1..])
  }

  lemma SumsOfOne(x: TypeSales)
    ensures SalesSum([x]) == x.sales
    ensures RatioSum([x]) == x.ratio.GetOr(0.0)
  {
    assert [x][1..] == [];
  }

  lemma SumsOfTwo(x: TypeSales, y: TypeSales)
    ensures SalesSum([x, y]) == x.sales + y.sales
    ensures RatioSum([x, y]) == x.ratio.GetOr(0.0) + y.ratio.GetOr(0.0)
  {
    assert [x, y][1..] == [y];
    SumsOfOne(y);
  }

  /** The table has an entry for type `t`. */
  predicate Listed(es: seq<TypeSales>, t: CustomerType) {
    exists e :: e in es && e.kind == t
  }

  /** The entry of one customer type given the overall total. */
  function Entry(kind: CustomerType, sales: real, total: real): TypeSales {
    TypeSales(kind, sales, if total == 0.0 then None else Some(sales / total))
  }

  lemma SharesAddUp(a: real, b: real)
    requires a + b != 0.0
    ensures a / (a + b) + b / (a + b) == 1.0
  {
    assert a / (a + b) + b / (a + b) == (a + b) / (a + b);
  }

  /** The table of sales per occurring type under a classification `kind`. */
  function KindTable(rows: seq<Row>, kind: Row -> CustomerType): seq<TypeSales> {
    var rep := PriceOf(rows, kind, Repeater);
    var non := PriceOf(rows, kind, NonRepeater);
    (if Occurs(rows, kind, Repeater) then [Entry(Repeater, rep, rep + non)] else [])
    + (if Occurs(rows, kind, NonRepeater) then [Entry(NonRepeater, non, rep + non)] else [])
  }

  /** A part that is the whole total is a share of one. */
  lemma WholeShare(part: real, other: real)
    requires other == 0.0
    ensures part + other != 0.0 ==> part / (part + other) == 1.0
    ensures other + part != 0.0 ==> part / (other + part) == 1.0
  {
    assert part + other == part && other + part == part;
  }

  /** What the sales table promises, for a classification `kind`. */
  predicate TableFacts(rows: seq<Row>, kind: Row -> CustomerType, r: seq<TypeSales>) {
    && |r| <= 2
    && (Listed(r, Repeater) <==> Occurs(rows, kind, Repeater))
    && (Listed(r, NonRepeater) <==> Occurs(rows, kind, NonRepeater))
    && (forall e :: e in r ==> e.sales == PriceOf(rows, kind, e.kind))
    && SalesSum(r) == TotalPrice(rows)
    && (TotalPrice(rows) != 0.0 ==> (forall e :: e in r ==> e.ratio.Some?) && RatioSum(r) == 1.0)
    && (TotalPrice(rows) == 0.0 ==> forall e :: e in r ==> e.ratio.None?)
  }

  lemma KindTableFacts(rows: seq<Row>, kind: Row -> CustomerType)
    ensures TableFacts(rows, kind, KindTable(rows, kind))
  {
    var rep := PriceOf(rows, kind, Repeater);
    var non := PriceOf(rows, kind, NonRepeater);
    PriceOfSplits(rows, kind);
    var x, y := Entry(Repeater, rep, rep + non), Entry(NonRepeater, non, rep + non);
    var hasRep, hasNon := Occurs(rows, kind, Repeater), Occurs(rows, kind, NonRepeater);
    if hasRep && hasNon {
      assert KindTable(rows, kind) == [x, y];
      SumsOfTwo(x, y);
      if rep + non != 0.0 {
        SharesAddUp(rep, non);
      }
    } else if hasRep {
      PriceOfAbsent(rows, kind, NonRepeater);
      assert KindTable(rows, kind) == [x];
      SumsOfOne(x);
      WholeShare(rep, non);
    } else if hasNon {
      PriceOfAbsent(rows, kind, Repeater);
      assert KindTable(rows, kind) == [y];
      SumsOfOne(y);
      WholeShare(non, rep);
    } else {
      PriceOfAbsent(rows, kind, Repeater);
      PriceOfAbsent(rows, kind, NonRepeater);
      assert KindTable(rows, kind) == [];
    }
  }

  /** Repeater's entry comes before NonRepeater's, and with zero total sales
      both parts are zero, so every share is 0/0. */
  lemma KindTableShape(rows: seq<Row>, kind: Row -> CustomerType)
    ensures var r := KindTable(rows, kind);
            forall i, j :: 0 <= i < j < |r| ==> r[i].kind == Repeater && r[j].kind == NonRepeater
    ensures TotalPrice(rows) == 0.0 ==> forall e :: e in KindTable(rows, kind) ==> e.sales == 0.0
  {
    PriceOfSplits(rows, kind);
  }

  /** With nonzero total sales, each entry's share is its sales over the total. */
  lemma KindTableRatios(rows: seq<Row>, kind: Row -> CustomerType)
    ensures TotalPrice(rows) != 0.0 ==>
              forall e :: e in KindTable(rows, kind) ==> e.ratio == Some(e.sales / TotalPrice(rows))
  {
    PriceOfSplits(rows, kind);
  }

  /** Sales per customer type, one entry per type that occurs (Repeater
      first, as the group-by orders its keys), with each type's share of the
      total. */
  function SalesByType(rows: seq<Row>): (r: seq<TypeSales>)
    ensures |r| <= 2
    ensures forall i, j :: 0 <= i < j < |r| ==> r[i].kind != r[j].kind
    ensures forall i, j :: 0 <= i < j < |r| ==> r[i].kind == Repeater && r[j].kind == NonRepeater
    ensures Listed(r, Repeater) <==> TypeOccurs(rows, Repeater)
    ensures Listed(r, NonRepeater) <==> TypeOccurs(rows, NonRepeater)
    ensures forall e :: e in r ==> e.sales == TypeRevenue(rows, e.kind)
    ensures SalesSum(r) == TotalPrice(rows)
    ensures TotalPrice(rows) != 0.0 ==> (forall e :: e in r ==> e.ratio.Some?) && RatioSum(r) == 1.0
    ensures TotalPrice(rows) != 0.0 ==> forall e :: e in r ==> e.ratio == Some(e.sales / TotalPrice(rows))
    ensures TotalPrice(rows) == 0.0 ==> forall e :: e in r ==> e.sales == 0.0 && e.ratio.None?
  {
    SalesTableFacts(rows, KindTable(rows, TypeColumn(rows)));
    KindTable(rows, TypeColumn(rows))
  }

  /** The facts about the table under the customer-type column. */
  lemma SalesTableFacts(rows: seq<Row>, r: seq<TypeSales>)
    requires r == KindTable(rows, TypeColumn(rows))
    ensures TableFacts(rows, TypeColumn(rows), r)
    ensures forall i, j :: 0 <= i < j < |r| ==> r[i].kind == Repeater && r[j].kind == NonRepeater
    ensures TotalPrice(rows) != 0.0 ==> forall e :: e in r ==> e.ratio == Some(e.sales / TotalPrice(rows))
    ensures TotalPrice(rows) == 0.0 ==> forall e :: e in r ==> e.sales == 0.0
  {
    KindTableFacts(rows, TypeColumn(rows));
    KindTableShape(rows, TypeColumn(rows));
    KindTableRatios(rows, TypeColumn(rows));
  }
}
