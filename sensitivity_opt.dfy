/** The second analyzer (python/sensitivity_opt.py): the class `EnergyMarketAnalyzer` over
    one order table, with its order lookup, clearing, sensitivity probe and report. */
module SensitivityOpt {
  import opened Wrappers
  import opened Orders
  import opened Geometry
  import opened Frames

  /** The report columns `Δ+d` and `Δ-d` for a step `d` (distinct integers give distinct names). */
  datatype Heading = Up(delta: int) | Down(delta: int)

  /** The column assignments of the report loop in the order it makes them, repeats included:
      `Δ+d_1`, `Δ-d_1`, `Δ+d_2`, `Δ-d_2`, ... */
  function Headings(deltas: seq<int>): (r: seq<Heading>)
    ensures |r| == 2 * |deltas|
    ensures forall k :: 0 <= k < |deltas| ==> r[2 * k] == Up(deltas[k]) && r[2 * k + 1] == Down(deltas[k])
  {
    if deltas == [] then []
    else Headings(deltas[..|deltas| - 1]) + [Up(deltas[|deltas| - 1]), Down(deltas[|deltas| - 1])]
  }

  /** One more step of the loop adds its two headings. */
  lemma HeadingsStep(deltas: seq<int>, j: nat)
    requires j < |deltas|
    ensures Headings(deltas[..j + 1]) == Headings(deltas[..j]) + [Up(deltas[j])] + [Down(deltas[j])]
  {
    assert deltas[..j + 1][..j] == deltas[..j];
  }

  /** Every heading comes from a step, and every step has both of its headings. */
  lemma HeadingsOfSteps(deltas: seq<int>, c: Heading)
    ensures c in Headings(deltas) <==> c.delta in deltas
  {
    var r := Headings(deltas);
    if c in r {
      var k :| 0 <= k < |r| && r[k] == c;
      assert r[2 * (k / 2)] == Up(deltas[k / 2]) && r[2 * (k / 2) + 1] == Down(deltas[k / 2]);
    }
    if c.delta in deltas {
      var k :| 0 <= k < |deltas| && deltas[k] == c.delta;
      assert r[2 * k] == Up(deltas[k]) && r[2 * k + 1] == Down(deltas[k]);
    }
  }

  /** `r` is missing exactly when no order of `sells` passes the volume test at `v`, and
      otherwise is the price of a cheapest order passing it, less `smp`. */
  ghost predicate Selects(sells: seq<Order>, v: real, atLeast: bool, smp: real, r: Option<real>) {
    && (r.None? <==> forall o :: o in sells ==> !Admits(o, v, atLeast))
    && (r.Some? ==> exists o :: CheapestAdmitted(sells, v, atLeast, o) && r.value == o.price - smp)
  }

  /** Lines 62-65 on the sell list sorted by ascending price: the orders whose volume reaches `v`
      (or, for a negative step, stays at or below it); missing when there are none, otherwise
      the price of the first of them, a cheapest one, less `smp`. */
  function Relevant(sells: seq<Order>, v: real, atLeast: bool, smp: real): (r: Option<real>)
    requires SortedByPrice(sells, true)
    ensures Selects(sells, v, atLeast, smp, r)
  {
    var relevant := WithVolume(sells, v, atLeast);
    if relevant == [] then None
    else
      HeadIsCheapest(sells, v, atLeast);
      Some(relevant[0].price - smp)
  }

  /** A Python call that either returns a value or raises. */
  datatype Outcome<T> = Returned(value: T) | Raised

  class EnergyMarketAnalyzer {
    /** `self.df`: set by the constructor and only read afterwards. */
    const df: seq<Order>

    constructor (df: seq<Order>)
      ensures this.df == df
    {
      this.df := df;
    }

    /** `get_orders(hour, order_type)`: missing exactly when no order has that hour and side;
        otherwise those orders, by ascending price for Sell and descending for Purchase. */
    function GetOrders(hour: string, side: Side): (r: Option<seq<Order>>)
      ensures r.None? <==> forall o :: o in df ==> !InBucket(o, hour, side)
      ensures r.Some? ==>
        && SortedByPrice(r.value, side == Sell)
        && multiset(r.value) == multiset(Bucket(df, hour, side))
    {
      var orders := Bucket(df, hour, side);
      if orders == [] then None
      else
        assert orders[0] in orders;
        Some(CurveOrders(df, hour, side))
    }

    /** What `calculate_clearing(hour)` needs beyond the table: when both sides have orders,
        a line or multipoint result carries coordinates (`min` of none raises). */
    predicate Clearable(hour: string, meet: Intersector) {
      (Bucket(df, hour, Sell) != [] && Bucket(df, hour, Purchase) != []) ==> HasCoords(Intersect(df, hour, meet))
    }

    /** `calculate_clearing(hour)` with the emptiness test of line 33 read as "absent": missing
        when a side has no orders or the intersection is of another kind; otherwise the clearing
        the result kind determines. */
    function CalculateClearing(hour: string, meet: Intersector): (r: Option<(real, real)>)
      requires Clearable(hour, meet)
      ensures r.None? <==>
        GetOrders(hour, Sell).None? || GetOrders(hour, Purchase).None? || Intersect(df, hour, meet).Other?
      ensures r.Some? ==> IsClearing(Intersect(df, hour, meet), r.value.0, r.value.1)
    {
      var sells, purchases := GetOrders(hour, Sell), GetOrders(hour, Purchase);
      if sells.None? || purchases.None? then None
      else
        var intersection := meet(Curve(sells.value), Curve(purchases.value));
        if intersection.Other? then None else Some(Clearing(intersection))
    }

    /** Lines 26-34 as written: `not sell_orders` is true for a missing list, and for a
        DataFrame it raises, pandas refusing the truth value of a frame. */
    function CalculateClearingAsWritten(hour: string): (r: Outcome<Option<(real, real)>>)
      ensures r.Raised? <==> exists o :: o in df && InBucket(o, hour, Sell)
      ensures r.Returned? ==> r.value.None?
    {
      var sells := GetOrders(hour, Sell);
      if sells.None? then Returned(None) else Raised
    }

    /** As written, the clearing is never returned: every hour the corrected version clears
        raises instead. */
    lemma AsWrittenNeverClears(hour: string, meet: Intersector)
      requires Clearable(hour, meet)
      ensures CalculateClearing(hour, meet).Some? ==> CalculateClearingAsWritten(hour).Raised?
      ensures CalculateClearingAsWritten(hour).Returned? ==> CalculateClearingAsWritten(hour).value.None?
    {
      if CalculateClearing(hour, meet).Some? {
        var o := Bucket(df, hour, Sell)[0];
        assert o in Bucket(df, hour, Sell);
      }
    }

    /** `calculate_price_sensitivity(hour, delta)`: missing when there is no clearing or no
        order passes the volume test of line 62 (`>= smv + delta` for `delta >= 0`, `<= smv + delta`
        below); otherwise the price of a cheapest sell order passing it, less `smp`. */
    function CalculatePriceSensitivity(hour: string, delta: real, meet: Intersector): (r: Option<real>)
      requires Clearable(hour, meet)
      ensures CalculateClearing(hour, meet).None? ==> r.None?
      ensures CalculateClearing(hour, meet).Some? ==>
        Selects(CurveOrders(df, hour, Sell), CalculateClearing(hour, meet).value.0 + delta, delta >= 0.0,
                CalculateClearing(hour, meet).value.1, r)
    {
      var clearing := CalculateClearing(hour, meet);
      if clearing.None? then None
      else
        ClearingNeedsSells(hour, meet);
        var sells := GetOrders(hour, Sell);
        if sells.None? then None
        else Relevant(sells.value, clearing.value.0 + delta, delta >= 0.0, clearing.value.1)
    }

    /** A clearing exists only for an hour with sell orders: the second test of missing sell
        orders (line 59) never fires. */
    lemma ClearingNeedsSells(hour: string, meet: Intersector)
      requires Clearable(hour, meet)
      ensures CalculateClearing(hour, meet).Some? ==> GetOrders(hour, Sell).Some?
    {
    }

    /** The cell of column `c` in the row of `hour`: the probe at `+d` or `-d`. */
    function Cell(hour: string, c: Heading, meet: Intersector): Option<real>
      requires Clearable(hour, meet)
    {
      match c
      case Up(d) => CalculatePriceSensitivity(hour, d as real, meet)
      case Down(d) => CalculatePriceSensitivity(hour, -(d as real), meet)
    }

    /** `report['Hour'].apply(lambda h: ...)` for column `c`. */
    function Column(hours: seq<string>, c: Heading, meet: Intersector): (r: seq<Option<real>>)
      requires forall i :: 0 <= i < |hours| ==> Clearable(hours[i], meet)
      ensures |r| == |hours|
      ensures forall i :: 0 <= i < |hours| ==> r[i] == Cell(hours[i], c, meet)
    {
      seq(|hours|, i requires 0 <= i < |hours| => Cell(hours[i], c, meet))
    }

    /** `t` holds the columns named by the assignments `done`, each computed over its rows. */
    ghost predicate Assigned(meet: Intersector, t: Frame<Heading>, done: seq<Heading>) {
      && (forall i :: 0 <= i < |t.labels| ==> Clearable(t.labels[i], meet))
      && t.names == Distinct(done)
      && (forall c :: c in t.cols <==> c in t.names)
      && (forall c :: c in t.cols ==> t.cols[c] == Column(t.labels, c, meet))
    }

    /** One assignment `report[name] = ...`: a new name goes last, an old one keeps its place. */
    lemma AssignOne(meet: Intersector, t: Frame<Heading>, done: seq<Heading>, c: Heading)
      requires Assigned(meet, t, done)
      ensures Assigned(meet, SetColumn(t, c, Column(t.labels, c, meet)), done + [c])
    {
      DistinctSnoc(done, c);
    }

    /** `generate_sensitivity_report(deltas)`: one row per hour in the order of first appearance,
        and for each step the columns `Δ+d` then `Δ-d`, a repeated step keeping the place of its
        first assignment. */
    method GenerateSensitivityReport(deltas: seq<int>, meet: Intersector) returns (report: Frame<Heading>)
      requires forall h :: h in HourColumn(df) ==> Clearable(h, meet)
      ensures report.labels == Hours(df)
      ensures report.names == Distinct(Headings(deltas))
      ensures forall c :: c in report.cols <==> c.delta in deltas
      ensures forall c :: c in report.cols ==> report.cols[c] == Column(Hours(df), c, meet)
    {
      var hours := Hours(df);
      assert forall i :: 0 <= i < |hours| ==> Clearable(hours[i], meet) by {
        forall i | 0 <= i < |hours| ensures Clearable(hours[i], meet) {
          assert hours[i] in HourColumn(df);
        }
      }
      report := Frame(hours, [], map[]);
      assert deltas[..0] == [];
      for j := 0 to |deltas|
        invariant report.labels == hours
        invariant Assigned(meet, report, Headings(deltas[..j]))
      {
        var delta := deltas[j];
        HeadingsStep(deltas, j);
        AssignOne(meet, report, Headings(deltas[..j]), Up(delta));
        report := SetColumn(report, Up(delta), Column(hours, Up(delta), meet));
        AssignOne(meet, report, Headings(deltas[..j]) + [Up(delta)], Down(delta));
        report := SetColumn(report, Down(delta), Column(hours, Down(delta), meet));
      }
      assert deltas[..|deltas|] == deltas;
      DistinctKeepsMembers(Headings(deltas));
      forall c ensures c in report.cols <==> c.delta in deltas {
        HeadingsOfSteps(deltas, c);
      }
    }
  }
}
