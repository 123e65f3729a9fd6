/** The first analyzer (python/sensitivity.py): the clearing of one hour, the price
    sensitivity probe, and the day report with its base, peak and off_peak rows. */
module Sensitivity {
  import opened Wrappers
  import opened Orders
  import opened Geometry
  import opened Rounding
  import opened Frames

  /** `f_clearing(df, hour)`. Any other result kind leaves `smv` and `smp` unbound, and a
      line or multipoint without coordinates makes `min` raise: callers exclude both. */
  function FClearing(df: seq<Order>, hour: string, meet: Intersector): (r: (real, real))
    requires Handled(Intersect(df, hour, meet))
    ensures IsClearing(Intersect(df, hour, meet), r.0, r.1)
  {
    Clearing(Intersect(df, hour, meet))
  }

  /** Some order of `s` has volume above `v` and some has volume below it. */
  predicate Straddles(s: seq<Order>, v: real) {
    (exists o :: o in s && o.volume > v) && (exists o :: o in s && o.volume < v)
  }

  /** Lines 24-27 on the sell list sorted by ascending price: missing unless `smv + delta`
      lies strictly between the least and the largest volume; otherwise the price of the
      first order whose volume reaches `smv + delta`, a cheapest such order, less `smp`. */
  function Probe(sells: seq<Order>, v: real, smp: real): (r: Option<real>)
    requires |sells| > 0 && SortedByPrice(sells, true)
    ensures r.Some? <==> Straddles(sells, v)
    ensures r.Some? ==> exists o :: CheapestAdmitted(sells, v, true, o) && r.value == o.price - smp
  {
    ProbeCases(sells, v);
    if MaxVolume(sells) <= v || MinVolume(sells) >= v then None
    else Some(WithVolume(sells, v, true)[0].price - smp)
  }

  /** The two outcomes of the guard: outside the volume range, or inside it with a
      cheapest reaching order at the head of the selection. */
  lemma ProbeCases(sells: seq<Order>, v: real)
    requires |sells| > 0 && SortedByPrice(sells, true)
    ensures !(MaxVolume(sells) <= v || MinVolume(sells) >= v) <==> Straddles(sells, v)
    ensures !(MaxVolume(sells) <= v || MinVolume(sells) >= v) ==>
      WithVolume(sells, v, true) != [] && CheapestAdmitted(sells, v, true, WithVolume(sells, v, true)[0])
  {
    StrictlyInside(sells, v);
    if MaxVolume(sells) > v {
      ReachingOrderExists(sells, v);
    }
  }

  /** The guard of line 24 fails exactly when `v` lies strictly inside the volume range. */
  lemma StrictlyInside(sells: seq<Order>, v: real)
    requires |sells| > 0
    ensures !(MaxVolume(sells) <= v || MinVolume(sells) >= v) <==> Straddles(sells, v)
  {
    var i :| 0 <= i < |sells| && sells[i].volume == MaxVolume(sells);
    var j :| 0 <= j < |sells| && sells[j].volume == MinVolume(sells);
    assert sells[i] in sells && sells[j] in sells;
    forall o | o in sells ensures MinVolume(sells) <= o.volume <= MaxVolume(sells) {
      var k :| 0 <= k < |sells| && sells[k] == o;
    }
  }

  /** Inside the range some order reaches `v`, so `.iloc[0]` has a row to read. */
  lemma ReachingOrderExists(sells: seq<Order>, v: real)
    requires |sells| > 0 && SortedByPrice(sells, true) && MaxVolume(sells) > v
    ensures WithVolume(sells, v, true) != []
    ensures CheapestAdmitted(sells, v, true, WithVolume(sells, v, true)[0])
  {
    var i :| 0 <= i < |sells| && sells[i].volume == MaxVolume(sells);
    assert sells[i] in WithVolume(sells, v, true);
    HeadIsCheapest(sells, v, true);
  }

  /** A larger volume step never selects a cheaper order. */
  lemma ProbeMonotone(sells: seq<Order>, v1: real, v2: real, smp: real)
    requires |sells| > 0 && SortedByPrice(sells, true)
    requires v1 <= v2
    requires Probe(sells, v1, smp).Some? && Probe(sells, v2, smp).Some?
    ensures Probe(sells, v1, smp).value <= Probe(sells, v2, smp).value
  {
    ProbeCases(sells, v1);
    ProbeCases(sells, v2);
    CheapestMonotone(sells, v1, v2, WithVolume(sells, v1, true)[0], WithVolume(sells, v2, true)[0]);
  }

  /** The sell orders of `hour` sorted by ascending price: the list both probes read. */
  function Sells(df: seq<Order>, hour: string): (r: seq<Order>)
    requires |Bucket(df, hour, Sell)| > 0
    ensures |r| > 0 && SortedByPrice(r, true)
    ensures forall o :: o in r <==> o in df && InBucket(o, hour, Sell)
  {
    var r := CurveOrders(df, hour, Sell);
    assert |multiset(r)| == |multiset(Bucket(df, hour, Sell))|;
    r
  }

  /** `price_sensitivity(df, delta, hour)`; the hour must have sell orders (`max` of an empty
      column raises). Missing unless some sell order of the hour has volume above `smv + delta`
      and some has volume below it; otherwise the price of a cheapest sell order whose volume
      reaches `smv + delta`, less `smp`, whatever the sign of `delta`. */
  function PriceSensitivity(df: seq<Order>, delta: real, hour: string, meet: Intersector): (r: Option<real>)
    requires |Bucket(df, hour, Sell)| > 0
    requires Handled(Intersect(df, hour, meet))
    ensures r.Some? <==> Straddles(Sells(df, hour), FClearing(df, hour, meet).0 + delta)
    ensures r.Some? ==>
      exists o :: && CheapestAdmitted(Sells(df, hour), FClearing(df, hour, meet).0 + delta, true, o)
                  && r.value == o.price - FClearing(df, hour, meet).1
  {
    Probe(Sells(df, hour), FClearing(df, hour, meet).0 + delta, FClearing(df, hour, meet).1)
  }

  /** A larger volume step never selects a cheaper order. */
  lemma SensitivityMonotone(df: seq<Order>, d1: real, d2: real, hour: string, meet: Intersector)
    requires |Bucket(df, hour, Sell)| > 0 && Handled(Intersect(df, hour, meet))
    requires d1 <= d2
    requires PriceSensitivity(df, d1, hour, meet).Some? && PriceSensitivity(df, d2, hour, meet).Some?
    ensures PriceSensitivity(df, d1, hour, meet).value <= PriceSensitivity(df, d2, hour, meet).value
  {
    ProbeMonotone(Sells(df, hour), FClearing(df, hour, meet).0 + d1, FClearing(df, hour, meet).0 + d2, FClearing(df, hour, meet).1);
  }

  /** The report's numeric columns: `smv`, `smp`, and `"-" + str(d)`, `"+" + str(d)` for a step `d`
      (distinct integers give distinct names). */
  datatype Column = Smv | Smp | Minus(delta: int) | Plus(delta: int)

  /** The product labels counted as off-peak. */
  const OffPeak: seq<string> := ["H1", "H2", "H3", "H3B", "H4", "H5", "H6", "H7", "H8", "H21", "H22", "H23", "H24"]

  /** `"H" + hour` for each hour. */
  function Products(hours: seq<string>): (r: seq<string>)
    ensures |r| == |hours|
    ensures forall i :: 0 <= i < |hours| ==> r[i] == "H" + hours[i]
  {
    seq(|hours|, i requires 0 <= i < |hours| => "H" + hours[i])
  }

  /** The report can be computed: every hour's intersection is of a handled kind and, when a
      step is probed, every hour has sell orders. */
  ghost predicate Computable(df: seq<Order>, deltas: seq<int>, meet: Intersector) {
    forall h :: h in HourColumn(df) ==>
      Handled(Intersect(df, h, meet)) && (deltas != [] ==> |Bucket(df, h, Sell)| > 0)
  }

  /** What the cell of column `c` for `hour` needs. */
  predicate CellReady(df: seq<Order>, hour: string, c: Column, meet: Intersector) {
    Handled(Intersect(df, hour, meet)) && ((c.Minus? || c.Plus?) ==> |Bucket(df, hour, Sell)| > 0)
  }

  /** The cell of column `c` in the row of `hour` (python/sensitivity.py:61-70). */
  function HourCell(df: seq<Order>, hour: string, c: Column, meet: Intersector): Option<real>
    requires CellReady(df, hour, c, meet)
  {
    match c
    case Smv => Some(FClearing(df, hour, meet).0)
    case Smp => Some(FClearing(df, hour, meet).1)
    case Minus(d) => PriceSensitivity(df, -(d as real), hour, meet)
    case Plus(d) => PriceSensitivity(df, d as real, hour, meet)
  }

  /** Column `c` over the rows `hours`. */
  function Cells(df: seq<Order>, hours: seq<string>, c: Column, meet: Intersector): (r: seq<Option<real>>)
    requires forall i :: 0 <= i < |hours| ==> CellReady(df, hours[i], c, meet)
    ensures |r| == |hours|
    ensures forall i :: 0 <= i < |hours| ==> r[i] == HourCell(df, hours[i], c, meet)
  {
    seq(|hours|, i requires 0 <= i < |hours| => HourCell(df, hours[i], c, meet))
  }

  /** The `-d` columns, assigned by `for delta in deltas[::-1]`. */
  function MinusColumns(deltas: seq<int>): (r: seq<Column>)
    ensures |r| == |deltas|
    ensures forall k :: 0 <= k < |deltas| ==> r[k] == Minus(deltas[|deltas| - 1 - k])
  {
    seq(|deltas|, k requires 0 <= k < |deltas| => Minus(deltas[|deltas| - 1 - k]))
  }

  /** The `+d` columns, assigned by `for delta in deltas`. */
  function PlusColumns(deltas: seq<int>): (r: seq<Column>)
    ensures |r| == |deltas|
    ensures forall k :: 0 <= k < |deltas| ==> r[k] == Plus(deltas[k])
  {
    seq(|deltas|, k requires 0 <= k < |deltas| => Plus(deltas[k]))
  }

  /** The column assignments in the order the source makes them, repeats included:
      smv, -d_n ... -d_1, smp, +d_1 ... +d_n. */
  function ColumnList(deltas: seq<int>): (r: seq<Column>)
    ensures forall c :: c in r && (c.Minus? || c.Plus?) ==> deltas != []
    ensures |r| == 2 * |deltas| + 2 && r[0] == Smv && r[|deltas| + 1] == Smp
    ensures forall k :: 1 <= k <= |deltas| ==> r[k] == Minus(deltas[|deltas| - k])
    ensures forall k :: |deltas| + 2 <= k < |r| ==> r[k] == Plus(deltas[k - |deltas| - 2])
  {
    [Smv] + MinusColumns(deltas) + [Smp] + PlusColumns(deltas)
  }

  /** Column `c` can be computed for every row of `hours`. */
  predicate ColumnReady(df: seq<Order>, hours: seq<string>, c: Column, meet: Intersector) {
    forall i :: 0 <= i < |hours| ==> CellReady(df, hours[i], c, meet)
  }

  lemma ReadyColumns(df: seq<Order>, deltas: seq<int>, meet: Intersector)
    requires Computable(df, deltas, meet)
    ensures forall c :: c in ColumnList(deltas) ==> ColumnReady(df, Hours(df), c, meet)
  {
    forall c, i | c in ColumnList(deltas) && 0 <= i < |Hours(df)| ensures CellReady(df, Hours(df)[i], c, meet) {
      assert Hours(df)[i] in HourColumn(df);
    }
  }

  /** Lines 77-90: the base, peak and off_peak rows above the hour rows, every cell rounded to
      two decimals. */
  function WithAggregates(f: Frame<Column>, offPeak: seq<string>): Frame<Column>
    requires Rectangular(f)
  {
    var baseRow := MeanRow(f, 2);
    var peakRow := MeanRow(SelectRows(f, offPeak, false), 2);
    var offPeakRow := MeanRow(SelectRows(f, offPeak, true), 2);
    RoundFrame(Stack(["base", "peak", "off_peak"], [baseRow, peakRow, offPeakRow], f), 2)
  }

  lemma RoundCellTwice(c: Option<real>, d: nat)
    ensures RoundCell(RoundCell(c, d), d) == RoundCell(c, d)
  {
    if c.Some? {
      RoundTwice(c.value, d, d);
    }
  }

  /** A column of the assembled report: its three aggregates and its hour cells, rounded. */
  lemma AggregatedCells(f: Frame<Column>, offPeak: seq<string>, c: Column)
    requires Rectangular(f) && c in f.cols
    ensures var col, t := f.cols[c], WithAggregates(f, offPeak);
      && c in t.cols
      && |t.cols[c]| == 3 + |col|
      && t.cols[c][0] == RoundCell(Mean(col), 2)
      && t.cols[c][1] == RoundCell(Mean(Pick(col, f.labels, offPeak, false)), 2)
      && t.cols[c][2] == RoundCell(Mean(Pick(col, f.labels, offPeak, true)), 2)
      && forall i :: 0 <= i < |col| ==> t.cols[c][3 + i] == RoundCell(col[i], 2)
  {
    var heads := ["base", "peak", "off_peak"];
    var peakRows, offPeakRows := SelectRows(f, offPeak, false), SelectRows(f, offPeak, true);
    var rows := [MeanRow(f, 2), MeanRow(peakRows, 2), MeanRow(offPeakRows, 2)];
    var stacked := Stack(heads, rows, f);
    assert WithAggregates(f, offPeak) == RoundFrame(stacked, 2);
    SelectRowsColumn(f, offPeak, false, c);
    SelectRowsColumn(f, offPeak, true, c);
    MeanRowCell(f, 2, c);
    MeanRowCell(peakRows, 2, c);
    MeanRowCell(offPeakRows, 2, c);
    StackColumn(heads, rows, f, c);
    RoundFrameColumn(stacked, 2, c);
    RoundCellTwice(Mean(f.cols[c]), 2);
    RoundCellTwice(Mean(Pick(f.cols[c], f.labels, offPeak, false)), 2);
    RoundCellTwice(Mean(Pick(f.cols[c], f.labels, offPeak, true)), 2);
  }

  /** `col` is the report's column `c`: the base, peak and off_peak means of its hour cells,
      then the hour cells, each rounded to two decimals. */
  ghost predicate IsReportColumn(df: seq<Order>, deltas: seq<int>, meet: Intersector, c: Column, col: seq<Option<real>>)
    requires Computable(df, deltas, meet) && c in ColumnList(deltas)
  {
    ReadyColumns(df, deltas, meet);
    var cells := Cells(df, Hours(df), c, meet);
    var labels := Products(Hours(df));
    && |col| == 3 + |cells|
    && col[0] == RoundCell(Mean(cells), 2)
    && col[1] == RoundCell(Mean(Pick(cells, labels, OffPeak, false)), 2)
    && col[2] == RoundCell(Mean(Pick(cells, labels, OffPeak, true)), 2)
    && forall i :: 0 <= i < |cells| ==> col[3 + i] == RoundCell(cells[i], 2)
  }

  /** `t` holds the columns named by the assignments `done`, each computed over its rows. */
  ghost predicate Assigned(df: seq<Order>, meet: Intersector, t: Frame<Column>, done: seq<Column>) {
    && t.names == Distinct(done)
    && (forall c :: c in t.cols <==> c in t.names)
    && (forall c :: c in t.cols ==> ColumnReady(df, t.labels, c, meet) && t.cols[c] == Cells(df, t.labels, c, meet))
  }

  /** A loop `for delta in ...: df[name(delta)] = ...` (lines 66-67 and 69-70): the columns
      `todo` assigned one after the other. */
  method AssignColumns(df: seq<Order>, meet: Intersector, t0: Frame<Column>, done: seq<Column>, todo: seq<Column>)
    returns (t: Frame<Column>)
    requires Assigned(df, meet, t0, done)
    requires forall c :: c in todo ==> ColumnReady(df, t0.labels, c, meet)
    ensures t.labels == t0.labels
    ensures Assigned(df, meet, t, done + todo)
  {
    t := t0;
    assert done + todo[..0] == done;
    for j := 0 to |todo|
      invariant t.labels == t0.labels
      invariant Assigned(df, meet, t, done + todo[..j])
    {
      var c := todo[j];
      ExtendPrefix(done, todo, j);
      AssignOne(df, meet, t, done + todo[..j], c);
      t := SetColumn(t, c, Cells(df, t.labels, c, meet));
    }
    assert todo[..|todo|] == todo;
  }

  /** One assignment `df[name] = ...`: a new name goes last, an old one keeps its place. */
  lemma AssignOne(df: seq<Order>, meet: Intersector, t: Frame<Column>, done: seq<Column>, c: Column)
    requires Assigned(df, meet, t, done) && ColumnReady(df, t.labels, c, meet)
    ensures Assigned(df, meet, SetColumn(t, c, Cells(df, t.labels, c, meet)), done + [c])
  {
    DistinctSnoc(done, c);
  }

  /** Lines 61-70: the hour table, one row per hour, with its columns assigned in the order
      smv, `-d` for the steps last to first, smp, `+d` for the steps first to last. */
  method HourTable(df: seq<Order>, deltas: seq<int>, meet: Intersector) returns (t: Frame<Column>)
    requires Computable(df, deltas, meet)
    ensures t.labels == Hours(df)
    ensures t.names == Distinct(ColumnList(deltas))
    ensures forall c :: c in t.cols <==> c in ColumnList(deltas)
    ensures forall c :: c in t.cols ==> t.cols[c] == Cells(df, Hours(df), c, meet)
  {
    var hours := Hours(df);
    ReadyColumns(df, deltas, meet);
    var all, minus, plus := ColumnList(deltas), MinusColumns(deltas), PlusColumns(deltas);
    // the constructor: the hour column and smv
    t := Frame(hours, [], map[]);
    AssignOne(df, meet, t, [], Smv);
    t := SetColumn(t, Smv, Cells(df, hours, Smv, meet));
    t := AssignColumns(df, meet, t, [Smv], minus);
    AssignOne(df, meet, t, [Smv] + minus, Smp);
    t := SetColumn(t, Smp, Cells(df, hours, Smp, meet));
    t := AssignColumns(df, meet, t, [Smv] + minus + [Smp], plus);
    assert [Smv] + minus + [Smp] + plus == all;
    DistinctKeepsMembers(all);
  }

  /** `sensitivity_df(df, deltas)`: the rows base, peak, off_peak and one per hour in the order
      of first appearance; the columns smv, the `-d` steps last to first, smp, the `+d` steps
      first to last, a repeated step keeping the place of its first assignment. */
  method SensitivityDf(df: seq<Order>, deltas: seq<int>, meet: Intersector) returns (t: Frame<Column>)
    requires Computable(df, deltas, meet)
    ensures t.labels == ["base", "peak", "off_peak"] + Products(Hours(df))
    ensures t.names == Distinct(ColumnList(deltas))
    ensures forall c :: c in t.cols <==> c in ColumnList(deltas)
    ensures forall c :: c in t.cols ==> IsReportColumn(df, deltas, meet, c, t.cols[c])
  {
    var table := HourTable(df, deltas, meet);
    var pre := table.(labels := Products(table.labels));
    DistinctKeepsMembers(ColumnList(deltas));
    assert Rectangular(pre);
    t := WithAggregates(pre, OffPeak);
    ReadyColumns(df, deltas, meet);
    forall c | c in t.cols ensures IsReportColumn(df, deltas, meet, c, t.cols[c]) {
      AggregatedCells(pre, OffPeak, c);
    }
  }

  /** With distinct steps no assignment repeats a name: the columns are exactly smv,
      -d_n ... -d_1, smp, +d_1 ... +d_n. */
  lemma ColumnOrder(deltas: seq<int>)
    requires NoDuplicates(deltas)
    ensures Distinct(ColumnList(deltas)) == ColumnList(deltas)
  {
    var n, all := |deltas|, ColumnList(deltas);
    assert NoDuplicates(all) by {
      forall i, j | 0 <= i < j < |all| ensures all[i] != all[j] {
        if 1 <= i && j <= n {
          assert deltas[n - i] != deltas[n - j];
        } else if n + 2 <= i {
          assert deltas[i - n - 2] != deltas[j - n - 2];
        }
      }
    }
    DistinctOfNoDuplicates(all);
  }

  /** The aggregate rows of a report column: peak and off_peak split the hour rows, so base is
      the one of them that has a value, or lies between the two. */
  lemma AggregateRowsPartition(df: seq<Order>, deltas: seq<int>, meet: Intersector, c: Column, col: seq<Option<real>>)
    requires Computable(df, deltas, meet) && c in ColumnList(deltas)
    requires IsReportColumn(df, deltas, meet, c, col)
    ensures col[1].None? ==> col[0] == col[2]
    ensures col[2].None? ==> col[0] == col[1]
    ensures col[1].Some? && col[2].Some? ==>
      col[0].Some? && (col[1].value <= col[0].value <= col[2].value || col[2].value <= col[0].value <= col[1].value)
  {
    ReadyColumns(df, deltas, meet);
    RoundedMeanOfPartition(Cells(df, Hours(df), c, meet), Products(Hours(df)), OffPeak, 2);
  }

  /** When every hour is off-peak, the peak row has no values. */
  lemma AllOffPeakLeavesPeakEmpty(df: seq<Order>, deltas: seq<int>, meet: Intersector, c: Column, col: seq<Option<real>>)
    requires Computable(df, deltas, meet) && c in ColumnList(deltas)
    requires IsReportColumn(df, deltas, meet, c, col)
    requires forall i :: 0 <= i < |Hours(df)| ==> "H" + Hours(df)[i] in OffPeak
    ensures col[1].None?
  {
    ReadyColumns(df, deltas, meet);
    ProductsInGroup(Hours(df), OffPeak);
    NoRowsOutsideSet(Cells(df, Hours(df), c, meet), Products(Hours(df)), OffPeak);
  }

  lemma ProductsInGroup(hours: seq<string>, group: seq<string>)
    requires forall i :: 0 <= i < |hours| ==> "H" + hours[i] in group
    ensures forall k :: 0 <= k < |Products(hours)| ==> Products(hours)[k] in group
  {
  }
}
