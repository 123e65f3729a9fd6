/** Where the two analyzers agree and where they do not. */
module Comparison {
  import opened Wrappers
  import opened Orders
  import opened Geometry
  import opened Rounding
  import opened Sensitivity
  import opened SensitivityOpt

  /** With orders on both sides and an intersection of a handled kind, both versions find the
      same clearing. */
  lemma ClearingsAgree(a: EnergyMarketAnalyzer, hour: string, meet: Intersector)
    requires Bucket(a.df, hour, Sell) != [] && Bucket(a.df, hour, Purchase) != []
    requires Handled(Intersect(a.df, hour, meet))
    ensures a.CalculateClearing(hour, meet).Some?
    ensures a.CalculateClearing(hour, meet).value == FClearing(a.df, hour, meet)
  {
    assert Bucket(a.df, hour, Sell)[0] in Bucket(a.df, hour, Sell);
    assert Bucket(a.df, hour, Purchase)[0] in Bucket(a.df, hour, Purchase);
  }

  /** For a non-negative step the probes agree wherever the first one is defined: both take a
      cheapest sell order whose volume reaches `smv + delta`. */
  lemma ProbesAgreeAbove(a: EnergyMarketAnalyzer, hour: string, delta: real, meet: Intersector)
    requires Bucket(a.df, hour, Sell) != [] && Bucket(a.df, hour, Purchase) != []
    requires Handled(Intersect(a.df, hour, meet))
    requires delta >= 0.0
    requires PriceSensitivity(a.df, delta, hour, meet).Some?
    ensures a.CalculatePriceSensitivity(hour, delta, meet).Some?
    ensures a.CalculatePriceSensitivity(hour, delta, meet).value == PriceSensitivity(a.df, delta, hour, meet).value
  {
    ClearingsAgree(a, hour, meet);
    var smv, smp := FClearing(a.df, hour, meet).0, FClearing(a.df, hour, meet).1;
    var sells := CurveOrders(a.df, hour, Sell);
    FirstProbe(a.df, hour, delta, meet, sells, smv, smp);
    SecondProbe(a, hour, delta, meet, sells, smv, smp);
    SameSelection(sells, smv, delta, smp);
  }

  /** The first probe once its clearing and sell list are known. */
  lemma FirstProbe(df: seq<Order>, hour: string, delta: real, meet: Intersector,
                   sells: seq<Order>, smv: real, smp: real)
    requires |Bucket(df, hour, Sell)| > 0 && Handled(Intersect(df, hour, meet))
    requires FClearing(df, hour, meet) == (smv, smp) && sells == CurveOrders(df, hour, Sell)
    ensures |sells| > 0 && SortedByPrice(sells, true)
    ensures PriceSensitivity(df, delta, hour, meet).Some? == Probe(sells, smv + delta, smp).Some?
    ensures PriceSensitivity(df, delta, hour, meet).Some? ==>
      PriceSensitivity(df, delta, hour, meet).value == Probe(sells, smv + delta, smp).value
  {
  }

  /** The second probe once its clearing and sell list are known: the sign-dependent selection
      of that list, ... */
  lemma SecondProbe(a: EnergyMarketAnalyzer, hour: string, delta: real, meet: Intersector,
                    sells: seq<Order>, smv: real, smp: real)
    requires a.Clearable(hour, meet)
    requires a.CalculateClearing(hour, meet).Some? && a.CalculateClearing(hour, meet).value == (smv, smp)
    requires Bucket(a.df, hour, Sell) != [] && sells == CurveOrders(a.df, hour, Sell)
    ensures SortedByPrice(sells, true)
    ensures a.CalculatePriceSensitivity(hour, delta, meet).Some? == Relevant(sells, smv + delta, delta >= 0.0, smp).Some?
    ensures a.CalculatePriceSensitivity(hour, delta, meet).Some? ==>
      a.CalculatePriceSensitivity(hour, delta, meet).value == Relevant(sells, smv + delta, delta >= 0.0, smp).value
  {
    SecondProbeDefined(a, hour, delta, meet, sells, smv, smp);
    SecondProbeValue(a, hour, delta, meet, sells, smv, smp);
  }

  /** ... defined exactly when the selection is ... */
  lemma SecondProbeDefined(a: EnergyMarketAnalyzer, hour: string, delta: real, meet: Intersector,
                           sells: seq<Order>, smv: real, smp: real)
    requires a.Clearable(hour, meet)
    requires a.CalculateClearing(hour, meet).Some? && a.CalculateClearing(hour, meet).value == (smv, smp)
    requires Bucket(a.df, hour, Sell) != [] && sells == CurveOrders(a.df, hour, Sell)
    ensures SortedByPrice(sells, true)
    ensures a.CalculatePriceSensitivity(hour, delta, meet).Some? == Relevant(sells, smv + delta, delta >= 0.0, smp).Some?
  {
    a.ClearingNeedsSells(hour, meet);
  }

  /** ... and then of the same value. */
  lemma SecondProbeValue(a: EnergyMarketAnalyzer, hour: string, delta: real, meet: Intersector,
                         sells: seq<Order>, smv: real, smp: real)
    requires a.Clearable(hour, meet)
    requires a.CalculateClearing(hour, meet).Some? && a.CalculateClearing(hour, meet).value == (smv, smp)
    requires Bucket(a.df, hour, Sell) != [] && sells == CurveOrders(a.df, hour, Sell)
    ensures SortedByPrice(sells, true)
    ensures a.CalculatePriceSensitivity(hour, delta, meet).Some? ==>
      a.CalculatePriceSensitivity(hour, delta, meet).value == Relevant(sells, smv + delta, delta >= 0.0, smp).value
  {
    a.ClearingNeedsSells(hour, meet);
  }

  /** Where the guarded probe is defined, the probe of the second version with a non-negative
      step reads the same order. */
  lemma SameSelection(sells: seq<Order>, smv: real, delta: real, smp: real)
    requires |sells| > 0 && SortedByPrice(sells, true)
    requires delta >= 0.0 && Probe(sells, smv + delta, smp).Some?
    ensures Relevant(sells, smv + delta, delta >= 0.0, smp).Some?
    ensures Relevant(sells, smv + delta, delta >= 0.0, smp).value == Probe(sells, smv + delta, smp).value
  {
    ReadsTheSameOrder(sells, smv + delta, smp);
  }

  lemma ReadsTheSameOrder(sells: seq<Order>, v: real, smp: real)
    requires |sells| > 0 && SortedByPrice(sells, true)
    requires Probe(sells, v, smp).Some?
    ensures Relevant(sells, v, true, smp).Some?
    ensures Relevant(sells, v, true, smp).value == Probe(sells, v, smp).value
  {
    assert !(MaxVolume(sells) <= v || MinVolume(sells) >= v);
    ReachingOrderExists(sells, v);
  }

  /** The sell tiers of the sample day: 100 at 10 and 300 at 20. */
  const SampleSells: seq<Order> := [Order("1", Sell, 10.0, 100.0), Order("1", Sell, 20.0, 300.0)]

  /** The purchase tiers of the sample day: 100 at 20 and 300 at 10. */
  const SamplePurchases: seq<Order> := [Order("1", Purchase, 20.0, 100.0), Order("1", Purchase, 10.0, 300.0)]

  /** A day with one hour and two tiers on each side. */
  const SampleBook: seq<Order> := SampleSells + SamplePurchases

  /** The intersection of the sample curves: the sell segment (100, 10)-(300, 20) crosses the
      purchase segment (100, 20)-(300, 10) once, at (200, 15). Other curves are not sampled. */
  function SampleMeet(sell: Polyline, purchase: Polyline): Intersection {
    if sell == [(100.0, 10.0), (300.0, 20.0)] && purchase == [(100.0, 20.0), (300.0, 10.0)]
    then Point(200.0, 15.0)
    else Other
  }

  /** The sell list of the sample hour is its two sell tiers, already in rising price order. */
  lemma SampleSellList()
    ensures Bucket(SampleBook, "1", Sell) == SampleSells
    ensures CurveOrders(SampleBook, "1", Sell) == SampleSells
  {
    assert SampleBook[1..][1..] == SamplePurchases;
    assert SamplePurchases[1..][1..] == [];
    assert Bucket(SamplePurchases[1..], "1", Sell) == [];
    assert Bucket(SamplePurchases, "1", Sell) == [];
    assert Bucket(SampleBook[1..], "1", Sell) == [SampleBook[1]];
    assert Bucket(SampleBook, "1", Sell) == SampleSells;
    assert SampleSells[1..][1..] == [];
    assert SortByPrice(SampleSells[1..], true) == SampleSells[1..];
  }

  /** The purchase list of the sample hour is its two purchase tiers, already in falling price order. */
  lemma SamplePurchaseList()
    ensures Bucket(SampleBook, "1", Purchase) == SamplePurchases
    ensures CurveOrders(SampleBook, "1", Purchase) == SamplePurchases
  {
    assert SampleBook[1..][1..] == SamplePurchases;
    assert SamplePurchases[1..][1..] == [];
    assert Bucket(SamplePurchases[1..], "1", Purchase) == SamplePurchases[1..];
    assert Bucket(SamplePurchases, "1", Purchase) == SamplePurchases;
    assert Bucket(SampleBook[1..], "1", Purchase) == SamplePurchases;
    assert SortByPrice(SamplePurchases[1..], false) == SamplePurchases[1..];
  }

  /** The sample hour's curves meet at the point (200, 15). */
  lemma SampleIntersection()
    ensures Intersect(SampleBook, "1", SampleMeet) == Point(200.0, 15.0)
  {
    SampleSellList();
    SamplePurchaseList();
    CurveOfTwo(SampleSells);
    CurveOfTwo(SamplePurchases);
  }

  lemma CurveOfTwo(s: seq<Order>)
    requires |s| == 2
    ensures Curve(s) == [(s[0].volume, s[0].price), (s[1].volume, s[1].price)]
  {
  }

  /** The crossing point already has one and two decimals, so rounding keeps it. */
  lemma SamplePointRounding()
    ensures Round(200.0, 1) == 200.0 && Round(15.0, 2) == 15.0
  {
    assert Unit(1) == 10.0;
    assert Unit(2) == 100.0;
    RoundOnGrid(200.0, 1);
    RoundOnGrid(15.0, 2);
  }

  /** Both versions clear the sample hour at (200, 15). */
  lemma SampleClearing(a: EnergyMarketAnalyzer)
    requires a.df == SampleBook
    ensures Bucket(a.df, "1", Sell) != [] && Bucket(a.df, "1", Purchase) != []
    ensures Handled(Intersect(a.df, "1", SampleMeet))
    ensures FClearing(a.df, "1", SampleMeet) == (200.0, 15.0)
    ensures a.Clearable("1", SampleMeet)
    ensures a.CalculateClearing("1", SampleMeet).Some?
    ensures a.CalculateClearing("1", SampleMeet).value == (200.0, 15.0)
    ensures CurveOrders(a.df, "1", Sell) == SampleSells
  {
    SampleSellList();
    SamplePurchaseList();
    SampleIntersection();
    SamplePointRounding();
    assert SampleBook[2] in Bucket(a.df, "1", Purchase);
    ClearingsAgree(a, "1", SampleMeet);
  }

  /** At volume 150 the first probe takes the tier of 300 (price 20). */
  lemma SampleProbeAt150()
    ensures Probe(SampleSells, 150.0, 15.0).Some?
    ensures Probe(SampleSells, 150.0, 15.0).value == 5.0
  {
    assert SampleSells[1..] == [SampleSells[1]];
    assert WithVolume(SampleSells, 150.0, true) == [SampleSells[1]];
  }

  /** At volume 300, the largest, the first probe gives up. */
  lemma SampleProbeAt300()
    ensures Probe(SampleSells, 300.0, 15.0).None?
  {
    assert SampleSells[1..] == [SampleSells[1]];
  }

  /** At or below 150 the second probe takes the tier of 100 (price 10). */
  lemma SampleRelevantBelow150()
    ensures Relevant(SampleSells, 150.0, false, 15.0).Some?
    ensures Relevant(SampleSells, 150.0, false, 15.0).value == -5.0
  {
    assert WithVolume(SampleSells, 150.0, false)[0] == SampleSells[0];
  }

  /** At or above 300 the second probe takes the tier of 300 (price 20). */
  lemma SampleRelevantAbove300()
    ensures Relevant(SampleSells, 300.0, true, 15.0).Some?
    ensures Relevant(SampleSells, 300.0, true, 15.0).value == 5.0
  {
    assert SampleSells[1..] == [SampleSells[1]];
    assert WithVolume(SampleSells, 300.0, true) == [SampleSells[1]];
  }

  /** For a negative step the probes disagree: at `smv - 50` the first version takes the cheapest
      order reaching 150 (price 20), the second the cheapest at or below 150 (price 10). */
  lemma ProbesDisagreeBelow(a: EnergyMarketAnalyzer)
    requires a.df == SampleBook
    ensures Bucket(a.df, "1", Sell) != [] && Handled(Intersect(a.df, "1", SampleMeet))
    ensures a.Clearable("1", SampleMeet)
    ensures PriceSensitivity(a.df, -50.0, "1", SampleMeet).Some?
    ensures PriceSensitivity(a.df, -50.0, "1", SampleMeet).value == 5.0
    ensures a.CalculatePriceSensitivity("1", -50.0, SampleMeet).Some?
    ensures a.CalculatePriceSensitivity("1", -50.0, SampleMeet).value == -5.0
  {
    SampleClearing(a);
    FirstProbe(a.df, "1", -50.0, SampleMeet, SampleSells, 200.0, 15.0);
    SecondProbe(a, "1", -50.0, SampleMeet, SampleSells, 200.0, 15.0);
    SampleProbeAt150();
    SampleRelevantBelow150();
  }

  /** At the largest sell volume the first version gives up (line 24 is strict) while the
      second selects the order of that volume. */
  lemma ProbesDisagreeAtTheTop(a: EnergyMarketAnalyzer)
    requires a.df == SampleBook
    ensures Bucket(a.df, "1", Sell) != [] && Handled(Intersect(a.df, "1", SampleMeet))
    ensures a.Clearable("1", SampleMeet)
    ensures PriceSensitivity(a.df, 100.0, "1", SampleMeet).None?
    ensures a.CalculatePriceSensitivity("1", 100.0, SampleMeet).Some?
    ensures a.CalculatePriceSensitivity("1", 100.0, SampleMeet).value == 5.0
  {
    SampleClearing(a);
    FirstProbe(a.df, "1", 100.0, SampleMeet, SampleSells, 200.0, 15.0);
    SecondProbe(a, "1", 100.0, SampleMeet, SampleSells, 200.0, 15.0);
    SampleProbeAt300();
    SampleRelevantAbove300();
  }
}
