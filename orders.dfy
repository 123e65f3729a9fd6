/** Order records of the day-ahead auction and the curve builder shared by both analyzers:
    selecting one (hour, side) bucket, sorting it by price, and selecting by volume. */
module Orders {
  import opened Frames

  datatype Side = Sell | Purchase

  /** One row of the order table: its `Hour`, `Sale/Purchase`, `Price` and `Volume` columns.
      `volume` is the already-cumulative quantity of the price tier. */
  datatype Order = Order(hour: string, side: Side, price: real, volume: real)

  /** A polyline in (volume, price) space. */
  type Polyline = seq<(real, real)>

  predicate InBucket(o: Order, hour: string, side: Side) {
    o.hour == hour && o.side == side
  }

  /** The rows with the given `Hour` and `Sale/Purchase`, in table order:
      exactly the matching orders, each as often as it occurs in the table. */
  function Bucket(df: seq<Order>, hour: string, side: Side): (r: seq<Order>)
    ensures forall o {:trigger multiset(r)[o]} ::
      multiset(r)[o] == if InBucket(o, hour, side) then multiset(df)[o] else 0
    ensures forall o :: o in r <==> o in df && InBucket(o, hour, side)
  {
    if df == [] then []
    else
      var rest := Bucket(df[1..], hour, side);
      assert df == [df[0]] + df[1..];
      if InBucket(df[0], hour, side) then [df[0]] + rest else rest
  }

  /** `a` may stand before `b` in a list sorted by price, ascending or descending. */
  predicate Precedes(a: Order, b: Order, ascending: bool) {
    if ascending then a.price <= b.price else a.price >= b.price
  }

  predicate SortedByPrice(s: seq<Order>, ascending: bool) {
    forall i, j :: 0 <= i < j < |s| ==> Precedes(s[i], s[j], ascending)
  }

  /** Places `o` before the first element it may precede, so that it stays ahead of
      the orders of equal price that follow it in the input. */
  function Insert(o: Order, s: seq<Order>, ascending: bool): (r: seq<Order>)
    requires SortedByPrice(s, ascending)
    ensures SortedByPrice(r, ascending)
    ensures multiset(r) == multiset(s) + multiset{o}
  {
    if s == [] then [o]
    else if Precedes(o, s[0], ascending) then [o] + s
    else
      var tail := Insert(o, s[1..], ascending);
      assert s == [s[0]] + s[1..];
      HeadPrecedesInsertion(s[0], s[1..], o, tail, ascending);
      PrependSorted(s[0], tail, ascending);
      [s[0]] + tail
  }

  /** An element that precedes all of `rest` and, by the order's totality, `o`, precedes every
      element of a rearrangement of `rest` with `o` added. */
  lemma HeadPrecedesInsertion(x: Order, rest: seq<Order>, o: Order, tail: seq<Order>, ascending: bool)
    requires forall k :: 0 < k < |[x] + rest| ==> Precedes(([x] + rest)[0], ([x] + rest)[k], ascending)
    requires !Precedes(o, x, ascending)
    requires multiset(tail) == multiset(rest) + multiset{o}
    ensures forall k :: 0 <= k < |tail| ==> Precedes(x, tail[k], ascending)
  {
    forall k | 0 <= k < |tail| ensures Precedes(x, tail[k], ascending) {
      assert tail[k] in multiset(tail);
      if tail[k] != o {
        assert tail[k] in multiset(rest);
        var m :| 0 <= m < |rest| && rest[m] == tail[k];
        assert ([x] + rest)[m + 1] == tail[k];
      }
    }
  }

  lemma PrependSorted(x: Order, tail: seq<Order>, ascending: bool)
    requires SortedByPrice(tail, ascending)
    requires forall k :: 0 <= k < |tail| ==> Precedes(x, tail[k], ascending)
    ensures SortedByPrice([x] + tail, ascending)
  {
    forall i, j | 0 <= i < j < |[x] + tail| ensures Precedes(([x] + tail)[i], ([x] + tail)[j], ascending) {
      assert ([x] + tail)[j] == tail[j - 1];
      if i > 0 { assert ([x] + tail)[i] == tail[i - 1]; }
    }
  }

  /** `sort_values(by='Price', ascending=...)`: a sorted permutation of `s`. The sort is
      stable (pandas' default sort need not be; see `SelectionIgnoresTies`). */
  function SortByPrice(s: seq<Order>, ascending: bool): (r: seq<Order>)
    ensures SortedByPrice(r, ascending)
    ensures multiset(r) == multiset(s)
  {
    if s == [] then []
    else
      assert s == [s[0]] + s[1..];
      Insert(s[0], SortByPrice(s[1..], ascending), ascending)
  }

  /** One side of one hour's order book in curve order (python/sensitivity.py:38-39): exactly the
      matching orders, ascending in price for Sell and descending for Purchase. */
  function CurveOrders(df: seq<Order>, hour: string, side: Side): (r: seq<Order>)
    ensures SortedByPrice(r, side == Sell)
    ensures multiset(r) == multiset(Bucket(df, hour, side))
    ensures forall o :: o in r <==> o in df && InBucket(o, hour, side)
  {
    var r := SortByPrice(Bucket(df, hour, side), side == Sell);
    assert forall o :: o in r <==> o in Bucket(df, hour, side) by {
      forall o ensures o in r <==> o in Bucket(df, hour, side) {
        assert o in r <==> o in multiset(r);
        assert o in Bucket(df, hour, side) <==> o in multiset(Bucket(df, hour, side));
      }
    }
    r
  }

  /** `max(orders['Volume'])` */
  function MaxVolume(s: seq<Order>): (m: real)
    requires |s| > 0
    ensures exists i :: 0 <= i < |s| && s[i].volume == m
    ensures forall i :: 0 <= i < |s| ==> s[i].volume <= m
  {
    if |s| == 1 then s[0].volume
    else
      var rest := MaxVolume(s[1..]);
      assert forall i :: 1 <= i < |s| ==> s[i] == s[1..][i - 1];
      if s[0].volume >= rest then s[0].volume else rest
  }

  /** `min(orders['Volume'])` */
  function MinVolume(s: seq<Order>): (m: real)
    requires |s| > 0
    ensures exists i :: 0 <= i < |s| && s[i].volume == m
    ensures forall i :: 0 <= i < |s| ==> m <= s[i].volume
  {
    if |s| == 1 then s[0].volume
    else
      var rest := MinVolume(s[1..]);
      assert forall i :: 1 <= i < |s| ==> s[i] == s[1..][i - 1];
      if s[0].volume <= rest then s[0].volume else rest
  }

  /** `np.column_stack((orders['Volume'], orders['Price']))`: one (volume, price) vertex per order. */
  function Curve(s: seq<Order>): (r: Polyline)
    ensures |r| == |s|
    ensures forall i :: 0 <= i < |s| ==> r[i] == (s[i].volume, s[i].price)
  {
    seq(|s|, i requires 0 <= i < |s| => (s[i].volume, s[i].price))
  }

  /** The volume test of a sensitivity probe: `Volume >= v` when `atLeast`, else `Volume <= v`. */
  predicate Admits(o: Order, v: real, atLeast: bool) {
    if atLeast then o.volume >= v else o.volume <= v
  }

  /** `s.loc[s['Volume'] >= v]` (or `<= v`): the admitted orders in the order of `s`;
      when there is one, the head is the admitted order of least index. */
  function WithVolume(s: seq<Order>, v: real, atLeast: bool): (r: seq<Order>)
    ensures forall o :: o in r <==> o in s && Admits(o, v, atLeast)
    ensures r != [] ==> exists i :: 0 <= i < |s| && s[i] == r[0] &&
                                    (forall j :: 0 <= j < i ==> !Admits(s[j], v, atLeast))
  {
    if s == [] then []
    else
      var rest := WithVolume(s[1..], v, atLeast);
      assert s == [s[0]] + s[1..];
      if Admits(s[0], v, atLeast) then [s[0]] + rest
      else
        assert rest != [] ==> exists i :: 1 <= i < |s| && s[i] == rest[0] &&
                                           (forall j :: 0 <= j < i ==> !Admits(s[j], v, atLeast)) by {
          if rest != [] {
            var i :| 0 <= i < |s| - 1 && s[1..][i] == rest[0] &&
                     (forall j :: 0 <= j < i ==> !Admits(s[1..][j], v, atLeast));
            assert s[i + 1] == rest[0];
            assert forall j :: 0 <= j < i + 1 ==> !Admits(s[j], v, atLeast) by {
              forall j | 0 <= j < i + 1 ensures !Admits(s[j], v, atLeast) {
                if j > 0 { assert s[j] == s[1..][j - 1]; }
              }
            }
          }
        }
        rest
  }

  /** `o` is a cheapest order of `s` among those the volume test admits. */
  predicate CheapestAdmitted(s: seq<Order>, v: real, atLeast: bool, o: Order) {
    && o in s && Admits(o, v, atLeast)
    && forall o' :: o' in s && Admits(o', v, atLeast) ==> o.price <= o'.price
  }

  /** Raising the volume to reach can only raise the cheapest price. */
  lemma CheapestMonotone(s: seq<Order>, v1: real, v2: real, o1: Order, o2: Order)
    requires v1 <= v2
    requires CheapestAdmitted(s, v1, true, o1) && CheapestAdmitted(s, v2, true, o2)
    ensures o1.price <= o2.price
  {
    assert Admits(o2, v1, true);
  }

  /** In a list sorted by ascending price, the head of a volume selection is a cheapest
      admitted order: the price it yields is the minimum over the admitted orders, so it
      does not depend on how the sort orders equal prices. */
  lemma {:induction false} HeadIsCheapest(s: seq<Order>, v: real, atLeast: bool)
    requires SortedByPrice(s, true)
    requires WithVolume(s, v, atLeast) != []
    ensures CheapestAdmitted(s, v, atLeast, WithVolume(s, v, atLeast)[0])
  {
    var r := WithVolume(s, v, atLeast);
    var i :| 0 <= i < |s| && s[i] == r[0] && forall j :: 0 <= j < i ==> !Admits(s[j], v, atLeast);
    assert r[0] in r;
    forall o | o in s && Admits(o, v, atLeast) ensures r[0].price <= o.price {
      var k :| 0 <= k < |s| && s[k] == o;
      if i < k { assert Precedes(s[i], s[k], true); }
    }
  }

  /** Two sorted arrangements of the same orders select the same price: the probes do not
      depend on the order pandas gives to orders of equal price. */
  lemma {:induction false} SelectionIgnoresTies(s: seq<Order>, t: seq<Order>, v: real, atLeast: bool)
    requires SortedByPrice(s, true) && SortedByPrice(t, true)
    requires multiset(s) == multiset(t)
    ensures (WithVolume(s, v, atLeast) == []) == (WithVolume(t, v, atLeast) == [])
    ensures WithVolume(s, v, atLeast) != [] ==>
      WithVolume(s, v, atLeast)[0].price == WithVolume(t, v, atLeast)[0].price
  {
    assert forall o :: o in s <==> o in t by {
      forall o ensures o in s <==> o in t {
        assert o in s <==> o in multiset(s);
        assert o in t <==> o in multiset(t);
      }
    }
    var rs, rt := WithVolume(s, v, atLeast), WithVolume(t, v, atLeast);
    if rs != [] {
      assert rs[0] in rs;
      assert rt != [] by { assert rs[0] in t && Admits(rs[0], v, atLeast); assert rs[0] in rt; }
      HeadIsCheapest(s, v, atLeast);
      HeadIsCheapest(t, v, atLeast);
    }
  }

  /** `df["Hour"]` */
  function HourColumn(df: seq<Order>): (r: seq<string>)
    ensures |r| == |df|
    ensures forall i :: 0 <= i < |df| ==> r[i] == df[i].hour
  {
    seq(|df|, i requires 0 <= i < |df| => df[i].hour)
  }

  /** `df["Hour"].unique()`: the hours of the table in the order they first appear. */
  function Hours(df: seq<Order>): seq<string> {
    Distinct(HourColumn(df))
  }

  /** The hour rows follow the first appearance of each hour in the table, once each, and
      every hour of the table has its row. */
  lemma HourRowsInFirstAppearanceOrder(df: seq<Order>)
    ensures NoDuplicates(Hours(df))
    ensures forall i :: 0 <= i < |df| ==> df[i].hour in Hours(df)
    ensures forall i, j :: 0 <= i < j < |Hours(df)| ==>
      FirstIndex(HourColumn(df), Hours(df)[i]) < FirstIndex(HourColumn(df), Hours(df)[j])
  {
    DistinctKeepsFirstAppearanceOrder(HourColumn(df));
    assert forall i :: 0 <= i < |df| ==> HourColumn(df)[i] == df[i].hour;
  }
}
