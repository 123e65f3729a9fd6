/** The pandas operations the two report builders use: `unique()`, NaN-skipping `mean()`,
    row selection by label membership, column assignment and `concat`. */
module Frames {
  import opened Wrappers
  import opened Rounding

  predicate NoDuplicates<T(==)>(s: seq<T>) {
    forall i, j :: 0 <= i < j < |s| ==> s[i] != s[j]
  }

  /** `unique()` keeps every value and adds none. */
  lemma DistinctKeepsMembers<T>(s: seq<T>)
    ensures forall x :: x in Distinct(s) <==> x in s
  {
    forall x | x in s ensures x in Distinct(s) {
      var k :| 0 <= k < |s| && s[k] == x;
    }
  }

  /** Taking one more element of `b` appends it. */
  lemma ExtendPrefix<T>(a: seq<T>, b: seq<T>, j: nat)
    requires j < |b|
    ensures a + b[..j + 1] == (a + b[..j]) + [b[j]]
  {
    assert b[..j + 1] == b[..j] + [b[j]];
  }

  /** The index of the first occurrence of `x` in `s`. */
  function FirstIndex<T(==)>(s: seq<T>, x: T): (i: nat)
    requires x in s
    ensures i < |s| && s[i] == x
    ensures forall j :: 0 <= j < i ==> s[j] != x
  {
    if s[0] == x then 0 else 1 + FirstIndex(s[1..], x)
  }

  /** `Series.unique()`: every value of `s` once. */
  function Distinct<T(==)>(s: seq<T>): (r: seq<T>)
    ensures forall i :: 0 <= i < |r| ==> r[i] in s
    ensures forall i :: 0 <= i < |s| ==> s[i] in r
    ensures NoDuplicates(r)
  {
    if s == [] then []
    else
      var r := Distinct(s[..|s| - 1]);
      var x := s[|s| - 1];
      assert s == s[..|s| - 1] + [x];
      if x in r then r else r + [x]
  }

  lemma FirstIndexInPrefix<T>(p: seq<T>, x: T, y: T)
    requires y in p
    ensures FirstIndex(p + [x], y) == FirstIndex(p, y)
  {
    var i1, i2 := FirstIndex(p + [x], y), FirstIndex(p, y);
    assert (p + [x])[i2] == y;
    assert p[i1] == y;
  }

  /** `unique()` lists the values in the order of their first appearance. */
  lemma {:induction false} DistinctKeepsFirstAppearanceOrder<T>(s: seq<T>)
    ensures forall i, j :: 0 <= i < j < |Distinct(s)| ==>
      FirstIndex(s, Distinct(s)[i]) < FirstIndex(s, Distinct(s)[j])
  {
    if s != [] {
      var p, x := s[..|s| - 1], s[|s| - 1];
      assert s == p + [x];
      DistinctKeepsFirstAppearanceOrder(p);
      var r, r' := Distinct(p), Distinct(s);
      forall y | y in p ensures FirstIndex(s, y) == FirstIndex(p, y) {
        FirstIndexInPrefix(p, x, y);
      }
      forall i, j | 0 <= i < j < |r'|
        ensures FirstIndex(s, r'[i]) < FirstIndex(s, r'[j])
      {
        assert r'[i] in p;
        if j < |r| {
          assert r'[j] in p;
        } else {
          assert r'[j] == x && x !in p;
          assert FirstIndex(s, x) == |p|;
        }
      }
    }
  }

  /** A list without repetitions is its own `unique()`. */
  lemma {:induction false} DistinctOfNoDuplicates<T>(s: seq<T>)
    requires NoDuplicates(s)
    ensures Distinct(s) == s
  {
    if s != [] {
      var p := s[..|s| - 1];
      assert NoDuplicates(p);
      DistinctOfNoDuplicates(p);
      assert s[|s| - 1] !in p;
      assert s == p + [s[|s| - 1]];
    }
  }

  /** Assigning one more column by name: the names grow by that name unless it is already there. */
  lemma DistinctSnoc<T>(p: seq<T>, x: T)
    ensures Distinct(p + [x]) == if x in p then Distinct(p) else Distinct(p) + [x]
    ensures x in Distinct(p) <==> x in p
  {
    assert (p + [x])[..|p + [x]| - 1] == p;
    if x in p {
      var k :| 0 <= k < |p| && p[k] == x;
      assert p[k] in Distinct(p);
    }
  }

  function Sum(s: seq<real>): real {
    if s == [] then 0.0 else s[0] + Sum(s[1..])
  }

  /** `dropna()`: the present values, in order; none exactly when every cell is missing. */
  function Present(s: seq<Option<real>>): (r: seq<real>)
    ensures |r| <= |s|
    ensures r == [] <==> forall k :: 0 <= k < |s| ==> s[k].None?
  {
    if s == [] then []
    else
      assert forall k :: 1 <= k < |s| ==> s[k] == s[1..][k - 1];
      match s[0]
      case None => Present(s[1..])
      case Some(x) => [x] + Present(s[1..])
  }

  /** `dropna()` keeps each present value as often as the column holds it, and nothing else. */
  lemma {:induction false} PresentKeepsValues(s: seq<Option<real>>)
    ensures forall x :: multiset(Present(s))[x] == multiset(s)[Some(x)]
  {
    if s != [] {
      PresentKeepsValues(s[1..]);
      assert s == [s[0]] + s[1..];
      assert multiset(s) == multiset{s[0]} + multiset(s[1..]);
      if s[0].Some? {
        assert Present(s) == [s[0].value] + Present(s[1..]);
        assert multiset(Present(s)) == multiset{s[0].value} + multiset(Present(s[1..]));
      } else {
        assert Present(s) == Present(s[1..]);
      }
    }
  }

  /** `mean(skipna=True)` of one column: missing exactly when no cell is present. */
  function Mean(s: seq<Option<real>>): (r: Option<real>)
    ensures r.None? <==> forall k :: 0 <= k < |s| ==> s[k].None?
  {
    var p := Present(s);
    if p == [] then None else Some(Sum(p) / |p| as real)
  }

  /** `n` copies of `x` added up: `n * x` without a product of two unknowns. */
  function Times(n: nat, x: real): real {
    if n == 0 then 0.0 else x + Times(n - 1, x)
  }

  lemma AddOneBound(n: real, x: real)
    ensures (n + 1.0) * x == n * x + x
  {
  }

  lemma {:induction false} TimesIsProduct(n: nat, x: real)
    ensures Times(n, x) == n as real * x
  {
    if n > 0 {
      TimesIsProduct(n - 1, x);
      AddOneBound((n - 1) as real, x);
    }
  }

  /** The present values of a column whose values lie in [lo, hi] add up to between
      `count * lo` and `count * hi`. */
  lemma {:induction false} PresentSumBetween(s: seq<Option<real>>, lo: real, hi: real)
    requires forall k :: 0 <= k < |s| && s[k].Some? ==> lo <= s[k].value <= hi
    ensures Times(|Present(s)|, lo) <= Sum(Present(s)) <= Times(|Present(s)|, hi)
  {
    if s != [] {
      assert forall k :: 0 <= k < |s| - 1 && s[1..][k].Some? ==> lo <= s[1..][k].value <= hi;
      PresentSumBetween(s[1..], lo, hi);
      var p := Present(s[1..]);
      if s[0].Some? {
        var q := Present(s);
        assert q == [s[0].value] + p;
        assert q[1..] == p;
      }
    }
  }

  /** A sum of `n` values between `lo` and `hi`, divided by `n`, lies between them. */
  lemma MeanOfSum(a: real, n: nat, lo: real, hi: real)
    requires n > 0
    requires Times(n, lo) <= a <= Times(n, hi)
    ensures lo <= a / n as real <= hi
  {
    TimesIsProduct(n, lo);
    TimesIsProduct(n, hi);
    DivBetween(a, n as real, lo, hi);
  }

  /** The mean lies between the least and the largest present value. */
  lemma MeanBetween(s: seq<Option<real>>, lo: real, hi: real)
    requires forall k :: 0 <= k < |s| && s[k].Some? ==> lo <= s[k].value <= hi
    requires Mean(s).Some?
    ensures lo <= Mean(s).value <= hi
  {
    var p := Present(s);
    PresentSumBetween(s, lo, hi);
    assert Mean(s).value == Sum(p) / |p| as real;
    MeanOfSum(Sum(p), |p|, lo, hi);
  }

  lemma DivBetween(a: real, n: real, lo: real, hi: real)
    requires n > 0.0 && n * lo <= a <= n * hi
    ensures lo <= a / n <= hi
  {
    assert a / n * n == a;
    assert (a / n - lo) * n >= 0.0;
    assert (hi - a / n) * n >= 0.0;
  }

  lemma ScaleMonotone(n: real, x: real, y: real)
    requires n > 0.0 && x <= y
    ensures n * x <= n * y
  {
  }

  lemma MulDiv(s: real, n: real)
    requires n > 0.0
    ensures n * (s / n) == s
  {
  }

  lemma UpperBound(s: real, lo: real, nlo: real, hi: real, nhi: real)
    requires nlo > 0.0 && nhi > 0.0 && lo <= hi
    requires s == nlo * lo + nhi * hi
    ensures s <= (nlo + nhi) * hi
  {
    assert (nlo + nhi) * hi == nlo * hi + nhi * hi;
    ScaleMonotone(nlo, lo, hi);
  }

  lemma LowerBound(s: real, lo: real, nlo: real, hi: real, nhi: real)
    requires nlo > 0.0 && nhi > 0.0 && lo <= hi
    requires s == nlo * lo + nhi * hi
    ensures (nlo + nhi) * lo <= s
  {
    assert (nlo + nhi) * lo == nlo * lo + nhi * lo;
    ScaleMonotone(nhi, lo, hi);
  }

  /** Two values weighted by positive counts average to a value between them. */
  lemma Between(s: real, lo: real, nlo: real, hi: real, nhi: real)
    requires nlo > 0.0 && nhi > 0.0 && lo <= hi
    requires s == nlo * lo + nhi * hi
    ensures lo <= s / (nlo + nhi) <= hi
  {
    UpperBound(s, lo, nlo, hi, nhi);
    LowerBound(s, lo, nlo, hi, nhi);
    DivBetween(s, nlo + nhi, lo, hi);
  }

  /** A mean of two groups weighted by their sizes lies between the two group means. */
  lemma WeightedMeanBetween(sa: real, na: real, sb: real, nb: real, s: real, n: real)
    requires na > 0.0 && nb > 0.0
    requires s == sa + sb && n == na + nb
    ensures || sa / na <= s / n <= sb / nb
            || sb / nb <= s / n <= sa / na
  {
    MulDiv(sa, na);
    MulDiv(sb, nb);
    if sa / na <= sb / nb {
      Between(s, sa / na, na, sb / nb, nb);
    } else {
      Between(s, sb / nb, nb, sa / na, na);
    }
  }

  /** `col.loc[labels.isin(group) == inSet]`: the cells of the rows whose label is (or is not) in `group`. */
  function Pick<T>(cells: seq<T>, labels: seq<string>, group: seq<string>, inSet: bool): (r: seq<T>)
    requires |cells| == |labels|
    ensures |r| <= |cells|
  {
    if cells == [] then []
    else
      var rest := Pick(cells[1..], labels[1..], group, inSet);
      if (labels[0] in group) == inSet then [cells[0]] + rest else rest
  }

  /** Each cell with the answer of `labels.isin(group)` for its row. */
  function Tagged<T>(cells: seq<T>, labels: seq<string>, group: seq<string>): seq<(T, bool)>
    requires |cells| == |labels|
  {
    seq(|cells|, k requires 0 <= k < |cells| => (cells[k], labels[k] in group))
  }

  /** The selection keeps exactly the rows whose label's membership in `group` is `inSet`:
      each value as often as such rows hold it. */
  lemma {:induction false} PickKeepsTaggedRows<T>(cells: seq<T>, labels: seq<string>, group: seq<string>, inSet: bool)
    requires |cells| == |labels|
    ensures forall x :: multiset(Pick(cells, labels, group, inSet))[x] == multiset(Tagged(cells, labels, group))[(x, inSet)]
  {
    if cells != [] {
      PickKeepsTaggedRows(cells[1..], labels[1..], group, inSet);
      assert Tagged(cells, labels, group) == [(cells[0], labels[0] in group)] + Tagged(cells[1..], labels[1..], group);
    }
  }

  /** The rows inside and outside the label group split the column's cells between them. */
  lemma {:induction false} PickPartitions<T>(cells: seq<T>, labels: seq<string>, group: seq<string>)
    requires |cells| == |labels|
    ensures multiset(Pick(cells, labels, group, true)) + multiset(Pick(cells, labels, group, false)) == multiset(cells)
  {
    if cells != [] {
      PickPartitions(cells[1..], labels[1..], group);
      assert cells == [cells[0]] + cells[1..];
    }
  }

  /** ... and their present values together are the column's present values, with the same sum. */
  lemma {:induction false} PickSplitsPresent(cells: seq<Option<real>>, labels: seq<string>, group: seq<string>)
    requires |cells| == |labels|
    ensures |Present(Pick(cells, labels, group, true))| + |Present(Pick(cells, labels, group, false))| == |Present(cells)|
    ensures Sum(Present(Pick(cells, labels, group, true))) + Sum(Present(Pick(cells, labels, group, false))) == Sum(Present(cells))
  {
    if cells != [] {
      PickSplitsPresent(cells[1..], labels[1..], group);
      var t, f := Pick(cells[1..], labels[1..], group, true), Pick(cells[1..], labels[1..], group, false);
      if labels[0] in group {
        assert Pick(cells, labels, group, true) == [cells[0]] + t;
        assert ([cells[0]] + t)[1..] == t;
      } else {
        assert Pick(cells, labels, group, false) == [cells[0]] + f;
        assert ([cells[0]] + f)[1..] == f;
      }
      if cells[0].Some? {
        var q := Present(cells);
        assert q[1..] == Present(cells[1..]);
      }
    }
  }

  /** The all-rows mean is a weighted mean of the two groups: it lies between them, and
      equals the one that is present when the other group has no value. */
  lemma MeanOfPartition(cells: seq<Option<real>>, labels: seq<string>, group: seq<string>)
    requires |cells| == |labels|
    ensures var a, b := Mean(Pick(cells, labels, group, true)), Mean(Pick(cells, labels, group, false));
      && (a.None? ==> Mean(cells) == b)
      && (b.None? ==> Mean(cells) == a)
      && (a.Some? && b.Some? ==>
            && Mean(cells).Some?
            && (a.value <= Mean(cells).value <= b.value || b.value <= Mean(cells).value <= a.value))
  {
    PickSplitsPresent(cells, labels, group);
    var t, f, p := Present(Pick(cells, labels, group, true)), Present(Pick(cells, labels, group, false)), Present(cells);
    if t != [] && f != [] {
      WeightedMeanBetween(Sum(t), |t| as real, Sum(f), |f| as real, Sum(p), |p| as real);
    }
  }

  /** The same relation survives rounding each of the three means to `d` decimals. */
  lemma RoundedMeanOfPartition(cells: seq<Option<real>>, labels: seq<string>, group: seq<string>, d: nat)
    requires |cells| == |labels|
    ensures var all, a, b := RoundCell(Mean(cells), d),
                             RoundCell(Mean(Pick(cells, labels, group, true)), d),
                             RoundCell(Mean(Pick(cells, labels, group, false)), d);
      && (a.None? ==> all == b)
      && (b.None? ==> all == a)
      && (a.Some? && b.Some? ==>
            && all.Some?
            && (a.value <= all.value <= b.value || b.value <= all.value <= a.value))
  {
    MeanOfPartition(cells, labels, group);
    var m, ma, mb := Mean(cells), Mean(Pick(cells, labels, group, true)), Mean(Pick(cells, labels, group, false));
    if ma.Some? && mb.Some? {
      if ma.value <= m.value <= mb.value {
        RoundMonotone(ma.value, m.value, d);
        RoundMonotone(m.value, mb.value, d);
      } else {
        RoundMonotone(mb.value, m.value, d);
        RoundMonotone(m.value, ma.value, d);
      }
    }
  }

  /** With every row in the label group, the rows outside it have no mean. */
  lemma {:induction false} NoRowsOutsideSet(cells: seq<Option<real>>, labels: seq<string>, group: seq<string>)
    requires |cells| == |labels|
    requires forall k :: 0 <= k < |labels| ==> labels[k] in group
    ensures Pick(cells, labels, group, false) == []
    ensures Mean(Pick(cells, labels, group, false)).None?
  {
    if cells != [] {
      NoRowsOutsideSet(cells[1..], labels[1..], group);
    }
  }

  /** A table: the text column (`hour`, later `product`) and the numeric columns in order. */
  datatype Frame<C> = Frame(labels: seq<string>, names: seq<C>, cols: map<C, seq<Option<real>>>)

  /** Every numeric column has a cell per row, and the columns are exactly `names`. */
  ghost predicate Rectangular<C>(f: Frame<C>) {
    && (forall i :: 0 <= i < |f.names| ==> f.names[i] in f.cols)
    && (forall c :: c in f.cols ==> c in f.names && |f.cols[c]| == |f.labels|)
  }

  /** `f[name] = values`: an existing column is overwritten where it stands, a new one is appended. */
  function SetColumn<C>(f: Frame<C>, name: C, values: seq<Option<real>>): Frame<C> {
    Frame(f.labels, if name in f.names then f.names else f.names + [name], f.cols[name := values])
  }

  /** `f.loc[f.labels.isin(group) == inSet]` */
  function SelectRows<C>(f: Frame<C>, group: seq<string>, inSet: bool): Frame<C>
    requires Rectangular(f)
  {
    Frame(Pick(f.labels, f.labels, group, inSet), f.names,
          map c | c in f.cols :: Pick(f.cols[c], f.labels, group, inSet))
  }

  /** `f.mean(numeric_only=True).round(d)` as one row: column name to cell. */
  function MeanRow<C>(f: Frame<C>, d: nat): map<C, Option<real>> {
    map c | c in f.cols :: RoundCell(Mean(f.cols[c]), d)
  }

  /** `pd.concat([row_1, ..., row_m, f])` for one-row frames `row_i`: a column a row lacks reads as NaN. */
  function Stack<C>(heads: seq<string>, rows: seq<map<C, Option<real>>>, f: Frame<C>): Frame<C>
    requires |heads| == |rows|
  {
    Frame(heads + f.labels, f.names,
          map c | c in f.cols ::
            seq(|rows|, i requires 0 <= i < |rows| => if c in rows[i] then rows[i][c] else None) + f.cols[c])
  }

  function RoundAll(s: seq<Option<real>>, d: nat): (r: seq<Option<real>>)
    ensures |r| == |s|
    ensures forall k :: 0 <= k < |s| ==> r[k] == RoundCell(s[k], d)
  {
    seq(|s|, k requires 0 <= k < |s| => RoundCell(s[k], d))
  }

  /** `f.round(d)` */
  function RoundFrame<C>(f: Frame<C>, d: nat): Frame<C> {
    f.(cols := map c | c in f.cols :: RoundAll(f.cols[c], d))
  }

  lemma SelectRowsColumn<C>(f: Frame<C>, group: seq<string>, inSet: bool, c: C)
    requires Rectangular(f) && c in f.cols
    ensures c in SelectRows(f, group, inSet).cols
    ensures SelectRows(f, group, inSet).cols[c] == Pick(f.cols[c], f.labels, group, inSet)
  {
  }

  lemma MeanRowCell<C>(f: Frame<C>, d: nat, c: C)
    requires c in f.cols
    ensures c in MeanRow(f, d) && MeanRow(f, d)[c] == RoundCell(Mean(f.cols[c]), d)
  {
  }

  /** A column of a stacked frame: one cell per head row, then the column of `f`. */
  lemma StackColumn<C>(heads: seq<string>, rows: seq<map<C, Option<real>>>, f: Frame<C>, c: C)
    requires |heads| == |rows| && c in f.cols
    ensures c in Stack(heads, rows, f).cols
    ensures |Stack(heads, rows, f).cols[c]| == |rows| + |f.cols[c]|
    ensures forall i :: 0 <= i < |rows| ==>
      Stack(heads, rows, f).cols[c][i] == if c in rows[i] then rows[i][c] else None
    ensures forall i :: 0 <= i < |f.cols[c]| ==> Stack(heads, rows, f).cols[c][|rows| + i] == f.cols[c][i]
  {
  }

  lemma RoundFrameColumn<C>(f: Frame<C>, d: nat, c: C)
    requires c in f.cols
    ensures c in RoundFrame(f, d).cols && RoundFrame(f, d).cols[c] == RoundAll(f.cols[c], d)
  {
  }
}
