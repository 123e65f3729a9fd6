/** Python's `round(x, digits)` and pandas' `DataFrame.round(digits)` on exact reals: the
    nearest multiple of 10^-digits, ties to the even multiple. */
module Rounding {
  import opened Wrappers

  /** 10^d */
  function Scale(d: nat): (r: nat)
    ensures r >= 1
  {
    if d == 0 then 1 else 10 * Scale(d - 1)
  }

  /** 10^d as a real */
  function Unit(d: nat): (r: real)
    ensures r >= 1.0
  {
    Scale(d) as real
  }

  /** The nearest integer to `y`, ties to even. */
  function NearestEven(y: real): (n: int)
    ensures -0.5 <= n as real - y <= 0.5
    ensures (n as real - y == 0.5 || y - n as real == 0.5) ==> n % 2 == 0
  {
    var f := y.Floor;
    var frac := y - f as real;
    if frac < 0.5 then f
    else if frac > 0.5 then f + 1
    else if f % 2 == 0 then f
    else f + 1
  }

  /** The contract of `NearestEven` has one solution: it is Python's rounding rule. */
  lemma NearestEvenIsUnique(y: real, m: int)
    requires -0.5 <= m as real - y <= 0.5
    requires (m as real - y == 0.5 || y - m as real == 0.5) ==> m % 2 == 0
    ensures m == NearestEven(y)
  {
    var n := NearestEven(y);
    assert -1.0 <= (m - n) as real <= 1.0;
  }

  predicate IsInteger(y: real) {
    y.Floor as real == y
  }

  /** `x` has at most `d` decimals. */
  predicate OnGrid(x: real, d: nat) {
    IsInteger(x * Unit(d))
  }

  /** The `n`-th multiple of 10^-d. */
  function Step(n: int, d: nat): real {
    n as real / Unit(d)
  }

  function Round(x: real, d: nat): (r: real)
  {
    Step(NearestEven(x * Unit(d)), d)
  }

  /** The rounded value has at most `d` decimals and lies within half a unit of the
      last decimal of `x`. */
  lemma RoundIsNearestOnGrid(x: real, d: nat)
    ensures OnGrid(Round(x, d), d)
    ensures -0.5 <= (Round(x, d) - x) * Unit(d) <= 0.5
  {
    DivThenMul(NearestEven(x * Unit(d)) as real, Unit(d));
    assert Round(x, d) * Unit(d) == NearestEven(x * Unit(d)) as real;
    assert (Round(x, d) - x) * Unit(d) == Round(x, d) * Unit(d) - x * Unit(d);
  }

  lemma DivThenMul(a: real, p: real)
    requires p > 0.0
    ensures (a / p) * p == a
  {
  }

  /** A value already on the grid is left unchanged. */
  lemma RoundOnGrid(x: real, d: nat)
    requires OnGrid(x, d)
    ensures Round(x, d) == x
  {
    assert NearestEven(x * Unit(d)) == (x * Unit(d)).Floor;
    MulThenDiv(x, Unit(d));
  }

  lemma MulThenDiv(a: real, p: real)
    requires p > 0.0
    ensures (a * p) / p == a
  {
  }

  lemma UnitStep(d: nat)
    requires d > 0
    ensures Unit(d) == 10.0 * Unit(d - 1)
  {
    assert Scale(d) == 10 * Scale(d - 1);
  }

  /** A value with at most `d` decimals has at most `d + k` decimals. */
  lemma {:induction false} OnFinerGrid(x: real, d: nat, k: nat)
    requires OnGrid(x, d)
    ensures OnGrid(x, d + k)
  {
    if k > 0 {
      OnFinerGrid(x, d, k - 1);
      var j := d + k - 1;
      assert OnGrid(x, j);
      assert IsInteger(x * Unit(j));
      var n := (x * Unit(j)).Floor;
      assert n as real == x * Unit(j);
      UnitStep(j + 1);
      assert x * Unit(j + 1) == x * (10.0 * Unit(j));
      assert x * (10.0 * Unit(j)) == 10.0 * (x * Unit(j));
      assert x * Unit(j + 1) == (10 * n) as real;
      assert Unit(j + 1) == Unit(d + k);
      assert OnGrid(x, j + 1);
    }
  }

  /** Rounding to `d` digits after rounding to `d` or fewer digits changes nothing: the
      repeated `round(2)` of the report, and `round(2)` of an `smv` rounded to 1 decimal. */
  lemma RoundTwice(x: real, d1: nat, d2: nat)
    requires d1 <= d2
    ensures Round(Round(x, d1), d2) == Round(x, d1)
  {
    RoundIsNearestOnGrid(x, d1);
    OnFinerGrid(Round(x, d1), d1, d2 - d1);
    RoundOnGrid(Round(x, d1), d2);
  }

  /** `r` is the multiple of 10^-d nearest to `x`, the even multiple on a tie: Python's
      rounding rule stated without computing it. */
  ghost predicate RoundsTo(x: real, d: nat, r: real) {
    exists n: int ::
      && r == Step(n, d)
      && -0.5 <= n as real - x * Unit(d) <= 0.5
      && ((n as real - x * Unit(d) == 0.5 || x * Unit(d) - n as real == 0.5) ==> n % 2 == 0)
  }

  /** `Round` meets the rounding rule ... */
  lemma RoundMeetsRule(x: real, d: nat)
    ensures RoundsTo(x, d, Round(x, d))
  {
  }

  /** ... and is the only value that does. */
  lemma RoundRuleIsUnique(x: real, d: nat, r: real)
    requires RoundsTo(x, d, r)
    ensures r == Round(x, d)
  {
    var n :| && r == Step(n, d)
             && -0.5 <= n as real - x * Unit(d) <= 0.5
             && ((n as real - x * Unit(d) == 0.5 || x * Unit(d) - n as real == 0.5) ==> n % 2 == 0);
    NearestEvenIsUnique(x * Unit(d), n);
  }

  lemma NearestEvenMonotone(y1: real, y2: real)
    requires y1 <= y2
    ensures NearestEven(y1) <= NearestEven(y2)
  {
    if y1 < y2 {
      assert NearestEven(y1) as real < y2 + 0.5;
    }
  }

  lemma StepMonotone(n1: int, n2: int, d: nat)
    requires n1 <= n2
    ensures Step(n1, d) <= Step(n2, d)
  {
    DivMonotone(n1 as real, n2 as real, Unit(d));
  }

  lemma DivMonotone(a: real, b: real, p: real)
    requires p > 0.0 && a <= b
    ensures a / p <= b / p
  {
  }

  /** Rounding never reverses the order of two values. */
  lemma RoundMonotone(x1: real, x2: real, d: nat)
    requires x1 <= x2
    ensures Round(x1, d) <= Round(x2, d)
  {
    ScaledNearestMonotone(x1, x2, d);
    StepMonotone(NearestEven(x1 * Unit(d)), NearestEven(x2 * Unit(d)), d);
  }

  lemma ScaledNearestMonotone(x1: real, x2: real, d: nat)
    requires x1 <= x2
    ensures NearestEven(x1 * Unit(d)) <= NearestEven(x2 * Unit(d))
  {
    ScaleUp(x1, x2, Unit(d));
    NearestEvenMonotone(x1 * Unit(d), x2 * Unit(d));
  }

  lemma ScaleUp(a: real, b: real, p: real)
    requires p > 0.0 && a <= b
    ensures a * p <= b * p
  {
  }

  /** Rounding a cell: a missing value stays missing, and a present value is rounded to `d`
      decimals by Python's rule. */
  function RoundCell(c: Option<real>, d: nat): (r: Option<real>)
    ensures r.None? <==> c.None?
    ensures c.Some? ==> RoundsTo(c.value, d, r.value)
  {
    match c
    case None => None
    case Some(x) =>
      RoundMeetsRule(x, d);
      Some(Round(x, d))
  }
}
