/** Reference definitions for the walk when the ladder never fires: the
    holdings are only compounded by the step ratios, and the bond holding
    also receives the contributions. */
module BuyAndHold {
  import opened Common
  import opened Walker
  import opened Rebalance

  /** The value, at the newest index, of the contributions made at the
      visited indices i down to 0: a contribution made at index j grows
      with the bond price from j to 0. */
  ghost function Added(bondSeries: seq<real>, monthlyAddn: real, i: int): real
    requires -1 <= i < |bondSeries| && AllPositive(bondSeries)
    decreases i + 1
  {
    if i < 0 then 0.0
    else Contribution(bondSeries, monthlyAddn, i) + Added(bondSeries, monthlyAddn, i - 1)
  }

  /** The value, at the newest index, of the contribution made at index i. */
  ghost function Contribution(bondSeries: seq<real>, monthlyAddn: real, i: int): real
    requires 0 <= i < |bondSeries| && AllPositive(bondSeries)
  {
    if ContributesAt(i) then monthlyAddn * Ratio(bondSeries, 0, i) else 0.0
  }

  /** The number of contributions made at the visited indices i down to 0. */
  function Contributions(i: int): nat
    decreases i + 1
  {
    if i < 0 then 0 else (if ContributesAt(i) then 1 else 0) + Contributions(i - 1)
  }

  /** The walk with the ladder left out: compounding and contributions only. */
  ghost function Hold(stockSeries: seq<real>, bondSeries: seq<real>, monthlyAddn: real, st: State, i: int): (r: State)
    requires Walkable(stockSeries, bondSeries, st, i)
    ensures Good(r) && r.decr == st.decr && r.sell == st.sell
    decreases i + 1
  {
    if i < 0 then st
    else Hold(stockSeries, bondSeries, monthlyAddn, Moved(stockSeries, bondSeries, monthlyAddn, st, i), i - 1)
  }

  /** An amount compounded by the step ratios of a series over the
      indices i down to 0. */
  ghost function Compounded(x: real, series: seq<real>, i: int): real
    requires -1 <= i < |series| - 1 && AllPositive(series)
    decreases i + 1
  {
    if i < 0 then x else Compounded(x * Ratio(series, i, i + 1), series, i - 1)
  }

  /** A bond amount carried over the indices i down to 0: compounded by
      each step ratio, plus the contribution on every 25th index. */
  ghost function Accrued(x: real, series: seq<real>, monthlyAddn: real, i: int): real
    requires -1 <= i < |series| - 1 && AllPositive(series)
    decreases i + 1
  {
    if i < 0 then x
    else
      var grown := x * Ratio(series, i, i + 1);
      Accrued(if ContributesAt(i) then grown + monthlyAddn else grown, series, monthlyAddn, i - 1)
  }

  /** The total holding after buy-and-hold over the indices i down to 0,
      from a stock amount and a bond amount. */
  ghost function HeldTotal(stockSeries: seq<real>, bondSeries: seq<real>, monthlyAddn: real, stock: real, bond: real, i: int): real
    requires -1 <= i < |stockSeries| - 1 && |bondSeries| == |stockSeries|
    requires AllPositive(stockSeries) && AllPositive(bondSeries)
  {
    Compounded(stock, stockSeries, i) + Accrued(bond, bondSeries, monthlyAddn, i)
  }
}
