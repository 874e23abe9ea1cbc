/** What alg_01's walk guarantees over many steps: the extrema it ends
    with, how much of the ladder it consumes, the holdings it keeps
    non-negative, the buy-and-hold outcome when nothing fires, and the
    failure on an exhausted ladder. */
module RebalanceProps {
  import opened Common
  import opened Walker
  import opened Ladder
  import opened Rebalance
  import opened BuyAndHold

  /** After visiting the whole series, the extrema are its largest and
      smallest price. */
  lemma {:induction false} RunExtrema(stockSeries: seq<real>, bondSeries: seq<real>, monthlyAddn: real, st: State, i: int)
    requires Walkable(stockSeries, bondSeries, st, i) && Tracks(stockSeries, st, i)
    requires Run(stockSeries, bondSeries, monthlyAddn, st, i).Ok?
    ensures Run(stockSeries, bondSeries, monthlyAddn, st, i).value.ext == ExtremaOf(stockSeries)
    decreases i + 1
  {
    if i < 0 {
      assert stockSeries[0..] == stockSeries;
    } else {
      var next := Step(stockSeries, bondSeries, monthlyAddn, st, i).value;
      ObserveExtends(stockSeries, i);
      RunExtrema(stockSeries, bondSeries, monthlyAddn, next, i - 1);
    }
  }

  lemma PoppedTrans(a: State, b: State, c: State)
    requires Popped(a, b) && Popped(b, c)
    ensures Popped(a, c)
  {
    var k, m := |a.decr| - |b.decr|, |b.decr| - |c.decr|;
    assert a.decr[k..][m..] == a.decr[k + m..];
    assert a.sell[k..][m..] == a.sell[k + m..];
  }

  /** One step pops the same number of entries from both lists. */
  lemma StepLadder(stockSeries: seq<real>, bondSeries: seq<real>, monthlyAddn: real, st: State, i: nat)
    requires Walkable(stockSeries, bondSeries, st, i) && i + 1 < |stockSeries|
    requires Step(stockSeries, bondSeries, monthlyAddn, st, i).Ok?
    ensures Popped(st, Step(stockSeries, bondSeries, monthlyAddn, st, i).value)
  {
  }

  /** The walk only pops the ladder: the lists it ends with are suffixes,
      of equal length, of the lists it started with, so it fires at most
      as many entries as the ladder held. */
  lemma {:induction false} RunLadder(stockSeries: seq<real>, bondSeries: seq<real>, monthlyAddn: real, st: State, i: int)
    requires Walkable(stockSeries, bondSeries, st, i)
    requires Run(stockSeries, bondSeries, monthlyAddn, st, i).Ok?
    ensures Popped(st, Run(stockSeries, bondSeries, monthlyAddn, st, i).value)
    decreases i + 1
  {
    if i < 0 {
      assert st.decr[0..] == st.decr && st.sell[0..] == st.sell;
    } else {
      var next := Step(stockSeries, bondSeries, monthlyAddn, st, i).value;
      StepLadder(stockSeries, bondSeries, monthlyAddn, st, i);
      RunLadder(stockSeries, bondSeries, monthlyAddn, next, i - 1);
      PoppedTrans(st, next, Run(stockSeries, bondSeries, monthlyAddn, next, i - 1).value);
    }
  }

  lemma ScaleNonNegative(x: real, p: real, q: real)
    requires x >= 0.0 && p > 0.0 && q > 0.0
    ensures x * (p / q) >= 0.0
  {
    assert p / q > 0.0;
  }

  lemma FractionsSuffix(xs: seq<real>, k: nat)
    requires AllFractions(xs) && k <= |xs|
    ensures AllFractions(xs[k..]) && AllFractions(xs[..k])
  {
    assert forall j | 0 <= j < |xs| - k :: xs[k..][j] == xs[k + j];
  }

  /** A firing event keeps both holdings non-negative: it moves at most
      the whole bond holding into stock. */
  lemma FireKeepsHoldings(dd: real, st: State)
    requires |st.decr| == |st.sell| && Holdings(st)
    requires Fire(dd, st).Ok?
    ensures Holdings(Fire(dd, st).value)
  {
    var k := Fired(dd, st.decr);
    var fin := Fire(dd, st).value;
    FireHoldings(dd, st);
    FractionsSuffix(st.sell, k);
    RemainingBounds(st.bond, st.sell[..k]);
  }

  /** One step keeps both holdings non-negative when contributions are. */
  lemma StepKeepsHoldings(stockSeries: seq<real>, bondSeries: seq<real>, monthlyAddn: real, st: State, i: nat)
    requires Walkable(stockSeries, bondSeries, st, i) && i + 1 < |stockSeries|
    requires Holdings(st) && monthlyAddn >= 0.0
    requires Step(stockSeries, bondSeries, monthlyAddn, st, i).Ok?
    ensures Holdings(Step(stockSeries, bondSeries, monthlyAddn, st, i).value)
  {
    var moved := Moved(stockSeries, bondSeries, monthlyAddn, st, i);
    ScaleNonNegative(st.stock, stockSeries[i], stockSeries[i + 1]);
    ScaleNonNegative(st.bond, bondSeries[i], bondSeries[i + 1]);
    assert Holdings(moved);
    if IsNewMin(st.ext, stockSeries[i]) {
      FireKeepsHoldings(Decrease(moved.ext), moved);
    }
  }

  /** The whole walk keeps both holdings non-negative. */
  lemma {:induction false} RunKeepsHoldings(stockSeries: seq<real>, bondSeries: seq<real>, monthlyAddn: real, st: State, i: int)
    requires Walkable(stockSeries, bondSeries, st, i)
    requires Holdings(st) && monthlyAddn >= 0.0
    requires Run(stockSeries, bondSeries, monthlyAddn, st, i).Ok?
    ensures Holdings(Run(stockSeries, bondSeries, monthlyAddn, st, i).value)
    decreases i + 1
  {
    if i >= 0 {
      StepKeepsHoldings(stockSeries, bondSeries, monthlyAddn, st, i);
      var next := Step(stockSeries, bondSeries, monthlyAddn, st, i).value;
      RunKeepsHoldings(stockSeries, bondSeries, monthlyAddn, next, i - 1);
    }
  }

  /** A step that pops nothing is the compounding move alone. */
  lemma StepWithoutFiring(stockSeries: seq<real>, bondSeries: seq<real>, monthlyAddn: real, st: State, i: nat)
    requires Walkable(stockSeries, bondSeries, st, i) && i + 1 < |stockSeries|
    requires Step(stockSeries, bondSeries, monthlyAddn, st, i).Ok?
    requires |Step(stockSeries, bondSeries, monthlyAddn, st, i).value.decr| == |st.decr|
    ensures Step(stockSeries, bondSeries, monthlyAddn, st, i).value == Moved(stockSeries, bondSeries, monthlyAddn, st, i)
  {
    var moved := Moved(stockSeries, bondSeries, monthlyAddn, st, i);
    if IsNewMin(st.ext, stockSeries[i]) {
      FireNone(Decrease(moved.ext), moved);
    }
  }

  /** Every 25th index from 0 contributes: indices i down to 0 hold
      (i + 25) / 25 of them. */
  lemma {:induction false} ContributionsCount(i: int)
    requires i >= -1
    ensures Contributions(i) == (i + 25) / 25
    decreases i + 1
  {
    if i >= 0 {
      ContributionsCount(i - 1);
    }
  }

  /** Contributions fall on index 0 and then every 25 indices, with none
      in between. */
  lemma ContributionSpacing(i: int)
    ensures ContributesAt(0)
    ensures ContributesAt(i) <==> ContributesAt(i + 25)
    ensures 0 < i < 25 ==> !ContributesAt(i)
  {
  }

  lemma SelfRatio(p: real, q: real)
    requires q != 0.0 && p == q
    ensures p / q == 1.0
  {
  }

  lemma Distribute1(a: real, n: real)
    ensures a * (n + 1.0) == a * n + a
  {
  }

  /** With a constant bond price, every contribution keeps its face value,
      so they total the contribution times their number. */
  lemma {:induction false} ConstantBondAdded(bondSeries: seq<real>, monthlyAddn: real, i: int)
    requires -1 <= i < |bondSeries| && AllPositive(bondSeries)
    requires forall k | 0 <= k < |bondSeries| :: bondSeries[k] == bondSeries[0]
    ensures Added(bondSeries, monthlyAddn, i) == monthlyAddn * (Contributions(i) as real)
    decreases i + 1
  {
    if i >= 0 {
      ConstantBondAdded(bondSeries, monthlyAddn, i - 1);
      if ContributesAt(i) {
        SelfRatio(bondSeries[0], bondSeries[i]);
        Distribute1(monthlyAddn, Contributions(i - 1) as real);
      }
    }
  }

  lemma RatioSelf(series: seq<real>, j: nat)
    requires j < |series| && AllPositive(series)
    ensures Ratio(series, j, j) == 1.0
  {
  }

  /** Growing from index l to k and then from k to j is growing from l to j. */
  lemma RatioChain(series: seq<real>, j: nat, k: nat, l: nat)
    requires j < |series| && k < |series| && l < |series| && AllPositive(series)
    ensures Ratio(series, k, l) * Ratio(series, j, k) == Ratio(series, j, l)
  {
    var r1, r2, r := Ratio(series, k, l), Ratio(series, j, k), Ratio(series, j, l);
    assert r1 * series[l] == series[k] && r2 * series[k] == series[j] && r * series[l] == series[j];
    assert r1 * r2 * series[l] == r * series[l];
  }

  /** A walk that pops nothing is the walk with the ladder left out. */
  lemma {:induction false} RunWithoutFiring(stockSeries: seq<real>, bondSeries: seq<real>, monthlyAddn: real, st: State, i: int)
    requires Walkable(stockSeries, bondSeries, st, i)
    requires Run(stockSeries, bondSeries, monthlyAddn, st, i).Ok?
    requires |Run(stockSeries, bondSeries, monthlyAddn, st, i).value.decr| == |st.decr|
    ensures Run(stockSeries, bondSeries, monthlyAddn, st, i) == Ok(Hold(stockSeries, bondSeries, monthlyAddn, st, i))
    decreases i + 1
  {
    if i < 0 {
      RunDone(stockSeries, bondSeries, monthlyAddn, st, i);
    } else {
      var next := Step(stockSeries, bondSeries, monthlyAddn, st, i).value;
      RunStep(stockSeries, bondSeries, monthlyAddn, st, i);
      var fin := Run(stockSeries, bondSeries, monthlyAddn, next, i - 1).value;
      StepLadder(stockSeries, bondSeries, monthlyAddn, st, i);
      RunLadder(stockSeries, bondSeries, monthlyAddn, next, i - 1);
      StepWithoutFiring(stockSeries, bondSeries, monthlyAddn, st, i);
      RunWithoutFiring(stockSeries, bondSeries, monthlyAddn, next, i - 1);
    }
  }

  /** The step ratios telescope: compounding over the indices i down to 0
      scales by the price ratio from the first visited index to the newest. */
  lemma {:induction false} CompoundedValue(x: real, series: seq<real>, i: int)
    requires -1 <= i < |series| - 1 && AllPositive(series)
    ensures Compounded(x, series, i) == x * Ratio(series, 0, i + 1)
    decreases i + 1
  {
    if i < 0 {
      RatioSelf(series, 0);
    } else {
      CompoundedValue(x * Ratio(series, i, i + 1), series, i - 1);
      RatioChain(series, 0, i, i + 1);
      Assoc(x, Ratio(series, i, i + 1), Ratio(series, 0, i), Ratio(series, 0, i + 1));
    }
  }

  lemma Assoc(x: real, a: real, b: real, ab: real)
    requires a * b == ab
    ensures x * a * b == x * ab
  {
  }

  /** Buy-and-hold, stock side: the stock holding ends at its start value
      times the price ratio from the first visited index to the newest. */
  lemma {:induction false} HoldStock(stockSeries: seq<real>, bondSeries: seq<real>, monthlyAddn: real, st: State, i: int)
    requires Walkable(stockSeries, bondSeries, st, i)
    ensures Hold(stockSeries, bondSeries, monthlyAddn, st, i).stock == st.stock * Ratio(stockSeries, 0, i + 1)
    decreases i + 1
  {
    CompoundedValue(st.stock, stockSeries, i);
    HoldCompounds(stockSeries, bondSeries, monthlyAddn, st, i);
  }

  lemma {:induction false} HoldCompounds(stockSeries: seq<real>, bondSeries: seq<real>, monthlyAddn: real, st: State, i: int)
    requires Walkable(stockSeries, bondSeries, st, i)
    ensures Hold(stockSeries, bondSeries, monthlyAddn, st, i).stock == Compounded(st.stock, stockSeries, i)
    decreases i + 1
  {
    if i >= 0 {
      var next := Moved(stockSeries, bondSeries, monthlyAddn, st, i);
      MovedWalkable(stockSeries, bondSeries, monthlyAddn, st, i);
      HoldUnfold(stockSeries, bondSeries, monthlyAddn, st, i);
      MovedStock(stockSeries, bondSeries, monthlyAddn, st, i);
      CompoundedMoved(st.stock, next.stock, stockSeries, i);
      HoldCompounds(stockSeries, bondSeries, monthlyAddn, next, i - 1);
    }
  }

  lemma MovedWalkable(stockSeries: seq<real>, bondSeries: seq<real>, monthlyAddn: real, st: State, i: nat)
    requires Walkable(stockSeries, bondSeries, st, i)
    ensures Walkable(stockSeries, bondSeries, Moved(stockSeries, bondSeries, monthlyAddn, st, i), i - 1)
  {
  }

  lemma HoldUnfold(stockSeries: seq<real>, bondSeries: seq<real>, monthlyAddn: real, st: State, i: nat)
    requires Walkable(stockSeries, bondSeries, st, i)
    ensures Hold(stockSeries, bondSeries, monthlyAddn, st, i)
         == Hold(stockSeries, bondSeries, monthlyAddn, Moved(stockSeries, bondSeries, monthlyAddn, st, i), i - 1)
  {
  }

  lemma CompoundedMoved(x: real, y: real, series: seq<real>, i: nat)
    requires i < |series| - 1 && AllPositive(series)
    requires y == x * Ratio(series, i, i + 1)
    ensures Compounded(x, series, i) == Compounded(y, series, i - 1)
  {
  }

  lemma MovedStock(stockSeries: seq<real>, bondSeries: seq<real>, monthlyAddn: real, st: State, i: nat)
    requires Walkable(stockSeries, bondSeries, st, i)
    ensures Moved(stockSeries, bondSeries, monthlyAddn, st, i).stock == st.stock * Ratio(stockSeries, i, i + 1)
  {
  }

  lemma MovedBond(stockSeries: seq<real>, bondSeries: seq<real>, monthlyAddn: real, st: State, i: nat)
    requires Walkable(stockSeries, bondSeries, st, i)
    ensures var grown := st.bond * Ratio(bondSeries, i, i + 1);
      Moved(stockSeries, bondSeries, monthlyAddn, st, i).bond == if ContributesAt(i) then grown + monthlyAddn else grown
  {
  }

  lemma AccruedMoved(x: real, y: real, series: seq<real>, monthlyAddn: real, i: nat)
    requires i < |series| - 1 && AllPositive(series)
    requires var grown := x * Ratio(series, i, i + 1);
      y == if ContributesAt(i) then grown + monthlyAddn else grown
    ensures Accrued(x, series, monthlyAddn, i) == Accrued(y, series, monthlyAddn, i - 1)
  {
  }

  lemma {:induction false} HoldAccrues(stockSeries: seq<real>, bondSeries: seq<real>, monthlyAddn: real, st: State, i: int)
    requires Walkable(stockSeries, bondSeries, st, i)
    ensures Hold(stockSeries, bondSeries, monthlyAddn, st, i).bond == Accrued(st.bond, bondSeries, monthlyAddn, i)
    decreases i + 1
  {
    if i >= 0 {
      var next := Moved(stockSeries, bondSeries, monthlyAddn, st, i);
      MovedWalkable(stockSeries, bondSeries, monthlyAddn, st, i);
      HoldUnfold(stockSeries, bondSeries, monthlyAddn, st, i);
      MovedBond(stockSeries, bondSeries, monthlyAddn, st, i);
      AccruedMoved(st.bond, next.bond, bondSeries, monthlyAddn, i);
      HoldAccrues(stockSeries, bondSeries, monthlyAddn, next, i - 1);
    }
  }

  /** Carrying a bond amount over the indices i down to 0 scales it by the
      price ratio from the first visited index to the newest (p), and adds
      every contribution grown from the index where it was made. */
  lemma {:induction false} AccruedValue(x: real, series: seq<real>, monthlyAddn: real, i: int, p: real)
    requires -1 <= i < |series| - 1 && AllPositive(series)
    requires p == Ratio(series, 0, i + 1)
    ensures Accrued(x, series, monthlyAddn, i) == x * p + Added(series, monthlyAddn, i)
    decreases i + 1
  {
    if i < 0 {
      RatioSelf(series, 0);
    } else if ContributesAt(i) {
      AccruedInduct(x, series, monthlyAddn, i, monthlyAddn, p);
    } else {
      AccruedInduct(x, series, monthlyAddn, i, 0.0, p);
    }
  }

  /** The inductive step of AccruedValue, for the contribution c of index i. */
  lemma {:induction false} AccruedInduct(x: real, series: seq<real>, monthlyAddn: real, i: nat, c: real, p: real)
    requires i < |series| - 1 && AllPositive(series)
    requires c == (if ContributesAt(i) then monthlyAddn else 0.0) && p == Ratio(series, 0, i + 1)
    ensures Accrued(x, series, monthlyAddn, i) == x * p + Added(series, monthlyAddn, i)
    decreases i + 1, 0
  {
    var step, later := Ratio(series, i, i + 1), Ratio(series, 0, i);
    var next := x * step + c;
    AccruedMoved(x, next, series, monthlyAddn, i);
    AccruedValue(next, series, monthlyAddn, i - 1, later);
    AddedStep(series, monthlyAddn, i, c);
    RatioChain(series, 0, i, i + 1);
    Assemble(Accrued(x, series, monthlyAddn, i), Accrued(next, series, monthlyAddn, i - 1), next, x, c,
             step, later, p, Added(series, monthlyAddn, i), Added(series, monthlyAddn, i - 1));
  }

  lemma AddedStep(bondSeries: seq<real>, monthlyAddn: real, i: nat, c: real)
    requires i < |bondSeries| && AllPositive(bondSeries)
    requires c == (if ContributesAt(i) then monthlyAddn else 0.0)
    ensures Added(bondSeries, monthlyAddn, i) == c * Ratio(bondSeries, 0, i) + Added(bondSeries, monthlyAddn, i - 1)
  {
  }

  /** The arithmetic of one step: an amount grown by the step's ratio plus
      the step's contribution c, then carried by the rest of the walk, is
      the amount grown by the product of the ratios plus c carried by the
      rest of the walk. */
  lemma Assemble(accX: real, accNext: real, next: real, x: real, c: real,
                 step: real, later: real, whole: real, added: real, addedLater: real)
    requires accX == accNext && accNext == next * later + addedLater && next == x * step + c
    requires whole == step * later && added == c * later + addedLater
    ensures accX == x * whole + added
  {
    assert (x * step + c) * later == x * (step * later) + c * later;
  }

  /** A step that does not fail hands its state on to the rest of the walk. */
  lemma RunStep(stockSeries: seq<real>, bondSeries: seq<real>, monthlyAddn: real, st: State, i: int)
    requires Walkable(stockSeries, bondSeries, st, i) && i >= 0
    requires Step(stockSeries, bondSeries, monthlyAddn, st, i).Ok?
    ensures var next := Step(stockSeries, bondSeries, monthlyAddn, st, i).value;
      Walkable(stockSeries, bondSeries, next, i - 1)
      && Run(stockSeries, bondSeries, monthlyAddn, st, i) == Run(stockSeries, bondSeries, monthlyAddn, next, i - 1)
  {
    RunUnfold(stockSeries, bondSeries, monthlyAddn, st, i);
  }

  /** Past the newest index the walk is done. */
  lemma RunDone(stockSeries: seq<real>, bondSeries: seq<real>, monthlyAddn: real, st: State, i: int)
    requires Walkable(stockSeries, bondSeries, st, i) && i < 0
    ensures Run(stockSeries, bondSeries, monthlyAddn, st, i) == Ok(st)
  {
  }

  /** A step whose price is not a new minimum only compounds, and the
      extrema then track one more price. */
  lemma RunNoLow(stockSeries: seq<real>, bondSeries: seq<real>, monthlyAddn: real, st: State, i: nat)
    requires Walkable(stockSeries, bondSeries, st, i) && Tracks(stockSeries, st, i)
    requires !IsNewMin(st.ext, stockSeries[i])
    ensures var next := Moved(stockSeries, bondSeries, monthlyAddn, st, i);
      Run(stockSeries, bondSeries, monthlyAddn, st, i) == Run(stockSeries, bondSeries, monthlyAddn, next, i - 1)
      && Walkable(stockSeries, bondSeries, next, i - 1) && Tracks(stockSeries, next, i - 1)
      && next.ext.min == st.ext.min && next.decr == st.decr
  {
    ObserveExtends(stockSeries, i);
    RunUnfold(stockSeries, bondSeries, monthlyAddn, st, i);
  }

  /** When no later price falls below the running minimum of st, the walk
      never consults the ladder: it succeeds and pops nothing. */
  lemma {:induction false} RunQuiet(stockSeries: seq<real>, bondSeries: seq<real>, monthlyAddn: real, st: State, i: int)
    requires Walkable(stockSeries, bondSeries, st, i) && Tracks(stockSeries, st, i)
    requires MinOf(stockSeries) == st.ext.min
    ensures Run(stockSeries, bondSeries, monthlyAddn, st, i).Ok?
    ensures Run(stockSeries, bondSeries, monthlyAddn, st, i).value.decr == st.decr
    decreases i + 1
  {
    if i < 0 {
      RunDone(stockSeries, bondSeries, monthlyAddn, st, i);
    } else {
      RunNoLow(stockSeries, bondSeries, monthlyAddn, st, i);
      RunQuiet(stockSeries, bondSeries, monthlyAddn, Moved(stockSeries, bondSeries, monthlyAddn, st, i), i - 1);
    }
  }

  /** With an exhausted ladder, the walk fails exactly when some later
      price sets a new minimum: the first such price reads the front of an
      empty list. */
  lemma {:induction false} RunOnEmptyLadder(stockSeries: seq<real>, bondSeries: seq<real>, monthlyAddn: real, st: State, i: int)
    requires Walkable(stockSeries, bondSeries, st, i) && Tracks(stockSeries, st, i)
    requires st.decr == []
    ensures Run(stockSeries, bondSeries, monthlyAddn, st, i).Fail? <==> MinOf(stockSeries) < st.ext.min
    decreases i + 1
  {
    if i < 0 {
      assert stockSeries[0..] == stockSeries;
    } else if !IsNewMin(st.ext, stockSeries[i]) {
      RunNoLow(stockSeries, bondSeries, monthlyAddn, st, i);
      RunOnEmptyLadder(stockSeries, bondSeries, monthlyAddn, Moved(stockSeries, bondSeries, monthlyAddn, st, i), i - 1);
    }
  }

  /** The bond holding under buy-and-hold: the starting amount grown with
      the bond price over the whole walk, plus every contribution grown
      from the index where it was made. */
  lemma HoldBond(stockSeries: seq<real>, bondSeries: seq<real>, monthlyAddn: real, st: State, i: int)
    requires Walkable(stockSeries, bondSeries, st, i)
    ensures Hold(stockSeries, bondSeries, monthlyAddn, st, i).bond
         == st.bond * Ratio(bondSeries, 0, i + 1) + Added(bondSeries, monthlyAddn, i)
  {
    AccruedValue(st.bond, bondSeries, monthlyAddn, i, Ratio(bondSeries, 0, i + 1));
    HoldAccrues(stockSeries, bondSeries, monthlyAddn, st, i);
  }

  /** When no price falls below the oldest one, no new minimum is ever set
      and the ladder never fires: the result is the buy-and-hold change,
      with the stock holding grown by the stock price from the oldest to
      the newest index and the bond holding by the bond price, plus the
      grown contributions. */
  lemma QuietMarketChange(stockSeries: seq<real>, bondSeries: seq<real>, stockVal: real, bondVal: real,
                          decrPerc: seq<real>, sellPerc: seq<real>, monthlyAddn: real)
    requires Prices(stockSeries, bondSeries)
    requires ValidArguments(stockSeries, bondSeries, decrPerc, sellPerc)
    requires MinOf(stockSeries) == stockSeries[|stockSeries| - 1]
    requires stockVal + bondVal != 0.0
    ensures PortfolioChange(stockSeries, bondSeries, stockVal, bondVal, decrPerc, sellPerc, monthlyAddn)
         == Ok(HeldTotal(stockSeries, bondSeries, monthlyAddn, stockVal, bondVal, |stockSeries| - 2) / (stockVal + bondVal) - 1.0)
  {
    var init := Initial(stockSeries, stockVal, bondVal, decrPerc, sellPerc);
    var total := HeldTotal(stockSeries, bondSeries, monthlyAddn, stockVal, bondVal, |stockSeries| - 2);
    QuietRun(stockSeries, bondSeries, monthlyAddn, init, |stockSeries| - 2);
    ChangeOfTotal(stockSeries, bondSeries, stockVal, bondVal, decrPerc, sellPerc, monthlyAddn, total);
  }

  /** A walk in which no price falls below the running minimum is the
      buy-and-hold walk, so it ends with the buy-and-hold total. */
  lemma QuietRun(stockSeries: seq<real>, bondSeries: seq<real>, monthlyAddn: real, st: State, i: int)
    requires Walkable(stockSeries, bondSeries, st, i) && Tracks(stockSeries, st, i)
    requires MinOf(stockSeries) == st.ext.min
    ensures var run := Run(stockSeries, bondSeries, monthlyAddn, st, i);
      run.Ok? && run.value.stock + run.value.bond == HeldTotal(stockSeries, bondSeries, monthlyAddn, st.stock, st.bond, i)
  {
    QuietIsHold(stockSeries, bondSeries, monthlyAddn, st, i);
    HoldTotal(stockSeries, bondSeries, monthlyAddn, st, i);
  }

  lemma QuietIsHold(stockSeries: seq<real>, bondSeries: seq<real>, monthlyAddn: real, st: State, i: int)
    requires Walkable(stockSeries, bondSeries, st, i) && Tracks(stockSeries, st, i)
    requires MinOf(stockSeries) == st.ext.min
    ensures Run(stockSeries, bondSeries, monthlyAddn, st, i) == Ok(Hold(stockSeries, bondSeries, monthlyAddn, st, i))
  {
    RunQuiet(stockSeries, bondSeries, monthlyAddn, st, i);
    RunWithoutFiring(stockSeries, bondSeries, monthlyAddn, st, i);
  }

  /** The buy-and-hold walk ends with the buy-and-hold total. */
  lemma HoldTotal(stockSeries: seq<real>, bondSeries: seq<real>, monthlyAddn: real, st: State, i: int)
    requires Walkable(stockSeries, bondSeries, st, i)
    ensures var fin := Hold(stockSeries, bondSeries, monthlyAddn, st, i);
      fin.stock + fin.bond == HeldTotal(stockSeries, bondSeries, monthlyAddn, st.stock, st.bond, i)
  {
    HoldCompounds(stockSeries, bondSeries, monthlyAddn, st, i);
    HoldAccrues(stockSeries, bondSeries, monthlyAddn, st, i);
  }

  /** The buy-and-hold total in closed form: the stock amount grown with
      the stock price from the first visited index to the newest, the bond
      amount grown with the bond price, and every contribution grown from
      the index where it was made. */
  lemma HeldTotalValue(stockSeries: seq<real>, bondSeries: seq<real>, monthlyAddn: real, stock: real, bond: real, i: int)
    requires -1 <= i < |stockSeries| - 1 && |bondSeries| == |stockSeries|
    requires AllPositive(stockSeries) && AllPositive(bondSeries)
    ensures HeldTotal(stockSeries, bondSeries, monthlyAddn, stock, bond, i)
      == stock * Ratio(stockSeries, 0, i + 1) + bond * Ratio(bondSeries, 0, i + 1) + Added(bondSeries, monthlyAddn, i)
  {
    CompoundedValue(stock, stockSeries, i);
    AccruedValue(bond, bondSeries, monthlyAddn, i, Ratio(bondSeries, 0, i + 1));
  }

  /** A walk that completes with the given total holding yields its
      relative change against the initial total. */
  lemma ChangeOfTotal(stockSeries: seq<real>, bondSeries: seq<real>, stockVal: real, bondVal: real,
                      decrPerc: seq<real>, sellPerc: seq<real>, monthlyAddn: real, total: real)
    requires Prices(stockSeries, bondSeries)
    requires ValidArguments(stockSeries, bondSeries, decrPerc, sellPerc)
    requires var run := Run(stockSeries, bondSeries, monthlyAddn, Initial(stockSeries, stockVal, bondVal, decrPerc, sellPerc), |stockSeries| - 2);
      run.Ok? && run.value.stock + run.value.bond == total
    requires stockVal + bondVal != 0.0
    ensures PortfolioChange(stockSeries, bondSeries, stockVal, bondVal, decrPerc, sellPerc, monthlyAddn)
         == Ok(total / (stockVal + bondVal) - 1.0)
  {
    ChangeOfRun(stockSeries, bondSeries, stockVal, bondVal, decrPerc, sellPerc, monthlyAddn);
  }

  /** With no ladder configured, alg_01 fails with EmptyLadder exactly
      when some price falls below the oldest one: the first new minimum
      reads the front of the empty list. */
  lemma EmptyLadderFails(stockSeries: seq<real>, bondSeries: seq<real>, stockVal: real, bondVal: real, monthlyAddn: real)
    requires Prices(stockSeries, bondSeries) && |stockSeries| == |bondSeries|
    ensures PortfolioChange(stockSeries, bondSeries, stockVal, bondVal, [], [], monthlyAddn) == Fail(EmptyLadder)
        <==> MinOf(stockSeries) < stockSeries[|stockSeries| - 1]
  {
    var init := Initial(stockSeries, stockVal, bondVal, [], []);
    RunOnEmptyLadder(stockSeries, bondSeries, monthlyAddn, init, |stockSeries| - 2);
    ChangeOfRun(stockSeries, bondSeries, stockVal, bondVal, [], [], monthlyAddn);
  }

  /** A walk that completes ends with the largest and smallest stock
      price of the series. */
  lemma SimulateExtrema(stockSeries: seq<real>, bondSeries: seq<real>, stockVal: real, bondVal: real,
                        decrPerc: seq<real>, sellPerc: seq<real>, monthlyAddn: real)
    requires Prices(stockSeries, bondSeries)
    requires ValidArguments(stockSeries, bondSeries, decrPerc, sellPerc)
    requires Simulate(stockSeries, bondSeries, stockVal, bondVal, decrPerc, sellPerc, monthlyAddn).Ok?
    ensures Simulate(stockSeries, bondSeries, stockVal, bondVal, decrPerc, sellPerc, monthlyAddn).value.ext
         == ExtremaOf(stockSeries)
  {
    var init := Initial(stockSeries, stockVal, bondVal, decrPerc, sellPerc);
    RunExtrema(stockSeries, bondSeries, monthlyAddn, init, |stockSeries| - 2);
  }

  /** A walk that completes ends with lists that are the configured ladder
      with the same number k of leading entries fired from both. */
  lemma SimulateLadder(stockSeries: seq<real>, bondSeries: seq<real>, stockVal: real, bondVal: real,
                       decrPerc: seq<real>, sellPerc: seq<real>, monthlyAddn: real)
    requires Prices(stockSeries, bondSeries)
    requires ValidArguments(stockSeries, bondSeries, decrPerc, sellPerc)
    requires Simulate(stockSeries, bondSeries, stockVal, bondVal, decrPerc, sellPerc, monthlyAddn).Ok?
    ensures var fin := Simulate(stockSeries, bondSeries, stockVal, bondVal, decrPerc, sellPerc, monthlyAddn).value;
      var k := |decrPerc| - |fin.decr|;
      0 <= k <= |decrPerc| && fin.decr == Normalize(decrPerc)[k..] && fin.sell == Normalize(sellPerc)[k..]
  {
    var init := Initial(stockSeries, stockVal, bondVal, decrPerc, sellPerc);
    RunLadder(stockSeries, bondSeries, monthlyAddn, init, |stockSeries| - 2);
  }

  /** A walk that completes from non-negative holdings, with a
      non-negative contribution, ends with non-negative holdings. */
  lemma SimulateHoldings(stockSeries: seq<real>, bondSeries: seq<real>, stockVal: real, bondVal: real,
                         decrPerc: seq<real>, sellPerc: seq<real>, monthlyAddn: real)
    requires Prices(stockSeries, bondSeries)
    requires ValidArguments(stockSeries, bondSeries, decrPerc, sellPerc)
    requires Simulate(stockSeries, bondSeries, stockVal, bondVal, decrPerc, sellPerc, monthlyAddn).Ok?
    requires stockVal >= 0.0 && bondVal >= 0.0 && monthlyAddn >= 0.0
    ensures var fin := Simulate(stockSeries, bondSeries, stockVal, bondVal, decrPerc, sellPerc, monthlyAddn).value;
      fin.stock >= 0.0 && fin.bond >= 0.0
  {
    var init := Initial(stockSeries, stockVal, bondVal, decrPerc, sellPerc);
    RunKeepsHoldings(stockSeries, bondSeries, monthlyAddn, init, |stockSeries| - 2);
  }

  /** A walk that completes without firing any trigger ends with the stock
      holding scaled by the newest stock price over the oldest one, and the
      bond holding carried by the bond price with the contributions added on
      the way (AccruedGrowth gives that amount in closed form). */
  lemma SimulateWithoutFiring(stockSeries: seq<real>, bondSeries: seq<real>, stockVal: real, bondVal: real,
                              decrPerc: seq<real>, sellPerc: seq<real>, monthlyAddn: real)
    requires Prices(stockSeries, bondSeries)
    requires ValidArguments(stockSeries, bondSeries, decrPerc, sellPerc)
    requires Simulate(stockSeries, bondSeries, stockVal, bondVal, decrPerc, sellPerc, monthlyAddn).Ok?
    requires |Simulate(stockSeries, bondSeries, stockVal, bondVal, decrPerc, sellPerc, monthlyAddn).value.decr| == |decrPerc|
    ensures var fin, s := Simulate(stockSeries, bondSeries, stockVal, bondVal, decrPerc, sellPerc, monthlyAddn).value, |stockSeries|;
      fin.stock == stockVal * (stockSeries[0] / stockSeries[s - 1])
      && fin.bond == Accrued(bondVal, bondSeries, monthlyAddn, s - 2)
  {
    var init := Initial(stockSeries, stockVal, bondVal, decrPerc, sellPerc);
    SimulateIsHold(stockSeries, bondSeries, stockVal, bondVal, decrPerc, sellPerc, monthlyAddn);
    HoldWhole(stockSeries, bondSeries, monthlyAddn, init, stockVal, bondVal);
  }

  /** A walk that completes without firing is the buy-and-hold walk from
      the initial state. */
  lemma SimulateIsHold(stockSeries: seq<real>, bondSeries: seq<real>, stockVal: real, bondVal: real,
                       decrPerc: seq<real>, sellPerc: seq<real>, monthlyAddn: real)
    requires Prices(stockSeries, bondSeries)
    requires ValidArguments(stockSeries, bondSeries, decrPerc, sellPerc)
    requires Simulate(stockSeries, bondSeries, stockVal, bondVal, decrPerc, sellPerc, monthlyAddn).Ok?
    requires |Simulate(stockSeries, bondSeries, stockVal, bondVal, decrPerc, sellPerc, monthlyAddn).value.decr| == |decrPerc|
    ensures Walkable(stockSeries, bondSeries, Initial(stockSeries, stockVal, bondVal, decrPerc, sellPerc), |stockSeries| - 2)
    ensures Simulate(stockSeries, bondSeries, stockVal, bondVal, decrPerc, sellPerc, monthlyAddn)
         == Ok(Hold(stockSeries, bondSeries, monthlyAddn, Initial(stockSeries, stockVal, bondVal, decrPerc, sellPerc), |stockSeries| - 2))
  {
    var init := Initial(stockSeries, stockVal, bondVal, decrPerc, sellPerc);
    RunWithoutFiring(stockSeries, bondSeries, monthlyAddn, init, |stockSeries| - 2);
  }

  /** The buy-and-hold walk over the whole series, from the start values
      stockVal and bondVal. */
  lemma HoldWhole(stockSeries: seq<real>, bondSeries: seq<real>, monthlyAddn: real, st: State, stockVal: real, bondVal: real)
    requires Walkable(stockSeries, bondSeries, st, |stockSeries| - 2) && st.stock == stockVal && st.bond == bondVal
    ensures var fin, s := Hold(stockSeries, bondSeries, monthlyAddn, st, |stockSeries| - 2), |stockSeries|;
      fin.stock == stockVal * (stockSeries[0] / stockSeries[s - 1])
      && fin.bond == Accrued(bondVal, bondSeries, monthlyAddn, s - 2)
  {
    HoldWholeStock(stockSeries, bondSeries, monthlyAddn, st, stockVal);
    HoldAccrues(stockSeries, bondSeries, monthlyAddn, st, |stockSeries| - 2);
  }

  /** Under buy-and-hold the stock holding ends scaled by the newest stock
      price over the oldest one. */
  lemma HoldWholeStock(stockSeries: seq<real>, bondSeries: seq<real>, monthlyAddn: real, st: State, stockVal: real)
    requires Walkable(stockSeries, bondSeries, st, |stockSeries| - 2) && st.stock == stockVal
    ensures Hold(stockSeries, bondSeries, monthlyAddn, st, |stockSeries| - 2).stock
         == stockVal * (stockSeries[0] / stockSeries[|stockSeries| - 1])
  {
    HoldCompounds(stockSeries, bondSeries, monthlyAddn, st, |stockSeries| - 2);
    CompoundedWhole(stockVal, stockSeries);
  }

  /** Compounding over the whole walk scales by the newest price over the
      oldest one. */
  lemma CompoundedWhole(x: real, series: seq<real>)
    requires |series| >= 1 && AllPositive(series)
    ensures Compounded(x, series, |series| - 2) == x * (series[0] / series[|series| - 1])
  {
    CompoundedValue(x, series, |series| - 2);
    ScaledByQuotient(series, 0, |series| - 1, x);
  }

  /** Accruing through index i grows the amount by the oldest price over
      the one at i + 1, and adds every contribution grown from its index. */
  lemma AccruedGrowth(x: real, series: seq<real>, monthlyAddn: real, i: int)
    requires -1 <= i < |series| - 1 && AllPositive(series)
    ensures Accrued(x, series, monthlyAddn, i) == x * (series[0] / series[i + 1]) + Added(series, monthlyAddn, i)
  {
    AccruedRatio(x, series, monthlyAddn, i);
    RatioIsQuotient(series, 0, i + 1);
    Requotient(Accrued(x, series, monthlyAddn, i), x, Ratio(series, 0, i + 1), series[0], series[i + 1],
               Added(series, monthlyAddn, i));
  }

  /** AccruedValue with the growth factor of the whole walk. */
  lemma AccruedRatio(x: real, series: seq<real>, monthlyAddn: real, i: int)
    requires -1 <= i < |series| - 1 && AllPositive(series)
    ensures Accrued(x, series, monthlyAddn, i) == x * Ratio(series, 0, i + 1) + Added(series, monthlyAddn, i)
  {
    AccruedValue(x, series, monthlyAddn, i, Ratio(series, 0, i + 1));
  }

  /** x scaled by r, plus d, is x scaled by a / b, plus d, when r is a / b. */
  lemma Requotient(h: real, x: real, r: real, a: real, b: real, d: real)
    requires b != 0.0 && h == x * r + d && r == a / b
    ensures h == x * (a / b) + d
  {
  }

  /** Scaling by a growth factor is scaling by the quotient of the prices. */
  lemma ScaledByQuotient(series: seq<real>, j: nat, k: nat, x: real)
    requires j < |series| && k < |series| && AllPositive(series)
    ensures x * Ratio(series, j, k) == x * (series[j] / series[k])
  {
    RatioIsQuotient(series, j, k);
  }
}
