/** alg_01: rebalancing from bonds into stock during a market decline.

    The walk compounds a stock holding and a bond holding by each step's
    price ratios, adds a fixed contribution to the bond holding every 25th
    index, tracks the stock price's running extrema, and on every new
    minimum sells ladder fractions of the bond holding into stock. */
module Rebalance {
  import opened Common
  import opened Walker
  import opened Ladder

  /** The simulation's local variables between steps: the stock price's
      extrema, the two holdings and what remains of the two ladder lists
      (triggers and sell fractions, already divided by 100). */
  datatype State = State(ext: Extrema, stock: real, bond: real, decr: seq<real>, sell: seq<real>)

  /** What holds of the state between any two steps: sane extrema and two
      ladder lists of equal length. */
  predicate Good(st: State) {
    Sane(st.ext) && |st.decr| == |st.sell|
  }

  /** Positive prices, and at least one stock price to start from. */
  predicate Prices(stockSeries: seq<real>, bondSeries: seq<real>) {
    |stockSeries| >= 1 && AllPositive(stockSeries) && AllPositive(bondSeries)
  }

  /** The argument checks that run before any step. Arguments that pass
      them convert to a ladder of proper fractions with one sell fraction
      per trigger. */
  function ValidArguments(stockSeries: seq<real>, bondSeries: seq<real>, decrPerc: seq<real>, sellPerc: seq<real>): (b: bool)
    ensures b ==> (|Normalize(decrPerc)| == |Normalize(sellPerc)|
                   && AllFractions(Normalize(decrPerc)) && AllFractions(Normalize(sellPerc)))
  {
    AllPercent(decrPerc) && AllPercent(sellPerc) && |decrPerc| == |sellPerc| && |stockSeries| == |bondSeries|
  }

  /** The ladder on a new-minimum event with decrease dd: while dd strictly
      exceeds the front trigger, sell that entry's fraction of the bond
      holding into stock and pop the front of both lists. The front is read
      again after every pop, so an event that fires every remaining entry,
      or meets an empty ladder, fails with EmptyLadder. */
  function Fire(dd: real, st: State): (r: Result<State>)
    requires |st.decr| == |st.sell|
    ensures r.Fail? <==> Fired(dd, st.decr) == |st.decr|
    ensures r.Fail? ==> r.error == EmptyLadder
    ensures r.Ok? ==>
      var k := Fired(dd, st.decr);
      r.value.ext == st.ext && r.value.decr == st.decr[k..] && r.value.sell == st.sell[k..]
    decreases |st.decr|
  {
    if |st.decr| == 0 then Fail(EmptyLadder)
    else if dd > st.decr[0] then
      Fire(dd, Sold(st))
    else Ok(st)
  }

  /** An event whose decrease does not exceed the front trigger leaves the
      state as it is. */
  lemma FireNone(dd: real, st: State)
    requires |st.decr| > 0 && |st.decr| == |st.sell|
    requires Fired(dd, st.decr) == 0
    ensures Fire(dd, st) == Ok(st)
  {
  }

  /** One firing: sell the front fraction of the bond holding into stock
      and pop the front of both lists. */
  function Sold(st: State): (r: State)
    requires 0 < |st.decr| == |st.sell|
    ensures r.stock + r.bond == st.stock + st.bond
    ensures r.bond == st.bond - st.bond * st.sell[0]
    ensures r.ext == st.ext && r.decr == st.decr[1..] && r.sell == st.sell[1..]
  {
    var sellValue := st.bond * st.sell[0];
    State(st.ext, st.stock + sellValue, st.bond - sellValue, st.decr[1..], st.sell[1..])
  }

  /** The k entries an event fires sell their fractions of the bond
      holding in turn, and move exactly what they take from bonds into
      stock: the total is unchanged. */
  lemma {:induction false} FireHoldings(dd: real, st: State)
    requires |st.decr| == |st.sell|
    requires Fire(dd, st).Ok?
    ensures var k, fin := Fired(dd, st.decr), Fire(dd, st).value;
      fin.bond == Remaining(st.bond, st.sell[..k]) && fin.stock + fin.bond == st.stock + st.bond
    decreases |st.decr|
  {
    if dd > st.decr[0] {
      var next := Sold(st);
      var k := Fired(dd, st.decr);
      assert Fired(dd, next.decr) == k - 1;
      assert Fire(dd, st) == Fire(dd, next);
      FireHoldings(dd, next);
      SoldRemaining(st, k);
    } else {
      assert st.sell[..0] == [];
    }
  }

  /** Selling k fractions from st is one firing, then k - 1 more. */
  lemma SoldRemaining(st: State, k: nat)
    requires 1 <= k <= |st.sell| && |st.decr| == |st.sell|
    ensures Remaining(st.bond, st.sell[..k]) == Remaining(Sold(st).bond, Sold(st).sell[..k - 1])
  {
    RemainingPrefix(st.bond, st.sell, k);
  }

  /** How much a price grows from index k to index j: the factor r with
      r * series[k] == series[j], that is series[j] / series[k]
      (RatioIsQuotient). It is defined by that product rather than as the
      quotient so that the proofs about compounding, which multiply many
      such factors, reason about products and not nested divisions. */
  ghost function Ratio(series: seq<real>, j: nat, k: nat): (r: real)
    requires j < |series| && k < |series| && AllPositive(series)
    ensures r > 0.0 && Scales(r, series[k], series[j])
  {
    assert Scales(series[j] / series[k], series[k], series[j]);
    var r :| Scales(r, series[k], series[j]);
    r
  }

  /** Scaling p by the factor r gives q. */
  predicate Scales(r: real, p: real, q: real) {
    r * p == q
  }

  /** The growth factor is the quotient the source computes. */
  lemma RatioIsQuotient(series: seq<real>, j: nat, k: nat)
    requires j < |series| && k < |series| && AllPositive(series)
    ensures Ratio(series, j, k) == series[j] / series[k]
  {
    var r, q := Ratio(series, j, k), series[j] / series[k];
    assert q * series[k] == series[j];
    assert (r - q) * series[k] == 0.0;
  }

  /** The contribution is added on every index divisible by 25. */
  predicate ContributesAt(i: int) {
    i % 25 == 0
  }

  /** Step i before the ladder is consulted: compound both holdings by
      the price ratio against the next-older index, add the contribution
      on every 25th index, and update the extrema with the stock price. */
  ghost function Moved(stockSeries: seq<real>, bondSeries: seq<real>, monthlyAddn: real, st: State, i: nat): (r: State)
    requires Prices(stockSeries, bondSeries) && |bondSeries| == |stockSeries|
    requires i + 1 < |stockSeries| && Good(st)
    ensures Good(r) && r.ext == Observe(st.ext, stockSeries[i]) && r.decr == st.decr && r.sell == st.sell
  {
    var grown := st.bond * Ratio(bondSeries, i, i + 1);
    State(Observe(st.ext, stockSeries[i]), st.stock * Ratio(stockSeries, i, i + 1),
          if ContributesAt(i) then grown + monthlyAddn else grown, st.decr, st.sell)
  }

  /** One step of the walk at index i: the ladder is consulted if and only
      if the stock price set a new minimum. */
  ghost function Step(stockSeries: seq<real>, bondSeries: seq<real>, monthlyAddn: real, st: State, i: nat): (r: Result<State>)
    requires Prices(stockSeries, bondSeries) && |bondSeries| == |stockSeries|
    requires i + 1 < |stockSeries| && Good(st)
    ensures r.Ok? ==> Good(r.value) && r.value.ext == Observe(st.ext, stockSeries[i])
    ensures r.Fail? ==> r.error == EmptyLadder && IsNewMin(st.ext, stockSeries[i])
  {
    var moved := Moved(stockSeries, bondSeries, monthlyAddn, st, i);
    if IsNewMin(st.ext, stockSeries[i]) then Fire(Decrease(moved.ext), moved) else Ok(moved)
  }

  /** The walk over the indices i down to 0, from state st. */
  ghost function Run(stockSeries: seq<real>, bondSeries: seq<real>, monthlyAddn: real, st: State, i: int): (r: Result<State>)
    requires Prices(stockSeries, bondSeries) && |bondSeries| == |stockSeries|
    requires -1 <= i < |stockSeries| - 1 && Good(st)
    ensures r.Ok? ==> Good(r.value)
    ensures r.Fail? ==> r.error == EmptyLadder
    decreases i + 1
  {
    if i < 0 then Ok(st)
    else
      match Step(stockSeries, bondSeries, monthlyAddn, st, i)
      case Fail(e) => Fail(e)
      case Ok(next) => Run(stockSeries, bondSeries, monthlyAddn, next, i - 1)
  }

  /** The state before the first step: both extrema at the oldest price,
      the given holdings, and the percentages divided by 100. */
  function Initial(stockSeries: seq<real>, stockVal: real, bondVal: real, decrPerc: seq<real>, sellPerc: seq<real>): (r: State)
    requires |stockSeries| >= 1
    ensures r.stock + r.bond == stockVal + bondVal
    ensures |decrPerc| == |sellPerc| && stockSeries[|stockSeries| - 1] > 0.0 ==> Good(r)
  {
    State(Start(stockSeries[|stockSeries| - 1]), stockVal, bondVal, Normalize(decrPerc), Normalize(sellPerc))
  }

  /** The state after the whole walk, from the oldest index to the newest. */
  ghost function Simulate(stockSeries: seq<real>, bondSeries: seq<real>, stockVal: real, bondVal: real,
                    decrPerc: seq<real>, sellPerc: seq<real>, monthlyAddn: real): (r: Result<State>)
    requires Prices(stockSeries, bondSeries)
    requires ValidArguments(stockSeries, bondSeries, decrPerc, sellPerc)
    ensures r.Ok? ==> Good(r.value)
    ensures r.Fail? ==> r.error == EmptyLadder
  {
    Run(stockSeries, bondSeries, monthlyAddn, Initial(stockSeries, stockVal, bondVal, decrPerc, sellPerc), |stockSeries| - 2)
  }

  /** alg_01's result: the relative change of the total portfolio value. */
  ghost function PortfolioChange(stockSeries: seq<real>, bondSeries: seq<real>, stockVal: real, bondVal: real,
                           decrPerc: seq<real>, sellPerc: seq<real>, monthlyAddn: real): (r: Result<real>)
    requires Prices(stockSeries, bondSeries)
    ensures r == Fail(InvalidParameter) <==> !ValidArguments(stockSeries, bondSeries, decrPerc, sellPerc)
    ensures r == Fail(ZeroDivision) ==> stockVal + bondVal == 0.0
    ensures r.Ok? ==> stockVal + bondVal != 0.0
  {
    if !ValidArguments(stockSeries, bondSeries, decrPerc, sellPerc) then Fail(InvalidParameter)
    else
      match Simulate(stockSeries, bondSeries, stockVal, bondVal, decrPerc, sellPerc, monthlyAddn)
      case Fail(e) => Fail(e)
      case Ok(fin) =>
        if stockVal + bondVal == 0.0 then Fail(ZeroDivision)
        else Ok((fin.stock + fin.bond) / (stockVal + bondVal) - 1.0)
  }

  // Unfolding facts used by the step-by-step proof of Alg01.

  lemma FireUnfold(dd: real, ext: Extrema, stock: real, bond: real, decr: seq<real>, sell: seq<real>)
    requires |decr| == |sell|
    ensures Fire(dd, State(ext, stock, bond, decr, sell))
         == if |decr| == 0 then Fail(EmptyLadder)
            else if dd > decr[0] then
              Fire(dd, State(ext, stock + bond * sell[0], bond - bond * sell[0], decr[1..], sell[1..]))
            else Ok(State(ext, stock, bond, decr, sell))
  {
    if |decr| > 0 && dd > decr[0] {
      SoldUnfold(ext, stock, bond, decr, sell, bond * sell[0]);
    }
  }

  /** A firing entry moves sellValue, its fraction of the bond holding,
      into stock and hands the popped lists to the rest of the loop. */
  lemma FireSells(dd: real, st: State, next: State, sellValue: real)
    requires 0 < |st.decr| == |st.sell| && dd > st.decr[0] && sellValue == st.bond * st.sell[0]
    requires next == State(st.ext, st.stock + sellValue, st.bond - sellValue, st.decr[1..], st.sell[1..])
    ensures Fire(dd, st) == Fire(dd, next)
  {
    FireOnce(dd, st);
  }

  lemma FireOnce(dd: real, st: State)
    requires 0 < |st.decr| == |st.sell| && dd > st.decr[0]
    ensures Fire(dd, st) == Fire(dd, Sold(st))
  {
  }

  lemma SoldUnfold(ext: Extrema, stock: real, bond: real, decr: seq<real>, sell: seq<real>, sellValue: real)
    requires 0 < |decr| == |sell| && sellValue == bond * sell[0]
    ensures Sold(State(ext, stock, bond, decr, sell))
         == State(ext, stock + sellValue, bond - sellValue, decr[1..], sell[1..])
  {
  }

  lemma MovedUnfold(stockSeries: seq<real>, bondSeries: seq<real>, monthlyAddn: real, i: nat,
                    max: real, min: real, stock: real, bond: real, decr: seq<real>, sell: seq<real>,
                    stockChange: real, bondChange: real)
    requires Prices(stockSeries, bondSeries) && |bondSeries| == |stockSeries|
    requires i + 1 < |stockSeries| && 0.0 < min <= max && |decr| == |sell|
    requires stockChange == stockSeries[i] / stockSeries[i + 1] && bondChange == bondSeries[i] / bondSeries[i + 1]
    ensures var p, grown := stockSeries[i], bond * bondChange;
      Moved(stockSeries, bondSeries, monthlyAddn, State(Extrema(max, min), stock, bond, decr, sell), i)
      == State(Extrema(if p > max then p else max, if p < min then p else min),
               stock * stockChange,
               if ContributesAt(i) then grown + monthlyAddn else grown, decr, sell)
  {
    RatioIsQuotient(stockSeries, i, i + 1);
    RatioIsQuotient(bondSeries, i, i + 1);
  }

  lemma StepUnfold(stockSeries: seq<real>, bondSeries: seq<real>, monthlyAddn: real, st: State, i: nat)
    requires Prices(stockSeries, bondSeries) && |bondSeries| == |stockSeries|
    requires i + 1 < |stockSeries| && Good(st)
    ensures var moved := Moved(stockSeries, bondSeries, monthlyAddn, st, i);
      Step(stockSeries, bondSeries, monthlyAddn, st, i)
      == if IsNewMin(st.ext, stockSeries[i]) then Fire(Decrease(moved.ext), moved) else Ok(moved)
  {
  }

  lemma RunUnfold(stockSeries: seq<real>, bondSeries: seq<real>, monthlyAddn: real, st: State, i: nat)
    requires Prices(stockSeries, bondSeries) && |bondSeries| == |stockSeries|
    requires i < |stockSeries| - 1 && Good(st)
    ensures Run(stockSeries, bondSeries, monthlyAddn, st, i)
         == match Step(stockSeries, bondSeries, monthlyAddn, st, i)
            case Fail(e) => Fail(e)
            case Ok(next) => Run(stockSeries, bondSeries, monthlyAddn, next, i - 1)
  {
  }

  /** How the result follows from the walk's outcome. */
  lemma ChangeOfRun(stockSeries: seq<real>, bondSeries: seq<real>, stockVal: real, bondVal: real,
                    decrPerc: seq<real>, sellPerc: seq<real>, monthlyAddn: real)
    requires Prices(stockSeries, bondSeries)
    requires ValidArguments(stockSeries, bondSeries, decrPerc, sellPerc)
    ensures var run := Run(stockSeries, bondSeries, monthlyAddn, Initial(stockSeries, stockVal, bondVal, decrPerc, sellPerc), |stockSeries| - 2);
      PortfolioChange(stockSeries, bondSeries, stockVal, bondVal, decrPerc, sellPerc, monthlyAddn)
      == match run
         case Fail(e) => Fail(e)
         case Ok(fin) =>
           if stockVal + bondVal == 0.0 then Fail(ZeroDivision)
           else Ok((fin.stock + fin.bond) / (stockVal + bondVal) - 1.0)
  {
  }

  /** The same, case by case, for a walk already computed. */
  lemma ChangeOfWalk(stockSeries: seq<real>, bondSeries: seq<real>, stockVal: real, bondVal: real,
                     decrPerc: seq<real>, sellPerc: seq<real>, monthlyAddn: real, run: Result<State>)
    requires Prices(stockSeries, bondSeries)
    requires ValidArguments(stockSeries, bondSeries, decrPerc, sellPerc)
    requires run == Run(stockSeries, bondSeries, monthlyAddn, Initial(stockSeries, stockVal, bondVal, decrPerc, sellPerc), |stockSeries| - 2)
    ensures run.Fail? ==> PortfolioChange(stockSeries, bondSeries, stockVal, bondVal, decrPerc, sellPerc, monthlyAddn) == Fail(run.error)
    ensures run.Ok? && stockVal + bondVal == 0.0 ==>
      PortfolioChange(stockSeries, bondSeries, stockVal, bondVal, decrPerc, sellPerc, monthlyAddn) == Fail(ZeroDivision)
    ensures run.Ok? && stockVal + bondVal != 0.0 ==>
      PortfolioChange(stockSeries, bondSeries, stockVal, bondVal, decrPerc, sellPerc, monthlyAddn)
      == Ok((run.value.stock + run.value.bond) / (stockVal + bondVal) - 1.0)
  {
  }

  /** The firing loop of alg_01 on one new-minimum event. */
  method FireLadder(currentDecrease: real, st: State) returns (r: Result<State>)
    requires |st.decr| == |st.sell|
    ensures r == Fire(currentDecrease, st)
  {
    var cur := st;
    while true
      invariant |cur.decr| == |cur.sell|
      invariant Fire(currentDecrease, st) == Fire(currentDecrease, cur)
      decreases |cur.decr|
    {
      if |cur.decr| == 0 {
        return Fail(EmptyLadder);
      }
      if !(currentDecrease > cur.decr[0]) {
        FireNone(currentDecrease, cur);
        break;
      }
      var sellValue := cur.bond * cur.sell[0];
      var next := State(cur.ext, cur.stock + sellValue, cur.bond - sellValue, cur.decr[1..], cur.sell[1..]);
      FireSells(currentDecrease, cur, next, sellValue);
      cur := next;
    }
    r := Ok(cur);
  }

  /** alg_01's loop, from the oldest index to the newest, on the state
      that the set-up builds. */
  method Walk(stockSeries: seq<real>, bondSeries: seq<real>, monthlyAddn: real, st: State) returns (r: Result<State>)
    requires Prices(stockSeries, bondSeries) && |bondSeries| == |stockSeries| && Good(st)
    ensures r == Run(stockSeries, bondSeries, monthlyAddn, st, |stockSeries| - 2)
  {
    var max, min := st.ext.max, st.ext.min;
    var stock, bond, decr, sell := st.stock, st.bond, st.decr, st.sell;
    var currentDecrease := 0.0;
    assert st == State(Extrema(max, min), stock, bond, decr, sell);
    ghost var run := Run(stockSeries, bondSeries, monthlyAddn, st, |stockSeries| - 2);
    var i := |stockSeries| - 2;
    while i >= 0
      invariant -1 <= i <= |stockSeries| - 2
      invariant 0.0 < min <= max && |decr| == |sell|
      invariant run == Run(stockSeries, bondSeries, monthlyAddn, State(Extrema(max, min), stock, bond, decr, sell), i)
      decreases i
    {
      ghost var before := State(Extrema(max, min), stock, bond, decr, sell);
      RunUnfold(stockSeries, bondSeries, monthlyAddn, before, i);
      StepUnfold(stockSeries, bondSeries, monthlyAddn, before, i);
      var stockChange := stockSeries[i] / stockSeries[i + 1];
      var bondChange := bondSeries[i] / bondSeries[i + 1];
      MovedUnfold(stockSeries, bondSeries, monthlyAddn, i, max, min, stock, bond, decr, sell, stockChange, bondChange);
      stock := stock * stockChange;
      bond := bond * bondChange;
      if i % 25 == 0 {
        bond := bond + monthlyAddn;
      }
      if stockSeries[i] > max {
        max := stockSeries[i];
      }
      ghost var moved := Moved(stockSeries, bondSeries, monthlyAddn, before, i);
      assert moved.stock == stock && moved.bond == bond && moved.ext.max == max;
      assert moved.decr == decr && moved.sell == sell;
      if stockSeries[i] < min {
        min := stockSeries[i];
        assert moved == State(Extrema(max, min), stock, bond, decr, sell);
        currentDecrease := 1.0 - min / max;
        assert currentDecrease == Decrease(moved.ext);
        var fired := FireLadder(currentDecrease, State(Extrema(max, min), stock, bond, decr, sell));
        if fired.Fail? {
          assert run == Fail(fired.error);
          return Fail(fired.error);
        }
        stock, bond, decr, sell := fired.value.stock, fired.value.bond, fired.value.decr, fired.value.sell;
      } else {
        assert moved == State(Extrema(max, min), stock, bond, decr, sell);
      }
      i := i - 1;
    }
    assert run == Ok(State(Extrema(max, min), stock, bond, decr, sell));
    r := Ok(State(Extrema(max, min), stock, bond, decr, sell));
  }

  /** alg_01 itself: the argument checks, the set-up, the walk, and the
      relative change of the total. */
  method Alg01(stockSeries: seq<real>, bondSeries: seq<real>, stockVal: real, bondVal: real,
               decrPerc: seq<real>, sellPerc: seq<real>, monthlyAddn: real) returns (r: Result<real>)
    requires Prices(stockSeries, bondSeries)
    ensures r == PortfolioChange(stockSeries, bondSeries, stockVal, bondVal, decrPerc, sellPerc, monthlyAddn)
  {
    if !(AllPercent(decrPerc) && AllPercent(sellPerc)) || |decrPerc| != |sellPerc| || |stockSeries| != |bondSeries| {
      assert !ValidArguments(stockSeries, bondSeries, decrPerc, sellPerc);
      return Fail(InvalidParameter);
    }
    var decr := Normalize(decrPerc);
    var sell := Normalize(sellPerc);
    var s := |stockSeries|;
    var max := stockSeries[s - 1];
    var min := stockSeries[s - 1];
    var initPortVal := stockVal + bondVal;
    var start := State(Extrema(max, min), stockVal, bondVal, decr, sell);
    assert start == Initial(stockSeries, stockVal, bondVal, decrPerc, sellPerc);
    var fin := Walk(stockSeries, bondSeries, monthlyAddn, start);
    ChangeOfWalk(stockSeries, bondSeries, stockVal, bondVal, decrPerc, sellPerc, monthlyAddn, fin);
    if fin.Fail? {
      return Fail(fin.error);
    }
    var finPortVal := fin.value.stock + fin.value.bond;
    if initPortVal == 0.0 {
      return Fail(ZeroDivision);
    }
    r := Ok(finPortVal / initPortVal - 1.0);
  }

  // Invariants of the walk, used by the lemmas about it.

  /** The walk's common preconditions, from state st before index i. */
  predicate Walkable(stockSeries: seq<real>, bondSeries: seq<real>, st: State, i: int) {
    Prices(stockSeries, bondSeries) && |bondSeries| == |stockSeries|
    && -1 <= i < |stockSeries| - 1 && Good(st)
  }

  /** The extrema of st are those of the prices visited before index i. */
  predicate Tracks(stockSeries: seq<real>, st: State, i: int)
    requires -1 <= i < |stockSeries| - 1
  {
    st.ext == ExtremaOf(stockSeries[i + 1..])
  }

  /** fin's two lists are what is left of st's after popping the same
      number of entries from the front of both. */
  predicate Popped(st: State, fin: State) {
    |st.decr| == |st.sell| && |fin.decr| <= |st.decr|
    && fin.decr == st.decr[|st.decr| - |fin.decr|..]
    && fin.sell == st.sell[|st.decr| - |fin.decr|..]
  }

  /** Non-negative holdings and a ladder of proper sell fractions. */
  predicate Holdings(st: State) {
    st.stock >= 0.0 && st.bond >= 0.0 && AllFractions(st.sell)
  }
}
