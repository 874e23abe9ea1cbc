/** What alg_02's walk guarantees: the extrema it ends with, how much of
    the trigger list it consumes, the effect of comparing a fractional
    spread with triggers given in percent, the failure on an empty trigger
    list, and what one purchase does to the margin. */
module MarginProps {
  import opened Common
  import opened Walker
  import opened Ladder
  import opened Margin

  /** After visiting the whole series, the extrema are its largest and
      smallest price. */
  lemma {:induction false} RunExtrema(series: seq<real>, buys: seq<real>, acct: Account, i: int)
    requires -1 <= i < |series| - 1 && AllPositive(series) && Sane(acct.ext) && Tracks(series, acct, i)
    requires Run(series, buys, acct, i).Ok?
    ensures Run(series, buys, acct, i).value.ext == ExtremaOf(series)
    decreases i + 1
  {
    if i < 0 {
      assert series[0..] == series;
    } else {
      var next := Step(series, buys, acct, i).value;
      ObserveExtends(series, i);
      RunExtrema(series, buys, next, i - 1);
    }
  }

  /** The walk only pops triggers from the front: the list it ends with is
      a suffix of the list it started with. */
  lemma {:induction false} RunLadder(series: seq<real>, buys: seq<real>, acct: Account, i: int)
    requires -1 <= i < |series| && AllPositive(series) && Sane(acct.ext)
    requires Run(series, buys, acct, i).Ok?
    ensures var fin := Run(series, buys, acct, i).value;
      |fin.decr| <= |acct.decr| && fin.decr == acct.decr[|acct.decr| - |fin.decr|..]
    decreases i + 1
  {
    if i >= 0 {
      var next := Step(series, buys, acct, i).value;
      StepPops(series, buys, acct, i);
      RunLadder(series, buys, next, i - 1);
      var fin := Run(series, buys, next, i - 1).value;
      var k, m := |acct.decr| - |next.decr|, |next.decr| - |fin.decr|;
      assert acct.decr[k..][m..] == acct.decr[k + m..];
    }
  }

  /** A step pops some leading triggers and keeps the rest. */
  lemma StepPops(series: seq<real>, buys: seq<real>, acct: Account, i: nat)
    requires i < |series| && AllPositive(series) && Sane(acct.ext)
    requires Step(series, buys, acct, i).Ok?
    ensures var next := Step(series, buys, acct, i).value;
      |next.decr| <= |acct.decr| && next.decr == acct.decr[|acct.decr| - |next.decr|..]
  {
    var seen := Account(Observe(acct.ext, series[i]), acct.mStock, acct.margin, acct.decr);
    StepUnfold(series, buys, acct, i, seen);
  }

  /** An event that completes makes one purchase per fired trigger, all
      with the front buy percentage, which is never popped. */
  lemma {:induction false} FirePurchases(dd: real, buys: seq<real>, acct: Account)
    requires Fire(dd, buys, acct).Ok?
    ensures var k := Fired(dd, acct.decr);
      (buys == [] ==> Fire(dd, buys, acct).value == acct)
      && (buys != [] ==> Fire(dd, buys, acct).value == Purchases(buys[0], acct, k))
    decreases |acct.decr|
  {
    if dd > acct.decr[0] {
      var next := Bought(buys[0], acct);
      assert Fired(dd, acct.decr) == 1 + Fired(dd, next.decr);
      FirePurchases(dd, buys, next);
    }
  }

  /** From an account with no margin-stock, the first purchase moves b
      percent of the margin into margin-stock and leaves the rest. */
  lemma FirstPurchase(b: real, acct: Account)
    requires |acct.decr| > 0 && acct.mStock == 0.0
    ensures Bought(b, acct).mStock == acct.margin * (b / 100.0)
    ensures Bought(b, acct).margin == acct.margin * (1.0 - b / 100.0)
  {
  }

  /** The spread lies in [0, 1), so a trigger of 1 or more, such as any
      whole-number percentage, never fires: the event leaves the account
      as it is. */
  lemma HighTriggerHolds(e: Extrema, buys: seq<real>, acct: Account)
    requires Sane(e) && |acct.decr| > 0 && acct.decr[0] >= 1.0
    ensures Fire(Spread(e), buys, acct) == Ok(acct)
  {
  }

  /** A step whose front trigger is 1 or more only updates the extrema. */
  lemma StepHigh(series: seq<real>, buys: seq<real>, acct: Account, i: nat)
    requires i < |series| - 1 && AllPositive(series) && Sane(acct.ext) && Tracks(series, acct, i)
    requires |acct.decr| > 0 && acct.decr[0] >= 1.0
    ensures var next := Account(ExtremaOf(series[i..]), acct.mStock, acct.margin, acct.decr);
      Step(series, buys, acct, i) == Ok(next) && Tracks(series, next, i - 1)
  {
    var seen := Account(Observe(acct.ext, series[i]), acct.mStock, acct.margin, acct.decr);
    StepUnfold(series, buys, acct, i, seen);
    ObserveExtends(series, i);
    if IsNewMin(acct.ext, series[i]) {
      HighTriggerHolds(seen.ext, buys, seen);
    }
  }

  /** When the front trigger is 1 or more, the walk never buys: it ends
      with the extrema of the series and the account otherwise unchanged. */
  lemma {:induction false} RunHigh(series: seq<real>, buys: seq<real>, acct: Account, i: int)
    requires -1 <= i < |series| - 1 && AllPositive(series) && Sane(acct.ext) && Tracks(series, acct, i)
    requires |acct.decr| > 0 && acct.decr[0] >= 1.0
    ensures Run(series, buys, acct, i) == Ok(Account(ExtremaOf(series), acct.mStock, acct.margin, acct.decr))
    decreases i + 1
  {
    if i < 0 {
      assert series[0..] == series;
    } else {
      StepHigh(series, buys, acct, i);
      var next := Account(ExtremaOf(series[i..]), acct.mStock, acct.margin, acct.decr);
      ExtremaOfSane(series[i..]);
      RunHigh(series, buys, next, i - 1);
    }
  }

  /** The triggers are compared with the spread without being divided by
      100: when the first trigger is 1 (percent) or more, alg_02 never buys
      and ends with no margin-stock, the whole margin and the triggers as
      given. */
  lemma PercentTriggersNeverBuy(series: seq<real>, marginRate: real, margin: real, decrPerc: seq<real>,
                                buys: seq<real>, incrPerc: seq<real>, incrSells: seq<real>)
    requires |series| >= 1 && AllPositive(series)
    requires ValidArguments(decrPerc, buys, incrPerc, incrSells)
    requires |decrPerc| > 0 && decrPerc[0] >= 1.0
    ensures Simulate(series, marginRate, margin, decrPerc, buys, incrPerc, incrSells)
         == Ok(Account(ExtremaOf(series), 0.0, margin, decrPerc))
  {
    RunHigh(series, buys, Initial(series, margin, decrPerc), |series| - 2);
  }

  /** With an empty trigger list, the walk fails exactly when some later
      price sets a new minimum. */
  lemma {:induction false} RunOnEmptyLadder(series: seq<real>, buys: seq<real>, acct: Account, i: int)
    requires -1 <= i < |series| - 1 && AllPositive(series) && Sane(acct.ext) && Tracks(series, acct, i)
    requires acct.decr == []
    ensures Run(series, buys, acct, i).Fail? <==> MinOf(series) < acct.ext.min
    decreases i + 1
  {
    if i < 0 {
      assert series[0..] == series;
    } else {
      ObserveExtends(series, i);
      if !IsNewMin(acct.ext, series[i]) {
        var next := Step(series, buys, acct, i).value;
        ExtremaOfSane(series[i..]);
        RunOnEmptyLadder(series, buys, next, i - 1);
      }
    }
  }

  /** With no triggers configured, alg_02 fails with EmptyLadder exactly
      when some price falls below the oldest one. */
  lemma EmptyTriggersFail(series: seq<real>, marginRate: real, margin: real,
                          buys: seq<real>, incrPerc: seq<real>, incrSells: seq<real>)
    requires |series| >= 1 && AllPositive(series)
    requires ValidArguments([], buys, incrPerc, incrSells)
    ensures Simulate(series, marginRate, margin, [], buys, incrPerc, incrSells) == Fail(EmptyLadder)
        <==> MinOf(series) < series[|series| - 1]
  {
    RunOnEmptyLadder(series, buys, Initial(series, margin, []), |series| - 2);
  }

  /** A walk that completes ends with the largest and smallest price of the
      series and with the configured triggers minus some leading ones. */
  lemma SimulateOutcome(series: seq<real>, marginRate: real, margin: real, decrPerc: seq<real>,
                        buys: seq<real>, incrPerc: seq<real>, incrSells: seq<real>)
    requires |series| >= 1 && AllPositive(series)
    requires Simulate(series, marginRate, margin, decrPerc, buys, incrPerc, incrSells).Ok?
    ensures var fin := Simulate(series, marginRate, margin, decrPerc, buys, incrPerc, incrSells).value;
      fin.ext == ExtremaOf(series)
      && |fin.decr| <= |decrPerc| && fin.decr == decrPerc[|decrPerc| - |fin.decr|..]
  {
    var init := Initial(series, margin, decrPerc);
    RunExtrema(series, buys, init, |series| - 2);
    RunLadder(series, buys, init, |series| - 2);
  }

  /** The margin rate is never read and the increase-side lists are only
      checked: any margin rates and any two valid choices of the lists give
      the same outcome. */
  lemma IncreaseSideInert(series: seq<real>, margin: real, decrPerc: seq<real>, buys: seq<real>,
                          rate1: real, incrPerc1: seq<real>, incrSells1: seq<real>,
                          rate2: real, incrPerc2: seq<real>, incrSells2: seq<real>)
    requires |series| >= 1 && AllPositive(series)
    requires AllPercent(incrPerc1) && AllPercent(incrSells1) && AllPercent(incrPerc2) && AllPercent(incrSells2)
    ensures Simulate(series, rate1, margin, decrPerc, buys, incrPerc1, incrSells1)
         == Simulate(series, rate2, margin, decrPerc, buys, incrPerc2, incrSells2)
  {
  }

  /** The spreads computed at successive new-minimum events grow strictly. */
  lemma EventSpreadsGrow(series: seq<real>, j: nat, i: nat)
    requires j < i && i + 1 < |series| && AllPositive(series)
    requires NewMinAt(series, i) && NewMinAt(series, j)
    ensures Sane(ExtremaOf(series[i..])) && Sane(ExtremaOf(series[j..]))
      && Spread(ExtremaOf(series[i..])) < Spread(ExtremaOf(series[j..]))
  {
    ExtremaOfSane(series[i..]);
    ExtremaOfSane(series[j..]);
    EventDecreasesGrow(series, j, i);
  }

  /** Two purchases can overdraw the margin, because the second subtracts
      the whole margin-stock holding: with 100 of margin, a 20% spread
      against triggers 0.05, 0.1 and 0.5 and a buy percentage of 50, the
      first purchase leaves 50 in margin-stock and 50 in margin, and the
      second raises margin-stock to 75 and takes the margin to -25. */
  lemma MarginOverdrawn()
    ensures Simulate([80.0, 100.0], 0.0, 100.0, [0.05, 0.1, 0.5], [50.0], [], [])
         == Ok(Account(Extrema(100.0, 80.0), 75.0, -25.0, [0.5]))
  {
    assert ValidArguments([0.05, 0.1, 0.5], [50.0], [], []);
    OverdrawnRun();
  }

  lemma OverdrawnRun()
    ensures Run([80.0, 100.0], [50.0], Initial([80.0, 100.0], 100.0, [0.05, 0.1, 0.5]), 0)
         == Ok(Account(Extrema(100.0, 80.0), 75.0, -25.0, [0.5]))
  {
    var s := [80.0, 100.0];
    var init := Initial(s, 100.0, [0.05, 0.1, 0.5]);
    assert AllPositive(s) && init.ext == Extrema(100.0, 100.0);
    OverdrawnStep();
    RunLast(s, [50.0], init, Account(Extrema(100.0, 80.0), 75.0, -25.0, [0.5]));
  }

  /** A walk whose last step succeeds ends in that step's state. */
  lemma RunLast(series: seq<real>, buys: seq<real>, acct: Account, next: Account)
    requires 0 < |series| && AllPositive(series) && Sane(acct.ext)
    requires Step(series, buys, acct, 0) == Ok(next)
    ensures Run(series, buys, acct, 0) == Ok(next)
  {
    RunUnfold(series, buys, acct, 0);
  }

  lemma OverdrawnStep()
    ensures Step([80.0, 100.0], [50.0], Initial([80.0, 100.0], 100.0, [0.05, 0.1, 0.5]), 0)
         == Ok(Account(Extrema(100.0, 80.0), 75.0, -25.0, [0.5]))
  {
    var s := [80.0, 100.0];
    var init := Initial(s, 100.0, [0.05, 0.1, 0.5]);
    var seen := Account(Extrema(100.0, 80.0), 0.0, 100.0, [0.05, 0.1, 0.5]);
    assert init.ext == Extrema(100.0, 100.0);
    StepUnfold(s, [50.0], init, 0, seen);
    assert Spread(seen.ext) == 0.2;
    OverdrawnFire(seen);
  }

  lemma OverdrawnFire(seen: Account)
    requires seen == Account(Extrema(100.0, 80.0), 0.0, 100.0, [0.05, 0.1, 0.5])
    ensures Fire(0.2, [50.0], seen) == Ok(Account(Extrema(100.0, 80.0), 75.0, -25.0, [0.5]))
  {
    var once := Account(Extrema(100.0, 80.0), 50.0, 50.0, [0.1, 0.5]);
    var twice := Account(Extrema(100.0, 80.0), 75.0, -25.0, [0.5]);
    FireBuys(0.2, [50.0], seen, once, 50.0);
    FireBuys(0.2, [50.0], once, twice, 75.0);
    assert Fire(0.2, [50.0], twice) == Ok(twice);
  }

  /** A step whose price sets no new minimum only moves the extrema: the
      margin-stock holding, the margin and the triggers stay as they are. */
  lemma StepWithoutLow(series: seq<real>, buys: seq<real>, acct: Account, i: nat)
    requires i < |series| && AllPositive(series) && Sane(acct.ext)
    requires !IsNewMin(acct.ext, series[i])
    ensures Step(series, buys, acct, i) == Ok(Account(Observe(acct.ext, series[i]), acct.mStock, acct.margin, acct.decr))
  {
  }
}
