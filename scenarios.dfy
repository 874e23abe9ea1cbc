/** alg_01 on small concrete inputs. */
module Scenarios {
  import opened Common
  import opened Walker
  import opened Ladder
  import opened Rebalance
  import opened BuyAndHold
  import opened RebalanceProps

  /** Stock prices 100, 90, 100 (newest first), a constant bond price, and
      1000 in each holding. The middle price is a new minimum with a 10%
      decrease, which exceeds the only trigger (5%): the entry fires, is
      popped, and the loop then reads the front of the now empty list. */
  lemma SingleEntryLadderFails()
    ensures PortfolioChange([100.0, 90.0, 100.0], [50.0, 50.0, 50.0], 1000.0, 1000.0, [5.0], [10.0], 0.0)
         == Fail(EmptyLadder)
  {
    var s, b := [100.0, 90.0, 100.0], [50.0, 50.0, 50.0];
    var init := Initial(s, 1000.0, 1000.0, [5.0], [10.0]);
    assert init.decr == [0.05] && init.sell == [0.1];
    ChangeOfRun(s, b, 1000.0, 1000.0, [5.0], [10.0], 0.0);
    RunUnfold(s, b, 0.0, init, 1);
    StepUnfold(s, b, 0.0, init, 1);
    var moved := Moved(s, b, 0.0, init, 1);
    assert moved.ext == Extrema(100.0, 90.0);
    assert Decrease(moved.ext) == 0.1;
    assert Fired(0.1, moved.decr) == 1;
  }

  /** The same prices with a second entry (50%, 10%) behind the first: the
      first entry fires, selling 100 of bonds into stock, and the second
      stops the loop. The last step grows the stock holding by 100/90, so
      the total ends at 10000/9 + 900 against 2000 invested. */
  lemma TwoEntryLadderChange()
    ensures PortfolioChange([100.0, 90.0, 100.0], [50.0, 50.0, 50.0], 1000.0, 1000.0, [5.0, 50.0], [10.0, 10.0], 0.0)
         == Ok(1.0 / 180.0)
  {
    var s, b := [100.0, 90.0, 100.0], [50.0, 50.0, 50.0];
    var init := Initial(s, 1000.0, 1000.0, [5.0, 50.0], [10.0, 10.0]);
    assert init.decr == [0.05, 0.5] && init.sell == [0.1, 0.1];
    ChangeOfRun(s, b, 1000.0, 1000.0, [5.0, 50.0], [10.0, 10.0], 0.0);
    RunUnfold(s, b, 0.0, init, 1);
    StepUnfold(s, b, 0.0, init, 1);
    RatioIsQuotient(s, 1, 2);
    RatioIsQuotient(b, 1, 2);
    var moved := Moved(s, b, 0.0, init, 1);
    assert moved == State(Extrema(100.0, 90.0), 900.0, 1000.0, [0.05, 0.5], [0.1, 0.1]);
    assert Decrease(moved.ext) == 0.1;
    var fired := State(Extrema(100.0, 90.0), 1000.0, 900.0, [0.5], [0.1]);
    assert Fire(0.1, moved) == Ok(fired) by {
      FireUnfold(0.1, moved.ext, 900.0, 1000.0, [0.05, 0.5], [0.1, 0.1]);
      assert [0.05, 0.5][1..] == [0.5] && [0.1, 0.1][1..] == [0.1];
      FireUnfold(0.1, moved.ext, 1000.0, 900.0, [0.5], [0.1]);
    }
    RunUnfold(s, b, 0.0, fired, 0);
    StepUnfold(s, b, 0.0, fired, 0);
    RatioIsQuotient(s, 0, 1);
    RatioIsQuotient(b, 0, 1);
    var last := Moved(s, b, 0.0, fired, 0);
    assert last.stock == 10000.0 / 9.0 && last.bond == 900.0;
    assert Run(s, b, 0.0, last, -1) == Ok(last);
  }

  /** Fifty prices with a constant bond price: the walk visits the indices
      48 down to 0 and contributes at 25 and 0, so contributions of 100 add
      exactly 200 to the bond holding. */
  lemma FiftyStepContributions(bondSeries: seq<real>)
    requires |bondSeries| == 50 && AllPositive(bondSeries)
    requires forall k | 0 <= k < |bondSeries| :: bondSeries[k] == bondSeries[0]
    ensures Added(bondSeries, 100.0, 48) == 200.0
  {
    ConstantBondAdded(bondSeries, 100.0, 48);
    ContributionsCount(48);
  }
}
