/** alg_02: buying stock on margin during a market decline (the part of
    the simulation that is implemented: argument checks, extrema and the
    decrease-side buying ladder).

    The walk tracks a single price series' running extrema. On every new
    minimum it computes the spread (max - min) / max and, while the spread
    exceeds the front trigger, buys the front buy percentage of the
    available margin into the margin-stock holding, subtracts the whole
    margin-stock holding from the margin, and pops the trigger. The
    triggers are compared as given: they are never divided by 100. */
module Margin {
  import opened Common
  import opened Walker
  import opened Ladder

  /** The simulation's local variables between steps: the extrema, the
      margin-stock holding, the available margin and what remains of the
      (copied) trigger list. The buy list is never changed, so it is not
      part of the state. */
  datatype Account = Account(ext: Extrema, mStock: real, margin: real, decr: seq<real>)

  /** The spread from the running maximum down to the running minimum, as
      a fraction of the maximum: the same quantity as the decrease of the
      other simulation, written as alg_02 writes it. */
  function Spread(e: Extrema): (r: real)
    requires Sane(e)
    ensures r == Decrease(e)
  {
    (e.max - e.min) / e.max
  }

  /** One purchase with buy percentage b: b percent of the available margin
      is added to the margin-stock holding, and then the new margin-stock
      holding, not the purchase, is subtracted from the margin. The margin
      and holding together therefore end at the margin before the
      purchase: they keep their sum only while nothing has been bought. */
  function Bought(b: real, acct: Account): (r: Account)
    requires |acct.decr| > 0
    ensures r.mStock == acct.mStock + b * acct.margin / 100.0
    ensures r.mStock + r.margin == acct.margin
    ensures r.ext == acct.ext && r.decr == acct.decr[1..]
  {
    var mStock := acct.mStock + b * acct.margin / 100.0;
    Account(acct.ext, mStock, acct.margin - mStock, acct.decr[1..])
  }

  /** k purchases in turn, each with buy percentage b and each popping
      one trigger: the reference for what one event buys. */
  function Purchases(b: real, acct: Account, k: nat): (r: Account)
    requires k <= |acct.decr|
    ensures r.ext == acct.ext && r.decr == acct.decr[k..]
    decreases k
  {
    if k == 0 then acct else Purchases(b, Bought(b, acct), k - 1)
  }

  /** The buying ladder on a new-minimum event with spread dd: while dd
      strictly exceeds the front trigger, buy with the front buy percentage
      and pop the trigger. The front trigger is read again after every pop
      and the front buy percentage on every purchase, so the event fails
      with EmptyLadder when it fires every remaining trigger, when it meets
      an empty trigger list, or when it must buy from an empty buy list. */
  function Fire(dd: real, buys: seq<real>, acct: Account): (r: Result<Account>)
    ensures r.Fail? <==> Fired(dd, acct.decr) == |acct.decr| || (buys == [] && Fired(dd, acct.decr) > 0)
    ensures r.Fail? ==> r.error == EmptyLadder
    ensures r.Ok? ==> r.value.ext == acct.ext && r.value.decr == acct.decr[Fired(dd, acct.decr)..]
    decreases |acct.decr|
  {
    if |acct.decr| == 0 then Fail(EmptyLadder)
    else if dd > acct.decr[0] then
      if |buys| == 0 then Fail(EmptyLadder) else Fire(dd, buys, Bought(buys[0], acct))
    else Ok(acct)
  }

  /** One step of the walk at index i: the extrema take the price, and the
      ladder is consulted if and only if the price set a new minimum. */
  function Step(series: seq<real>, buys: seq<real>, acct: Account, i: nat): (r: Result<Account>)
    requires i < |series| && AllPositive(series) && Sane(acct.ext)
    ensures r.Ok? ==> r.value.ext == Observe(acct.ext, series[i])
    ensures r.Fail? ==> r.error == EmptyLadder && IsNewMin(acct.ext, series[i])
  {
    var seen := Account(Observe(acct.ext, series[i]), acct.mStock, acct.margin, acct.decr);
    if IsNewMin(acct.ext, series[i]) then Fire(Spread(seen.ext), buys, seen) else Ok(seen)
  }

  /** The walk over the indices i down to 0. */
  function Run(series: seq<real>, buys: seq<real>, acct: Account, i: int): (r: Result<Account>)
    requires -1 <= i < |series| && AllPositive(series) && Sane(acct.ext)
    ensures r.Ok? ==> Sane(r.value.ext)
    ensures r.Fail? ==> r.error == EmptyLadder
    decreases i + 1
  {
    if i < 0 then Ok(acct)
    else
      match Step(series, buys, acct, i)
      case Fail(e) => Fail(e)
      case Ok(next) => Run(series, buys, next, i - 1)
  }

  /** The argument checks: every entry of the four lists lies strictly
      between 0 and 100. No lengths are compared. With valid buy
      percentages, every purchase takes a proper fraction of the margin. */
  function ValidArguments(decrPerc: seq<real>, buys: seq<real>, incrPerc: seq<real>, incrSells: seq<real>): (b: bool)
    ensures b ==> forall k | 0 <= k < |buys| :: 0.0 < buys[k] / 100.0 < 1.0
  {
    AllPercent(decrPerc) && AllPercent(buys) && AllPercent(incrPerc) && AllPercent(incrSells)
  }

  /** The extrema of acct are those of the prices visited before index i. */
  predicate Tracks(series: seq<real>, acct: Account, i: int)
    requires -1 <= i < |series| - 1
  {
    acct.ext == ExtremaOf(series[i + 1..])
  }

  /** The state before the first step: both extrema at the oldest price,
      no margin-stock, the given margin and a copy of the triggers, which
      are not converted from percentages. */
  function Initial(series: seq<real>, margin: real, decrPerc: seq<real>): (r: Account)
    requires |series| >= 1
    ensures Tracks(series, r, |series| - 2)
    ensures r.mStock + r.margin == margin && r.mStock == 0.0
    ensures r.decr == decrPerc
  {
    assert series[|series| - 1..] == [series[|series| - 1]];
    Account(Start(series[|series| - 1]), 0.0, margin, decrPerc)
  }

  /** alg_02's final state. The source returns nothing; its final local
      variables are the outcome here. The increase-side lists take part
      only in the argument checks, and the margin rate in nothing at all. */
  function Simulate(series: seq<real>, marginRate: real, margin: real, decrPerc: seq<real>,
                    buys: seq<real>, incrPerc: seq<real>, incrSells: seq<real>): (r: Result<Account>)
    requires |series| >= 1 && AllPositive(series)
    ensures r == Fail(InvalidParameter) <==> !ValidArguments(decrPerc, buys, incrPerc, incrSells)
    ensures r.Fail? ==> r.error in {InvalidParameter, EmptyLadder}
  {
    if !ValidArguments(decrPerc, buys, incrPerc, incrSells) then Fail(InvalidParameter)
    else Run(series, buys, Initial(series, margin, decrPerc), |series| - 2)
  }

  /** The buying loop of alg_02 on one new-minimum event. */
  method BuyLadder(currentDecrease: real, buys: seq<real>, acct: Account) returns (r: Result<Account>)
    ensures r == Fire(currentDecrease, buys, acct)
  {
    var cur := acct;
    while true
      invariant Fire(currentDecrease, buys, acct) == Fire(currentDecrease, buys, cur)
      decreases |cur.decr|
    {
      if |cur.decr| == 0 {
        return Fail(EmptyLadder);
      }
      if !(currentDecrease > cur.decr[0]) {
        break;
      }
      if |buys| == 0 {
        return Fail(EmptyLadder);
      }
      var mStock := cur.mStock + buys[0] * cur.margin / 100.0;
      var next := Account(cur.ext, mStock, cur.margin - mStock, cur.decr[1..]);
      FireBuys(currentDecrease, buys, cur, next, mStock);
      cur := next;
    }
    r := Ok(cur);
  }

  /** A firing trigger makes one purchase, raising the margin-stock
      holding to mStock, and hands the popped list to the rest of the loop. */
  lemma FireBuys(dd: real, buys: seq<real>, acct: Account, next: Account, mStock: real)
    requires |acct.decr| > 0 && dd > acct.decr[0] && |buys| > 0
    requires mStock == acct.mStock + buys[0] * acct.margin / 100.0
    requires next == Account(acct.ext, mStock, acct.margin - mStock, acct.decr[1..])
    ensures Fire(dd, buys, acct) == Fire(dd, buys, next)
  {
    BoughtUnfold(buys[0], acct, mStock);
    FireOnce(dd, buys, acct);
  }

  lemma FireOnce(dd: real, buys: seq<real>, acct: Account)
    requires |acct.decr| > 0 && dd > acct.decr[0] && |buys| > 0
    ensures Fire(dd, buys, acct) == Fire(dd, buys, Bought(buys[0], acct))
  {
  }

  lemma BoughtUnfold(b: real, acct: Account, mStock: real)
    requires |acct.decr| > 0 && mStock == acct.mStock + b * acct.margin / 100.0
    ensures Bought(b, acct) == Account(acct.ext, mStock, acct.margin - mStock, acct.decr[1..])
  {
  }

  /** alg_02 itself, step by step. */
  method Alg02(series: seq<real>, marginRate: real, margin: real, decrPerc: seq<real>,
               buys: seq<real>, incrPerc: seq<real>, incrSells: seq<real>) returns (r: Result<Account>)
    requires |series| >= 1 && AllPositive(series)
    ensures r == Simulate(series, marginRate, margin, decrPerc, buys, incrPerc, incrSells)
  {
    if !(AllPercent(decrPerc) && AllPercent(buys) && AllPercent(incrPerc) && AllPercent(incrSells)) {
      return Fail(InvalidParameter);
    }
    var decr := decrPerc;
    var s := |series|;
    var max := series[s - 1];
    var min := series[s - 1];
    var currentDecrease := 0.0;
    var mStock := 0.0;
    var avail := margin;
    ghost var run := Run(series, buys, Initial(series, margin, decrPerc), s - 2);
    assert Simulate(series, marginRate, margin, decrPerc, buys, incrPerc, incrSells) == run;
    var i := s - 2;
    while i >= 0
      invariant -1 <= i <= s - 2
      invariant 0.0 < min <= max
      invariant run == Run(series, buys, Account(Extrema(max, min), mStock, avail, decr), i)
      decreases i
    {
      ghost var before := Account(Extrema(max, min), mStock, avail, decr);
      ghost var seen := Account(Observe(before.ext, series[i]), mStock, avail, decr);
      RunUnfold(series, buys, before, i);
      StepUnfold(series, buys, before, i, seen);
      if series[i] > max {
        max := series[i];
      }
      if series[i] < min {
        min := series[i];
        currentDecrease := (max - min) / max;
        assert seen == Account(Extrema(max, min), mStock, avail, decr) && currentDecrease == Spread(seen.ext);
        var fired := BuyLadder(currentDecrease, buys, Account(Extrema(max, min), mStock, avail, decr));
        if fired.Fail? {
          return Fail(fired.error);
        }
        mStock, avail, decr := fired.value.mStock, fired.value.margin, fired.value.decr;
        assert fired.value == Account(Extrema(max, min), mStock, avail, decr);
      } else {
        assert seen == Account(Extrema(max, min), mStock, avail, decr);
      }
      i := i - 1;
    }
    r := Ok(Account(Extrema(max, min), mStock, avail, decr));
  }

  lemma StepUnfold(series: seq<real>, buys: seq<real>, acct: Account, i: nat, seen: Account)
    requires i < |series| && AllPositive(series) && Sane(acct.ext)
    requires seen == Account(Observe(acct.ext, series[i]), acct.mStock, acct.margin, acct.decr)
    ensures Step(series, buys, acct, i)
         == if IsNewMin(acct.ext, series[i]) then Fire(Spread(seen.ext), buys, seen) else Ok(seen)
  {
  }

  lemma RunUnfold(series: seq<real>, buys: seq<real>, acct: Account, i: nat)
    requires i < |series| && AllPositive(series) && Sane(acct.ext)
    ensures Run(series, buys, acct, i)
         == match Step(series, buys, acct, i)
            case Fail(e) => Fail(e)
            case Ok(next) => Run(series, buys, next, i - 1)
  {
  }
}
