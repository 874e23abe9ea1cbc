/** The threshold ladder: a list of trigger levels consumed from the front.
    On a new-minimum event the front entry fires, and is removed, while the
    current decrease strictly exceeds it. */
module Ladder {
  import opened Common

  /** The number of leading triggers that a decrease dd fires: the longest
      prefix of triggers each strictly below dd. A trigger equal to dd does
      not fire, and firing stops at the first trigger that dd does not
      exceed, whatever follows it. */
  function Fired(dd: real, triggers: seq<real>): (k: nat)
    ensures k <= |triggers|
    ensures forall j | 0 <= j < k :: triggers[j] < dd
    ensures k < |triggers| ==> dd <= triggers[k]
  {
    if |triggers| == 0 || !(dd > triggers[0]) then 0
    else 1 + Fired(dd, triggers[1..])
  }

  /** A larger decrease fires at least as many entries of the same ladder. */
  lemma {:induction false} FiredMonotone(d1: real, d2: real, triggers: seq<real>)
    requires d1 <= d2
    ensures Fired(d1, triggers) <= Fired(d2, triggers)
  {
    if triggers != [] && d1 > triggers[0] {
      FiredMonotone(d1, d2, triggers[1..]);
    }
  }

  /** The share of a holding left after selling the fractions fs one after
      another, each taken of what remains: the product of (1 - f). */
  function Retained(fs: seq<real>): real
  {
    if fs == [] then 1.0 else (1.0 - fs[0]) * Retained(fs[1..])
  }

  /** Selling proper fractions keeps a positive share of the holding, and
      never more than all of it. */
  lemma {:induction false} RetainedBounds(fs: seq<real>)
    requires AllFractions(fs)
    ensures 0.0 < Retained(fs) <= 1.0
  {
    if fs != [] {
      assert AllFractions(fs[1..]) by {
        forall i | 0 <= i < |fs| - 1 ensures 0.0 < fs[1..][i] < 1.0 {
          assert fs[1..][i] == fs[i + 1];
        }
      }
      var f, rest, whole := fs[0], Retained(fs[1..]), Retained(fs);
      RetainedBounds(fs[1..]);
      RetainedCons(fs);
      KeepShare(f, rest, whole);
    }
  }

  lemma RetainedCons(fs: seq<real>)
    requires fs != []
    ensures Retained(fs) == (1.0 - fs[0]) * Retained(fs[1..])
  {
  }

  /** What is left of an amount after selling, in turn, each fraction of
      fs of what remains. */
  function Remaining(amount: real, fs: seq<real>): real
    decreases |fs|
  {
    if fs == [] then amount else Remaining(amount - amount * fs[0], fs[1..])
  }

  lemma RemainingCons(amount: real, fs: seq<real>)
    requires fs != []
    ensures Remaining(amount, fs) == Remaining(amount - amount * fs[0], fs[1..])
  {
  }

  /** Selling the first k fractions is selling the first, then the next k - 1. */
  lemma RemainingPrefix(amount: real, fs: seq<real>, k: nat)
    requires 1 <= k <= |fs|
    ensures Remaining(amount, fs[..k]) == Remaining(amount - amount * fs[0], fs[1..][..k - 1])
  {
    var p := fs[..k];
    assert p[0] == fs[0] && p[1..] == fs[1..][..k - 1];
    RemainingCons(amount, p);
  }

  /** Selling in turn is scaling by the retained share. */
  lemma {:induction false} RemainingIsRetained(amount: real, fs: seq<real>)
    ensures Remaining(amount, fs) == amount * Retained(fs)
    decreases |fs|
  {
    if fs != [] {
      var next := amount - amount * fs[0];
      RemainingIsRetained(next, fs[1..]);
      var rest := Retained(fs[1..]);
      RetainedCons(fs);
      assert next * rest == amount * ((1.0 - fs[0]) * rest);
    }
  }

  /** Selling proper fractions of a non-negative amount leaves between
      nothing and all of it. */
  lemma RemainingBounds(amount: real, fs: seq<real>)
    requires AllFractions(fs) && amount >= 0.0
    ensures 0.0 <= Remaining(amount, fs) <= amount
  {
    RemainingIsRetained(amount, fs);
    RetainedBounds(fs);
    var r := Retained(fs);
    assert amount * r <= amount * 1.0;
  }

  /** Keeping the share 1 - f of an amount x in (0, 1], for a fraction f,
      leaves an amount in (0, 1]. */
  lemma KeepShare(f: real, x: real, kept: real)
    requires 0.0 < f < 1.0 && 0.0 < x <= 1.0 && kept == (1.0 - f) * x
    ensures 0.0 < kept <= 1.0
  {
    assert kept == x - f * x;
    assert f * x > 0.0;
    assert f * x < x;
  }
}
