/** The series walker shared by both simulations: a running maximum and a
    running minimum over the prices visited so far. The series is stored
    newest first, and the walk visits it oldest first, so after visiting
    index i the visited prices are exactly the suffix s[i..]. */
module Walker {

  datatype Extrema = Extrema(max: real, min: real)

  /** Extrema of positive prices: 0 < min <= max. */
  predicate Sane(e: Extrema) {
    0.0 < e.min <= e.max
  }

  /** Both extrema start at the first visited (oldest) price. */
  function Start(p: real): (e: Extrema)
    ensures e == ExtremaOf([p])
  {
    Extrema(p, p)
  }

  /** A step sets a new minimum exactly when its price is strictly below
      the running minimum; only then is the ladder consulted. */
  predicate IsNewMin(e: Extrema, p: real) {
    p < e.min
  }

  /** One step of the walk. The maximum is raised first; the minimum is
      lowered independently and is never reset when the maximum moves. */
  function Observe(e: Extrema, p: real): (r: Extrema)
    ensures e.max <= r.max && p <= r.max && (r.max == e.max || r.max == p)
    ensures r.min <= e.min && r.min <= p && (r.min == e.min || r.min == p)
    ensures r.min < e.min <==> IsNewMin(e, p)
    ensures Sane(e) && p > 0.0 ==> Sane(r)
  {
    Extrema(if p > e.max then p else e.max, if p < e.min then p else e.min)
  }

  /** The largest price of a non-empty series. */
  function MaxOf(s: seq<real>): (r: real)
    requires |s| > 0
    ensures r in s
    ensures forall k | 0 <= k < |s| :: s[k] <= r
  {
    if |s| == 1 then s[0]
    else
      var m := MaxOf(s[1..]);
      if s[0] > m then s[0] else m
  }

  /** The smallest price of a non-empty series. */
  function MinOf(s: seq<real>): (r: real)
    requires |s| > 0
    ensures r in s
    ensures forall k | 0 <= k < |s| :: r <= s[k]
  {
    if |s| == 1 then s[0]
    else
      var m := MinOf(s[1..]);
      if s[0] < m then s[0] else m
  }

  function ExtremaOf(s: seq<real>): Extrema
    requires |s| > 0
  {
    Extrema(MaxOf(s), MinOf(s))
  }

  /** Visiting index i after the suffix s[i+1..] yields the extrema of s[i..]. */
  lemma ObserveExtends(s: seq<real>, i: nat)
    requires i + 1 < |s|
    ensures Observe(ExtremaOf(s[i + 1..]), s[i]) == ExtremaOf(s[i..])
  {
    assert s[i..][1..] == s[i + 1..];
  }

  /** The extrema of a series of positive prices are sane. */
  lemma ExtremaOfSane(s: seq<real>)
    requires |s| > 0
    requires forall k | 0 <= k < |s| :: s[k] > 0.0
    ensures Sane(ExtremaOf(s))
  {
    assert MaxOf(s) >= s[0];
  }

  /** Walking further back never lowers the maximum nor raises the minimum:
      for j <= i, the extrema of s[j..] enclose those of s[i..]. */
  lemma SuffixExtrema(s: seq<real>, j: nat, i: nat)
    requires j <= i < |s|
    ensures MaxOf(s[i..]) <= MaxOf(s[j..])
    ensures MinOf(s[j..]) <= MinOf(s[i..])
  {
    var t, u := s[i..], s[j..];
    var a :| 0 <= a < |t| && t[a] == MaxOf(t);
    assert u[a + i - j] == t[a];
    var b :| 0 <= b < |t| && t[b] == MinOf(t);
    assert u[b + i - j] == t[b];
  }

  /** The decrease from the running maximum, 1 - min/max, as a fraction. */
  function Decrease(e: Extrema): (r: real)
    requires Sane(e)
    ensures 0.0 <= r < 1.0
    ensures r == 0.0 <==> e.min == e.max
  {
    var q := e.min / e.max;
    QuotientBounds(e.min, e.max, q);
    1.0 - q
  }

  /** The quotient of a positive number by one at least as large lies in (0, 1]. */
  lemma QuotientBounds(a: real, b: real, q: real)
    requires 0.0 < a <= b && q == a / b
    ensures 0.0 < q <= 1.0
  {
    assert q * b == a;
    assert (1.0 - q) * b == b - a;
  }

  /** A lower minimum against a maximum at least as high is a strictly
      larger decrease. */
  lemma DecreaseGrows(e1: Extrema, e2: Extrema)
    requires Sane(e1) && Sane(e2)
    requires e1.max <= e2.max && e2.min < e1.min
    ensures Decrease(e1) < Decrease(e2)
  {
    var x1, x2 := e1.min / e1.max, e2.min / e2.max;
    calc {
      x2 * e2.max;
      e2.min;
    <
      e1.min;
      x1 * e1.max;
    <= { assert x1 >= 0.0; }
      x1 * e2.max;
    }
    assert (x1 - x2) * e2.max > 0.0;
  }

  /** A new minimum is set on visiting index i. */
  predicate NewMinAt(s: seq<real>, i: nat)
    requires i + 1 < |s|
  {
    s[i] < MinOf(s[i + 1..])
  }

  /** The decreases computed at successive new-minimum events grow strictly:
      an event at a newer index j follows an event at an older index i. */
  lemma {:induction false} EventDecreasesGrow(s: seq<real>, j: nat, i: nat)
    requires j < i && i + 1 < |s|
    requires forall k | 0 <= k < |s| :: s[k] > 0.0
    requires NewMinAt(s, i) && NewMinAt(s, j)
    ensures Decrease(ExtremaOf(s[i..])) < Decrease(ExtremaOf(s[j..]))
  {
    ExtremaOfSane(s[i..]);
    ExtremaOfSane(s[j..]);
    ObserveExtends(s, i);
    ObserveExtends(s, j);
    SuffixExtrema(s, j, i);
    SuffixExtrema(s, j + 1, i);
    DecreaseGrows(ExtremaOf(s[i..]), ExtremaOf(s[j..]));
  }
}
