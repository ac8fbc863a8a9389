/** The backend's metric helpers: the energy level a week's completion
    ratio maps to, and the exponentially weighted moving average drawn as
    the weight trend. Python's `Decimal` values are modelled as exact
    reals. */
module Metrics {

  // ---------------------------------------------------------------------
  // Energy

  datatype Energy = Low | Medium | High
  {
    function Rank(): nat
    {
      match this
      case Low => 0
      case Medium => 1
      case High => 2
    }

    /** The string the API sends. */
    function Name(): string
    {
      match this
      case Low => "low"
      case Medium => "medium"
      case High => "high"
    }
  }

  /** `classify_energy(completion_ratio_7d)`. */
  function ClassifyEnergy(ratio: real): (e: Energy)
    ensures e == High <==> ratio >= 0.8
    ensures e == Medium <==> 0.4 <= ratio < 0.8
    ensures e == Low <==> ratio < 0.4
  {
    if ratio >= 0.8 then High
    else if ratio >= 0.4 then Medium
    else Low
  }

  /** Completing more habits never lowers the energy level. */
  lemma EnergyMonotone(a: real, b: real)
    requires a <= b
    ensures ClassifyEnergy(a).Rank() <= ClassifyEnergy(b).Rank()
  {
  }

  // ---------------------------------------------------------------------
  // Rounding

  predicate IsEven(n: int)
  {
    n % 2 == 0
  }

  /** `round(x, 2)` on a `Decimal`: to the nearest hundredth, a tie going
      to the even hundredth. */
  function Round2(x: real): (r: real)
    ensures (r * 100.0).Floor as real == r * 100.0
    ensures -0.005 <= r - x <= 0.005
    ensures x * 100.0 - (x * 100.0).Floor as real == 0.5 ==> IsEven((r * 100.0).Floor)
  {
    var y := x * 100.0;
    var f := y.Floor;
    var frac := y - f as real;
    var n := if frac < 0.5 then f else if frac > 0.5 then f + 1 else if IsEven(f) then f else f + 1;
    n as real / 100.0
  }

  /** A value already in hundredths is left as it is. */
  lemma Round2Exact(n: int)
    ensures Round2(n as real / 100.0) == n as real / 100.0
  {
    assert (n as real / 100.0) * 100.0 == n as real;
  }

  /** Two ties as examples of the even-neighbour rule: 0.125 rounds down,
      0.135 up. */
  lemma Round2Ties()
    ensures Round2(0.125) == 0.12
    ensures Round2(0.135) == 0.14
  {
    assert (0.125 * 100.0).Floor == 12;
    assert (0.135 * 100.0).Floor == 13;
  }

  // ---------------------------------------------------------------------
  // Moving average

  /** One weigh-in: its ISO date and the weight in kilograms. */
  datatype Point = Point(date: string, weight: real)

  /** One output row: the date, the weight and the rounded trend. */
  datatype TrendPoint = TrendPoint(date: string, weight: real, trend: real)

  /** One step of the average: the new weight counts `alpha`, the
      previous trend the rest. */
  function Step(alpha: real, w: real, previous: real): real
  {
    alpha * w + (1.0 - alpha) * previous
  }

  /** The unrounded trend after the first `i + 1` points: the first weight,
      then a step for each later one. */
  function Trend(points: seq<Point>, alpha: real, i: nat): real
    requires i < |points|
  {
    if i == 0 then points[0].weight
    else Step(alpha, points[i].weight, Trend(points, alpha, i - 1))
  }

  /** `ewma(points, alpha)`: each point is kept with its trend rounded to
      hundredths; the recurrence carries the unrounded trend forward. */
  method Ewma(points: seq<Point>, alpha: real := 0.3) returns (out: seq<TrendPoint>)
    ensures |out| == |points|
    ensures forall i :: 0 <= i < |points| ==>
      out[i].date == points[i].date && out[i].weight == points[i].weight
    ensures forall i :: 0 <= i < |points| ==> out[i].trend == Round2(Trend(points, alpha, i))
  {
    out := [];
    var trend: real := 0.0;
    var i := 0;
    while i < |points|
      invariant 0 <= i <= |points| && |out| == i
      invariant i > 0 ==> trend == Trend(points, alpha, i - 1)
      invariant forall j :: 0 <= j < i ==> out[j] == Expected(points, alpha, j)
    {
      var w := points[i].weight;
      trend := if i == 0 then w else Step(alpha, w, trend);
      assert trend == Trend(points, alpha, i);
      out := out + [TrendPoint(points[i].date, w, Round2(trend))];
      i := i + 1;
    }
  }

  /** The row `ewma` emits for point `j`. */
  function Expected(points: seq<Point>, alpha: real, j: nat): TrendPoint
    requires j < |points|
  {
    TrendPoint(points[j].date, points[j].weight, Round2(Trend(points, alpha, j)))
  }

  /** The first trend is the first weight, rounded; a weight already in
      hundredths comes out unchanged. */
  lemma FirstTrend(points: seq<Point>, alpha: real, n: int)
    requires |points| > 0 && points[0].weight == n as real / 100.0
    ensures Round2(Trend(points, alpha, 0)) == points[0].weight
  {
    Round2Exact(n);
  }

  /** For a weight `alpha` between 0 and 1 the trend stays within the range
      of the weights seen so far. */
  lemma {:induction false} TrendWithinRange(points: seq<Point>, alpha: real, i: nat, lo: real, hi: real)
    requires 0.0 <= alpha <= 1.0 && i < |points|
    requires forall j :: 0 <= j <= i ==> lo <= points[j].weight <= hi
    ensures lo <= Trend(points, alpha, i) <= hi
    decreases i
  {
    if i > 0 {
      TrendWithinRange(points, alpha, i - 1, lo, hi);
      var t := Trend(points, alpha, i - 1);
      var w := points[i].weight;
      Convex(alpha, w, t, lo, hi);
    }
  }

  lemma Convex(alpha: real, w: real, t: real, lo: real, hi: real)
    requires 0.0 <= alpha <= 1.0 && lo <= w <= hi && lo <= t <= hi
    ensures lo <= Step(alpha, w, t) <= hi
  {
    var beta := 1.0 - alpha;
    assert alpha * lo + beta * lo == (alpha + beta) * lo == lo;
    assert alpha * hi + beta * hi == (alpha + beta) * hi == hi;
    assert alpha * (w - lo) >= 0.0 && alpha * (hi - w) >= 0.0;
    assert beta * (t - lo) >= 0.0 && beta * (hi - t) >= 0.0;
    assert Step(alpha, w, t) == alpha * w + beta * t;
  }

  /** A steady weight gives a flat trend equal to it. */
  lemma SteadyWeightFlatTrend(points: seq<Point>, alpha: real, i: nat, w: real)
    requires 0.0 <= alpha <= 1.0 && i < |points|
    requires forall j :: 0 <= j <= i ==> points[j].weight == w
    ensures Trend(points, alpha, i) == w
  {
    TrendWithinRange(points, alpha, i, w, w);
  }
}
