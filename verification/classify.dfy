/** The three classifiers of the dashboard: the trend label of two window
    means, the temperature-only heat-risk label, and the day/night noise
    threshold. */
module Classify {
  import opened Wrappers

  /** Heat-warning cut-off, in degrees Celsius. */
  const HeatHighC: real := 31.0
  /** Temperature-only proxy for elevated heat risk, in degrees Celsius. */
  const HeatElevatedC: real := 26.0

  /** First local hour of the (less protective) day period. */
  const NoiseDayStartH: int := 7
  /** First local hour of the (more protective) night period. */
  const NoiseNightStartH: int := 21
  const NoiseDayViolationDb: real := 65.0
  const NoiseNightViolationDb: real := 55.0

  /** The default tolerance band of `_trend_label`. */
  const TrendEps: real := 0.15

  /** A local wall-clock hour, as `datetime.hour` delivers it. */
  type Hour = h: int | 0 <= h < 24

  datatype Trend = UnknownTrend | Stable | Worsening | Improving

  datatype HeatRisk = UnknownRisk | Normal | Elevated | High

  function Abs(x: real): real {
    if x < 0.0 then -x else x
  }

  /** `_trend_label`: compares the current window mean with the previous one.
      A missing mean gives an unknown trend; a change of at most `eps` in
      magnitude is stable; a larger rise is worsening and a larger fall is
      improving. */
  function TrendLabel(curr: Option<real>, prev: Option<real>, eps: real): (t: Trend)
    ensures t == UnknownTrend <==> curr.None? || prev.None?
    ensures t == Stable <==>
      curr.Some? && prev.Some? && -eps <= curr.value - prev.value <= eps
    ensures t == Worsening <==>
      curr.Some? && prev.Some? && curr.value - prev.value > eps && curr.value > prev.value
    ensures t == Improving <==>
      curr.Some? && prev.Some? && curr.value - prev.value < -eps && curr.value <= prev.value
  {
    if curr.None? || prev.None? then UnknownTrend
    else
      var delta := curr.value - prev.value;
      if Abs(delta) <= eps then Stable
      else if delta > 0.0 then Worsening
      else Improving
  }

  /** With the default band the four outcomes split the change into the
      stable band, a rise beyond it and a fall beyond it. */
  lemma TrendBands(curr: real, prev: real)
    ensures TrendLabel(Some(curr), Some(prev), TrendEps) == Stable <==>
      -TrendEps <= curr - prev <= TrendEps
    ensures TrendLabel(Some(curr), Some(prev), TrendEps) == Worsening <==> curr - prev > TrendEps
    ensures TrendLabel(Some(curr), Some(prev), TrendEps) == Improving <==> curr - prev < -TrendEps
  {
  }

  /** Swapping the two windows swaps worsening and improving and keeps the
      other two labels, for any non-negative band. */
  lemma TrendSwap(curr: Option<real>, prev: Option<real>, eps: real)
    requires eps >= 0.0
    ensures TrendLabel(curr, prev, eps) == Worsening <==> TrendLabel(prev, curr, eps) == Improving
    ensures TrendLabel(curr, prev, eps) == Stable <==> TrendLabel(prev, curr, eps) == Stable
    ensures TrendLabel(curr, prev, eps) == UnknownTrend <==> TrendLabel(prev, curr, eps) == UnknownTrend
  {
  }

  /** `_heat_risk_label`: no reading is unknown; 31 degrees and above is high;
      from 26 up to 31 is elevated; below 26 is normal. */
  function HeatRiskLabel(tempC: Option<real>): (risk: HeatRisk)
    ensures risk == UnknownRisk <==> tempC.None?
    ensures risk == High <==> tempC.Some? && tempC.value >= HeatHighC
    ensures risk == Elevated <==>
      tempC.Some? && HeatElevatedC <= tempC.value < HeatHighC
    ensures risk == Normal <==> tempC.Some? && tempC.value < HeatElevatedC
  {
    match tempC
    case None => UnknownRisk
    case Some(t) =>
      if t >= HeatHighC then High
      else if t >= HeatElevatedC then Elevated
      else Normal
  }

  /** Position of a known risk on the severity scale. */
  function Severity(risk: HeatRisk): int {
    match risk
    case UnknownRisk => -1
    case Normal => 0
    case Elevated => 1
    case High => 2
  }

  /** A warmer reading never gets a less severe label. */
  lemma HeatRiskMonotone(a: real, b: real)
    requires a <= b
    ensures Severity(HeatRiskLabel(Some(a))) <= Severity(HeatRiskLabel(Some(b)))
  {
  }

  /** `_noise_violation_threshold`: the night limit applies from 21:00 up to
      06:59 local time and the day limit from 07:00 up to 20:59. */
  function NoiseThreshold(hour: Hour): (db: real)
    ensures db == NoiseNightViolationDb <==> hour >= 21 || hour < 7
    ensures db == NoiseDayViolationDb <==> 7 <= hour <= 20
    ensures db == 55.0 || db == 65.0
  {
    var isNight := hour >= NoiseNightStartH || hour < NoiseDayStartH;
    if isNight then NoiseNightViolationDb else NoiseDayViolationDb
  }

  /** The night limit is the stricter one: whatever violates the limit at
      some hour violates it at every night hour. */
  lemma NightIsStricter(hour: Hour, night: Hour, db: real)
    requires night >= 21 || night < 7
    requires db >= NoiseThreshold(hour)
    ensures db >= NoiseThreshold(night)
  {
  }
}
