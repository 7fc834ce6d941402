/** Hourly series: `_bucket_series` (one mean per non-empty local hour) and
    `_heat_risk_series_24h` (per-hour counts of sensors by heat risk). The
    local zone's offsets are whole hours, so a local hour boundary is an
    instant divisible by 3600 seconds. */
module Buckets {
  import opened Wrappers
  import opened Stats
  import opened Rows
  import opened Classify
  import opened Windows

  const MsPerSec: int := 1000

  /** `ts.replace(minute=0, second=0, microsecond=0)`: the start of the hour
      holding `ts`. */
  function HourOf(ts: int): (h: int)
    ensures h % HourSecs == 0
    ensures h <= ts < h + HourSecs
  {
    ts - ts % HourSecs
  }

  lemma HourOfMonotone(a: int, b: int)
    requires a <= b
    ensures HourOf(a) <= HourOf(b)
  {
  }

  /** A row read into hour bucket `h` of the window `[start, now]`. */
  predicate InBucket(r: Row, f: Field, start: int, now: int, h: int) {
    InWindow(r, f, start, now) && HourOf(r.tsUtc.value) == h
  }

  /** `buckets[h]`: the values of the in-window rows of hour `h`, in input order. */
  function BucketValues(rows: seq<Row>, f: Field, start: int, now: int, h: int): (vals: seq<real>)
    ensures forall r :: r in rows && InBucket(r, f, start, now, h) ==> Reading(r, f).value in vals
    ensures forall v :: v in vals ==> exists r :: r in rows && InBucket(r, f, start, now, h) && Reading(r, f) == Some(v)
  {
    if |rows| == 0 then []
    else
      var pre := rows[..|rows| - 1];
      var r := rows[|rows| - 1];
      assert rows == pre + [r];
      var vals := BucketValues(pre, f, start, now, h);
      if InBucket(r, f, start, now, h) then vals + [Reading(r, f).value] else vals
  }

  /** `BucketValues` is an order-preserving filter: it distributes over
      concatenation, so every row of the bucket adds its value once, in place. */
  lemma {:induction false} BucketValuesAppend(a: seq<Row>, b: seq<Row>, f: Field, start: int, now: int, h: int)
    ensures BucketValues(a + b, f, start, now, h) == BucketValues(a, f, start, now, h) + BucketValues(b, f, start, now, h)
    decreases |b|
  {
    if |b| == 0 {
      assert a + b == a;
    } else {
      var pre := b[..|b| - 1];
      BucketValuesAppend(a, pre, f, start, now, h);
      assert (a + b)[..|a + b| - 1] == a + pre;
      assert (a + b)[|a + b| - 1] == b[|b| - 1];
    }
  }

  /** A single row adds its value exactly when it falls in the bucket. */
  lemma BucketValuesSingle(r: Row, f: Field, start: int, now: int, h: int)
    ensures BucketValues([r], f, start, now, h) == if InBucket(r, f, start, now, h) then [Reading(r, f).value] else []
  {
    assert [r][..0] == [];
  }

  /** One entry of a series: epoch milliseconds of the hour start and a value. */
  datatype Point = Point(t: int, value: real)

  /** `p` is the entry of a non-empty hour bucket and carries that bucket's mean. */
  ghost predicate IsBucketPoint(rows: seq<Row>, f: Field, start: int, now: int, p: Point) {
    && p.t % MsPerSec == 0
    && (p.t / MsPerSec) % HourSecs == 0
    && Mean(BucketValues(rows, f, start, now, p.t / MsPerSec)) == Some(p.value)
  }

  /** The starts of the non-empty hour buckets among the hours `h`, `h + 1h`,
      ..., up to `last`, in ascending order (`sorted(buckets.keys())`). */
  function ScanHours(rows: seq<Row>, f: Field, start: int, now: int, h: int, last: int): (hs: seq<int>)
    requires h % HourSecs == 0
    ensures forall i :: 0 <= i < |hs| ==>
      h <= hs[i] <= last && hs[i] % HourSecs == 0 && |BucketValues(rows, f, start, now, hs[i])| > 0
    ensures forall i, j :: 0 <= i < j < |hs| ==> hs[i] < hs[j]
    ensures forall k :: h <= k <= last && k % HourSecs == 0 && |BucketValues(rows, f, start, now, k)| > 0 ==>
      k in hs
    decreases last - h
  {
    if h > last then []
    else
      var rest := ScanHours(rows, f, start, now, h + HourSecs, last);
      assert forall k :: h <= k && k % HourSecs == 0 && k != h ==> h + HourSecs <= k;
      if |BucketValues(rows, f, start, now, h)| == 0 then rest
      else [h] + rest
  }

  lemma MillisRoundTrip(x: int)
    ensures (x * MsPerSec) % MsPerSec == 0 && (x * MsPerSec) / MsPerSec == x
  {
  }

  /** The body of `_bucket_series` for the window `[start, now]`. */
  function SeriesBetween(rows: seq<Row>, f: Field, start: int, now: int): (out: seq<Point>)
    ensures forall i, j :: 0 <= i < j < |out| ==> out[i].t < out[j].t
    ensures forall i :: 0 <= i < |out| ==> IsBucketPoint(rows, f, start, now, out[i])
    ensures forall r :: r in rows && InWindow(r, f, start, now) ==>
      exists i :: 0 <= i < |out| && out[i].t == HourOf(r.tsUtc.value) * MsPerSec
  {
    var hs := ScanHours(rows, f, start, now, HourOf(start), HourOf(now));
    var out := BucketPoints(rows, f, start, now, hs);
    PointsAscending(hs, out);
    PointsAreBucketPoints(rows, f, start, now, hs, out);
    PointsCoverWindow(rows, f, start, now, hs, out);
    out
  }

  /** One entry per listed hour: its start in milliseconds and its bucket's mean. */
  function BucketPoints(rows: seq<Row>, f: Field, start: int, now: int, hs: seq<int>): (out: seq<Point>)
    requires forall i :: 0 <= i < |hs| ==> |BucketValues(rows, f, start, now, hs[i])| > 0
    ensures |out| == |hs|
    ensures forall i :: 0 <= i < |hs| ==>
      out[i] == Point(hs[i] * MsPerSec, Mean(BucketValues(rows, f, start, now, hs[i])).value)
  {
    seq(|hs|, i requires 0 <= i < |hs| =>
      Point(hs[i] * MsPerSec, Mean(BucketValues(rows, f, start, now, hs[i])).value))
  }

  lemma PointsAscending(hs: seq<int>, out: seq<Point>)
    requires forall i, j :: 0 <= i < j < |hs| ==> hs[i] < hs[j]
    requires |out| == |hs| && forall i :: 0 <= i < |hs| ==> out[i].t == hs[i] * MsPerSec
    ensures forall i, j :: 0 <= i < j < |out| ==> out[i].t < out[j].t
  {
  }

  lemma PointsAreBucketPoints(rows: seq<Row>, f: Field, start: int, now: int, hs: seq<int>, out: seq<Point>)
    requires forall i :: 0 <= i < |hs| ==> hs[i] % HourSecs == 0 && |BucketValues(rows, f, start, now, hs[i])| > 0
    requires out == BucketPoints(rows, f, start, now, hs)
    ensures forall i :: 0 <= i < |out| ==> IsBucketPoint(rows, f, start, now, out[i])
  {
    forall i | 0 <= i < |hs|
      ensures IsBucketPoint(rows, f, start, now, out[i])
    {
      MillisRoundTrip(hs[i]);
    }
  }

  lemma PointsCoverWindow(rows: seq<Row>, f: Field, start: int, now: int, hs: seq<int>, out: seq<Point>)
    requires hs == ScanHours(rows, f, start, now, HourOf(start), HourOf(now))
    requires |out| == |hs| && forall i :: 0 <= i < |hs| ==> out[i].t == hs[i] * MsPerSec
    ensures forall r :: r in rows && InWindow(r, f, start, now) ==>
      exists i :: 0 <= i < |out| && out[i].t == HourOf(r.tsUtc.value) * MsPerSec
  {
    forall r | r in rows && InWindow(r, f, start, now)
      ensures exists i :: 0 <= i < |out| && out[i].t == HourOf(r.tsUtc.value) * MsPerSec
    {
      var h := HourOf(r.tsUtc.value);
      HourOfMonotone(start, r.tsUtc.value);
      HourOfMonotone(r.tsUtc.value, now);
      assert InBucket(r, f, start, now, h);
      assert Reading(r, f).value in BucketValues(rows, f, start, now, h);
      assert h in hs;
      var i :| 0 <= i < |hs| && hs[i] == h;
      assert out[i].t == h * MsPerSec;
    }
  }

  /** `_bucket_series(rows, key, hours)` evaluated at instant `now`: one entry
      per non-empty hour bucket of the window `[now - hours, now]`, in strictly
      ascending hour order, each carrying its bucket's mean; every reading of
      the window has the entry of its hour. */
  function BucketSeries(rows: seq<Row>, f: Field, now: int, hours: int): (out: seq<Point>)
    ensures forall i, j :: 0 <= i < j < |out| ==> out[i].t < out[j].t
    ensures forall i :: 0 <= i < |out| ==> IsBucketPoint(rows, f, now - hours * HourSecs, now, out[i])
    ensures forall r :: r in rows && InWindow(r, f, now - hours * HourSecs, now) ==>
      exists i :: 0 <= i < |out| && out[i].t == HourOf(r.tsUtc.value) * MsPerSec
  {
    SeriesBetween(rows, f, now - hours * HourSecs, now)
  }

  /** The rows read into hour bucket `h` of `_heat_risk_series_24h`. */
  function HourRows(rows: seq<Row>, start: int, now: int, h: int): (out: seq<Row>)
    ensures forall r :: r in out <==> r in rows && InBucket(r, Celsius, start, now, h)
  {
    if |rows| == 0 then []
    else
      var pre := rows[..|rows| - 1];
      var r := rows[|rows| - 1];
      assert rows == pre + [r];
      if InBucket(r, Celsius, start, now, h) then HourRows(pre, start, now, h) + [r]
      else HourRows(pre, start, now, h)
  }

  /** The sensors with at least one temperature reading in hour bucket `h`. */
  function HourSensors(rows: seq<Row>, start: int, now: int, h: int): set<int> {
    set r | r in rows && InBucket(r, Celsius, start, now, h) :: r.sensorId
  }

  /** `_mean(buckets[h][s])`: sensor `s`'s mean temperature in hour `h`. */
  function SensorHourMean(rows: seq<Row>, start: int, now: int, h: int, s: int): Option<real> {
    Mean(BucketValues(ForSensor(rows, s), Celsius, start, now, h))
  }

  /** Every sensor that reported in an hour has a mean for that hour. */
  lemma ReportingSensorHasMean(rows: seq<Row>, start: int, now: int, h: int, s: int)
    requires s in HourSensors(rows, start, now, h)
    ensures SensorHourMean(rows, start, now, h, s).Some?
  {
    var r :| r in rows && InBucket(r, Celsius, start, now, h) && r.sensorId == s;
    assert r in ForSensor(rows, s);
    assert r.celsius.value in BucketValues(ForSensor(rows, s), Celsius, start, now, h);
  }

  /** The severity of sensor `s`'s mean temperature in hour `h`. */
  function SensorHourRisk(rows: seq<Row>, start: int, now: int, h: int, s: int): HeatRisk {
    HeatRiskLabel(SensorHourMean(rows, start, now, h, s))
  }

  /** The number of elements of `ids` that satisfy `p`. */
  function CountIf(ids: seq<int>, p: int -> bool): nat {
    if |ids| == 0 then 0
    else CountIf(ids[..|ids| - 1], p) + (if p(ids[|ids| - 1]) then 1 else 0)
  }

  /** Counting a duplicate-free sequence counts the set of its matching elements. */
  lemma {:induction false} CountIfCard(ids: seq<int>, p: int -> bool)
    requires NoDup(ids)
    ensures CountIf(ids, p) == |set s | s in ids && p(s)|
  {
    if |ids| > 0 {
      var pre := ids[..|ids| - 1];
      var x := ids[|ids| - 1];
      assert x !in pre;
      CountIfCard(pre, p);
      MatchingStep(ids, pre, x, p);
    }
  }

  /** The matching elements after one more element `x` is appended. */
  lemma MatchingStep(ids: seq<int>, pre: seq<int>, x: int, p: int -> bool)
    requires |ids| > 0 && pre == ids[..|ids| - 1] && x == ids[|ids| - 1]
    ensures (set s | s in ids && p(s)) == (set s | s in pre && p(s)) + (if p(x) then {x} else {})
  {
    assert ids == pre + [x];
  }

  /** Counting a duplicate-free sequence counts any set that holds exactly
      its matching elements. */
  lemma CountIfSet(ids: seq<int>, p: int -> bool, target: set<int>)
    requires NoDup(ids)
    requires forall s :: s in target ==> s in ids
    requires forall s :: s in ids ==> (s in target <==> p(s))
    ensures CountIf(ids, p) == |target|
  {
    CountIfCard(ids, p);
    var counted := set s | s in ids && p(s);
    forall s | s in target
      ensures s in counted
    {
      assert s in ids;
    }
    assert counted == target;
  }

  /** The sensors of hour `h` whose hourly mean has severity `risk`. */
  function SensorsAt(rows: seq<Row>, start: int, now: int, h: int, risk: HeatRisk): set<int> {
    set s | s in HourSensors(rows, start, now, h) && SensorHourRisk(rows, start, now, h, s) == risk
  }

  /** One entry of the heat-risk series. */
  datatype RiskPoint = RiskPoint(t: int, elevated: nat, high: nat, total: nat)

  /** The entry for hour `h`: `total` is the number of sensors with at least
      one reading that hour, `high` and `elevated` the number of those whose
      hourly mean is high and elevated risk, so the two never exceed `total`. */
  function RiskAt(rows: seq<Row>, start: int, now: int, h: int): (p: RiskPoint)
    ensures p.t == h * MsPerSec
    ensures p.total == |HourSensors(rows, start, now, h)|
    ensures p.high == |SensorsAt(rows, start, now, h, High)|
    ensures p.elevated == |SensorsAt(rows, start, now, h, Elevated)|
    ensures p.high + p.elevated <= p.total
  {
    var ids := DistinctIds(HourRows(rows, start, now, h));
    var hasMean := s => SensorHourMean(rows, start, now, h, s).Some?;
    var isHigh := s => SensorHourRisk(rows, start, now, h, s) == High;
    var isElevated := s => SensorHourRisk(rows, start, now, h, s) == Elevated;
    RiskAtCounts(rows, start, now, h, ids);
    RiskPoint(h * MsPerSec, CountIf(ids, isElevated), CountIf(ids, isHigh), CountIf(ids, hasMean))
  }

  lemma RiskAtCounts(rows: seq<Row>, start: int, now: int, h: int, ids: seq<int>)
    requires ids == DistinctIds(HourRows(rows, start, now, h))
    ensures CountIf(ids, s => SensorHourMean(rows, start, now, h, s).Some?) ==
      |HourSensors(rows, start, now, h)|
    ensures CountIf(ids, s => SensorHourRisk(rows, start, now, h, s) == High) ==
      |SensorsAt(rows, start, now, h, High)|
    ensures CountIf(ids, s => SensorHourRisk(rows, start, now, h, s) == Elevated) ==
      |SensorsAt(rows, start, now, h, Elevated)|
    ensures |SensorsAt(rows, start, now, h, High)| + |SensorsAt(rows, start, now, h, Elevated)| <=
      |HourSensors(rows, start, now, h)|
  {
    IdsAreHourSensors(rows, start, now, h, ids);
    CountMeans(rows, start, now, h, ids);
    CountRisk(rows, start, now, h, ids, High);
    CountRisk(rows, start, now, h, ids, Elevated);
    RiskSetsDisjoint(rows, start, now, h);
  }

  lemma IdsAreHourSensors(rows: seq<Row>, start: int, now: int, h: int, ids: seq<int>)
    requires ids == DistinctIds(HourRows(rows, start, now, h))
    ensures forall s :: s in ids <==> s in HourSensors(rows, start, now, h)
  {
    assert SensorIds(HourRows(rows, start, now, h)) == HourSensors(rows, start, now, h);
  }

  lemma CountMeans(rows: seq<Row>, start: int, now: int, h: int, ids: seq<int>)
    requires NoDup(ids)
    requires forall s :: s in ids <==> s in HourSensors(rows, start, now, h)
    ensures CountIf(ids, s => SensorHourMean(rows, start, now, h, s).Some?) ==
      |HourSensors(rows, start, now, h)|
  {
    var sensors := HourSensors(rows, start, now, h);
    var hasMean := s => SensorHourMean(rows, start, now, h, s).Some?;
    CountIfCard(ids, hasMean);
    forall s | s in sensors
      ensures SensorHourMean(rows, start, now, h, s).Some?
    {
      ReportingSensorHasMean(rows, start, now, h, s);
    }
    assert (set s | s in ids && hasMean(s)) == sensors;
  }

  lemma CountRisk(rows: seq<Row>, start: int, now: int, h: int, ids: seq<int>, risk: HeatRisk)
    requires NoDup(ids)
    requires forall s :: s in ids <==> s in HourSensors(rows, start, now, h)
    ensures CountIf(ids, s => SensorHourRisk(rows, start, now, h, s) == risk) ==
      |SensorsAt(rows, start, now, h, risk)|
  {
    var isRisk := s => SensorHourRisk(rows, start, now, h, s) == risk;
    var at := SensorsAt(rows, start, now, h, risk);
    assert forall s :: s in ids ==> (s in at <==> isRisk(s));
    CountIfSet(ids, isRisk, at);
  }

  lemma RiskSetsDisjoint(rows: seq<Row>, start: int, now: int, h: int)
    ensures |SensorsAt(rows, start, now, h, High)| + |SensorsAt(rows, start, now, h, Elevated)| <=
      |HourSensors(rows, start, now, h)|
  {
    var highs := SensorsAt(rows, start, now, h, High);
    var elevs := SensorsAt(rows, start, now, h, Elevated);
    assert highs !! elevs;
    assert |highs + elevs| == |highs| + |elevs|;
    SubsetCard(highs + elevs, HourSensors(rows, start, now, h));
  }

  lemma SubsetCard(a: set<int>, b: set<int>)
    requires a <= b
    ensures |a| <= |b|
  {
    assert b == a + (b - a);
  }

  /** The hour starts `h`, `h + 1h`, ..., up to `last` visited by the
      `while h <= end_hour` loop. */
  function HoursFrom(h: int, last: int): (hs: seq<int>)
    requires (last - h) % HourSecs == 0
    ensures |hs| == if h > last then 0 else (last - h) / HourSecs + 1
    ensures forall i :: 0 <= i < |hs| ==> hs[i] == h + i * HourSecs
    decreases last - h
  {
    if h > last then []
    else
      var rest := HoursFrom(h + HourSecs, last);
      var out := [h] + rest;
      assert forall i :: 1 <= i < |out| ==> out[i] == rest[i - 1];
      out
  }

  /** Shifting an instant by whole hours shifts its hour start by the same amount. */
  lemma HourOfShift(ts: int, k: int)
    ensures HourOf(ts - k * HourSecs) == HourOf(ts) - k * HourSecs
  {
    var q := ts / HourSecs;
    assert ts == q * HourSecs + ts % HourSecs;
    assert ts - k * HourSecs == (q - k) * HourSecs + ts % HourSecs;
  }

  /** The hour starts of the 24-hour heat-risk window: the hour of
      `now - 24h` and the 24 hours after it, the last being the hour of `now`. */
  lemma WindowHours(now: int, hs: seq<int>)
    requires hs == HoursFrom(HourOf(now - 24 * HourSecs), HourOf(now))
    ensures |hs| == 25
    ensures forall i :: 0 <= i < 25 ==> hs[i] == HourOf(now - 24 * HourSecs) + i * HourSecs
  {
    HourOfShift(now, 24);
  }

  /** One risk point per listed hour. */
  function RisksAt(rows: seq<Row>, start: int, now: int, hs: seq<int>): (out: seq<RiskPoint>)
    ensures |out| == |hs|
    ensures forall i :: 0 <= i < |hs| ==> out[i] == RiskAt(rows, start, now, hs[i])
  {
    seq(|hs|, i requires 0 <= i < |hs| => RiskAt(rows, start, now, hs[i]))
  }

  /** `_heat_risk_series_24h(rows)` evaluated at instant `now`: one entry per
      hour from the hour of `now - 24h` to the hour of `now` inclusive, which
      is always 25 entries, one hour apart and in ascending order. */
  function HeatRiskSeries24h(rows: seq<Row>, now: int): (out: seq<RiskPoint>)
    ensures |out| == 25
    ensures forall i :: 0 <= i < 25 ==>
      out[i] == RiskAt(rows, now - 24 * HourSecs, now, HourOf(now - 24 * HourSecs) + i * HourSecs)
  {
    var hs := HoursFrom(HourOf(now - 24 * HourSecs), HourOf(now));
    WindowHours(now, hs);
    RisksAt(rows, now - 24 * HourSecs, now, hs)
  }
}
