/** The dashboard handlers (the noise dashboard and both temperature
    dashboards) as pure functions of the fetched rows of the last 48 hours
    (none when the fetch failed), the current instant `now` (epoch seconds),
    the current local hour and the requested `top_n`. */
module Dashboards {
  import opened Wrappers
  import opened Stats
  import opened Rows
  import opened Classify
  import opened Windows
  import opened Buckets
  import opened Selection
  import opened Hotspots

  /** `Query(default=5, ge=1, le=25)`. */
  const MinTopN: int := 1
  const MaxTopN: int := 25

  function NoiseKey(h: NoiseHotspot): Option<real> {
    h.currentAvgDb
  }

  function HeatKey(h: HeatHotspot): Option<real> {
    h.currentC
  }

  function TrendedKey(h: TrendedHeatHotspot): Option<real> {
    h.spot.currentC
  }

  datatype NoiseReport = NoiseReport(
    dayDb: real,
    nightDb: real,
    currentDb: real,
    topHotspotsNow: seq<NoiseHotspot>,
    noiseViolations: seq<NoiseHotspot>,
    cityTrend24h: Trend,
    series24h: seq<Point>)

  /** `/dashboard/noise`. FastAPI validates `top_n` before the handler runs,
      so an out-of-range `top_n` is a 422 validation error whatever the
      database holds; then a failed fetch of the last 48 hours is a 500
      error; otherwise the report of those rows. */
  function NoiseDashboard(fetched: Option<seq<Row>>, now: int, localHour: Hour, topN: int)
    : (r: Result<NoiseReport, HttpError>)
    ensures r.Failure? <==> topN < MinTopN || topN > MaxTopN || fetched.None?
    ensures topN < MinTopN || topN > MaxTopN ==> r.Failure? && r.error.status == 422
    ensures MinTopN <= topN <= MaxTopN && fetched.None? ==> r.Failure? && r.error.status == 500
    ensures r.Success? ==> r.value == NoiseReportOf(fetched.value, now, localHour, topN)
  {
    if topN < MinTopN || topN > MaxTopN then
      Failure(HttpError(422, "top_n must be between 1 and 25"))
    else if fetched.None? then
      Failure(HttpError(500, "Supabase query failed"))
    else
      Success(NoiseReportOf(fetched.value, now, localHour, topN))
  }

  /** The body of `/dashboard/noise` for a valid `top_n`: the threshold of
      the current local hour; the `top_n` loudest sensors (or all of them
      when there are fewer), each once, each the hotspot built from its own
      newest row, loudest first with silent sensors last; the violation
      sub-list, which keeps exactly the flagged hotspots in sensor order, so
      a sensor is listed exactly when its newest average level reaches the
      threshold; and the city trend, which equals the trend over all rows. */
  function NoiseReportOf(rows: seq<Row>, now: int, localHour: Hour, topN: nat): (rep: NoiseReport)
    ensures rep.dayDb == NoiseDayViolationDb && rep.nightDb == NoiseNightViolationDb
    ensures rep.currentDb == NoiseThreshold(localHour)
    ensures |rep.topHotspotsNow| == if topN < |SensorIds(rows)| then topN else |SensorIds(rows)|
    ensures rep.topHotspotsNow == NoiseTop(rows, rep.currentDb, now, topN)
    ensures SortedDesc(rep.topHotspotsNow, NoiseKey)
    ensures rep.noiseViolations == Violations(NoiseHotspotsNow(rows, rep.currentDb, now).0)
    ensures forall v :: v in rep.noiseViolations ==>
      v.isViolationProxy && v.currentAvgDb.Some? && v.currentAvgDb.value >= rep.currentDb
    ensures forall s :: s in SensorIds(rows) ==>
      ((exists v :: v in rep.noiseViolations && v.sensorId == s) <==>
       (LatestPerSensor(rows)[s].averageDb.Some? &&
        LatestPerSensor(rows)[s].averageDb.value >= rep.currentDb))
    ensures rep.cityTrend24h == Trend24h(MeansAround(rows, AverageDb, now))
    ensures rep.series24h == BucketSeries(rows, AverageDb, now, 24)
  {
    var threshold := NoiseThreshold(localHour);
    var loop := NoiseHotspotsNow(rows, threshold, now);
    var top := NoiseTop(rows, threshold, now, topN);
    CityMeansUnaffectedByFilter(rows, AverageDb, now);
    NoiseReport(
      NoiseDayViolationDb, NoiseNightViolationDb, threshold, top, loop.1,
      Trend24h(MeansAround(WithReading(rows, AverageDb), AverageDb, now)),
      BucketSeries(rows, AverageDb, now, 24))
  }

  /** The ranked noise list: `min(top_n, sensors)` entries in descending
      level order, each the hotspot of a distinct sensor of `rows`; ties and
      the cut are fixed by `NoiseTopStable`. */
  function NoiseTop(rows: seq<Row>, threshold: real, now: int, topN: nat): (top: seq<NoiseHotspot>)
    ensures |top| == if topN < |SensorIds(rows)| then topN else |SensorIds(rows)|
    ensures SortedDesc(top, NoiseKey)
    ensures forall h :: h in top ==> (h.sensorId in SensorIds(rows) &&
      h == NoiseHotspotOf(rows, h.sensorId, LatestPerSensor(rows)[h.sensorId], threshold, now))
    ensures forall i, j :: 0 <= i < j < |top| ==> top[i].sensorId != top[j].sensorId
  {
    var hs := NoiseHotspotsNow(rows, threshold, now).0;
    var top := TopN(hs, NoiseKey, topN);
    assert multiset(top) <= multiset(hs) by { TopNKeepsBest(hs, NoiseKey, topN); }
    NoiseTopFacts(rows, threshold, now, hs, top);
    top
  }

  /** The ranking is the stable descending sort of the per-sensor list cut
      to its length: sensors with equal noise levels keep first-seen order,
      and the cut keeps the earliest of them. */
  lemma NoiseTopStable(rows: seq<Row>, threshold: real, now: int, topN: nat)
    ensures NoiseTop(rows, threshold, now, topN) == SortDesc(NoiseHotspotsNow(rows, threshold, now).0, NoiseKey)[..|NoiseTop(rows, threshold, now, topN)|]
    ensures forall k :: WithKey(NoiseTop(rows, threshold, now, topN), NoiseKey, k) <= WithKey(NoiseHotspotsNow(rows, threshold, now).0, NoiseKey, k)
  {
    assert NoiseTop(rows, threshold, now, topN) == TopN(NoiseHotspotsNow(rows, threshold, now).0, NoiseKey, topN);
  }

  lemma NoiseTopFacts(rows: seq<Row>, threshold: real, now: int, hs: seq<NoiseHotspot>, top: seq<NoiseHotspot>)
    requires |hs| == |DistinctIds(rows)|
    requires forall k :: 0 <= k < |hs| ==>
      hs[k] == NoiseHotspotOf(rows, DistinctIds(rows)[k], LatestPerSensor(rows)[DistinctIds(rows)[k]], threshold, now)
    requires multiset(top) <= multiset(hs)
    ensures forall h :: h in top ==> (h.sensorId in SensorIds(rows) &&
      h == NoiseHotspotOf(rows, h.sensorId, LatestPerSensor(rows)[h.sensorId], threshold, now))
    ensures forall i, j :: 0 <= i < j < |top| ==> top[i].sensorId != top[j].sensorId
  {
    var ids := DistinctIds(rows);
    assert forall k :: 0 <= k < |hs| ==> hs[k].sensorId == ids[k];
    DistinctIdsKept(hs, top, (h: NoiseHotspot) => h.sensorId);
    forall h | h in top
      ensures h.sensorId in SensorIds(rows) &&
        h == NoiseHotspotOf(rows, h.sensorId, LatestPerSensor(rows)[h.sensorId], threshold, now)
    {
      assert h in multiset(top);
      var k :| 0 <= k < |hs| && hs[k] == h;
      assert ids[k] in ids;
    }
  }

  /** A sensor left out of the noise ranking is no louder than any listed one. */
  lemma NoiseTopIsLoudest(rows: seq<Row>, threshold: real, now: int, topN: nat, s: int)
    requires s in SensorIds(rows)
    requires forall g :: g in NoiseTop(rows, threshold, now, topN) ==> g.sensorId != s
    ensures forall h :: h in NoiseTop(rows, threshold, now, topN) ==>
      KeyAtLeast(NoiseKey(h), LatestPerSensor(rows)[s].averageDb)
  {
    var hs := NoiseHotspotsNow(rows, threshold, now).0;
    var ids := DistinctIds(rows);
    assert NoiseTop(rows, threshold, now, topN) == TopN(hs, NoiseKey, topN);
    var k :| 0 <= k < |ids| && ids[k] == s;
    LeftOutRanksLower(hs, ids, (h: NoiseHotspot) => h.sensorId, NoiseKey, topN, k);
    var quiet := LatestPerSensor(rows)[s].averageDb;
    assert hs[k] == NoiseHotspotOf(rows, s, LatestPerSensor(rows)[s], threshold, now);
    assert NoiseKey(hs[k]) == quiet;
  }

  /** The hotspot loop of `/dashboard/noise` over every sensor of `rows`, in
      the key order of `latest`, with the violation sub-list. */
  function NoiseHotspotsNow(rows: seq<Row>, threshold: real, now: int)
    : (out: (seq<NoiseHotspot>, seq<NoiseHotspot>))
    ensures |out.0| == |DistinctIds(rows)| == |SensorIds(rows)|
    ensures forall k :: 0 <= k < |out.0| ==>
      out.0[k] == NoiseHotspotOf(rows, DistinctIds(rows)[k], LatestPerSensor(rows)[DistinctIds(rows)[k]], threshold, now)
    ensures out.1 == Violations(out.0)
    ensures forall v :: v in out.1 ==>
      v.isViolationProxy && v.currentAvgDb.Some? && v.currentAvgDb.value >= threshold
    ensures forall s :: s in SensorIds(rows) ==>
      ((exists v :: v in out.1 && v.sensorId == s) <==>
       (LatestPerSensor(rows)[s].averageDb.Some? && LatestPerSensor(rows)[s].averageDb.value >= threshold))
  {
    var latest := LatestPerSensor(rows);
    var ids := DistinctIds(rows);
    IdsHaveLatest(rows, ids, latest);
    var loop := NoiseLoop(rows, ids, latest, threshold, now);
    DistinctIdsCount(rows);
    NoiseLoopEntries(rows, ids, latest, threshold, now);
    ViolationsBySensor(rows, ids, latest, threshold, now);
    NoiseHotspotsFlagged(loop.0, loop.1, threshold);
    loop
  }

  /** Every listed sensor has a newest row. */
  lemma IdsHaveLatest(rows: seq<Row>, ids: seq<int>, latest: map<int, Row>)
    requires ids == DistinctIds(rows) && latest == LatestPerSensor(rows)
    ensures forall s :: s in ids ==> s in latest
  {
  }

  lemma NoiseHotspotsFlagged(hs: seq<NoiseHotspot>, vs: seq<NoiseHotspot>, threshold: real)
    requires vs == Violations(hs)
    requires forall h :: h in hs ==>
      h.thresholdDb == threshold && (h.isViolationProxy <==> h.currentAvgDb.Some? && h.currentAvgDb.value >= threshold)
    ensures forall v :: v in vs ==> v.isViolationProxy && v.currentAvgDb.Some? && v.currentAvgDb.value >= threshold
  {
  }

  /** A sensor is listed as a violation exactly when its newest row's average
      level reaches the threshold. */
  lemma ViolationsBySensor(rows: seq<Row>, ids: seq<int>, latest: map<int, Row>, threshold: real, now: int)
    requires ids == DistinctIds(rows) && latest == LatestPerSensor(rows)
    ensures forall s :: s in SensorIds(rows) ==>
      ((exists v :: v in NoiseLoop(rows, ids, latest, threshold, now).1 && v.sensorId == s) <==>
       (latest[s].averageDb.Some? && latest[s].averageDb.value >= threshold))
  {
    var loop := NoiseLoop(rows, ids, latest, threshold, now);
    forall s | s in SensorIds(rows)
      ensures (exists v :: v in loop.1 && v.sensorId == s) <==>
        (latest[s].averageDb.Some? && latest[s].averageDb.value >= threshold)
    {
      var k :| 0 <= k < |ids| && ids[k] == s;
      var h := loop.0[k];
      if latest[s].averageDb.Some? && latest[s].averageDb.value >= threshold {
        assert h in loop.0 && h.isViolationProxy;
        assert h in loop.1;
      }
      if v :| v in loop.1 && v.sensorId == s {
        assert v in loop.0 && v.isViolationProxy;
        var j :| 0 <= j < |loop.0| && loop.0[j] == v;
        assert ids[j] == s == ids[k];
        assert j == k;
      }
    }
  }

  /** The celsius values of the newest rows of the sensors `ids`, in order
      (`latest_temps`). */
  function LatestTemps(ids: seq<int>, latest: map<int, Row>): (temps: seq<real>)
    requires forall s :: s in ids ==> s in latest
    ensures |temps| <= |ids|
    ensures forall v :: v in temps <==> exists s :: s in ids && latest[s].celsius == Some(v)
  {
    if |ids| == 0 then []
    else
      var pre := ids[..|ids| - 1];
      var s := ids[|ids| - 1];
      assert ids == pre + [s];
      var temps := LatestTemps(pre, latest);
      if latest[s].celsius.Some? then temps + [latest[s].celsius.value] else temps
  }

  /** `LatestTemps` is an order-preserving filter over the sensors: it
      distributes over concatenation, so every reporting sensor adds its
      temperature once, in iteration order. */
  lemma {:induction false} LatestTempsAppend(a: seq<int>, b: seq<int>, latest: map<int, Row>)
    requires forall s :: s in a + b ==> s in latest
    ensures LatestTemps(a + b, latest) == LatestTemps(a, latest) + LatestTemps(b, latest)
    decreases |b|
  {
    if |b| == 0 {
      assert a + b == a;
    } else {
      var pre := b[..|b| - 1];
      assert forall s :: s in a + pre ==> s in a + b;
      LatestTempsAppend(a, pre, latest);
      assert (a + b)[..|a + b| - 1] == a + pre;
      assert (a + b)[|a + b| - 1] == b[|b| - 1];
    }
  }

  /** A single sensor adds its newest temperature exactly when it has one. */
  lemma LatestTempsSingle(s: int, latest: map<int, Row>)
    requires s in latest
    ensures LatestTemps([s], latest) == if latest[s].celsius.Some? then [latest[s].celsius.value] else []
  {
    assert [s][..0] == [];
  }

  datatype NowCounts = NowCounts(elevated: nat, high: nat)

  /** The positions of `temps` whose reading carries the label `risk`. */
  function PositionsAt(temps: seq<real>, risk: HeatRisk): set<int> {
    set i | 0 <= i < |temps| && HeatRiskLabel(Some(temps[i])) == risk
  }

  lemma PositionsStep(temps: seq<real>, risk: HeatRisk)
    requires |temps| > 0
    ensures PositionsAt(temps, risk) == PositionsAt(temps[..|temps| - 1], risk) +
      (if HeatRiskLabel(Some(temps[|temps| - 1])) == risk then {|temps| - 1} else {})
    ensures |temps| - 1 !in PositionsAt(temps[..|temps| - 1], risk)
  {
    var pre := temps[..|temps| - 1];
    assert forall i :: 0 <= i < |pre| ==> pre[i] == temps[i];
  }

  /** The counting of the "heat risk (now)" loop over reporting sensors: the
      number of readings at or above the high cut-off and the number in the
      elevated band below it. */
  function TallyNow(temps: seq<real>): (c: NowCounts)
    ensures c.high == |PositionsAt(temps, High)|
    ensures c.elevated == |PositionsAt(temps, Elevated)|
    ensures c.high + c.elevated <= |temps|
  {
    if |temps| == 0 then NowCounts(0, 0)
    else
      var c := TallyNow(temps[..|temps| - 1]);
      var t := temps[|temps| - 1];
      PositionsStep(temps, High);
      PositionsStep(temps, Elevated);
      if t >= HeatHighC then c.(high := c.high + 1)
      else if t >= HeatElevatedC then c.(elevated := c.elevated + 1)
      else c
  }

  /** When every reporting sensor is high risk, every reading is at least
      the high cut-off; when none is elevated or high, every reading is below
      the elevated cut-off. */
  lemma {:induction false} TallyNowExtremes(temps: seq<real>)
    ensures TallyNow(temps).high == |temps| ==> forall i :: 0 <= i < |temps| ==> temps[i] >= HeatHighC
    ensures TallyNow(temps).high == 0 && TallyNow(temps).elevated == 0 ==>
      forall i :: 0 <= i < |temps| ==> temps[i] < HeatElevatedC
  {
    if |temps| > 0 {
      var pre := temps[..|temps| - 1];
      TallyNowExtremes(pre);
      assert forall i :: 0 <= i < |pre| ==> temps[i] == pre[i];
    }
  }

  /** The sensors among `ids` whose newest row has a temperature. */
  function ReportingAmong(ids: seq<int>, latest: map<int, Row>): set<int>
    requires forall s :: s in ids ==> s in latest
  {
    set s | s in ids && latest[s].celsius.Some?
  }

  /** The sensors among `ids` whose newest temperature carries the label `risk`. */
  function SensorsAmong(ids: seq<int>, latest: map<int, Row>, risk: HeatRisk): set<int>
    requires forall s :: s in ids ==> s in latest
  {
    set s | s in ids && HeatRiskLabel(latest[s].celsius) == risk
  }

  lemma ReportingStep(ids: seq<int>, pre: seq<int>, x: int, latest: map<int, Row>)
    requires ids == pre + [x] && x !in pre
    requires forall s :: s in ids ==> s in latest
    ensures ReportingAmong(ids, latest) == ReportingAmong(pre, latest) + (if latest[x].celsius.Some? then {x} else {})
    ensures x !in ReportingAmong(pre, latest)
  {
  }

  lemma SensorsStep(ids: seq<int>, pre: seq<int>, x: int, latest: map<int, Row>, risk: HeatRisk)
    requires ids == pre + [x] && x !in pre
    requires forall s :: s in ids ==> s in latest
    ensures SensorsAmong(ids, latest, risk) ==
      SensorsAmong(pre, latest, risk) + (if HeatRiskLabel(latest[x].celsius) == risk then {x} else {})
    ensures x !in SensorsAmong(pre, latest, risk)
  {
  }

  /** Over distinct sensors, the loop counts sensors: as many temperatures
      as reporting sensors, and the high and elevated counters are the
      numbers of sensors whose newest temperature has that label. */
  lemma TallyLatest(ids: seq<int>, latest: map<int, Row>)
    requires forall s :: s in ids ==> s in latest
    requires NoDup(ids)
    ensures |LatestTemps(ids, latest)| == |ReportingAmong(ids, latest)|
    ensures TallyNow(LatestTemps(ids, latest)).high == |SensorsAmong(ids, latest, High)|
    ensures TallyNow(LatestTemps(ids, latest)).elevated == |SensorsAmong(ids, latest, Elevated)|
  {
    ReportingCount(ids, latest);
    LabelCount(ids, latest, High);
    LabelCount(ids, latest, Elevated);
  }

  lemma {:induction false} ReportingCount(ids: seq<int>, latest: map<int, Row>)
    requires forall s :: s in ids ==> s in latest
    requires NoDup(ids)
    ensures |LatestTemps(ids, latest)| == |ReportingAmong(ids, latest)|
  {
    if |ids| == 0 {
      assert ReportingAmong(ids, latest) == {};
    } else {
      var pre := ids[..|ids| - 1];
      var x := ids[|ids| - 1];
      assert ids == pre + [x];
      assert x !in pre;
      ReportingCount(pre, latest);
      ReportingStep(ids, pre, x, latest);
    }
  }

  /** The high (or elevated) counter of the loop over distinct sensors is
      the number of sensors whose newest temperature has that label. */
  lemma {:induction false} LabelCount(ids: seq<int>, latest: map<int, Row>, risk: HeatRisk)
    requires forall s :: s in ids ==> s in latest
    requires NoDup(ids)
    requires risk == High || risk == Elevated
    ensures (if risk == High then TallyNow(LatestTemps(ids, latest)).high
             else TallyNow(LatestTemps(ids, latest)).elevated) == |SensorsAmong(ids, latest, risk)|
  {
    if |ids| == 0 {
      assert SensorsAmong(ids, latest, risk) == {};
    } else {
      var pre := ids[..|ids| - 1];
      var x := ids[|ids| - 1];
      assert ids == pre + [x];
      assert x !in pre;
      LabelCount(pre, latest, risk);
      SensorsStep(ids, pre, x, latest, risk);
      var temps := LatestTemps(pre, latest);
      var before := SensorsAmong(pre, latest, risk);
      if latest[x].celsius.Some? {
        var t := latest[x].celsius.value;
        assert LatestTemps(ids, latest) == temps + [t];
        TallyStep(temps, t);
        if HeatRiskLabel(Some(t)) == risk {
          assert SensorsAmong(ids, latest, risk) == before + {x};
        } else {
          assert SensorsAmong(ids, latest, risk) == before;
        }
      } else {
        assert LatestTemps(ids, latest) == temps;
        assert SensorsAmong(ids, latest, risk) == before;
      }
    }
  }

  lemma TallyStep(temps: seq<real>, t: real)
    ensures TallyNow(temps + [t]).high == TallyNow(temps).high + (if HeatRiskLabel(Some(t)) == High then 1 else 0)
    ensures TallyNow(temps + [t]).elevated ==
      TallyNow(temps).elevated + (if HeatRiskLabel(Some(t)) == Elevated then 1 else 0)
  {
    assert (temps + [t])[..|temps|] == temps;
  }

  datatype CityNow = CityNow(
    riskLabel: HeatRisk, meanC: Option<real>, elevatedSensors: nat, highSensors: nat, totalReportingSensors: nat)

  /** The "heat risk (now)" block over the sensors `ids` (the keys of
      `latest`, each once): the sensors whose newest row has a temperature
      are counted and averaged, the high and elevated counters count sensors
      by the label of their newest temperature, and the city label is the
      label of the average, so it is high when every sensor is high and
      normal when none is elevated or high. */
  function CityNowOf(ids: seq<int>, latest: map<int, Row>): (c: CityNow)
    requires forall s :: s in ids ==> s in latest
    requires NoDup(ids)
    ensures c.totalReportingSensors == |ReportingAmong(ids, latest)|
    ensures c.highSensors == |SensorsAmong(ids, latest, High)|
    ensures c.elevatedSensors == |SensorsAmong(ids, latest, Elevated)|
    ensures c.highSensors + c.elevatedSensors <= c.totalReportingSensors <= |ids|
    ensures c.meanC == Mean(LatestTemps(ids, latest))
    ensures c.meanC.None? <==> c.totalReportingSensors == 0
    ensures c.meanC.None? <==> forall s :: s in ids ==> latest[s].celsius.None?
    ensures c.riskLabel == HeatRiskLabel(c.meanC)
    ensures c.totalReportingSensors > 0 && c.highSensors == c.totalReportingSensors ==> c.riskLabel == High
    ensures c.totalReportingSensors > 0 && c.highSensors == 0 && c.elevatedSensors == 0 ==> c.riskLabel == Normal
  {
    var temps := LatestTemps(ids, latest);
    var counts := TallyNow(temps);
    var mean := Mean(temps);
    TallyLatest(ids, latest);
    CityNowFacts(ids, latest);
    CityNow(HeatRiskLabel(mean), mean, counts.elevated, counts.high, |temps|)
  }

  lemma CityNowFacts(ids: seq<int>, latest: map<int, Row>)
    requires forall s :: s in ids ==> s in latest
    ensures |LatestTemps(ids, latest)| == 0 <==> forall s :: s in ids ==> latest[s].celsius.None?
    ensures var temps := LatestTemps(ids, latest);
      |temps| > 0 && TallyNow(temps).high == |temps| ==> Mean(temps).value >= HeatHighC
    ensures var temps := LatestTemps(ids, latest);
      |temps| > 0 && TallyNow(temps).high == 0 && TallyNow(temps).elevated == 0 ==>
        Mean(temps).value < HeatElevatedC
  {
    var temps := LatestTemps(ids, latest);
    var counts := TallyNow(temps);
    TallyNowExtremes(temps);
    if |temps| == 0 {
      forall s | s in ids ensures latest[s].celsius.None? {
      }
    } else {
      assert temps[0] in temps;
      if counts.high == |temps| {
        MaxIsGreatest(temps);
        MeanWithinBounds(temps, HeatHighC, Max(temps));
      }
      if counts.high == 0 && counts.elevated == 0 {
        MinIsLeast(temps);
        MaxIsGreatest(temps);
        assert Max(temps) < HeatElevatedC;
        MeanWithinBounds(temps, Min(temps), Max(temps));
      }
    }
  }

  /** The sensors of `rows` whose newest row has a temperature. */
  function ReportingNow(rows: seq<Row>): set<int> {
    set s | s in SensorIds(rows) && LatestPerSensor(rows)[s].celsius.Some?
  }

  /** The sensors of `rows` whose newest temperature carries the label `risk`. */
  function SensorsNowAt(rows: seq<Row>, risk: HeatRisk): set<int> {
    set s | s in SensorIds(rows) && HeatRiskLabel(LatestPerSensor(rows)[s].celsius) == risk
  }

  /** The "heat risk (now)" block over the newest row of every sensor of
      `rows`: the counters are the numbers of reporting, high and elevated
      sensors, and the city label is the label of the reporting sensors'
      mean temperature. */
  function CityNowOfRows(rows: seq<Row>): (c: CityNow)
    ensures c.totalReportingSensors == |ReportingNow(rows)|
    ensures c.highSensors == |SensorsNowAt(rows, High)|
    ensures c.elevatedSensors == |SensorsNowAt(rows, Elevated)|
    ensures c.highSensors + c.elevatedSensors <= c.totalReportingSensors <= |SensorIds(rows)|
    ensures c.meanC.None? <==> c.totalReportingSensors == 0
    ensures c.riskLabel == HeatRiskLabel(c.meanC)
    ensures c.totalReportingSensors > 0 && c.highSensors == c.totalReportingSensors ==> c.riskLabel == High
    ensures c.totalReportingSensors > 0 && c.highSensors == 0 && c.elevatedSensors == 0 ==> c.riskLabel == Normal
  {
    var latest := LatestPerSensor(rows);
    var ids := DistinctIds(rows);
    IdsHaveLatest(rows, ids, latest);
    DistinctIdsCount(rows);
    SensorSetsOfRows(rows);
    CityNowOf(ids, latest)
  }

  /** The city's mean is the mean of the newest temperatures of the sensors
      of `rows`, one per sensor that reports one, in first-seen order. */
  lemma CityNowMean(rows: seq<Row>)
    ensures forall s :: s in DistinctIds(rows) ==> s in LatestPerSensor(rows)
    ensures CityNowOfRows(rows).meanC == Mean(LatestTemps(DistinctIds(rows), LatestPerSensor(rows)))
  {
    var latest := LatestPerSensor(rows);
    var ids := DistinctIds(rows);
    IdsHaveLatest(rows, ids, latest);
    DistinctIdsCount(rows);
    assert CityNowOfRows(rows) == CityNowOf(ids, latest);
  }

  lemma SensorSetsOfRows(rows: seq<Row>)
    ensures ReportingAmong(DistinctIds(rows), LatestPerSensor(rows)) == ReportingNow(rows)
    ensures SensorsAmong(DistinctIds(rows), LatestPerSensor(rows), High) == SensorsNowAt(rows, High)
    ensures SensorsAmong(DistinctIds(rows), LatestPerSensor(rows), Elevated) == SensorsNowAt(rows, Elevated)
  {
  }

  /** The hotspot loop of the later `/dashboard/temperature` handler over
      every sensor of `rows`, in first-seen order. */
  function HeatHotspotsAll(rows: seq<Row>, now: int): (hs: seq<HeatHotspot>)
    ensures |hs| == |DistinctIds(rows)| == |SensorIds(rows)|
    ensures forall k :: 0 <= k < |hs| ==>
      hs[k] == HeatHotspotOf(rows, DistinctIds(rows)[k], LatestPerSensor(rows)[DistinctIds(rows)[k]], now)
  {
    var latest := LatestPerSensor(rows);
    var ids := DistinctIds(rows);
    IdsHaveLatest(rows, ids, latest);
    DistinctIdsCount(rows);
    HeatLoop(rows, ids, latest, now)
  }

  /** The temperature hotspot list: `min(top_n, sensors)` entries in
      descending temperature order, each the hotspot of a distinct sensor of
      `rows` built from its newest row; ties and the cut are
      fixed by `HeatTopStable`. */
  function HeatHotspotsTop(rows: seq<Row>, now: int, topN: nat): (top: seq<HeatHotspot>)
    ensures |top| == if topN < |SensorIds(rows)| then topN else |SensorIds(rows)|
    ensures SortedDesc(top, HeatKey)
    ensures forall h :: h in top ==> (h.sensorId in SensorIds(rows) &&
      h == HeatHotspotOf(rows, h.sensorId, LatestPerSensor(rows)[h.sensorId], now))
    ensures forall i, j :: 0 <= i < j < |top| ==> top[i].sensorId != top[j].sensorId
  {
    DistinctIdsCount(rows);
    var latest := LatestPerSensor(rows);
    var ids := DistinctIds(rows);
    IdsHaveLatest(rows, ids, latest);
    var hs := HeatLoop(rows, ids, latest, now);
    var top := TopN(hs, HeatKey, topN);
    assert multiset(top) <= multiset(hs) by { TopNKeepsBest(hs, HeatKey, topN); }
    HeatTopFacts(rows, now, hs, top);
    top
  }

  /** The ranking is the stable descending sort of the per-sensor list cut
      to its length: sensors with equal temperatures keep first-seen order,
      and the cut keeps the earliest of them. */
  lemma HeatTopStable(rows: seq<Row>, now: int, topN: nat)
    ensures HeatHotspotsTop(rows, now, topN) == SortDesc(HeatHotspotsAll(rows, now), HeatKey)[..|HeatHotspotsTop(rows, now, topN)|]
    ensures forall k :: WithKey(HeatHotspotsTop(rows, now, topN), HeatKey, k) <= WithKey(HeatHotspotsAll(rows, now), HeatKey, k)
  {
    assert HeatHotspotsTop(rows, now, topN) == TopN(HeatHotspotsAll(rows, now), HeatKey, topN);
  }

  lemma HeatTopFacts(rows: seq<Row>, now: int, hs: seq<HeatHotspot>, top: seq<HeatHotspot>)
    requires |hs| == |DistinctIds(rows)|
    requires forall k :: 0 <= k < |hs| ==>
      hs[k] == HeatHotspotOf(rows, DistinctIds(rows)[k], LatestPerSensor(rows)[DistinctIds(rows)[k]], now)
    requires multiset(top) <= multiset(hs)
    ensures forall h :: h in top ==> (h.sensorId in SensorIds(rows) &&
      h == HeatHotspotOf(rows, h.sensorId, LatestPerSensor(rows)[h.sensorId], now))
    ensures forall i, j :: 0 <= i < j < |top| ==> top[i].sensorId != top[j].sensorId
  {
    var ids := DistinctIds(rows);
    assert forall k :: 0 <= k < |hs| ==> hs[k].sensorId == ids[k];
    DistinctIdsKept(hs, top, (h: HeatHotspot) => h.sensorId);
    forall h | h in top
      ensures h.sensorId in SensorIds(rows) &&
        h == HeatHotspotOf(rows, h.sensorId, LatestPerSensor(rows)[h.sensorId], now)
    {
      assert h in multiset(top);
      var k :| 0 <= k < |hs| && hs[k] == h;
      assert ids[k] in ids;
    }
  }

  /** A sensor left out of the temperature ranking is no warmer than any listed one. */
  lemma HeatTopIsWarmest(rows: seq<Row>, now: int, topN: nat, s: int)
    requires s in SensorIds(rows)
    requires forall g :: g in HeatHotspotsTop(rows, now, topN) ==> g.sensorId != s
    ensures forall h :: h in HeatHotspotsTop(rows, now, topN) ==>
      KeyAtLeast(HeatKey(h), LatestPerSensor(rows)[s].celsius)
  {
    var latest := LatestPerSensor(rows);
    var ids := DistinctIds(rows);
    var hs := HeatHotspotsAll(rows, now);
    assert HeatHotspotsTop(rows, now, topN) == TopN(hs, HeatKey, topN);
    var k :| 0 <= k < |ids| && ids[k] == s;
    LeftOutRanksLower(hs, ids, (h: HeatHotspot) => h.sensorId, HeatKey, topN, k);
    var cool := latest[s].celsius;
    assert hs[k] == HeatHotspotOf(rows, s, latest[s], now);
    assert HeatKey(hs[k]) == cool;
  }

  datatype TemperatureReport = TemperatureReport(
    elevatedC: real,
    highC: real,
    cityNow: CityNow,
    heatRiskSeries24h: seq<RiskPoint>,
    topHotspotsNow: seq<HeatHotspot>,
    cityTrend24h: Trend,
    series24h: seq<Point>)

  /** The `/dashboard/temperature` handler defined last in the file, which
      the router never reaches (see `Routing`). A 422 for an out-of-range
      `top_n`, then a 500 for a failed fetch, otherwise the report. */
  function TemperatureDashboard(fetched: Option<seq<Row>>, now: int, topN: int)
    : (r: Result<TemperatureReport, HttpError>)
    ensures r.Failure? <==> topN < MinTopN || topN > MaxTopN || fetched.None?
    ensures topN < MinTopN || topN > MaxTopN ==> r.Failure? && r.error.status == 422
    ensures MinTopN <= topN <= MaxTopN && fetched.None? ==> r.Failure? && r.error.status == 500
    ensures r.Success? ==> r.value == TemperatureReportOf(fetched.value, now, topN)
  {
    if topN < MinTopN || topN > MaxTopN then
      Failure(HttpError(422, "top_n must be between 1 and 25"))
    else if fetched.None? then
      Failure(HttpError(500, "Supabase query failed"))
    else
      Success(TemperatureReportOf(fetched.value, now, topN))
  }

  /** The report of that handler for a valid `top_n`: the city's current
      heat risk with exact sensor counts, the 25-entry hourly heat-risk
      series, the `top_n` warmest sensors (or all of them when there are
      fewer), each once and built from its own newest row, warmest first with
      sensors lacking a temperature last, and the city trend, which equals
      the trend over all rows. */
  function TemperatureReportOf(rows: seq<Row>, now: int, topN: nat): (rep: TemperatureReport)
    ensures rep.elevatedC == HeatElevatedC && rep.highC == HeatHighC
    ensures rep.cityNow == CityNowOfRows(rows)
    ensures rep.cityNow.totalReportingSensors == |ReportingNow(rows)|
    ensures rep.cityNow.highSensors == |SensorsNowAt(rows, High)|
    ensures rep.cityNow.elevatedSensors == |SensorsNowAt(rows, Elevated)|
    ensures rep.cityNow.riskLabel == HeatRiskLabel(rep.cityNow.meanC)
    ensures rep.cityNow.meanC.None? <==> rep.cityNow.totalReportingSensors == 0
    ensures rep.heatRiskSeries24h == HeatRiskSeries24h(rows, now) && |rep.heatRiskSeries24h| == 25
    ensures rep.topHotspotsNow == HeatHotspotsTop(rows, now, topN)
    ensures |rep.topHotspotsNow| == if topN < |SensorIds(rows)| then topN else |SensorIds(rows)|
    ensures SortedDesc(rep.topHotspotsNow, HeatKey)
    ensures rep.cityTrend24h == Trend24h(MeansAround(rows, Celsius, now))
    ensures rep.series24h == BucketSeries(rows, Celsius, now, 24)
  {
    var city := CityNowOfRows(rows);
    var risk := HeatRiskSeries24h(rows, now);
    var top := HeatHotspotsTop(rows, now, topN);
    CityMeansUnaffectedByFilter(rows, Celsius, now);
    TemperatureReport(
      HeatElevatedC, HeatHighC, city, risk, top,
      Trend24h(MeansAround(WithReading(rows, Celsius), Celsius, now)),
      BucketSeries(rows, Celsius, now, 24))
  }

  datatype TemperatureTrendReport = TemperatureTrendReport(
    elevatedC: real,
    highC: real,
    topHotspotsNow: seq<TrendedHeatHotspot>,
    cityTrend6h: Trend,
    cityTrend24h: Trend,
    series24h: seq<Point>)

  /** The `/dashboard/temperature` handler registered first, the one the
      router serves. A 422 for an out-of-range `top_n`, then a 500 for a
      failed fetch, otherwise the report. */
  function TemperatureTrendDashboard(fetched: Option<seq<Row>>, now: int, topN: int)
    : (r: Result<TemperatureTrendReport, HttpError>)
    ensures r.Failure? <==> topN < MinTopN || topN > MaxTopN || fetched.None?
    ensures topN < MinTopN || topN > MaxTopN ==> r.Failure? && r.error.status == 422
    ensures MinTopN <= topN <= MaxTopN && fetched.None? ==> r.Failure? && r.error.status == 500
    ensures r.Success? ==> r.value == TemperatureTrendReportOf(fetched.value, now, topN)
  {
    if topN < MinTopN || topN > MaxTopN then
      Failure(HttpError(422, "top_n must be between 1 and 25"))
    else if fetched.None? then
      Failure(HttpError(500, "Supabase query failed"))
    else
      Success(TemperatureTrendReportOf(fetched.value, now, topN))
  }

  /** Its report for a valid `top_n`: the `top_n` warmest sensors (or all of
      them when there are fewer), each once, each the hotspot of its own
      newest row with its 6-hour and 24-hour trends, warmest first; and the
      city's 6-hour and 24-hour trends, which equal those over all rows. */
  function TemperatureTrendReportOf(rows: seq<Row>, now: int, topN: nat): (rep: TemperatureTrendReport)
    ensures rep.elevatedC == HeatElevatedC && rep.highC == HeatHighC
    ensures |rep.topHotspotsNow| == if topN < |SensorIds(rows)| then topN else |SensorIds(rows)|
    ensures SortedDesc(rep.topHotspotsNow, TrendedKey)
    ensures rep.topHotspotsNow == TrendedHotspotsTop(rows, now, topN)
    ensures rep.cityTrend6h == Trend6h(MeansAround(rows, Celsius, now))
    ensures rep.cityTrend24h == Trend24h(MeansAround(rows, Celsius, now))
    ensures rep.series24h == BucketSeries(rows, Celsius, now, 24)
  {
    CityMeansUnaffectedByFilter(rows, Celsius, now);
    var wm := MeansAround(WithReading(rows, Celsius), Celsius, now);
    var top := TrendedHotspotsTop(rows, now, topN);
    TemperatureTrendReport(
      HeatElevatedC, HeatHighC, top,
      Trend6h(wm), Trend24h(wm), BucketSeries(rows, Celsius, now, 24))
  }

  /** The hotspot loop of the first handler over every sensor of `rows`,
      in first-seen order. */
  function TrendedHotspotsAll(rows: seq<Row>, now: int): (hs: seq<TrendedHeatHotspot>)
    ensures |hs| == |DistinctIds(rows)| == |SensorIds(rows)|
    ensures forall k :: 0 <= k < |hs| ==>
      hs[k] == TrendedHeatHotspotOf(rows, DistinctIds(rows)[k], LatestPerSensor(rows)[DistinctIds(rows)[k]], now)
  {
    var latest := LatestPerSensor(rows);
    var ids := DistinctIds(rows);
    IdsHaveLatest(rows, ids, latest);
    DistinctIdsCount(rows);
    TrendedHeatLoop(rows, ids, latest, now)
  }

  /** The hotspot list of the first handler, ranked as the later one's; ties and
      the cut are fixed by `TrendedTopStable`. */
  function TrendedHotspotsTop(rows: seq<Row>, now: int, topN: nat): (top: seq<TrendedHeatHotspot>)
    ensures |top| == if topN < |SensorIds(rows)| then topN else |SensorIds(rows)|
    ensures SortedDesc(top, TrendedKey)
    ensures forall h :: h in top ==> (h.spot.sensorId in SensorIds(rows) &&
      h == TrendedHeatHotspotOf(rows, h.spot.sensorId, LatestPerSensor(rows)[h.spot.sensorId], now))
    ensures forall i, j :: 0 <= i < j < |top| ==> top[i].spot.sensorId != top[j].spot.sensorId
  {
    DistinctIdsCount(rows);
    var latest := LatestPerSensor(rows);
    var ids := DistinctIds(rows);
    IdsHaveLatest(rows, ids, latest);
    var hs := TrendedHeatLoop(rows, ids, latest, now);
    var top := TopN(hs, TrendedKey, topN);
    assert multiset(top) <= multiset(hs) by { TopNKeepsBest(hs, TrendedKey, topN); }
    TrendedTopFacts(rows, now, hs, top);
    top
  }

  /** The ranking is the stable descending sort of the per-sensor list cut
      to its length: sensors with equal temperatures keep first-seen order,
      and the cut keeps the earliest of them. */
  lemma TrendedTopStable(rows: seq<Row>, now: int, topN: nat)
    ensures TrendedHotspotsTop(rows, now, topN) == SortDesc(TrendedHotspotsAll(rows, now), TrendedKey)[..|TrendedHotspotsTop(rows, now, topN)|]
    ensures forall k :: WithKey(TrendedHotspotsTop(rows, now, topN), TrendedKey, k) <= WithKey(TrendedHotspotsAll(rows, now), TrendedKey, k)
  {
    assert TrendedHotspotsTop(rows, now, topN) == TopN(TrendedHotspotsAll(rows, now), TrendedKey, topN);
  }

  lemma TrendedTopFacts(rows: seq<Row>, now: int, hs: seq<TrendedHeatHotspot>, top: seq<TrendedHeatHotspot>)
    requires |hs| == |DistinctIds(rows)|
    requires forall k :: 0 <= k < |hs| ==>
      hs[k] == TrendedHeatHotspotOf(rows, DistinctIds(rows)[k], LatestPerSensor(rows)[DistinctIds(rows)[k]], now)
    requires multiset(top) <= multiset(hs)
    ensures forall h :: h in top ==> (h.spot.sensorId in SensorIds(rows) &&
      h == TrendedHeatHotspotOf(rows, h.spot.sensorId, LatestPerSensor(rows)[h.spot.sensorId], now))
    ensures forall i, j :: 0 <= i < j < |top| ==> top[i].spot.sensorId != top[j].spot.sensorId
  {
    var ids := DistinctIds(rows);
    assert forall k :: 0 <= k < |hs| ==> hs[k].spot.sensorId == ids[k];
    DistinctIdsKept(hs, top, (h: TrendedHeatHotspot) => h.spot.sensorId);
    forall h | h in top
      ensures h.spot.sensorId in SensorIds(rows) &&
        h == TrendedHeatHotspotOf(rows, h.spot.sensorId, LatestPerSensor(rows)[h.spot.sensorId], now)
    {
      assert h in multiset(top);
      var k :| 0 <= k < |hs| && hs[k] == h;
      assert ids[k] in ids;
    }
  }
}
