/** Choosing one row per sensor: `_latest_per_sensor` (newest timestamp wins,
    later rows win ties) and the first-row-per-sensor scans of
    `/sensor-data/latest` and `/sensors`, which return rows sorted by id. */
module Selection {
  import opened Wrappers
  import opened Rows

  /** `ts >= prev_ts` read backwards: `a` is not after `b`, where a missing
      timestamp stands for `datetime.min` and so precedes every real one. */
  predicate TsAtMost(a: Option<int>, b: Option<int>) {
    a.None? || (b.Some? && a.value <= b.value)
  }

  /** `_latest_per_sensor`: a row replaces the one kept for its sensor when
      its timestamp is not earlier. */
  function LatestPerSensor(rows: seq<Row>): (latest: map<int, Row>)
    ensures latest.Keys == SensorIds(rows)
    ensures forall s :: s in latest ==> latest[s] in rows && latest[s].sensorId == s
  {
    if |rows| == 0 then map[]
    else
      var pre := rows[..|rows| - 1];
      var r := rows[|rows| - 1];
      assert rows == pre + [r];
      var latest := LatestPerSensor(pre);
      if r.sensorId !in latest || TsAtMost(latest[r.sensorId].tsUtc, r.tsUtc) then
        latest[r.sensorId := r]
      else latest
  }

  /** Row `i` is the newest row of sensor `s`: no row of `s` has a later
      timestamp, and every later row of `s` has a strictly earlier one (so on
      equal timestamps the last such row is chosen). */
  ghost predicate Newest(rows: seq<Row>, s: int, i: int) {
    && 0 <= i < |rows|
    && rows[i].sensorId == s
    && (forall j :: 0 <= j < |rows| && rows[j].sensorId == s ==> TsAtMost(rows[j].tsUtc, rows[i].tsUtc))
    && (forall j :: i < j < |rows| && rows[j].sensorId == s ==> !TsAtMost(rows[i].tsUtc, rows[j].tsUtc))
  }

  /** The row kept for each sensor is its newest row. */
  lemma {:induction false} LatestIsNewest(rows: seq<Row>, s: int) returns (i: int)
    requires s in SensorIds(rows)
    ensures Newest(rows, s, i) && LatestPerSensor(rows)[s] == rows[i]
  {
    var pre := rows[..|rows| - 1];
    var r := rows[|rows| - 1];
    assert rows == pre + [r];
    var latest := LatestPerSensor(pre);
    if s !in SensorIds(pre) {
      assert r.sensorId == s;
      i := |rows| - 1;
      assert forall j :: 0 <= j < |pre| ==> pre[j] in pre;
    } else {
      var k := LatestIsNewest(pre, s);
      if r.sensorId != s {
        i := k;
      } else if TsAtMost(latest[s].tsUtc, r.tsUtc) {
        i := |rows| - 1;
      } else {
        i := k;
      }
    }
  }

  /** At most one row of a sensor is its newest. */
  lemma NewestUnique(rows: seq<Row>, s: int, i: int, k: int)
    requires Newest(rows, s, i) && Newest(rows, s, k)
    ensures i == k
  {
  }

  /** Row `i` is the first row of sensor `s` in `rows`. */
  ghost predicate FirstAt(rows: seq<Row>, s: int, i: int) {
    0 <= i < |rows| && rows[i].sensorId == s &&
    forall j :: 0 <= j < i ==> rows[j].sensorId != s
  }

  /** The scan `if sid not in latest: latest[sid] = row`. */
  function FirstPerSensor(rows: seq<Row>): (first: map<int, Row>)
    ensures first.Keys == SensorIds(rows)
  {
    if |rows| == 0 then map[]
    else
      var pre := rows[..|rows| - 1];
      var r := rows[|rows| - 1];
      assert rows == pre + [r];
      var first := FirstPerSensor(pre);
      if r.sensorId in first then first else first[r.sensorId := r]
  }

  /** The row kept for each sensor is its first row. */
  lemma {:induction false} FirstIsEarliest(rows: seq<Row>, s: int) returns (i: int)
    requires s in SensorIds(rows)
    ensures FirstAt(rows, s, i) && FirstPerSensor(rows)[s] == rows[i]
  {
    var pre := rows[..|rows| - 1];
    var r := rows[|rows| - 1];
    assert rows == pre + [r];
    if s in SensorIds(pre) {
      i := FirstIsEarliest(pre, s);
    } else {
      i := |rows| - 1;
      assert forall j :: 0 <= j < |pre| ==> pre[j] in pre;
    }
  }

  ghost predicate Increasing(xs: seq<int>) {
    forall i, j :: 0 <= i < j < |xs| ==> xs[i] < xs[j]
  }

  /** Inserts `x` into an ascending sequence, keeping it ascending. */
  function InsertSorted(x: int, xs: seq<int>): (out: seq<int>)
    requires Increasing(xs)
    ensures Increasing(out)
    ensures forall y :: y in out <==> y == x || y in xs
  {
    if |xs| == 0 then [x]
    else if x < xs[0] then [x] + xs
    else if x == xs[0] then xs
    else
      var rest := InsertSorted(x, xs[1..]);
      assert forall y :: y in xs <==> y == xs[0] || y in xs[1..];
      ConsIncreasing(xs[0], rest);
      [xs[0]] + rest
  }

  /** Putting a value below every element in front keeps a sequence ascending. */
  lemma ConsIncreasing(x: int, rest: seq<int>)
    requires Increasing(rest)
    requires forall y :: y in rest ==> x < y
    ensures Increasing([x] + rest)
  {
    var out := [x] + rest;
    forall i, j | 0 <= i < j < |out|
      ensures out[i] < out[j]
    {
      assert out[j] == rest[j - 1];
      assert rest[j - 1] in rest;
      if i > 0 {
        assert out[i] == rest[i - 1];
      }
    }
  }

  /** `sorted(latest.keys())`: the sensor ids of `rows` in ascending order. */
  function SortedIds(rows: seq<Row>): (ids: seq<int>)
    ensures Increasing(ids)
    ensures forall s :: s in ids <==> s in SensorIds(rows)
  {
    if |rows| == 0 then []
    else
      var pre := rows[..|rows| - 1];
      assert rows == pre + [rows[|rows| - 1]];
      InsertSorted(rows[|rows| - 1].sensorId, SortedIds(pre))
  }

  lemma IncreasingCard(xs: seq<int>, ids: set<int>)
    requires Increasing(xs)
    requires forall s :: s in xs <==> s in ids
    ensures |xs| == |ids|
  {
    NoDupCard(xs);
    assert (set x | x in xs) == ids;
  }

  /** Rows in strictly ascending sensor-id order. */
  ghost predicate IdsAscending(out: seq<Row>) {
    forall i, j :: 0 <= i < j < |out| ==> out[i].sensorId < out[j].sensorId
  }

  /** Every row of `out` is the first row of its sensor in `rows`. */
  ghost predicate EachFirst(rows: seq<Row>, out: seq<Row>) {
    forall k :: 0 <= k < |out| ==> exists i :: FirstAt(rows, out[k].sensorId, i) && out[k] == rows[i]
  }

  /** Every sensor of `rows`, and no other, has a row in `out`. */
  ghost predicate CoversSensors(rows: seq<Row>, out: seq<Row>) {
    forall s :: s in SensorIds(rows) <==> exists k :: 0 <= k < |out| && out[k].sensorId == s
  }

  /** `[latest[k] for k in sorted(latest.keys())]` after keeping the first row
      of each sensor: one row per sensor, in ascending id order, each the
      first row of its sensor in the input. */
  function FirstRowsById(rows: seq<Row>): (out: seq<Row>)
    ensures |out| == |SensorIds(rows)|
    ensures IdsAscending(out)
    ensures CoversSensors(rows, out)
    ensures EachFirst(rows, out)
  {
    var first := FirstPerSensor(rows);
    var ids := SortedIds(rows);
    var out := seq(|ids|, k requires 0 <= k < |ids| => first[ids[k]]);
    FirstRowsFacts(rows, ids, out);
    out
  }

  lemma FirstRowsFacts(rows: seq<Row>, ids: seq<int>, out: seq<Row>)
    requires ids == SortedIds(rows)
    requires |out| == |ids|
    requires forall k :: 0 <= k < |ids| ==> out[k] == FirstPerSensor(rows)[ids[k]]
    ensures |out| == |SensorIds(rows)|
    ensures IdsAscending(out)
    ensures CoversSensors(rows, out)
    ensures EachFirst(rows, out)
  {
    IncreasingCard(ids, SensorIds(rows));
    forall k | 0 <= k < |out|
      ensures out[k].sensorId == ids[k]
      ensures exists i :: FirstAt(rows, out[k].sensorId, i) && out[k] == rows[i]
    {
      var i := FirstIsEarliest(rows, ids[k]);
    }
    forall s | s in SensorIds(rows)
      ensures exists k :: 0 <= k < |out| && out[k].sensorId == s
    {
      var k :| 0 <= k < |ids| && ids[k] == s;
      assert out[k].sensorId == s;
    }
  }

  datatype LatestResponse = LatestResponse(count: nat, rows: seq<Row>)

  /** `/sensor-data/latest` over the query result `data` (ordered newest
      first by the query): a failed query is a 500 error; otherwise the first
      row of each sensor, sorted by id, and their number. */
  function LatestRows(data: Option<seq<Row>>): (r: Result<LatestResponse, HttpError>)
    ensures r.Failure? <==> data.None?
    ensures r.Failure? ==> r.error.status == 500
    ensures r.Success? ==> r.value.count == |r.value.rows| == |SensorIds(data.value)|
    ensures r.Success? ==> IdsAscending(r.value.rows)
    ensures r.Success? ==> CoversSensors(data.value, r.value.rows)
    ensures r.Success? ==> EachFirst(data.value, r.value.rows)
  {
    match data
    case None => Failure(HttpError(500, "Supabase query failed"))
    case Some(rows) =>
      var out := FirstRowsById(rows);
      Success(LatestResponse(|out|, out))
  }

  /** The per-sensor summary `/sensors` returns. */
  datatype SensorSummary = SensorSummary(
    sensorId: int, locationName: Option<string>, lat: Option<real>, lon: Option<real>)

  function Summary(r: Row): SensorSummary {
    SensorSummary(r.sensorId, r.locationName, r.lat, r.lon)
  }

  /** `out` lists, in ascending id order, the summary of the first row of
      each of its sensors. */
  ghost predicate FirstSummariesById(rows: seq<Row>, out: seq<SensorSummary>) {
    && (forall i, j :: 0 <= i < j < |out| ==> out[i].sensorId < out[j].sensorId)
    && (forall k :: 0 <= k < |out| ==> IsFirstSummary(rows, out[k]))
  }

  /** `sum` summarises the first row of its sensor in `rows`. */
  ghost predicate IsFirstSummary(rows: seq<Row>, sum: SensorSummary) {
    exists i :: FirstAt(rows, sum.sensorId, i) && sum == Summary(rows[i])
  }

  datatype SensorsResponse = SensorsResponse(count: nat, rows: seq<SensorSummary>)

  /** `/sensors`: like `/sensor-data/latest`, but each kept row is reduced to
      its id, location name and coordinates. */
  function ListSensors(data: Option<seq<Row>>): (r: Result<SensorsResponse, HttpError>)
    ensures r.Failure? <==> data.None?
    ensures r.Failure? ==> r.error.status == 500
    ensures r.Success? ==> r.value.count == |r.value.rows| == |SensorIds(data.value)|
    ensures r.Success? ==> FirstSummariesById(data.value, r.value.rows)
  {
    match data
    case None => Failure(HttpError(500, "Supabase query failed"))
    case Some(rows) =>
      var first := FirstRowsById(rows);
      var out := Summaries(first);
      SummaryFacts(rows, first, out);
      Success(SensorsResponse(|out|, out))
  }

  /** The summary of each row, in order. */
  function Summaries(first: seq<Row>): (out: seq<SensorSummary>)
    ensures |out| == |first|
    ensures forall k :: 0 <= k < |first| ==> out[k] == Summary(first[k])
  {
    seq(|first|, k requires 0 <= k < |first| => Summary(first[k]))
  }

  lemma SummaryFacts(rows: seq<Row>, first: seq<Row>, out: seq<SensorSummary>)
    requires EachFirst(rows, first) && IdsAscending(first)
    requires out == Summaries(first)
    ensures FirstSummariesById(rows, out)
  {
    forall k | 0 <= k < |out|
      ensures IsFirstSummary(rows, out[k])
    {
      SummaryAt(rows, first[k], out[k]);
    }
    forall i, j | 0 <= i < j < |out|
      ensures out[i].sensorId < out[j].sensorId
    {
      assert out[i].sensorId == first[i].sensorId;
      assert out[j].sensorId == first[j].sensorId;
      assert first[i].sensorId < first[j].sensorId;
    }
  }

  lemma SummaryAt(rows: seq<Row>, row: Row, sum: SensorSummary)
    requires exists i :: FirstAt(rows, row.sensorId, i) && row == rows[i]
    requires sum == Summary(row)
    ensures IsFirstSummary(rows, sum)
  {
    var i :| FirstAt(rows, row.sensorId, i) && row == rows[i];
    assert FirstAt(rows, sum.sensorId, i) && sum == Summary(rows[i]);
  }
}
