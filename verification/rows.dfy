/** A row of the `sensor_data_backup` table as the handlers receive it, and
    the per-sensor views of a list of rows that several handlers share. */
module Rows {
  import opened Wrappers

  /** One stored bucket record. `tsUtc` and `createdAt` are already-parsed
      instants in epoch seconds (`None` when missing or not parseable); every
      other optional column is `None` when the row holds no value. */
  datatype Row = Row(
    sensorId: int,
    locationName: Option<string>,
    lat: Option<real>,
    lon: Option<real>,
    tsUtc: Option<int>,
    createdAt: Option<int>,
    averageDb: Option<real>,
    maxDb: Option<real>,
    celsius: Option<real>)

  /** The error a handler raises as an `HTTPException`. */
  datatype HttpError = HttpError(status: int, detail: string)

  /** The reading column a computation is asked about (the `key` argument). */
  datatype Field = Celsius | AverageDb

  function Reading(r: Row, f: Field): Option<real> {
    match f
    case Celsius => r.celsius
    case AverageDb => r.averageDb
  }

  /** `lr.get("ts_utc") or lr.get("created_at")`. */
  function LastUpdate(r: Row): (t: Option<int>)
    ensures r.tsUtc.Some? ==> t == r.tsUtc
    ensures r.tsUtc.None? ==> t == r.createdAt
  {
    if r.tsUtc.Some? then r.tsUtc else r.createdAt
  }

  /** Decimal digits of a natural number, most significant first. */
  function Digits(n: nat): (s: string)
    ensures |s| > 0
    ensures forall i :: 0 <= i < |s| ==> '0' <= s[i] <= '9'
    decreases n
  {
    var d := [(48 + n % 10) as char];
    if n < 10 then d else Digits(n / 10) + d
  }

  /** The number a string of decimal digits spells, most significant first. */
  function DecimalValue(s: string): nat
    requires forall i :: 0 <= i < |s| ==> '0' <= s[i] <= '9'
  {
    if |s| == 0 then 0
    else DecimalValue(s[..|s| - 1]) * 10 + (s[|s| - 1] as int - 48)
  }

  /** `Digits` spells out its argument. */
  lemma {:induction false} DigitsValue(n: nat)
    ensures DecimalValue(Digits(n)) == n
  {
    var d := [(48 + n % 10) as char];
    if n >= 10 {
      var s := Digits(n);
      assert s == Digits(n / 10) + d;
      assert s[..|s| - 1] == Digits(n / 10);
      DigitsValue(n / 10);
    }
  }

  /** Python's `str` of an integer. */
  function IntToString(n: int): string {
    if n < 0 then "-" + Digits(-n) else Digits(n)
  }

  /** `lr.get("location_name") or f"Sensor {sid}"`: an empty or missing name
      falls back to a generated label. */
  function DisplayName(r: Row): (name: string)
    ensures |name| > 0
    ensures r.locationName.Some? && |r.locationName.value| > 0 ==> name == r.locationName.value
    ensures r.locationName.None? || |r.locationName.value| == 0 ==>
      name == "Sensor " + IntToString(r.sensorId)
  {
    if r.locationName.Some? && |r.locationName.value| > 0 then r.locationName.value
    else "Sensor " + IntToString(r.sensorId)
  }

  /** The sensor ids that occur in `rows`. */
  function SensorIds(rows: seq<Row>): set<int> {
    set r | r in rows :: r.sensorId
  }

  ghost predicate NoDup(xs: seq<int>) {
    forall i, j :: 0 <= i < j < |xs| ==> xs[i] != xs[j]
  }

  /** The rows of sensor `s`, in input order (`rows_by_sensor.get(sid, [])`). */
  function ForSensor(rows: seq<Row>, s: int): (out: seq<Row>)
    ensures |out| <= |rows|
    ensures forall r :: r in out <==> r in rows && r.sensorId == s
  {
    if |rows| == 0 then []
    else
      var pre := ForSensor(rows[..|rows| - 1], s);
      var r := rows[|rows| - 1];
      assert rows == rows[..|rows| - 1] + [r];
      if r.sensorId == s then pre + [r] else pre
  }

  /** `ForSensor` is an order-preserving filter: it distributes over
      concatenation, so each row is kept once, in place. */
  lemma {:induction false} ForSensorAppend(a: seq<Row>, b: seq<Row>, s: int)
    ensures ForSensor(a + b, s) == ForSensor(a, s) + ForSensor(b, s)
    decreases |b|
  {
    if |b| == 0 {
      assert a + b == a;
    } else {
      var pre := b[..|b| - 1];
      var r := b[|b| - 1];
      var last := if r.sensorId == s then [r] else [];
      calc {
        ForSensor(a + b, s);
        { assert a + b == (a + pre) + [r]; }
        ForSensor((a + pre) + [r], s);
        { ForSensorSnoc(a + pre, r, s); }
        ForSensor(a + pre, s) + last;
        { ForSensorAppend(a, pre, s); }
        (ForSensor(a, s) + ForSensor(pre, s)) + last;
        ForSensor(a, s) + (ForSensor(pre, s) + last);
        { assert b == pre + [r]; ForSensorSnoc(pre, r, s); }
        ForSensor(a, s) + ForSensor(b, s);
      }
    }
  }

  lemma ForSensorSnoc(pre: seq<Row>, r: Row, s: int)
    ensures ForSensor(pre + [r], s) == ForSensor(pre, s) + (if r.sensorId == s then [r] else [])
  {
    assert (pre + [r])[..|pre|] == pre;
  }

  /** A single row is kept exactly when it belongs to the sensor. */
  lemma ForSensorSingle(r: Row, s: int)
    ensures ForSensor([r], s) == if r.sensorId == s then [r] else []
  {
    assert [r][..0] == [];
  }

  /** The sensor ids of `rows` in order of first appearance: the key order of
      a Python dict filled row by row. */
  function DistinctIds(rows: seq<Row>): (ids: seq<int>)
    ensures NoDup(ids)
    ensures forall s :: s in ids <==> s in SensorIds(rows)
    ensures |ids| <= |rows|
  {
    if |rows| == 0 then []
    else
      var pre := DistinctIds(rows[..|rows| - 1]);
      var r := rows[|rows| - 1];
      assert rows == rows[..|rows| - 1] + [r];
      if r.sensorId in pre then pre else pre + [r.sensorId]
  }

  /** The ids are listed in order of first appearance: every row of a later
      listed sensor comes after some row of each earlier listed one. */
  lemma {:induction false} DistinctIdsFirstSeen(rows: seq<Row>, i: int, j: int, q: int)
    requires 0 <= i < j < |DistinctIds(rows)|
    requires 0 <= q < |rows| && rows[q].sensorId == DistinctIds(rows)[j]
    ensures exists p :: 0 <= p < q && rows[p].sensorId == DistinctIds(rows)[i]
  {
    var pre := rows[..|rows| - 1];
    var r := rows[|rows| - 1];
    var ids := DistinctIds(rows);
    var idsPre := DistinctIds(pre);
    assert rows == pre + [r];
    assert ids[..|idsPre|] == idsPre;
    if q == |rows| - 1 {
      assert i < |idsPre|;
      assert idsPre[i] in SensorIds(pre);
      var x :| x in pre && x.sensorId == idsPre[i];
      var p :| 0 <= p < |pre| && pre[p] == x;
      assert rows[p] == x;
    } else {
      assert rows[q] == pre[q];
      assert pre[q] in pre;
      if j < |idsPre| {
        DistinctIdsFirstSeen(pre, i, j, q);
        var p :| 0 <= p < q && pre[p].sensorId == idsPre[i];
        assert rows[p] == pre[p];
      }
    }
  }

  /** A duplicate-free sequence has as many elements as its set. */
  lemma {:induction false} NoDupCard(xs: seq<int>)
    requires NoDup(xs)
    ensures |set x | x in xs| == |xs|
  {
    if |xs| > 0 {
      var pre := xs[..|xs| - 1];
      var x := xs[|xs| - 1];
      NoDupCard(pre);
      assert (set y | y in xs) == (set y | y in pre) + {x};
      assert x !in pre;
    }
  }

  /** A sensor's rows are counted once each: there are as many distinct
      sensors as `DistinctIds` lists. */
  lemma DistinctIdsCount(rows: seq<Row>)
    ensures |DistinctIds(rows)| == |SensorIds(rows)|
  {
    var ids := DistinctIds(rows);
    NoDupCard(ids);
    assert (set x | x in ids) == SensorIds(rows);
  }
}
