/** The range endpoints `/sensor-data/range` and `/sensor-data/series`:
    parameter validation and the grouping of the result rows by sensor. */
module RangeQuery {
  import opened Wrappers
  import opened Rows

  /** The column a range is taken over (`pattern="^(ts_utc|created_at)$"`). */
  datatype TimeColumn = TsUtcColumn | CreatedAtColumn

  function ColumnName(c: TimeColumn): string {
    match c
    case TsUtcColumn => "ts_utc"
    case CreatedAtColumn => "created_at"
  }

  /** Query-parameter validation of `time_column`: exactly the two column
      names are accepted; anything else is a 422 validation error. */
  function ParseTimeColumn(s: string): (r: Result<TimeColumn, HttpError>)
    ensures r.Success? <==> s == "ts_utc" || s == "created_at"
    ensures r.Success? ==> ColumnName(r.value) == s
    ensures r.Failure? ==> r.error.status == 422
  {
    if s == "ts_utc" then Success(TsUtcColumn)
    else if s == "created_at" then Success(CreatedAtColumn)
    else Failure(HttpError(422, "time_column must be ts_utc or created_at"))
  }

  /** Parsing a column's name gives the column back. */
  lemma TimeColumnRoundTrip(c: TimeColumn)
    ensures ParseTimeColumn(ColumnName(c)) == Success(c)
  {
  }

  /** The rows of one sensor, in result order. */
  datatype Group = Group(sensorId: int, rows: seq<Row>)

  /** The sensor id of each group, in group order. */
  function GroupIds(groups: seq<Group>): (ids: seq<int>)
    ensures |ids| == |groups|
    ensures forall k :: 0 <= k < |groups| ==> ids[k] == groups[k].sensorId
  {
    if |groups| == 0 then [] else [groups[0].sensorId] + GroupIds(groups[1..])
  }

  /** The number of rows held by all groups together. */
  function TotalSize(groups: seq<Group>): nat {
    if |groups| == 0 then 0 else |groups[0].rows| + TotalSize(groups[1..])
  }

  /** `grouped.setdefault(sid, []).append(row)`: appends `r` to its sensor's
      group, opening a new group at the end for a sensor not seen yet. */
  function AddRow(groups: seq<Group>, r: Row): (out: seq<Group>)
    ensures |out| == if r.sensorId in GroupIds(groups) then |groups| else |groups| + 1
  {
    if |groups| == 0 then [Group(r.sensorId, [r])]
    else if groups[0].sensorId == r.sensorId then [groups[0].(rows := groups[0].rows + [r])] + groups[1..]
    else [groups[0]] + AddRow(groups[1..], r)
  }

  /** Adding a row adds exactly one row to the groups' total. */
  lemma {:induction false} AddRowSize(groups: seq<Group>, r: Row)
    ensures TotalSize(AddRow(groups, r)) == TotalSize(groups) + 1
  {
    if |groups| > 0 && groups[0].sensorId != r.sensorId {
      AddRowSize(groups[1..], r);
      assert AddRow(groups, r)[1..] == AddRow(groups[1..], r);
    } else if |groups| > 0 {
      assert AddRow(groups, r)[1..] == groups[1..];
    }
  }

  /** Adding a row opens a group, at the end, only for a sensor not seen yet. */
  lemma {:induction false} AddRowIds(groups: seq<Group>, r: Row)
    ensures GroupIds(AddRow(groups, r)) ==
      if r.sensorId in GroupIds(groups) then GroupIds(groups) else GroupIds(groups) + [r.sensorId]
  {
    var out := AddRow(groups, r);
    if |groups| > 0 {
      assert GroupIds(groups) == [groups[0].sensorId] + GroupIds(groups[1..]);
      if groups[0].sensorId != r.sensorId {
        AddRowIds(groups[1..], r);
        assert out[1..] == AddRow(groups[1..], r);
      } else {
        assert out[1..] == groups[1..];
      }
    }
  }

  /** Adding a row extends its own sensor's group and no other. */
  lemma {:induction false} AddRowRows(groups: seq<Group>, r: Row)
    requires NoDup(GroupIds(groups))
    ensures forall k :: 0 <= k < |groups| ==> AddRow(groups, r)[k] == Grown(groups[k], r)
    ensures |AddRow(groups, r)| > |groups| ==>
      AddRow(groups, r)[|groups|] == Group(r.sensorId, [r])
  {
    if |groups| > 0 {
      var ids := GroupIds(groups);
      if groups[0].sensorId != r.sensorId {
        assert GroupIds(groups[1..]) == ids[1..];
        AddRowRows(groups[1..], r);
        ConsGrown(groups, r, AddRow(groups[1..], r));
      } else {
        HeadGrown(groups, r);
      }
    }
  }

  /** Group `g` after `r` is added: `r` joins the end of its own sensor's group. */
  function Grown(g: Group, r: Row): (out: Group)
    ensures out.sensorId == g.sensorId
    ensures r.sensorId != g.sensorId ==> out == g
    ensures r.sensorId == g.sensorId ==> out.rows == g.rows + [r]
  {
    if g.sensorId == r.sensorId then g.(rows := g.rows + [r]) else g
  }

  lemma ConsGrown(groups: seq<Group>, r: Row, rest: seq<Group>)
    requires |groups| > 0 && groups[0].sensorId != r.sensorId
    requires rest == AddRow(groups[1..], r)
    requires forall k :: 0 <= k < |groups| - 1 ==> rest[k] == Grown(groups[1..][k], r)
    requires |rest| > |groups| - 1 ==> rest[|groups| - 1] == Group(r.sensorId, [r])
    ensures forall k :: 0 <= k < |groups| ==> AddRow(groups, r)[k] == Grown(groups[k], r)
    ensures |AddRow(groups, r)| > |groups| ==>
      AddRow(groups, r)[|groups|] == Group(r.sensorId, [r])
  {
    var out := AddRow(groups, r);
    assert out == [groups[0]] + rest;
    forall k | 0 <= k < |groups|
      ensures out[k] == Grown(groups[k], r)
    {
      if k > 0 {
        assert out[k] == rest[k - 1];
        assert groups[1..][k - 1] == groups[k];
      }
    }
  }

  lemma HeadGrown(groups: seq<Group>, r: Row)
    requires NoDup(GroupIds(groups))
    requires |groups| > 0 && groups[0].sensorId == r.sensorId
    ensures forall k :: 0 <= k < |groups| ==> AddRow(groups, r)[k] == Grown(groups[k], r)
    ensures |AddRow(groups, r)| == |groups|
  {
    var ids := GroupIds(groups);
    var out := AddRow(groups, r);
    forall k | 1 <= k < |groups|
      ensures out[k] == Grown(groups[k], r)
    {
      assert ids[k] != ids[0];
      assert out[k] == groups[k];
    }
  }

  /** The grouping loop of `/sensor-data/range`. */
  function GroupBySensor(rows: seq<Row>): seq<Group> {
    if |rows| == 0 then []
    else AddRow(GroupBySensor(rows[..|rows| - 1]), rows[|rows| - 1])
  }

  /** Every group holds exactly its sensor's rows of `rows`, in input order. */
  ghost predicate GroupsMatch(rows: seq<Row>, groups: seq<Group>) {
    forall k :: 0 <= k < |groups| ==> groups[k].rows == ForSensor(rows, groups[k].sensorId)
  }

  /** The groups are one per sensor in order of first appearance, each holds
      exactly that sensor's rows in input order, and together they hold
      every row once. */
  lemma {:induction false} GroupBySensorFacts(rows: seq<Row>)
    ensures GroupIds(GroupBySensor(rows)) == DistinctIds(rows)
    ensures GroupsMatch(rows, GroupBySensor(rows))
    ensures TotalSize(GroupBySensor(rows)) == |rows|
  {
    if |rows| > 0 {
      var pre := rows[..|rows| - 1];
      var r := rows[|rows| - 1];
      var g := GroupBySensor(pre);
      GroupBySensorFacts(pre);
      AddRowSize(g, r);
      AddRowIds(g, r);
      AddRowRows(g, r);
      assert |AddRow(g, r)| > |g| ==> r.sensorId !in SensorIds(pre);
      GroupRowsStep(rows, pre, r, g, AddRow(g, r));
    }
  }

  /** One step of the grouping loop keeps every group equal to its sensor's rows. */
  lemma GroupRowsStep(rows: seq<Row>, pre: seq<Row>, r: Row, g: seq<Group>, out: seq<Group>)
    requires |rows| > 0 && pre == rows[..|rows| - 1] && r == rows[|rows| - 1]
    requires GroupsMatch(pre, g)
    requires |out| == |g| || (|out| == |g| + 1 && r.sensorId !in SensorIds(pre))
    requires forall k :: 0 <= k < |g| ==> out[k] == Grown(g[k], r)
    requires |out| > |g| ==> out[|g|] == Group(r.sensorId, [r])
    ensures GroupsMatch(rows, out)
  {
    forall k | 0 <= k < |out|
      ensures out[k].rows == ForSensor(rows, out[k].sensorId)
    {
      if k < |g| {
        var gk := g[k];
        assert gk.rows == ForSensor(pre, gk.sensorId);
        GrownMatches(rows, pre, r, gk);
      } else {
        NewGroupMatches(rows, pre, r);
      }
    }
  }

  /** A group that matched before the step still matches after it. */
  lemma GrownMatches(rows: seq<Row>, pre: seq<Row>, r: Row, gk: Group)
    requires |rows| > 0 && pre == rows[..|rows| - 1] && r == rows[|rows| - 1]
    requires gk.rows == ForSensor(pre, gk.sensorId)
    ensures Grown(gk, r).rows == ForSensor(rows, gk.sensorId)
  {
  }

  /** A sensor that does not occur has no rows. */
  lemma NoRowsOfUnseen(rows: seq<Row>, s: int)
    requires s !in SensorIds(rows)
    ensures ForSensor(rows, s) == []
  {
  }

  /** The first row of a sensor opens a group holding just that row. */
  lemma NewGroupMatches(rows: seq<Row>, pre: seq<Row>, r: Row)
    requires |rows| > 0 && pre == rows[..|rows| - 1] && r == rows[|rows| - 1]
    requires r.sensorId !in SensorIds(pre)
    ensures ForSensor(rows, r.sensorId) == [r]
  {
    NoRowsOfUnseen(pre, r.sensorId);
  }

  datatype RangeResponse = RangeResponse(
    start: int, end: int, timeColumn: TimeColumn, count: nat, bySensor: seq<Group>)

  /** `/sensor-data/range` given the query result `data`: an unknown column
      is rejected first (422), then a start after the end (400), then a
      failed query (500); otherwise the rows are counted and grouped. */
  function SensorDataRange(start: int, end: int, column: string, data: Option<seq<Row>>)
    : (r: Result<RangeResponse, HttpError>)
    ensures r.Failure? && r.error.status == 422 <==> column != "ts_utc" && column != "created_at"
    ensures r.Failure? && r.error.status == 400 <==>
      (column == "ts_utc" || column == "created_at") && start > end
    ensures r.Failure? && r.error.status == 500 <==>
      (column == "ts_utc" || column == "created_at") && start <= end && data.None?
    ensures r.Success? <==> (column == "ts_utc" || column == "created_at") && start <= end && data.Some?
    ensures r.Success? ==>
      r.value.start == start && r.value.end == end && r.value.timeColumn == ParseTimeColumn(column).value
    ensures r.Success? ==> r.value.count == |data.value| == TotalSize(r.value.bySensor)
    ensures r.Success? ==> GroupIds(r.value.bySensor) == DistinctIds(data.value)
    ensures r.Success? ==> forall k :: 0 <= k < |r.value.bySensor| ==>
      r.value.bySensor[k].rows == ForSensor(data.value, r.value.bySensor[k].sensorId)
  {
    match ParseTimeColumn(column)
    case Failure(e) => Failure(e)
    case Success(col) =>
      if start > end then Failure(HttpError(400, "start must be <= end"))
      else if data.None? then Failure(HttpError(500, "Supabase query failed"))
      else
        GroupBySensorFacts(data.value);
        Success(RangeResponse(start, end, col, |data.value|, GroupBySensor(data.value)))
  }

  datatype SeriesResponse = SeriesResponse(
    sensorId: int, start: int, end: int, timeColumn: TimeColumn, count: nat, rows: seq<Row>)

  /** `/sensor-data/series` given the query result `data`: the same
      validation as the range endpoint, then the rows and their count. */
  function SensorSeries(sensorId: int, start: int, end: int, column: string, data: Option<seq<Row>>)
    : (r: Result<SeriesResponse, HttpError>)
    ensures r.Failure? && r.error.status == 422 <==> column != "ts_utc" && column != "created_at"
    ensures r.Failure? && r.error.status == 400 <==>
      (column == "ts_utc" || column == "created_at") && start > end
    ensures r.Failure? && r.error.status == 500 <==>
      (column == "ts_utc" || column == "created_at") && start <= end && data.None?
    ensures r.Success? <==> (column == "ts_utc" || column == "created_at") && start <= end && data.Some?
    ensures r.Success? ==>
      r.value.sensorId == sensorId && r.value.start == start && r.value.end == end && r.value.timeColumn == ParseTimeColumn(column).value
    ensures r.Success? ==> r.value.rows == data.value && r.value.count == |data.value|
  {
    match ParseTimeColumn(column)
    case Failure(e) => Failure(e)
    case Success(col) =>
      if start > end then Failure(HttpError(400, "start must be <= end"))
      else if data.None? then Failure(HttpError(500, "Supabase query failed"))
      else Success(SeriesResponse(sensorId, start, end, col, |data.value|, data.value))
  }
}
