/** `_window_means`: means of one reading column over the last and the
    previous 6 hours and the last and the previous 24 hours before `now`.
    Both ends of every window are inclusive. */
module Windows {
  import opened Wrappers
  import opened Stats
  import opened Rows
  import opened Classify

  const HourSecs: int := 3600

  /** A row contributes to the window `[start, end]` when it has a timestamp
      inside it (both ends included) and a value in column `f`. */
  predicate InWindow(r: Row, f: Field, start: int, end: int) {
    r.tsUtc.Some? && start <= r.tsUtc.value <= end && Reading(r, f).Some?
  }

  /** The values `mean_in` collects, in input order. */
  function WindowValues(rows: seq<Row>, f: Field, start: int, end: int): (vals: seq<real>)
    ensures |vals| <= |rows|
    ensures forall v :: v in vals <==>
      exists r :: r in rows && InWindow(r, f, start, end) && Reading(r, f) == Some(v)
  {
    if |rows| == 0 then []
    else
      var pre := rows[..|rows| - 1];
      var r := rows[|rows| - 1];
      assert rows == pre + [r];
      var vals := WindowValues(pre, f, start, end);
      if InWindow(r, f, start, end) then vals + [Reading(r, f).value] else vals
  }

  /** `WindowValues` is an order-preserving filter: it distributes over
      concatenation, so every contributing row adds its value once, in place. */
  lemma {:induction false} WindowValuesAppend(a: seq<Row>, b: seq<Row>, f: Field, start: int, end: int)
    ensures WindowValues(a + b, f, start, end) == WindowValues(a, f, start, end) + WindowValues(b, f, start, end)
    decreases |b|
  {
    if |b| == 0 {
      assert a + b == a;
    } else {
      var pre := b[..|b| - 1];
      var r := b[|b| - 1];
      var last := if InWindow(r, f, start, end) then [Reading(r, f).value] else [];
      calc {
        WindowValues(a + b, f, start, end);
        { assert a + b == (a + pre) + [r]; }
        WindowValues((a + pre) + [r], f, start, end);
        { WindowValuesSnoc(a + pre, r, f, start, end); }
        WindowValues(a + pre, f, start, end) + last;
        { WindowValuesAppend(a, pre, f, start, end); }
        (WindowValues(a, f, start, end) + WindowValues(pre, f, start, end)) + last;
        WindowValues(a, f, start, end) + (WindowValues(pre, f, start, end) + last);
        { assert b == pre + [r]; WindowValuesSnoc(pre, r, f, start, end); }
        WindowValues(a, f, start, end) + WindowValues(b, f, start, end);
      }
    }
  }

  lemma WindowValuesSnoc(pre: seq<Row>, r: Row, f: Field, start: int, end: int)
    ensures WindowValues(pre + [r], f, start, end) ==
      WindowValues(pre, f, start, end) + (if InWindow(r, f, start, end) then [Reading(r, f).value] else [])
  {
    assert (pre + [r])[..|pre|] == pre;
  }

  /** A single row contributes its value exactly when it lies in the window. */
  lemma WindowValuesSingle(r: Row, f: Field, start: int, end: int)
    ensures WindowValues([r], f, start, end) == if InWindow(r, f, start, end) then [Reading(r, f).value] else []
  {
    assert [r][..0] == [];
  }

  /** `mean_in(start, end)`: missing exactly when no row contributes, and
      otherwise `_mean` of the contributing values in input order, so the
      value times their number is their sum. */
  function MeanIn(rows: seq<Row>, f: Field, start: int, end: int): (m: Option<real>)
    ensures m.None? <==> forall r :: r in rows ==> !InWindow(r, f, start, end)
    // Stated for callers, who get the value's properties from the
    // contracts of `Mean` and `WindowValues`.
    ensures m == Mean(WindowValues(rows, f, start, end))
  {
    WindowEmptyIff(rows, f, start, end);
    Mean(WindowValues(rows, f, start, end))
  }

  /** A window has no values exactly when no row contributes. */
  lemma WindowEmptyIff(rows: seq<Row>, f: Field, start: int, end: int)
    ensures |WindowValues(rows, f, start, end)| == 0 <==> forall r :: r in rows ==> !InWindow(r, f, start, end)
  {
    var vals := WindowValues(rows, f, start, end);
    if |vals| == 0 {
      assert forall r :: r in rows && InWindow(r, f, start, end) ==> Reading(r, f).value in vals;
    } else {
      assert vals[0] in vals;
    }
  }

  /** A window mean lies between the least and the greatest contributing value. */
  lemma MeanInBounds(rows: seq<Row>, f: Field, start: int, end: int)
    requires MeanIn(rows, f, start, end).Some?
    ensures exists r :: r in rows && InWindow(r, f, start, end) && Reading(r, f).value <= MeanIn(rows, f, start, end).value
    ensures exists r :: r in rows && InWindow(r, f, start, end) && Reading(r, f).value >= MeanIn(rows, f, start, end).value
  {
    var vals := WindowValues(rows, f, start, end);
    assert MeanIn(rows, f, start, end) == Mean(vals);
    MinIsLeast(vals);
    MaxIsGreatest(vals);
  }

  /** The four window means of `_window_means`. */
  datatype WindowMeans = WindowMeans(
    last6: Option<real>, prev6: Option<real>, last24: Option<real>, prev24: Option<real>)

  /** The means of the last 6 hours, the 6 hours before, the last 24 hours
      and the 24 hours before, each window closed at both ends and the
      previous window ending where the last one starts. */
  function MeansAround(rows: seq<Row>, f: Field, now: int): (w: WindowMeans)
    ensures w.last6 == Mean(WindowValues(rows, f, now - 6 * HourSecs, now))
    ensures w.prev6 == Mean(WindowValues(rows, f, now - 12 * HourSecs, now - 6 * HourSecs))
    ensures w.last24 == Mean(WindowValues(rows, f, now - 24 * HourSecs, now))
    ensures w.prev24 == Mean(WindowValues(rows, f, now - 48 * HourSecs, now - 24 * HourSecs))
  {
    WindowMeans(
      MeanIn(rows, f, now - 6 * HourSecs, now),
      MeanIn(rows, f, now - 12 * HourSecs, now - 6 * HourSecs),
      MeanIn(rows, f, now - 24 * HourSecs, now),
      MeanIn(rows, f, now - 48 * HourSecs, now - 24 * HourSecs))
  }

  /** The 6-hour trend the first temperature handler reports. */
  function Trend6h(w: WindowMeans): Trend {
    TrendLabel(w.last6, w.prev6, TrendEps)
  }

  /** The 24-hour trend every dashboard reports. */
  function Trend24h(w: WindowMeans): Trend {
    TrendLabel(w.last24, w.prev24, TrendEps)
  }

  /** A reading exactly 6 hours old lies in both 6-hour windows, and one
      exactly 24 hours old in both 24-hour windows, so neither mean of the
      pair can be missing. */
  lemma BoundaryReadingCountsTwice(rows: seq<Row>, f: Field, now: int, r: Row)
    requires r in rows && Reading(r, f).Some?
    ensures r.tsUtc == Some(now - 6 * HourSecs) ==>
      MeansAround(rows, f, now).last6.Some? && MeansAround(rows, f, now).prev6.Some?
    ensures r.tsUtc == Some(now - 24 * HourSecs) ==>
      MeansAround(rows, f, now).last24.Some? && MeansAround(rows, f, now).prev24.Some?
  {
    assert InWindow(r, f, now - 6 * HourSecs, now) <==> r.tsUtc.Some? && now - 6 * HourSecs <= r.tsUtc.value <= now;
  }

  /** A single reading on the 6-hour boundary is the whole of both 6-hour means. */
  lemma SingleBoundaryReading(r: Row, f: Field, now: int)
    requires r.tsUtc == Some(now - 6 * HourSecs) && Reading(r, f).Some?
    ensures MeansAround([r], f, now).last6 == Some(Reading(r, f).value)
    ensures MeansAround([r], f, now).prev6 == Some(Reading(r, f).value)
  {
    var v := Reading(r, f).value;
    assert WindowValues([r], f, now - 6 * HourSecs, now) == [v] by {
      assert [r][..0] == [];
    }
    assert WindowValues([r], f, now - 12 * HourSecs, now - 6 * HourSecs) == [v] by {
      assert [r][..0] == [];
    }
    MeanOfConstant([v], v);
  }

  /** The rows that have a value in column `f`
      (`[r for r in rows if r.get(key) is not None]`). */
  function WithReading(rows: seq<Row>, f: Field): (out: seq<Row>)
    ensures forall r :: r in out <==> r in rows && Reading(r, f).Some?
  {
    if |rows| == 0 then []
    else
      var pre := rows[..|rows| - 1];
      var r := rows[|rows| - 1];
      assert rows == pre + [r];
      if Reading(r, f).Some? then WithReading(pre, f) + [r] else WithReading(pre, f)
  }

  /** The rows that have both a timestamp and a value in column `f`. */
  function Complete(rows: seq<Row>, f: Field): (out: seq<Row>)
    ensures forall r :: r in out <==> r in rows && r.tsUtc.Some? && Reading(r, f).Some?
  {
    if |rows| == 0 then []
    else
      var pre := rows[..|rows| - 1];
      var r := rows[|rows| - 1];
      assert rows == pre + [r];
      if r.tsUtc.Some? && Reading(r, f).Some? then Complete(pre, f) + [r] else Complete(pre, f)
  }

  /** Rows without a timestamp or without a value never contribute: removing
      them leaves every window's values, in order, unchanged. */
  lemma {:induction false} IncompleteRowsIgnored(rows: seq<Row>, f: Field, start: int, end: int)
    ensures WindowValues(Complete(rows, f), f, start, end) == WindowValues(rows, f, start, end)
    ensures WindowValues(WithReading(rows, f), f, start, end) == WindowValues(rows, f, start, end)
  {
    if |rows| > 0 {
      var pre := rows[..|rows| - 1];
      var r := rows[|rows| - 1];
      IncompleteRowsIgnored(pre, f, start, end);
      var c := Complete(pre, f);
      var w := WithReading(pre, f);
      if r.tsUtc.Some? && Reading(r, f).Some? {
        assert (c + [r])[..|c + [r]| - 1] == c;
      }
      if Reading(r, f).Some? {
        assert (w + [r])[..|w + [r]| - 1] == w;
      }
    }
  }

  /** The city-wide trend, computed on the rows that have a value, equals the
      trend over all rows. */
  lemma CityMeansUnaffectedByFilter(rows: seq<Row>, f: Field, now: int)
    ensures MeansAround(WithReading(rows, f), f, now) == MeansAround(rows, f, now)
  {
    IncompleteRowsIgnored(rows, f, now - 6 * HourSecs, now);
    IncompleteRowsIgnored(rows, f, now - 12 * HourSecs, now - 6 * HourSecs);
    IncompleteRowsIgnored(rows, f, now - 24 * HourSecs, now);
    IncompleteRowsIgnored(rows, f, now - 48 * HourSecs, now - 24 * HourSecs);
  }
}
