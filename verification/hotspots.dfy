/** The hotspot lists of the noise and temperature dashboards: one entry per
    sensor built from its newest row, the violation sub-list, and the
    ranking `sorted(..., key=(value is not None, value), reverse=True)[:top_n]`. */
module Hotspots {
  import opened Wrappers
  import opened Rows
  import opened Classify
  import opened Windows

  /** Python's order on the sort key `(x is not None, x)`: key `a` is at
      least key `b`. Any value ranks above a missing one; two missing values
      rank equal. */
  predicate KeyAtLeast(a: Option<real>, b: Option<real>) {
    b.None? || (a.Some? && a.value >= b.value)
  }

  /** `s` is in the order of a descending sort on `key`. */
  ghost predicate SortedDesc<T>(s: seq<T>, key: T -> Option<real>) {
    forall i, j :: 0 <= i < j < |s| ==> KeyAtLeast(key(s[i]), key(s[j]))
  }

  /** The elements of `s` whose key is `k`, in order. */
  function WithKey<T>(s: seq<T>, key: T -> Option<real>, k: Option<real>): seq<T> {
    if |s| == 0 then []
    else (if key(s[0]) == k then [s[0]] else []) + WithKey(s[1..], key, k)
  }

  lemma {:induction false} WithKeyAppend<T>(a: seq<T>, b: seq<T>, key: T -> Option<real>, k: Option<real>)
    ensures WithKey(a + b, key, k) == WithKey(a, key, k) + WithKey(b, key, k)
  {
    if |a| > 0 {
      assert (a + b)[0] == a[0];
      assert (a + b)[1..] == a[1..] + b;
      WithKeyAppend(a[1..], b, key, k);
    } else {
      assert a + b == b;
    }
  }

  lemma {:induction false} WithKeyNone<T>(s: seq<T>, key: T -> Option<real>, k: Option<real>)
    requires forall i :: 0 <= i < |s| ==> key(s[i]) != k
    ensures WithKey(s, key, k) == []
  {
    if |s| > 0 {
      WithKeyNone(s[1..], key, k);
    }
  }

  /** Places `x`, which comes after every element of `s` in the input, behind
      all elements whose key is at least its own: the stable position. */
  function InsertDesc<T>(x: T, s: seq<T>, key: T -> Option<real>): (out: seq<T>)
    ensures |out| == |s| + 1
  {
    if |s| == 0 then [x]
    else if KeyAtLeast(key(s[0]), key(x)) then [s[0]] + InsertDesc(x, s[1..], key)
    else [x] + s
  }

  lemma {:induction false} InsertDescMultiset<T>(x: T, s: seq<T>, key: T -> Option<real>)
    ensures multiset(InsertDesc(x, s, key)) == multiset(s) + multiset{x}
  {
    if |s| > 0 && KeyAtLeast(key(s[0]), key(x)) {
      InsertDescMultiset(x, s[1..], key);
      assert s == [s[0]] + s[1..];
    }
  }

  lemma {:induction false} InsertDescSorted<T>(x: T, s: seq<T>, key: T -> Option<real>)
    requires SortedDesc(s, key)
    ensures SortedDesc(InsertDesc(x, s, key), key)
  {
    var out := InsertDesc(x, s, key);
    if |s| > 0 {
      if KeyAtLeast(key(s[0]), key(x)) {
        var rest := InsertDesc(x, s[1..], key);
        InsertDescSorted(x, s[1..], key);
        InsertDescMultiset(x, s[1..], key);
        assert out == [s[0]] + rest;
        forall j | 0 <= j < |rest|
          ensures KeyAtLeast(key(s[0]), key(rest[j]))
        {
          assert rest[j] in multiset(rest);
          assert rest[j] == x || rest[j] in multiset(s[1..]);
          if rest[j] != x {
            assert rest[j] in s[1..];
            var m :| 0 <= m < |s[1..]| && s[1..][m] == rest[j];
            assert s[m + 1] == rest[j];
          }
        }
        assert forall i :: 1 <= i < |out| ==> out[i] == rest[i - 1];
      } else {
        assert out == [x] + s;
        assert forall j :: 0 <= j < |s| ==> KeyAtLeast(key(s[0]), key(s[j]));
      }
    }
  }

  lemma {:induction false} InsertDescStable<T>(x: T, s: seq<T>, key: T -> Option<real>, k: Option<real>)
    requires SortedDesc(s, key)
    ensures WithKey(InsertDesc(x, s, key), key, k) == WithKey(s, key, k) + (if key(x) == k then [x] else [])
  {
    if |s| == 0 {
      WithKeyCons(x, [], key, k);
    } else if KeyAtLeast(key(s[0]), key(x)) {
      SortedTail(s, key);
      InsertDescStable(x, s[1..], key, k);
      StableBehind(x, s, key, k);
    } else {
      StableInFront(x, s, key, k);
    }
  }

  /** The step where `x` passes the head of `s`. */
  lemma StableBehind<T>(x: T, s: seq<T>, key: T -> Option<real>, k: Option<real>)
    requires |s| > 0 && KeyAtLeast(key(s[0]), key(x))
    requires WithKey(InsertDesc(x, s[1..], key), key, k) == WithKey(s[1..], key, k) + (if key(x) == k then [x] else [])
    ensures WithKey(InsertDesc(x, s, key), key, k) == WithKey(s, key, k) + (if key(x) == k then [x] else [])
  {
    var rest := InsertDesc(x, s[1..], key);
    assert InsertDesc(x, s, key) == [s[0]] + rest;
    WithKeyCons(s[0], rest, key, k);
    WithKeyCons(s[0], s[1..], key, k);
    assert s == [s[0]] + s[1..];
  }

  /** The step where `x` ranks strictly above the head of `s` and goes first;
      then no element of `s` shares its key. */
  lemma StableInFront<T>(x: T, s: seq<T>, key: T -> Option<real>, k: Option<real>)
    requires SortedDesc(s, key)
    requires |s| > 0 && !KeyAtLeast(key(s[0]), key(x))
    ensures WithKey(InsertDesc(x, s, key), key, k) == WithKey(s, key, k) + (if key(x) == k then [x] else [])
  {
    assert InsertDesc(x, s, key) == [x] + s;
    WithKeyCons(x, s, key, k);
    if key(x) == k {
      assert forall j :: 0 <= j < |s| ==> KeyAtLeast(key(s[0]), key(s[j]));
      WithKeyNone(s, key, k);
    }
  }

  lemma WithKeyCons<T>(y: T, t: seq<T>, key: T -> Option<real>, k: Option<real>)
    ensures WithKey([y] + t, key, k) == (if key(y) == k then [y] else []) + WithKey(t, key, k)
  {
    assert ([y] + t)[0] == y;
    assert ([y] + t)[1..] == t;
  }

  lemma SortedTail<T>(s: seq<T>, key: T -> Option<real>)
    requires |s| > 0 && SortedDesc(s, key)
    ensures SortedDesc(s[1..], key)
  {
    forall i, j | 0 <= i < j < |s| - 1
      ensures KeyAtLeast(key(s[1..][i]), key(s[1..][j]))
    {
      assert s[1..][i] == s[i + 1] && s[1..][j] == s[j + 1];
    }
  }

  /** Python's stable `sorted(s, key=..., reverse=True)`: a permutation of
      `s` in descending key order in which elements with equal keys keep
      their input order. */
  function SortDesc<T(==)>(s: seq<T>, key: T -> Option<real>): (out: seq<T>)
    ensures |out| == |s|
    ensures SortedDesc(out, key)
    ensures multiset(out) == multiset(s)
    ensures forall k :: WithKey(out, key, k) == WithKey(s, key, k)
  {
    if |s| == 0 then []
    else
      var pre := s[..|s| - 1];
      var x := s[|s| - 1];
      assert s == pre + [x];
      var sorted := SortDesc(pre, key);
      var out := InsertDesc(x, sorted, key);
      InsertDescSorted(x, sorted, key);
      InsertDescMultiset(x, sorted, key);
      forall k
        ensures WithKey(out, key, k) == WithKey(s, key, k)
      {
        InsertDescStable(x, sorted, key, k);
        WithKeyAppend(pre, [x], key, k);
        assert WithKey([x], key, k) == (if key(x) == k then [x] else []) by {
          assert [x][1..] == [];
        }
      }
      out
  }

  /** `s[:n]`. */
  function Take<T>(s: seq<T>, n: nat): (out: seq<T>)
    ensures |out| == if n < |s| then n else |s|
    ensures out == s[..|out|]
  {
    if n >= |s| then s else s[..n]
  }

  /** The ranked list: the `n` best entries, or all of them when there are
      fewer, in descending key order. The sort is stable, so for every key
      the kept entries with that key are a prefix of the input's entries
      with it: ties are listed in input order and the cut keeps
      the earliest of them. */
  function TopN<T(==)>(s: seq<T>, key: T -> Option<real>, n: nat): (out: seq<T>)
    ensures |out| == if n < |s| then n else |s|
    ensures SortedDesc(out, key)
    ensures out == SortDesc(s, key)[..|out|]
    ensures forall k :: WithKey(out, key, k) <= WithKey(s, key, k)
  {
    var sorted := SortDesc(s, key);
    assert |sorted| == |multiset(sorted)| == |multiset(s)| == |s|;
    PrefixKeepsFirstWithKey(sorted, |Take(sorted, n)|, key);
    Take(sorted, n)
  }

  /** For every key, the elements of a prefix of a list that have that key
      are a prefix of the list's elements with that key. */
  lemma PrefixKeepsFirstWithKey<T>(t: seq<T>, m: nat, key: T -> Option<real>)
    requires m <= |t|
    ensures forall k :: WithKey(t[..m], key, k) <= WithKey(t, key, k)
  {
    forall k
      ensures WithKey(t[..m], key, k) <= WithKey(t, key, k)
    {
      assert t == t[..m] + t[m..];
      WithKeyAppend(t[..m], t[m..], key, k);
    }
  }

  /** The ranked list is drawn from the input, and no left-out element ranks
      above a kept one. */
  lemma TopNKeepsBest<T>(s: seq<T>, key: T -> Option<real>, n: nat)
    ensures multiset(TopN(s, key, n)) <= multiset(s)
    ensures forall x, y :: x in TopN(s, key, n) && y in multiset(s) - multiset(TopN(s, key, n)) ==>
      KeyAtLeast(key(x), key(y))
  {
    var sorted := SortDesc(s, key);
    var out := TopN(s, key, n);
    var rest := sorted[|out|..];
    assert sorted == out + rest;
    assert multiset(sorted) == multiset(out) + multiset(rest);
    forall x, y | x in out && y in multiset(s) - multiset(out)
      ensures KeyAtLeast(key(x), key(y))
    {
      assert y in multiset(rest);
      var i :| 0 <= i < |out| && out[i] == x;
      var j :| 0 <= j < |rest| && rest[j] == y;
      assert sorted[i] == x && sorted[|out| + j] == y;
    }
  }

  /** An entry left out of the ranked list ranks no higher than any kept one. */
  lemma LeftOutRanksLower<T>(hs: seq<T>, ids: seq<int>, id: T -> int, key: T -> Option<real>, n: nat, k: int)
    requires |hs| == |ids| && forall j :: 0 <= j < |ids| ==> id(hs[j]) == ids[j]
    requires 0 <= k < |ids|
    requires forall g :: g in TopN(hs, key, n) ==> id(g) != ids[k]
    ensures forall h :: h in TopN(hs, key, n) ==> KeyAtLeast(key(h), key(hs[k]))
  {
    TopNKeepsBest(hs, key, n);
    var top := TopN(hs, key, n);
    assert hs[k] !in top;
    assert hs[k] in multiset(hs) - multiset(top);
  }

  /** An element occurring twice in a list is counted at least twice. */
  lemma CountedTwice<T>(t: seq<T>, i: int, j: int)
    requires 0 <= i < j < |t| && t[i] == t[j]
    ensures multiset(t)[t[i]] >= 2
  {
    assert t == t[..j] + [t[j]] + t[j + 1..];
    assert t[..j][i] == t[i];
  }

  /** In a list whose entries have pairwise distinct ids, no entry is counted twice. */
  lemma {:induction false} CountedOnce<T>(s: seq<T>, id: T -> int, x: T)
    requires forall i, j :: 0 <= i < j < |s| ==> id(s[i]) != id(s[j])
    ensures multiset(s)[x] <= 1
  {
    if |s| > 0 {
      var pre := s[..|s| - 1];
      assert s == pre + [s[|s| - 1]];
      CountedOnce(pre, id, x);
    }
  }

  /** Drawing entries from a list whose entries have pairwise distinct ids,
      without repeating any, again gives pairwise distinct ids. */
  lemma DistinctIdsKept<T>(s: seq<T>, t: seq<T>, id: T -> int)
    requires forall i, j :: 0 <= i < j < |s| ==> id(s[i]) != id(s[j])
    requires multiset(t) <= multiset(s)
    ensures forall i, j :: 0 <= i < j < |t| ==> id(t[i]) != id(t[j])
  {
    forall i, j | 0 <= i < j < |t|
      ensures id(t[i]) != id(t[j])
    {
      if id(t[i]) == id(t[j]) {
        assert t[i] in multiset(t) && t[j] in multiset(t);
        var p :| 0 <= p < |s| && s[p] == t[i];
        var q :| 0 <= q < |s| && s[q] == t[j];
        assert p == q;
        CountedTwice(t, i, j);
        CountedOnce(s, id, t[i]);
        assert false;
      }
    }
  }

  /** `max(0.0, value - threshold)` for a present value, `None` otherwise:
      never negative, positive exactly when the value is above the threshold,
      and then equal to the excess. */
  function Exceedance(value: Option<real>, threshold: real): (e: Option<real>)
    ensures e.Some? <==> value.Some?
    ensures e.Some? ==> e.value >= 0.0 && e.value >= value.value - threshold
    ensures e.Some? ==> (e.value > 0.0 <==> value.value > threshold)
    ensures e.Some? && e.value > 0.0 ==> e.value == value.value - threshold
  {
    match value
    case None => None
    case Some(v) => Some(if 0.0 >= v - threshold then 0.0 else v - threshold)
  }

  /** One entry of the noise dashboard's hotspot list. */
  datatype NoiseHotspot = NoiseHotspot(
    sensorId: int,
    locationName: string,
    lat: Option<real>,
    lon: Option<real>,
    currentAvgDb: Option<real>,
    thresholdDb: real,
    thresholdExceedanceDb: Option<real>,
    isViolationProxy: bool,
    lastUpdateUtc: Option<int>,
    trend24h: Trend)

  /** The noise entry of sensor `sid` from its newest row `lr`: a violation
      exactly when the average level reaches the threshold. */
  function NoiseHotspotOf(rows: seq<Row>, sid: int, lr: Row, threshold: real, now: int): (h: NoiseHotspot)
    ensures h.sensorId == sid && h.currentAvgDb == lr.averageDb && h.thresholdDb == threshold
    ensures h.locationName == DisplayName(lr) && h.lat == lr.lat && h.lon == lr.lon
    ensures h.lastUpdateUtc == LastUpdate(lr)
    ensures h.isViolationProxy <==> lr.averageDb.Some? && lr.averageDb.value >= threshold
    ensures h.thresholdExceedanceDb == Exceedance(lr.averageDb, threshold)
    ensures h.thresholdExceedanceDb.Some? ==> h.thresholdExceedanceDb.value >= 0.0
    ensures h.thresholdExceedanceDb.Some? && h.thresholdExceedanceDb.value > 0.0 ==> h.isViolationProxy
    ensures h.trend24h == Trend24h(MeansAround(ForSensor(rows, sid), AverageDb, now))
  {
    var db := lr.averageDb;
    var wm := MeansAround(ForSensor(rows, sid), AverageDb, now);
    NoiseHotspot(
      sid, DisplayName(lr), lr.lat, lr.lon, db, threshold, Exceedance(db, threshold),
      db.Some? && db.value >= threshold, LastUpdate(lr), Trend24h(wm))
  }

  /** The hotspots flagged as violations, in order. */
  function Violations(hs: seq<NoiseHotspot>): (vs: seq<NoiseHotspot>)
    ensures |vs| <= |hs|
    ensures forall v :: v in vs <==> v in hs && v.isViolationProxy
  {
    if |hs| == 0 then []
    else
      assert hs == [hs[0]] + hs[1..];
      (if hs[0].isViolationProxy then [hs[0]] else []) + Violations(hs[1..])
  }

  /** `Violations` is an order-preserving filter: it distributes over
      concatenation, so the violations keep the hotspots' order and each
      flagged hotspot appears once. */
  lemma {:induction false} ViolationsAppend(a: seq<NoiseHotspot>, b: seq<NoiseHotspot>)
    ensures Violations(a + b) == Violations(a) + Violations(b)
  {
    if |a| == 0 {
      assert a + b == b;
    } else {
      var rest := a[1..];
      var head := if a[0].isViolationProxy then [a[0]] else [];
      assert a == [a[0]] + rest;
      calc {
        Violations(a + b);
        { assert a + b == [a[0]] + (rest + b); }
        Violations([a[0]] + (rest + b));
        { ViolationsCons(a[0], rest + b); }
        head + Violations(rest + b);
        { ViolationsAppend(rest, b); }
        head + (Violations(rest) + Violations(b));
        (head + Violations(rest)) + Violations(b);
        { ViolationsCons(a[0], rest); }
        Violations(a) + Violations(b);
      }
    }
  }

  lemma ViolationsCons(h: NoiseHotspot, t: seq<NoiseHotspot>)
    ensures Violations([h] + t) == (if h.isViolationProxy then [h] else []) + Violations(t)
  {
    assert ([h] + t)[1..] == t;
  }

  /** A single hotspot is kept exactly when it is flagged. */
  lemma ViolationsSingle(h: NoiseHotspot)
    ensures Violations([h]) == if h.isViolationProxy then [h] else []
  {
    assert [h][1..] == [];
  }

  /** The loop over `latest.items()` of `/dashboard/noise`, for the sensors
      `ids` in iteration order: it appends every entry to `hotspots` and the
      violating ones to `violations` as well. */
  function NoiseLoop(rows: seq<Row>, ids: seq<int>, latest: map<int, Row>, threshold: real, now: int)
    : (out: (seq<NoiseHotspot>, seq<NoiseHotspot>))
    requires forall s :: s in ids ==> s in latest
    ensures |out.0| == |ids|
    ensures forall k :: 0 <= k < |ids| ==> out.0[k].sensorId == ids[k]
    ensures forall k :: 0 <= k < |ids| ==> (out.0[k].isViolationProxy <==>
      latest[ids[k]].averageDb.Some? && latest[ids[k]].averageDb.value >= threshold)
    ensures forall h :: h in out.0 ==>
      h.thresholdDb == threshold && (h.isViolationProxy <==> h.currentAvgDb.Some? && h.currentAvgDb.value >= threshold)
    ensures out.1 == Violations(out.0)
  {
    if |ids| == 0 then ([], [])
    else
      var h := NoiseHotspotOf(rows, ids[0], latest[ids[0]], threshold, now);
      var rest := NoiseLoop(rows, ids[1..], latest, threshold, now);
      var hs := [h] + rest.0;
      assert hs[1..] == rest.0;
      (hs, (if h.isViolationProxy then [h] else []) + rest.1)
  }

  /** Entry `k` of the loop is the hotspot of sensor `ids[k]`, built from its newest row. */
  lemma {:induction false} NoiseLoopEntries(rows: seq<Row>, ids: seq<int>, latest: map<int, Row>, threshold: real, now: int)
    requires forall s :: s in ids ==> s in latest
    ensures forall k :: 0 <= k < |ids| ==>
      NoiseLoop(rows, ids, latest, threshold, now).0[k] == NoiseHotspotOf(rows, ids[k], latest[ids[k]], threshold, now)
  {
    if |ids| > 0 {
      NoiseLoopEntries(rows, ids[1..], latest, threshold, now);
      var out := NoiseLoop(rows, ids, latest, threshold, now).0;
      var rest := NoiseLoop(rows, ids[1..], latest, threshold, now).0;
      assert out == [NoiseHotspotOf(rows, ids[0], latest[ids[0]], threshold, now)] + rest;
      forall k | 1 <= k < |ids|
        ensures out[k] == NoiseHotspotOf(rows, ids[k], latest[ids[k]], threshold, now)
      {
        assert out[k] == rest[k - 1];
        assert ids[1..][k - 1] == ids[k];
      }
    }
  }

  /** One entry of the temperature dashboard's hotspot list. */
  datatype HeatHotspot = HeatHotspot(
    sensorId: int,
    locationName: string,
    lat: Option<real>,
    lon: Option<real>,
    currentC: Option<real>,
    riskLabel: HeatRisk,
    thresholdExceedanceC: Option<real>,
    lastUpdateUtc: Option<int>,
    trend24h: Trend)

  /** The temperature entry of sensor `sid` from its newest row `lr`: the
      exceedance is measured against the elevated-risk cut-off, so a positive
      exceedance always comes with an elevated or high label and a normal
      label always with a zero exceedance. */
  function HeatHotspotOf(rows: seq<Row>, sid: int, lr: Row, now: int): (h: HeatHotspot)
    ensures h.sensorId == sid && h.currentC == lr.celsius
    ensures h.locationName == DisplayName(lr) && h.lat == lr.lat && h.lon == lr.lon
    ensures h.lastUpdateUtc == LastUpdate(lr)
    ensures h.riskLabel == HeatRiskLabel(lr.celsius)
    ensures h.thresholdExceedanceC == Exceedance(lr.celsius, HeatElevatedC)
    ensures h.trend24h == Trend24h(MeansAround(ForSensor(rows, sid), Celsius, now))
    ensures h.thresholdExceedanceC.Some? && h.thresholdExceedanceC.value > 0.0 ==>
      h.riskLabel == Elevated || h.riskLabel == High
    ensures h.riskLabel == Normal ==> h.thresholdExceedanceC == Some(0.0)
  {
    var t := lr.celsius;
    var wm := MeansAround(ForSensor(rows, sid), Celsius, now);
    HeatHotspot(
      sid, DisplayName(lr), lr.lat, lr.lon, t, HeatRiskLabel(t), Exceedance(t, HeatElevatedC),
      LastUpdate(lr), Trend24h(wm))
  }

  /** The loop over `latest.items()` of `/dashboard/temperature`. */
  function HeatLoop(rows: seq<Row>, ids: seq<int>, latest: map<int, Row>, now: int): (hs: seq<HeatHotspot>)
    requires forall s :: s in ids ==> s in latest
    ensures |hs| == |ids|
    ensures forall k :: 0 <= k < |ids| ==> hs[k] == HeatHotspotOf(rows, ids[k], latest[ids[k]], now)
    ensures forall k :: 0 <= k < |ids| ==> hs[k].sensorId == ids[k] && hs[k].riskLabel == HeatRiskLabel(hs[k].currentC)
  {
    seq(|ids|, k requires 0 <= k < |ids| => HeatHotspotOf(rows, ids[k], latest[ids[k]], now))
  }

  /** One entry of the hotspot list of the first `/dashboard/temperature`
      handler: the entry of the later handler together with the sensor's
      6-hour trend. */
  datatype TrendedHeatHotspot = TrendedHeatHotspot(spot: HeatHotspot, trend6h: Trend)

  /** The entry of sensor `sid` from its newest row `lr`, with both trends
      over the sensor's own rows. */
  function TrendedHeatHotspotOf(rows: seq<Row>, sid: int, lr: Row, now: int): (h: TrendedHeatHotspot)
    ensures h.spot == HeatHotspotOf(rows, sid, lr, now)
    ensures h.trend6h == Trend6h(MeansAround(ForSensor(rows, sid), Celsius, now))
  {
    TrendedHeatHotspot(HeatHotspotOf(rows, sid, lr, now), Trend6h(MeansAround(ForSensor(rows, sid), Celsius, now)))
  }

  /** The hotspot loop of the first `/dashboard/temperature` handler. */
  function TrendedHeatLoop(rows: seq<Row>, ids: seq<int>, latest: map<int, Row>, now: int): (hs: seq<TrendedHeatHotspot>)
    requires forall s :: s in ids ==> s in latest
    ensures |hs| == |ids|
    ensures forall k :: 0 <= k < |ids| ==> hs[k] == TrendedHeatHotspotOf(rows, ids[k], latest[ids[k]], now)
  {
    seq(|ids|, k requires 0 <= k < |ids| => TrendedHeatHotspotOf(rows, ids[k], latest[ids[k]], now))
  }
}
