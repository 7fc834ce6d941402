# Dashboard analytics of the sensor network, in Dafny

The sensor network stores one row per sensor per minute in the table
`sensor_data_backup`. Each row holds a sensor id, a location, a timestamp, the
average and maximum sound level and a temperature. The dashboard backend
(`webapp/backend/main.py`) reads these rows and turns them into dashboard
summaries. This project models the pure analytics layer of that backend, the
part that runs after the rows have been fetched:

- **Classifiers**: the trend label of two window means, with a tolerance band
  of 0.15. The heat-risk label, with cut-offs at 26 °C and 31 °C. The
  day/night noise threshold: 65 dB from 07:00 to 20:59 and 55 dB at night.
- **Aggregations**: `_mean`. The means over inclusive time windows of 6 and
  24 hours (`_window_means`). The series of hourly means (`_bucket_series`).
  The hourly count of sensors by heat risk (`_heat_risk_series_24h`).
- **Per-sensor selection**: the newest row of each sensor
  (`_latest_per_sensor`). The first row per sensor returned in ascending id
  order (`/sensor-data/latest`, `/sensors`).
- **Range endpoints**: parameter validation and grouping by sensor
  (`/sensor-data/range`, `/sensor-data/series`).
- **Dashboards**: the noise and temperature hotspot lists. These cover
  exceedance, the violation flag, the violation sub-list, the stable
  descending ranking and the cut to `top_n`. `/dashboard/temperature` is
  registered twice. The first registration (main.py:320) is the one
  served. It adds 6-hour trends per sensor and for the city. The second
  registration (main.py:511) also reports the city's current heat risk and
  an hourly heat-risk series. Both are modelled.
- **Routing**: the route table in registration order and first-match
  dispatch. This shows that the second temperature handler is never
  reached (see "## Findings").

Readings are mathematical reals. A timestamp is an `Option<int>` of epoch
seconds: the result of parsing `ts_utc`, or `None` when it is missing. The
current instant `now` and the current local hour are parameters. Every
handler becomes a pure function of the rows the database query returned.

Modules, leaf to root: `Wrappers` (Option, Result), `Stats`, `Classify`,
`Rows`, `Windows`, `Buckets`, `Selection`, `RangeQuery`, `Hotspots`,
`Dashboards`, `Routing`.

## Model

| member | source | states |
|---|---|---|
| Stats.Mean | webapp/backend/main.py:63-66 | `None` exactly for an empty list; otherwise the mean times the count is the sum, and the mean lies between the least and the greatest value |
| Stats.SumBounds | webapp/backend/main.py:63-66 | the sum of n values lies between n times the minimum and n times the maximum (the induction behind the bounds of `_mean`) |
| Stats.MeanOfConstant | webapp/backend/main.py:63-66 | the mean of equal values is that value |
| Stats.MeanWithinBounds | webapp/backend/main.py:63-66 | any common lower and upper bound of the values bounds their mean |
| Classify.TrendLabel | webapp/backend/main.py:68-74 | unknown iff a mean is missing; stable iff the change lies in [-eps, eps]; worsening iff it rises above eps (and is positive); improving iff it falls below -eps (and is not positive) |
| Classify.TrendBands | webapp/backend/main.py:68-74 | with the default band 0.15, stable, worsening and improving are exactly \|d\| <= 0.15, d > 0.15 and d < -0.15 |
| Classify.TrendSwap | webapp/backend/main.py:68-74 | for a non-negative band, swapping the current and previous means swaps worsening and improving and keeps stable and unknown |
| Classify.HeatRiskLabel | webapp/backend/main.py:136-143 | no reading is unknown; >= 31 is high; 26 <= t < 31 is elevated; < 26 is normal |
| Classify.HeatRiskMonotone | webapp/backend/main.py:136-143 | a warmer reading never gets a less severe label |
| Classify.NoiseThreshold | webapp/backend/main.py:145-148 | 55 dB iff the hour is 21-23 or 0-6, 65 dB iff it is 7-20, and nothing else |
| Classify.NightIsStricter | webapp/backend/main.py:23-26 | a level that violates the limit at any hour violates it at every night hour |
| Rows.DisplayName | webapp/backend/main.py:411 | a non-empty location name is used as is; otherwise the label is "Sensor " followed by the id |
| Rows.DigitsValue | webapp/backend/main.py:411 | the decimal digits written for an id read back as that id |
| Rows.ForSensor | webapp/backend/main.py:390-392 | a sensor's rows: exactly the input rows with that id |
| Rows.ForSensorAppend | webapp/backend/main.py:390-392 | the grouping is an order-preserving filter: the rows of a sensor in a + b are its rows in a followed by its rows in b |
| Rows.ForSensorSingle | webapp/backend/main.py:390-392 | one row is appended to its own sensor's list and to no other |
| Rows.DistinctIds | webapp/backend/main.py:167-178 | the key order of the per-sensor dict: every sensor id of the input, once each |
| Rows.DistinctIdsFirstSeen | webapp/backend/main.py:167-178 | the keys are in order of first appearance: a sensor listed before another has a row before any row of the later one |
| Rows.DistinctIdsCount | webapp/backend/main.py:245-252 | there are as many distinct ids as sensors |
| Windows.WindowValues | webapp/backend/main.py:111-121 | the collected values are exactly those of rows with a timestamp inside [start, end] (both ends included) and a value |
| Windows.WindowValuesAppend | webapp/backend/main.py:111-121 | the collection keeps input order and multiplicity: the values of a + b are those of a followed by those of b |
| Windows.WindowValuesSingle | webapp/backend/main.py:113-121 | one row contributes its value exactly when it has a timestamp inside the window and a value |
| Windows.MeanIn | webapp/backend/main.py:111-121 | equal to `Stats.Mean` of the window's values, whose contract gives mean × count = sum; missing iff no row is in the window |
| Windows.MeanInBounds | webapp/backend/main.py:111-121 | a present window mean lies between the smallest and largest value of the window |
| Windows.MeansAround | webapp/backend/main.py:110-134 | the last-6h, previous-6h, last-24h and previous-24h means over [now-6h, now], [now-12h, now-6h], [now-24h, now] and [now-48h, now-24h] |
| Windows.BoundaryReadingCountsTwice | webapp/backend/main.py:123-133 | a reading exactly 6 h (24 h) old makes both the last and the previous 6 h (24 h) mean present |
| Windows.SingleBoundaryReading | webapp/backend/main.py:117-133 | a lone reading exactly 6 h old is both the last-6h and the previous-6h mean |
| Windows.IncompleteRowsIgnored | webapp/backend/main.py:113-120 | removing rows without a timestamp or without a value leaves the values of every window unchanged |
| Windows.CityMeansUnaffectedByFilter | webapp/backend/main.py:431-433 | the city means computed on the rows that have a value equal those over all rows |
| Buckets.HourOf | webapp/backend/main.py:97 | the start of the hour holding an instant: a multiple of 3600 at most one hour before it |
| Buckets.BucketValues | webapp/backend/main.py:83-98 | a bucket holds exactly the values of the in-window rows of its hour |
| Buckets.BucketValuesAppend | webapp/backend/main.py:83-98 | a bucket keeps input order and multiplicity: the values of a + b are those of a followed by those of b |
| Buckets.BucketValuesSingle | webapp/backend/main.py:87-98 | one row adds its value to a bucket exactly when it has a value and a timestamp in that hour of the window |
| Buckets.ScanHours | webapp/backend/main.py:100-101 | the non-empty hours of a range, strictly ascending, with every non-empty hour of the range included |
| Buckets.SeriesBetween | webapp/backend/main.py:76-108 | entries strictly ascending in time, each the mean of a non-empty bucket, and an entry for the hour of every in-window reading |
| Buckets.BucketSeries | webapp/backend/main.py:76-108 | the same for the window [now - hours, now] |
| Buckets.ReportingSensorHasMean | webapp/backend/main.py:489-494 | a sensor with a reading in an hour always has a mean for that hour, so no sensor is skipped |
| Buckets.CountIfCard | webapp/backend/main.py:490-498 | counting over a duplicate-free list counts the set of matching sensors |
| Buckets.CountIfSet | webapp/backend/main.py:490-498 | a counter over distinct sensors equals the size of any set holding exactly the matching sensors |
| Buckets.RiskAt | webapp/backend/main.py:485-505 | `total` is the number of sensors with a reading that hour; `high` and `elevated` count those whose hourly mean has that risk; high + elevated <= total |
| Buckets.RiskAtCounts | webapp/backend/main.py:489-498 | the loop's three counters equal the cardinalities of the matching sensor sets |
| Buckets.RiskSetsDisjoint | webapp/backend/main.py:495-498 | high and elevated sensors are disjoint subsets of the reporting sensors |
| Buckets.HoursFrom | webapp/backend/main.py:483-506 | the loop visits the hours from start to end, one hour apart, (end - start)/1h + 1 of them |
| Buckets.HourOfShift | webapp/backend/main.py:457-480 | moving an instant by whole hours moves its hour start by the same amount |
| Buckets.HeatRiskSeries24h | webapp/backend/main.py:454-508 | exactly 25 entries, the i-th for the hour of now - 24 h plus i hours |
| Selection.LatestPerSensor | webapp/backend/main.py:167-178 | one entry per sensor id of the input, each a row of that sensor |
| Selection.LatestIsNewest | webapp/backend/main.py:167-178 | the kept row has the greatest timestamp of its sensor, with a missing timestamp lowest, and every later row of the sensor is strictly older (ties go to the later row) |
| Selection.NewestUnique | webapp/backend/main.py:176-177 | the newest row of a sensor is unique |
| Selection.FirstPerSensor | webapp/backend/main.py:245-249 | one entry per sensor id of the input |
| Selection.FirstIsEarliest | webapp/backend/main.py:245-249 | the kept row is the first row of its sensor |
| Selection.InsertSorted | webapp/backend/main.py:251 | inserting an id keeps the list strictly ascending and adds exactly that id |
| Selection.SortedIds | webapp/backend/main.py:251 | the sensor ids, strictly ascending, each once |
| Selection.FirstRowsById | webapp/backend/main.py:245-251 | one row per sensor, as many as there are sensors, in ascending id order, each the first row of its sensor |
| Selection.LatestRows | webapp/backend/main.py:242-252 | a failed query is a 500 error; otherwise count equals the number of rows and of distinct sensors, every sensor appears, rows sorted by id, each its sensor's first row |
| Selection.ListSensors | webapp/backend/main.py:263-278 | the same for the id/location/coordinate summaries of `/sensors` |
| RangeQuery.ParseTimeColumn | webapp/backend/main.py:185 | accepted iff the name is `ts_utc` or `created_at`, giving back that column; otherwise a 422 error |
| RangeQuery.TimeColumnRoundTrip | webapp/backend/main.py:185 | parsing a column's name returns the column |
| RangeQuery.AddRowSize | webapp/backend/main.py:213 | appending a row adds one row to the groups in total |
| RangeQuery.AddRowIds | webapp/backend/main.py:213 | a new group is opened, at the end, only for an unseen sensor |
| RangeQuery.AddRowRows | webapp/backend/main.py:213 | only the row's own group grows, by that row at its end, and a new group holds just that row |
| RangeQuery.GroupRowsStep | webapp/backend/main.py:210-213 | one step of the grouping loop keeps every group equal to its sensor's rows |
| RangeQuery.GroupBySensorFacts | webapp/backend/main.py:210-213 | groups in first-appearance order, each exactly its sensor's rows in input order; the group sizes sum to the number of rows |
| RangeQuery.SensorDataRange | webapp/backend/main.py:180-227 | 422 iff the column is unknown, 400 iff start > end, 500 iff the query failed; success iff the column is known, start <= end and the query returned data, echoing start, end and the parsed column; count is the number of rows and equals the total of the group sizes, with groups as above |
| RangeQuery.SensorSeries | webapp/backend/main.py:280-318 | the same validation, with success iff every check passes; on success the sensor id, start, end and parsed column are echoed and the rows are returned unchanged with their count |
| Hotspots.InsertDescSorted | webapp/backend/main.py:425-429 | inserting into a descending list keeps it descending |
| Hotspots.InsertDescMultiset | webapp/backend/main.py:425-429 | insertion adds exactly the inserted element |
| Hotspots.InsertDescStable | webapp/backend/main.py:425-429 | the inserted element goes behind every element with an equal key |
| Hotspots.SortDesc | webapp/backend/main.py:425-429 | a permutation in descending key order (values before missing ones, values non-increasing) in which equal keys keep their input order |
| Hotspots.Take | webapp/backend/main.py:429 | `s[:n]`: a prefix of length min(n, \|s\|) |
| Hotspots.TopN | webapp/backend/main.py:425-429 | exactly min(n, \|s\|) entries, in descending key order; the list is a prefix of the stable descending sort of the input; for every key, the kept entries with that key are the first entries of the input with it, in input order |
| Hotspots.TopNKeepsBest | webapp/backend/main.py:425-429 | the ranked list is drawn from the input, and no left-out element ranks above a kept one |
| Hotspots.LeftOutRanksLower | webapp/backend/main.py:425-429 | an element whose id is missing from the ranked list ranks no higher than any listed element |
| Hotspots.DistinctIdsKept | webapp/backend/main.py:425-429 | a list drawn from one with distinct ids has distinct ids, so no sensor is ranked twice |
| Hotspots.Exceedance | webapp/backend/main.py:403-406 | present iff the value is; never negative; positive iff the value is above the threshold, and then the excess |
| Hotspots.NoiseHotspotOf | webapp/backend/main.py:399-420 | the sensor's id, display name, coordinates and last update from its newest row; the current level and the threshold; exceedance = max(0, level - threshold) when present; violation iff the level is present and >= the threshold; the 24-hour trend of the sensor's own rows |
| Hotspots.Violations | webapp/backend/main.py:422-423 | exactly the hotspots flagged as violations, never more than the hotspots |
| Hotspots.ViolationsAppend | webapp/backend/main.py:422-423 | the violation list keeps loop order: the violations of a + b are those of a followed by those of b |
| Hotspots.ViolationsSingle | webapp/backend/main.py:422-423 | one hotspot is listed exactly when it is flagged |
| Hotspots.NoiseLoop | webapp/backend/main.py:396-423 | one hotspot per sensor in iteration order, flagged iff the sensor's newest level reaches the threshold; the violation list equals the flagged hotspots in the same order |
| Hotspots.NoiseLoopEntries | webapp/backend/main.py:398-420 | entry k of the loop is the hotspot of the k-th sensor, built from its newest row |
| Hotspots.HeatHotspotOf | webapp/backend/main.py:544-563 | the sensor's id, display name, coordinates and last update from its newest row; the current temperature and its risk label; exceedance = max(0, t - 26) when present; the 24-hour trend of the sensor's own rows |
| Hotspots.TrendedHeatLoop | webapp/backend/main.py:331-353 | the first temperature handler's loop: one entry per sensor in iteration order, the hotspot of its newest row with the 6-hour trend of its own rows added |
| Hotspots.HeatLoop | webapp/backend/main.py:544-563 | one hotspot per sensor in iteration order, labelled by its current temperature |
| Dashboards.NoiseDashboard | webapp/backend/main.py:383-452 | 422 iff top_n is outside 1..25, else 500 iff the fetch failed (raised at main.py:163-164), otherwise the report of the fetched rows |
| Dashboards.NoiseReportOf | webapp/backend/main.py:385-452 | the current hour's threshold; the ranked list is `NoiseTop`, with exactly min(top_n, sensors) entries in descending order; the violations are the flagged loop entries in loop order, a sensor among them iff its newest level reaches the threshold; the city trend over all rows; the hourly series |
| Dashboards.NoiseTop | webapp/backend/main.py:425-429 | exactly min(top_n, sensors) entries in descending level order, each the hotspot of a distinct sensor built from its newest row |
| Dashboards.NoiseTopStable | webapp/backend/main.py:425-429 | the ranking is a prefix of the stable descending sort of the loop's per-sensor list; sensors with equal levels keep first-seen order, and the cut keeps the earliest of them |
| Dashboards.NoiseTopIsLoudest | webapp/backend/main.py:425-429 | a sensor left out of the ranking is no louder than any listed one |
| Dashboards.NoiseHotspotsNow | webapp/backend/main.py:390-423 | one hotspot per sensor, entry k that of the k-th sensor built from its newest row; the violation list is exactly the flagged entries in loop order; a sensor is listed iff its newest level reaches the threshold |
| Dashboards.ViolationsBySensor | webapp/backend/main.py:398-423 | a sensor appears among the violations iff its newest row's average level reaches the threshold |
| Dashboards.TallyNow | webapp/backend/main.py:527-537 | `high` is the number of readings >= 31, `elevated` the number in [26, 31) |
| Dashboards.TallyLatest | webapp/backend/main.py:527-537 | over distinct sensors, the readings counted are the reporting sensors, and the high and elevated counters are the numbers of sensors whose newest temperature has that label |
| Dashboards.TallyNowExtremes | webapp/backend/main.py:527-537 | all sensors high means every reading >= 31; none elevated or high means every reading < 26 |
| Dashboards.LatestTemps | webapp/backend/main.py:527-533 | the temperatures of the newest rows that have one |
| Dashboards.LatestTempsAppend | webapp/backend/main.py:527-533 | the list keeps sensor order: the temperatures for a + b are those for a followed by those for b |
| Dashboards.LatestTempsSingle | webapp/backend/main.py:528-533 | a sensor adds its newest temperature exactly when it has one |
| Dashboards.CityNowOf | webapp/backend/main.py:521-540 | exact counts of reporting, high and elevated sensors; the mean of the reporting sensors' temperatures, missing iff none reports; the city label is that mean's label, high when all sensors are high and normal when none is elevated or high |
| Dashboards.CityNowFacts | webapp/backend/main.py:539-540 | the mean of all-high readings is >= 31 and the mean of all-normal readings is < 26 |
| Dashboards.CityNowOfRows | webapp/backend/main.py:521-540 | over the newest rows of all sensors: the counters are the sizes of the sets of reporting, high and elevated sensors; high + elevated <= reporting <= sensors; the mean is missing iff no sensor reports; the label is that of the mean; all reporting sensors high gives High, none high or elevated gives Normal |
| Dashboards.CityNowMean | webapp/backend/main.py:521-540 | the city mean is the mean of the newest temperatures of the sensors, one per reporting sensor in first-seen order |
| Dashboards.HeatHotspotsAll | webapp/backend/main.py:543-563 | one hotspot per sensor, in first-seen order, each built from that sensor's newest row |
| Dashboards.HeatHotspotsTop | webapp/backend/main.py:543-569 | exactly min(top_n, sensors) entries, warmest first, each the hotspot of a distinct sensor built from its newest row |
| Dashboards.HeatTopStable | webapp/backend/main.py:565-569 | the ranking is a prefix of the stable descending sort of `HeatHotspotsAll`; sensors with equal temperatures keep first-seen order, and the cut keeps the earliest of them |
| Dashboards.HeatTopIsWarmest | webapp/backend/main.py:565-569 | a sensor left out of the ranking is no warmer than any listed one |
| Dashboards.TemperatureDashboard | webapp/backend/main.py:511-602 | 422 iff top_n is outside 1..25, else 500 iff the fetch failed, otherwise the report of the fetched rows |
| Dashboards.TemperatureReportOf | webapp/backend/main.py:513-602 | the city block is `CityNowOfRows` (so its mean, label and counters are those stated there), with exact counts of reporting, high and elevated sensors; the 25-entry hourly heat-risk series; the ranked list is `HeatHotspotsTop`, exactly min(top_n, sensors) entries warmest first; the city trend over all rows; the hourly series |
| Dashboards.TemperatureTrendDashboard | webapp/backend/main.py:320-381 | the handler the router serves for the path: 422 iff top_n is outside 1..25, else 500 iff the fetch failed, otherwise its report |
| Dashboards.TemperatureTrendReportOf | webapp/backend/main.py:322-381 | exactly min(top_n, sensors) hotspots warmest first, equal to `TrendedHotspotsTop`; the city's 6-hour and 24-hour trends over all rows; the hourly series |
| Dashboards.TrendedHotspotsAll | webapp/backend/main.py:331-353 | one hotspot per sensor, in first-seen order, each built from that sensor's newest row with its 6-hour trend |
| Dashboards.TrendedHotspotsTop | webapp/backend/main.py:331-358 | exactly min(top_n, sensors) entries, warmest first, each a distinct sensor's hotspot from its newest row with its 6-hour trend |
| Dashboards.TrendedTopStable | webapp/backend/main.py:355-359 | the ranking is a prefix of the stable descending sort of `TrendedHotspotsAll`; sensors with equal temperatures keep first-seen order, and the cut keeps the earliest of them |
| Routing.Dispatch | webapp/backend/main.py:180-512 | no handler iff no route has the path |
| Routing.DispatchFirstMatch | webapp/backend/main.py:180-512 | a served path goes to the first registered route with that path |
| Routing.DistinctPathsAllServed | webapp/backend/main.py:180-512 | when paths are distinct, every route is served by its own handler |
| Routing.ShadowedNeverServed | webapp/backend/main.py:180-512 | a handler registered only on a route whose path an earlier route already has serves no path |
| Routing.HeatRiskHandlerShadowed | webapp/backend/main.py:320-321 | as registered, the temperature path goes to the handler at main.py:320, and the handler at main.py:511 serves no path |
| Routing.CorrectedRoutesServeAll | webapp/backend/main.py:511-512 | without the earlier registration, the temperature path reaches the heat-risk handler and every route is served |

## Left out

- The Supabase queries are not modelled: `_fetch_rows_last_hours` and the `.select/.gte/.lte/.order/.limit/.in_/.eq/.execute` chains of every handler. They are I/O. Their result is a parameter: an `Option` of the returned rows, where `None` stands for `res.data is None`. That case is the 500 error of main.py:163-164, which every dashboard returns after its 422 check.
- CORS, dotenv and the `print` calls are framework plumbing. Routing is modelled only as an exact path match over the GET routes, taken in registration order (`Routing`). Path parameters, methods and middleware are not modelled. Query-parameter validation is kept and modelled as 422 errors.
- Both handlers registered for `/dashboard/temperature` are modelled: `Dashboards.TemperatureTrendDashboard` (main.py:320, served) and `Dashboards.TemperatureDashboard` (main.py:511, unreachable as registered).
- `_parse_ts` and ISO-8601 parsing are library behaviour. Timestamps arrive already parsed. A present but unparseable `ts_utc` is therefore indistinguishable from a missing one. `Rows.LastUpdate` thus falls back to `created_at` for both, while the source falls back only when the string is empty.
- Time zones and DST (`ZoneInfo("America/Toronto")`) are not modelled. The local offset is taken as a fixed whole number of hours. Under that assumption a local hour boundary is a multiple of 3600 seconds. Also, `now_local - timedelta(hours=24)` is then exactly 24 hours, and the heat-risk series always has 25 entries. Across a DST change the source's wall-clock arithmetic can differ by one hour.
- Each helper calls `datetime.now` on its own. The model uses one `now` for the whole handler.
- Timestamps have whole-second precision; microseconds are not modelled.
- Floating-point rounding is not modelled. Readings are reals, so `_mean` is the exact mean.
- In the range endpoint, `str(row["sensor_id"])` keys are modelled as the integer ids. `str` is injective on integers, so the grouping is the same.
- Some failures are not modelled: a failing `int(...)` conversion, and the `TypeError` of comparing a naive with an aware datetime.
- `datetime.min` stands in for a missing timestamp. The model's integers are unbounded, so a missing timestamp is strictly older than every real one. A row stamped exactly 0001-01-01T00:00Z would tie with a missing one in the source.
- `webapp/backend/predictor.py` is not part of this model. It is a wrapper over pandas, numpy and a joblib-loaded model.
- The on-device firmware (audio loudness, temperature sampling, minute buckets, radio relay, uplink) is not part of this model. None of its sources are among the modelled files.

## Findings

| source | as written | input that shows it | evidently intended | confidence | as-written member | corrected member |
|---|---|---|---|---|---|---|
| webapp/backend/main.py:320-321 | `/dashboard/temperature` is registered twice. The router serves the first match, so the handler at main.py:511 never runs, together with its city heat risk and heat-risk series. | GET `/dashboard/temperature`: it is served by the main.py:320 handler, whose report has no `heat_risk` block | one registration for the path, served by the later handler that carries the heat-risk block | medium, not executed | Routing.HeatRiskHandlerShadowed | Routing.CorrectedRoutesServeAll |
