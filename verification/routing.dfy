/** The application's GET route table and how a request path is dispatched
    to a handler: the router tries the routes in the order they were
    registered and serves the first one whose path matches. */
module Routing {
  import opened Wrappers

  datatype Handler =
    | RangeHandler
    | LatestHandler
    | SensorsHandler
    | SeriesHandler
    | TemperatureTrendHandler
    | NoiseHandler
    | TemperatureRiskHandler

  datatype Route = Route(path: string, handler: Handler)

  /** The routes in registration order. `/dashboard/temperature` is
      registered twice: first with the per-sensor 6-hour trends, later with
      the city's current heat risk and the heat-risk series. */
  const AppRoutes: seq<Route> := [
    Route("/sensor-data/range", RangeHandler),
    Route("/sensor-data/latest", LatestHandler),
    Route("/sensors", SensorsHandler),
    Route("/sensor-data/series", SeriesHandler),
    Route("/dashboard/temperature", TemperatureTrendHandler),
    Route("/dashboard/noise", NoiseHandler),
    Route("/dashboard/temperature", TemperatureRiskHandler)]

  /** Route `i` is the first one whose path is `path`. */
  predicate FirstMatch(routes: seq<Route>, path: string, i: int) {
    0 <= i < |routes| && routes[i].path == path &&
    forall j :: 0 <= j < i ==> routes[j].path != path
  }

  /** The handler serving `path`: none when no route has that path. */
  function Dispatch(routes: seq<Route>, path: string): (h: Option<Handler>)
    ensures h.None? <==> forall i :: 0 <= i < |routes| ==> routes[i].path != path
  {
    if |routes| == 0 then None
    else if routes[0].path == path then Some(routes[0].handler)
    else Dispatch(routes[1..], path)
  }

  /** A served path is served by the handler of the first route that has it. */
  lemma {:induction false} DispatchFirstMatch(routes: seq<Route>, path: string)
    requires Dispatch(routes, path).Some?
    ensures exists i :: FirstMatch(routes, path, i) && routes[i].handler == Dispatch(routes, path).value
  {
    if routes[0].path == path {
      assert FirstMatch(routes, path, 0);
    } else {
      var tail := routes[1..];
      DispatchFirstMatch(tail, path);
      var i :| FirstMatch(tail, path, i) && tail[i].handler == Dispatch(tail, path).value;
      assert FirstMatch(routes, path, i + 1);
    }
  }

  /** When no two routes share a path, every route is served: its path
      dispatches to its own handler. */
  lemma {:induction false} DistinctPathsAllServed(routes: seq<Route>, i: int)
    requires forall a, b :: 0 <= a < b < |routes| ==> routes[a].path != routes[b].path
    requires 0 <= i < |routes|
    ensures Dispatch(routes, routes[i].path) == Some(routes[i].handler)
  {
    if i > 0 {
      assert routes[0].path != routes[i].path;
      var tail := routes[1..];
      assert tail[i - 1] == routes[i];
      DistinctPathsAllServed(tail, i - 1);
    }
  }

  /** A handler registered only on route `b`, whose path an earlier route
      `a` already has, serves no path. */
  lemma ShadowedNeverServed(routes: seq<Route>, a: int, b: int)
    requires 0 <= a < b < |routes| && routes[a].path == routes[b].path
    requires forall j :: 0 <= j < |routes| && j != b ==> routes[j].handler != routes[b].handler
    ensures forall p :: Dispatch(routes, p) != Some(routes[b].handler)
  {
    forall p | Dispatch(routes, p).Some?
      ensures Dispatch(routes, p) != Some(routes[b].handler)
    {
      DispatchFirstMatch(routes, p);
      var i :| FirstMatch(routes, p, i) && routes[i].handler == Dispatch(routes, p).value;
      assert i != b by {
        assert routes[a].path != p || i <= a;
      }
    }
  }

  /** As registered, `/dashboard/temperature` is served by the handler
      registered first, and the heat-risk handler registered after it
      serves no path at all. */
  lemma HeatRiskHandlerShadowed()
    ensures Dispatch(AppRoutes, "/dashboard/temperature") == Some(TemperatureTrendHandler)
    ensures forall p :: Dispatch(AppRoutes, p) != Some(TemperatureRiskHandler)
  {
    assert FirstMatch(AppRoutes, "/dashboard/temperature", 4);
    ShadowedNeverServed(AppRoutes, 4, 6);
  }

  /** The route table with the earlier `/dashboard/temperature`
      registration dropped, so that the later, heat-risk handler is the one
      the path reaches. */
  const CorrectedRoutes: seq<Route> := AppRoutes[..4] + AppRoutes[5..]

  /** In the corrected table every path is registered once, so every
      handler in it is served, the heat-risk handler included. */
  lemma CorrectedRoutesServeAll()
    ensures Dispatch(CorrectedRoutes, "/dashboard/temperature") == Some(TemperatureRiskHandler)
    ensures forall i :: 0 <= i < |CorrectedRoutes| ==>
      Dispatch(CorrectedRoutes, CorrectedRoutes[i].path) == Some(CorrectedRoutes[i].handler)
  {
    var rs := CorrectedRoutes;
    assert |rs| == 6;
    assert rs[5] == Route("/dashboard/temperature", TemperatureRiskHandler);
    assert forall a, b :: 0 <= a < b < |rs| ==> rs[a].path != rs[b].path by {
      assert rs[0].path == "/sensor-data/range";
      assert rs[1].path == "/sensor-data/latest";
      assert rs[2].path == "/sensors";
      assert rs[3].path == "/sensor-data/series";
      assert rs[4].path == "/dashboard/noise";
      assert rs[5].path == "/dashboard/temperature";
    }
    forall i | 0 <= i < |rs|
      ensures Dispatch(rs, rs[i].path) == Some(rs[i].handler)
    {
      DistinctPathsAllServed(rs, i);
    }
    DistinctPathsAllServed(rs, 5);
  }
}
