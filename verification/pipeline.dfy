/** The transform stage end to end: clean the three tables, enrich the routes, and
    derive the three reports from the cleaned routes before enrichment. */
module Pipeline {
  import opened Options
  import opened Tables
  import opened Cleaning
  import opened Enrichment
  import opened Tally
  import opened Reports
  import Seqs

  /** The three tables as loaded, with their columns renamed. */
  datatype Dataset = Dataset(airlines: seq<Airline>, airports: seq<Airport>, routes: seq<Route>)

  /** Everything the transform stage produces. */
  datatype Processed = Processed(
    airlines: seq<Airline>, airports: seq<Airport>, routes: seq<Route>,
    enriched: seq<Joined>,
    stopCounts: seq<Entry<int>>, underserved: seq<PairCount>, topAirports: seq<Entry<string>>)

  /** The airlines table cleaned: exactly the raw airlines with a real name and
      country, normalised, once per occurrence and in their original order. */
  function CleanAirlines(t: seq<Airline>): (r: seq<Airline>)
    ensures forall a :: a in r ==> SentinelFree(a.Cells()) && AirlineHasRequired(a)
    ensures Seqs.KeptImage(r, t, AirlineComplete, NormalizeAirline)
    ensures forall i :: 0 <= i < |t| && AirlineComplete(t[i]) ==> NormalizeAirline(t[i]) in r
  {
    var n := NormalizeAirlines(t);
    assert forall a :: a in n ==> SentinelFree(a.Cells());
    Seqs.FilterImage(t, AirlineComplete, NormalizeAirline, n, AirlineHasRequired);
    Seqs.KeptImageHasAll(DropIncompleteAirlines(n), t, AirlineComplete, NormalizeAirline);
    DropIncompleteAirlines(n)
  }

  /** The airports table cleaned: exactly the raw airports with both coordinates,
      normalised, once per occurrence and in their original order. */
  function CleanAirports(t: seq<Airport>): (r: seq<Airport>)
    ensures forall a :: a in r ==> SentinelFree(a.TextCells()) && AirportHasRequired(a)
    ensures Seqs.KeptImage(r, t, AirportComplete, NormalizeAirport)
    ensures forall i :: 0 <= i < |t| && AirportComplete(t[i]) ==> NormalizeAirport(t[i]) in r
  {
    var n := NormalizeAirports(t);
    assert forall a :: a in n ==> SentinelFree(a.TextCells());
    Seqs.FilterImage(t, AirportComplete, NormalizeAirport, n, AirportHasRequired);
    Seqs.KeptImageHasAll(DropIncompleteAirports(n), t, AirportComplete, NormalizeAirport);
    DropIncompleteAirports(n)
  }

  /** The route after normalisation and the codeshare default. */
  function CleanRoute(x: Route): Route {
    WithDefaultCodeshare(NormalizeRoute(x))
  }

  /** The routes table cleaned: exactly the raw routes with a real airline, source
      and destination, normalised and given a codeshare flag, once per occurrence
      and in their original order. */
  function CleanRoutes(t: seq<Route>): (r: seq<Route>)
    ensures forall x :: x in r ==>
              SentinelFree(x.TextCells()) && RouteHasRequired(x) && x.codeshare.Some?
    ensures Seqs.KeptImage(r, t, RouteComplete, CleanRoute)
    ensures forall i :: 0 <= i < |t| && RouteComplete(t[i]) ==> CleanRoute(t[i]) in r
  {
    var n := NormalizeRoutes(t);
    var d := DropIncompleteRoutes(n);
    var f := FillCodeshare(d);
    CleanRoutesSafe(t, n, d, f);
    CleanRoutesRows(t, n, d, f);
    f
  }

  /** The three route-cleaning steps leave only complete, marker-free rows. */
  lemma CleanRoutesSafe(t: seq<Route>, n: seq<Route>, d: seq<Route>, f: seq<Route>)
    requires n == NormalizeRoutes(t) && d == DropIncompleteRoutes(n) && f == FillCodeshare(d)
    ensures forall x :: x in f ==>
              SentinelFree(x.TextCells()) && RouteHasRequired(x) && x.codeshare.Some?
  {
    assert forall x :: x in n ==> SentinelFree(x.TextCells());
    assert forall i :: 0 <= i < |d| ==> d[i] in d;
    FillKeepsClean(d);
    assert forall x :: x in f ==> exists i :: 0 <= i < |f| && f[i] == x;
  }

  /** The rows the three route-cleaning steps leave, in terms of the raw table. */
  lemma CleanRoutesRows(t: seq<Route>, n: seq<Route>, d: seq<Route>, f: seq<Route>)
    requires n == NormalizeRoutes(t) && d == DropIncompleteRoutes(n) && f == FillCodeshare(d)
    ensures Seqs.KeptImage(f, t, RouteComplete, CleanRoute)
    ensures forall i :: 0 <= i < |t| && RouteComplete(t[i]) ==> CleanRoute(t[i]) in f
  {
    RoutesKept(t, n, d);
    FilledRows(t, d, f);
    Seqs.KeptImageHasAll(f, t, RouteComplete, CleanRoute);
  }

  lemma RoutesKept(t: seq<Route>, n: seq<Route>, d: seq<Route>)
    requires n == NormalizeRoutes(t) && d == DropIncompleteRoutes(n)
    ensures Seqs.KeptImage(d, t, RouteComplete, NormalizeRoute)
  {
    Seqs.FilterImage(t, RouteComplete, NormalizeRoute, n, RouteHasRequired);
  }

  lemma FilledRows(t: seq<Route>, d: seq<Route>, f: seq<Route>)
    requires Seqs.KeptImage(d, t, RouteComplete, NormalizeRoute)
    requires f == FillCodeshare(d)
    ensures Seqs.KeptImage(f, t, RouteComplete, CleanRoute)
  {
  }

  /** The transform stage. The tables are the raw tables cleaned; the enriched table
      is the cleaned routes joined with the cleaned airports; the reports read the
      cleaned routes, not the enriched ones, so a route the completeness filter drops
      is still reported. */
  function Run(raw: Dataset): (out: Processed)
    // the cleaned tables, in terms of the raw ones
    ensures Seqs.KeptImage(out.airlines, raw.airlines, AirlineComplete, NormalizeAirline)
    ensures Seqs.KeptImage(out.airports, raw.airports, AirportComplete, NormalizeAirport)
    ensures Seqs.KeptImage(out.routes, raw.routes, RouteComplete, CleanRoute)
    ensures forall a :: a in out.airlines ==> SentinelFree(a.Cells()) && AirlineHasRequired(a)
    ensures forall a :: a in out.airports ==> SentinelFree(a.TextCells()) && AirportHasRequired(a)
    ensures forall r :: r in out.routes ==>
              SentinelFree(r.TextCells()) && RouteHasRequired(r) && r.codeshare.Some?
    // the enriched table
    ensures out.enriched == Enrich(out.routes, out.airports)
    ensures forall x :: x in out.enriched ==>
              x.route in out.routes && HasCoordinates(x) && LocatedBy(x, out.airports)
    ensures |out.enriched| == Resolved(out.routes, out.airports)
    // the reports count the cleaned routes (their full contracts: RunStopCounts,
    // RunUnderserved, RunTopAirports)
    ensures forall k :: Lookup(out.stopCounts, k) == StopsCount(out.routes, k)
    ensures forall e :: e in out.underserved ==> RowsOnPair(out.routes, e.source, e.dest) == 1
    ensures forall j :: 0 <= j < |out.topAirports| ==>
              out.topAirports[j].count == SourceCount(out.routes, out.topAirports[j].key)
  {
    var airlines := CleanAirlines(raw.airlines);
    var airports := CleanAirports(raw.airports);
    var routes := CleanRoutes(raw.routes);
    EnrichedRowsResolve(routes, airports);
    EnrichCount(routes, airports);
    Processed(airlines, airports, routes, Enrich(routes, airports),
              StopHistogram(routes), Underserved(routes), TopAirports(routes))
  }

  /** A run's stop-count report: ascending by stop count, one entry per stop count
      among the cleaned routes, summing to the routes whose stop count is present. */
  lemma RunStopCounts(raw: Dataset)
    ensures var out := Run(raw);
            && Ascending(out.stopCounts) && Positive(out.stopCounts)
            && Keys(out.stopCounts) == StopValues(out.routes)
            && Total(out.stopCounts) == StopsPresent(out.routes)
  {
    assert Run(raw).stopCounts == StopHistogram(Run(raw).routes);
  }

  /** A run's under-served report: at most ten distinct pairs of count 1, and every
      pair one cleaned route row flies when there are fewer than ten. */
  lemma RunUnderserved(raw: Dataset)
    ensures var out := Run(raw);
            && |out.underserved| <= TopN
            && (forall e :: e in out.underserved ==> e.count == 1)
            && (forall i, j :: 0 <= i < j < |out.underserved| ==>
                  (out.underserved[i].source, out.underserved[i].dest) !=
                  (out.underserved[j].source, out.underserved[j].dest))
            && (|out.underserved| < TopN ==>
                  forall s, d :: RowsOnPair(out.routes, s, d) == 1 ==> PairCount(s, d, 1) in out.underserved)
  {
    assert Run(raw).underserved == Underserved(Run(raw).routes);
  }

  /** A run's top-airport report: at most ten distinct source airports of the cleaned
      routes by non-increasing count; an airport left out has no more routes than the
      tenth listed. */
  lemma RunTopAirports(raw: Dataset)
    ensures var out := Run(raw);
            && |out.topAirports| <= TopN
            && ByCountDescending(out.topAirports) && DistinctKeys(out.topAirports)
            && Keys(out.topAirports) <= Sources(out.routes)
            && (forall c :: c in Sources(out.routes) && c !in Keys(out.topAirports) ==>
                  |out.topAirports| == TopN && SourceCount(out.routes, c) <= out.topAirports[TopN - 1].count)
  {
    assert Run(raw).topAirports == TopAirports(Run(raw).routes);
  }

  /** A cleaned route whose source code no cleaned airport carries is absent from the
      enriched table but still counted by the stop-count and top-airport reports, and
      listed as under-served when it is the only row on its pair and the report has
      room. */
  lemma UnresolvedRouteStillReported(raw: Dataset, i: nat)
    requires i < |Run(raw).routes|
    requires forall a :: a in Run(raw).airports ==> a.iata != Run(raw).routes[i].source
    ensures forall x :: x in Run(raw).enriched ==> x.route != Run(raw).routes[i]
    ensures Run(raw).routes[i].stops.Some? ==>
              Lookup(Run(raw).stopCounts, Run(raw).routes[i].stops.value) > 0
    ensures SourceCount(Run(raw).routes, Run(raw).routes[i].source.value) > 0
    ensures var r := Run(raw).routes[i];
            |Run(raw).underserved| < TopN && RowsOnPair(Run(raw).routes, r.source.value, r.dest.value) == 1 ==>
              PairCount(r.source.value, r.dest.value, 1) in Run(raw).underserved
  {
    var out := Run(raw);
    var r := out.routes[i];
    assert r in out.routes;
    forall x | x in out.enriched ensures x.route != r {
      assert LocatedBy(x, out.airports);
    }
    CountsSeeRow(out.routes, i);
  }

  /** A row is counted under its own stop count and its own source code. */
  lemma {:induction false} CountsSeeRow(rs: seq<Route>, i: nat)
    requires i < |rs|
    ensures rs[i].stops.Some? ==> StopsCount(rs, rs[i].stops.value) > 0
    ensures rs[i].source.Some? ==> SourceCount(rs, rs[i].source.value) > 0
  {
    var n := |rs| - 1;
    if i < n {
      CountsSeeRow(rs[..n], i);
    }
  }
}
