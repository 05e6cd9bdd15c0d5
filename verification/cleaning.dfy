/** Per-table cleaning: sentinel normalisation, required-field filters and the
    codeshare default. */
module Cleaning {
  import opened Options
  import opened Tables
  import Seqs

  // ---------------------------------------------------------------------------
  // Sentinel normalisation
  // ---------------------------------------------------------------------------

  function NormalizeCell(c: Cell): Cell {
    if c == Some(Sentinel) then None else c
  }

  /** `clean` is `raw` cell by cell, except that every marker cell became absent. */
  predicate NormalizedFrom(raw: seq<Cell>, clean: seq<Cell>) {
    && |clean| == |raw|
    && forall j :: 0 <= j < |raw| ==>
         clean[j] == (if raw[j] == Some(Sentinel) then None else raw[j])
  }

  function NormalizeAirline(a: Airline): Airline {
    Airline(NormalizeCell(a.id), NormalizeCell(a.name), NormalizeCell(a.alias),
            NormalizeCell(a.iata), NormalizeCell(a.icao), NormalizeCell(a.callsign),
            NormalizeCell(a.country), NormalizeCell(a.active))
  }

  function NormalizeAirport(a: Airport): Airport {
    Airport(NormalizeCell(a.id), NormalizeCell(a.name), NormalizeCell(a.city),
            NormalizeCell(a.country), NormalizeCell(a.iata), NormalizeCell(a.icao),
            a.latitude, a.longitude,
            NormalizeCell(a.altitude), NormalizeCell(a.timezone), NormalizeCell(a.dst),
            NormalizeCell(a.tzDatabase), NormalizeCell(a.kind), NormalizeCell(a.source))
  }

  function NormalizeRoute(r: Route): Route {
    Route(NormalizeCell(r.airline), NormalizeCell(r.airlineId), NormalizeCell(r.source),
          NormalizeCell(r.sourceId), NormalizeCell(r.dest), NormalizeCell(r.destId),
          NormalizeCell(r.codeshare), r.stops, NormalizeCell(r.equipment))
  }

  /** The airlines table with every marker cell made absent. */
  function NormalizeAirlines(t: seq<Airline>): (r: seq<Airline>)
    ensures |r| == |t|
    ensures forall i :: 0 <= i < |t| ==> SentinelFree(r[i].Cells())
    ensures forall i :: 0 <= i < |t| ==> NormalizedFrom(t[i].Cells(), r[i].Cells())
  {
    seq(|t|, i requires 0 <= i < |t| => NormalizeAirline(t[i]))
  }

  /** The airports table with every marker cell made absent; the numeric
      coordinates cannot hold the marker and are kept. */
  function NormalizeAirports(t: seq<Airport>): (r: seq<Airport>)
    ensures |r| == |t|
    ensures forall i :: 0 <= i < |t| ==> SentinelFree(r[i].TextCells())
    ensures forall i :: 0 <= i < |t| ==> NormalizedFrom(t[i].TextCells(), r[i].TextCells())
    ensures forall i :: 0 <= i < |t| ==>
              r[i].latitude == t[i].latitude && r[i].longitude == t[i].longitude
  {
    seq(|t|, i requires 0 <= i < |t| => NormalizeAirport(t[i]))
  }

  /** The routes table with every marker cell made absent; the numeric stop count
      is kept. */
  function NormalizeRoutes(t: seq<Route>): (r: seq<Route>)
    ensures |r| == |t|
    ensures forall i :: 0 <= i < |t| ==> SentinelFree(r[i].TextCells())
    ensures forall i :: 0 <= i < |t| ==> NormalizedFrom(t[i].TextCells(), r[i].TextCells())
    ensures forall i :: 0 <= i < |t| ==> r[i].stops == t[i].stops
  {
    seq(|t|, i requires 0 <= i < |t| => NormalizeRoute(t[i]))
  }

  /** Normalising twice is normalising once. */
  lemma NormalizeIdempotent(airlines: seq<Airline>, airports: seq<Airport>, routes: seq<Route>)
    ensures NormalizeAirlines(NormalizeAirlines(airlines)) == NormalizeAirlines(airlines)
    ensures NormalizeAirports(NormalizeAirports(airports)) == NormalizeAirports(airports)
    ensures NormalizeRoutes(NormalizeRoutes(routes)) == NormalizeRoutes(routes)
  {
  }

  // ---------------------------------------------------------------------------
  // Required-field filters
  // ---------------------------------------------------------------------------

  predicate AirlineHasRequired(a: Airline) {
    a.name.Some? && a.country.Some?
  }

  predicate AirportHasRequired(a: Airport) {
    a.latitude.Some? && a.longitude.Some?
  }

  predicate RouteHasRequired(r: Route) {
    r.airline.Some? && r.source.Some? && r.dest.Some?
  }

  /** A raw airline whose name and country are real values: neither empty nor the
      marker. */
  predicate AirlineComplete(a: Airline) {
    a.name.Some? && a.name != Some(Sentinel) && a.country.Some? && a.country != Some(Sentinel)
  }

  /** A raw airport with both coordinates. */
  predicate AirportComplete(a: Airport) {
    a.latitude.Some? && a.longitude.Some?
  }

  /** A raw route whose airline, source and destination are real values. */
  predicate RouteComplete(r: Route) {
    && r.airline.Some? && r.airline != Some(Sentinel)
    && r.source.Some? && r.source != Some(Sentinel)
    && r.dest.Some? && r.dest != Some(Sentinel)
  }

  /** Airlines lacking a name or a country are dropped; every other row is kept as
      many times as it occurs (and in order, by `Seqs.FilterKeepsOrder`). */
  function DropIncompleteAirlines(t: seq<Airline>): (r: seq<Airline>)
    ensures forall a :: a in r ==> a in t && a.name.Some? && a.country.Some?
    ensures forall a :: multiset(r)[a] == if AirlineHasRequired(a) then multiset(t)[a] else 0
  {
    Seqs.FilterCounts(t, AirlineHasRequired);
    Seqs.Filter(t, AirlineHasRequired)
  }

  /** Airports lacking a latitude or a longitude are dropped; every other row is kept. */
  function DropIncompleteAirports(t: seq<Airport>): (r: seq<Airport>)
    ensures forall a :: a in r ==> a in t && a.latitude.Some? && a.longitude.Some?
    ensures forall a :: multiset(r)[a] == if AirportHasRequired(a) then multiset(t)[a] else 0
  {
    Seqs.FilterCounts(t, AirportHasRequired);
    Seqs.Filter(t, AirportHasRequired)
  }

  /** Routes lacking an airline, a source airport or a destination airport are
      dropped; every other row is kept. */
  function DropIncompleteRoutes(t: seq<Route>): (r: seq<Route>)
    ensures forall x :: x in r ==> x in t && x.airline.Some? && x.source.Some? && x.dest.Some?
    ensures forall x :: multiset(r)[x] == if RouteHasRequired(x) then multiset(t)[x] else 0
  {
    Seqs.FilterCounts(t, RouteHasRequired);
    Seqs.Filter(t, RouteHasRequired)
  }

  /** After normalisation a required field counts as present exactly when the raw
      cell was neither empty nor the marker, so a raw row survives cleaning iff its
      required raw cells are real values. */
  lemma SurvivesCleaning(airline: Airline, route: Route)
    ensures AirlineHasRequired(NormalizeAirline(airline)) <==>
              (airline.name.Some? && airline.name != Some(Sentinel) &&
               airline.country.Some? && airline.country != Some(Sentinel))
    ensures RouteHasRequired(NormalizeRoute(route)) <==>
              (route.airline.Some? && route.airline != Some(Sentinel) &&
               route.source.Some? && route.source != Some(Sentinel) &&
               route.dest.Some? && route.dest != Some(Sentinel))
  {
  }

  // ---------------------------------------------------------------------------
  // Codeshare default
  // ---------------------------------------------------------------------------

  /** The value an absent codeshare flag takes. */
  const DefaultCodeshare: string := "N"

  /** One route with an absent codeshare flag set to "N". */
  function WithDefaultCodeshare(x: Route): Route {
    x.(codeshare := Some(x.codeshare.GetOr(DefaultCodeshare)))
  }

  /** Every absent codeshare flag becomes "N"; a present flag and every other column
      are kept, and so is the number and order of rows. */
  function FillCodeshare(t: seq<Route>): (r: seq<Route>)
    ensures |r| == |t|
    ensures forall i :: 0 <= i < |t| ==> r[i].codeshare.Some?
    ensures forall i :: 0 <= i < |t| && t[i].codeshare.None? ==>
              r[i].codeshare == Some(DefaultCodeshare)
    ensures forall i :: 0 <= i < |t| && t[i].codeshare.Some? ==> r[i] == t[i]
    ensures forall i :: 0 <= i < |t| ==> r[i] == t[i].(codeshare := r[i].codeshare)
  {
    seq(|t|, i requires 0 <= i < |t| => WithDefaultCodeshare(t[i]))
  }

  /** Filling the default keeps a cleaned routes table clean: required fields stay
      present and no cell becomes the marker. */
  lemma FillKeepsClean(t: seq<Route>)
    requires forall i :: 0 <= i < |t| ==> RouteHasRequired(t[i]) && SentinelFree(t[i].TextCells())
    ensures forall i :: 0 <= i < |t| ==>
              RouteHasRequired(FillCodeshare(t)[i]) && SentinelFree(FillCodeshare(t)[i].TextCells())
    ensures FillCodeshare(FillCodeshare(t)) == FillCodeshare(t)
  {
    assert DefaultCodeshare != Sentinel by {
      assert |DefaultCodeshare| != |Sentinel|;
    }
    forall i | 0 <= i < |t|
      ensures SentinelFree(FillCodeshare(t)[i].TextCells())
    {
      var before, after := t[i].TextCells(), FillCodeshare(t)[i].TextCells();
      assert forall j :: 0 <= j < |after| && j != 6 ==> after[j] == before[j];
    }
  }
}
