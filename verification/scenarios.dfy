/** Small concrete tables on which the pipeline's documented behaviour can be seen. */
module Scenarios {
  import opened Options
  import opened Tables
  import opened Enrichment
  import opened Tally
  import opened Reports
  import Seqs

  /** An airport row with only its IATA code and coordinates filled in. */
  function Place(code: string, lat: real, lon: real): Airport {
    Airport(None, None, None, None, Some(code), None, Some(lat), Some(lon),
            None, None, None, None, None, None)
  }

  /** A cleaned route row with airline code, endpoints and stop count. */
  function Hop(airline: string, source: string, dest: string, stops: int): Route {
    Route(Some(airline), None, Some(source), None, Some(dest), None, Some("N"), Some(stops), None)
  }

  lemma MatchesOfTwo(a: Airport, b: Airport, code: Cell)
    ensures Matches([a, b], code) ==
              (if a.iata == code then [a] else []) + (if b.iata == code then [b] else [])
  {
    Seqs.FilterSnoc([], a, IataIs(code));
    Seqs.FilterSnoc([a], b, IataIs(code));
    assert [] + [a] == [a];
    assert [a] + [b] == [a, b];
  }

  /** A route whose endpoints each match exactly one located airport is enriched
      into exactly one row carrying both airports' coordinates. */
  lemma SingleRouteEnriched(a: Airport, b: Airport, r: Route)
    requires a.iata == r.source && b.iata == r.dest && a.iata != b.iata
    requires a.latitude.Some? && a.longitude.Some? && b.latitude.Some? && b.longitude.Some?
    ensures Enrich([r], [a, b]) == [Joined(r, a.latitude, a.longitude, b.latitude, b.longitude)]
  {
    MatchesOfTwo(a, b, r.source);
    MatchesOfTwo(a, b, r.dest);
    var l := LiftOne(r);
    JoinOneRow(l, [a, b], SourceSide);
    var y := Joined(r, a.latitude, a.longitude, None, None);
    assert JoinCoords([l], [a, b], SourceSide) == [y];
    JoinOneRow(y, [a, b], DestinationSide);
    var x := Joined(r, a.latitude, a.longitude, b.latitude, b.longitude);
    assert JoinCoords([y], [a, b], DestinationSide) == [x];
    Seqs.FilterAll([x], HasCoordinates);
  }

  /** A route whose source code no airport carries leaves nothing in the enriched
      table. */
  lemma UnmatchedSourceDropped(a: Airport, b: Airport, r: Route)
    requires r.source != a.iata && r.source != b.iata
    ensures Enrich([r], [a, b]) == []
  {
    MatchesOfTwo(a, b, r.source);
    EnrichOneRoute(r, [a, b]);
  }

  /** Of two routes with zero stops, the one whose source is unknown is dropped from
      the enriched table, yet both are counted under zero stops. */
  lemma DroppedButCounted(a: Airport, b: Airport, r1: Route, r2: Route)
    requires a.iata == r1.source && b.iata == r1.dest && a.iata != b.iata
    requires a.latitude.Some? && a.longitude.Some? && b.latitude.Some? && b.longitude.Some?
    requires r2.source != a.iata && r2.source != b.iata
    requires r1.stops == Some(0) && r2.stops == Some(0)
    ensures Enrich([r1, r2], [a, b]) == [Joined(r1, a.latitude, a.longitude, b.latitude, b.longitude)]
    ensures Lookup(StopHistogram([r1, r2]), 0) == 2
  {
    SingleRouteEnriched(a, b, r1);
    UnmatchedSourceDropped(a, b, r2);
    EnrichConcat([r1], [r2], [a, b]);
    Seqs.PairConcat(r1, r2);
    BothStopsCounted(r1, r2);
  }

  lemma BothStopsCounted(r1: Route, r2: Route)
    requires r1.stops == Some(0) && r2.stops == Some(0)
    ensures Lookup(StopHistogram([r1, r2]), 0) == 2
  {
    assert [r1, r2][..1] == [r1];
    assert [r1][..0] == [];
    assert StopsCount([r1], 0) == 1;
  }

  /** Airports AAA at (0, 0) and BBB at (0, 1), one route AAA to BBB: the enriched
      table is that route once, with both endpoints' coordinates. */
  lemma OneDegreeRoute()
    ensures var airports := [Place("AAA", 0.0, 0.0), Place("BBB", 0.0, 1.0)];
            var route := Hop("XX", "AAA", "BBB", 0);
            Enrich([route], airports) == [Joined(route, Some(0.0), Some(0.0), Some(0.0), Some(1.0))]
  {
    assert "AAA" != "BBB" by { assert "AAA"[0] != "BBB"[0]; }
    SingleRouteEnriched(Place("AAA", 0.0, 0.0), Place("BBB", 0.0, 1.0), Hop("XX", "AAA", "BBB", 0));
  }

  /** The same airports, and a second route from the unknown code ZZZ: only the first
      route is enriched, but the stop-count report counts both. */
  lemma UnknownSourceStillCounted()
    ensures var airports := [Place("AAA", 0.0, 0.0), Place("BBB", 0.0, 1.0)];
            var routes := [Hop("XX", "AAA", "BBB", 0), Hop("XX", "ZZZ", "BBB", 0)];
            && Enrich(routes, airports) == [Joined(routes[0], Some(0.0), Some(0.0), Some(0.0), Some(1.0))]
            && Lookup(StopHistogram(routes), 0) == 2
  {
    assert "AAA" != "BBB" by { assert "AAA"[0] != "BBB"[0]; }
    assert "ZZZ" != "AAA" && "ZZZ" != "BBB" by { assert "ZZZ"[0] != "AAA"[0] && "ZZZ"[0] != "BBB"[0]; }
    DroppedButCounted(Place("AAA", 0.0, 0.0), Place("BBB", 0.0, 1.0),
                      Hop("XX", "AAA", "BBB", 0), Hop("XX", "ZZZ", "BBB", 0));
  }

  /** Under-served pairs count route rows: a pair flown once is listed; a pair flown
      by two airlines is not; and neither is a pair one airline flies on two rows. */
  lemma UnderservedCountsRows()
    ensures var routes := [Hop("A1", "AAA", "BBB", 0),
                           Hop("A1", "AAA", "CCC", 0), Hop("A2", "AAA", "CCC", 0),
                           Hop("A1", "BBB", "CCC", 0), Hop("A1", "BBB", "CCC", 0)];
            && PairCount("AAA", "BBB", 1) in Underserved(routes)
            && (forall e :: e in Underserved(routes) ==> (e.source, e.dest) != ("AAA", "CCC"))
            && (forall e :: e in Underserved(routes) ==> (e.source, e.dest) != ("BBB", "CCC"))
  {
    var h0, h1, h2 := Hop("A1", "AAA", "BBB", 0), Hop("A1", "AAA", "CCC", 0), Hop("A2", "AAA", "CCC", 0);
    var h3 := Hop("A1", "BBB", "CCC", 0);
    var routes := [h0, h1, h2, h3, h3];
    assert "AAA" != "BBB" && "AAA" != "CCC" && "BBB" != "CCC" by {
      assert "AAA"[0] != "BBB"[0] && "AAA"[0] != "CCC"[0] && "BBB"[0] != "CCC"[0];
    }
    assert routes[..4] == [h0, h1, h2, h3];
    assert [h0, h1, h2, h3][..3] == [h0, h1, h2];
    assert [h0, h1, h2][..2] == [h0, h1];
    assert [h0, h1][..1] == [h0];
    assert [h0][..0] == [];
    assert RowsOnPair([h0], "AAA", "BBB") == 1;
    assert RowsOnPair([h0, h1], "AAA", "BBB") == 1;
    assert RowsOnPair([h0, h1, h2], "AAA", "BBB") == 1;
    assert RowsOnPair([h0, h1, h2, h3], "AAA", "BBB") == 1;
    assert RowsOnPair(routes, "AAA", "BBB") == 1;
    assert RowsOnPair([h0], "AAA", "CCC") == 0;
    assert RowsOnPair([h0, h1], "AAA", "CCC") == 1;
    assert RowsOnPair([h0, h1, h2], "AAA", "CCC") == 2;
    assert RowsOnPair(routes, "AAA", "CCC") == 2;
    assert RowsOnPair([h0], "BBB", "CCC") == 0;
    assert RowsOnPair([h0, h1], "BBB", "CCC") == 0;
    assert RowsOnPair([h0, h1, h2], "BBB", "CCC") == 0;
    assert RowsOnPair([h0, h1, h2, h3], "BBB", "CCC") == 1;
    assert RowsOnPair(routes, "BBB", "CCC") == 2;
  }
}
