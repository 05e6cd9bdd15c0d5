/** Enrichment of the routes table: two left joins against the airports' coordinates,
    one on each endpoint code, followed by the coordinate-completeness filter. */
module Enrichment {
  import opened Options
  import opened Tables
  import Seqs

  /** A route row together with the coordinate columns the joins add. Before a join
      adds them they are absent. */
  datatype Joined = Joined(
    route: Route,
    sourceLat: Option<real>, sourceLon: Option<real>,
    destLat: Option<real>, destLon: Option<real>)

  /** Which endpoint a join resolves: the two joins differ only in this. */
  datatype Side = SourceSide | DestinationSide

  /** The airport code a join on `side` matches against the airports' IATA column. */
  function Key(row: Joined, side: Side): Cell {
    match side
    case SourceSide => row.route.source
    case DestinationSide => row.route.dest
  }

  /** `row` with the coordinate columns of `side` set. */
  function Attach(row: Joined, side: Side, lat: Option<real>, lon: Option<real>): Joined {
    match side
    case SourceSide => row.(sourceLat := lat, sourceLon := lon)
    case DestinationSide => row.(destLat := lat, destLon := lon)
  }

  /** The routes table before any join: no coordinate columns yet. */
  function Lift(routes: seq<Route>): seq<Joined> {
    seq(|routes|, i requires 0 <= i < |routes| => Joined(routes[i], None, None, None, None))
  }

  function IataIs(code: Cell): Airport -> bool {
    (a: Airport) => a.iata == code
  }

  /** The airports whose IATA code equals `code`, in table order, each as often as
      it occurs in the table. */
  function Matches(airports: seq<Airport>, code: Cell): (ms: seq<Airport>)
    ensures forall a :: a in ms ==> a in airports && a.iata == code
  {
    Seqs.Filter(airports, IataIs(code))
  }

  /** `Matches` lists every airport with the code as often as the table does, so it
      is empty exactly when no airport carries the code. */
  lemma MatchesComplete(airports: seq<Airport>, code: Cell)
    ensures forall a :: multiset(Matches(airports, code))[a] ==
              if a.iata == code then multiset(airports)[a] else 0
    ensures Matches(airports, code) == [] <==> forall a :: a in airports ==> a.iata != code
  {
    Seqs.FilterCounts(airports, IataIs(code));
    var ms := Matches(airports, code);
    forall a | a in airports && a.iata == code ensures a in ms {
      assert multiset(ms)[a] > 0;
    }
  }

  /** The rows one input row becomes in a left join: one per matching airport, or the
      row itself with absent coordinates when no airport matches. */
  function Expand(row: Joined, side: Side, airports: seq<Airport>): seq<Joined> {
    var ms := Matches(airports, Key(row, side));
    if |ms| == 0 then [Attach(row, side, None, None)]
    else seq(|ms|, j requires 0 <= j < |ms| => Attach(row, side, ms[j].latitude, ms[j].longitude))
  }

  /** How many rows a left join of `row` yields. */
  function BlockSize(row: Joined, side: Side, airports: seq<Airport>): nat {
    var k := |Matches(airports, Key(row, side))|;
    if k == 0 then 1 else k
  }

  /** The sum of the block sizes of all rows. */
  function Blocks(rows: seq<Joined>, side: Side, airports: seq<Airport>): nat {
    if rows == [] then 0
    else Blocks(rows[..|rows| - 1], side, airports) + BlockSize(rows[|rows| - 1], side, airports)
  }

  /** The left join of `rows` with the airports' (IATA, latitude, longitude) on the
      code of `side`, in row order. */
  function JoinCoords(rows: seq<Joined>, airports: seq<Airport>, side: Side): (r: seq<Joined>)
    ensures |r| == Blocks(rows, side, airports)
  {
    if rows == [] then []
    else
      var n := |rows| - 1;
      JoinCoords(rows[..n], airports, side) + Expand(rows[n], side, airports)
  }

  /** `x` is a row the join on `side` can make of `row`: `row` with that side's
      coordinates taken from an airport carrying the row's code, or left absent when
      no airport carries it. */
  ghost predicate Derived(x: Joined, row: Joined, side: Side, airports: seq<Airport>) {
    || (exists a :: a in airports && a.iata == Key(row, side) &&
          x == Attach(row, side, a.latitude, a.longitude))
    || ((forall a :: a in airports ==> a.iata != Key(row, side)) &&
          x == Attach(row, side, None, None))
  }

  lemma JoinSnoc(rows: seq<Joined>, row: Joined, airports: seq<Airport>, side: Side)
    ensures JoinCoords(rows + [row], airports, side) ==
              JoinCoords(rows, airports, side) + Expand(row, side, airports)
  {
    assert (rows + [row])[..|rows|] == rows;
  }

  /** The join handles each row on its own: joining a concatenation is concatenating
      the joins. */
  lemma {:induction false} JoinConcat(a: seq<Joined>, b: seq<Joined>, airports: seq<Airport>, side: Side)
    ensures JoinCoords(a + b, airports, side) ==
              JoinCoords(a, airports, side) + JoinCoords(b, airports, side)
  {
    if b == [] {
      assert a + b == a;
    } else {
      var n := |b| - 1;
      var init, last := b[..n], b[n];
      JoinConcat(a, init, airports, side);
      Seqs.SplitLast(a, b);
      Seqs.LastSplit(b);
      JoinSnoc(a + init, last, airports, side);
      JoinSnoc(init, last, airports, side);
      Seqs.Associative(JoinCoords(a, airports, side), JoinCoords(init, airports, side),
                       Expand(last, side, airports));
    }
  }

  /** What the join makes of one row: if k >= 1 airports carry the row's code, k rows
      carrying those airports' coordinates in table order; if none does, the row once
      with that side's coordinates absent. The route's own columns and the other
      side's coordinates are never changed. */
  lemma JoinOneRow(row: Joined, airports: seq<Airport>, side: Side)
    ensures var out := JoinCoords([row], airports, side);
            var ms := Matches(airports, Key(row, side));
            && (ms == [] ==> out == [Attach(row, side, None, None)])
            && (ms != [] ==>
                  && |out| == |ms|
                  && forall j :: 0 <= j < |ms| ==>
                       out[j] == Attach(row, side, ms[j].latitude, ms[j].longitude))
            && (forall x :: x in out ==> x.route == row.route)
            && (forall x :: x in out ==>
                  && (side == SourceSide ==> x.destLat == row.destLat && x.destLon == row.destLon)
                  && (side == DestinationSide ==> x.sourceLat == row.sourceLat && x.sourceLon == row.sourceLon))
  {
    JoinSingle(row, airports, side);
    var out := Expand(row, side, airports);
    forall x | x in out
      ensures x.route == row.route
      ensures side == SourceSide ==> x.destLat == row.destLat && x.destLon == row.destLon
      ensures side == DestinationSide ==> x.sourceLat == row.sourceLat && x.sourceLon == row.sourceLon
    {
      var j :| 0 <= j < |out| && out[j] == x;
    }
  }

  /** Joining a one-row table is expanding that row. */
  lemma JoinSingle(row: Joined, airports: seq<Airport>, side: Side)
    ensures JoinCoords([row], airports, side) == Expand(row, side, airports)
  {
    JoinSnoc([], row, airports, side);
    assert [] + [row] == [row];
  }

  lemma ExpandDerived(row: Joined, side: Side, airports: seq<Airport>)
    ensures forall x :: x in Expand(row, side, airports) ==> Derived(x, row, side, airports)
  {
    var ms := Matches(airports, Key(row, side));
    MatchesComplete(airports, Key(row, side));
    if |ms| != 0 {
      var e := Expand(row, side, airports);
      forall x | x in e ensures Derived(x, row, side, airports) {
        var j :| 0 <= j < |e| && x == e[j];
        assert ms[j] in ms;
      }
    }
  }

  /** Every row of a join's output is derived from some input row. */
  lemma {:induction false} JoinDerived(rows: seq<Joined>, airports: seq<Airport>, side: Side)
    ensures forall x :: x in JoinCoords(rows, airports, side) ==>
              exists row :: row in rows && Derived(x, row, side, airports)
  {
    if rows != [] {
      var n := |rows| - 1;
      JoinDerived(rows[..n], airports, side);
      var init, last := rows[..n], rows[n];
      Seqs.LastSplit(rows);
      JoinSnoc(init, last, airports, side);
      forall x | x in JoinCoords(rows, airports, side)
        ensures exists row :: row in rows && Derived(x, row, side, airports)
      {
        if x in JoinCoords(init, airports, side) {
          var row :| row in init && Derived(x, row, side, airports);
          assert row in rows;
        } else {
          ExpandDerived(last, side, airports);
        }
      }
    }
  }

  // ---------------------------------------------------------------------------
  // Completeness filter and the enrichment as a whole
  // ---------------------------------------------------------------------------

  predicate HasCoordinates(x: Joined) {
    x.sourceLat.Some? && x.sourceLon.Some? && x.destLat.Some? && x.destLon.Some?
  }

  /** Joined rows missing any of the four coordinates are dropped; every complete row
      is kept as often as it occurs. */
  function DropUnresolved(rows: seq<Joined>): (r: seq<Joined>)
    ensures forall x :: x in r ==> x in rows && HasCoordinates(x)
    ensures forall x :: multiset(r)[x] == if HasCoordinates(x) then multiset(rows)[x] else 0
  {
    Seqs.FilterCounts(rows, HasCoordinates);
    Seqs.Filter(rows, HasCoordinates)
  }

  /** The routes joined to their source and destination coordinates, keeping only
      those with all four coordinates. */
  function Enrich(routes: seq<Route>, airports: seq<Airport>): seq<Joined> {
    DropUnresolved(JoinCoords(JoinCoords(Lift(routes), airports, SourceSide), airports, DestinationSide))
  }

  /** Every airport row has both coordinates, as after the airports' required-field
      filter. */
  predicate AirportsLocated(airports: seq<Airport>) {
    forall a :: a in airports ==> a.latitude.Some? && a.longitude.Some?
  }

  /** Both endpoints of `x` carry the coordinates of some airport with the route's
      code for that endpoint. */
  ghost predicate LocatedBy(x: Joined, airports: seq<Airport>) {
    && (exists a :: a in airports && a.iata == x.route.source &&
          x.sourceLat == a.latitude && x.sourceLon == a.longitude)
    && (exists b :: b in airports && b.iata == x.route.dest &&
          x.destLat == b.latitude && x.destLon == b.longitude)
  }

  /** The number of enriched rows the routes should yield: per route, the number of
      airports with its source code times the number with its destination code. */
  function Resolved(routes: seq<Route>, airports: seq<Airport>): nat {
    if routes == [] then 0
    else
      var r := routes[|routes| - 1];
      Resolved(routes[..|routes| - 1], airports) +
        |Matches(airports, r.source)| * |Matches(airports, r.dest)|
  }

  lemma LiftConcat(a: seq<Route>, b: seq<Route>)
    ensures Lift(a + b) == Lift(a) + Lift(b)
  {
  }

  /** Enrichment handles each route on its own. */
  lemma EnrichConcat(a: seq<Route>, b: seq<Route>, airports: seq<Airport>)
    ensures Enrich(a + b, airports) == Enrich(a, airports) + Enrich(b, airports)
  {
    LiftConcat(a, b);
    JoinConcat(Lift(a), Lift(b), airports, SourceSide);
    JoinConcat(JoinCoords(Lift(a), airports, SourceSide), JoinCoords(Lift(b), airports, SourceSide),
               airports, DestinationSide);
    Seqs.FilterConcat(JoinCoords(JoinCoords(Lift(a), airports, SourceSide), airports, DestinationSide),
                      JoinCoords(JoinCoords(Lift(b), airports, SourceSide), airports, DestinationSide),
                      HasCoordinates);
  }

  /** One row with source coordinates, joined on its destination and filtered:
      one complete row per airport with the destination code. */
  lemma ExpandDestinationCount(row: Joined, airports: seq<Airport>)
    requires AirportsLocated(airports)
    requires row.sourceLat.Some? && row.sourceLon.Some?
    ensures |DropUnresolved(Expand(row, DestinationSide, airports))| ==
              |Matches(airports, row.route.dest)|
  {
    var block := Expand(row, DestinationSide, airports);
    var ms := Matches(airports, row.route.dest);
    if |ms| == 0 {
      Seqs.FilterNone(block, HasCoordinates);
    } else {
      forall j | 0 <= j < |block| ensures HasCoordinates(block[j]) {
        assert ms[j] in ms;
      }
      Seqs.FilterAll(block, HasCoordinates);
    }
  }

  /** The second join followed by the completeness filter, over rows of one route
      whose source coordinates are already present: each row yields one complete row
      per airport with the destination code. */
  lemma {:induction false} SecondJoinCount(rows: seq<Joined>, route: Route, airports: seq<Airport>)
    requires AirportsLocated(airports)
    requires forall y :: y in rows ==> y.route == route && y.sourceLat.Some? && y.sourceLon.Some?
    ensures |DropUnresolved(JoinCoords(rows, airports, DestinationSide))| ==
              |rows| * |Matches(airports, route.dest)|
  {
    if rows != [] {
      var n := |rows| - 1;
      var init, last := rows[..n], rows[n];
      Seqs.LastSplit(rows);
      assert forall y :: y in init ==> y in rows;
      SecondJoinCount(init, route, airports);
      JoinSnoc(init, last, airports, DestinationSide);
      Seqs.FilterConcat(JoinCoords(init, airports, DestinationSide),
                        Expand(last, DestinationSide, airports), HasCoordinates);
      assert last in rows;
      ExpandDestinationCount(last, airports);
      var m := |Matches(airports, route.dest)|;
      assert |DropUnresolved(JoinCoords(rows, airports, DestinationSide))| == |init| * m + m;
      MultiplySuccessor(|init|, m);
    }
  }

  lemma PositiveProduct(a: nat, b: nat)
    requires a > 0 && b > 0
    ensures a * b > 0
  {
  }

  lemma MultiplySuccessor(k: nat, m: nat)
    ensures (k + 1) * m == k * m + m
  {
  }

  /** A derived row whose coordinates on `side` are present took them from an
      airport carrying the row's code. */
  lemma DerivedFromAirport(x: Joined, row: Joined, side: Side, airports: seq<Airport>)
    requires Derived(x, row, side, airports)
    requires side == SourceSide ==> x.sourceLat.Some?
    requires side == DestinationSide ==> x.destLat.Some?
    ensures exists a :: a in airports && a.iata == Key(row, side) &&
              x == Attach(row, side, a.latitude, a.longitude)
  {
  }

  lemma LiftOne(r: Route) returns (l: Joined)
    ensures l == Joined(r, None, None, None, None) && Lift([r]) == [l]
  {
    l := Joined(r, None, None, None, None);
  }

  /** When every airport is located and the source code matches, every row of the
      source join carries source coordinates. */
  lemma FirstJoinLocated(l: Joined, airports: seq<Airport>)
    requires AirportsLocated(airports)
    requires Matches(airports, l.route.source) != []
    ensures forall y :: y in JoinCoords([l], airports, SourceSide) ==>
              y.route == l.route && y.sourceLat.Some? && y.sourceLon.Some?
  {
    JoinDerived([l], airports, SourceSide);
    MatchesComplete(airports, l.route.source);
    forall y | y in JoinCoords([l], airports, SourceSide)
      ensures y.route == l.route && y.sourceLat.Some? && y.sourceLon.Some?
    {
      var row :| row in [l] && Derived(y, row, SourceSide, airports);
      assert row == l;
    }
  }

  /** Every row enrichment makes of one route is that route with both endpoints
      resolved from airports carrying its codes. */
  lemma OneRouteRows(r: Route, airports: seq<Airport>)
    ensures forall x :: x in Enrich([r], airports) ==>
              x.route == r && HasCoordinates(x) && LocatedBy(x, airports)
  {
    var l := LiftOne(r);
    var j1 := JoinCoords([l], airports, SourceSide);
    var j2 := JoinCoords(j1, airports, DestinationSide);
    JoinSingle(l, airports, SourceSide);
    ExpandDerived(l, SourceSide, airports);
    JoinDerived(j1, airports, DestinationSide);
    forall x | x in DropUnresolved(j2)
      ensures x.route == r && HasCoordinates(x) && LocatedBy(x, airports)
    {
      var y :| y in j1 && Derived(x, y, DestinationSide, airports);
      TwoJoinsLocate(x, y, r, airports);
    }
  }

  /** A complete row the destination join made of a row the source join made of the
      lifted route `r` is `r` with both endpoints taken from matching airports. */
  lemma TwoJoinsLocate(x: Joined, y: Joined, r: Route, airports: seq<Airport>)
    requires HasCoordinates(x)
    requires Derived(x, y, DestinationSide, airports)
    requires Derived(y, Joined(r, None, None, None, None), SourceSide, airports)
    ensures x.route == r && LocatedBy(x, airports)
  {
    var l := Joined(r, None, None, None, None);
    DerivedFromAirport(x, y, DestinationSide, airports);
    var b :| b in airports && b.iata == y.route.dest &&
             x == Attach(y, DestinationSide, b.latitude, b.longitude);
    DerivedFromAirport(y, l, SourceSide, airports);
    var a :| a in airports && a.iata == r.source &&
             y == Attach(l, SourceSide, a.latitude, a.longitude);
  }

  /** What enrichment makes of one route: only rows of that route whose coordinates
      come from airports carrying its codes; nothing when either code matches no
      airport; and, when every airport is located, as many rows as the number of
      matching source airports times the number of matching destination airports. */
  lemma EnrichOneRoute(r: Route, airports: seq<Airport>)
    ensures forall x :: x in Enrich([r], airports) ==>
              x.route == r && HasCoordinates(x) && LocatedBy(x, airports)
    ensures Matches(airports, r.source) == [] || Matches(airports, r.dest) == [] ==>
              Enrich([r], airports) == []
    ensures AirportsLocated(airports) ==>
              |Enrich([r], airports)| == |Matches(airports, r.source)| * |Matches(airports, r.dest)|
  {
    OneRouteRows(r, airports);
    var e := Enrich([r], airports);
    MatchesComplete(airports, r.source);
    MatchesComplete(airports, r.dest);
    if e != [] {
      var x := e[0];
      assert x in e;
      var a :| a in airports && a.iata == r.source && x.sourceLat == a.latitude && x.sourceLon == a.longitude;
      var b :| b in airports && b.iata == r.dest && x.destLat == b.latitude && x.destLon == b.longitude;
    }
    if AirportsLocated(airports) {
      var l := LiftOne(r);
      var ks, kd := |Matches(airports, r.source)|, |Matches(airports, r.dest)|;
      if ks != 0 {
        FirstJoinLocated(l, airports);
        JoinOneRow(l, airports, SourceSide);
        var j1 := JoinCoords([l], airports, SourceSide);
        assert |j1| == ks;
        SecondJoinCount(j1, r, airports);
        assert e == DropUnresolved(JoinCoords(j1, airports, DestinationSide));
        assert |e| == ks * kd;
      } else {
        assert e == [];
        assert ks * kd == 0;
      }
    }
  }

  /** Every enriched row is a route of the input with both endpoints resolved to
      coordinates of airports carrying its codes: a route whose source or
      destination code matches no airport never appears. */
  lemma {:induction false} EnrichedRowsResolve(routes: seq<Route>, airports: seq<Airport>)
    ensures forall x :: x in Enrich(routes, airports) ==>
              x.route in routes && HasCoordinates(x) && LocatedBy(x, airports)
  {
    if routes != [] {
      var n := |routes| - 1;
      EnrichedRowsResolve(routes[..n], airports);
      Seqs.LastSplit(routes);
      EnrichConcat(routes[..n], [routes[n]], airports);
      EnrichOneRoute(routes[n], airports);
      assert forall r :: r in routes[..n] ==> r in routes;
    }
  }

  /** When every airport is located, enrichment yields exactly `Resolved` rows. */
  lemma {:induction false} EnrichCount(routes: seq<Route>, airports: seq<Airport>)
    requires AirportsLocated(airports)
    ensures |Enrich(routes, airports)| == Resolved(routes, airports)
  {
    if routes != [] {
      var n := |routes| - 1;
      EnrichCount(routes[..n], airports);
      Seqs.LastSplit(routes);
      EnrichConcat(routes[..n], [routes[n]], airports);
      EnrichOneRoute(routes[n], airports);
    }
  }

  /** When every airport is located, a route whose source and destination codes both
      match some airport survives enrichment. */
  lemma ResolvableRouteKept(routes: seq<Route>, airports: seq<Airport>, i: nat)
    requires AirportsLocated(airports)
    requires i < |routes|
    requires exists a :: a in airports && a.iata == routes[i].source
    requires exists b :: b in airports && b.iata == routes[i].dest
    ensures exists x :: x in Enrich(routes, airports) && x.route == routes[i]
  {
    var r := routes[i];
    Seqs.SplitAround(routes, i);
    EnrichConcat(routes[..i] + [r], routes[i + 1..], airports);
    EnrichConcat(routes[..i], [r], airports);
    MatchesComplete(airports, r.source);
    MatchesComplete(airports, r.dest);
    EnrichOneRoute(r, airports);
    var one := Enrich([r], airports);
    var ks, kd := |Matches(airports, r.source)|, |Matches(airports, r.dest)|;
    assert ks > 0 && kd > 0;
    assert |one| == ks * kd;
    PositiveProduct(ks, kd);
    var x := one[0];
    assert x in Enrich(routes[..i] + [r], airports);
    assert x in Enrich(routes, airports);
  }
}
