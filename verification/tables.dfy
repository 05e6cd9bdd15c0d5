/** The three OpenFlights tables after loading and column renaming: one record per row,
    with the fixed column layout the loader assigns. */
module Tables {
  import opened Options

  /** A text cell; `None` is an absent value. */
  type Cell = Option<string>

  /** The dataset's missing-value marker: a backslash followed by `N`. */
  const Sentinel: string := "\\N"

  /** A row of the airlines table. */
  datatype Airline = Airline(
    id: Cell, name: Cell, alias: Cell, iata: Cell, icao: Cell,
    callsign: Cell, country: Cell, active: Cell)
  {
    /** Every cell of the row, in column order. */
    function Cells(): seq<Cell> {
      [id, name, alias, iata, icao, callsign, country, active]
    }
  }

  /** A row of the airports table. Latitude and longitude are the columns read as numbers. */
  datatype Airport = Airport(
    id: Cell, name: Cell, city: Cell, country: Cell, iata: Cell, icao: Cell,
    latitude: Option<real>, longitude: Option<real>,
    altitude: Cell, timezone: Cell, dst: Cell, tzDatabase: Cell, kind: Cell, source: Cell)
  {
    /** Every text cell of the row, in column order. */
    function TextCells(): seq<Cell> {
      [id, name, city, country, iata, icao, altitude, timezone, dst, tzDatabase, kind, source]
    }
  }

  /** A row of the routes table. Stops is the column read as a number. */
  datatype Route = Route(
    airline: Cell, airlineId: Cell, source: Cell, sourceId: Cell,
    dest: Cell, destId: Cell, codeshare: Cell, stops: Option<int>, equipment: Cell)
  {
    /** Every text cell of the row, in column order. */
    function TextCells(): seq<Cell> {
      [airline, airlineId, source, sourceId, dest, destId, codeshare, equipment]
    }
  }

  /** No cell holds the missing-value marker. */
  predicate SentinelFree(cells: seq<Cell>) {
    forall j :: 0 <= j < |cells| ==> cells[j] != Some(Sentinel)
  }
}
