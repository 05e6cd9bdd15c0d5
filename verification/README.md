# Open Flights transform stage in Dafny

This project models the transform stage of the OpenFlights ETL script
`open_flights.py` and the three reports it computes from the cleaned routes.
The script loads three tables: airlines, airports and routes. It then does five
things in order:

- It makes every cell holding the marker `\N` absent.
- It drops the rows that lack a required field.
- It gives every route without a codeshare flag the flag `"N"`.
- It left-joins the routes twice with the airports' IATA code and coordinates,
  once on the source airport and once on the destination airport.
- It drops the joined rows that still miss a coordinate.

The reports are computed from the cleaned routes table as it stood before the
joins:

- routes per stop count, in ascending stop order;
- up to ten "under-served" (source, destination) pairs;
- the ten source airports with the most routes.

Rows are immutable records whose cells are `Option`s (`None` is a value missing
at load or a normalised cell), and tables are sequences. Each pandas call becomes a pure
function: filter, map, left join, group-count, sort or take.

- `options.dfy` holds `Option`.
- `seqs.dfy` holds order-preserving `Filter`, the positions it keeps, and `Take`
  (pandas `head`).
- `tables.dfy` holds the three row types and the marker.
- `cleaning.dfy` holds normalisation, the required-field filters and the codeshare
  default.
- `enrichment.dfy` holds the two left joins and the completeness filter.
- `tally.dfy` holds group-count tables: sorted insertion, counting and sorting by
  count.
- `reports.dfy` holds the three reports.
- `pipeline.dfy` holds the whole stage.
- `scenarios.dfy` holds small concrete tables.

In one place the code and its documentation disagree, and the model follows the
code. The under-served report is documented (open_flights.py:100) as counting the
distinct airlines on each pair. The code (`groupby(...).size()`) counts route
rows. A pair one airline flies on two rows is therefore not under-served
(`Scenarios.UnderservedCountsRows`).

Every under-served pair has count 1, so `sort_values` has only ties to order.
Its sort is not stable, so the model asserts no choice among those tied pairs.

A join key that is absent matches an airport whose IATA code is absent, as a
pandas merge matches missing keys. This cannot affect the result: by the time of
the join, every route has both codes.

## Model

| member | source | states |
|---|---|---|
| Cleaning.NormalizeAirlines | open_flights.py:39 | same number of airlines; no cell of any row is the marker; each cell equals the raw cell except that a marker cell became absent |
| Cleaning.NormalizeAirports | open_flights.py:40 | as for airlines over the text cells; latitude and longitude are unchanged |
| Cleaning.NormalizeRoutes | open_flights.py:41 | as for airlines over the text cells; the stop count is unchanged |
| Cleaning.NormalizeIdempotent | open_flights.py:39-41 | normalising a normalised table changes nothing |
| Cleaning.DropIncompleteAirlines | open_flights.py:44 | every kept airline is from the input and has a name and a country; every airline with both is kept as often as it occurs; the others are all dropped |
| Cleaning.DropIncompleteAirports | open_flights.py:45 | every kept airport has latitude and longitude; every such airport is kept as often as it occurs; the others are all dropped |
| Cleaning.DropIncompleteRoutes | open_flights.py:46 | every kept route has an airline, a source and a destination; every such route is kept as often as it occurs; the others are all dropped |
| Seqs.FilterKeepsOrder | open_flights.py:44-46 | the rows a filter keeps are exactly those at the ascending list of positions that satisfy the condition, so survivors keep their relative order |
| Seqs.FilterImage | open_flights.py:39-46 | normalising a table and then dropping rows leaves exactly the normalised images of the raw rows whose raw cells pass, once per occurrence and in raw order |
| Seqs.KeptImageHasAll | open_flights.py:44-46 | every raw row that passes the drop has its cleaned image in the cleaned table |
| Seqs.FilterConcat | open_flights.py:44-46 | filtering a concatenation is concatenating the filtered parts, so each row is filtered on its own |
| Cleaning.SurvivesCleaning | open_flights.py:39-46 | an airline or route survives normalisation plus filtering if and only if its required raw cells are present and are not the marker |
| Cleaning.FillCodeshare | open_flights.py:49 | same row count; every codeshare is present; an absent one becomes "N"; a row whose codeshare was present is unchanged; no other column of any row changes |
| Cleaning.FillKeepsClean | open_flights.py:46-49 | filling keeps required fields present and introduces no marker; filling twice is filling once |
| Enrichment.Matches | open_flights.py:52-58 | the airports a key matches are airports of the table carrying that IATA code |
| Enrichment.MatchesComplete | open_flights.py:52-58 | every airport with the code is matched as often as it occurs, so the match list is empty if and only if no airport carries the code |
| Enrichment.JoinCoords | open_flights.py:52-58 | the join yields, per input row, as many rows as airports match its code, or one row when none does |
| Enrichment.JoinOneRow | open_flights.py:52-58 | one row joined: one output row per matching airport, in airport order, carrying that airport's coordinates; with no match, the row once with absent coordinates; the route and the other side's coordinates are never altered |
| Enrichment.JoinConcat | open_flights.py:52-58 | the join of a concatenation is the concatenation of the joins, so the output keeps the routes' order |
| Enrichment.JoinDerived | open_flights.py:52-58 | every joined row comes from some input row, with coordinates from an airport carrying its code or left absent when no airport does |
| Enrichment.DropUnresolved | open_flights.py:61 | every kept row has all four coordinates and comes from the input; every complete row is kept as often as it occurs |
| Enrichment.EnrichConcat | open_flights.py:52-61 | enrichment treats each route on its own: enriching a concatenation concatenates the results |
| Enrichment.EnrichOneRoute | open_flights.py:52-61 | one route's enriched rows carry that route with coordinates of airports bearing its codes; there are none when either code matches no airport; with located airports there are exactly (source matches) × (destination matches) of them |
| Enrichment.EnrichedRowsResolve | open_flights.py:60-61 | every enriched row is an input route with all four coordinates, each endpoint's taken from an airport carrying that endpoint's code |
| Enrichment.EnrichCount | open_flights.py:52-61 | with located airports, the enriched table has exactly the sum, over routes, of source matches × destination matches rows |
| Enrichment.ResolvableRouteKept | open_flights.py:52-61 | with located airports, a route whose two codes both match some airport appears in the enriched table |
| Tally.AddSorted | open_flights.py:89 | adding a key keeps the table strictly ascending by key with positive counts, and adds exactly that key |
| Tally.AddSortedCounts | open_flights.py:89 | adding a key raises its count by one, leaves every other count alone, and raises the total by one |
| Tally.Bump | open_flights.py:115 | counting a key keeps keys distinct and counts positive, adds that key, and raises its count by one and no other |
| Tally.InsertByCount | open_flights.py:115 | inserting keeps the table ordered by non-increasing count and is a permutation of the table plus the new entry |
| Tally.SortByCount | open_flights.py:115 | the sorted table is ordered by non-increasing count and is a permutation of the input with the same keys |
| Tally.SortKeepsDistinct | open_flights.py:115 | sorting keeps keys distinct |
| Reports.StopHistogram | open_flights.py:89 | keys strictly ascending; they are exactly the stop counts that occur; each key's count is the number of routes with that stop count; the counts sum to the number of routes whose stop count is present |
| Reports.StopHistogramEntries | open_flights.py:89 | every histogram entry's count is the number of routes with its stop count |
| Reports.SourceTally | open_flights.py:115 | one entry per source code that occurs, none twice, each with the number of routes leaving it |
| Reports.TopAirports | open_flights.py:115 | at most ten airports, none twice, by non-increasing count; each count is the airport's number of routes; an airport left out has no more routes than the tenth listed |
| Reports.TopCutoff | open_flights.py:115 | the first ten of a count-sorted table of all sources hold only sources, and any source left out has no more routes than the last one listed |
| Reports.PairsCount | open_flights.py:101 | each (source, destination) pair occurs among the pairs as many times as route rows fly it |
| Reports.SinglePairs | open_flights.py:101-102 | the pairs listed are exactly those flown by one route row, each listed once |
| Reports.Underserved | open_flights.py:101-102 | at most ten pairs, none twice; each has count 1 and is flown by exactly one route row; fewer than ten only when every such pair is listed |
| Pipeline.CleanAirlines | open_flights.py:39-44 | the cleaned airlines are exactly the normalised raw airlines whose name and country are present and not the marker, once per raw occurrence and in raw order; every such raw airline is present; no cell is the marker |
| Pipeline.CleanAirports | open_flights.py:40-45 | the cleaned airports are exactly the normalised raw airports with both coordinates, once per raw occurrence and in raw order; every such raw airport is present; no text cell is the marker |
| Pipeline.CleanRoutes | open_flights.py:41-49 | the cleaned routes are exactly the raw routes with airline, source and destination present and not the marker, normalised and with an absent codeshare set to "N", once per raw occurrence and in raw order; every such raw route is present; each has a codeshare flag and no marker |
| Pipeline.CleanRoutesRows | open_flights.py:41-49 | normalise, drop and fill, taken together, map the complete raw routes in order to the cleaned routes, and keep every one of them |
| Pipeline.Run | open_flights.py:38-115 | the output tables are the raw tables cleaned, in raw order; they are clean; the enriched table is the cleaned routes joined with the cleaned airports and filtered, its rows located by cleaned airports and as many as the resolved count; the reports count the cleaned routes before the joins |
| Pipeline.RunStopCounts | open_flights.py:88-89 | a run's stop report is strictly ascending, has exactly the cleaned routes' stop counts as keys, and sums to the cleaned routes with a stop count |
| Pipeline.RunUnderserved | open_flights.py:100-102 | a run's under-served report lists at most ten distinct pairs of count 1, and lists every pair one cleaned route row flies when it has fewer than ten |
| Pipeline.RunTopAirports | open_flights.py:114-115 | a run's top-airport report lists at most ten distinct source airports of the cleaned routes by non-increasing count; one left out has no more routes than the tenth |
| Pipeline.UnresolvedRouteStillReported | open_flights.py:61-115 | a cleaned route whose source no airport carries is missing from the enriched table; it is still counted under its stop count and its source airport, and listed as under-served when it alone flies its pair and the report has room |
| Pipeline.CountsSeeRow | open_flights.py:89-115 | a row is counted under its own stop count and its own source code |
| Scenarios.SingleRouteEnriched | open_flights.py:52-61 | a route whose two codes each match one located airport is enriched into one row with both airports' coordinates |
| Scenarios.DroppedButCounted | open_flights.py:61-89 | of two zero-stop routes, one with an unknown source is dropped from the enriched table, yet both are counted under zero stops |
| Scenarios.OneDegreeRoute | open_flights.py:52-61 | AAA at (0, 0) and BBB at (0, 1): the route AAA to BBB becomes one row carrying (0, 0) and (0, 1) |
| Scenarios.UnknownSourceStillCounted | open_flights.py:61-89 | adding a route from the unknown code ZZZ leaves the enriched table at that one row, while the stop report counts two zero-stop routes |
| Scenarios.UnderservedCountsRows | open_flights.py:101-102 | a pair flown on one row is listed; a pair flown by two airlines is not; nor is a pair one airline flies on two rows |

## Left out

- Loading the CSV files and their hard-coded paths (open_flights.py:5-7, 28-30) are file I/O. The model starts from the three tables with their columns named (lines 33-35), given as records.
- The database connection and password quoting (open_flights.py:15-24) are calls into SQLAlchemy, pymysql and `quote_plus`.
- The geodesic distance column (open_flights.py:64-66) is floating-point geometry computed by geopy, which is not part of this model. Enriched rows carry no distance.
- Writing the tables with `to_sql` (open_flights.py:70-78) sends them to an external sink.
- The plots and console output (open_flights.py:80, 85-123) are rendering only.
- The pandas version quirks of `replace(r'\N', None)` and the chained `fillna(inplace=True)` are not modelled. The model follows the stated intent of lines 38 and 48: markers become absent, and absent codeshare flags become "N".
- Cell types are simplified. Latitude and longitude are reals and the stop count is an integer. Every other column, ids included, is text. Because of that, only text cells are normalised: the numeric columns cannot hold the marker, whereas a pandas column read with a marker in it would be text.
- Reports.TopAirports: among airports with equal route counts, which ones are listed and in what order is not asserted, because `value_counts` does not fix the order of ties.
- Reports.Underserved: when more than ten pairs qualify, which ten are listed is not asserted, because `groupby` orders pairs by code and `sort_values` is not stable. The model takes them in order of first appearance.
