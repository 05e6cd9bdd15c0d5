/** The three aggregate views over the cleaned, not coordinate-filtered, routes table. */
module Reports {
  import opened Options
  import opened Tables
  import opened Tally
  import Seqs

  /** How many entries the under-served and top-airport views keep (`head(10)`). */
  const TopN: nat := 10

  // ---------------------------------------------------------------------------
  // Stop-count histogram
  // ---------------------------------------------------------------------------

  /** The number of routes with `k` stops. */
  function StopsCount(rs: seq<Route>, k: int): nat {
    if rs == [] then 0
    else StopsCount(rs[..|rs| - 1], k) + (if rs[|rs| - 1].stops == Some(k) then 1 else 0)
  }

  /** The number of routes whose stop count is present. */
  function StopsPresent(rs: seq<Route>): nat {
    if rs == [] then 0
    else StopsPresent(rs[..|rs| - 1]) + (if rs[|rs| - 1].stops.Some? then 1 else 0)
  }

  /** The stop counts that occur in the table. */
  function StopValues(rs: seq<Route>): set<int> {
    set r | r in rs && r.stops.Some? :: r.stops.value
  }

  lemma StopValuesSnoc(rs: seq<Route>)
    requires rs != []
    ensures StopValues(rs) == StopValues(rs[..|rs| - 1]) +
              (if rs[|rs| - 1].stops.Some? then {rs[|rs| - 1].stops.value} else {})
  {
    Seqs.LastSplit(rs);
    assert forall r :: r in rs <==> r in rs[..|rs| - 1] || r == rs[|rs| - 1];
  }

  /** Routes per stop count, in ascending order of stop count; rows without a stop
      count are not counted (`value_counts().sort_index()`). */
  function StopHistogram(rs: seq<Route>): (h: seq<Entry<int>>)
    ensures Ascending(h) && Positive(h)
    ensures Keys(h) == StopValues(rs)
    ensures forall k :: Lookup(h, k) == StopsCount(rs, k)
    ensures Total(h) == StopsPresent(rs)
  {
    if rs == [] then []
    else
      var n := |rs| - 1;
      var h := StopHistogram(rs[..n]);
      StopValuesSnoc(rs);
      match rs[n].stops
      case None => h
      case Some(k) => AddSortedCounts(h, k); AddSorted(h, k)
  }

  /** Each histogram entry holds the number of routes with its stop count. */
  lemma StopHistogramEntries(rs: seq<Route>)
    ensures forall j :: 0 <= j < |StopHistogram(rs)| ==>
              StopHistogram(rs)[j].count == StopsCount(rs, StopHistogram(rs)[j].key)
  {
    var h := StopHistogram(rs);
    AscendingDistinct(h);
    forall j | 0 <= j < |h| ensures h[j].count == StopsCount(rs, h[j].key) {
      LookupPresent(h, j);
    }
  }

  // ---------------------------------------------------------------------------
  // Top source airports
  // ---------------------------------------------------------------------------

  /** The number of routes leaving the airport with code `code`. */
  function SourceCount(rs: seq<Route>, code: string): nat {
    if rs == [] then 0
    else SourceCount(rs[..|rs| - 1], code) + (if rs[|rs| - 1].source == Some(code) then 1 else 0)
  }

  /** The source airport codes that occur in the table. */
  function Sources(rs: seq<Route>): set<string> {
    set r | r in rs && r.source.Some? :: r.source.value
  }

  lemma SourcesSnoc(rs: seq<Route>)
    requires rs != []
    ensures Sources(rs) == Sources(rs[..|rs| - 1]) +
              (if rs[|rs| - 1].source.Some? then {rs[|rs| - 1].source.value} else {})
  {
    Seqs.LastSplit(rs);
    assert forall r :: r in rs <==> r in rs[..|rs| - 1] || r == rs[|rs| - 1];
  }

  /** Routes per source airport, one entry per code that occurs
      (`value_counts()` before its sort). */
  function SourceTally(rs: seq<Route>): (t: seq<Entry<string>>)
    ensures DistinctKeys(t) && Positive(t)
    ensures Keys(t) == Sources(rs)
    ensures forall c :: Lookup(t, c) == SourceCount(rs, c)
  {
    if rs == [] then []
    else
      var n := |rs| - 1;
      var t := SourceTally(rs[..n]);
      SourcesSnoc(rs);
      match rs[n].source
      case None => t
      case Some(c) => Bump(t, c)
  }

  /** The (at most) ten source airports with the most routes, by non-increasing
      count; which of several airports with equal counts are listed is not fixed. */
  function TopAirports(rs: seq<Route>): (top: seq<Entry<string>>)
    ensures |top| <= TopN
    ensures ByCountDescending(top) && DistinctKeys(top)
    ensures forall j :: 0 <= j < |top| ==>
              top[j].count == SourceCount(rs, top[j].key) && top[j].count > 0
    ensures Keys(top) <= Sources(rs)
    ensures forall c :: c in Sources(rs) && c !in Keys(top) ==>
              |top| == TopN && SourceCount(rs, c) <= top[TopN - 1].count
  {
    var t := SourceTally(rs);
    var sorted := SortByCount(t);
    SortKeepsDistinct(t);
    TopOfSorted(rs, t, sorted);
    Seqs.Take(sorted, TopN)
  }

  lemma TopOfSorted(rs: seq<Route>, t: seq<Entry<string>>, sorted: seq<Entry<string>>)
    requires t == SourceTally(rs)
    requires multiset(sorted) == multiset(t) && Keys(sorted) == Keys(t)
    requires ByCountDescending(sorted) && DistinctKeys(sorted)
    ensures var top := Seqs.Take(sorted, TopN);
            && (forall j :: 0 <= j < |sorted| ==>
                  sorted[j].count == SourceCount(rs, sorted[j].key) && sorted[j].count > 0)
            && Keys(top) <= Sources(rs)
            && forall c :: c in Sources(rs) && c !in Keys(top) ==>
                 |top| == TopN && SourceCount(rs, c) <= top[TopN - 1].count
  {
    SortedCountsExact(rs, t, sorted);
    TopCutoff(rs, sorted);
  }

  /** Reordering the tally keeps every entry's count equal to its airport's routes. */
  lemma SortedCountsExact(rs: seq<Route>, t: seq<Entry<string>>, sorted: seq<Entry<string>>)
    requires t == SourceTally(rs)
    requires multiset(sorted) == multiset(t)
    ensures forall j :: 0 <= j < |sorted| ==>
              sorted[j].count == SourceCount(rs, sorted[j].key) && sorted[j].count > 0
  {
    forall j | 0 <= j < |sorted|
      ensures sorted[j].count == SourceCount(rs, sorted[j].key) && sorted[j].count > 0
    {
      assert sorted[j] in multiset(t);
      var i :| 0 <= i < |t| && t[i] == sorted[j];
      LookupPresent(t, i);
    }
  }

  /** The first `TopN` entries of a table sorted by count, holding every source:
      an airport left out has no more routes than the last one listed. */
  lemma TopCutoff(rs: seq<Route>, sorted: seq<Entry<string>>)
    requires Keys(sorted) == Sources(rs) && ByCountDescending(sorted)
    requires forall j :: 0 <= j < |sorted| ==> sorted[j].count == SourceCount(rs, sorted[j].key)
    ensures var top := Seqs.Take(sorted, TopN);
            && Keys(top) <= Sources(rs)
            && forall c :: c in Sources(rs) && c !in Keys(top) ==>
                 |top| == TopN && SourceCount(rs, c) <= top[TopN - 1].count
  {
    var top := Seqs.Take(sorted, TopN);
    KeysIndex(sorted);
    KeysIndex(top);
    assert forall i :: 0 <= i < |top| ==> top[i] == sorted[i];
    forall c | c in Sources(rs) && c !in Keys(top)
      ensures |top| == TopN && SourceCount(rs, c) <= top[TopN - 1].count
    {
      var j :| 0 <= j < |sorted| && sorted[j].key == c;
      assert j >= |top|;
    }
    forall c | c in Keys(top) ensures c in Sources(rs) {
      var j :| 0 <= j < |top| && top[j].key == c;
      assert sorted[j] == top[j];
    }
  }

  // ---------------------------------------------------------------------------
  // Under-served routes
  // ---------------------------------------------------------------------------

  /** A (source airport, destination airport) code pair. */
  type Pair = (string, string)

  /** A (source, destination) group of the routes table with its row count. */
  datatype PairCount = PairCount(source: string, dest: string, count: nat)

  /** The number of route rows from `source` to `dest`, whatever their airline. */
  function RowsOnPair(rs: seq<Route>, source: string, dest: string): nat {
    if rs == [] then 0
    else
      var r := rs[|rs| - 1];
      RowsOnPair(rs[..|rs| - 1], source, dest) +
        (if r.source == Some(source) && r.dest == Some(dest) then 1 else 0)
  }

  /** The (source, destination) of every row that has both, in row order. */
  function Pairs(rs: seq<Route>): (ps: seq<Pair>)
    ensures |ps| <= |rs|
  {
    if rs == [] then []
    else
      var r := rs[|rs| - 1];
      Pairs(rs[..|rs| - 1]) +
        (if r.source.Some? && r.dest.Some? then [(r.source.value, r.dest.value)] else [])
  }

  /** Each pair occurs in `Pairs` once per row that has it. */
  lemma {:induction false} PairsCount(rs: seq<Route>)
    ensures forall p: Pair :: multiset(Pairs(rs))[p] == RowsOnPair(rs, p.0, p.1)
  {
    if rs != [] {
      PairsCount(rs[..|rs| - 1]);
    }
  }

  function HasOneRow(rs: seq<Route>): Pair -> bool {
    (p: Pair) => RowsOnPair(rs, p.0, p.1) == 1
  }

  /** The pairs with exactly one route row, each listed once, in order of first
      appearance. */
  function SinglePairs(rs: seq<Route>): (ps: seq<Pair>)
    ensures |ps| <= |rs|
    ensures forall i, j :: 0 <= i < j < |ps| ==> ps[i] != ps[j]
    ensures forall p: Pair :: p in ps <==> RowsOnPair(rs, p.0, p.1) == 1
  {
    var ps := Seqs.Filter(Pairs(rs), HasOneRow(rs));
    Seqs.FilterCounts(Pairs(rs), HasOneRow(rs));
    PairsCount(rs);
    assert forall p: Pair :: RowsOnPair(rs, p.0, p.1) == 1 ==> multiset(ps)[p] == 1;
    SinglesDistinct(ps);
    ps
  }

  lemma SinglesDistinct(ps: seq<Pair>)
    requires forall p: Pair :: multiset(ps)[p] <= 1
    ensures forall i, j :: 0 <= i < j < |ps| ==> ps[i] != ps[j]
  {
    forall i, j | 0 <= i < j < |ps| ensures ps[i] != ps[j] {
      if ps[i] == ps[j] {
        Seqs.Repeated(ps, i, j);
      }
    }
  }

  /** Up to ten (source, destination) pairs that exactly one route row serves, each
      with its count of 1; fewer than ten only when there are no others. Which ones
      are listed when there are more is not fixed. */
  function Underserved(rs: seq<Route>): (r: seq<PairCount>)
    ensures |r| <= TopN && |r| <= |rs|
    ensures forall e :: e in r ==> e.count == 1 && RowsOnPair(rs, e.source, e.dest) == 1
    ensures forall i, j :: 0 <= i < j < |r| ==>
              (r[i].source, r[i].dest) != (r[j].source, r[j].dest)
    ensures |r| < TopN ==>
              forall s, d :: RowsOnPair(rs, s, d) == 1 ==> PairCount(s, d, 1) in r
  {
    var singles := SinglePairs(rs);
    var chosen := Seqs.Take(singles, TopN);
    var r := seq(|chosen|, i requires 0 <= i < |chosen| => PairCount(chosen[i].0, chosen[i].1, 1));
    ChosenPairs(rs, singles, chosen, r);
    r
  }

  lemma ChosenPairs(rs: seq<Route>, singles: seq<Pair>, chosen: seq<Pair>, r: seq<PairCount>)
    requires singles == SinglePairs(rs) && chosen == Seqs.Take(singles, TopN)
    requires |r| == |chosen|
    requires forall i :: 0 <= i < |chosen| ==> r[i] == PairCount(chosen[i].0, chosen[i].1, 1)
    ensures forall e :: e in r ==> e.count == 1 && RowsOnPair(rs, e.source, e.dest) == 1
    ensures |r| < TopN ==>
              forall s, d :: RowsOnPair(rs, s, d) == 1 ==> PairCount(s, d, 1) in r
  {
    assert forall i :: 0 <= i < |chosen| ==> chosen[i] in singles;
    forall e | e in r ensures e.count == 1 && RowsOnPair(rs, e.source, e.dest) == 1 {
      var i :| 0 <= i < |r| && r[i] == e;
      assert chosen[i] in singles;
    }
    if |r| < TopN {
      assert chosen == singles;
      forall s, d | RowsOnPair(rs, s, d) == 1 ensures PairCount(s, d, 1) in r {
        var p: Pair := (s, d);
        assert p in singles;
        var i :| 0 <= i < |chosen| && chosen[i] == p;
        assert r[i] == PairCount(s, d, 1);
      }
    }
  }
}
