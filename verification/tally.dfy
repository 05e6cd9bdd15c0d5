/** Group-count tables: one entry per distinct key with the number of rows that had
    it, as pandas' `value_counts` and `groupby(...).size()` produce. */
module Tally {

  datatype Entry<K> = Entry(key: K, count: nat)

  /** The count recorded for `k`; 0 when `k` has no entry. */
  function Lookup<K(==)>(t: seq<Entry<K>>, k: K): nat {
    if t == [] then 0
    else if t[0].key == k then t[0].count
    else Lookup(t[1..], k)
  }

  function Keys<K>(t: seq<Entry<K>>): set<K> {
    if t == [] then {} else {t[0].key} + Keys(t[1..])
  }

  /** The sum of all counts. */
  function Total<K>(t: seq<Entry<K>>): nat {
    if t == [] then 0 else t[0].count + Total(t[1..])
  }

  predicate DistinctKeys<K(==)>(t: seq<Entry<K>>) {
    forall i, j :: 0 <= i < j < |t| ==> t[i].key != t[j].key
  }

  /** Every key present has been counted at least once. */
  predicate Positive<K>(t: seq<Entry<K>>) {
    forall j :: 0 <= j < |t| ==> t[j].count > 0
  }

  /** Keys strictly ascending, as `sort_index` leaves them. */
  predicate Ascending(t: seq<Entry<int>>) {
    forall i, j :: 0 <= i < j < |t| ==> t[i].key < t[j].key
  }

  /** Counts non-increasing, as `value_counts` leaves them. */
  predicate ByCountDescending<K>(t: seq<Entry<K>>) {
    forall i, j :: 0 <= i < j < |t| ==> t[i].count >= t[j].count
  }

  /** `Keys` is the set of keys at the table's positions. */
  lemma {:induction false} KeysIndex<K>(t: seq<Entry<K>>)
    ensures forall j :: 0 <= j < |t| ==> t[j].key in Keys(t)
    ensures forall k :: k in Keys(t) ==> exists j :: 0 <= j < |t| && t[j].key == k
  {
    if t != [] {
      KeysIndex(t[1..]);
      forall j | 0 < j < |t| ensures t[j].key in Keys(t) {
        assert t[1..][j - 1] == t[j];
      }
      forall k | k in Keys(t) ensures exists j :: 0 <= j < |t| && t[j].key == k {
        if k != t[0].key {
          var j :| 0 <= j < |t[1..]| && t[1..][j].key == k;
          assert t[j + 1].key == k;
        }
      }
    }
  }

  lemma KeysCons<K>(x: Entry<K>, t: seq<Entry<K>>)
    ensures Keys([x] + t) == {x.key} + Keys(t)
  {
    assert ([x] + t)[1..] == t;
  }

  lemma DistinctCons<K>(x: Entry<K>, t: seq<Entry<K>>)
    requires DistinctKeys(t) && x.key !in Keys(t)
    ensures DistinctKeys([x] + t)
  {
    KeysIndex(t);
  }

  lemma DistinctHead<K>(t: seq<Entry<K>>)
    requires DistinctKeys(t) && t != []
    ensures t[0].key !in Keys(t[1..])
  {
    KeysIndex(t[1..]);
    assert forall j :: 0 <= j < |t[1..]| ==> t[1..][j] == t[j + 1];
  }

  lemma AscendingCons(x: Entry<int>, t: seq<Entry<int>>)
    requires Ascending(t) && forall k :: k in Keys(t) ==> x.key < k
    ensures Ascending([x] + t)
  {
    KeysIndex(t);
  }

  lemma AscendingHead(t: seq<Entry<int>>)
    requires Ascending(t) && t != []
    ensures forall k :: k in Keys(t[1..]) ==> t[0].key < k
  {
    KeysIndex(t[1..]);
    forall k | k in Keys(t[1..]) ensures t[0].key < k {
      var j :| 0 <= j < |t[1..]| && t[1..][j].key == k;
      assert t[j + 1].key == k;
    }
  }

  lemma DescendingCons<K>(x: Entry<K>, t: seq<Entry<K>>)
    requires ByCountDescending(t) && forall y :: y in t ==> y.count <= x.count
    ensures ByCountDescending([x] + t)
  {
    assert forall j :: 0 <= j < |t| ==> t[j] in t;
  }

  lemma DescendingHead<K>(t: seq<Entry<K>>)
    requires ByCountDescending(t) && t != []
    ensures forall y :: y in t[1..] ==> y.count <= t[0].count
  {
    forall y | y in t[1..] ensures y.count <= t[0].count {
      var j :| 0 <= j < |t[1..]| && t[1..][j] == y;
      assert t[j + 1] == y;
    }
  }

  lemma {:induction false} LookupAbsent<K>(t: seq<Entry<K>>, k: K)
    requires k !in Keys(t)
    ensures Lookup(t, k) == 0
  {
    if t != [] {
      LookupAbsent(t[1..], k);
    }
  }

  /** In a table with distinct keys, an entry's count is what `Lookup` finds for its key. */
  lemma {:induction false} LookupPresent<K>(t: seq<Entry<K>>, j: nat)
    requires DistinctKeys(t)
    requires j < |t|
    ensures Lookup(t, t[j].key) == t[j].count
  {
    if j > 0 {
      assert t[1..][j - 1] == t[j];
      LookupPresent(t[1..], j - 1);
    }
  }

  lemma AscendingDistinct(t: seq<Entry<int>>)
    requires Ascending(t)
    ensures DistinctKeys(t)
  {
  }

  /** Count one more row with key `k` in a table kept in ascending key order. */
  function AddSorted(t: seq<Entry<int>>, k: int): (r: seq<Entry<int>>)
    requires Ascending(t) && Positive(t)
    ensures Ascending(r) && Positive(r)
    ensures Keys(r) == Keys(t) + {k}
  {
    if t == [] then
      [Entry(k, 1)]
    else if k < t[0].key then
      AscendingHead(t);
      AscendingCons(Entry(k, 1), t);
      [Entry(k, 1)] + t
    else if k == t[0].key then
      AscendingHead(t);
      KeysCons(Entry(k, t[0].count + 1), t[1..]);
      AscendingCons(Entry(k, t[0].count + 1), t[1..]);
      [Entry(k, t[0].count + 1)] + t[1..]
    else
      AscendingHead(t);
      var rest := AddSorted(t[1..], k);
      KeysCons(t[0], rest);
      AscendingCons(t[0], rest);
      [t[0]] + rest
  }

  /** Adding `k` raises its count by one, leaves every other key's count alone, and
      raises the total by one. */
  lemma {:induction false} AddSortedCounts(t: seq<Entry<int>>, k: int)
    requires Ascending(t) && Positive(t)
    ensures forall j :: Lookup(AddSorted(t, k), j) == Lookup(t, j) + (if j == k then 1 else 0)
    ensures Total(AddSorted(t, k)) == Total(t) + 1
  {
    if t != [] {
      AscendingHead(t);
      var r := AddSorted(t, k);
      if k < t[0].key {
        LookupAbsent(t, k);
        assert r[1..] == t;
      } else if k == t[0].key {
        assert r[1..] == t[1..];
      } else {
        AddSortedCounts(t[1..], k);
        assert r[1..] == AddSorted(t[1..], k);
      }
    }
  }

  /** Count one more row with key `k` in a table with distinct keys; a new key goes
      last. */
  function Bump<K(==,!new)>(t: seq<Entry<K>>, k: K): (r: seq<Entry<K>>)
    requires DistinctKeys(t) && Positive(t)
    ensures DistinctKeys(r) && Positive(r)
    ensures Keys(r) == Keys(t) + {k}
    ensures forall j :: Lookup(r, j) == Lookup(t, j) + (if j == k then 1 else 0)
  {
    if t == [] then
      [Entry(k, 1)]
    else if t[0].key == k then
      DistinctHead(t);
      KeysCons(Entry(k, t[0].count + 1), t[1..]);
      DistinctCons(Entry(k, t[0].count + 1), t[1..]);
      [Entry(k, t[0].count + 1)] + t[1..]
    else
      DistinctHead(t);
      var rest := Bump(t[1..], k);
      KeysCons(t[0], rest);
      DistinctCons(t[0], rest);
      [t[0]] + rest
  }

  /** Insert `e` into a table ordered by non-increasing count. */
  function InsertByCount<K(==)>(e: Entry<K>, t: seq<Entry<K>>): (r: seq<Entry<K>>)
    requires ByCountDescending(t)
    ensures ByCountDescending(r)
    ensures multiset(r) == multiset(t) + multiset{e}
  {
    if t == [] then [e]
    else if e.count >= t[0].count then
      DescendingHead(t);
      DescendingCons(e, t);
      [e] + t
    else
      DescendingHead(t);
      var rest := InsertByCount(e, t[1..]);
      BoundedByMultiset(rest, t[1..], e, t[0].count);
      DescendingCons(t[0], rest);
      MultisetCons(t);
      assert multiset([t[0]] + rest) == multiset{t[0]} + multiset(rest);
      [t[0]] + rest
  }

  lemma MultisetCons<T>(t: seq<T>)
    requires t != []
    ensures multiset(t) == multiset{t[0]} + multiset(t[1..])
  {
    assert t == [t[0]] + t[1..];
  }

  /** A bound on the counts of `t` and of `e` bounds every entry of a permutation of `t`
      with `e` added. */
  lemma BoundedByMultiset<K>(r: seq<Entry<K>>, t: seq<Entry<K>>, e: Entry<K>, c: nat)
    requires multiset(r) == multiset(t) + multiset{e}
    requires e.count <= c && forall y :: y in t ==> y.count <= c
    ensures forall y :: y in r ==> y.count <= c
  {
    forall y | y in r ensures y.count <= c {
      assert y in multiset(r);
      assert y in multiset(t) || y == e;
    }
  }

  /** Inserting an entry adds exactly its key to the table's keys. */
  lemma {:induction false} InsertKeys<K>(e: Entry<K>, t: seq<Entry<K>>)
    requires ByCountDescending(t)
    ensures Keys(InsertByCount(e, t)) == Keys(t) + {e.key}
  {
    KeysCons(e, t);
    if t != [] && e.count < t[0].count {
      DescendingHead(t);
      assert t == [t[0]] + t[1..];
      InsertKeys(e, t[1..]);
      KeysCons(t[0], t[1..]);
      KeysCons(t[0], InsertByCount(e, t[1..]));
    }
  }

  /** Inserting an entry whose key is new keeps the keys distinct. */
  lemma {:induction false} InsertKeepsDistinct<K>(e: Entry<K>, t: seq<Entry<K>>)
    requires ByCountDescending(t) && DistinctKeys(t) && e.key !in Keys(t)
    ensures DistinctKeys(InsertByCount(e, t))
  {
    if t == [] || e.count >= t[0].count {
      DistinctCons(e, t);
    } else {
      DistinctHead(t);
      DescendingHead(t);
      assert t == [t[0]] + t[1..];
      KeysCons(t[0], t[1..]);
      InsertKeepsDistinct(e, t[1..]);
      InsertKeys(e, t[1..]);
      DistinctCons(t[0], InsertByCount(e, t[1..]));
    }
  }

  /** The table reordered by non-increasing count: a permutation of it. */
  function SortByCount<K(==)>(t: seq<Entry<K>>): (r: seq<Entry<K>>)
    ensures ByCountDescending(r)
    ensures multiset(r) == multiset(t)
    ensures Keys(r) == Keys(t)
  {
    if t == [] then []
    else
      assert t == [t[0]] + t[1..];
      KeysCons(t[0], t[1..]);
      InsertKeys(t[0], SortByCount(t[1..]));
      InsertByCount(t[0], SortByCount(t[1..]))
  }

  /** Sorting keeps the keys distinct. */
  lemma {:induction false} SortKeepsDistinct<K>(t: seq<Entry<K>>)
    requires DistinctKeys(t)
    ensures DistinctKeys(SortByCount(t))
  {
    if t != [] {
      DistinctHead(t);
      SortKeepsDistinct(t[1..]);
      InsertKeepsDistinct(t[0], SortByCount(t[1..]));
    }
  }
}
