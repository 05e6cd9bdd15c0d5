/** Order-preserving filtering and prefixes of sequences: the row-dropping and `head`
    operations of a table, stated once for every table type. */
module Seqs {

  /** The elements of `s` that satisfy `p`, in their original order. */
  function Filter<T(!new)>(s: seq<T>, p: T -> bool): (r: seq<T>)
    ensures |r| <= |s|
    ensures forall x :: x in r ==> p(x) && x in s
  {
    if s == [] then []
    else
      var n := |s| - 1;
      assert s == s[..n] + [s[n]];
      Filter(s[..n], p) + (if p(s[n]) then [s[n]] else [])
  }

  /** Filtering keeps every satisfying element as often as it occurs, and drops the rest. */
  lemma {:induction false} FilterCounts<T(!new)>(s: seq<T>, p: T -> bool)
    ensures forall x :: multiset(Filter(s, p))[x] == if p(x) then multiset(s)[x] else 0
  {
    if s != [] {
      var n := |s| - 1;
      FilterCounts(s[..n], p);
      assert s == s[..n] + [s[n]];
    }
  }

  /** The positions of `s` whose element satisfies `p`. */
  function Kept<T>(s: seq<T>, p: T -> bool): (k: seq<nat>)
    ensures forall j :: 0 <= j < |k| ==> k[j] < |s| && p(s[k[j]])
    ensures forall i, j :: 0 <= i < j < |k| ==> k[i] < k[j]
    ensures forall i :: 0 <= i < |s| && p(s[i]) ==> i in k
  {
    if s == [] then []
    else
      var n := |s| - 1;
      Kept(s[..n], p) + (if p(s[n]) then [n] else [])
  }

  /** Filtering keeps exactly the elements at the positions `Kept` lists, which are
      every satisfying position in ascending order: nothing that satisfies `p` is lost
      and the survivors keep their relative order. */
  lemma {:induction false} FilterKeepsOrder<T(!new)>(s: seq<T>, p: T -> bool)
    ensures |Filter(s, p)| == |Kept(s, p)|
    ensures forall j :: 0 <= j < |Kept(s, p)| ==> Filter(s, p)[j] == s[Kept(s, p)[j]]
  {
    if s != [] {
      var n := |s| - 1;
      FilterKeepsOrder(s[..n], p);
      var f, k := Filter(s[..n], p), Kept(s[..n], p);
      assert Filter(s, p) == f + (if p(s[n]) then [s[n]] else []);
      assert Kept(s, p) == k + (if p(s[n]) then [n] else []);
      forall j | 0 <= j < |k|
        ensures Filter(s, p)[j] == s[Kept(s, p)[j]]
      {
        assert Filter(s, p)[j] == f[j];
        assert s[..n][k[j]] == s[k[j]];
      }
    }
  }

  /** `Kept` only looks at which positions satisfy the condition, so two sequences
      of equal length whose positions agree on it keep the same positions. */
  lemma {:induction false} KeptAlike<A, B>(s: seq<A>, p: A -> bool, t: seq<B>, q: B -> bool)
    requires |s| == |t| && forall i :: 0 <= i < |s| ==> p(s[i]) == q(t[i])
    ensures Kept(s, p) == Kept(t, q)
  {
    if s != [] {
      var n := |s| - 1;
      KeptAlike(s[..n], p, t[..n], q);
    }
  }

  /** `r` is the image under `f` of the elements of `t` that satisfy `q`, each once
      per position and in their original order. */
  predicate KeptImage<A, B(==)>(r: seq<B>, t: seq<A>, q: A -> bool, f: A -> B) {
    && |r| == |Kept(t, q)|
    && forall j :: 0 <= j < |r| ==> r[j] == f(t[Kept(t, q)[j]])
  }

  /** A kept image holds the image of every element that satisfies `q`. */
  lemma KeptImageHasAll<A, B>(r: seq<B>, t: seq<A>, q: A -> bool, f: A -> B)
    requires KeptImage(r, t, q, f)
    ensures forall i :: 0 <= i < |t| && q(t[i]) ==> f(t[i]) in r
  {
    var k := Kept(t, q);
    forall i | 0 <= i < |t| && q(t[i]) ensures f(t[i]) in r {
      assert i in k;
      var j :| 0 <= j < |k| && k[j] == i;
      assert r[j] == f(t[i]);
    }
  }

  /** Filtering the image of `t` under `f` keeps exactly the images of the elements
      of `t` at the positions where `q` holds, in order, when `p` of an image is `q`
      of its source. */
  lemma FilterImage<A, B(!new)>(t: seq<A>, q: A -> bool, f: A -> B, m: seq<B>, p: B -> bool)
    requires |m| == |t| && forall i :: 0 <= i < |t| ==> m[i] == f(t[i])
    requires forall a :: p(f(a)) == q(a)
    ensures KeptImage(Filter(m, p), t, q, f)
  {
    FilterKeepsOrder(m, p);
    KeptAlike(m, p, t, q);
  }

  /** Filtering a sequence extended by one element. */
  lemma FilterSnoc<T(!new)>(s: seq<T>, x: T, p: T -> bool)
    ensures Filter(s + [x], p) == Filter(s, p) + (if p(x) then [x] else [])
  {
    assert (s + [x])[..|s|] == s;
  }

  /** Filtering distributes over concatenation. */
  lemma {:induction false} FilterConcat<T(!new)>(a: seq<T>, b: seq<T>, p: T -> bool)
    ensures Filter(a + b, p) == Filter(a, p) + Filter(b, p)
  {
    if b == [] {
      assert a + b == a;
    } else {
      var n := |b| - 1;
      var tail := if p(b[n]) then [b[n]] else [];
      FilterConcat(a, b[..n], p);
      SplitLast(a, b);
      LastSplit(b);
      FilterSnoc(a + b[..n], b[n], p);
      FilterSnoc(b[..n], b[n], p);
      Associative(Filter(a, p), Filter(b[..n], p), tail);
    }
  }

  /** A sequence whose every element satisfies `p` passes the filter unchanged. */
  lemma {:induction false} FilterAll<T(!new)>(s: seq<T>, p: T -> bool)
    requires forall x :: x in s ==> p(x)
    ensures Filter(s, p) == s
  {
    if s != [] {
      var n := |s| - 1;
      assert forall x :: x in s[..n] ==> x in s;
      FilterAll(s[..n], p);
      assert p(s[n]);
      calc {
        Filter(s, p);
        Filter(s[..n], p) + [s[n]];
        s[..n] + [s[n]];
        s;
      }
    }
  }

  /** A sequence none of whose elements satisfies `p` filters to nothing. */
  lemma FilterNone<T(!new)>(s: seq<T>, p: T -> bool)
    requires forall x :: x in s ==> !p(x)
    ensures Filter(s, p) == []
  {
  }

  /** The first `n` elements of `s`, or all of `s` when it is shorter (pandas `head(n)`). */
  function Take<T>(s: seq<T>, n: nat): (r: seq<T>)
    ensures |r| == if |s| < n then |s| else n
    ensures r == s[..|r|]
  {
    if |s| <= n then s else s[..n]
  }

  /** Appending a non-empty sequence is appending all but its last element, then
      that element. */
  lemma SplitLast<T>(a: seq<T>, b: seq<T>)
    requires b != []
    ensures a + b == (a + b[..|b| - 1]) + [b[|b| - 1]]
  {
  }

  lemma LastSplit<T>(s: seq<T>)
    requires s != []
    ensures s == s[..|s| - 1] + [s[|s| - 1]]
  {
  }

  lemma SplitAround<T>(s: seq<T>, i: nat)
    requires i < |s|
    ensures s == (s[..i] + [s[i]]) + s[i + 1..]
  {
  }

  /** Concatenation regrouped; a lemma, because asserting it at a call site with
      large rows in scope makes the solver explore the rows' sequence axioms. */
  lemma Associative<T>(a: seq<T>, b: seq<T>, c: seq<T>)
    ensures (a + b) + c == a + (b + c)
  {
  }

  /** A two-element sequence is the concatenation of its singletons. */
  lemma PairConcat<T>(x: T, y: T)
    ensures [x, y] == [x] + [y]
  {
  }

  /** An element at two distinct positions occurs at least twice. */
  lemma Repeated<T>(s: seq<T>, i: int, j: int)
    requires 0 <= i < j < |s| && s[i] == s[j]
    ensures multiset(s)[s[i]] >= 2
  {
    assert s == s[..j] + [s[j]] + s[j + 1..];
    assert s[i] in s[..j];
  }
}
