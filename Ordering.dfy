/**
 * The index sort of compare: the file indices ordered by their histograms
 * under Python's comparison of lists of (hash, count) tuples; the sort is stable, so indices whose
 * histograms are equal stay in increasing order.
 */
module Ordering {
  import opened Histograms

  /** Python's tuple comparison a < b on (hash, count). */
  predicate EntryLess(a: Entry, b: Entry) {
    a.0 < b.0 || (a.0 == b.0 && a.1 < b.1)
  }

  /**
   * Python's list comparison a <= b: the first differing entries decide;
   * a list that is a prefix of the other is the smaller.
   */
  predicate LexLe(a: Hist, b: Hist) {
    if a == [] then true
    else if b == [] then false
    else if a[0] == b[0] then LexLe(a[1..], b[1..])
    else EntryLess(a[0], b[0])
  }

  // ---------------------------------------------------------------------------
  // The list order is a total order

  lemma {:induction false} LexLeReflexive(a: Hist)
    ensures LexLe(a, a)
  {
    if a != [] {
      LexLeReflexive(a[1..]);
    }
  }

  lemma {:induction false} LexLeTotal(a: Hist, b: Hist)
    ensures LexLe(a, b) || LexLe(b, a)
  {
    if a != [] && b != [] && a[0] == b[0] {
      LexLeTotal(a[1..], b[1..]);
    }
  }

  lemma {:induction false} LexLeAntisymmetric(a: Hist, b: Hist)
    requires LexLe(a, b) && LexLe(b, a)
    ensures a == b
  {
    if a != [] && b != [] {
      LexLeAntisymmetric(a[1..], b[1..]);
      assert a == [a[0]] + a[1..] && b == [b[0]] + b[1..];
    }
  }

  lemma {:induction false} LexLeTransitive(a: Hist, b: Hist, c: Hist)
    requires LexLe(a, b) && LexLe(b, c)
    ensures LexLe(a, c)
  {
    if a != [] && b != [] && c != [] && a[0] == b[0] && b[0] == c[0] {
      LexLeTransitive(a[1..], b[1..], c[1..]);
    }
  }

  // ---------------------------------------------------------------------------
  // The index sort

  predicate InRange(idx: seq<nat>, n: nat) {
    forall i :: 0 <= i < |idx| ==> idx[i] < n
  }

  predicate DistinctIndices(idx: seq<nat>) {
    forall i, j :: 0 <= i < j < |idx| ==> idx[i] != idx[j]
  }

  /** The histograms of the indices are in non-decreasing list order. */
  predicate SortedBy(hists: seq<Hist>, idx: seq<nat>)
    requires InRange(idx, |hists|)
  {
    forall i, j :: 0 <= i < j < |idx| ==> LexLe(hists[idx[i]], hists[idx[j]])
  }

  /** Indices with equal histograms appear in increasing order. */
  predicate Stable(hists: seq<Hist>, idx: seq<nat>)
    requires InRange(idx, |hists|)
  {
    forall i, j :: 0 <= i < j < |idx| && hists[idx[i]] == hists[idx[j]] ==> idx[i] < idx[j]
  }

  /** Puts k in front of the first index whose histogram is not smaller than k's. */
  function InsertIndex(hists: seq<Hist>, k: nat, t: seq<nat>): (r: seq<nat>)
    requires k < |hists| && InRange(t, |hists|)
    ensures |r| == |t| + 1 && InRange(r, |hists|)
    ensures forall e :: e in r <==> e == k || e in t
  {
    if t == [] || LexLe(hists[k], hists[t[0]]) then [k] + t
    else
      var rest := InsertIndex(hists, k, t[1..]);
      assert t == [t[0]] + t[1..];
      [t[0]] + rest
  }

  /** The stable sort of the indices lo .. |hists|-1 by their histograms. */
  function SortFrom(hists: seq<Hist>, lo: nat): (r: seq<nat>)
    requires lo <= |hists|
    ensures |r| == |hists| - lo && InRange(r, |hists|)
    ensures forall e :: e in r <==> lo <= e < |hists|
    ensures DistinctIndices(r)
    decreases |hists| - lo
  {
    if lo == |hists| then []
    else
      var rest := SortFrom(hists, lo + 1);
      InsertIndexDistinct(hists, lo, rest);
      InsertIndex(hists, lo, rest)
  }

  /** sortedIDX: a permutation of 0 .. len(histograms)-1. */
  function SortedIndices(hists: seq<Hist>): (idx: seq<nat>)
    ensures |idx| == |hists| && InRange(idx, |hists|)
    ensures forall k :: k in idx <==> 0 <= k < |hists|
    ensures DistinctIndices(idx)
  {
    SortFrom(hists, 0)
  }

  // ---------------------------------------------------------------------------
  // Properties

  lemma {:induction false} InsertIndexDistinct(hists: seq<Hist>, k: nat, t: seq<nat>)
    requires k < |hists| && InRange(t, |hists|)
    requires DistinctIndices(t) && k !in t
    ensures DistinctIndices(InsertIndex(hists, k, t))
  {
    if t != [] && !LexLe(hists[k], hists[t[0]]) {
      var rest := InsertIndex(hists, k, t[1..]);
      assert DistinctIndices(t[1..]) by {
        forall i, j | 0 <= i < j < |t[1..]| ensures t[1..][i] != t[1..][j] {
          assert t[1..][i] == t[i + 1] && t[1..][j] == t[j + 1];
        }
      }
      InsertIndexDistinct(hists, k, t[1..]);
      forall m | 0 <= m < |t[1..]| ensures t[1..][m] != t[0] {
        assert t[1..][m] == t[m + 1];
      }
      var r := [t[0]] + rest;
      forall i, j | 0 <= i < j < |r| ensures r[i] != r[j] {
        if i > 0 {
          assert r[i] == rest[i - 1] && r[j] == rest[j - 1];
        } else {
          assert r[j] in rest;
        }
      }
    }
  }

  lemma {:induction false} InsertIndexSorted(hists: seq<Hist>, k: nat, t: seq<nat>)
    requires k < |hists| && InRange(t, |hists|)
    requires SortedBy(hists, t)
    ensures SortedBy(hists, InsertIndex(hists, k, t))
  {
    if t == [] || LexLe(hists[k], hists[t[0]]) {
      var r := [k] + t;
      forall i, j | 0 <= i < j < |r| ensures LexLe(hists[r[i]], hists[r[j]]) {
        if i == 0 && j > 1 {
          LexLeTransitive(hists[k], hists[t[0]], hists[r[j]]);
        }
      }
    } else {
      var rest := InsertIndex(hists, k, t[1..]);
      InsertIndexSorted(hists, k, t[1..]);
      LexLeTotal(hists[k], hists[t[0]]);
      forall j | 0 <= j < |rest| ensures LexLe(hists[t[0]], hists[rest[j]]) {
        assert rest[j] in rest;
        if rest[j] != k {
          var m :| 0 <= m < |t[1..]| && t[1..][m] == rest[j];
          assert t[m + 1] == rest[j];
        }
      }
    }
  }

  lemma StableTail(hists: seq<Hist>, t: seq<nat>)
    requires t != [] && InRange(t, |hists|) && Stable(hists, t)
    ensures InRange(t[1..], |hists|) && Stable(hists, t[1..])
  {
    forall i, j | 0 <= i < j < |t[1..]| && hists[t[1..][i]] == hists[t[1..][j]]
      ensures t[1..][i] < t[1..][j]
    {
      assert t[1..][i] == t[i + 1] && t[1..][j] == t[j + 1];
    }
  }

  lemma StableCons(hists: seq<Hist>, x: nat, rest: seq<nat>)
    requires x < |hists| && InRange(rest, |hists|) && Stable(hists, rest)
    requires forall j :: 0 <= j < |rest| && hists[x] == hists[rest[j]] ==> x < rest[j]
    ensures InRange([x] + rest, |hists|) && Stable(hists, [x] + rest)
  {
    var r := [x] + rest;
    forall i, j | 0 <= i < j < |r| && hists[r[i]] == hists[r[j]] ensures r[i] < r[j] {
      assert r[j] == rest[j - 1];
      if i > 0 {
        assert r[i] == rest[i - 1];
      }
    }
  }

  lemma {:induction false} InsertIndexStable(hists: seq<Hist>, k: nat, t: seq<nat>)
    requires k < |hists| && InRange(t, |hists|)
    requires Stable(hists, t)
    requires forall e :: e in t ==> k < e
    ensures Stable(hists, InsertIndex(hists, k, t))
  {
    if t == [] || LexLe(hists[k], hists[t[0]]) {
      forall j | 0 <= j < |t| ensures k < t[j] {
        assert t[j] in t;
      }
      StableCons(hists, k, t);
    } else {
      var rest := InsertIndex(hists, k, t[1..]);
      assert forall e :: e in t[1..] ==> e in t;
      StableTail(hists, t);
      InsertIndexStable(hists, k, t[1..]);
      LexLeReflexive(hists[k]);
      forall j | 0 <= j < |rest| && hists[t[0]] == hists[rest[j]] ensures t[0] < rest[j] {
        assert rest[j] in rest;
        if rest[j] != k {
          var m :| 0 <= m < |t[1..]| && t[1..][m] == rest[j];
          assert t[m + 1] == rest[j];
        }
      }
      StableCons(hists, t[0], rest);
    }
  }

  lemma {:induction false} SortFromOrdered(hists: seq<Hist>, lo: nat)
    requires lo <= |hists|
    ensures SortedBy(hists, SortFrom(hists, lo))
    ensures Stable(hists, SortFrom(hists, lo))
    decreases |hists| - lo
  {
    if lo < |hists| {
      SortFromOrdered(hists, lo + 1);
      InsertIndexSorted(hists, lo, SortFrom(hists, lo + 1));
      InsertIndexStable(hists, lo, SortFrom(hists, lo + 1));
    }
  }

  /**
   * sortedIDX orders the indices so that their histograms are non-decreasing
   * in Python's list order, and indices with equal histograms keep their
   * original order.
   */
  lemma SortedIndicesOrdered(hists: seq<Hist>)
    ensures SortedBy(hists, SortedIndices(hists))
    ensures Stable(hists, SortedIndices(hists))
  {
    SortFromOrdered(hists, 0);
  }
}
