/**
 * One pass of the engine: getScore and compare. The histograms of the
 * files are sorted in Python's list order, every adjacent pair of sorted
 * histograms is scored, the best pair is kept as `top`, and the files of
 * every pair scoring above 0.9 of the best form the short list of the next
 * pass. Scores are the squares of the cosine similarities (see Similarity),
 * so the threshold 0.9 becomes 0.81.
 */
module Pass {
  import opened Histograms
  import opened Similarity
  import opened Ordering

  datatype Option<T> = None | Some(value: T)

  /** The best pair of a pass: its score (squared) and the indices of its two files. */
  datatype Top = Top(score: real, first: nat, second: nat)

  /** What compare returns: (top, shortList, found). */
  datatype PassResult = PassResult(top: Top, shortList: seq<string>, found: bool)

  /** The histogram length of a pass: `size`, or 50000000 / len(fnames) when size is None. */
  function CompareLen(fnames: seq<string>, size: Option<nat>): nat
    requires |fnames| > 0
  {
    match size
    case None => 50000000 / |fnames|
    case Some(s) => s
  }

  /** The length is `size` when given, otherwise the largest n with n * len(fnames) <= 50000000. */
  lemma CompareLenValue(fnames: seq<string>, size: Option<nat>)
    requires |fnames| > 0
    ensures size.Some? ==> CompareLen(fnames, size) == size.value
    ensures size.None? ==> CompareLen(fnames, size) * |fnames| <= 50000000 < CompareLen(fnames, size) * |fnames| + |fnames|
  {
  }

  /** The histograms listed in the order of the sorted indices. */
  function Reorder(hists: seq<Hist>, idx: seq<nat>): (r: seq<Hist>)
    requires InRange(idx, |hists|)
    ensures |r| == |idx|
    ensures forall j :: 0 <= j < |idx| ==> r[j] == hists[idx[j]]
  {
    if idx == [] then []
    else [hists[idx[0]]] + Reorder(hists, idx[1..])
  }

  /** The scores of the adjacent pairs (sorted[i], sorted[i+1]). */
  function AdjacentScores(sorted: seq<Hist>): (r: seq<real>)
    requires |sorted| >= 1
    ensures |r| == |sorted| - 1
    ensures forall i :: 0 <= i < |sorted| - 1 ==> r[i] == SquaredSimilarity(sorted[i], sorted[i + 1])
  {
    if |sorted| == 1 then []
    else [SquaredSimilarity(sorted[0], sorted[1])] + AdjacentScores(sorted[1..])
  }

  /** max(s) */
  function Max(s: seq<real>): (m: real)
    requires |s| > 0
    ensures m in s
    ensures forall i :: 0 <= i < |s| ==> s[i] <= m
  {
    if |s| == 1 then s[0]
    else
      var m' := Max(s[..|s| - 1]);
      if s[|s| - 1] > m' then s[|s| - 1] else m'
  }

  /** s.index(v): the first position that holds v. */
  function IndexOf(s: seq<real>, v: real): (p: nat)
    requires v in s
    ensures p < |s| && s[p] == v
    ensures forall j :: 0 <= j < p ==> s[j] != v
  {
    if s[0] == v then 0 else IndexOf(s[1..], v) + 1
  }

  /** scores.index(max(scores)): the first position of the best score. */
  function BestPair(scores: seq<real>): (p: nat)
    requires |scores| > 0
    ensures p < |scores|
    ensures forall i :: 0 <= i < |scores| ==> scores[i] <= scores[p]
    ensures forall i :: 0 <= i < p ==> scores[i] < scores[p]
  {
    IndexOf(scores, Max(scores))
  }

  /** getScore(sortedHistograms, sortedIDX): the best adjacent pair and all scores. */
  function GetScore(sortedHists: seq<Hist>, sortedIdx: seq<nat>): (Top, seq<real>)
    requires |sortedHists| >= 2 && |sortedIdx| == |sortedHists|
  {
    var scores := AdjacentScores(sortedHists);
    var p := BestPair(scores);
    (Top(scores[p], sortedIdx[p], sortedIdx[p + 1]), scores)
  }

  /** shortListIDX after the loop over enumerate(scores): i, i+1 for every score above 0.9 of the best. */
  function Picked(scores: seq<real>, best: real): seq<nat> {
    if scores == [] then []
    else
      var i := |scores| - 1;
      Picked(scores[..i], best) + (if scores[i] > 0.81 * best then [i, i + 1] else [])
  }

  /** list(set(xs)) for elements below n, in increasing order. */
  function Deduplicated(xs: seq<nat>, n: nat): (r: seq<nat>)
    ensures |r| <= n && InRange(r, n)
  {
    if n == 0 then []
    else
      Deduplicated(xs, n - 1) + (if n - 1 in xs then [n - 1] else [])
  }

  /** s.count(v): the number of positions of s that hold v. */
  function Count(s: seq<real>, v: real): nat {
    if s == [] then 0 else Count(s[..|s| - 1], v) + (if s[|s| - 1] == v then 1 else 0)
  }

  /** The names of the short-listed positions, each position read through the sorted indices. */
  function ShortListNames(fnames: seq<string>, sortedIdx: seq<nat>, ids: seq<nat>): (r: seq<string>)
    requires InRange(sortedIdx, |fnames|) && InRange(ids, |sortedIdx|)
    ensures |r| == |ids|
    ensures forall k :: 0 <= k < |ids| ==> r[k] == fnames[sortedIdx[ids[k]]]
  {
    if ids == [] then []
    else [fnames[sortedIdx[ids[0]]]] + ShortListNames(fnames, sortedIdx, ids[1..])
  }

  /** The scores of a pass: the adjacent pairs of the histograms in sorted order. */
  function Scores(hists: seq<Hist>): seq<real>
    requires |hists| >= 2
  {
    AdjacentScores(Reorder(hists, SortedIndices(hists)))
  }

  /** What compare makes of the histograms `hists` of the names `fnames`. */
  function Ranked(fnames: seq<string>, hists: seq<Hist>): PassResult
    requires |hists| == |fnames| >= 2
  {
    var idx := SortedIndices(hists);
    var (top, scores) := GetScore(Reorder(hists, idx), idx);
    var ids := Deduplicated(Picked(scores, top.score), |fnames|);
    PassResult(top, ShortListNames(fnames, idx, ids), Count(scores, top.score) == 1)
  }

  /** compare(fnames, size) */
  function PassOf(fs: map<string, string>, hash: string -> int, fnames: seq<string>, size: Option<nat>): PassResult
    requires |fnames| >= 2
  {
    Ranked(fnames, HistogramsOf(fs, hash, fnames, CompareLen(fnames, size)))
  }

  /** The loop of compare over enumerate(scores) that collects the positions of the pairs above 0.9 of the best. */
  method PickPairs(scores: seq<real>, best: real) returns (shortListIdx: seq<nat>)
    ensures shortListIdx == Picked(scores, best)
  {
    shortListIdx := [];
    for i := 0 to |scores|
      invariant shortListIdx == Picked(scores[..i], best)
    {
      assert scores[..i + 1][..i] == scores[..i];
      if scores[i] > 0.81 * best {
        shortListIdx := shortListIdx + [i, i + 1];
      }
    }
    assert scores[..|scores|] == scores;
  }

  /** compare: histograms, index sort, scores, then the short list and whether the best score is unique. */
  method Compare(fs: map<string, string>, hash: string -> int, fnames: seq<string>, size: Option<nat>)
    returns (top: Top, shortList: seq<string>, found: bool)
    requires |fnames| >= 2
    ensures PassResult(top, shortList, found) == PassOf(fs, hash, fnames, size)
  {
    var compareLen := CompareLen(fnames, size);
    var histograms := GenHistograms(fs, hash, fnames, compareLen);
    var sortedIdx := SortedIndices(histograms);
    histograms := Reorder(histograms, sortedIdx);
    var scored := GetScore(histograms, sortedIdx);
    var scores: seq<real>;
    top, scores := scored.0, scored.1;
    var shortListIdx := PickPairs(scores, top.score);
    shortListIdx := Deduplicated(shortListIdx, |fnames|);
    shortList := ShortListNames(fnames, sortedIdx, shortListIdx);
    found := Count(scores, top.score) == 1;
  }

  // ---------------------------------------------------------------------------
  // Properties

  /** Membership in shortListIDX before the duplicates are removed: a position is listed iff the pair it starts or ends scores above 0.9 of the best. */
  lemma {:induction false} PickedMembers(scores: seq<real>, best: real)
    ensures forall e: nat {:trigger e in Picked(scores, best)} :: e in Picked(scores, best) <==>
      (e < |scores| && scores[e] > 0.81 * best) || (0 < e <= |scores| && scores[e - 1] > 0.81 * best)
  {
    if scores != [] {
      var i := |scores| - 1;
      var prefix := scores[..i];
      PickedMembers(prefix, best);
      forall e: nat ensures e in Picked(scores, best) <==>
        (e < |scores| && scores[e] > 0.81 * best) || (0 < e <= |scores| && scores[e - 1] > 0.81 * best)
      {
        if e < i {
          assert prefix[e] == scores[e];
        }
        if 0 < e <= i {
          assert prefix[e - 1] == scores[e - 1];
        }
      }
    }
  }

  /** v does not occur in s iff s.count(v) is 0. */
  lemma {:induction false} CountZero(s: seq<real>, v: real)
    ensures Count(s, v) == 0 <==> v !in s
  {
    if s != [] {
      var s' := s[..|s| - 1];
      CountZero(s', v);
      assert s == s' + [s[|s| - 1]];
    }
  }

  /** s.count(v) == 1 iff v occurs in s at exactly one position. */
  lemma {:induction false} CountOne(s: seq<real>, v: real)
    ensures Count(s, v) == 1 <==>
      (v in s && forall i, j :: 0 <= i < |s| && 0 <= j < |s| && s[i] == v && s[j] == v ==> i == j)
  {
    if s != [] {
      var s' := s[..|s| - 1];
      var x := s[|s| - 1];
      CountOne(s', v);
      CountZero(s', v);
      assert s == s' + [x];
      if x == v && v in s' {
        var k :| 0 <= k < |s'| && s'[k] == v;
        assert s[k] == v && s[|s| - 1] == v;
      }
    }
  }

  /** The best pair is two different files; its score is the similarity of their histograms and no adjacent pair of the sorted order scores more. */
  lemma {:induction false} RankedTop(fnames: seq<string>, hists: seq<Hist>)
    requires |hists| == |fnames| >= 2
    ensures var r := Ranked(fnames, hists);
      var idx := SortedIndices(hists);
      && r.top.first < |fnames| && r.top.second < |fnames| && r.top.first != r.top.second
      && r.top.score == SquaredSimilarity(hists[r.top.first], hists[r.top.second])
      && (forall i :: 0 <= i < |fnames| - 1 ==> SquaredSimilarity(hists[idx[i]], hists[idx[i + 1]]) <= r.top.score)
  {
    var idx := SortedIndices(hists);
    assert Ranked(fnames, hists).top == GetScore(Reorder(hists, idx), idx).0;
    SortedTop(hists);
  }

  lemma {:induction false} SortedTop(hists: seq<Hist>)
    requires |hists| >= 2
    ensures var idx := SortedIndices(hists);
      var top := GetScore(Reorder(hists, idx), idx).0;
      && top.first < |hists| && top.second < |hists| && top.first != top.second
      && top.score == SquaredSimilarity(hists[top.first], hists[top.second])
      && (forall i :: 0 <= i < |hists| - 1 ==> SquaredSimilarity(hists[idx[i]], hists[idx[i + 1]]) <= top.score)
  {
    var idx := SortedIndices(hists);
    var sorted := Reorder(hists, idx);
    var scored := GetScore(sorted, idx);
    var top, scores := scored.0, scored.1;
    var p := BestPair(scores);
    assert top == Top(scores[p], idx[p], idx[p + 1]);
    assert idx[p] != idx[p + 1];
    assert scores[p] == SquaredSimilarity(sorted[p], sorted[p + 1]);
    assert sorted[p] == hists[top.first] && sorted[p + 1] == hists[top.second];
    forall i | 0 <= i < |hists| - 1
      ensures SquaredSimilarity(hists[idx[i]], hists[idx[i + 1]]) <= top.score
    {
      var x := scores[i];
      assert x <= top.score;
      assert x == SquaredSimilarity(sorted[i], sorted[i + 1]);
      assert sorted[i] == hists[idx[i]];
      assert sorted[i + 1] == hists[idx[i + 1]];
    }
  }

  predicate DistinctNames(s: seq<string>) {
    forall i, j :: 0 <= i < j < |s| ==> s[i] != s[j]
  }

  lemma {:induction false} DeduplicatedEmpty(xs: seq<nat>, n: nat)
    requires forall e :: e in xs ==> n <= e
    ensures Deduplicated(xs, n) == []
  {
    if n > 0 {
      DeduplicatedEmpty(xs, n - 1);
    }
  }

  /** list(set(xs)) below n holds each element of xs below n, nothing else, and in increasing order, so no position twice. */
  lemma {:induction false} DeduplicatedMembers(xs: seq<nat>, n: nat)
    ensures var r := Deduplicated(xs, n);
      && (forall e :: e in r <==> e in xs && e < n)
      && (forall i, j :: 0 <= i < j < |r| ==> r[i] < r[j])
  {
    if n > 0 {
      DeduplicatedMembers(xs, n - 1);
      var r := Deduplicated(xs, n - 1);
      assert forall i :: 0 <= i < |r| ==> r[i] in r;
    }
  }

  /** Every short-listed name is one of the pass's names, and there are no more of them than names. */
  lemma {:induction false} RankedShortListNames(fnames: seq<string>, hists: seq<Hist>)
    requires |hists| == |fnames| >= 2
    ensures var r := Ranked(fnames, hists);
      && |r.shortList| <= |fnames|
      && (forall k :: 0 <= k < |r.shortList| ==> r.shortList[k] in fnames)
  {
    var idx := SortedIndices(hists);
    var scored := GetScore(Reorder(hists, idx), idx);
    var ids := Deduplicated(Picked(scored.1, scored.0.score), |fnames|);
    var names := ShortListNames(fnames, idx, ids);
    assert Ranked(fnames, hists).shortList == names;
    forall k | 0 <= k < |names| ensures names[k] in fnames {
      assert names[k] == fnames[idx[ids[k]]];
    }
  }

  /** No name is short-listed twice when the pass's names are distinct. */
  lemma {:induction false} RankedShortListDistinct(fnames: seq<string>, hists: seq<Hist>)
    requires |hists| == |fnames| >= 2
    requires DistinctNames(fnames)
    ensures DistinctNames(Ranked(fnames, hists).shortList)
  {
    var idx := SortedIndices(hists);
    var scored := GetScore(Reorder(hists, idx), idx);
    var ids := Deduplicated(Picked(scored.1, scored.0.score), |fnames|);
    var names := ShortListNames(fnames, idx, ids);
    assert Ranked(fnames, hists).shortList == names;
    DeduplicatedMembers(Picked(scored.1, scored.0.score), |fnames|);
    NamesOfDistinctPositions(fnames, idx, ids);
  }

  /** Increasing positions of a list of distinct indices pick distinct names. */
  lemma NamesOfDistinctPositions(fnames: seq<string>, idx: seq<nat>, ids: seq<nat>)
    requires InRange(idx, |fnames|) && InRange(ids, |idx|)
    requires DistinctNames(fnames) && DistinctIndices(idx)
    requires forall i, j :: 0 <= i < j < |ids| ==> ids[i] < ids[j]
    ensures DistinctNames(ShortListNames(fnames, idx, ids))
  {
    var names := ShortListNames(fnames, idx, ids);
    forall k, l | 0 <= k < l < |names| ensures names[k] != names[l] {
      assert ids[k] < ids[l];
      assert idx[ids[k]] != idx[ids[l]];
    }
  }

  /** When the best score is not 0 (it is then above 0.9 of itself), the best pair's two files are on the short list. */
  lemma {:induction false} ShortListKeepsBest(fnames: seq<string>, hists: seq<Hist>)
    requires |hists| == |fnames| >= 2
    ensures var r := Ranked(fnames, hists);
      r.top.score > 0.0 ==> fnames[r.top.first] in r.shortList && fnames[r.top.second] in r.shortList
  {
    var idx := SortedIndices(hists);
    var scored := GetScore(Reorder(hists, idx), idx);
    var top, scores := scored.0, scored.1;
    var picked := Picked(scores, top.score);
    var ids := Deduplicated(picked, |fnames|);
    var names := ShortListNames(fnames, idx, ids);
    assert Ranked(fnames, hists).top == top;
    assert Ranked(fnames, hists).shortList == names;
    if top.score > 0.0 {
      var p := BestPair(scores);
      assert top == Top(scores[p], idx[p], idx[p + 1]);
      PickedMembers(scores, top.score);
      DeduplicatedMembers(picked, |fnames|);
      assert p in picked && p + 1 in picked;
      assert p in ids && p + 1 in ids;
      var k :| 0 <= k < |ids| && ids[k] == p;
      var l :| 0 <= l < |ids| && ids[l] == p + 1;
      assert names[k] == fnames[top.first];
      assert names[l] == fnames[top.second];
    }
  }

  /** The short list is empty exactly when the best score is 0: then every pair scores 0 and none is above 0.9 of it. */
  lemma {:induction false} ShortListEmptyIffNoSignal(fnames: seq<string>, hists: seq<Hist>)
    requires |hists| == |fnames| >= 2
    ensures var r := Ranked(fnames, hists);
      r.shortList == [] <==> r.top.score == 0.0
  {
    var idx := SortedIndices(hists);
    var scored := GetScore(Reorder(hists, idx), idx);
    var top, scores := scored.0, scored.1;
    var picked := Picked(scores, top.score);
    var ids := Deduplicated(picked, |fnames|);
    var names := ShortListNames(fnames, idx, ids);
    assert Ranked(fnames, hists).top == top;
    assert Ranked(fnames, hists).shortList == names;
    if top.score == 0.0 {
      PickedMembers(scores, top.score);
      var p := BestPair(scores);
      assert top.score == scores[p];
      forall e: nat ensures e !in picked {
        if e < |scores| {
          assert scores[e] <= 0.0;
        }
        if 0 < e <= |scores| {
          assert scores[e - 1] <= 0.0;
        }
      }
      DeduplicatedEmpty(picked, |fnames|);
    } else {
      ShortListKeepsBest(fnames, hists);
      assert fnames[top.first] in names;
    }
  }

  /** found holds exactly when a single adjacent pair reaches the best score. */
  lemma {:induction false} FoundIffUniqueBest(fnames: seq<string>, hists: seq<Hist>)
    requires |hists| == |fnames| >= 2
    ensures var r := Ranked(fnames, hists);
      var scores := Scores(hists);
      r.found <==> forall i, j :: 0 <= i < |scores| && 0 <= j < |scores| && scores[i] == r.top.score && scores[j] == r.top.score ==> i == j
  {
    var idx := SortedIndices(hists);
    var scored := GetScore(Reorder(hists, idx), idx);
    var top, scores := scored.0, scored.1;
    CountOne(scores, top.score);
    var r := Ranked(fnames, hists);
    assert r.top == top;
    assert scores == Scores(hists);
    assert r.found == (Count(scores, top.score) == 1);
    assert top.score in scores;
  }

  /** compare's result: the best pair is two of the names, and the short list is drawn from the names. */
  lemma PassFacts(fs: map<string, string>, hash: string -> int, fnames: seq<string>, size: Option<nat>)
    requires |fnames| >= 2
    ensures var r := PassOf(fs, hash, fnames, size);
      && r.top.first < |fnames| && r.top.second < |fnames| && r.top.first != r.top.second
      && |r.shortList| <= |fnames|
      && (forall f :: f in r.shortList ==> f in fnames)
  {
    var hists := HistogramsOf(fs, hash, fnames, CompareLen(fnames, size));
    RankedTop(fnames, hists);
    RankedShortListNames(fnames, hists);
  }
}
