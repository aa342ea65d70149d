/**
 * similarity(Counter(h1), Counter(h2)): the cosine similarity of two
 * histograms, each read as a Counter of its (hash, count) entries.
 *
 * The dot product and the squared magnitudes are integers and are modelled
 * exactly. The score itself is dot / (sqrt(m1^2) * sqrt(m2^2)); the model
 * keeps its SQUARE, dot^2 / (m1^2 * m2^2), an exact real. Scores are never
 * negative, so squaring keeps every comparison the source makes between
 * scores (max, ==, and the threshold score > 0.9 * max, which becomes
 * square > 0.81 * max-square); see SquaringKeepsComparisons.
 */
module Similarity {
  import opened Histograms

  /**
   * The dot product of Counter(a) and Counter(b): the sum over the entries x
   * of a of Counter(b)[x], which is the sum over all words w of
   * Counter(a)[w] * Counter(b)[w].
   */
  function Dot(a: Hist, b: Hist): nat {
    if a == [] then 0 else Dot(a[..|a| - 1], b) + multiset(b)[a[|a| - 1]]
  }

  /** The squared magnitude of Counter(h): the sum of its squared counts. */
  function SquaredMagnitude(h: Hist): nat {
    Dot(h, h)
  }

  /** The square of similarity(Counter(a), Counter(b)); 0 when either magnitude is 0. */
  function SquaredSimilarity(a: Hist, b: Hist): (r: real)
    ensures r >= 0.0
  {
    var p := SquaredMagnitude(a) * SquaredMagnitude(b);
    if p == 0 then 0.0 else (Dot(a, b) * Dot(a, b)) as real / p as real
  }

  // ---------------------------------------------------------------------------
  // The dot product

  lemma {:induction false} DotEmptyRight(a: Hist)
    ensures Dot(a, []) == 0
  {
    if a != [] {
      DotEmptyRight(a[..|a| - 1]);
    }
  }

  lemma {:induction false} DotAppendRight(a: Hist, b: Hist, x: Entry)
    ensures Dot(a, b + [x]) == Dot(a, b) + multiset(a)[x]
  {
    if a != [] {
      var a' := a[..|a| - 1];
      DotAppendRight(a', b, x);
      assert a == a' + [a[|a| - 1]];
    }
  }

  /** The dot product is symmetric. */
  lemma {:induction false} DotSymmetric(a: Hist, b: Hist)
    ensures Dot(a, b) == Dot(b, a)
  {
    if b == [] {
      DotEmptyRight(a);
    } else {
      var b' := b[..|b| - 1];
      DotSymmetric(a, b');
      DotAppendRight(a, b', b[|b| - 1]);
      assert b == b' + [b[|b| - 1]];
    }
  }

  lemma {:induction false} DotRightMultiset(a: Hist, b: Hist, b': Hist)
    requires multiset(b) == multiset(b')
    ensures Dot(a, b) == Dot(a, b')
  {
    if a != [] {
      DotRightMultiset(a[..|a| - 1], b, b');
    }
  }

  /** The dot product only depends on the two Counters, not on the order of the entries. */
  lemma DotMultiset(a: Hist, a': Hist, b: Hist, b': Hist)
    requires multiset(a) == multiset(a') && multiset(b) == multiset(b')
    ensures Dot(a, b) == Dot(a', b')
  {
    DotRightMultiset(a, b, b');
    DotSymmetric(a, b');
    DotRightMultiset(b', a, a');
    DotSymmetric(b', a');
  }

  lemma {:induction false} SquaredMagnitudePositive(h: Hist)
    requires h != []
    ensures SquaredMagnitude(h) >= 1
  {
    assert h[|h| - 1] in multiset(h);
  }

  lemma {:induction false} MultiplicityOfDistinct(h: Hist, x: Entry)
    requires DistinctKeys(h)
    ensures multiset(h)[x] <= 1
  {
    if h != [] {
      var h' := h[..|h| - 1];
      MultiplicityOfDistinct(h', x);
      assert h == h' + [h[|h| - 1]];
      if x == h[|h| - 1] {
        assert x !in h';
      }
    }
  }

  lemma {:induction false} DotAtMostLength(a: Hist, b: Hist)
    requires DistinctKeys(b)
    ensures Dot(a, b) <= |a|
  {
    if a != [] {
      DotAtMostLength(a[..|a| - 1], b);
      MultiplicityOfDistinct(b, a[|a| - 1]);
    }
  }

  lemma {:induction false} DotOfPrefix(a: Hist, h: Hist)
    requires DistinctKeys(h)
    requires forall i :: 0 <= i < |a| ==> a[i] in h
    ensures Dot(a, h) == |a|
  {
    if a != [] {
      DotOfPrefix(a[..|a| - 1], h);
      MultiplicityOfDistinct(h, a[|a| - 1]);
    }
  }

  /** With one entry per key, Counter(h) holds every entry once: the squared magnitude is the number of entries. */
  lemma SquaredMagnitudeIsLength(h: Hist)
    requires DistinctKeys(h)
    ensures SquaredMagnitude(h) == |h|
  {
    DotOfPrefix(h, h);
  }

  /** For histograms, the dot product (the shared entries) is at most either squared magnitude. */
  lemma DotBounded(a: Hist, b: Hist)
    requires DistinctKeys(a) && DistinctKeys(b)
    ensures Dot(a, b) <= SquaredMagnitude(a) && Dot(a, b) <= SquaredMagnitude(b)
  {
    SquaredMagnitudeIsLength(a);
    SquaredMagnitudeIsLength(b);
    DotAtMostLength(a, b);
    DotSymmetric(a, b);
    DotAtMostLength(b, a);
  }

  /** Histograms with the same entries have a dot product equal to each squared magnitude. */
  lemma DotOfEqualCounters(a: Hist, b: Hist)
    requires multiset(a) == multiset(b)
    ensures Dot(a, b) == SquaredMagnitude(a) == SquaredMagnitude(b)
  {
    DotRightMultiset(a, a, b);
    DotMultiset(a, b, a, b);
  }

  // ---------------------------------------------------------------------------
  // The score

  /** The score is 0 exactly when a histogram is empty or the two share nothing. */
  lemma SimilarityZero(a: Hist, b: Hist)
    ensures SquaredSimilarity(a, b) == 0.0 <==> a == [] || b == [] || Dot(a, b) == 0
  {
    if a != [] && b != [] {
      SquaredMagnitudePositive(a);
      SquaredMagnitudePositive(b);
      var p := SquaredMagnitude(a) * SquaredMagnitude(b);
      assert p > 0;
      if Dot(a, b) != 0 {
        assert Dot(a, b) * Dot(a, b) > 0;
      }
    }
  }

  /** similarity is symmetric. */
  lemma SimilaritySymmetric(a: Hist, b: Hist)
    ensures SquaredSimilarity(a, b) == SquaredSimilarity(b, a)
  {
    DotSymmetric(a, b);
  }

  /** similarity does not depend on the order of the entries of either histogram. */
  lemma SimilarityOrderIndependent(a: Hist, a': Hist, b: Hist, b': Hist)
    requires multiset(a) == multiset(a') && multiset(b) == multiset(b')
    ensures SquaredSimilarity(a, b) == SquaredSimilarity(a', b')
  {
    DotMultiset(a, a', b, b');
    DotMultiset(a, a', a, a');
    DotMultiset(b, b', b, b');
  }

  /** A non-empty histogram is fully similar to itself. */
  lemma SimilarityOfSelf(h: Hist)
    requires h != []
    ensures SquaredSimilarity(h, h) == 1.0
  {
    SquaredMagnitudePositive(h);
    var m := SquaredMagnitude(h);
    assert Dot(h, h) == m;
    var q := (m * m) as real;
    assert q > 0.0;
    assert q / q == 1.0;
  }

  lemma ProductBound(d: nat, x: nat, y: nat)
    requires d <= x && d <= y
    ensures d * d <= x * y
  {
    assert d * d <= d * y;
    assert d * y <= x * y;
  }

  /** Between histograms, the score lies in [0, 1]. */
  lemma SimilarityAtMostOne(a: Hist, b: Hist)
    requires DistinctKeys(a) && DistinctKeys(b)
    ensures 0.0 <= SquaredSimilarity(a, b) <= 1.0
  {
    DotBounded(a, b);
    var p := SquaredMagnitude(a) * SquaredMagnitude(b);
    if p != 0 {
      ProductBound(Dot(a, b), SquaredMagnitude(a), SquaredMagnitude(b));
      RatioAtMostOne(Dot(a, b) * Dot(a, b), p);
    }
  }

  lemma RatioAtMostOne(n: nat, d: nat)
    requires n <= d && d != 0
    ensures n as real / d as real <= 1.0
  {
    assert n as real <= d as real;
  }

  /** For scores s, t >= 0, comparing their squares decides the comparisons the source makes. */
  lemma SquaringKeepsComparisons(s: real, t: real)
    requires s >= 0.0 && t >= 0.0
    ensures s * s > 0.81 * (t * t) <==> s > 0.9 * t
    ensures s * s == t * t <==> s == t
    ensures s * s < t * t <==> s < t
  {
    SquareMonotone(0.9 * t, s);
    assert 0.81 * (t * t) == (0.9 * t) * (0.9 * t);
    SquareMonotone(s, t);
    SquareMonotone(t, s);
  }

  lemma SquareMonotone(s: real, t: real)
    requires s >= 0.0 && t >= 0.0
    ensures s < t <==> s * s < t * t
  {
    assert t * t - s * s == (t - s) * (t + s);
    if s < t {
      PositiveProduct(t - s, t + s);
    } else if t < s {
      PositiveProduct(s - t, s + t);
    }
  }

  lemma PositiveProduct(x: real, y: real)
    requires x > 0.0 && y > 0.0
    ensures x * y > 0.0
  {
  }
}
