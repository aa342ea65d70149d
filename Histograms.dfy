/**
 * genHistogram and genHistograms: the counted tokens of a file, sorted by
 * count in descending order (Python's stable sort with reverse=True) and
 * cut to the first COMPARE_LEN entries. A name that is not a file gives
 * the empty histogram. The file system is the map `fs` from path to text.
 */
module Histograms {
  import opened Tokens
  import opened Counting

  /** A histogram entry (hash(token), count); a histogram is a Python list of them. */
  type Entry = (int, int)
  type Hist = seq<Entry>

  /** The (key, count) entries of the counted words, in the dictionary's insertion order. */
  function Items(d: Dict): (items: Hist)
    requires Listed(d)
    ensures |items| == |d.order|
    ensures forall i :: 0 <= i < |items| ==> items[i] == (d.order[i], d.value[d.order[i]])
    decreases |d.order|
  {
    if d.order == [] then []
    else
      var last := |d.order| - 1;
      var rest := Dict(d.order[..last], d.value);
      assert forall i :: 0 <= i < last ==> rest.order[i] == d.order[i];
      Items(rest) + [(d.order[last], d.value[d.order[last]])]
  }

  predicate NonIncreasing(h: Hist) {
    forall i, j :: 0 <= i < j < |h| ==> h[i].1 >= h[j].1
  }

  predicate DistinctKeys(h: Hist) {
    forall i, j :: 0 <= i < j < |h| ==> h[i].0 != h[j].0
  }

  function KeySet(h: Hist): set<int> {
    set i | 0 <= i < |h| :: h[i].0
  }

  /** Puts x in front of the first entry whose count is not larger, so x precedes the entries of equal count. */
  function Insert(x: Entry, t: Hist): (r: Hist)
    ensures |r| == |t| + 1
  {
    if t == [] || t[0].1 <= x.1 then [x] + t
    else [t[0]] + Insert(x, t[1..])
  }

  /** sorted(items, key=itemgetter(1), reverse=True): a stable sort by count, largest first. */
  function SortByCount(s: Hist): (r: Hist)
    ensures |r| == |s|
  {
    if s == [] then [] else Insert(s[0], SortByCount(s[1..]))
  }

  /** The slice [:k]. */
  function TopK(s: Hist, k: nat): (r: Hist)
    ensures |r| == if k < |s| then k else |s|
    ensures r == s[..|r|]
  {
    if k < |s| then s[..k] else s
  }

  /** The words of the file, hashed and counted. */
  function CountedWords(text: string, hash: string -> int): Dict {
    Reduced(Mapper(TokensOf(text), hash))
  }

  /** genHistogram(fname) with COMPARE_LEN == compareLen. */
  function HistogramOf(fs: map<string, string>, hash: string -> int, fname: string, compareLen: nat): Hist {
    if fname !in fs then []
    else
      TopK(SortByCount(Items(CountedWords(fs[fname], hash))), compareLen)
  }

  /** genHistogram: tokenise the text, count the tokens, sort by count and keep the first compareLen entries. */
  method GenHistogram(fs: map<string, string>, hash: string -> int, fname: string, compareLen: nat)
    returns (h: Hist)
    ensures h == HistogramOf(fs, hash, fname, compareLen)
  {
    if fname !in fs {
      return [];
    }
    var allWords := Tokenize(fs[fname]);
    var counted := Reduce(Mapper(allWords, hash));
    h := TopK(SortByCount(Items(counted)), compareLen);
  }

  /** genHistograms(fnames) with COMPARE_LEN == compareLen: one histogram per name, in the order of the names. */
  function HistogramsOf(fs: map<string, string>, hash: string -> int, fnames: seq<string>, compareLen: nat): (r: seq<Hist>)
    ensures |r| == |fnames|
  {
    if fnames == [] then []
    else
      var last := |fnames| - 1;
      HistogramsOf(fs, hash, fnames[..last], compareLen) + [HistogramOf(fs, hash, fnames[last], compareLen)]
  }

  /** f applied to each name in turn, as pool.map(f, names) collects it. */
  function MapNames<T>(f: string -> T, names: seq<string>): (r: seq<T>)
    ensures |r| == |names|
  {
    if names == [] then []
    else
      var last := |names| - 1;
      MapNames(f, names[..last]) + [f(names[last])]
  }

  lemma {:induction false} MapNamesAt<T>(f: string -> T, names: seq<string>)
    ensures forall i :: 0 <= i < |names| ==> MapNames(f, names)[i] == f(names[i])
  {
    if names != [] {
      var last := |names| - 1;
      MapNamesAt(f, names[..last]);
      assert forall i :: 0 <= i < last ==> names[..last][i] == names[i];
    }
  }

  lemma {:induction false} HistogramsOfIsMap(fs: map<string, string>, hash: string -> int, fnames: seq<string>, compareLen: nat)
    ensures HistogramsOf(fs, hash, fnames, compareLen) == MapNames(name => HistogramOf(fs, hash, name, compareLen), fnames)
  {
    if fnames != [] {
      HistogramsOfIsMap(fs, hash, fnames[..|fnames| - 1], compareLen);
    }
  }

  /** genHistograms keeps the order of the names: histogram i is the histogram of fnames[i]. */
  lemma HistogramsOfNames(fs: map<string, string>, hash: string -> int, fnames: seq<string>, compareLen: nat)
    ensures forall i :: 0 <= i < |fnames| ==> HistogramsOf(fs, hash, fnames, compareLen)[i] == HistogramOf(fs, hash, fnames[i], compareLen)
  {
    var f := name => HistogramOf(fs, hash, name, compareLen);
    HistogramsOfIsMap(fs, hash, fnames, compareLen);
    MapNamesAt(f, fnames);
  }

  lemma HistogramsOfSnoc(fs: map<string, string>, hash: string -> int, fnames: seq<string>, compareLen: nat, i: nat)
    requires i < |fnames|
    ensures HistogramsOf(fs, hash, fnames[..i + 1], compareLen)
         == HistogramsOf(fs, hash, fnames[..i], compareLen) + [HistogramOf(fs, hash, fnames[i], compareLen)]
  {
    assert fnames[..i + 1][..i] == fnames[..i];
  }

  /** genHistograms: the loop that appends the histogram of each name in turn. */
  method GenHistograms(fs: map<string, string>, hash: string -> int, fnames: seq<string>, compareLen: nat)
    returns (histograms: seq<Hist>)
    ensures histograms == HistogramsOf(fs, hash, fnames, compareLen)
  {
    histograms := [];
    for i := 0 to |fnames|
      invariant histograms == HistogramsOf(fs, hash, fnames[..i], compareLen)
    {
      var h := GenHistogram(fs, hash, fnames[i], compareLen);
      HistogramsOfSnoc(fs, hash, fnames, compareLen, i);
      histograms := histograms + [h];
    }
    assert fnames[..|fnames|] == fnames;
  }

  // ---------------------------------------------------------------------------
  // Properties

  /** Insert adds x to the entries and nothing else. */
  lemma {:induction false} InsertPermutes(x: Entry, t: Hist)
    ensures multiset(Insert(x, t)) == multiset(t) + multiset{x}
  {
    if t != [] && t[0].1 > x.1 {
      InsertPermutes(x, t[1..]);
      assert t == [t[0]] + t[1..];
    }
  }

  /** The sort keeps the entries (a permutation) and puts them largest count first. */
  lemma {:induction false} SortByCountSorts(s: Hist)
    ensures multiset(SortByCount(s)) == multiset(s)
    ensures NonIncreasing(SortByCount(s))
  {
    if s != [] {
      SortByCountSorts(s[1..]);
      InsertPermutes(s[0], SortByCount(s[1..]));
      InsertSorted(s[0], SortByCount(s[1..]));
      assert s == [s[0]] + s[1..];
    }
  }

  lemma {:induction false} InsertSorted(x: Entry, t: Hist)
    requires NonIncreasing(t)
    ensures NonIncreasing(Insert(x, t))
  {
    if t != [] && t[0].1 > x.1 {
      var r := Insert(x, t[1..]);
      InsertSorted(x, t[1..]);
      InsertPermutes(x, t[1..]);
      forall j | 0 <= j < |r| ensures r[j].1 <= t[0].1 {
        assert r[j] in multiset(r);
        if r[j] != x {
          var i :| 0 <= i < |t[1..]| && t[1..][i] == r[j];
          assert t[i + 1] == r[j];
        }
      }
    }
  }

  /** The entries with count c, in order. */
  function WithCount(s: Hist, c: int): Hist {
    if s == [] then [] else (if s[0].1 == c then [s[0]] else []) + WithCount(s[1..], c)
  }

  lemma {:induction false} InsertStable(x: Entry, t: Hist, c: int)
    ensures WithCount(Insert(x, t), c) == WithCount([x] + t, c)
  {
    if t != [] && t[0].1 > x.1 {
      var rest := Insert(x, t[1..]);
      var head := if t[0].1 == c then [t[0]] else [];
      var mid := if x.1 == c then [x] else [];
      assert Insert(x, t) == [t[0]] + rest;
      calc {
        WithCount(Insert(x, t), c);
        { WithCountCons(t[0], rest, c); }
        head + WithCount(rest, c);
        { InsertStable(x, t[1..], c); WithCountCons(x, t[1..], c); }
        head + (mid + WithCount(t[1..], c));
        { assert head == [] || mid == []; }
        mid + (head + WithCount(t[1..], c));
        { WithCountCons(t[0], t[1..], c); assert [t[0]] + t[1..] == t; }
        mid + WithCount(t, c);
        { WithCountCons(x, t, c); }
        WithCount([x] + t, c);
      }
    }
  }

  lemma WithCountCons(e: Entry, s: Hist, c: int)
    ensures WithCount([e] + s, c) == (if e.1 == c then [e] else []) + WithCount(s, c)
  {
    assert ([e] + s)[1..] == s;
  }

  /** The sort is stable: the entries of each count keep their original order. */
  lemma {:induction false} SortStable(s: Hist, c: int)
    ensures WithCount(SortByCount(s), c) == WithCount(s, c)
  {
    if s != [] {
      SortStable(s[1..], c);
      InsertStable(s[0], SortByCount(s[1..]), c);
      WithCountCons(s[0], SortByCount(s[1..]), c);
    }
  }

  lemma {:induction false} InsertKeys(x: Entry, t: Hist)
    requires DistinctKeys(t)
    requires x.0 !in KeySet(t)
    ensures DistinctKeys(Insert(x, t))
  {
    if t != [] && t[0].1 > x.1 {
      assert KeySet(t[1..]) <= KeySet(t) by {
        forall k | k in KeySet(t[1..]) ensures k in KeySet(t) {
          var i :| 0 <= i < |t[1..]| && t[1..][i].0 == k;
          assert t[i + 1].0 == k;
        }
      }
      InsertKeys(x, t[1..]);
      var r := Insert(x, t[1..]);
      InsertPermutes(x, t[1..]);
      forall j | 0 <= j < |r| ensures r[j].0 != t[0].0 {
        assert r[j] in multiset(r);
        if r[j] != x {
          var i :| 0 <= i < |t[1..]| && t[1..][i] == r[j];
          assert t[i + 1] == r[j];
        }
      }
    }
  }

  lemma {:induction false} SortKeys(s: Hist)
    requires DistinctKeys(s)
    ensures DistinctKeys(SortByCount(s))
  {
    if s != [] {
      SortKeys(s[1..]);
      var t := SortByCount(s[1..]);
      SortByCountSorts(s[1..]);
      forall i | 0 <= i < |t| ensures t[i].0 != s[0].0 {
        assert t[i] in multiset(t);
        var j :| 0 <= j < |s[1..]| && s[1..][j] == t[i];
        assert s[j + 1] == t[i];
      }
      InsertKeys(s[0], t);
    }
  }

  /** Sorting entries with distinct keys and keeping the first k gives at most k entries, largest count first, one per key. */
  lemma SortedPrefixFacts(items: Hist, k: nat)
    requires DistinctKeys(items)
    ensures |TopK(SortByCount(items), k)| <= k
    ensures NonIncreasing(TopK(SortByCount(items), k))
    ensures DistinctKeys(TopK(SortByCount(items), k))
  {
    SortKeys(items);
    SortByCountSorts(items);
  }

  lemma HistogramFacts(fs: map<string, string>, hash: string -> int, fname: string, compareLen: nat)
    ensures |HistogramOf(fs, hash, fname, compareLen)| <= compareLen
    ensures NonIncreasing(HistogramOf(fs, hash, fname, compareLen))
    ensures DistinctKeys(HistogramOf(fs, hash, fname, compareLen))
  {
    if fname in fs {
      ReducedCounts(Mapper(TokensOf(fs[fname]), hash));
      var items := Items(CountedWords(fs[fname], hash));
      assert DistinctKeys(items);
      SortedPrefixFacts(items, compareLen);
    }
  }

  /**
   * The histogram of a file: at most compareLen entries, largest count first,
   * one entry per key; every entry is a token hash with the number of tokens
   * carrying it; every key left out counts no more than any kept entry; and
   * every key is kept when there are at most compareLen of them.
   * A name that is not a file gives [].
   */
  lemma TopKHistogram(fs: map<string, string>, hash: string -> int, fname: string, compareLen: nat)
    ensures fname !in fs ==> HistogramOf(fs, hash, fname, compareLen) == []
    ensures fname in fs ==>
      var words := TokensOf(fs[fname]);
      var counted := CountedWords(fs[fname], hash);
      var h := HistogramOf(fs, hash, fname, compareLen);
      && |h| == (if compareLen < |counted.order| then compareLen else |counted.order|)
      && NonIncreasing(h)
      && DistinctKeys(h)
      && (forall i :: 0 <= i < |h| ==> h[i].0 in counted.value && h[i].1 == CountHashed(words, hash, h[i].0) >= 1)
      && (forall w :: w in counted.value && w !in KeySet(h) ==>
            forall i :: 0 <= i < |h| ==> h[i].1 >= counted.value[w])
  {
    HistogramFacts(fs, hash, fname, compareLen);
    if fname in fs {
      var words := TokensOf(fs[fname]);
      var counted := CountedWords(fs[fname], hash);
      WordCounts(words, hash);
      var items := Items(counted);
      var h := HistogramOf(fs, hash, fname, compareLen);
      assert h == TopK(SortByCount(items), compareLen);
      TopKOfSorted(items, compareLen);
      forall i | 0 <= i < |h| ensures h[i].0 in counted.value && h[i].1 == CountHashed(words, hash, h[i].0) >= 1 {
        assert h[i] in items;
        var q :| 0 <= q < |items| && items[q] == h[i];
      }
      forall w | w in counted.value && w !in KeySet(h)
        ensures forall i :: 0 <= i < |h| ==> h[i].1 >= counted.value[w]
      {
        var q :| 0 <= q < |counted.order| && counted.order[q] == w;
        assert items[q] == (w, counted.value[w]);
      }
    }
  }

  /** The first k entries of the sorted items are items, and no item whose key they leave out counts more than any of them. */
  lemma TopKOfSorted(items: Hist, k: nat)
    ensures forall i :: 0 <= i < |TopK(SortByCount(items), k)| ==> TopK(SortByCount(items), k)[i] in multiset(items)
    ensures forall q, i :: 0 <= q < |items| && items[q].0 !in KeySet(TopK(SortByCount(items), k)) && 0 <= i < |TopK(SortByCount(items), k)|
              ==> TopK(SortByCount(items), k)[i].1 >= items[q].1
  {
    var sorted := SortByCount(items);
    SortByCountSorts(items);
    var h := TopK(sorted, k);
    forall i | 0 <= i < |h| ensures h[i] in multiset(items) {
      assert h[i] == sorted[i] && sorted[i] in multiset(sorted);
    }
    forall q, i | 0 <= q < |items| && items[q].0 !in KeySet(h) && 0 <= i < |h| ensures h[i].1 >= items[q].1 {
      var e := items[q];
      assert e in multiset(sorted);
      var p :| 0 <= p < |sorted| && sorted[p] == e;
      forall j | 0 <= j < |h| ensures sorted[j].0 != e.0 {
        assert sorted[j] == h[j] && h[j].0 in KeySet(h);
      }
      assert p >= |h|;
      assert h[i] == sorted[i] && i < p;
    }
  }
}
