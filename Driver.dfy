/**
 * The pass loop of main: a first pass with histograms of COMPARE_LEN
 * entries, then, while the short list holds more than one name, another
 * pass over the short list, with the histogram length doubled
 * (LIST_SCALE_FACTOR) or, below 500 names, unbounded. The loop stops when
 * a pass keeps its names and finds a unique best score, after an unbounded
 * pass, or once the length passes 10000.
 */
module Driver {
  import opened Histograms
  import opened Pass

  /** The histogram length of the first pass. */
  const COMPARE_LEN: nat := 50
  /** The factor by which the histogram length grows from pass to pass. */
  const LIST_SCALE_FACTOR: nat := 2
  /** Below this many names the next pass compares whole histograms. */
  const FULL_COMPARE_BELOW: nat := 500
  /** Once the histogram length exceeds this, the loop gives up. */
  const MAX_COMPARE_LEN: nat := 10000

  /** The histogram length of the pass after n doublings: COMPARE_LEN * LIST_SCALE_FACTOR^n. */
  function ScaledLength(n: nat): (len: nat)
    ensures len >= COMPARE_LEN
  {
    if n == 0 then COMPARE_LEN else ScaledLength(n - 1) * LIST_SCALE_FACTOR
  }

  lemma {:induction false} ScaledLengthGrows(m: nat, n: nat)
    requires m <= n
    ensures ScaledLength(m) <= ScaledLength(n)
  {
    if m < n {
      ScaledLengthGrows(m, n - 1);
    }
  }

  /**
   * The histogram length of the next pass over a short list of n names:
   * whole histograms (None) below FULL_COMPARE_BELOW names, otherwise the
   * current length times LIST_SCALE_FACTOR.
   */
  function NextLength(n: nat, len: nat): (next: Option<nat>)
    ensures next.None? <==> n < FULL_COMPARE_BELOW
    ensures next.Some? ==> next.value == len * LIST_SCALE_FACTOR && (len > 0 ==> next.value > len)
  {
    if n < FULL_COMPARE_BELOW then None else Some(len * LIST_SCALE_FACTOR)
  }

  /** Doubling the length after d doublings gives the length after d + 1. */
  lemma ScaledLengthStep(d: nat, len: nat)
    requires len == ScaledLength(d)
    ensures len * LIST_SCALE_FACTOR == ScaledLength(d + 1)
  {
  }

  /** Eight doublings of COMPARE_LEN exceed MAX_COMPARE_LEN (50 * 2^8 = 12800), so a length within it is at least COMPARE_LEN doubled at most seven times. */
  lemma ScaledLengthBound(d: nat, len: nat)
    requires ScaledLength(d) <= len <= MAX_COMPARE_LEN
    ensures d <= 7
  {
    if d >= 8 {
      ScaledLengthGrows(8, d);
    }
  }

  /**
   * The body of main's loop: the histogram length of the next pass over
   * the short list `names` of the pass before, which used `len` entries,
   * then compare over those names.
   */
  method NextPass(fs: map<string, string>, hash: string -> int, names: seq<string>, len: nat)
    returns (pass: PassResult, cLen: Option<nat>)
    requires |names| >= 2
    ensures cLen == NextLength(|names|, len)
    ensures pass == PassOf(fs, hash, names, cLen)
    ensures pass.top.first < |names| && pass.top.second < |names| && pass.top.first != pass.top.second
    ensures |pass.shortList| <= |names| && forall f :: f in pass.shortList ==> f in names
    ensures len <= MAX_COMPARE_LEN ==> cLen.None? || cLen.value <= MAX_COMPARE_LEN * LIST_SCALE_FACTOR
  {
    cLen := NextLength(|names|, len);
    var top, shortList, found := Compare(fs, hash, names, cLen);
    pass := PassResult(top, shortList, found);
    PassFacts(fs, hash, names, cLen);
  }

  /**
   * The passes of main's loop from a pass `pass` over `names` that used
   * `len` entries, after `passes` calls of compare, as a function: while the
   * short list holds more than one name, the next pass runs over it with the
   * next length; the result is the pass, names and length at which the loop
   * stops, either because the short list is too short or after the break
   * tests of the source, and the number of calls of compare by then.
   */
  function Refine(fs: map<string, string>, hash: string -> int, names: seq<string>, pass: PassResult, len: nat, passes: nat)
    : (PassResult, seq<string>, Option<nat>, int)
    requires COMPARE_LEN <= len <= MAX_COMPARE_LEN
    decreases MAX_COMPARE_LEN - len
  {
    if |pass.shortList| <= 1 then (pass, names, Some(len), passes)
    else
      var next := NextLength(|pass.shortList|, len);
      var p := PassOf(fs, hash, pass.shortList, next);
      if (p.shortList == pass.shortList && p.found) || next.None? || next.value > MAX_COMPARE_LEN then
        (p, pass.shortList, next, passes + 1)
      else
        Refine(fs, hash, pass.shortList, p, next.value, passes + 1)
  }

  /** The passes Refine describes stop for one of the loop's reasons: a short list of at most one name, a pass that kept its names and found a unique best, a pass over whole histograms, or a length beyond MAX_COMPARE_LEN. */
  lemma {:induction false} RefineStops(fs: map<string, string>, hash: string -> int, names: seq<string>, pass: PassResult, len: nat, passes: nat)
    requires COMPARE_LEN <= len <= MAX_COMPARE_LEN
    ensures var r := Refine(fs, hash, names, pass, len, passes);
      |r.0.shortList| <= 1 || (r.0.shortList == r.1 && r.0.found) || r.2.None? || r.2.value > MAX_COMPARE_LEN
    decreases MAX_COMPARE_LEN - len
  {
    if |pass.shortList| > 1 {
      var next := NextLength(|pass.shortList|, len);
      var p := PassOf(fs, hash, pass.shortList, next);
      if !((p.shortList == pass.shortList && p.found) || next.None? || next.value > MAX_COMPARE_LEN) {
        RefineStops(fs, hash, pass.shortList, p, next.value, passes + 1);
      }
    }
  }

  /** From a length of at least COMPARE_LEN doubled `d` times, at most 8 - d further passes follow: each one doubles the length, and none starts beyond MAX_COMPARE_LEN. */
  lemma {:induction false} RefinePassesBound(fs: map<string, string>, hash: string -> int, names: seq<string>, pass: PassResult, len: nat, passes: nat, d: nat)
    requires COMPARE_LEN <= len <= MAX_COMPARE_LEN && ScaledLength(d) <= len
    ensures passes <= Refine(fs, hash, names, pass, len, passes).3 <= passes + 8 - d
    decreases MAX_COMPARE_LEN - len
  {
    ScaledLengthBound(d, len);
    if |pass.shortList| > 1 {
      var next := NextLength(|pass.shortList|, len);
      var p := PassOf(fs, hash, pass.shortList, next);
      if !((p.shortList == pass.shortList && p.found) || next.None? || next.value > MAX_COMPARE_LEN) {
        RefinePassesBound(fs, hash, pass.shortList, p, next.value, passes + 1, d + 1);
      }
    }
  }

  /**
   * main's passes over the names `initial`: the final pass, the names it
   * ranked and the histogram length it used. The result is the pass compare
   * makes of those names, its names are among the initial ones, the loop
   * stopped for one of its reasons, and the length is COMPARE_LEN doubled
   * `doublings` times. The final length is at most twice MAX_COMPARE_LEN,
   * and a final pass over whole histograms follows a length within
   * MAX_COMPARE_LEN. `passes` counts the calls of compare, as Refine does:
   * at most nine by AtMostNinePasses.
   */
  method FindMostSimilar(fs: map<string, string>, hash: string -> int, initial: seq<string>)
    returns (pass: PassResult, fnames: seq<string>, cLen: Option<nat>, ghost doublings: nat, ghost passes: nat)
    requires |initial| >= 2
    ensures |fnames| >= 2 && forall f :: f in fnames ==> f in initial
    ensures (pass, fnames, cLen, passes) == Refine(fs, hash, initial, PassOf(fs, hash, initial, Some(COMPARE_LEN)), COMPARE_LEN, 1)
    ensures pass == PassOf(fs, hash, fnames, cLen)
    ensures pass.top.first < |fnames| && pass.top.second < |fnames| && pass.top.first != pass.top.second
    ensures |pass.shortList| <= 1 || (pass.shortList == fnames && pass.found) || cLen.None? || cLen.value > MAX_COMPARE_LEN
    ensures cLen.None? || cLen.value == ScaledLength(doublings)
    ensures cLen.None? || cLen.value <= MAX_COMPARE_LEN * LIST_SCALE_FACTOR
    ensures cLen.None? ==> ScaledLength(doublings) <= MAX_COMPARE_LEN
    ensures cLen.Some? && cLen.value <= MAX_COMPARE_LEN ==> doublings <= 7
  {
    fnames := initial;
    cLen := Some(COMPARE_LEN);
    var top, shortList, found := Compare(fs, hash, fnames, cLen);
    pass := PassResult(top, shortList, found);
    PassFacts(fs, hash, fnames, cLen);
    doublings := 0;
    passes := 1;
    while |pass.shortList| > 1
      invariant |fnames| >= 2 && forall f :: f in fnames ==> f in initial
      invariant pass == PassOf(fs, hash, fnames, cLen)
      invariant pass.top.first < |fnames| && pass.top.second < |fnames| && pass.top.first != pass.top.second
      invariant |pass.shortList| <= |fnames| && forall f :: f in pass.shortList ==> f in fnames
      invariant cLen.Some? && COMPARE_LEN <= cLen.value <= MAX_COMPARE_LEN
      invariant cLen.value == ScaledLength(doublings)
      invariant Refine(fs, hash, fnames, pass, cLen.value, passes) == Refine(fs, hash, initial, PassOf(fs, hash, initial, Some(COMPARE_LEN)), COMPARE_LEN, 1)
      decreases MAX_COMPARE_LEN - cLen.value
    {
      fnames := pass.shortList;
      ScaledLengthStep(doublings, cLen.value);
      pass, cLen := NextPass(fs, hash, fnames, cLen.value);
      passes := passes + 1;
      if cLen.Some? {
        doublings := doublings + 1;
      }
      if (pass.shortList == fnames && pass.found) || cLen == None || cLen.value > MAX_COMPARE_LEN {
        break;
      }
    }
    if cLen.Some? && cLen.value <= MAX_COMPARE_LEN {
      ScaledLengthBound(doublings, cLen.value);
    }
  }

  /** main calls compare at most nine times: once at COMPARE_LEN and at most eight times after it. */
  lemma AtMostNinePasses(fs: map<string, string>, hash: string -> int, initial: seq<string>)
    requires |initial| >= 2
    ensures 1 <= Refine(fs, hash, initial, PassOf(fs, hash, initial, Some(COMPARE_LEN)), COMPARE_LEN, 1).3 <= 9
  {
    RefinePassesBound(fs, hash, initial, PassOf(fs, hash, initial, Some(COMPARE_LEN)), COMPARE_LEN, 1, 0);
  }
}
