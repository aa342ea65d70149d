/**
 * mapper and reducer: every token becomes a (hash(token), 1) pair and the
 * pairs are summed per key into a dictionary. The dictionary is modelled as
 * an insertion-ordered dict (the iteration order of Python 3.7+; Python 2's
 * hash-table order is not modelled): the keys in the order they were first
 * added, and the map from key to count.
 */
module Counting {

  /** mapper: pairs the hash of each word with a count of one, in word order. Python's hash() is the parameter `hash`. */
  function Mapper(words: seq<string>, hash: string -> int): (mapped: seq<(int, int)>)
    ensures |mapped| == |words|
    ensures forall i :: 0 <= i < |words| ==> mapped[i].0 == hash(words[i]) && mapped[i].1 == 1
  {
    if words == [] then []
    else Mapper(words[..|words| - 1], hash) + [(hash(words[|words| - 1]), 1)]
  }

  /** A Python dict from int to int: its keys in insertion order and its contents. */
  datatype Dict = Dict(order: seq<int>, value: map<int, int>)

  predicate NoDuplicates(s: seq<int>) {
    forall i, j :: 0 <= i < j < |s| ==> s[i] != s[j]
  }

  /** Every key occurs once in the insertion order, and exactly the keys of the map occur there. */
  ghost predicate Valid(d: Dict) {
    && NoDuplicates(d.order)
    && (forall k :: k in d.value <==> k in d.order)
  }

  /** One iteration of reducer: add `occurrence` to the count of `word`, or create the entry. */
  function Add(d: Dict, word: int, occurrence: int): Dict {
    if word in d.value then Dict(d.order, d.value[word := d.value[word] + occurrence])
    else Dict(d.order + [word], d.value[word := occurrence])
  }

  /** Every key in the insertion order has a count. */
  predicate Listed(d: Dict) {
    forall i :: 0 <= i < |d.order| ==> d.order[i] in d.value
  }

  /** The dictionary reducer has built after the pairs of `mapped`. */
  function Reduced(mapped: seq<(int, int)>): (d: Dict)
    ensures Listed(d)
  {
    if mapped == [] then Dict([], map[])
    else
      var last := mapped[|mapped| - 1];
      Add(Reduced(mapped[..|mapped| - 1]), last.0, last.1)
  }

  /** reducer: the loop over the mapped pairs that updates the dictionary. */
  method Reduce(mapped: seq<(int, int)>) returns (output: Dict)
    ensures output == Reduced(mapped)
    ensures Valid(output)
    ensures output.value.Keys == KeysOf(mapped)
    ensures forall k :: k in output.value ==> output.value[k] == Occurrences(mapped, k)
  {
    output := Dict([], map[]);
    for i := 0 to |mapped|
      invariant output == Reduced(mapped[..i])
    {
      ReducedSnoc(mapped, i);
      var (word, occurrence) := mapped[i];
      if word in output.value {
        output := output.(value := output.value[word := output.value[word] + occurrence]);
      } else {
        output := Dict(output.order + [word], output.value[word := occurrence]);
      }
    }
    assert mapped[..|mapped|] == mapped;
    ReducedCounts(mapped);
  }

  lemma ReducedSnoc(mapped: seq<(int, int)>, i: nat)
    requires i < |mapped|
    ensures Reduced(mapped[..i + 1]) == Add(Reduced(mapped[..i]), mapped[i].0, mapped[i].1)
  {
    assert mapped[..i + 1][..i] == mapped[..i];
  }

  // ---------------------------------------------------------------------------
  // Reference definitions

  /** The keys that occur in the mapped pairs. */
  function KeysOf(mapped: seq<(int, int)>): set<int> {
    set i | 0 <= i < |mapped| :: mapped[i].0
  }

  /** The sum of the occurrences paired with key k. */
  function Occurrences(mapped: seq<(int, int)>, k: int): int {
    if mapped == [] then 0
    else
      var last := mapped[|mapped| - 1];
      Occurrences(mapped[..|mapped| - 1], k) + (if last.0 == k then last.1 else 0)
  }

  /** The sum of all occurrences. */
  function TotalOccurrences(mapped: seq<(int, int)>): int {
    if mapped == [] then 0 else TotalOccurrences(mapped[..|mapped| - 1]) + mapped[|mapped| - 1].1
  }

  /** The number of words whose hash is k. */
  function CountHashed(words: seq<string>, hash: string -> int, k: int): nat {
    if words == [] then 0
    else CountHashed(words[..|words| - 1], hash, k) + (if hash(words[|words| - 1]) == k then 1 else 0)
  }

  /** The sum of the counts of the keys in `keys`. */
  function SumCounts(keys: seq<int>, value: map<int, int>): int
    requires forall k :: k in keys ==> k in value
  {
    if keys == [] then 0
    else
      var last := keys[|keys| - 1];
      assert last in keys;
      SumCounts(keys[..|keys| - 1], value) + value[last]
  }

  /** The sum of all counts of a dictionary. */
  function Total(d: Dict): int
    requires Valid(d)
  {
    SumCounts(d.order, d.value)
  }

  // ---------------------------------------------------------------------------
  // Properties

  /** reducer keeps each key once, has exactly the keys of its input, and counts each one's occurrences. */
  lemma {:induction false} ReducedCounts(mapped: seq<(int, int)>)
    ensures Valid(Reduced(mapped))
    ensures Reduced(mapped).value.Keys == KeysOf(mapped)
    ensures forall k :: k in Reduced(mapped).value ==> Reduced(mapped).value[k] == Occurrences(mapped, k)
  {
    if mapped != [] {
      var prefix := mapped[..|mapped| - 1];
      var last := mapped[|mapped| - 1];
      ReducedCounts(prefix);
      var d := Reduced(prefix);
      var d' := Reduced(mapped);
      assert KeysOf(mapped) == KeysOf(prefix) + {last.0} by {
        forall k | k in KeysOf(mapped) ensures k in KeysOf(prefix) + {last.0} {
          var i :| 0 <= i < |mapped| && mapped[i].0 == k;
          if i < |prefix| { assert prefix[i] == mapped[i]; }
        }
        forall k | k in KeysOf(prefix) ensures k in KeysOf(mapped) {
          var i :| 0 <= i < |prefix| && prefix[i].0 == k;
          assert mapped[i] == prefix[i];
        }
      }
      forall k | k in d'.value ensures d'.value[k] == Occurrences(mapped, k) {
        if k != last.0 {
          assert k in d.value;
        } else if last.0 !in d.value {
          assert last.0 !in KeysOf(prefix);
          OccurrencesOfAbsent(prefix, last.0);
        }
      }
    }
  }

  lemma {:induction false} OccurrencesOfAbsent(mapped: seq<(int, int)>, k: int)
    requires k !in KeysOf(mapped)
    ensures Occurrences(mapped, k) == 0
  {
    if mapped != [] {
      var prefix := mapped[..|mapped| - 1];
      assert KeysOf(prefix) <= KeysOf(mapped) by {
        forall x | x in KeysOf(prefix) ensures x in KeysOf(mapped) {
          var i :| 0 <= i < |prefix| && prefix[i].0 == x;
          assert mapped[i] == prefix[i];
        }
      }
      OccurrencesOfAbsent(prefix, k);
    }
  }

  lemma {:induction false} SumCountsUnchanged(keys: seq<int>, value: map<int, int>, k: int, x: int)
    requires forall j :: j in keys ==> j in value
    requires k !in keys
    ensures SumCounts(keys, value[k := x]) == SumCounts(keys, value)
  {
    if keys != [] {
      SumCountsUnchanged(keys[..|keys| - 1], value, k, x);
    }
  }

  lemma {:induction false} SumCountsBump(keys: seq<int>, value: map<int, int>, k: int, x: int)
    requires forall j :: j in keys ==> j in value
    requires NoDuplicates(keys)
    requires k in keys
    ensures SumCounts(keys, value[k := value[k] + x]) == SumCounts(keys, value) + x
  {
    var prefix := keys[..|keys| - 1];
    var last := keys[|keys| - 1];
    if last == k {
      assert k !in prefix;
      SumCountsUnchanged(prefix, value, k, value[k] + x);
    } else {
      assert k in prefix;
      SumCountsBump(prefix, value, k, x);
    }
  }

  /** The counts of the dictionary add up to the sum of all occurrences. */
  lemma {:induction false} ReducedTotal(mapped: seq<(int, int)>)
    ensures Valid(Reduced(mapped))
    ensures Total(Reduced(mapped)) == TotalOccurrences(mapped)
  {
    ReducedCounts(mapped);
    if mapped != [] {
      var prefix := mapped[..|mapped| - 1];
      var last := mapped[|mapped| - 1];
      ReducedTotal(prefix);
      AddTotal(Reduced(prefix), last.0, last.1);
    }
  }

  /** One step of reducer adds the occurrence to the total. */
  lemma AddTotal(d: Dict, k: int, x: int)
    requires Valid(d) && Valid(Add(d, k, x))
    ensures Total(Add(d, k, x)) == Total(d) + x
  {
    if k in d.value {
      SumCountsBump(d.order, d.value, k, x);
    } else {
      assert (d.order + [k])[..|d.order|] == d.order;
      SumCountsUnchanged(d.order, d.value, k, x);
    }
  }

  lemma {:induction false} MapperOccurrences(words: seq<string>, hash: string -> int, k: int)
    ensures Occurrences(Mapper(words, hash), k) == CountHashed(words, hash, k)
    ensures TotalOccurrences(Mapper(words, hash)) == |words|
  {
    if words != [] {
      var prefix := words[..|words| - 1];
      assert Mapper(words, hash)[..|words| - 1] == Mapper(prefix, hash);
      MapperOccurrences(prefix, hash, k);
    }
  }

  lemma {:induction false} CountHashedPositive(words: seq<string>, hash: string -> int, i: nat)
    requires i < |words|
    ensures CountHashed(words, hash, hash(words[i])) >= 1
  {
    if i < |words| - 1 {
      assert words[..|words| - 1][i] == words[i];
      CountHashedPositive(words[..|words| - 1], hash, i);
    }
  }

  /**
   * reducer(mapper(words)): one key per distinct hash, each counted as often
   * as words carry that hash (so at least once), the counts adding up to the
   * number of words.
   */
  lemma WordCounts(words: seq<string>, hash: string -> int)
    ensures Valid(Reduced(Mapper(words, hash)))
    ensures forall k :: k in Reduced(Mapper(words, hash)).value <==> exists i :: 0 <= i < |words| && hash(words[i]) == k
    ensures forall k :: k in Reduced(Mapper(words, hash)).value ==>
              Reduced(Mapper(words, hash)).value[k] == CountHashed(words, hash, k) >= 1
    ensures Total(Reduced(Mapper(words, hash))) == |words|
  {
    var mapped := Mapper(words, hash);
    ReducedCounts(mapped);
    ReducedTotal(mapped);
    MapperOccurrences(words, hash, 0);
    MapperKeys(words, hash);
    forall k | k in Reduced(mapped).value
      ensures Reduced(mapped).value[k] == CountHashed(words, hash, k) >= 1
    {
      KeyCount(words, hash, k);
    }
  }

  /** The keys of mapper's pairs are the hashes of the words. */
  lemma MapperKeys(words: seq<string>, hash: string -> int)
    ensures forall k :: k in KeysOf(Mapper(words, hash)) <==> exists i :: 0 <= i < |words| && hash(words[i]) == k
  {
    var mapped := Mapper(words, hash);
    forall k ensures k in KeysOf(mapped) <==> exists i :: 0 <= i < |words| && hash(words[i]) == k {
      if exists i :: 0 <= i < |words| && hash(words[i]) == k {
        var i :| 0 <= i < |words| && hash(words[i]) == k;
        assert mapped[i].0 == k;
      }
    }
  }

  /** The count of a key of the dictionary is the number of words hashing to it, at least one. */
  lemma KeyCount(words: seq<string>, hash: string -> int, k: int)
    requires k in Reduced(Mapper(words, hash)).value
    ensures Reduced(Mapper(words, hash)).value[k] == CountHashed(words, hash, k) >= 1
  {
    var mapped := Mapper(words, hash);
    ReducedCounts(mapped);
    MapperOccurrences(words, hash, k);
    var i :| 0 <= i < |mapped| && mapped[i].0 == k;
    CountHashedPositive(words, hash, i);
  }
}
