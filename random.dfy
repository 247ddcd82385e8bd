// Sampling of distinct integers by rejection: draws are added to a Set until
// it holds `count` values. Math.random is an input here: the sequence of the
// values it returns, each in [0, 1).
module Random {
  import opened Sets

  datatype Option<T> = None | Some(value: T)

  predicate Distinct(s: seq<int>) {
    forall i, j :: 0 <= i < j < |s| ==> s[i] != s[j]
  }

  /** `Math.floor(random * (max - min + 1)) + min`. */
  function Draw(random: real, min: int, max: int): int {
    (random * (max - min + 1) as real).Floor + min
  }

  /** A draw from [0, 1) lands in [min, max]. */
  lemma DrawInRange(random: real, min: int, max: int)
    requires 0.0 <= random < 1.0 && min <= max
    ensures min <= Draw(random, min, max) <= max
  {
    var n := (max - min + 1) as real;
    assert 0.0 <= random * n < n by {
      assert (1.0 - random) * n > 0.0;
    }
  }

  /** The values drawn from a sequence of Math.random results. */
  function Draws(randoms: seq<real>, min: int, max: int): (vs: seq<int>)
    ensures |vs| == |randoms|
    ensures forall i :: 0 <= i < |randoms| ==> vs[i] == Draw(randoms[i], min, max)
  {
    seq(|randoms|, i requires 0 <= i < |randoms| => Draw(randoms[i], min, max))
  }

  /** `Array.from(set)` after adding `values` one by one to an empty Set: the
      values without repeats, in order of first insertion. */
  function Collected(values: seq<int>): seq<int> {
    if values == [] then []
    else
      var prev := Collected(values[..|values| - 1]);
      var v := values[|values| - 1];
      if v in prev then prev else prev + [v]
  }

  /** The collected values are pairwise distinct and are exactly the values added. */
  lemma {:induction false} CollectedIsSet(values: seq<int>)
    ensures Distinct(Collected(values))
    ensures forall v :: v in Collected(values) <==> v in values
  {
    if values != [] {
      var init := values[..|values| - 1];
      CollectedIsSet(init);
      assert values == init + [values[|values| - 1]];
    }
  }

  /** Adding one value grows the Set by at most one element. */
  lemma CollectedGrowsByAtMostOne(values: seq<int>, v: int)
    ensures |Collected(values)| <= |Collected(values + [v])| <= |Collected(values)| + 1
  {
    assert (values + [v])[..|values|] == values;
  }

  /** The integers lo..hi. */
  function RangeSet(lo: int, hi: int): (r: set<int>)
    ensures forall v :: v in r <==> lo <= v <= hi
    decreases hi - lo
  {
    if lo > hi then {} else {lo} + RangeSet(lo + 1, hi)
  }

  lemma {:induction false} RangeSetSize(lo: int, hi: int)
    requires lo <= hi + 1
    ensures |RangeSet(lo, hi)| == hi - lo + 1
    decreases hi - lo
  {
    if lo <= hi {
      RangeSetSize(lo + 1, hi);
    }
  }

  lemma {:induction false} DistinctSize(s: seq<int>)
    requires Distinct(s)
    ensures |Elems(s)| == |s|
  {
    if s != [] {
      var init := s[..|s| - 1];
      DistinctSize(init);
      assert s == init + [s[|s| - 1]];
      assert Elems(s) == Elems(init) + {s[|s| - 1]};
    }
  }

  /** At most max - min + 1 distinct values fit in [min, max]. */
  lemma DistinctInRangeSize(s: seq<int>, min: int, max: int)
    requires min <= max + 1 && Distinct(s)
    requires forall v :: v in s ==> min <= v <= max
    ensures |s| <= max - min + 1
  {
    DistinctSize(s);
    RangeSetSize(min, max);
    SubsetSize(Elems(s), RangeSet(min, max));
  }

  /** `randomNumbers(min, max, count)`, with `randoms` the results of the
      successive Math.random calls. The loop stops once the Set holds `count`
      values; if the given results run out first, the result is None (the
      source would keep drawing) and all of them were used. */
  method RandomNumbers(min: int, max: int, count: int, randoms: seq<real>)
    returns (r: Option<seq<int>>, used: nat)
    requires forall i :: 0 <= i < |randoms| ==> 0.0 <= randoms[i] < 1.0
    ensures used <= |randoms|
    ensures forall k :: 0 <= k < used ==> |Collected(Draws(randoms[..k], min, max))| < count
    ensures r.Some? ==> r.value == Collected(Draws(randoms[..used], min, max))
    ensures r.Some? ==> |r.value| == (if count < 0 then 0 else count)
    ensures r.Some? ==> Distinct(r.value)
    ensures r.Some? && min <= max ==> forall v :: v in r.value ==> min <= v <= max
    ensures r.Some? && min <= max ==> count <= max - min + 1
    ensures r.None? ==> used == |randoms| && |Collected(Draws(randoms, min, max))| < count
  {
    var uniqueNumbers: seq<int> := [];
    used := 0;
    while |uniqueNumbers| < count && used < |randoms|
      invariant used <= |randoms|
      invariant uniqueNumbers == Collected(Draws(randoms[..used], min, max))
      invariant |uniqueNumbers| <= (if count < 0 then 0 else count)
      invariant forall k :: 0 <= k < used ==> |Collected(Draws(randoms[..k], min, max))| < count
      invariant min <= max ==> forall v :: v in uniqueNumbers ==> min <= v <= max
    {
      var v := Draw(randoms[used], min, max);
      if min <= max {
        DrawInRange(randoms[used], min, max);
      }
      assert Draws(randoms[..used + 1], min, max) == Draws(randoms[..used], min, max) + [v];
      if v !in uniqueNumbers {
        uniqueNumbers := uniqueNumbers + [v];
      }
      used := used + 1;
    }
    CollectedIsSet(Draws(randoms[..used], min, max));
    if |uniqueNumbers| >= count {
      r := Some(uniqueNumbers);
      if min <= max {
        DistinctInRangeSize(uniqueNumbers, min, max);
      }
    } else {
      assert randoms[..used] == randoms;
      r := None;
    }
  }
}
