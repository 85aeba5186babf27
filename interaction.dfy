/**
 * The value-level part of `Individual::interact` (src/lib.rs:139-170): the similarity count, the
 * Bernoulli coin, the list of candidate indices and the write, over feature vectors.
 */
module Interaction {
  import opened Ints
  import opened Wrappers
  import opened Rng

  function Min(a: nat, b: nat): nat
  {
    if a <= b then a else b
  }

  /**
   * The numerator at src/lib.rs:146-149: the positions of `mine.zip(theirs)` whose two features
   * are equal. `zip` stops at the shorter vector.
   */
  function Numerator(mine: seq<u32>, theirs: seq<u32>): (n: nat)
    ensures n <= Min(|mine|, |theirs|)
    ensures n == Min(|mine|, |theirs|) <==> mine[..Min(|mine|, |theirs|)] == theirs[..Min(|mine|, |theirs|)]
  {
    if mine == [] || theirs == [] then 0
    else
      var rest := Numerator(mine[1..], theirs[1..]);
      assert mine[1..][..Min(|mine|, |theirs|) - 1] == mine[1..Min(|mine|, |theirs|)];
      assert theirs[1..][..Min(|mine|, |theirs|) - 1] == theirs[1..Min(|mine|, |theirs|)];
      (if mine[0] == theirs[0] then 1 else 0) + rest
  }

  /** Indices k >= from of the zipped vectors kept by a filter that keeps equal (`keepEqual`) or unequal positions. */
  function FilterFrom(mine: seq<u32>, theirs: seq<u32>, from: nat, keepEqual: bool): seq<nat>
    decreases |mine| - from
  {
    if from >= Min(|mine|, |theirs|) then []
    else
      (if (mine[from] == theirs[from]) == keepEqual then [from] else [])
      + FilterFrom(mine, theirs, from + 1, keepEqual)
  }

  /**
   * The list the source calls `different_characteristics` (src/lib.rs:157-162): it maps each
   * position to `m == t` and keeps the positions where that is TRUE, i.e. where the features agree.
   */
  function MatchingIndices(mine: seq<u32>, theirs: seq<u32>): seq<nat>
  {
    FilterFrom(mine, theirs, 0, true)
  }

  /** The list that name promises: the positions where the two features differ. */
  function DifferingIndices(mine: seq<u32>, theirs: seq<u32>): seq<nat>
  {
    FilterFrom(mine, theirs, 0, false)
  }

  predicate StrictlyIncreasing(s: seq<nat>)
  {
    forall i, j :: 0 <= i < j < |s| ==> s[i] < s[j]
  }

  /** A filtered list holds, in increasing order, exactly the positions from `from` on that pass the filter. */
  lemma {:induction false} FilterFromSpec(mine: seq<u32>, theirs: seq<u32>, from: nat, keepEqual: bool)
    ensures var r := FilterFrom(mine, theirs, from, keepEqual);
      StrictlyIncreasing(r) &&
      (forall k: nat :: k in r <==> from <= k < |mine| && k < |theirs| && (mine[k] == theirs[k]) == keepEqual)
    decreases |mine| - from
  {
    if from < Min(|mine|, |theirs|) {
      FilterFromSpec(mine, theirs, from + 1, keepEqual);
      var head := if (mine[from] == theirs[from]) == keepEqual then [from] else [];
      var tail := FilterFrom(mine, theirs, from + 1, keepEqual);
      forall k | 0 <= k < |tail|
        ensures from < tail[k]
      {
        assert tail[k] in tail;
      }
      assert FilterFrom(mine, theirs, from, keepEqual) == head + tail;
    }
  }

  /** The count of kept positions from `from` on, against the numerator of the suffixes. */
  lemma {:induction false} FilterFromCount(mine: seq<u32>, theirs: seq<u32>, from: nat, keepEqual: bool)
    requires from <= Min(|mine|, |theirs|)
    ensures |FilterFrom(mine, theirs, from, keepEqual)| ==
      if keepEqual then Numerator(mine[from..], theirs[from..])
      else Min(|mine|, |theirs|) - from - Numerator(mine[from..], theirs[from..])
    decreases |mine| - from
  {
    if from < Min(|mine|, |theirs|) {
      FilterFromCount(mine, theirs, from + 1, keepEqual);
      assert mine[from..][1..] == mine[from + 1..];
      assert theirs[from..][1..] == theirs[from + 1..];
    }
  }

  /** The filtered list holds exactly the agreeing positions, in order, and is as long as the numerator. */
  lemma MatchingIndicesSpec(mine: seq<u32>, theirs: seq<u32>)
    ensures StrictlyIncreasing(MatchingIndices(mine, theirs))
    ensures forall k: nat :: k in MatchingIndices(mine, theirs) <==> k < |mine| && k < |theirs| && mine[k] == theirs[k]
    ensures |MatchingIndices(mine, theirs)| == Numerator(mine, theirs)
  {
    FilterFromSpec(mine, theirs, 0, true);
    FilterFromCount(mine, theirs, 0, true);
    assert mine[0..] == mine && theirs[0..] == theirs;
  }

  /** The corrected list holds exactly the differing positions; with the agreeing ones they cover the zip. */
  lemma DifferingIndicesSpec(mine: seq<u32>, theirs: seq<u32>)
    ensures StrictlyIncreasing(DifferingIndices(mine, theirs))
    ensures forall k: nat :: k in DifferingIndices(mine, theirs) <==> k < |mine| && k < |theirs| && mine[k] != theirs[k]
    ensures |DifferingIndices(mine, theirs)| + Numerator(mine, theirs) == Min(|mine|, |theirs|)
  {
    FilterFromSpec(mine, theirs, 0, false);
    FilterFromCount(mine, theirs, 0, false);
    assert mine[0..] == mine && theirs[0..] == theirs;
  }

  /** What a call to `interact` needs so that neither `unwrap` at src/lib.rs:152 fails nor a cast at 151 truncates. */
  ghost predicate CanInteract(mine: seq<u32>, s: Seed42)
  {
    1 <= |mine| <= U32_MAX && Valid(s)
  }

  /**
   * `interact` as written (src/lib.rs:144-165): the coin of probability numerator / denominator,
   * then one index drawn from the equal-feature list and the neighbour's feature copied there.
   */
  function InteractAsWritten(mine: seq<u32>, theirs: seq<u32>, s: Seed42): seq<u32>
    requires CanInteract(mine, s)
  {
    var denominator := |mine|;
    var numerator := Numerator(mine, theirs);
    var coin := Sample(FromRatio(numerator as u32, denominator as u32).value, s);
    if !coin then mine
    else
      var candidates := MatchingIndices(mine, theirs);
      MatchingIndicesSpec(mine, theirs);
      var i := Choose(candidates, s.chooseAfterSample(numerator as u32, denominator as u32, |candidates|)).value;
      mine[i := theirs[i]]
  }

  /**
   * The as-written interaction never changes a feature: the index comes from positions where both
   * vectors agree, so the write copies a value onto itself. Also, the coin is true only when the
   * numerator is positive, so the candidate list is never empty there.
   */
  lemma InteractAsWrittenIsIdentity(mine: seq<u32>, theirs: seq<u32>, s: Seed42)
    requires CanInteract(mine, s)
    ensures InteractAsWritten(mine, theirs, s) == mine
  {
    MatchingIndicesSpec(mine, theirs);
    var numerator := Numerator(mine, theirs);
    var coin := Sample(FromRatio(numerator as u32, |mine| as u32).value, s);
    if coin {
      var candidates := MatchingIndices(mine, theirs);
      var i := Choose(candidates, s.chooseAfterSample(numerator as u32, |mine| as u32, |candidates|)).value;
      assert i in candidates;
      assert mine[i := theirs[i]] == mine;
    }
  }

  /**
   * The evidently intended interaction: identical cultures do nothing; otherwise, on a true coin,
   * one index is drawn from the DIFFERING positions and the neighbour's feature adopted there.
   */
  function InteractIntended(mine: seq<u32>, theirs: seq<u32>, s: Seed42): seq<u32>
    requires CanInteract(mine, s) && |theirs| == |mine|
  {
    var denominator := |mine|;
    var numerator := Numerator(mine, theirs);
    if numerator == denominator then mine
    else
      var coin := Sample(FromRatio(numerator as u32, denominator as u32).value, s);
      if !coin then mine
      else
        var candidates := DifferingIndices(mine, theirs);
        DifferingIndicesSpec(mine, theirs);
        var i := Choose(candidates, s.chooseAfterSample(numerator as u32, denominator as u32, |candidates|)).value;
        mine[i := theirs[i]]
  }

  /** Copying the neighbour's trait into one differing position raises the similarity by one. */
  lemma {:induction false} NumeratorAdopt(mine: seq<u32>, theirs: seq<u32>, i: nat)
    requires |mine| == |theirs| && i < |mine| && mine[i] != theirs[i]
    ensures Numerator(mine[i := theirs[i]], theirs) == Numerator(mine, theirs) + 1
  {
    if i > 0 {
      assert mine[i := theirs[i]][1..] == mine[1..][i - 1 := theirs[1..][i - 1]];
      NumeratorAdopt(mine[1..], theirs[1..], i - 1);
    } else {
      assert mine[i := theirs[i]][1..] == mine[1..];
    }
  }

  /**
   * The intended interaction changes at most one feature, only where the two differed, adopting
   * the neighbour's value there. It changes one exactly when the cultures differ and the coin
   * (probability numerator / denominator) comes up true, and then the similarity grows by one.
   */
  lemma InteractIntendedAdopts(mine: seq<u32>, theirs: seq<u32>, s: Seed42)
    requires CanInteract(mine, s) && |theirs| == |mine|
    ensures var r := InteractIntended(mine, theirs, s);
      |r| == |mine| &&
      (forall k :: 0 <= k < |r| ==> r[k] == mine[k] || (mine[k] != theirs[k] && r[k] == theirs[k])) &&
      (forall k, l :: 0 <= k < l < |r| ==> r[k] == mine[k] || r[l] == mine[l]) &&
      (var numerator := Numerator(mine, theirs);
       (r != mine <==> numerator < |mine| && Sample(FromRatio(numerator as u32, |mine| as u32).value, s)) &&
       Numerator(r, theirs) == numerator + (if r != mine then 1 else 0))
  {
    var numerator := Numerator(mine, theirs);
    if numerator < |mine| && Sample(FromRatio(numerator as u32, |mine| as u32).value, s) {
      DifferingIndicesSpec(mine, theirs);
      var candidates := DifferingIndices(mine, theirs);
      var i := Choose(candidates, s.chooseAfterSample(numerator as u32, |mine| as u32, |candidates|)).value;
      assert i in candidates;
      var r := mine[i := theirs[i]];
      assert r[i] != mine[i];
      NumeratorAdopt(mine, theirs, i);
    }
  }

  /** On the vectors [0, 1] and [0, 2] the as-written list is [0], an agreeing position, while [1] was intended. */
  lemma FilterCounterexample()
    ensures MatchingIndices([0, 1], [0, 2]) == [0]
    ensures DifferingIndices([0, 1], [0, 2]) == [1]
  {
  }
}
