/** The oddball (N-back 0) sequence: one target syllable, repeated at spaced positions among fillers. */
module NBack0 {
  import opened Wrappers
  import opened Errors
  import opened Lists
  import opened Stims
  import Sorting

  /** The syllables of a sequence, in order. */
  function StimNames(s: seq<Stim>): seq<string>
  {
    seq(|s|, j requires 0 <= j < |s| => s[j].stim)
  }

  /** `np.sum(seq == target)`: the number of trials playing `x`. */
  function CountStim(s: seq<Stim>, x: string): (c: nat)
    ensures c == multiset(StimNames(s))[x]
  {
    if s == [] then 0
    else
      var init := s[..|s| - 1];
      assert StimNames(s) == StimNames(init) + [s[|s| - 1].stim];
      CountStim(init, x) + if s[|s| - 1].stim == x then 1 else 0
  }

  /** Two consecutive trials both play the target. */
  predicate TargetAdjacent(s: seq<Stim>, target: string)
  {
    exists j :: 0 <= j < |s| - 1 && s[j].stim == target && s[j + 1].stim == target
  }

  /** `check_sequence_nback0`: the target occurs `nTarget + 1` times and never twice in a row. */
  function Check(sequence: seq<Stim>, target: string, nTarget: nat): (r: Outcome<CheckError>)
    ensures r.Pass? <==> multiset(StimNames(sequence))[target] == nTarget + 1 && !TargetAdjacent(sequence, target)
    ensures r.Pass? ==> |sequence| > 0
  {
    if CountStim(sequence, target) != nTarget + 1 then Fail(TargetMisrepresented)
    else if TargetAdjacent(sequence, target) then Fail(TargetRepeated)
    else Pass
  }

  /**
   * The target positions: 0, then `nTarget` draws from `[2, nTrials)`, each draw
   * discarding itself and its two neighbours from the candidates.
   */
  method DrawTargetIndices(nTarget: nat, nTrials: nat) returns (r: Result<seq<int>, GenError>)
    ensures r.Success? ==> |r.value| == nTarget + 1 && r.value[0] == 0
    ensures r.Success? ==> forall p :: 1 <= p < |r.value| ==> 2 <= r.value[p] < nTrials
    ensures r.Success? ==> Spaced(r.value, 2)
    ensures r.Failure? ==> r.error == PoolExhausted && nTrials < 3 * nTarget
  {
    var indices := RangeSet(2, nTrials);
    var targetIndices := [0];
    for k := 0 to nTarget
      invariant |targetIndices| == k + 1 && targetIndices[0] == 0
      invariant forall p :: 1 <= p < |targetIndices| ==> 2 <= targetIndices[p] < nTrials
      invariant Spaced(targetIndices, 2)
      invariant forall j :: j in indices ==> 2 <= j < nTrials
      invariant forall j, p :: j in indices && 0 <= p < |targetIndices| ==> Far(targetIndices[p], j, 2)
      invariant |indices| + 3 * k >= nTrials - 2
    {
      if indices == {} {
        return Failure(PoolExhausted);
      }
      NonEmptyHasMember(indices);
      var i :| i in indices;
      SpacedAppend(targetIndices, i, 2);
      targetIndices := targetIndices + [i];
      CardDiscardAll(indices, {i - 1, i, i + 1});
      indices := indices - {i - 1, i, i + 1};
    }
    return Success(targetIndices);
  }

  /** Some two neighbours of the sorted target positions are less than 2 apart (`np.diff(...) < 2`). */
  predicate CloseNeighbours(s: seq<int>)
  {
    exists j :: 0 <= j < |s| - 1 && s[j + 1] - s[j] < 2
  }

  /** When only positions in `positions` play the target and those are 2 apart, the target is never adjacent to itself. */
  lemma NoAdjacentTargets(s: seq<Stim>, target: string, positions: seq<int>)
    requires forall j :: 0 <= j < |s| && s[j].stim == target ==> j in positions
    requires forall p, q :: 0 <= p < q < |positions| ==> positions[p] + 2 <= positions[q]
    ensures !TargetAdjacent(s, target)
  {
  }

  /** Trial `j` of an oddball sequence built from the sorted syllables `syl` and the target positions `positions`. */
  ghost predicate OddballTrial(s: Stim, j: int, positions: seq<int>, target: string, syl: seq<string>, distinct: bool)
  {
    && s.isTarget == (j in positions)
    && s.isResponse == (s.isTarget && j != 0)
    && (s.isTarget ==> s.stim == target)
    && (distinct && !s.isTarget ==> s.stim != target)
    && s.stim in syl && s.stimIndex < |syl| && syl[s.stimIndex] == s.stim
  }

  /**
   * Stepping past position `i` of a list rising by at least 2: `q` counts the
   * positions below `i`, and `i` is listed exactly when it is the next one.
   */
  lemma PositionStep(S: seq<int>, q: nat, i: int)
    requires forall p, p' :: 0 <= p < p' < |S| ==> S[p] + 2 <= S[p']
    requires q <= |S|
    requires forall p :: 0 <= p < q ==> S[p] < i
    requires forall p :: q <= p < |S| ==> i <= S[p]
    ensures (i in S) == (q < |S| && S[q] == i)
    ensures var q' := if q < |S| && S[q] == i then q + 1 else q;
            && (forall p :: 0 <= p < q' ==> S[p] < i + 1)
            && (forall p :: q' <= p < |S| ==> i + 1 <= S[p])
  {
    if q < |S| {
      assert forall p :: q < p < |S| ==> S[q] + 2 <= S[p];
    }
  }

  /**
   * The loop of `generate_nback0_sequence` that lays out the trials over the sorted
   * syllables `syl`: the positions in `targetIndices` play `target` (all but position 0
   * expect a response), every other position plays an arbitrary other syllable.
   */
  method FillSequence(syl: seq<string>, target: string, targetIndices: seq<int>, nTrials: nat)
    returns (r: Result<seq<Stim>, GenError>)
    requires target in syl
    requires forall p :: 0 <= p < |targetIndices| ==> 0 <= targetIndices[p]
    requires forall p, q :: 0 <= p < q < |targetIndices| ==> targetIndices[p] + 2 <= targetIndices[q]
    ensures r.Failure? ==> r.error == NoFiller && |syl| == 1
    ensures r.Success? ==> |r.value| == nTrials
    ensures r.Success? ==> forall j :: 0 <= j < |r.value| ==> OddballTrial(r.value[j], j, targetIndices, target, syl, Distinct(syl))
    ensures (r.Success? && Distinct(syl) && forall p :: 0 <= p < |targetIndices| ==> targetIndices[p] < nTrials)
              ==> CountStim(r.value, target) == |targetIndices|
    ensures Distinct(syl) && |syl| >= 2 ==> r.Success?
  {
    var nontarget := RemoveFirst(syl, target);
    ghost var d := Distinct(syl);
    if d {
      DistinctRemove(syl, target);
    }
    ghost var S := targetIndices;
    var sequence: seq<Stim> := [];
    ghost var q := 0;
    for i := 0 to nTrials
      invariant |sequence| == i
      invariant 0 <= q <= |S|
      invariant forall p :: 0 <= p < q ==> S[p] < i
      invariant forall p :: q <= p < |S| ==> i <= S[p]
      invariant forall j :: 0 <= j < i ==> OddballTrial(sequence[j], j, S, target, syl, d)
      invariant d ==> CountStim(sequence, target) == q
    {
      PositionStep(S, q, i);
      var syllable: string;
      var isTarget: bool;
      var isResponse: bool;
      if i in targetIndices {
        syllable, isTarget, isResponse := target, true, i != 0;
      } else {
        if nontarget == [] {
          return Failure(NoFiller);
        }
        var c :| 0 <= c < |nontarget|;
        syllable, isTarget, isResponse := nontarget[c], false, false;
        assert syllable in multiset(nontarget);
      }
      var stimIndex := IndexOf(syl, syllable);
      var stim := Stim(syllable, isTarget, isResponse, stimIndex);
      assert OddballTrial(stim, i, S, target, syl, d);
      assert (sequence + [stim])[..i] == sequence;
      sequence := sequence + [stim];
      if q < |S| && S[q] == i {
        q := q + 1;
      }
    }
    if q < |S| {
      assert nTrials <= S[q];
    }
    return Success(sequence);
  }

  /**
   * The draw loop of `generate_nback0_sequence` with its `sort` and `np.diff` test: draw
   * the target positions, sort them and reject them when two neighbours are less than 2
   * apart, which cannot happen.
   */
  method PlaceTargets(nTarget: nat, nTrials: nat) returns (r: Result<seq<int>, GenError>)
    ensures r.Failure? ==> r.error == PoolExhausted && nTrials < 3 * nTarget
    ensures r.Success? ==> |r.value| == nTarget + 1 && 0 in r.value
    ensures r.Success? ==> forall p :: 0 <= p < |r.value| ==> 0 <= r.value[p] && (0 < nTrials ==> r.value[p] < nTrials)
    ensures r.Success? ==> forall p, q :: 0 <= p < q < |r.value| ==> r.value[p] + 2 <= r.value[q]
  {
    var drawn := DrawTargetIndices(nTarget, nTrials);
    if drawn.Failure? {
      return Failure(drawn.error);
    }
    var targetIndices := Sorting.SortInts(drawn.value);
    SpacedSorted(drawn.value, 2);
    if CloseNeighbours(targetIndices) {
      assert false;
      return Failure(BadTargetSequence);
    }
    assert 0 in targetIndices by { assert drawn.value[0] in multiset(targetIndices); }
    forall p | 0 <= p < |targetIndices|
      ensures 0 <= targetIndices[p] && (0 < nTrials ==> targetIndices[p] < nTrials)
    {
      assert targetIndices[p] in multiset(drawn.value);
    }
    return Success(targetIndices);
  }

  /**
   * `generate_nback0_sequence`: trial 0 and the drawn positions play `target`
   * (all but trial 0 expect a response); every other trial plays some other syllable.
   */
  method GenerateSequence(syllables: seq<string>, target: string, nTarget: nat, nTrials: nat)
    returns (r: Result<seq<Stim>, GenError>)
    ensures r == Failure(TargetMissing) <==> target !in syllables
    ensures r != Failure(BadTargetSequence)
    ensures r == Failure(PoolExhausted) ==> nTrials < 3 * nTarget
    ensures r == Failure(NoFiller) ==> |syllables| == 1
    ensures r.Failure? && r.error.CheckFailed? ==> nTrials == 0 || !Distinct(syllables)
    ensures r.Failure? ==> r.error in {TargetMissing, PoolExhausted, NoFiller} || r.error.CheckFailed?
    ensures r.Success? ==> Check(r.value, target, nTarget) == Pass && |r.value| == nTrials
    ensures r.Success? ==> r.value[0].stim == target && r.value[0].isTarget && !r.value[0].isResponse
    ensures r.Success? ==> forall j :: 0 <= j < |r.value| ==>
              && r.value[j].isResponse == (r.value[j].isTarget && j != 0)
              && (r.value[j].isTarget ==> r.value[j].stim == target)
              && (Distinct(syllables) ==> (r.value[j].isTarget <==> r.value[j].stim == target))
              && r.value[j].stim in syllables && Canonical(r.value[j], syllables)
    ensures (Distinct(syllables) && target in syllables && |syllables| >= 2 && 1 <= nTrials && 3 * nTarget <= nTrials)
              ==> r.Success?
  {
    var sorted := Sorting.SortStrings(syllables);
    if target !in sorted {
      assert target !in multiset(syllables);
      return Failure(TargetMissing);
    }
    assert target in multiset(syllables);
    var targetIndices := PlaceTargets(nTarget, nTrials);
    if targetIndices.Failure? {
      return Failure(targetIndices.error);
    }
    if Distinct(syllables) {
      DistinctPermutation(sorted, syllables);
    }
    var filled := FillSequence(sorted, target, targetIndices.value, nTrials);
    if filled.Failure? {
      return Failure(filled.error);
    }
    var sequence := filled.value;
    if Distinct(syllables) {
      NoAdjacentTargets(sequence, target, targetIndices.value);
    }
    forall j | 0 <= j < |sequence|
      ensures && sequence[j].isResponse == (sequence[j].isTarget && j != 0)
              && (sequence[j].isTarget ==> sequence[j].stim == target)
              && (Distinct(syllables) ==> (sequence[j].isTarget <==> sequence[j].stim == target))
              && sequence[j].stim in syllables && Canonical(sequence[j], syllables)
    {
      assert OddballTrial(sequence[j], j, targetIndices.value, target, sorted, Distinct(sorted));
      assert sequence[j].stim in multiset(sorted);
    }
    var checked := Check(sequence, target, nTarget);
    if checked.Fail? {
      return Failure(CheckFailed(checked.error));
    }
    return Success(sequence);
  }
}
