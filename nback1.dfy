/**
 * The 1-back sequence: `nTarget` target syllables, each played twice in a row (the
 * second time expecting a response), at spaced positions among fillers that never
 * repeat the trial before them.
 */
module NBack1 {
  import opened Wrappers
  import opened Errors
  import opened Lists
  import opened Stims
  import opened NBack1Check
  import Sorting

  /**
   * The `while len(targets) < n_target` loop of `generate_nback1_sequence`: the target
   * syllables, taken in turn from successive shuffles of `syllables` (a Python slice takes
   * the whole list when it is shorter than what is still needed). Also returns the list as
   * last shuffled.
   */
  method SelectTargets(syllables: seq<string>, nTarget: nat) returns (targets: seq<string>, shuffled: seq<string>)
    requires nTarget == 0 || |syllables| > 0
    ensures |targets| == nTarget
    ensures multiset(shuffled) == multiset(syllables)
    ensures forall m :: 0 <= m < |targets| ==> targets[m] in syllables
    ensures Distinct(syllables) ==> Balanced(targets, syllables)
  {
    targets := [];
    shuffled := syllables;
    ghost var pending: multiset<string> := multiset{};
    ghost var full: nat := 0;
    while |targets| < nTarget
      invariant |targets| <= nTarget
      invariant multiset(shuffled) == multiset(syllables)
      invariant multiset(targets) + pending == Repeat(multiset(syllables), full)
      invariant pending <= multiset(syllables)
      invariant |targets| < nTarget ==> pending == multiset{}
      decreases nTarget - |targets|
    {
      var n := nTarget - |targets|;
      shuffled := Shuffle(shuffled);
      var take := if n <= |shuffled| then n else |shuffled|;
      ExtendByCopy(targets, shuffled, take, multiset(syllables), full);
      targets := targets + shuffled[..take];
      pending := multiset(shuffled[take..]);
      full := full + 1;
    }
    RepeatMembers(targets, pending, syllables, full);
    if Distinct(syllables) {
      BalancedPrefix(targets, pending, syllables, full);
    }
  }

  /** Appending the first `take` items of a fresh copy of the pool adds that copy to the contents. */
  lemma ExtendByCopy(targets: seq<string>, copy: seq<string>, take: nat, pool: multiset<string>, full: nat)
    requires multiset(targets) == Repeat(pool, full) && multiset(copy) == pool && take <= |copy|
    ensures multiset(targets + copy[..take]) + multiset(copy[take..]) == Repeat(pool, full + 1)
    ensures multiset(copy[take..]) <= pool
  {
    assert copy == copy[..take] + copy[take..];
  }

  /**
   * The `for _ in range(n_target)` loop of `generate_nback1_sequence`: `nTarget` pair
   * starts drawn from `[1, nTrials - 1)`, each draw discarding the candidates less than 3
   * away from it.
   */
  method SelectPairStarts(nTarget: nat, nTrials: nat) returns (r: Result<seq<int>, GenError>)
    ensures r.Success? ==> |r.value| == nTarget && Spaced(r.value, 3)
    ensures r.Success? ==> forall p :: 0 <= p < |r.value| ==> 1 <= r.value[p] && r.value[p] + 2 <= nTrials
    ensures r.Failure? ==> r.error == PoolExhausted && nTrials + 3 <= 5 * nTarget
  {
    var targetIndices: seq<int> := [];
    var indices := RangeSet(1, nTrials - 1);
    for k := 0 to nTarget
      invariant |targetIndices| == k
      invariant forall p :: 0 <= p < k ==> 1 <= targetIndices[p] && targetIndices[p] + 2 <= nTrials
      invariant Spaced(targetIndices, 3)
      invariant forall j :: j in indices ==> 1 <= j && j + 2 <= nTrials
      invariant forall j, p :: j in indices && 0 <= p < k ==> Far(targetIndices[p], j, 3)
      invariant |indices| + 5 * k >= nTrials - 2
    {
      if indices == {} {
        return Failure(PoolExhausted);
      }
      NonEmptyHasMember(indices);
      var i :| i in indices;
      SpacedAppend(targetIndices, i, 3);
      targetIndices := targetIndices + [i];
      indices := DiscardAround(indices, i);
    }
    return Success(targetIndices);
  }

  /**
   * The inner `for j in range(-2, 3)` loop of `generate_nback1_sequence`: discard the
   * candidates less than 3 away from `i`.
   */
  method DiscardAround(indices: set<int>, i: int) returns (rest: set<int>)
    ensures forall j :: j in rest <==> j in indices && (j + 3 <= i || i + 3 <= j)
    ensures |rest| + 5 >= |indices|
  {
    rest := indices;
    for d := -2 to 3
      invariant forall j :: j in rest <==> j in indices && !(i - 2 <= j < i + d)
      invariant |rest| + (d + 2) >= |indices|
    {
      CardDiscard(rest, i + d);
      rest := rest - {i + d};
    }
  }

  /** The target syllables `T`, each to start a pair at the matching entry of `P`, rising by at least 3. */
  ghost predicate PairPlan(T: seq<string>, P: seq<int>, sorted: seq<string>, nTrials: nat)
  {
    && |T| == |P|
    && (forall m :: 0 <= m < |T| ==> T[m] in sorted)
    && (forall m :: 0 <= m < |P| ==> 1 <= P[m] && P[m] + 2 <= nTrials)
    && (forall m, m' :: 0 <= m < m' < |P| ==> P[m] + 3 <= P[m'])
  }

  /** The positions of the trials of the pairs starting at `P`: both trials of each pair. */
  function PairPositions(P: seq<int>): (r: seq<int>)
    ensures |r| == 2 * |P|
  {
    seq(2 * |P|, j requires 0 <= j < 2 * |P| => P[j / 2] + j % 2)
  }

  /** The positions of the responses of the pairs starting at `P`: the second trial of each pair. */
  function Succs(P: seq<int>): (r: seq<int>)
    ensures |r| == |P|
  {
    seq(|P|, m requires 0 <= m < |P| => P[m] + 1)
  }

  /** One more pair adds both its trials to the pair positions and its second trial to the responses. */
  lemma PairPositionsSnoc(P: seq<int>, k: nat)
    requires k < |P|
    ensures PairPositions(P[..k + 1]) == PairPositions(P[..k]) + [P[k]] + [P[k] + 1]
    ensures Succs(P[..k + 1]) == Succs(P[..k]) + [P[k] + 1]
  {
    var a, b := PairPositions(P[..k + 1]), PairPositions(P[..k]) + [P[k]] + [P[k] + 1];
    forall j | 0 <= j < 2 * k + 2
      ensures a[j] == b[j]
    {
      if j < 2 * k {
        assert a[j] == P[..k + 1][j / 2] + j % 2 && b[j] == P[..k][j / 2] + j % 2;
      }
    }
  }

  /** Trials `p` and `p + 1` of `s` play `t` as a target, the second expecting the response. */
  ghost predicate PairAt(s: seq<Stim>, p: int, t: string)
  {
    && 0 <= p && p + 1 < |s|
    && s[p].stim == t && s[p].isTarget && !s[p].isResponse
    && s[p + 1].stim == t && s[p + 1].isTarget && s[p + 1].isResponse
  }

  /** Trial `j` opens a pair (a target that is not a response) and repeats the trial before it. */
  ghost predicate RepeatsPrevious(s: seq<Stim>, j: int)
    requires 0 < j < |s|
  {
    s[j].isTarget && !s[j].isResponse && s[j - 1].stim == s[j].stim
  }

  /** Trial `j` is a response and the trial after it repeats it. */
  ghost predicate RepeatedNext(s: seq<Stim>, j: int)
    requires 0 <= j < |s| - 1
  {
    s[j].isResponse && s[j + 1].stim == s[j].stim
  }

  /** Trial `j` plays the same syllable as the trial before it. */
  ghost predicate SameAsPrevious(s: seq<Stim>, j: int)
    requires 0 < j < |s|
  {
    s[j].stim == s[j - 1].stim
  }

  /** Apart from the first, a trial repeats the trial before it exactly when it is a response. */
  ghost predicate RepeatsOnlyAtResponses(s: seq<Stim>)
  {
    forall j :: 0 < j < |s| ==> (SameAsPrevious(s, j) <==> IsFlagged(s, ResponseFlag, j))
  }

  /**
   * No target opening a pair repeats the trial before it and no response is repeated by
   * the trial after it: what the loop of `check_sequence_nback1` looks for.
   */
  ghost predicate NoSpuriousRepeats(s: seq<Stim>)
  {
    && (forall j :: 0 < j < |s| ==> !RepeatsPrevious(s, j))
    && (forall j :: 0 <= j < |s| - 1 ==> !RepeatedNext(s, j))
  }

  /**
   * The flags of `s` after the walk has laid out `k` pairs: the flagged trials are exactly
   * both trials of each of the first `k` pairs, the responses exactly their second trials,
   * and the walk stands between pair `k - 1` and pair `k`.
   */
  ghost predicate WalkFlags(s: seq<Stim>, k: nat, P: seq<int>)
  {
    && k <= |P|
    && (0 < k ==> P[k - 1] + 2 <= |s|)
    && (k < |P| ==> |s| <= P[k])
    && Flagged(s, TargetFlag) == PairPositions(P[..k])
    && Flagged(s, ResponseFlag) == Succs(P[..k])
  }

  /** The first `k` pairs sit at `P[..k]` and play `T[..k]`. */
  ghost predicate PairsPlaced(s: seq<Stim>, k: nat, T: seq<string>, P: seq<int>)
  {
    && k <= |P| == |T|
    && forall m :: 0 <= m < k ==> PairAt(s, P[m], T[m])
  }

  /** Every trial names its syllable by its position in `sorted` (`syllables.index(syllable)`). */
  ghost predicate IndexedBy(s: seq<Stim>, sorted: seq<string>)
  {
    forall j :: 0 <= j < |s| ==> s[j].stimIndex < |sorted| && sorted[s[j].stimIndex] == s[j].stim
  }

  /**
   * When `sorted` has no repeats: no trial repeats its neighbour where the checker looks,
   * only responses repeat the trial before them, and a trial just before pair `k` does not
   * play that pair's syllable.
   */
  ghost predicate FillersApart(s: seq<Stim>, k: nat, T: seq<string>, P: seq<int>, distinct: bool)
  {
    && k <= |P| == |T|
    && (distinct && k < |P| && 0 < |s| == P[k] ==> s[|s| - 1].stim != T[k])
    && (distinct ==> NoSpuriousRepeats(s) && RepeatsOnlyAtResponses(s))
  }

  /** The sequence `s` after the walk has laid out `k` of the pairs planned by `T` and `P`. */
  ghost predicate WalkState(s: seq<Stim>, k: nat, T: seq<string>, P: seq<int>, sorted: seq<string>, distinct: bool)
  {
    && WalkFlags(s, k, P)
    && PairsPlaced(s, k, T, P)
    && IndexedBy(s, sorted)
    && FillersApart(s, k, T, P, distinct)
  }

  lemma FlagsAfterFiller(s: seq<Stim>, k: nat, P: seq<int>, x: Stim)
    requires WalkFlags(s, k, P) && (k < |P| ==> |s| < P[k])
    requires !x.isTarget && !x.isResponse
    ensures WalkFlags(s + [x], k, P)
  {
    FlaggedAppend(s, x, TargetFlag);
    FlaggedAppend(s, x, ResponseFlag);
  }

  lemma FlagsAfterPair(s: seq<Stim>, k: nat, P: seq<int>, a: Stim, b: Stim)
    requires WalkFlags(s, k, P) && k < |P| && |s| == P[k]
    requires k + 1 < |P| ==> P[k] + 3 <= P[k + 1]
    requires a.isTarget && !a.isResponse && b.isTarget && b.isResponse
    ensures WalkFlags(s + [a] + [b], k + 1, P)
  {
    FlaggedAppend(s, a, TargetFlag);
    FlaggedAppend(s, a, ResponseFlag);
    FlaggedAppend(s + [a], b, TargetFlag);
    FlaggedAppend(s + [a], b, ResponseFlag);
    PairPositionsSnoc(P, k);
  }

  /** Appending trials keeps the pairs already placed. */
  lemma PairsAppend(s: seq<Stim>, t: seq<Stim>, k: nat, T: seq<string>, P: seq<int>)
    requires PairsPlaced(s, k, T, P)
    ensures PairsPlaced(s + t, k, T, P)
  {
    forall m | 0 <= m < k
      ensures PairAt(s + t, P[m], T[m])
    {
      assert PairAt(s, P[m], T[m]);
    }
  }

  lemma IndexedAppend(s: seq<Stim>, t: seq<Stim>, sorted: seq<string>)
    requires IndexedBy(s, sorted) && IndexedBy(t, sorted)
    ensures IndexedBy(s + t, sorted)
  {
    forall j | 0 <= j < |s + t|
      ensures (s + t)[j].stimIndex < |sorted| && sorted[(s + t)[j].stimIndex] == (s + t)[j].stim
    {
      if j >= |s| {
        assert (s + t)[j] == t[j - |s|];
      }
    }
  }

  lemma ApartAfterFiller(s: seq<Stim>, k: nat, T: seq<string>, P: seq<int>, distinct: bool, x: Stim)
    requires FillersApart(s, k, T, P, distinct) && (k < |P| ==> |s| < P[k])
    requires !x.isTarget && !x.isResponse
    requires distinct && 0 < |s| ==> x.stim != s[|s| - 1].stim
    requires distinct && k < |P| && |s| + 1 == P[k] ==> x.stim != T[k]
    ensures FillersApart(s + [x], k, T, P, distinct)
  {
    var s' := s + [x];
    if distinct {
      forall j | 0 < j < |s'|
        ensures !RepeatsPrevious(s', j)
      {
        if j < |s| {
          assert !RepeatsPrevious(s, j);
        }
      }
      forall j | 0 < j < |s'|
        ensures SameAsPrevious(s', j) <==> IsFlagged(s', ResponseFlag, j)
      {
        if j < |s| {
          assert SameAsPrevious(s, j) <==> IsFlagged(s, ResponseFlag, j);
        }
      }
      forall j | 0 <= j < |s'| - 1
        ensures !RepeatedNext(s', j)
      {
        if j < |s| - 1 {
          assert !RepeatedNext(s, j);
        }
      }
    }
  }

  lemma ApartAfterPair(s: seq<Stim>, k: nat, T: seq<string>, P: seq<int>, distinct: bool, a: Stim, b: Stim)
    requires FillersApart(s, k, T, P, distinct) && k < |P| && 0 < |s| == P[k]
    requires k + 1 < |P| ==> P[k] + 3 <= P[k + 1]
    requires a.stim == T[k] && a.isTarget && !a.isResponse
    requires b.stim == T[k] && b.isTarget && b.isResponse
    ensures FillersApart(s + [a] + [b], k + 1, T, P, distinct)
  {
    var s' := s + [a] + [b];
    if distinct {
      forall j | 0 < j < |s'|
        ensures !RepeatsPrevious(s', j)
      {
        if j < |s| {
          assert !RepeatsPrevious(s, j);
        }
      }
      forall j | 0 < j < |s'|
        ensures SameAsPrevious(s', j) <==> IsFlagged(s', ResponseFlag, j)
      {
        if j < |s| {
          assert SameAsPrevious(s, j) <==> IsFlagged(s, ResponseFlag, j);
        }
      }
      forall j | 0 <= j < |s'| - 1
        ensures !RepeatedNext(s', j)
      {
        if j < |s| - 1 {
          assert !RepeatedNext(s, j);
        }
      }
    }
  }

  /** Appending a filler that differs from the trial before it and, just ahead of a pair, from that pair's syllable. */
  lemma FillerStep(s: seq<Stim>, k: nat, T: seq<string>, P: seq<int>, sorted: seq<string>,
                   distinct: bool, x: Stim)
    requires WalkState(s, k, T, P, sorted, distinct)
    requires k < |P| ==> |s| < P[k]
    requires !x.isTarget && !x.isResponse && x.stimIndex < |sorted| && sorted[x.stimIndex] == x.stim
    requires distinct && 0 < |s| ==> x.stim != s[|s| - 1].stim
    requires distinct && k < |P| && |s| + 1 == P[k] ==> x.stim != T[k]
    ensures WalkState(s + [x], k, T, P, sorted, distinct)
  {
    FlagsAfterFiller(s, k, P, x);
    PairsAppend(s, [x], k, T, P);
    assert IndexedBy([x], sorted);
    IndexedAppend(s, [x], sorted);
    ApartAfterFiller(s, k, T, P, distinct, x);
  }

  /** Appending the pair for `T[k]` at position `P[k]`. */
  lemma PairStep(s: seq<Stim>, k: nat, T: seq<string>, P: seq<int>, sorted: seq<string>, nTrials: nat,
                 distinct: bool, idx: nat)
    requires PairPlan(T, P, sorted, nTrials) && WalkState(s, k, T, P, sorted, distinct)
    requires k < |P| && |s| == P[k]
    requires idx < |sorted| && sorted[idx] == T[k]
    ensures WalkState(s + [Stim(T[k], true, false, idx)] + [Stim(T[k], true, true, idx)], k + 1, T, P, sorted, distinct)
  {
    var a, b := Stim(T[k], true, false, idx), Stim(T[k], true, true, idx);
    var s' := s + [a] + [b];
    if k + 1 < |P| {
      assert P[k] + 3 <= P[k + 1];
    }
    FlagsAfterPair(s, k, P, a, b);
    PairsAppend(s, [a], k, T, P);
    PairsAppend(s + [a], [b], k, T, P);
    assert PairAt(s', P[k], T[k]);
    IndexedAppend(s, [a], sorted);
    IndexedAppend(s + [a], [b], sorted);
    ApartAfterPair(s, k, T, P, distinct, a, b);
  }

  /**
   * The filler choice in the walk of `generate_nback1_sequence`: a filler for trial `i`,
   * drawn from the syllables less the one just played and, when a pair starts at the next
   * trial, less that pair's syllable (whose absence is ignored).
   */
  method PickFiller(syllables: seq<string>, sequence: seq<Stim>, i: int, nextTarget: Option<string>, nextTargetIndex: int)
    returns (r: Result<Stim, GenError>)
    requires i + 1 == nextTargetIndex ==> nextTarget.Some?
    requires forall j :: 0 <= j < |sequence| ==> sequence[j].stim in syllables
    ensures r.Failure? ==> r.error == NoFiller && |syllables| <= 2
    ensures |syllables| >= 3 ==> r.Success?
    ensures r.Success? ==> && !r.value.isTarget && !r.value.isResponse
                           && r.value.stimIndex < |syllables| && syllables[r.value.stimIndex] == r.value.stim
    ensures r.Success? && Distinct(syllables) && 0 < |sequence| ==> r.value.stim != sequence[|sequence| - 1].stim
    ensures r.Success? && Distinct(syllables) && i + 1 == nextTargetIndex ==> r.value.stim != nextTarget.value
  {
    var filler := syllables;
    if |sequence| > 0 {
      // Always present: every trial plays one of the syllables.
      assert sequence[|sequence| - 1].stim in filler;
      filler := RemoveFirst(filler, sequence[|sequence| - 1].stim);
    }
    ghost var afterLast := filler;
    if i + 1 == nextTargetIndex {
      filler := RemoveFirst(filler, nextTarget.value);
    }
    if filler == [] {
      return Failure(NoFiller);
    }
    var j :| 0 <= j < |filler|;
    var syllable := filler[j];
    FillerChoice(syllables, sequence, afterLast, filler, syllable, if i + 1 == nextTargetIndex then nextTarget else None);
    var stimIndex := IndexOf(syllables, syllable);
    return Success(Stim(syllable, false, false, stimIndex));
  }

  /**
   * Where the walk stands in the plan: before pair `k`, with its syllable and start as the
   * next target and the later ones still pending, or past the last pair, with no next target
   * and a next start that the walk never reaches.
   */
  ghost predicate Cursor(k: nat, T: seq<string>, P: seq<int>, nTrials: nat, nextTarget: Option<string>,
                         nextTargetIndex: int, pendingTargets: seq<string>, pendingIndices: seq<int>)
  {
    && k <= |P| == |T|
    && (k < |P| ==> && nextTarget == Some(T[k]) && nextTargetIndex == P[k]
                    && pendingTargets == T[k + 1..] && pendingIndices == P[k + 1..])
    && (k == |P| ==> nextTarget == None && nextTargetIndex == nTrials + 2)
  }

  /**
   * The `try` after a pair in `generate_nback1_sequence`: pop the next target and its
   * start; once the lists are used up, the bare `except` leaves no next target and a start
   * past the end.
   */
  method NextPair(pendingTargets: seq<string>, pendingIndices: seq<int>, nTrials: nat)
    returns (nextTarget: Option<string>, nextTargetIndex: int, restTargets: seq<string>, restIndices: seq<int>)
    ensures pendingTargets != [] && pendingIndices != [] ==>
              && nextTarget == Some(pendingTargets[0]) && nextTargetIndex == pendingIndices[0]
              && restTargets == pendingTargets[1..] && restIndices == pendingIndices[1..]
    ensures pendingTargets == [] || pendingIndices == [] ==> nextTarget == None && nextTargetIndex == nTrials + 2
  {
    if pendingTargets == [] {
      return None, nTrials + 2, pendingTargets, pendingIndices;
    }
    var target := pendingTargets[0];
    restTargets := pendingTargets[1..];
    if pendingIndices == [] {
      return None, nTrials + 2, restTargets, pendingIndices;
    }
    return Some(target), pendingIndices[0], restTargets, pendingIndices[1..];
  }

  /** Popping the lists pending after pair `k` puts the walk before pair `k + 1`. */
  lemma CursorStep(k: nat, T: seq<string>, P: seq<int>, nTrials: nat, nextTarget: Option<string>,
                   nextTargetIndex: int, restTargets: seq<string>, restIndices: seq<int>)
    requires k < |P| == |T|
    requires T[k + 1..] != [] && P[k + 1..] != [] ==>
               && nextTarget == Some(T[k + 1..][0]) && nextTargetIndex == P[k + 1..][0]
               && restTargets == T[k + 1..][1..] && restIndices == P[k + 1..][1..]
    requires T[k + 1..] == [] || P[k + 1..] == [] ==> nextTarget == None && nextTargetIndex == nTrials + 2
    ensures Cursor(k + 1, T, P, nTrials, nextTarget, nextTargetIndex, restTargets, restIndices)
  {
    if k + 1 < |P| {
      assert T[k + 1..][1..] == T[k + 2..];
      assert P[k + 1..][1..] == P[k + 2..];
    }
  }

  /**
   * The `if i == next_target_index` branch of the walk in `generate_nback1_sequence`: at
   * the start of pair `k`, play its target twice, the second time expecting a response,
   * then pop the next target and start.
   */
  method PlayPair(syllables: seq<string>, sequence: seq<Stim>, nTrials: nat, nextTarget: Option<string>,
                  pendingTargets: seq<string>, pendingIndices: seq<int>, ghost k: nat, ghost T: seq<string>, ghost P: seq<int>)
    returns (sequence': seq<Stim>, nextTarget': Option<string>, nextTargetIndex': int,
             pendingTargets': seq<string>, pendingIndices': seq<int>)
    requires PairPlan(T, P, syllables, nTrials)
    requires WalkState(sequence, k, T, P, syllables, Distinct(syllables))
    requires k < |P| && |sequence| == P[k]
    requires Cursor(k, T, P, nTrials, nextTarget, P[k], pendingTargets, pendingIndices)
    ensures |sequence'| == |sequence| + 2 <= nTrials
    ensures WalkState(sequence', k + 1, T, P, syllables, Distinct(syllables))
    ensures Cursor(k + 1, T, P, nTrials, nextTarget', nextTargetIndex', pendingTargets', pendingIndices')
  {
    var target := nextTarget.value;
    var stimIndex := IndexOf(syllables, target);
    PairStep(sequence, k, T, P, syllables, nTrials, Distinct(syllables), stimIndex);
    sequence' := sequence + [Stim(target, true, false, stimIndex)];
    sequence' := sequence' + [Stim(target, true, true, stimIndex)];
    nextTarget', nextTargetIndex', pendingTargets', pendingIndices' := NextPair(pendingTargets, pendingIndices, nTrials);
    CursorStep(k, T, P, nTrials, nextTarget', nextTargetIndex', pendingTargets', pendingIndices');
  }

  /**
   * The `else` branch of the walk in `generate_nback1_sequence`: away from a pair start,
   * play one filler.
   */
  method PlayFiller(syllables: seq<string>, sequence: seq<Stim>, nTrials: nat, nextTarget: Option<string>,
                    nextTargetIndex: int, pendingTargets: seq<string>, pendingIndices: seq<int>,
                    ghost k: nat, ghost T: seq<string>, ghost P: seq<int>)
    returns (r: Result<seq<Stim>, GenError>)
    requires PairPlan(T, P, syllables, nTrials)
    requires WalkState(sequence, k, T, P, syllables, Distinct(syllables))
    requires Cursor(k, T, P, nTrials, nextTarget, nextTargetIndex, pendingTargets, pendingIndices)
    requires |sequence| < nTrials && |sequence| != nextTargetIndex
    ensures r.Failure? ==> r.error == NoFiller && |syllables| <= 2
    ensures |syllables| >= 3 ==> r.Success?
    ensures r.Success? ==> |r.value| == |sequence| + 1
    ensures r.Success? ==> WalkState(r.value, k, T, P, syllables, Distinct(syllables))
  {
    assert forall j :: 0 <= j < |sequence| ==> sequence[j].stim in syllables;
    var filler := PickFiller(syllables, sequence, |sequence|, nextTarget, nextTargetIndex);
    if filler.Failure? {
      return Failure(filler.error);
    }
    FillerStep(sequence, k, T, P, syllables, Distinct(syllables), filler.value);
    return Success(sequence + [filler.value]);
  }

  /**
   * The `while i < n_trials` walk of `generate_nback1_sequence`. At the next pair start it
   * plays the next target twice (the second time expecting a response); elsewhere it plays
   * a filler drawn from the syllables other than the one just played and, just ahead of a
   * pair, other than that pair's syllable.
   */
  method Assemble(syllables: seq<string>, targets: seq<string>, targetIndices: seq<int>, nTrials: nat)
    returns (r: Result<seq<Stim>, GenError>)
    requires PairPlan(targets, targetIndices, syllables, nTrials) && 0 < |targets|
    ensures r.Failure? ==> r.error == NoFiller && |syllables| <= 2
    ensures |syllables| >= 3 ==> r.Success?
    ensures r.Success? ==> |r.value| == nTrials
    ensures r.Success? ==> WalkState(r.value, |targets|, targets, targetIndices, syllables, Distinct(syllables))
  {
    ghost var T, P := targets, targetIndices;
    var pendingTargets := targets[1..];
    var pendingIndices := targetIndices[1..];
    var nextTarget: Option<string> := Some(targets[0]);
    var nextTargetIndex: int := targetIndices[0];
    var i := 0;
    var sequence: seq<Stim> := [];
    ghost var k: nat := 0;
    while i < nTrials
      invariant i == |sequence| <= nTrials
      invariant WalkState(sequence, k, T, P, syllables, Distinct(syllables))
      invariant Cursor(k, T, P, nTrials, nextTarget, nextTargetIndex, pendingTargets, pendingIndices)
      decreases nTrials - i
    {
      if i == nextTargetIndex {
        sequence, nextTarget, nextTargetIndex, pendingTargets, pendingIndices :=
          PlayPair(syllables, sequence, nTrials, nextTarget, pendingTargets, pendingIndices, k, T, P);
        i := i + 2;
        k := k + 1;
      } else {
        var next := PlayFiller(syllables, sequence, nTrials, nextTarget, nextTargetIndex, pendingTargets, pendingIndices, k, T, P);
        if next.Failure? {
          return Failure(next.error);
        }
        sequence := next.value;
        i := i + 1;
      }
    }
    return Success(sequence);
  }

  /**
   * What the filler list of the walk leaves out: the syllable just played and the syllable
   * `ahead` (the next pair's, when one starts at the next trial), when `syllables` has no repeats.
   */
  lemma FillerChoice(syllables: seq<string>, s: seq<Stim>, afterLast: seq<string>, filler: seq<string>,
                     x: string, ahead: Option<string>)
    requires afterLast == if 0 < |s| then RemoveFirst(syllables, s[|s| - 1].stim) else syllables
    requires filler == if ahead.Some? then RemoveFirst(afterLast, ahead.value) else afterLast
    requires x in filler
    ensures x in syllables
    ensures Distinct(syllables) && 0 < |s| ==> x != s[|s| - 1].stim
    ensures Distinct(syllables) && ahead.Some? ==> x != ahead.value
  {
    if Distinct(syllables) {
      if 0 < |s| {
        DistinctRemove(syllables, s[|s| - 1].stim);
      }
      DistinctSub(afterLast, syllables);
      if ahead.Some? {
        DistinctRemove(afterLast, ahead.value);
      }
    }
  }

  /** The responses of a finished walk play the target syllables, in order (`resp_seq == targets`). */
  lemma {:induction false} ResponsesNamed(s: seq<Stim>, T: seq<string>, P: seq<int>, sorted: seq<string>, distinct: bool)
    requires WalkState(s, |P|, T, P, sorted, distinct)
    ensures Names(s, Flagged(s, ResponseFlag)) == T
  {
    assert P[..|P|] == P;
    var ri := Flagged(s, ResponseFlag);
    assert ri == Succs(P);
    forall m | 0 <= m < |T|
      ensures Names(s, ri)[m] == T[m]
    {
      assert PairAt(s, P[m], T[m]);
    }
  }

  /** Every response of a walk closes a pair: the trial before it opens the pair with the same syllable. */
  lemma {:induction false} ResponsesFollowTargets(s: seq<Stim>, k: nat, T: seq<string>, P: seq<int>, sorted: seq<string>, distinct: bool)
    requires WalkState(s, k, T, P, sorted, distinct)
    ensures forall j :: IsFlagged(s, ResponseFlag, j) ==> 0 < j && PairAt(s, j - 1, s[j].stim)
  {
    var ri := Flagged(s, ResponseFlag);
    assert ri == Succs(P[..k]);
    forall j | IsFlagged(s, ResponseFlag, j)
      ensures 0 < j && PairAt(s, j - 1, s[j].stim)
    {
      var m :| 0 <= m < |ri| && ri[m] == j;
      assert P[..k][m] == P[m] && PairAt(s, P[m], T[m]);
    }
  }

  /** The targets of a finished walk come in equal pairs (`tar_seq[:-1:2] == tar_seq[1::2]`). */
  lemma {:induction false} TargetsPaired(s: seq<Stim>, T: seq<string>, P: seq<int>, sorted: seq<string>, distinct: bool)
    requires WalkState(s, |P|, T, P, sorted, distinct)
    ensures |Flagged(s, TargetFlag)| == 2 * |P|
    ensures PairsRepeat(Names(s, Flagged(s, TargetFlag)))
  {
    assert P[..|P|] == P;
    var ti := Flagged(s, TargetFlag);
    assert ti == PairPositions(P);
    var tar := Names(s, ti);
    forall m | 0 <= m < |tar| / 2
      ensures tar[2 * m] == tar[2 * m + 1]
    {
      assert ti[2 * m] == P[m] && ti[2 * m + 1] == P[m] + 1;
      assert PairAt(s, P[m], T[m]);
    }
  }

  /** No trial of a walk over repeat-free syllables raises in the loop of the checker. */
  lemma {:induction false} NoViolations(s: seq<Stim>, k: nat, T: seq<string>, P: seq<int>, sorted: seq<string>, nTrials: nat)
    requires WalkState(s, k, T, P, sorted, true) && |s| == nTrials
    ensures forall j :: 0 <= j < |s| ==> Violation(s, nTrials, j).None?
  {
    forall j | 0 <= j < |s|
      ensures Violation(s, nTrials, j).None?
    {
      if 0 < j < nTrials - 1 {
        assert !RepeatsPrevious(s, j) && !RepeatedNext(s, j);
      }
    }
  }

  /** The responses of a finished walk are at least 3 trials apart, and its first trial is a filler. */
  lemma {:induction false} ResponsesSpaced(s: seq<Stim>, T: seq<string>, P: seq<int>, sorted: seq<string>, nTrials: nat)
    requires PairPlan(T, P, sorted, nTrials) && 0 < |P|
    requires WalkState(s, |P|, T, P, sorted, true)
    ensures !ResponsesClose(Flagged(s, ResponseFlag))
    ensures 0 < |s| && !s[0].isTarget
  {
    assert P[..|P|] == P;
    var ti, ri := Flagged(s, TargetFlag), Flagged(s, ResponseFlag);
    assert ti == PairPositions(P) && ri == Succs(P);
    assert PairAt(s, P[0], T[0]);
    assert 0 !in ti;
    assert !IsFlagged(s, TargetFlag, 0);
  }

  /**
   * A finished walk over repeat-free syllables, with balanced target syllables, passes
   * `check_sequence_nback1`: the checker at the end of `generate_nback1_sequence` never raises.
   */
  lemma {:induction false} WalkPasses(s: seq<Stim>, T: seq<string>, P: seq<int>, sorted: seq<string>, nTrials: nat)
    requires PairPlan(T, P, sorted, nTrials) && 0 < |P|
    requires WalkState(s, |P|, T, P, sorted, true) && |s| == nTrials
    requires Balanced(T, T)
    ensures Verdict(s, |P|, nTrials) == Pass
  {
    assert P[..|P|] == P;
    assert Flagged(s, ResponseFlag) == Succs(P);
    TargetsPaired(s, T, P, sorted, true);
    ResponsesNamed(s, T, P, sorted, true);
    NoViolations(s, |P|, T, P, sorted, nTrials);
    ResponsesSpaced(s, T, P, sorted, nTrials);
  }

  /**
   * The planning part of `generate_nback1_sequence`, up to `target_indices.sort()`: the
   * target syllables and, sorted, the starts of their pairs; also the syllable list as
   * last shuffled.
   */
  method PlanPairs(syllables: seq<string>, nTarget: nat, nTrials: nat)
    returns (r: Result<(seq<string>, seq<int>, seq<string>), GenError>)
    requires nTarget == 0 || |syllables| > 0
    ensures r.Failure? ==> r.error == PoolExhausted && nTrials + 3 <= 5 * nTarget
    ensures 5 * nTarget < nTrials + 3 ==> r.Success?
    ensures r.Success? ==> && |r.value.0| == nTarget && multiset(r.value.2) == multiset(syllables)
                           && PairPlan(r.value.0, r.value.1, Sorting.SortStrings(syllables), nTrials)
    ensures r.Success? && Distinct(syllables) ==> Balanced(r.value.0, syllables) && Balanced(r.value.0, r.value.0)
  {
    var sorted := Sorting.SortStrings(syllables);
    var targets, shuffled := SelectTargets(sorted, nTarget);
    var starts := SelectPairStarts(nTarget, nTrials);
    if starts.Failure? {
      return Failure(starts.error);
    }
    var targetIndices := Sorting.SortInts(starts.value);
    SpacedSorted(starts.value, 3);
    forall m | 0 <= m < |targetIndices|
      ensures 1 <= targetIndices[m] && targetIndices[m] + 2 <= nTrials
    {
      assert targetIndices[m] in multiset(starts.value);
    }
    forall m | 0 <= m < |targets|
      ensures targets[m] in sorted
    {
    }
    if Distinct(syllables) {
      DistinctPermutation(sorted, syllables);
      forall x | x in syllables
        ensures x in sorted
      {
        assert x in multiset(syllables);
      }
    }
    return Success((targets, targetIndices, shuffled));
  }

  /**
   * `generate_nback1_sequence`: refuses plans with too few trials, draws the target
   * syllables and the pair starts, walks the trials and checks the result. Passing an
   * empty syllable list with some targets to place makes the source loop forever, which
   * the precondition rules out.
   */
  method GenerateSequence(syllables: seq<string>, nTarget: nat, nTrials: nat) returns (r: Result<seq<Stim>, GenError>)
    requires 3 * nTarget >= nTrials || nTarget == 0 || |syllables| > 0
    ensures r == Failure(Infeasible) <==> nTrials <= 3 * nTarget
    ensures r == Failure(NoTargets) <==> nTarget == 0 < nTrials
    ensures r == Failure(PoolExhausted) ==> nTrials + 3 <= 5 * nTarget
    ensures r == Failure(NoFiller) ==> |syllables| <= 2
    ensures r.Failure? && r.error.CheckFailed? ==> !Distinct(syllables)
    ensures r.Failure? ==> r.error in {Infeasible, NoTargets, PoolExhausted, NoFiller} || r.error.CheckFailed?
    ensures r.Success? ==> |r.value| == nTrials && Verdict(r.value, nTarget, nTrials) == Pass
    ensures r.Success? ==> forall j :: 0 <= j < |r.value| ==> Canonical(r.value[j], syllables)
    ensures r.Success? ==> forall j :: IsFlagged(r.value, ResponseFlag, j) ==> 0 < j && PairAt(r.value, j - 1, r.value[j].stim)
    ensures r.Success? && Distinct(syllables) ==> Balanced(Names(r.value, Flagged(r.value, ResponseFlag)), syllables)
    ensures r.Success? && Distinct(syllables) ==>
              forall j :: 0 < j < |r.value| ==> (SameAsPrevious(r.value, j) <==> IsFlagged(r.value, ResponseFlag, j))
    ensures Distinct(syllables) && |syllables| >= 3 && 0 < nTarget && 3 * nTarget < nTrials && 5 * nTarget < nTrials + 3 ==> r.Success?
  {
    if 3 * nTarget >= nTrials {
      return Failure(Infeasible);
    }
    var plan := PlanPairs(syllables, nTarget, nTrials);
    if plan.Failure? {
      return Failure(plan.error);
    }
    var (targets, targetIndices, shuffled) := plan.value;
    var resorted := Sorting.SortStrings(shuffled);
    Sorting.SortStringsCanonical(shuffled, syllables);
    if nTarget == 0 {
      return Failure(NoTargets);
    }
    var sequence := Assemble(resorted, targets, targetIndices, nTrials);
    if sequence.Failure? {
      return Failure(sequence.error);
    }
    ResponsesFollowTargets(sequence.value, |targets|, targets, targetIndices, resorted, Distinct(resorted));
    if Distinct(syllables) {
      DistinctPermutation(resorted, syllables);
      WalkPasses(sequence.value, targets, targetIndices, resorted, nTrials);
      ResponsesNamed(sequence.value, targets, targetIndices, resorted, true);
    }
    var verdict := CheckSequence(sequence.value, nTarget, nTrials);
    if verdict.Fail? {
      return Failure(CheckFailed(verdict.error));
    }
    return Success(sequence.value);
  }
}
