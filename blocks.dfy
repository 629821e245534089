/** A run of oddball blocks whose targets cycle through shuffled copies of the syllables. */
module Blocks {
  import opened Wrappers
  import opened Errors
  import opened Lists
  import opened Stims
  import NBack0

  /** The syllable each block opens with, which is that block's target. */
  function BlockTargets(seqs: seq<seq<Stim>>): (ts: seq<string>)
    ensures |ts| == |seqs|
  {
    seq(|seqs|, b requires 0 <= b < |seqs| => if |seqs[b]| > 0 then seqs[b][0].stim else "")
  }

  /**
   * `s` is a passing oddball block of `nTrials` trials for `target`, a syllable of
   * `syllables`: it opens with the target, flagged as a target but expecting no response.
   */
  ghost predicate OddballBlock(s: seq<Stim>, target: string, syllables: seq<string>, nTarget: nat, nTrials: nat)
  {
    && |s| == nTrials && 0 < nTrials
    && s[0].stim == target && s[0].isTarget && !s[0].isResponse
    && target in syllables
    && NBack0.Check(s, target, nTarget) == Pass
  }

  /**
   * One pass of the loop of `generate_nback0_blocks`: refill `targets` with a shuffled copy
   * of `syllables` when it is empty, pop its head and build that target's block. Returns
   * the block and what is left of `targets`.
   */
  method NextBlock(syllables: seq<string>, targets: seq<string>, nTarget: nat, nTrials: nat)
    returns (r: Result<(seq<Stim>, seq<string>), GenError>)
    requires multiset(targets) <= multiset(syllables)
    ensures r == Failure(NoTargets) <==> syllables == []
    ensures r.Failure? ==> r.error in {PoolExhausted, NoFiller, NoTargets} || r.error.CheckFailed?
    ensures r == Failure(PoolExhausted) ==> nTrials < 3 * nTarget
    ensures r == Failure(NoFiller) ==> |syllables| == 1
    ensures r.Failure? && r.error.CheckFailed? ==> nTrials == 0 || !Distinct(syllables)
    ensures r.Success? ==> |r.value.0| > 0 && OddballBlock(r.value.0, r.value.0[0].stim, syllables, nTarget, nTrials)
    ensures r.Success? ==> multiset{r.value.0[0].stim} + multiset(r.value.1)
                           == if targets == [] then multiset(syllables) else multiset(targets)
    ensures (Distinct(syllables) && |syllables| >= 2 && 1 <= nTrials && 3 * nTarget <= nTrials) ==> r.Success?
  {
    var pool := targets;
    if |pool| == 0 {
      pool := Shuffle(syllables);
    }
    if |pool| == 0 {
      return Failure(NoTargets);
    }
    var target := pool[0];
    assert pool == [target] + pool[1..];
    assert target in multiset(syllables);
    var sequence := NBack0.GenerateSequence(syllables, target, nTarget, nTrials);
    if sequence.Failure? {
      return Failure(sequence.error);
    }
    return Success((sequence.value, pool[1..]));
  }

  /**
   * The bookkeeping of one pass: `picked` and `targets` together hold `full` copies of
   * `pool`; moving the popped `target` to `picked` (after a refill when `targets` was empty)
   * keeps that true, counting the refill as one more copy.
   */
  lemma TakeTarget(picked: seq<string>, targets: seq<string>, target: string, rest: seq<string>,
                   pool: multiset<string>, full: nat) returns (full': nat)
    requires multiset(picked) + multiset(targets) == Repeat(pool, full)
    requires multiset(targets) <= pool
    requires multiset{target} + multiset(rest) == if targets == [] then pool else multiset(targets)
    ensures full' == if targets == [] then full + 1 else full
    ensures multiset(picked + [target]) + multiset(rest) == Repeat(pool, full')
    ensures multiset(rest) <= pool
  {
    full' := if targets == [] then full + 1 else full;
    assert multiset(picked + [target]) == multiset(picked) + multiset{target};
  }

  /**
   * `generate_nback0_blocks`: block `b` is an oddball sequence whose target is the next
   * syllable of the current shuffled copy of `syllables`, a fresh copy being shuffled
   * whenever the previous one is used up.
   */
  method GenerateBlocks(syllables: seq<string>, nBlocks: nat, nTarget: nat, nTrials: nat)
    returns (r: Result<seq<seq<Stim>>, GenError>)
    ensures r == Failure(NoTargets) <==> 0 < nBlocks && syllables == []
    ensures r.Failure? ==> r.error in {PoolExhausted, NoFiller, NoTargets} || r.error.CheckFailed?
    ensures r == Failure(PoolExhausted) ==> nTrials < 3 * nTarget
    ensures r == Failure(NoFiller) ==> |syllables| == 1
    ensures r.Failure? && r.error.CheckFailed? ==> nTrials == 0 || !Distinct(syllables)
    ensures r.Success? ==> |r.value| == nBlocks
    ensures r.Success? ==> forall b :: 0 <= b < |r.value| ==>
              OddballBlock(r.value[b], BlockTargets(r.value)[b], syllables, nTarget, nTrials)
    ensures r.Success? && Distinct(syllables) ==> Balanced(BlockTargets(r.value), syllables)
    ensures (nBlocks == 0 || (Distinct(syllables) && |syllables| >= 2 && 1 <= nTrials && 3 * nTarget <= nTrials))
              ==> r.Success?
  {
    var targets: seq<string> := [];
    var sequences: seq<seq<Stim>> := [];
    ghost var picked: seq<string> := [];
    ghost var full: nat := 0;
    for block := 0 to nBlocks
      invariant |sequences| == block == |picked|
      invariant multiset(picked) + multiset(targets) == Repeat(multiset(syllables), full)
      invariant multiset(targets) <= multiset(syllables)
      invariant 0 < block ==> syllables != []
      invariant AllOddball(sequences, picked, syllables, nTarget, nTrials)
      invariant 0 < block && Distinct(syllables) ==> Balanced(picked, syllables)
    {
      var next := NextBlock(syllables, targets, nTarget, nTrials);
      if next.Failure? {
        return Failure(next.error);
      }
      var (sequence, rest) := next.value;
      ghost var target := sequence[0].stim;
      full := TakeTarget(picked, targets, target, rest, multiset(syllables), full);
      AllOddballAppend(sequences, picked, sequence, target, syllables, nTarget, nTrials);
      picked := picked + [target];
      targets := rest;
      if Distinct(syllables) {
        BalancedPrefix(picked, multiset(targets), syllables, full);
      }
      sequences := sequences + [sequence];
    }
    assert BlockTargets(sequences) == picked;
    return Success(sequences);
  }

  /** Every block of `sequences` is an oddball block for the matching entry of `targets`. */
  ghost predicate AllOddball(sequences: seq<seq<Stim>>, targets: seq<string>, syllables: seq<string>, nTarget: nat, nTrials: nat)
  {
    && |sequences| == |targets|
    && forall b :: 0 <= b < |sequences| ==> OddballBlock(sequences[b], targets[b], syllables, nTarget, nTrials)
  }

  /** One more oddball block keeps all blocks oddball blocks. */
  lemma AllOddballAppend(sequences: seq<seq<Stim>>, targets: seq<string>, s: seq<Stim>, target: string,
                         syllables: seq<string>, nTarget: nat, nTrials: nat)
    requires AllOddball(sequences, targets, syllables, nTarget, nTrials)
    requires OddballBlock(s, target, syllables, nTarget, nTrials)
    ensures AllOddball(sequences + [s], targets + [target], syllables, nTarget, nTrials)
  {
    forall b | 0 <= b < |sequences| + 1
      ensures OddballBlock((sequences + [s])[b], (targets + [target])[b], syllables, nTarget, nTrials)
    {
      if b < |sequences| {
        assert (sequences + [s])[b] == sequences[b] && (targets + [target])[b] == targets[b];
      }
    }
  }
}
