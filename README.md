# N-back trial sequences of `ncrar_biosemi`

This project models the part of `ncrar_biosemi/sequence.py` that builds and checks auditory
N-back trial sequences, and that packs each trial into an integer trigger code and unpacks it.

- **Trials** (`Stims`). A trial is a `Stim`: the syllable played, whether it is a target,
  whether a response is expected, and the syllable's position in the sorted syllable list.
  `Encode` puts the two flags in bits 0 and 1 and the index from bit 2 up. `Decode` reads
  them back and looks the syllable up in the sorted list. A code whose index has no syllable
  fails. A trial whose index is its syllable's sorted position survives the round trip exactly.
- **Oddball (N-back 0) sequences** (`NBack0`). Trial 0 plays the target. `nTarget` more target
  positions are drawn from `[2, nTrials)`. Each draw discards itself and its two
  neighbours from the candidates. With repeat-free syllables, every other trial plays a syllable
  other than the target.
  The model proves the following:
  - The drawn positions are at least 2 apart, so the "Bad target sequence" branch is dead code.
  - The draw fails only on an exhausted candidate pool, which needs `nTrials < 3 * nTarget`; the
    fill fails only without a filler.
  - When the syllables have no repeats and there is at least one trial, `check_sequence_nback0`
    never raises on the result.
- **Blocks** (`Blocks`). `generate_nback0_blocks` pops each block's target from a shuffled
  copy of the syllables and refills the copy when it runs out. The model proves the following:
  - Every block is a passing oddball block.
  - With repeat-free syllables, the per-syllable target counts differ by at most one.
- **1-back sequences** (`NBack1Check`, `NBack1`). The generator proceeds in four steps:
  1. It refuses plans with `3 * nTarget >= nTrials`.
  2. It takes the targets from successive shuffles of the syllables and draws pair starts from
     `[1, nTrials - 1)`, discarding a window of two on each side of every pick.
  3. It walks the trials. At a pair start it plays the target twice, the second time expecting
     a response. Elsewhere it plays a filler; with repeat-free syllables the filler differs from the
     trial before it and, just ahead of a pair, from that pair's syllable.
  4. It runs `check_sequence_nback1` on the result.

  The walk is proved to keep an invariant (`WalkState`): where the flags are, which pairs are
  placed, which index each syllable has, and that fillers are apart. With repeat-free
  syllables, a trial plays the same syllable as the trial before it exactly when it is a
  response. From that invariant it follows that, with repeat-free syllables, the final check
  always passes.

Random draws (`rng.choice`, `rng.shuffle`) are arbitrary choices (`:|`). Every property holds
whatever is chosen, and nothing is claimed about the distribution. Each error the source
raises is a `Failure` value of `Errors.GenError` or `Errors.CheckError`. Examples are a
missing target, an exhausted candidate pool, an empty filler list, a refused plan, no
targets to pop, and a failed final check.

The early refusal in `generate_nback1_sequence` does not make the pair-start draw safe. For
example, with 2 targets and 7 trials, a first start at 3 discards every candidate from 1 to 5,
and the second draw fails. `NBack1.GenerateSequence` therefore guarantees success only when
`5 * nTarget < nTrials + 3` (besides `3 * nTarget < nTrials`).

The block composer can give two consecutive blocks the same target: after a refill, the
reshuffled copy can open with the previous block's target. With syllables `['a', 'b']`, the
first copy may be shuffled to `a, b` and the refill to `b, a`, giving the targets a, b, b. The
model claims only that the targets are balanced.

## Model

| member | source | states |
|---|---|---|
| Stims.Encode | ncrar_biosemi/sequence.py:10-13 | bit 0 of the code is the target flag, bit 1 the response flag, and the code shifted right by 2 is the index |
| Stims.Decode | ncrar_biosemi/sequence.py:15-24 | decoding succeeds exactly when the index is below the number of syllables; a decoded trial encodes back to the same code and plays one of the syllables |
| Stims.EncodeDecode | ncrar_biosemi/sequence.py:10-24 | decoding an encoded trial returns its flags and index unchanged, with the syllable at that index of the sorted list |
| Stims.RoundTrip | ncrar_biosemi/sequence.py:10-24 | a trial whose index is its syllable's sorted position decodes back to itself |
| Sorting.SortStrings | ncrar_biosemi/sequence.py:17 | `sorted` on strings returns a permutation of its input, ordered by Python's string comparison |
| Sorting.SortedUnique | ncrar_biosemi/sequence.py:17 | two sorted lists with the same elements are equal, so any correct sort gives the same list |
| Sorting.SortStringsCanonical | ncrar_biosemi/sequence.py:120 | sorting a shuffled copy gives the same list as sorting the original |
| Sorting.LexLe | ncrar_biosemi/sequence.py:17 | Python's `str` order used by `sorted`: code point by code point, a prefix before any longer string; LexIsTotalOrder proves it a total order |
| Sorting.SortInts | ncrar_biosemi/sequence.py:67 | `list.sort` on integers returns a non-decreasing permutation of its input |
| Lists.IndexOf | ncrar_biosemi/sequence.py:81 | `index` returns the first position that holds the element |
| Lists.RemoveFirst | ncrar_biosemi/sequence.py:55 | `remove` takes one occurrence out of the contents when present and leaves the list unchanged otherwise |
| Lists.RangeSet | ncrar_biosemi/sequence.py:57 | `set(range(a, b))` holds exactly the integers from a up to b, and has b - a elements |
| Lists.Shuffle | ncrar_biosemi/sequence.py:41 | a shuffle is a permutation of the list |
| Lists.SpacedSorted | ncrar_biosemi/sequence.py:67-68 | after sorting positions that are pairwise at least `gap` apart, each is at least `gap` below every later one |
| Lists.BalancedPrefix | ncrar_biosemi/sequence.py:38-42 | items taken in turn from successive shuffled copies of a repeat-free list come from that list, and any two of its items are taken a number of times that differ by at most one |
| Lists.RepeatMembers | ncrar_biosemi/sequence.py:104-109 | items taken from copies of a list are items of that list |
| NBack0.CountStim | ncrar_biosemi/sequence.py:91 | the count of trials playing a syllable is that syllable's multiplicity in the list of played syllables |
| NBack0.TargetAdjacent | ncrar_biosemi/sequence.py:93 | some trial and the one after it both play the target |
| NBack0.Check | ncrar_biosemi/sequence.py:89-94 | the check passes exactly when the target occurs `nTarget + 1` times and never twice in a row, and a passing sequence is not empty |
| NBack0.DrawTargetIndices | ncrar_biosemi/sequence.py:57-65 | a successful draw is 0 followed by `nTarget` positions in `[2, nTrials)`, pairwise at least 2 apart; the draw fails only on an exhausted pool, and then `nTrials < 3 * nTarget` |
| NBack0.CloseNeighbours | ncrar_biosemi/sequence.py:68 | `np.any(np.diff(...) < 2)`: some two neighbouring sorted positions are less than 2 apart |
| NBack0.NoAdjacentTargets | ncrar_biosemi/sequence.py:93-94 | when only positions at least 2 apart play the target, the target never plays twice in a row |
| NBack0.PositionStep | ncrar_biosemi/sequence.py:73 | walking positions in order past a list rising by at least 2, a position is listed exactly when it is the next listed one |
| NBack0.FillSequence | ncrar_biosemi/sequence.py:71-83 | the sequence has `nTrials` trials; listed positions play the target and expect a response except at 0; the other trials play another syllable; every index is the syllable's position; it fails only for lack of fillers (one syllable) |
| NBack0.PlaceTargets | ncrar_biosemi/sequence.py:57-69 | the sorted positions hold 0 and `nTarget` more positions below `nTrials`, each at least 2 below the next, so "Bad target sequence" is never raised; failure only on an exhausted pool |
| NBack0.GenerateSequence | ncrar_biosemi/sequence.py:49-86 | fails with a missing target exactly when the target is not a syllable; otherwise fails only on an exhausted pool, a missing filler or a check that fails with repeated syllables or no trials; a result has `nTrials` trials, passes the check, opens with the target expecting no response, flags responses exactly at targets after 0, and names each syllable by its sorted position; with repeat-free syllables, enough trials and two syllables it succeeds |
| Blocks.NextBlock | ncrar_biosemi/sequence.py:39-45 | refilling when empty, popping a target and building its block yields a passing oddball block for the popped target, and the popped target plus the remaining targets are the previous targets (or, after a refill, the syllables) |
| Blocks.TakeTarget | ncrar_biosemi/sequence.py:39-42 | the targets picked so far together with those still pending make up whole copies of the syllables |
| Blocks.GenerateBlocks | ncrar_biosemi/sequence.py:34-46 | the result has `nBlocks` passing oddball blocks, each opening with its own target; with repeat-free syllables the block targets are balanced; an empty syllable list with some block fails on the pop; with repeat-free syllables, two of them and enough trials it succeeds |
| NBack1Check.Flagged | ncrar_biosemi/sequence.py:191 | the flagged positions are increasing and are exactly the trials carrying the flag |
| NBack1Check.FlaggedAppend | ncrar_biosemi/sequence.py:191 | appending a trial appends its position exactly when it carries the flag |
| NBack1Check.Names | ncrar_biosemi/sequence.py:172-175 | the syllables at the flagged positions, one per position |
| NBack1Check.PairsRepeat | ncrar_biosemi/sequence.py:173 | `tar_seq[:-1:2] == tar_seq[1::2]`: each even-numbered target syllable equals the one after it |
| NBack1Check.ResponsesClose | ncrar_biosemi/sequence.py:191-192 | `np.any(np.diff(resp_i) < 3)`: two consecutive responses are less than 3 trials apart |
| NBack1Check.Violation | ncrar_biosemi/sequence.py:180-190 | one pass of the loop: the first and the `nTrials - 1`-th trials are skipped; a pair opener repeating the trial before raises; a response at the last trial raises the IndexError of `sequence[i+1]`; a response repeated by the trial after raises; conversely, a checked pair opener that does not raise differs from the trial before, and a checked response that does not raise has a next trial with a different syllable |
| NBack1Check.FirstViolation | ncrar_biosemi/sequence.py:180-190 | the scan passes exactly when no trial raises, and otherwise reports the first trial's error |
| NBack1Check.ScanRepetitions | ncrar_biosemi/sequence.py:180-190 | the loop over the trials returns the first violation's error, or passes |
| NBack1Check.Verdict | ncrar_biosemi/sequence.py:165-195 | the check passes exactly when there are `nTarget > 0` responses and twice as many targets, the targets come in equal pairs, the responses are balanced, no trial repeats a neighbour where the loop looks, responses are at least 3 apart and trial 0 is not a target |
| NBack1Check.CheckSequence | ncrar_biosemi/sequence.py:165-195 | the checker raises exactly what `Verdict` names, in the source's order |
| NBack1.SelectTargets | ncrar_biosemi/sequence.py:104-109 | `nTarget` target syllables, each a syllable, balanced when the syllables have no repeats; the shuffled list keeps the syllables |
| NBack1.ExtendByCopy | ncrar_biosemi/sequence.py:108-109 | extending the targets by a prefix of a fresh shuffle leaves one more whole copy of the syllables across targets and leftover |
| NBack1.SelectPairStarts | ncrar_biosemi/sequence.py:111-117 | `nTarget` starts in `[1, nTrials - 2]`, pairwise at least 3 apart; failure only on an exhausted pool, and then `nTrials + 3 <= 5 * nTarget` |
| NBack1.DiscardAround | ncrar_biosemi/sequence.py:116-117 | the candidates left are exactly those at least 3 away from the pick, and at most 5 are removed |
| NBack1.PairPositionsSnoc | ncrar_biosemi/sequence.py:126-132 | one more pair adds both its positions to the target positions and its second position to the response positions |
| NBack1.FlagsAfterFiller | ncrar_biosemi/sequence.py:154-158 | a filler before the next pair leaves the target and response positions unchanged |
| NBack1.FlagsAfterPair | ncrar_biosemi/sequence.py:126-132 | a pair at its planned start adds its two trials to the targets and its second to the responses |
| NBack1.PairsAppend | ncrar_biosemi/sequence.py:126-132 | appending trials keeps the pairs already placed |
| NBack1.IndexedAppend | ncrar_biosemi/sequence.py:156-158 | appending trials that name their syllables by sorted position keeps every trial so named |
| NBack1.ApartAfterFiller | ncrar_biosemi/sequence.py:144-158 | with repeat-free syllables, a filler unlike the trial before it and unlike the next pair's syllable keeps every pair opening unlike its predecessor, every response unlike its successor, and repeats of the previous trial only at responses |
| NBack1.ApartAfterPair | ncrar_biosemi/sequence.py:126-132 | with repeat-free syllables, a pair whose opening differs from the trial before it keeps the same three facts, its response being the one repeat it adds |
| NBack1.FillerStep | ncrar_biosemi/sequence.py:142-159 | a filler step keeps the walk's invariant |
| NBack1.PairStep | ncrar_biosemi/sequence.py:126-132 | a pair step at the planned start moves the walk's invariant to the next pair |
| NBack1.PickFiller | ncrar_biosemi/sequence.py:144-157 | the filler is an unflagged trial naming its syllable by sorted position; with repeat-free syllables it differs from the trial before it and, ahead of a pair, from that pair's syllable; it fails only for lack of fillers, with at most two syllables |
| NBack1.FillerChoice | ncrar_biosemi/sequence.py:144-153 | a syllable left in the filler list is a syllable, and with repeat-free syllables it is neither the one just played nor the next pair's |
| NBack1.NextPair | ncrar_biosemi/sequence.py:134-141 | pops the next target and start, or, once the lists are used up, gives no target and a start past the end |
| NBack1.CursorStep | ncrar_biosemi/sequence.py:134-141 | popping after pair `k` puts the walk before pair `k + 1` |
| NBack1.PlayPair | ncrar_biosemi/sequence.py:126-141 | playing the pair grows the sequence by two within `nTrials` and moves both invariants to the next pair |
| NBack1.PlayFiller | ncrar_biosemi/sequence.py:142-159 | playing a filler grows the sequence by one and keeps the invariant; failure only for lack of fillers |
| NBack1.Assemble | ncrar_biosemi/sequence.py:121-159 | the walk yields `nTrials` trials with every planned pair placed, flags exactly at the pairs, sorted-position indices and, with repeat-free syllables, a trial repeating the one before it exactly when it is a response; it fails only for lack of fillers |
| NBack1.ResponsesNamed | ncrar_biosemi/sequence.py:175 | the responses of a finished walk play the target list in order |
| NBack1.ResponsesFollowTargets | ncrar_biosemi/sequence.py:126-132 | every response directly follows a target that opens the pair with the same syllable |
| NBack1.TargetsPaired | ncrar_biosemi/sequence.py:170-174 | a finished walk has `2 * nTarget` targets, coming in equal pairs |
| NBack1.NoViolations | ncrar_biosemi/sequence.py:180-190 | with repeat-free syllables no trial raises in the checker's loop |
| NBack1.ResponsesSpaced | ncrar_biosemi/sequence.py:191-195 | responses are at least 3 trials apart and trial 0 is not a target |
| NBack1.WalkPasses | ncrar_biosemi/sequence.py:161 | a finished walk over repeat-free syllables with balanced targets passes `check_sequence_nback1` |
| NBack1.PlanPairs | ncrar_biosemi/sequence.py:104-120 | the targets and the sorted starts form a plan: `nTarget` syllables, starts in `[1, nTrials - 2]` rising by at least 3, balanced targets with repeat-free syllables; failure only on an exhausted pool |
| NBack1.GenerateSequence | ncrar_biosemi/sequence.py:97-162 | refuses exactly the plans with `nTrials <= 3 * nTarget`; fails on the pop exactly when there are no targets; otherwise fails only on an exhausted pool, a missing filler (at most two syllables) or a check failing with repeated syllables; a result has `nTrials` trials, passes the check, names syllables by sorted position, has each response right after its same-syllable target and, with repeat-free syllables, balanced responses and a trial repeating the one before it exactly when it is a response; with repeat-free syllables, three of them and enough trials it succeeds |

## Left out

- Random number generation: `rng.choice` and `rng.shuffle` are arbitrary choices. The `rng` parameter and `np.random.RandomState` are not modelled, and nothing is said about distributions.
- Negative integers: counts, positions and codes are natural numbers. Python would accept a negative `n_trials`, or a negative code whose index counts from the end of the list.
- Stims.Decode: gives the flags as booleans, where the source gives the integers 0 and 1 (equal to `False` and `True` in Python). `decode` with no syllable list (`stim=None`) is not modelled.
- `Stim.__init__` storing `locals()` (including `self`) and `Stim.__repr__` are display plumbing and are not modelled.
- NBack1.GenerateSequence: requires some syllables when targets are to be placed and the plan is not refused, because the source's target loop never ends otherwise.
- NBack1.SelectTargets: requires some syllables when `nTarget > 0`, for the same reason.
- NBack0.GenerateSequence: when the syllable list has repeats, the outcome of the final check is not characterised beyond "a failed check needs repeats or no trials".
- Blocks.GenerateBlocks: the same limitation with repeated syllables. Balance of the block targets is stated only for repeat-free syllables.
- NBack1.GenerateSequence: when the syllable list has repeats, the outcome of the final check is not characterised beyond "a failed check needs repeats".
- NBack1.PickFiller: the `remove` of the syllable just played cannot miss, because every trial plays one of the syllables. The model states this as an assertion and has no error path for it.
- `experiments.py`, `psi_controller.py`, `mmn.py`, `util.py`, `main.py`, `setup.py` and the example scripts are not part of this model. They hold GUI, audio, network, subprocess and file I/O code.
- NBack1Check.Verdict: `counts.ptp()` is read with NumPy 1.x behaviour (the `ndarray.ptp` method, failing on an empty array). NumPy 2 removed that method, and the package pins no NumPy version.
- A general N-back generator (`generate_nback_sequence`) does not exist in `sequence.py` and is not modelled.
