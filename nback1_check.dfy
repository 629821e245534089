/** `check_sequence_nback1`: the conditions a 1-back sequence must meet, in the order they are tested. */
module NBack1Check {
  import opened Wrappers
  import opened Errors
  import opened Lists
  import opened Stims

  /** The two flags of a trial. */
  datatype Flag = TargetFlag | ResponseFlag

  function Has(t: Stim, f: Flag): bool
  {
    match f
    case TargetFlag => t.isTarget
    case ResponseFlag => t.isResponse
  }

  /** Trial `j` of `s` carries flag `f`. */
  predicate IsFlagged(s: seq<Stim>, f: Flag, j: int)
  {
    0 <= j < |s| && Has(s[j], f)
  }

  /** The positions of the trials carrying flag `f`, in order (`resp_i` for the response flag). */
  function Flagged(s: seq<Stim>, f: Flag): (r: seq<nat>)
    ensures forall m :: 0 <= m < |r| ==> r[m] < |s| && Has(s[r[m]], f)
    ensures forall m, m' :: 0 <= m < m' < |r| ==> r[m] < r[m']
    ensures forall j :: IsFlagged(s, f, j) ==> j in r
  {
    if s == [] then []
    else
      var init := s[..|s| - 1];
      assert forall j :: 0 <= j < |init| ==> init[j] == s[j];
      Flagged(init, f) + if Has(s[|s| - 1], f) then [|s| - 1] else []
  }

  /** Appending a trial appends its position when it carries the flag. */
  lemma FlaggedAppend(s: seq<Stim>, x: Stim, f: Flag)
    ensures Has(x, f) ==> Flagged(s + [x], f) == Flagged(s, f) + [|s|]
    ensures !Has(x, f) ==> Flagged(s + [x], f) == Flagged(s, f)
  {
    assert (s + [x])[..|s|] == s;
  }

  /** The syllables at positions `ps` (`tar_seq` and `resp_seq`). */
  function Names(s: seq<Stim>, ps: seq<nat>): (r: seq<string>)
    requires forall m :: 0 <= m < |ps| ==> ps[m] < |s|
    ensures |r| == |ps|
  {
    seq(|ps|, m requires 0 <= m < |ps| => s[ps[m]].stim)
  }

  /** `tar_seq[:-1:2] == tar_seq[1::2]`: each even-numbered entry equals the one after it. */
  predicate PairsRepeat(tar: seq<string>)
  {
    forall m :: 0 <= m < |tar| / 2 ==> tar[2 * m] == tar[2 * m + 1]
  }

  /** `np.diff(resp_i) < 3` somewhere: two consecutive responses less than 3 trials apart. */
  predicate ResponsesClose(ri: seq<nat>)
  {
    exists m :: 0 <= m < |ri| - 1 && ri[m + 1] < ri[m] + 3
  }

  /**
   * The body of the loop over the trials: what trial `i` raises, if anything. The first and
   * the `nTrials - 1`-th trials are skipped; a target that is not a response must differ from
   * the trial before it, a response before `nTrials` from the trial after it (which must exist).
   */
  function Violation(s: seq<Stim>, nTrials: nat, i: nat): (r: Option<CheckError>)
    requires i < |s|
    ensures r.Some? ==> 0 < i && i != nTrials - 1
    ensures r == Some(SpuriousBefore) ==> 0 < i && s[i].isTarget && !s[i].isResponse && s[i - 1].stim == s[i].stim
    ensures r == Some(IndexOutOfRange) ==> s[i].isResponse && i < nTrials && i + 1 == |s|
    ensures r == Some(SpuriousAfter) ==> s[i].isResponse && i + 1 < |s| && s[i + 1].stim == s[i].stim
    ensures r.None? && 0 < i && i != nTrials - 1 && s[i].isTarget && !s[i].isResponse ==> s[i - 1].stim != s[i].stim
    ensures r.None? && 0 < i && i != nTrials - 1 && s[i].isResponse && i < nTrials ==> i + 1 < |s| && s[i + 1].stim != s[i].stim
  {
    if i == 0 || i == nTrials - 1 then None
    else if s[i].isTarget && !s[i].isResponse && s[i - 1].stim == s[i].stim then Some(SpuriousBefore)
    else if s[i].isResponse && i < nTrials && i + 1 >= |s| then Some(IndexOutOfRange)
    else if s[i].isResponse && i < nTrials && s[i + 1].stim == s[i].stim then Some(SpuriousAfter)
    else None
  }

  /** The error of the first trial from `i` on that raises one. */
  function FirstViolation(s: seq<Stim>, nTrials: nat, i: nat): (r: Outcome<CheckError>)
    requires i <= |s|
    ensures r.Pass? <==> forall j :: i <= j < |s| ==> Violation(s, nTrials, j).None?
    ensures r.Fail? ==> exists j :: i <= j < |s| && Violation(s, nTrials, j) == Some(r.error)
                                    && forall j' :: i <= j' < j ==> Violation(s, nTrials, j').None?
    decreases |s| - i
  {
    if i == |s| then Pass
    else
      match Violation(s, nTrials, i)
      case Some(e) => Fail(e)
      case None => FirstViolation(s, nTrials, i + 1)
  }

  /** The loop of `check_sequence_nback1` over the trials. */
  method ScanRepetitions(s: seq<Stim>, nTrials: nat) returns (r: Outcome<CheckError>)
    ensures r == FirstViolation(s, nTrials, 0)
  {
    for i := 0 to |s|
      invariant FirstViolation(s, nTrials, 0) == FirstViolation(s, nTrials, i)
    {
      if i == 0 || i == nTrials - 1 {
        continue;
      }
      if s[i].isTarget && !s[i].isResponse {
        if s[i - 1].stim == s[i].stim {
          return Fail(SpuriousBefore);
        }
      }
      if s[i].isResponse && i < nTrials {
        if i + 1 >= |s| {
          return Fail(IndexOutOfRange);
        }
        if s[i + 1].stim == s[i].stim {
          return Fail(SpuriousAfter);
        }
      }
    }
    return Pass;
  }

  /**
   * What `check_sequence_nback1` raises, if anything. A sequence passes exactly when it has
   * `nTarget > 0` responses and twice as many targets, the target syllables come in equal
   * pairs, the response syllables are balanced, no trial raises, responses are at least 3
   * trials apart and the first trial is not a target.
   */
  function Verdict(s: seq<Stim>, nTarget: nat, nTrials: nat): (r: Outcome<CheckError>)
    ensures r.Pass? <==>
              && |Flagged(s, ResponseFlag)| == nTarget > 0
              && |Flagged(s, TargetFlag)| == 2 * nTarget
              && PairsRepeat(Names(s, Flagged(s, TargetFlag)))
              && Balanced(Names(s, Flagged(s, ResponseFlag)), Names(s, Flagged(s, ResponseFlag)))
              && (forall j :: 0 <= j < |s| ==> Violation(s, nTrials, j).None?)
              && !ResponsesClose(Flagged(s, ResponseFlag))
              && 0 < |s| && !s[0].isTarget
  {
    var ri := Flagged(s, ResponseFlag);
    var tar := Names(s, Flagged(s, TargetFlag));
    var resp := Names(s, ri);
    var scan := FirstViolation(s, nTrials, 0);
    if |ri| != nTarget then Fail(NotEnoughTargets)
    else if |tar| != 2 * nTarget then Fail(TargetNotRepeated)
    else if !PairsRepeat(tar) then Fail(TargetNotRepeated)
    else if resp == [] then Fail(NoResponses)
    else if !Balanced(resp, resp) then Fail(Unbalanced)
    else if scan.Fail? then scan
    else if ResponsesClose(ri) then Fail(TooClose)
    else if |s| == 0 then Fail(IndexOutOfRange)
    else if s[0].isTarget then Fail(TooEarly)
    else Pass
  }

  /** `check_sequence_nback1`. */
  method CheckSequence(s: seq<Stim>, nTarget: nat, nTrials: nat) returns (r: Outcome<CheckError>)
    ensures r == Verdict(s, nTarget, nTrials)
  {
    var response := Flagged(s, ResponseFlag);
    if |response| != nTarget {
      return Fail(NotEnoughTargets);
    }
    var tarSeq := Names(s, Flagged(s, TargetFlag));
    if |tarSeq| != 2 * nTarget || !PairsRepeat(tarSeq) {
      return Fail(TargetNotRepeated);
    }
    var respSeq := Names(s, response);
    if respSeq == [] {
      return Fail(NoResponses);
    }
    if !Balanced(respSeq, respSeq) {
      return Fail(Unbalanced);
    }
    r := ScanRepetitions(s, nTrials);
    if r.Fail? {
      return r;
    }
    if ResponsesClose(response) {
      return Fail(TooClose);
    }
    if |s| == 0 {
      return Fail(IndexOutOfRange);
    }
    if s[0].isTarget {
      return Fail(TooEarly);
    }
    return Pass;
  }
}
