/** One trial of a sequence and its trigger code (bit 0 target, bit 1 response, bits 2 and up the syllable index). */
module Stims {
  import opened Wrappers
  import Sorting

  /** A trial: the syllable played, its two flags, and the syllable's position in the sorted syllable list. */
  datatype Stim = Stim(stim: string, isTarget: bool, isResponse: bool, stimIndex: nat)

  /** The error `decode` raises when the index has no syllable. */
  datatype DecodeError = StimIndexOutOfRange

  function Bit(b: bool): nat { if b then 1 else 0 }

  /** `Stim.encode`: the flags in bits 0 and 1, the index from bit 2 up. */
  function Encode(s: Stim): (code: nat)
    ensures code % 2 == Bit(s.isTarget)
    ensures code / 2 % 2 == Bit(s.isResponse)
    ensures code / 4 == s.stimIndex
  {
    Bit(s.isTarget) + 2 * Bit(s.isResponse) + 4 * s.stimIndex
  }

  /** Every code splits into its two low bits and the rest. */
  lemma CodeBits(code: nat)
    ensures code == code % 2 + 2 * (code / 2 % 2) + 4 * (code / 4)
  {
    var q, m := code / 4, code % 4;
    assert code == 4 * q + m && m < 4;
    assert code / 2 == 2 * q + m / 2;
    assert code % 2 == m % 2;
  }

  /** `Stim.decode`: reads the bits back and looks the index up in the sorted syllables. */
  function Decode(code: nat, syllables: seq<string>): (r: Result<Stim, DecodeError>)
    ensures r.Success? <==> code / 4 < |syllables|
    ensures r.Success? ==> Encode(r.value) == code
    ensures r.Success? ==> r.value.stim in syllables
  {
    var sorted := Sorting.SortStrings(syllables);
    var index := code / 4;
    if index < |sorted| then
      assert sorted[index] in multiset(syllables);
      CodeBits(code);
      Success(Stim(sorted[index], code % 2 == 1, code / 2 % 2 == 1, index))
    else
      Failure(StimIndexOutOfRange)
  }

  /** The trial `s` names its syllable by position in the sorted syllable list. */
  ghost predicate Canonical(s: Stim, syllables: seq<string>)
  {
    var sorted := Sorting.SortStrings(syllables);
    s.stimIndex < |sorted| && sorted[s.stimIndex] == s.stim
  }

  /** Decoding an encoded trial gives back both flags and the index, and the syllable at that index. */
  lemma EncodeDecode(s: Stim, syllables: seq<string>)
    requires s.stimIndex < |syllables|
    ensures Decode(Encode(s), syllables) == Success(s.(stim := Sorting.SortStrings(syllables)[s.stimIndex]))
  {
  }

  /** The round trip is exact for a trial whose index is its syllable's sorted position. */
  lemma RoundTrip(s: Stim, syllables: seq<string>)
    requires Canonical(s, syllables)
    ensures Decode(Encode(s), syllables) == Success(s)
  {
    EncodeDecode(s, syllables);
  }
}
