/** The exceptions the generators and checkers raise, one constructor per cause. */
module Errors {

  /** Raised by the checkers (`ValueError` with the message noted, or the `IndexError`/`ValueError` numpy raises). */
  datatype CheckError =
    | TargetMisrepresented   // 'Target not represented correctly'
    | TargetRepeated         // 'Target repeated!'
    | NotEnoughTargets       // 'Not enough targets'
    | TargetNotRepeated      // 'Target not repeated properly'
    | NoResponses            // `counts.ptp()` of an empty array
    | Unbalanced             // 'Targets not balanced properly'
    | SpuriousBefore         // 'Spurious repetition before'
    | SpuriousAfter          // 'Spurious repetition after'
    | IndexOutOfRange        // `sequence[i + 1]` or `sequence[0]` past the end
    | TooClose               // 'Repeats too close together'
    | TooEarly               // 'Target too close to beginning'

  /** Raised by the generators. */
  datatype GenError =
    | TargetMissing          // `nontarget.remove(target)` with a target that is not a syllable
    | PoolExhausted          // `rng.choice` over an empty set of candidate indices
    | BadTargetSequence      // 'Bad target sequence'
    | NoFiller               // `rng.choice` over an empty list of syllables
    | Infeasible             // 'Cannot encode ... repeats in ... trials'
    | NoTargets              // `targets.pop(0)` on an empty list
    | CheckFailed(reason: CheckError)
}
