/** What both configuration codecs report, and the recovery intent they settle. */
module Intents {
  import opened Bytes
  import opened Directories
  import opened ManagedFiles

  datatype Problem = InvalidConfiguration | ConfigurationCollision | ConfigurationWriteFailed | RecoveryRequiredProblem

  datatype Result<+T> = Ok(value: T) | Err(problem: Problem)

  /** `map_file_error`. */
  function ProblemOf(outcome: Outcome): Option<Problem> {
    match outcome
    case Done => None
    case WriteFailed => Some(ConfigurationWriteFailed)
    case RecoveryRequired => Some(RecoveryRequiredProblem)
  }

  datatype RecoveryState = Pending | RolledBack | NeedsRecovery

  /** One recovery intent as the store keeps it; it outlives every process that works on it. */
  class Intent<Before, Desired> {
    const before: Before
    const desired: Desired
    var state: RecoveryState

    constructor (before: Before, desired: Desired)
      ensures this.before == before && this.desired == desired && state == Pending
    {
      this.before := before;
      this.desired := desired;
      state := Pending;
    }

    /** `set_recovery_state`: it may fail before or after it took effect. */
    method Record(next: RecoveryState, store: Calls) returns (ok: bool)
      modifies this
      ensures state == next || state == old(state)
      ensures ok ==> state == next
      ensures store.NoneFails? ==> ok
    {
      var lost: bool := *;
      var failed: bool := *;
      if store.AllFail? {
        return false;
      }
      if store.NoneFails? || !lost {
        state := next;
      }
      ok := store.NoneFails? || (!lost && !failed);
    }
  }
}
