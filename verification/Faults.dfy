/** What the environment may do to a step on disk, and what the caller sees of it. */
module Faults {
  datatype Fault = NoFault | FailsBefore | FailsAfter | CrashBefore | CrashAfter {
    predicate TakesEffect() {
      NoFault? || FailsAfter? || CrashAfter?
    }

    function Status(): Status {
      match this
      case NoFault => Done
      case FailsBefore => Failed
      case FailsAfter => Failed
      case CrashBefore => Crashed
      case CrashAfter => Crashed
    }
  }

  /** `Refused` is the service's own error about a state it cannot account for. */
  datatype Status = Done | Failed | Crashed | Refused
}
