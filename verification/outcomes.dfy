// How the emulator process can end.

module Outcomes {

  /** PcAssert, OpcodeAssert, EcallAssert: the assertions of the run loop and of ecall.
      CpuAbort: a CPUAssert or Assert failed.  Exited: exit(0) was called.
      Undefined: C leaves the behaviour undefined. */
  datatype Death = PcAssert | OpcodeAssert | EcallAssert | CpuAbort | Exited | Undefined

  datatype Outcome<+T> = Ok(value: T) | Dies(why: Death)
  {
    predicate IsFailure() {
      Dies?
    }

    function PropagateFailure<U>(): Outcome<U>
      requires Dies?
    {
      Dies(why)
    }

    function Extract(): T
      requires Ok?
    {
      value
    }
  }
}
