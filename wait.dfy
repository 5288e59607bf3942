/**
 Process identity and child reaping: `getpid`, `getppid`, `_waitpid`,
 `wait` and `waitpid`.

 Each decodes a pid the kernel returned, where 0 is not an error but
 "no process": no parent in this pid namespace, or no child that changed
 state (with WNOHANG).
 */
module Wait {
  import opened Abi

  /** The status word wait4 stores, kept exactly as written. */
  datatype WaitStatus = WaitStatus(raw: U32)

  /** `getpid`: the infallible reply word is cut to the kernel's `pid_t`,
      which the source asserts is not zero before building a `Pid` from it
      unchecked. */
  function GetPid(raw: nat): (run: Run<Pid>)
    requires LowU32(raw) != 0
    ensures run.calls == [GetPidCall]
    ensures (run.result - raw) % U32_LIMIT == 0
    ensures raw < U32_LIMIT ==> run.result == raw
  {
    Run(LowU32(WrapI32(raw)), [GetPidCall])
  }

  /** `getppid`: the same narrowing, but a zero parent pid is `None`. */
  function GetPpid(raw: nat): (run: Run<Option<Pid>>)
    ensures run.calls == [GetPpidCall]
    ensures run.result.None? <==> raw % U32_LIMIT == 0
    ensures run.result.Some? ==> (run.result.value - raw) % U32_LIMIT == 0
    ensures raw < U32_LIMIT ==> run.result == PidFromRaw(raw)
  {
    Run(PidFromRaw(LowU32(WrapI32(raw))), [GetPpidCall])
  }

  /** `_waitpid`: the kernel's reply is the pid it reaped and the status it
      wrote. An error propagates; a zero pid is "no child available"; any
      other pid comes back with its status. */
  function WaitPidRaw(pid: U32, options: U32, reply: Outcome<(U32, U32)>)
    : (run: Run<Outcome<Option<(Pid, WaitStatus)>>>)
    ensures run.calls == [Wait4(WrapI32(pid), WrapI32(options))]
    ensures run.result.Err? <==> reply.Err?
    ensures reply.Err? ==> run.result.error == reply.error
    ensures run.result == Ok(None) <==> reply.Ok? && reply.value.0 == 0
    ensures run.result.Ok? && run.result.value.Some? ==>
      reply == Ok((run.result.value.value.0 as U32, run.result.value.value.1.raw))
  {
    match reply
    case Err(e) => Run(Err(e), [Wait4(WrapI32(pid), WrapI32(options))])
    case Ok((child, status)) =>
      Run(Ok(if child == 0 then None else Some((child as Pid, WaitStatus(status)))),
          [Wait4(WrapI32(pid), WrapI32(options))])
  }

  /** `wait`: `_waitpid(!0, ..)`, which the kernel reads as -1, any child. */
  function WaitAny(options: U32, reply: Outcome<(U32, U32)>): (run: Run<Outcome<Option<(Pid, WaitStatus)>>>)
    ensures run.calls == [Wait4(-1, WrapI32(options))]
    ensures run == WaitPidRaw(U32_LIMIT - 1, options, reply)
  {
    WaitPidRaw(U32_LIMIT - 1, options, reply)
  }

  /** `waitpid`: no pid is passed as 0 (any child in the caller's process
      group), a pid below 2^31 as itself. */
  function WaitPid(pid: Option<Pid>, options: U32, reply: Outcome<(U32, U32)>)
    : (run: Run<Outcome<Option<(Pid, WaitStatus)>>>)
    ensures pid.None? ==> run.calls == [Wait4(0, WrapI32(options))]
    ensures pid.Some? && pid.value <= I32_MAX ==> run.calls == [Wait4(pid.value, WrapI32(options))]
    ensures run == WaitPidRaw(PidAsRaw(pid), options, reply)
  {
    WaitPidRaw(PidAsRaw(pid), options, reply)
  }

  /** Every reply decodes to a result that determines it: the three cases
      are told apart, and a reaped child's pid and status are the kernel's. */
  lemma WaitDecodingInjective(pid: U32, options: U32, a: Outcome<(U32, U32)>, b: Outcome<(U32, U32)>)
    requires WaitPidRaw(pid, options, a).result == WaitPidRaw(pid, options, b).result
    requires a.Ok? ==> a.value.0 != 0
    ensures a == b
  {
  }
}
