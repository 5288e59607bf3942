/**
 Scheduling priority: the `getpriority_*` family and `nice`.

 The kernel's getpriority never returns a negative success value, so it
 reports a nice value `n` in [-20, 19] biased as `20 - n`, in [1, 40]. The
 wrappers undo the bias with `20 - raw` in `i32` arithmetic. `nice` reads
 the current priority (for small increments only), adds, clamps to the
 nice range and writes the result back with setpriority.
 */
module Priority {
  import opened Abi

  const NICE_MIN: int := -20
  const NICE_MAX: int := 19

  /** The nice value a priority stands for, clamped the way `nice` does it:
      `.min(19).max(-20)`. */
  function ClampNice(x: int): (r: int)
    ensures NICE_MIN <= r <= NICE_MAX
    ensures NICE_MIN <= x <= NICE_MAX ==> r == x
  {
    if x > NICE_MAX then NICE_MAX else if x < NICE_MIN then NICE_MIN else x
  }

  /** The clamp picks the nice value closest to its argument. */
  lemma ClampNiceIsNearest(x: int, y: int)
    requires NICE_MIN <= y <= NICE_MAX
    ensures Distance(ClampNice(x), x) <= Distance(y, x)
  {
  }

  function Distance(a: int, b: int): nat
  {
    if a >= b then a - b else b - a
  }

  /** How the kernel's getpriority reports a nice value: biased so that it is
      never negative (the reference the decoder below inverts). */
  function KernelBiased(nice: int): int
  {
    20 - nice
  }

  /** The decoding shared by the three getpriority wrappers: a kernel error
      passes through unchanged, a success value is unbiased with `20 - raw`
      as an `i32` subtraction. */
  function DecodePriority(reply: Outcome<I32>): (r: Outcome<I32>)
    ensures r.Err? <==> reply.Err?
    ensures reply.Err? ==> r.error == reply.error
    ensures reply.Ok? && 0 <= reply.value ==> KernelBiased(r.value) == reply.value
  {
    match reply
    case Err(e) => Err(e)
    case Ok(raw) => Ok(WrapI32(20 - raw))
  }

  /** Unbiasing inverts the kernel's encoding on the whole nice range, and
      the encoded values are the non-negative band [1, 40]. */
  lemma PriorityRoundTrip(nice: int)
    requires NICE_MIN <= nice <= NICE_MAX
    ensures 1 <= KernelBiased(nice) <= 40
    ensures DecodePriority(Ok(KernelBiased(nice))) == Ok(nice)
  {
  }

  function GetPriorityUser(uid: U32, reply: Outcome<I32>): (run: Run<Outcome<I32>>)
    ensures run.calls == [GetPriority(PrioUser, uid)]
    ensures run.result.Err? <==> reply.Err?
    ensures reply.Err? ==> run.result.error == reply.error
    ensures reply.Ok? && 0 <= reply.value ==> KernelBiased(run.result.value) == reply.value
  {
    Run(DecodePriority(reply), [GetPriority(PrioUser, uid)])
  }

  function GetPriorityPgrp(pgid: Option<Pid>, reply: Outcome<I32>): (run: Run<Outcome<I32>>)
    ensures run.calls == [GetPriority(PrioPgrp, PidAsRaw(pgid))]
    ensures pgid.None? ==> run.calls == [GetPriority(PrioPgrp, 0)]
    ensures run.result.Err? <==> reply.Err?
    ensures reply.Err? ==> run.result.error == reply.error
    ensures reply.Ok? && 0 <= reply.value ==> KernelBiased(run.result.value) == reply.value
  {
    Run(DecodePriority(reply), [GetPriority(PrioPgrp, PidAsRaw(pgid))])
  }

  function GetPriorityProcess(pid: Option<Pid>, reply: Outcome<I32>): (run: Run<Outcome<I32>>)
    ensures run.calls == [GetPriority(PrioProcess, PidAsRaw(pid))]
    ensures pid.None? ==> run.calls == [GetPriority(PrioProcess, 0)]
    ensures run.result.Err? <==> reply.Err?
    ensures reply.Err? ==> run.result.error == reply.error
    ensures reply.Ok? && 0 <= reply.value ==> KernelBiased(run.result.value) == reply.value
  {
    Run(DecodePriority(reply), [GetPriority(PrioProcess, PidAsRaw(pid))])
  }

  /** Issue `setpriority_process(None, prio)` after the calls in `before`;
      on success the priority that was written is the result. */
  function SetAndReturn(prio: I32, before: seq<Call>, setReply: Outcome<()>): (run: Run<Outcome<I32>>)
  {
    Run(if setReply.Ok? then Ok(prio) else Err(setReply.error),
        before + [SetPriority(PrioProcess, 0, prio)])
  }

  /** `nice(inc)` with both kernel replies as parameters: `current` answers
      getpriority for the calling process, `setReply` answers setpriority.
      A reply for a call that is not issued is ignored. */
  function Nice(inc: I32, current: Outcome<I32>, setReply: Outcome<()>): (run: Run<Outcome<I32>>)
    ensures run.result.Ok? ==> NICE_MIN <= run.result.value <= NICE_MAX
    ensures 1 <= |run.calls| <= 2
    ensures run.result.Ok? ==> run.calls[|run.calls| - 1] == SetPriority(PrioProcess, 0, run.result.value)
    ensures forall c | c in run.calls && c.SetPriority? :: NICE_MIN <= c.prio <= NICE_MAX
    ensures forall c | c in run.calls ::
      (c.GetPriority? || c.SetPriority?) && c.which == PrioProcess && c.who == 0
  {
    if -40 < inc < 40 then
      var got := GetPriorityProcess(None, current);
      match got.result
      case Err(e) => Run(Err(e), got.calls)
      case Ok(prio) => SetAndReturn(ClampNice(WrapI32(inc + prio)), got.calls, setReply)
    else
      SetAndReturn(ClampNice(inc), [], setReply)
  }

  /** A small increment is added to the current priority before clamping,
      and the clamped value is what setpriority receives. */
  lemma NiceRelative(inc: I32, current: Outcome<I32>, setReply: Outcome<()>)
    requires -40 < inc < 40 && current.Ok?
    requires I32_MIN <= inc + DecodePriority(current).value <= I32_MAX
    ensures var prio := ClampNice(inc + DecodePriority(current).value);
      Nice(inc, current, setReply).calls
        == [GetPriority(PrioProcess, 0), SetPriority(PrioProcess, 0, prio)]
      && Nice(inc, current, setReply).result
        == if setReply.Ok? then Ok(prio) else Err(setReply.error)
  {
  }

  /** A failing getpriority ends `nice` with that error: setpriority is
      never called. */
  lemma NiceGetFails(inc: I32, current: Outcome<I32>, setReply: Outcome<()>)
    requires -40 < inc < 40 && current.Err?
    ensures Nice(inc, current, setReply) == Run(Err(current.error), [GetPriority(PrioProcess, 0)])
  {
  }

  /** A large increment is clamped on its own: the current priority is not
      queried and the getpriority reply has no influence. */
  lemma NiceAbsolute(inc: I32, current: Outcome<I32>, current': Outcome<I32>, setReply: Outcome<()>)
    requires !(-40 < inc < 40)
    ensures Nice(inc, current, setReply).calls == [SetPriority(PrioProcess, 0, ClampNice(inc))]
    ensures Nice(inc, current, setReply) == Nice(inc, current', setReply)
    ensures Nice(inc, current, setReply).result
      == if setReply.Ok? then Ok(if inc <= -40 then NICE_MIN else NICE_MAX) else Err(setReply.error)
  {
  }

  /** Stated against the kernel's own nice value `n`: with the kernel
      answering `KernelBiased(n)`, a small increment yields the clamped sum,
      and an increment of 0 writes `n` back unchanged. */
  lemma NiceFromKernelNice(inc: I32, n: int, setReply: Outcome<()>)
    requires -40 < inc < 40 && NICE_MIN <= n <= NICE_MAX && setReply.Ok?
    ensures Nice(inc, Ok(KernelBiased(n)), setReply).result == Ok(ClampNice(inc + n))
    ensures inc == 0 ==> Nice(inc, Ok(KernelBiased(n)), setReply).result == Ok(n)
  {
    PriorityRoundTrip(n);
  }
}
