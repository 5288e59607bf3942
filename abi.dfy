/**
 The kernel boundary of the Linux raw-syscall process layer.

 Nothing here enters the kernel: every syscall is an oracle whose reply,
 already split by the result decoder into a success payload or an errno,
 is handed to the wrappers as a parameter. What the wrappers hand back is
 the typed value together with the list of syscalls they issued, so that
 the order and the arguments of those calls can be stated too.
 */
module Abi {

  // Fixed-width machine integers, as the wrappers see them.
  const I32_MIN: int := -0x8000_0000
  const I32_MAX: int := 0x7FFF_FFFF
  const U32_LIMIT: int := 0x1_0000_0000
  const U64_LIMIT: int := 0x1_0000_0000_0000_0000

  type I32 = x: int | I32_MIN <= x <= I32_MAX
  type U32 = x: int | 0 <= x < U32_LIMIT
  type U64 = x: int | 0 <= x < U64_LIMIT

  /** Two's-complement reinterpretation of an unbounded integer as an `i32`
      (Rust's `as i32`, and the result of wrapping `i32` arithmetic). */
  function WrapI32(x: int): (r: I32)
    ensures (x - r) % U32_LIMIT == 0
    ensures I32_MIN <= x <= I32_MAX ==> r == x
  {
    var m := x % U32_LIMIT;
    if m <= I32_MAX then m else m - U32_LIMIT
  }

  /** Rust's `as u32` on any integer: keep the low 32 bits. */
  function LowU32(x: int): (r: U32)
    ensures (x - r) % U32_LIMIT == 0
    ensures 0 <= x < U32_LIMIT ==> r == x
  {
    x % U32_LIMIT
  }

  /** A kernel error number, as the result decoder extracts it from a
      negated return word. */
  datatype Errno = Errno(code: nat)

  /** ENOSYS: the syscall is not implemented by the running kernel. */
  const NOSYS: Errno := Errno(38)

  /** `io::Result`: a typed success value or a kernel error. */
  datatype Outcome<+T> = Ok(value: T) | Err(error: Errno)

  datatype Option<+T> = None | Some(value: T)

  /** A process identifier: `Pid` wraps a non-zero `u32`. */
  type Pid = x: int | 0 < x < U32_LIMIT witness 1

  /** `Pid::as_raw(Option<Pid>)`: no pid is encoded as 0, a pid as itself. */
  function PidAsRaw(pid: Option<Pid>): (r: U32)
    ensures r == 0 <==> pid.None?
    ensures pid.Some? ==> r == pid.value
  {
    match pid
    case None => 0
    case Some(p) => p
  }

  /** `Pid::from_raw`: a raw 0 means "no process". */
  function PidFromRaw(raw: U32): (r: Option<Pid>)
    ensures r.None? <==> raw == 0
    ensures PidAsRaw(r) == raw
  {
    if raw == 0 then None else Some(raw)
  }

  /** The `which` argument of getpriority/setpriority. */
  datatype PrioWhich = PrioProcess | PrioPgrp | PrioUser

  /** One syscall issued to the kernel, with the arguments that identify it. */
  datatype Call =
    | GetPriority(which: PrioWhich, who: U32)
    | SetPriority(which: PrioWhich, who: U32, prio: I32)
    | Prlimit64(pid: U32, resource: U32)
    | GetRlimit(resource: U32)
    | Wait4(child: I32, options: I32)
    | GetPidCall
    | GetPpidCall
    | MembarrierCall(cmd: I32, flags: U32)
    | SchedGetaffinityCall(pid: U32, size: nat)

  /** What a wrapper returns, and the syscalls it issued to get it, in order. */
  datatype Run<+T> = Run(result: T, calls: seq<Call>)
}
