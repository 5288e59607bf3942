# Linux raw-syscall process layer: result interpretation

This project models the part of rustix's `linux_raw` process backend that
runs after the kernel has answered a syscall: the code that turns the raw
reply into a typed value. The kernel is an oracle. Each wrapper is a Dafny
function (or, for `sched_getaffinity`, a method over the caller's byte
buffer) that takes the kernel's reply as a parameter. That reply has
already been split into a success payload or an errno. The wrapper returns
a `Run`: the typed result together with the syscalls it issued, in order.
With the call list, the model can state which calls are made and with
which arguments, for example that `nice` never calls setpriority after a
failed getpriority, or that the 32-bit `getrlimit` fallback is issued
exactly once.

Modules:

- `Abi`: machine-integer widths, `Outcome` (`io::Result`), `Errno`, `Pid`
  and its raw encoding, the `Call` log.
- `Priority`: `getpriority_user`, `getpriority_pgrp`,
  `getpriority_process` and `nice`.
- `Rlimits`: `getrlimit` for 64-bit and 32-bit targets, including the
  runtime fallback from prlimit64 to the legacy getrlimit.
- `Wait`: `getpid`, `getppid`, `_waitpid`, `wait` and `waitpid`.
- `Membarrier`: `membarrier_query`.
- `Affinity`: `sched_getaffinity`, in place on an `array<bv8>` of
  `sizeof(cpu_set_t)` = 128 bytes.

Three behaviours of the code that are easy to misread. The model follows
the code in each:

- `nice` clamps every result to [-20, 19], including the result for an
  increment outside (-40, 40). In Rust, `.min(19).max(-20)` applies to the
  whole `if` expression. So a large increment is clamped, not passed
  through unmodified.
- The 32-bit `getrlimit` falls back to the legacy call on any prlimit64
  error. The check for ENOSYS is only a `debug_assert_eq!`.
- In that fallback, `try_into()` converts a 32-bit `c_ulong` to `u64`. This
  widens the value and cannot fail, so no value is silently dropped there.

## Model

| member | source | states |
|---|---|---|
| `Abi.WrapI32` | src/imp/linux_raw/process/syscalls.rs:104 | `as i32` keeps the value modulo 2^32 and is the identity on the `i32` range |
| `Abi.LowU32` | src/imp/linux_raw/process/syscalls.rs:106 | `as u32` keeps the value modulo 2^32 and is the identity on the `u32` range |
| `Abi.PidAsRaw` | src/imp/linux_raw/process/syscalls.rs:398 | `Pid::as_raw` encodes "no pid" as 0 and only as 0, and a pid as itself |
| `Abi.PidFromRaw` | src/imp/linux_raw/process/syscalls.rs:114 | `Pid::from_raw` yields `None` exactly for raw 0 and inverts `Pid::as_raw` |
| `Priority.ClampNice` | src/imp/linux_raw/process/syscalls.rs:235-236 | `.min(19).max(-20)` always lands in [-20, 19] and leaves in-range values alone |
| `Priority.ClampNiceIsNearest` | src/imp/linux_raw/process/syscalls.rs:233-236 | the clamped value is the nice value nearest to the unclamped priority |
| `Priority.DecodePriority` | src/imp/linux_raw/process/syscalls.rs:268-273 | a kernel error passes through unchanged; a non-negative success value is unbiased, so re-biasing gives the kernel's value back |
| `Priority.PriorityRoundTrip` | src/imp/linux_raw/process/syscalls.rs:244-249 | every nice value in [-20, 19] is reported by the kernel in [1, 40], and `20 - raw` recovers it exactly |
| `Priority.GetPriorityUser` | src/imp/linux_raw/process/syscalls.rs:242-251 | issues one getpriority(PRIO_USER, uid); errors pass through; success is the unbiased priority |
| `Priority.GetPriorityPgrp` | src/imp/linux_raw/process/syscalls.rs:254-263 | issues one getpriority(PRIO_PGRP, pgid or 0); errors pass through; success is the unbiased priority |
| `Priority.GetPriorityProcess` | src/imp/linux_raw/process/syscalls.rs:266-275 | issues one getpriority(PRIO_PROCESS, pid or 0); errors pass through; success is the unbiased priority |
| `Priority.Nice` | src/imp/linux_raw/process/syscalls.rs:227-239 | a successful result lies in [-20, 19] and is exactly the value passed to the final setpriority; every priority written is in range; only the calling process is queried or changed |
| `Priority.NiceRelative` | src/imp/linux_raw/process/syscalls.rs:228-238 | for -40 < inc < 40: getpriority, then setpriority with clamp(inc + current), which is also the result unless setpriority fails |
| `Priority.NiceGetFails` | src/imp/linux_raw/process/syscalls.rs:229 | a getpriority error is the result, and setpriority is not called |
| `Priority.NiceAbsolute` | src/imp/linux_raw/process/syscalls.rs:230-236 | any other increment: no getpriority, the getpriority reply is irrelevant, and the value written is -20 or 19 |
| `Priority.NiceFromKernelNice` | src/imp/linux_raw/process/syscalls.rs:227-239 | against the kernel's own nice value n: the result is clamp(inc + n), and inc = 0 writes n back |
| `Rlimits.DecodeLimit` | src/imp/linux_raw/process/syscalls.rs:374-383 | a field is `None` iff it equals the infinity sentinel, else `Some` of the raw value unchanged |
| `Rlimits.LimitRoundTrip` | src/imp/linux_raw/process/syscalls.rs:374-383 | decoding inverts the kernel's encoding of a limit, and vice versa |
| `Rlimits.DecodeRlimit64` | src/imp/linux_raw/process/syscalls.rs:327-339 | the two fields of `rlimit64` are decoded independently |
| `Rlimits.GetRlimit64Bit` | src/imp/linux_raw/process/syscalls.rs:364-385 | one prlimit64(0, resource) call; each field `None` iff RLIM_INFINITY, else the raw value |
| `Rlimits.GetRlimit32Bit` | src/imp/linux_raw/process/syscalls.rs:316-362 | prlimit64 success: only that call, decoded against RLIM64_INFINITY; any error: exactly one legacy getrlimit follows, decoded as written |
| `Rlimits.DecodeLegacyAsWritten` | src/imp/linux_raw/process/syscalls.rs:350-360 | legacy fields are `None` iff RLIM_INFINITY; a finite maximum is taken from `rlim_cur` |
| `Rlimits.FallbackAsWrittenMismatch` | src/imp/linux_raw/process/syscalls.rs:355-359 | the as-written fallback is right exactly when the hard limit is unlimited or equals the soft limit; for (1024, 4096) it reports a maximum of 1024 |
| `Rlimits.FallbackAgreesWithPrlimit64` | src/imp/linux_raw/process/syscalls.rs:341-361 | the corrected fallback reports what prlimit64 reports for the same kernel state |
| `Rlimits.GetRlimit32BitIntended` | src/imp/linux_raw/process/syscalls.rs:316-362 | the same call sequence as the 32-bit `getrlimit`, with the fallback result equal to prlimit64's decoding of the widened legacy struct |
| `Rlimits.NosysTakesFallback` | src/imp/linux_raw/process/syscalls.rs:341-348 | an ENOSYS from prlimit64 is followed by exactly one legacy getrlimit, whose decoding is the result |
| `Rlimits.WidthsAgree` | src/imp/linux_raw/process/syscalls.rs:325-339 | a 32-bit target whose prlimit64 succeeds gives the same result and calls as a 64-bit target |
| `Wait.GetPid` | src/imp/linux_raw/process/syscalls.rs:102-108 | one getpid call; the pid is the reply modulo 2^32, and the reply itself when it fits; a zero pid is excluded, as the source asserts |
| `Wait.GetPpid` | src/imp/linux_raw/process/syscalls.rs:111-116 | one getppid call; `None` iff the reply is 0 modulo 2^32, else that pid |
| `Wait.WaitPidRaw` | src/imp/linux_raw/process/syscalls.rs:402-418 | one wait4 with the pid and options reinterpreted as `c_int`; an error propagates; `Ok(None)` iff the kernel returned pid 0; otherwise the kernel's pid and status exactly |
| `Wait.WaitAny` | src/imp/linux_raw/process/syscalls.rs:389-391 | `wait` passes `!0`, which wait4 receives as -1 |
| `Wait.WaitPid` | src/imp/linux_raw/process/syscalls.rs:394-399 | `waitpid(None)` passes 0, and a pid below 2^31 is passed as itself |
| `Wait.WaitDecodingInjective` | src/imp/linux_raw/process/syscalls.rs:408-416 | the decoded result determines the kernel reply: error, no child and reaped child are distinct outcomes |
| `Membarrier.Query` | src/imp/linux_raw/process/syscalls.rs:57-76 | one membarrier(MEMBARRIER_CMD_QUERY, 0) call; any error gives the empty set; success gives the kernel's bits unchanged |
| `Membarrier.EmptyContainsNothing` | src/imp/linux_raw/process/syscalls.rs:73 | the empty capability set supports no command |
| `Membarrier.QueryContains` | src/imp/linux_raw/process/syscalls.rs:64-74 | after a failed query no command is supported; after a successful one a command is supported iff the kernel set its bits |
| `Affinity.AfterGetaffinity` | src/imp/linux_raw/process/syscalls.rs:184-194 | the buffer keeps its size across the call |
| `Affinity.SchedGetaffinity` | src/imp/linux_raw/process/syscalls.rs:179-196 | one sched_getaffinity(pid or 0, 128) call; on error the result is that error and the buffer is unchanged; on success the buffer is the kernel's bytes followed by zeros |
| `Affinity.GetaffinityBytes` | src/imp/linux_raw/process/syscalls.rs:190-193 | bytes [0, size) are the kernel's, bytes [size, 128) are 0, nothing changes on error |
| `Affinity.GetaffinityCpuCount` | src/imp/linux_raw/process/syscalls.rs:192-193 | after success the CPU count of the buffer equals the count of CPUs the kernel wrote, at most eight per byte it wrote: the zeroed tail adds none |

## Findings

| source | as written | input that shows it | evidently intended | confidence | as-written member | corrected member |
|---|---|---|---|---|---|---|
| src/imp/linux_raw/process/syscalls.rs:358 | when `rlim_max` is finite, the legacy fallback sets `maximum` from `rlim_cur` | prlimit64 fails and legacy getrlimit reports soft 1024, hard 4096: the result's maximum is 1024 | `maximum` from `rlim_max` (4096), matching what prlimit64 reports | high, not executed | `Rlimits.FallbackAsWrittenMismatch` | `Rlimits.GetRlimit32BitIntended` |

`Rlimits.GetRlimit32Bit` keeps the code as written. `Rlimits.GetRlimit32BitIntended`
is the corrected version. `Rlimits.FallbackAgreesWithPrlimit64` proves that its
fallback agrees with prlimit64.

## Left out

- Kernel entry (`syscall0_readonly` through `syscall4`, `syscall1_noreturn`, `nr`) is architecture inline assembly. Every syscall is an oracle whose reply is a parameter.
- The `conv` encoders and decoders (`c_int`, `c_uint`, `by_mut`, `out`, `ret`, `ret_c_int`, `ret_c_uint`, `ret_usize_infallible`, …) are defined outside this file. The model starts from their decoded `Ok`/`Err`, and it does not model the errno mapping.
- Output slots, `MaybeUninit` and `assume_init` are memory plumbing. An out-slot is the value the oracle supplies on success.
- `chdir`, `fchdir`, `getcwd`, `uname`, `sched_setaffinity`, `sched_yield`, `setpriority_*`, `membarrier`, `membarrier_cpu` and `exit_group` pass their arguments through with no logic of their own. setpriority appears only as a call issued by `nice`.
- `getuid`, `geteuid`, `getgid` and `getegid` differ only in which syscall number a build target selects, and the per-architecture width of `__kernel_uid_t` is not part of this model.
- `Priority.Nice`: `inc + current` is modelled as wrapping `i32` addition, as in a release build. A debug build panics on that overflow, which only a kernel reply outside getpriority's [1, 40] could cause.
- `Priority.DecodePriority`: `20 - raw` is modelled as wrapping `i32` subtraction. It cannot overflow for a non-negative reply.
- `Wait.GetPid`: the `debug_assert_ne!` that the pid is non-zero is modelled as a precondition. A zero pid would make `new_unchecked` undefined behaviour.
- `Rlimits.GetRlimit32Bit`: the debug assertion that the prlimit64 error is ENOSYS is not modelled, so any error takes the fallback. The legacy infinity is `!0` as a 32-bit `c_ulong`. 32-bit MIPS and SPARC define RLIM_INFINITY as 0x7fffffff, and the model does not cover those targets.
- `Affinity.SchedGetaffinity`: the model has the kernel write only on success, so a partial copy before an EFAULT is not modelled. A reported size larger than the buffer is excluded by the precondition, because the source's `size_of - size` relies on the kernel never reporting one.
- `Wait.WaitPidRaw`: `WaitStatus` is kept as the raw status word. Decoding it into exit codes and signals lives outside this file.
- `Membarrier.Query`: the kernel's `u32` payload is taken directly as a 32-bit word. The individual command constants are defined outside this file.
- The "getpid twice gives the same pid" scenario is a property of the kernel, not of this layer. The model takes each reply as given.
- The CPU count treats every bit of the buffer as one CPU. It does not model the order of CPUs within the `c_ulong` words, because the count does not depend on that order.
- `tests/mm/main.rs` holds only `cfg`-gated module declarations.
