/**
 Resource-limit query (`getrlimit`) on both pointer widths.

 On 64-bit targets a single prlimit64 call (which cannot fail here) fills a
 `struct rlimit64`. On 32-bit targets prlimit64 is tried first; when it
 fails, the legacy getrlimit call fills a narrower `struct rlimit` whose
 fields are 32 bits wide. Either way a raw field equal to the infinity
 sentinel becomes "no limit" (`None`).
 */
module Rlimits {
  import opened Abi

  /** RLIM64_INFINITY, and RLIM_INFINITY (`!0` as a `c_ulong`) on 64-bit targets. */
  const RLIM64_INFINITY: U64 := U64_LIMIT - 1
  /** RLIM_INFINITY (`!0` as a `c_ulong`) on 32-bit targets. */
  const RLIM32_INFINITY: U32 := U32_LIMIT - 1

  /** `struct rlimit64`, as the kernel writes it into the out-slot. */
  datatype RawRlimit64 = RawRlimit64(cur: U64, max: U64)

  /** The legacy `struct rlimit` of a 32-bit target. */
  datatype RawRlimit32 = RawRlimit32(cur: U32, max: U32)

  /** The typed limit: `None` means unlimited. */
  datatype Rlimit = Rlimit(current: Option<U64>, maximum: Option<U64>)

  /** One field against its infinity sentinel. */
  function DecodeLimit(raw: U64, infinity: U64): (r: Option<U64>)
    ensures r.None? <==> raw == infinity
    ensures r.Some? ==> r.value == raw
  {
    if raw == infinity then None else Some(raw)
  }

  /** The kernel's side of the same field: unlimited is the sentinel. */
  function EncodeLimit(limit: Option<U64>, infinity: U64): U64
  {
    match limit
    case None => infinity
    case Some(v) => v
  }

  /** Decoding inverts encoding on every limit other than the sentinel value
      itself, and encoding inverts decoding on every raw field. */
  lemma LimitRoundTrip(limit: Option<U64>, raw: U64, infinity: U64)
    ensures limit != Some(infinity) ==> DecodeLimit(EncodeLimit(limit, infinity), infinity) == limit
    ensures EncodeLimit(DecodeLimit(raw, infinity), infinity) == raw
  {
  }

  /** A whole `struct rlimit64`, fields decoded independently. */
  function DecodeRlimit64(raw: RawRlimit64, infinity: U64): (r: Rlimit)
    ensures r.current == DecodeLimit(raw.cur, infinity)
    ensures r.maximum == DecodeLimit(raw.max, infinity)
  {
    Rlimit(DecodeLimit(raw.cur, infinity), DecodeLimit(raw.max, infinity))
  }

  /** `getrlimit` on a 64-bit target: prlimit64 on the calling process, with
      no new limit, and the reply decoded against RLIM_INFINITY. */
  function GetRlimit64Bit(resource: U32, reply: RawRlimit64): (run: Run<Rlimit>)
    ensures run.calls == [Prlimit64(0, resource)]
    ensures run.result.current.None? <==> reply.cur == RLIM64_INFINITY
    ensures run.result.maximum.None? <==> reply.max == RLIM64_INFINITY
    ensures run.result.current.Some? ==> run.result.current.value == reply.cur
    ensures run.result.maximum.Some? ==> run.result.maximum.value == reply.max
  {
    Run(DecodeRlimit64(reply, RLIM64_INFINITY), [Prlimit64(0, resource)])
  }

  /** The legacy fallback's decoding exactly as the source writes it: the
      maximum is tested against infinity on `rlim_max` but, when finite,
      taken from `rlim_cur`. The `u32` to `u64` conversions widen and
      cannot fail, so `try_into().ok()` is always `Some`. */
  function DecodeLegacyAsWritten(raw: RawRlimit32): (r: Rlimit)
    ensures r.current.None? <==> raw.cur == RLIM32_INFINITY
    ensures r.maximum.None? <==> raw.max == RLIM32_INFINITY
    ensures r.current.Some? ==> r.current.value == raw.cur
    ensures r.maximum.Some? ==> r.maximum.value == raw.cur
  {
    Rlimit(if raw.cur == RLIM32_INFINITY then None else Some(raw.cur),
           if raw.max == RLIM32_INFINITY then None else Some(raw.cur))
  }

  /** The legacy fallback's decoding as evidently intended: each field from
      itself. */
  function DecodeLegacy(raw: RawRlimit32): (r: Rlimit)
  {
    Rlimit(if raw.cur == RLIM32_INFINITY then None else Some(raw.cur),
           if raw.max == RLIM32_INFINITY then None else Some(raw.max))
  }

  /** How a legacy limit reads through prlimit64: the 32-bit infinity is the
      64-bit infinity, every other value is the same number. */
  function Widen(raw: RawRlimit32): (w: RawRlimit64)
  {
    RawRlimit64(if raw.cur == RLIM32_INFINITY then RLIM64_INFINITY else raw.cur,
                if raw.max == RLIM32_INFINITY then RLIM64_INFINITY else raw.max)
  }

  /** The intended fallback reports the same limit that prlimit64 reports
      for the same kernel state. */
  lemma FallbackAgreesWithPrlimit64(raw: RawRlimit32)
    ensures DecodeLegacy(raw) == DecodeRlimit64(Widen(raw), RLIM64_INFINITY)
  {
  }

  /** The fallback as written agrees with that only when the hard limit is
      unlimited or equals the soft limit; any other legacy reply reports the
      soft limit as the hard one. */
  lemma FallbackAsWrittenMismatch(raw: RawRlimit32)
    ensures DecodeLegacyAsWritten(raw) == DecodeLegacy(raw)
      <==> raw.max == RLIM32_INFINITY || raw.cur == raw.max
    ensures DecodeLegacyAsWritten(RawRlimit32(1024, 4096)).maximum == Some(1024)
    ensures DecodeLegacy(RawRlimit32(1024, 4096)).maximum == Some(4096)
  {
  }

  /** `getrlimit` on a 32-bit target as written. `prlimit` answers the first
      call; `legacy` answers the getrlimit fallback, issued exactly once and
      only when prlimit64 fails (with any error). */
  function GetRlimit32Bit(resource: U32, prlimit: Outcome<RawRlimit64>, legacy: RawRlimit32): (run: Run<Rlimit>)
    ensures prlimit.Ok? ==> run.calls == [Prlimit64(0, resource)]
    ensures prlimit.Ok? ==> run.result == DecodeRlimit64(prlimit.value, RLIM64_INFINITY)
    ensures prlimit.Err? ==> run.calls == [Prlimit64(0, resource), GetRlimit(resource)]
    ensures prlimit.Err? ==> run.result == DecodeLegacyAsWritten(legacy)
  {
    match prlimit
    case Ok(raw) => Run(DecodeRlimit64(raw, RLIM64_INFINITY), [Prlimit64(0, resource)])
    case Err(_) => Run(DecodeLegacyAsWritten(legacy), [Prlimit64(0, resource), GetRlimit(resource)])
  }

  /** A kernel without prlimit64 answers it with ENOSYS, and that is one of
      the errors that take the legacy path: exactly one getrlimit follows and
      its reply is the result. */
  lemma NosysTakesFallback(resource: U32, legacy: RawRlimit32)
    ensures GetRlimit32Bit(resource, Err(NOSYS), legacy)
      == Run(DecodeLegacyAsWritten(legacy), [Prlimit64(0, resource), GetRlimit(resource)])
  {
  }

  /** `getrlimit` on a 32-bit target with the fallback corrected. */
  function GetRlimit32BitIntended(resource: U32, prlimit: Outcome<RawRlimit64>, legacy: RawRlimit32): (run: Run<Rlimit>)
    ensures prlimit.Ok? ==> run.calls == [Prlimit64(0, resource)]
    ensures prlimit.Err? ==> run.calls == [Prlimit64(0, resource), GetRlimit(resource)]
    ensures prlimit.Ok? ==> run.result == DecodeRlimit64(prlimit.value, RLIM64_INFINITY)
    ensures prlimit.Err? ==> run.result == DecodeRlimit64(Widen(legacy), RLIM64_INFINITY)
  {
    FallbackAgreesWithPrlimit64(legacy);
    match prlimit
    case Ok(raw) => Run(DecodeRlimit64(raw, RLIM64_INFINITY), [Prlimit64(0, resource)])
    case Err(_) => Run(DecodeLegacy(legacy), [Prlimit64(0, resource), GetRlimit(resource)])
  }

  /** On both widths the result does not depend on how the reply was
      obtained: a 32-bit target whose prlimit64 succeeds reports what a
      64-bit target reports for the same struct. */
  lemma WidthsAgree(resource: U32, reply: RawRlimit64, legacy: RawRlimit32)
    ensures GetRlimit32Bit(resource, Ok(reply), legacy) == GetRlimit64Bit(resource, reply)
  {
  }
}
