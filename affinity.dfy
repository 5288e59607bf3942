/**
 `sched_getaffinity`: fill the caller's CPU-set buffer in place.

 The kernel copies its CPU mask into the front of the buffer and returns
 how many bytes it wrote; the wrapper then zeroes every byte after those,
 so that nothing left over from before the call reads as a CPU.
 */
module Affinity {
  import opened Abi

  /** Size of `RawCpuSet` (`cpu_set_t`, 1024 CPUs) in bytes. */
  const CPU_SET_BYTES: nat := 128

  function Zeros(k: nat): (z: seq<bv8>)
    ensures |z| == k && forall i :: 0 <= i < k ==> z[i] == 0
  {
    seq(k, _ => 0)
  }

  /** The buffer after the call: on success the kernel's bytes followed by
      zeros up to the buffer size; on error the buffer as it was. */
  function AfterGetaffinity(before: seq<bv8>, reply: Outcome<seq<bv8>>): (after: seq<bv8>)
    requires reply.Ok? ==> |reply.value| <= |before|
    ensures |after| == |before|
  {
    match reply
    case Err(_) => before
    case Ok(written) => written + Zeros(|before| - |written|)
  }

  /** `sched_getaffinity(pid, cpuset)`. `reply` is the kernel's answer: on
      success the bytes it copied out, whose count is the size it returns
      (never more than the buffer it was given). */
  method SchedGetaffinity(pid: Option<Pid>, cpuset: array<bv8>, reply: Outcome<seq<bv8>>)
    returns (run: Run<Outcome<()>>)
    requires cpuset.Length == CPU_SET_BYTES
    requires reply.Ok? ==> |reply.value| <= CPU_SET_BYTES
    modifies cpuset
    ensures run.calls == [SchedGetaffinityCall(PidAsRaw(pid), CPU_SET_BYTES)]
    ensures run.result.Ok? <==> reply.Ok?
    ensures reply.Err? ==> run.result.error == reply.error
    ensures cpuset[..] == AfterGetaffinity(old(cpuset[..]), reply)
  {
    var call := SchedGetaffinityCall(PidAsRaw(pid), CPU_SET_BYTES);
    match reply {
      case Err(e) =>
        run := Run(Err(e), [call]);
      case Ok(written) =>
        // The kernel's copy into the front of the buffer.
        forall i | 0 <= i < |written| {
          cpuset[i] := written[i];
        }
        // `write_bytes(0, size_of::<RawCpuSet>() - size)` from byte `size` on.
        var size := |written|;
        var i := size;
        while i < cpuset.Length
          invariant size <= i <= cpuset.Length
          invariant forall k :: 0 <= k < size ==> cpuset[k] == written[k]
          invariant forall k :: size <= k < i ==> cpuset[k] == 0
        {
          cpuset[i] := 0;
          i := i + 1;
        }
        assert cpuset[..] == written + Zeros(CPU_SET_BYTES - size);
        run := Run(Ok(()), [call]);
    }
  }

  /** Byte by byte: on success the first `size` bytes are the kernel's and
      all later ones are zero; on error nothing changes. */
  lemma GetaffinityBytes(before: seq<bv8>, reply: Outcome<seq<bv8>>)
    requires reply.Ok? ==> |reply.value| <= |before|
    ensures reply.Err? ==> AfterGetaffinity(before, reply) == before
    ensures reply.Ok? ==> forall i :: 0 <= i < |reply.value| ==> AfterGetaffinity(before, reply)[i] == reply.value[i]
    ensures reply.Ok? ==> forall i :: |reply.value| <= i < |before| ==> AfterGetaffinity(before, reply)[i] == 0
  {
  }

  // The CPU count below is not computed by the wrapper itself: it is the
  // reading of the buffer (`CPU_COUNT`) in which GetaffinityCpuCount states
  // that the zeroed tail contributes no CPU.

  /** Number of set bits among the lowest `k` bits of a byte. */
  function BitCount(b: bv8, k: nat): (n: nat)
    requires k <= 8
    ensures n <= k
  {
    if k == 0 then 0 else BitCount(b, k - 1) + (if (b >> (k - 1)) & 1 == 1 then 1 else 0)
  }

  /** `CPU_COUNT`: how many CPUs a CPU-set buffer holds. */
  function CpuCount(s: seq<bv8>): (n: nat)
    ensures n <= 8 * |s|
  {
    if s == [] then 0 else CpuCount(s[..|s| - 1]) + BitCount(s[|s| - 1], 8)
  }

  lemma {:induction false} CpuCountAppend(a: seq<bv8>, b: seq<bv8>)
    ensures CpuCount(a + b) == CpuCount(a) + CpuCount(b)
  {
    if b == [] {
      assert a + b == a;
    } else {
      assert (a + b)[..|a + b| - 1] == a + b[..|b| - 1];
      CpuCountAppend(a, b[..|b| - 1]);
    }
  }

  lemma {:induction false} ZeroByteHoldsNoCpu(k: nat)
    requires k <= 8
    ensures BitCount(0, k) == 0
  {
    if k > 0 {
      ZeroByteHoldsNoCpu(k - 1);
    }
  }

  lemma {:induction false} CpuCountZeros(k: nat)
    ensures CpuCount(Zeros(k)) == 0
  {
    if k > 0 {
      assert Zeros(k)[..k - 1] == Zeros(k - 1);
      CpuCountZeros(k - 1);
      ZeroByteHoldsNoCpu(8);
    }
  }

  /** After a successful call the buffer holds exactly the CPUs the kernel
      reported: the zeroed tail adds none, so there are at most eight per
      byte the kernel wrote, however large the buffer. */
  lemma GetaffinityCpuCount(before: seq<bv8>, written: seq<bv8>)
    requires |written| <= |before|
    ensures CpuCount(AfterGetaffinity(before, Ok(written))) == CpuCount(written)
    ensures CpuCount(AfterGetaffinity(before, Ok(written))) <= 8 * |written|
  {
    var tail := Zeros(|before| - |written|);
    assert AfterGetaffinity(before, Ok(written)) == written + tail;
    CpuCountAppend(written, tail);
    CpuCountZeros(|before| - |written|);
  }
}
