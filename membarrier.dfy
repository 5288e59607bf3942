/**
 `membarrier_query`: which membarrier commands the running kernel supports.
 An absent or failing membarrier syscall is an expected condition, so any
 error degrades to the empty capability set instead of being reported.
 */
module Membarrier {
  import opened Abi

  const MEMBARRIER_CMD_QUERY: I32 := 0

  /** The capability set: one bit per membarrier command, exactly the bits
      the kernel reported. */
  datatype MembarrierQuery = MembarrierQuery(bits: bv32)

  const EMPTY: MembarrierQuery := MembarrierQuery(0)

  /** Whether every command bit in `cmd` is in the set. */
  predicate Contains(q: MembarrierQuery, cmd: bv32)
  {
    q.bits & cmd == cmd
  }

  /** The empty set contains no command. */
  lemma EmptyContainsNothing(cmd: bv32)
    requires cmd != 0
    ensures !Contains(EMPTY, cmd)
  {
  }

  /** `membarrier_query` with the kernel's (already decoded) reply, whose
      `u32` payload is taken as the 32-bit word it is. */
  function Query(reply: Outcome<bv32>): (run: Run<MembarrierQuery>)
    ensures run.calls == [MembarrierCall(MEMBARRIER_CMD_QUERY, 0)]
    ensures reply.Err? ==> run.result == EMPTY
    ensures reply.Ok? ==> run.result.bits == reply.value
  {
    Run(match reply
        case Ok(query) => MembarrierQuery(query)
        case Err(_) => EMPTY,
        [MembarrierCall(MEMBARRIER_CMD_QUERY, 0)])
  }

  /** A failed query reports no command as supported; a successful one
      reports a command exactly when the kernel set its bit. */
  lemma QueryContains(reply: Outcome<bv32>, cmd: bv32)
    requires cmd != 0
    ensures reply.Err? ==> !Contains(Query(reply).result, cmd)
    ensures reply.Ok? ==> (Contains(Query(reply).result, cmd) <==> reply.value & cmd == cmd)
  {
    if reply.Err? {
      EmptyContainsNothing(cmd);
    }
  }
}
