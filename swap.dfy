/** The page-swapping subsystem behind `active_table_swap()`, seen from the
    process code: the calls it receives, in order. */
module Swap {
  import opened Memory

  datatype SwapOp = SetSwappable | RemoveFromSwappable

  /** One call into the swap subsystem; `table` stands for the page table of
      that address space. */
  datatype SwapCall = SwapCall(op: SwapOp, table: MemorySet, addr: nat)

  /** One call of kind `op` for each address of `addrs`, in order. */
  function Calls(op: SwapOp, table: MemorySet, addrs: seq<nat>): (cs: seq<SwapCall>)
    ensures |cs| == |addrs|
    ensures forall k :: 0 <= k < |addrs| ==> cs[k] == SwapCall(op, table, addrs[k])
  {
    seq(|addrs|, k requires 0 <= k < |addrs| => SwapCall(op, table, addrs[k]))
  }

  lemma CallsAppend(op: SwapOp, table: MemorySet, xs: seq<nat>, ys: seq<nat>)
    ensures Calls(op, table, xs + ys) == Calls(op, table, xs) + Calls(op, table, ys)
  {
  }

  class SwapTable {
    var calls: seq<SwapCall>

    constructor ()
      ensures calls == []
    {
      calls := [];
    }

    /** `set_swappable(pt, addr)`. */
    method SetSwappable(table: MemorySet, addr: nat)
      modifies this`calls
      ensures calls == old(calls) + [SwapCall(SwapOp.SetSwappable, table, addr)]
    {
      calls := calls + [SwapCall(SwapOp.SetSwappable, table, addr)];
    }

    /** `remove_from_swappable(pt, addr, alloc)`; the frame supplier is not
        part of the model. */
    method RemoveFromSwappable(table: MemorySet, addr: nat)
      modifies this`calls
      ensures calls == old(calls) + [SwapCall(SwapOp.RemoveFromSwappable, table, addr)]
    {
      calls := calls + [SwapCall(SwapOp.RemoveFromSwappable, table, addr)];
    }
  }
}
