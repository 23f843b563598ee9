/** The older execution-context code (`kernel/src/process/context.rs`): user
    contexts built from an ELF image with a plain copy loop, fork by capturing
    every area and writing it back into a cloned address space, the record of
    address spaces under construction, and the swap-tracking walks over every
    page of an address space. */
module ProcessContext {
  import opened Wrappers
  import opened Seqs
  import opened Memory
  import opened Elf
  import opened Arch
  import opened Swap

  // ---------------------------------------------------------------------------
  // The record of address spaces under construction

  /** `memory_set_record()`: addresses of the address spaces being set up. */
  class MemorySetRecord {
    var entries: seq<nat>

    constructor ()
      ensures entries == []
    {
      entries := [];
    }

    method PushBack(p: nat)
      modifies this`entries
      ensures entries == old(entries) + [p]
    {
      entries := entries + [p];
    }

    /** `iter().position(|x| x == p)`: the first index holding `p`. */
    method Position(p: nat) returns (r: Option<nat>)
      ensures r == IndexOf(entries, p)
      ensures r.Some? ==> r.value < |entries| && entries[r.value] == p
      ensures r.None? <==> p !in entries
    {
      var i := 0;
      while i < |entries|
        invariant 0 <= i <= |entries|
        invariant forall j :: 0 <= j < i ==> entries[j] != p
      {
        if entries[i] == p {
          return Some(i);
        }
        i := i + 1;
      }
      return None;
    }

    /** `remove(i)` at an index that `Position` returned. */
    method Remove(i: nat)
      requires i < |entries|
      modifies this`entries
      ensures entries == RemoveAt(old(entries), i)
    {
      entries := entries[..i] + entries[i + 1..];
    }
  }

  /** Register `ptr`, and later drop the first entry equal to it: the
      bracket around building an address space in `new_user` and `fork`. */
  method Unrecord(record: MemorySetRecord, ptr: nat)
    requires ptr in record.entries
    modifies record`entries
    ensures record.entries == RemoveFirst(old(record.entries), ptr)
  {
    var id := record.Position(ptr);
    record.Remove(id.value);
  }

  // ---------------------------------------------------------------------------
  // Building an address space from an ELF image

  /** `memory_set_from`: one area per loadable segment, in header order; no
      bytes are known yet. */
  method MemorySetFrom(elf: ElfFile) returns (ms: MemorySet)
    ensures fresh(ms)
    ensures ms.areas == LoadAreas(elf.headers) && ms.mem == map[]
  {
    var hs := elf.headers;
    ms := new MemorySet();
    var i := 0;
    while i < |hs|
      invariant 0 <= i <= |hs|
      invariant ms.areas == LoadAreas(hs[..i]) && ms.mem == map[]
    {
      var h := hs[i];
      assert hs[..i + 1][..i] == hs[..i];
      if IsLoad(h) {
        ms.Push(MemoryArea(h.vaddr, h.vaddr + h.memSize, ToAttr(h.flags), ""));
      }
      i := i + 1;
    }
    assert hs[..i] == hs;
  }

  /** A header with no file bytes: it ends the copy loop. */
  predicate NoFileBytes(h: ProgramHeader) { h.fileSize == 0 }

  /** How many headers the copy loop handles before it stops: up to the first
      one with no file bytes, whatever the header types. */
  function CopyStop(hs: seq<ProgramHeader>): (n: nat)
    ensures n <= |hs|
    ensures forall j :: 0 <= j < n ==> hs[j].fileSize != 0
    ensures n < |hs| ==> hs[n].fileSize == 0
  {
    match FindFirst(hs, NoFileBytes)
    case Some(k) => k
    case None => |hs|
  }

  /** The file bytes of `h` lie inside the image. */
  predicate CopyFits(h: ProgramHeader, data: seq<byte>)
  {
    h.offset + h.fileSize <= |data|
  }

  predicate AllCopiesFit(hs: seq<ProgramHeader>, data: seq<byte>)
  {
    forall j :: 0 <= j < |hs| ==> CopyFits(hs[j], data)
  }

  /** The first header the copy loop reaches whose bytes lie outside the
      image, if any: slicing them panics. */
  function CopyError(hs: seq<ProgramHeader>, data: seq<byte>): (e: Option<nat>)
    ensures e.None? <==> AllCopiesFit(hs[..CopyStop(hs)], data)
    ensures e.Some? ==>
      e.value < CopyStop(hs) && !CopyFits(hs[e.value], data) && AllCopiesFit(hs[..e.value], data)
  {
    var stop := CopyStop(hs);
    var r := FindFirst(hs[..stop], h => !CopyFits(h, data));
    if r.Some? then
      assert hs[..stop][r.value] == hs[r.value];
      assert forall j :: 0 <= j < r.value ==> hs[..r.value][j] == hs[..stop][j];
      r
    else
      r
  }

  /** `mem` after copying the file bytes of every header of `hs` to its
      address, in order. */
  function CopySegments(mem: map<nat, byte>, hs: seq<ProgramHeader>, data: seq<byte>): map<nat, byte>
    requires AllCopiesFit(hs, data)
  {
    if hs == [] then mem
    else
      var init, h := hs[..|hs| - 1], hs[|hs| - 1];
      assert forall j :: 0 <= j < |init| ==> init[j] == hs[j];
      Store(CopySegments(mem, init, data), h.vaddr, Known(data[h.offset..h.offset + h.fileSize]))
  }

  /** The bytes of the new address space after the copy step of `new_user`:
      the headers before the stop copied, and, for a 32-bit image whose loop
      ran to the end, the two 32-bit words below the stack top zeroed. */
  function CopyImage(elf: ElfFile, layout: StackLayout): map<nat, byte>
    requires CopyError(elf.headers, elf.input).None?
    requires 8 <= layout.Top(elf.is32)
  {
    var hs := elf.headers;
    var stop := CopyStop(hs);
    var copied := CopySegments(map[], hs[..stop], elf.input);
    var top := layout.Top(elf.is32);
    if elf.is32 && stop == |hs| then ZeroArgs(copied, top) else copied
  }

  /** `mem` with the two 32-bit words below `top` (argv, then argc) zeroed. */
  function ZeroArgs(mem: map<nat, byte>, top: nat): (m: map<nat, byte>)
    requires 8 <= top
    ensures forall a: nat :: Read(m, a) == if top - 8 <= a < top then Some(0) else Read(mem, a)
  {
    Store(Store(mem, top - 4, Known(Zeros(4))), top - 8, Known(Zeros(4)))
  }

  /** Whether `h` copies a byte to `a`. */
  predicate Writes(h: ProgramHeader, a: nat)
  {
    h.vaddr <= a < h.vaddr + h.fileSize
  }

  /** The target ranges of two headers do not overlap. */
  predicate CopiesDisjoint(h1: ProgramHeader, h2: ProgramHeader)
  {
    h1.vaddr + h1.fileSize <= h2.vaddr || h2.vaddr + h2.fileSize <= h1.vaddr
  }

  /** A byte copied by a header that no later header overwrites holds the
      matching byte of the image. */
  lemma {:induction false} CopiedByte(mem: map<nat, byte>, hs: seq<ProgramHeader>, data: seq<byte>, i: nat, a: nat)
    requires AllCopiesFit(hs, data)
    requires i < |hs| && Writes(hs[i], a)
    requires forall j :: i < j < |hs| ==> CopiesDisjoint(hs[i], hs[j])
    ensures Read(CopySegments(mem, hs, data), a) == Some(data[hs[i].offset + (a - hs[i].vaddr)])
  {
    var n := |hs| - 1;
    var init, last := hs[..n], hs[n];
    assert forall j :: 0 <= j < |init| ==> init[j] == hs[j];
    var before := CopySegments(mem, init, data);
    assert CopySegments(mem, hs, data) == Store(before, last.vaddr, Known(data[last.offset..last.offset + last.fileSize]));
    if i < n {
      CopiedByte(mem, init, data, i, a);
      assert CopiesDisjoint(hs[i], last);
    }
  }

  /** A copied header that no later header overwrites holds its file bytes. */
  lemma CopiedSegmentBytes(mem: map<nat, byte>, hs: seq<ProgramHeader>, data: seq<byte>, i: nat)
    requires AllCopiesFit(hs, data)
    requires i < |hs|
    requires forall j :: i < j < |hs| ==> CopiesDisjoint(hs[i], hs[j])
    ensures Slice(CopySegments(mem, hs, data), hs[i].vaddr, hs[i].fileSize) ==
            Known(data[hs[i].offset..hs[i].offset + hs[i].fileSize])
  {
    var h := hs[i];
    forall a: nat | h.vaddr <= a < h.vaddr + h.fileSize
      ensures Read(CopySegments(mem, hs, data), a) == Some(data[h.offset + (a - h.vaddr)])
    {
      CopiedByte(mem, hs, data, i, a);
    }
  }

  /** The copy never zero-fills: an address that no header writes keeps what
      it held before. */
  lemma {:induction false} CopySegmentsUnwritten(mem: map<nat, byte>, hs: seq<ProgramHeader>, data: seq<byte>, a: nat)
    requires AllCopiesFit(hs, data)
    requires forall j :: 0 <= j < |hs| ==> !Writes(hs[j], a)
    ensures Read(CopySegments(mem, hs, data), a) == Read(mem, a)
  {
    if hs != [] {
      var init := hs[..|hs| - 1];
      assert forall j :: 0 <= j < |init| ==> init[j] == hs[j];
      CopySegmentsUnwritten(mem, init, data, a);
      assert !Writes(hs[|hs| - 1], a);
    }
  }

  /** In the new address space, an address that no header before the stop
      writes, and that is not one of the zeroed stack words, holds nothing
      known: headers after the stop, and segment tails past their file bytes,
      are never written. */
  lemma CopyImageUnwritten(elf: ElfFile, layout: StackLayout, a: nat)
    requires CopyError(elf.headers, elf.input).None?
    requires 8 <= layout.Top(elf.is32)
    requires forall j :: 0 <= j < CopyStop(elf.headers) ==> !Writes(elf.headers[j], a)
    requires !(elf.is32 && CopyStop(elf.headers) == |elf.headers| &&
               layout.Top(elf.is32) - 8 <= a < layout.Top(elf.is32))
    ensures Read(CopyImage(elf, layout), a) == None
  {
    var hs := elf.headers;
    var pre := hs[..CopyStop(hs)];
    assert forall j :: 0 <= j < |pre| ==> pre[j] == hs[j];
    CopySegmentsUnwritten(map[], pre, elf.input, a);
  }

  /** For a 32-bit image whose copy loop ran to the end, the eight bytes
      below the stack top (argv, then argc) are zero. */
  lemma StackWordsZeroed(elf: ElfFile, layout: StackLayout)
    requires CopyError(elf.headers, elf.input).None?
    requires 8 <= layout.Top(elf.is32)
    requires elf.is32 && CopyStop(elf.headers) == |elf.headers|
    ensures Slice(CopyImage(elf, layout), layout.Top(elf.is32) - 8, 8) == Known(Zeros(8))
  {
  }

  /** The header the copy loop fails on is the first bad one. */
  lemma FirstBadCopy(hs: seq<ProgramHeader>, data: seq<byte>, i: nat)
    requires i < |hs| && hs[i].fileSize != 0
    requires forall j :: 0 <= j < i ==> hs[j].fileSize != 0
    requires AllCopiesFit(hs[..i], data) && !CopyFits(hs[i], data)
    ensures CopyError(hs, data) == Some(i)
  {
    var stop := CopyStop(hs);
    assert i < stop;
    var e := CopyError(hs, data);
    assert !AllCopiesFit(hs[..stop], data) by {
      assert hs[..stop][i] == hs[i];
    }
  }

  /** One more header copied. */
  lemma CopySegmentsStep(mem: map<nat, byte>, hs: seq<ProgramHeader>, data: seq<byte>, i: nat)
    requires i < |hs| && AllCopiesFit(hs[..i], data) && CopyFits(hs[i], data)
    ensures AllCopiesFit(hs[..i + 1], data)
    ensures CopySegments(mem, hs[..i + 1], data) ==
            Store(CopySegments(mem, hs[..i], data), hs[i].vaddr, Known(data[hs[i].offset..hs[i].offset + hs[i].fileSize]))
  {
    var pre := hs[..i + 1];
    assert pre[..i] == hs[..i];
    forall j | 0 <= j < |pre| ensures CopyFits(pre[j], data) {
      if j < i {
        assert pre[j] == hs[..i][j];
      }
    }
  }

  /** The bytes of every area, one buffer per area in order, as read in the
      active address space `mem`. */
  function Capture(mem: map<nat, byte>, areas: seq<MemoryArea>): (datas: seq<seq<Option<byte>>>)
    ensures |datas| == |areas| &&
      (forall k :: 0 <= k < |areas| ==> |datas[k]| == areas[k].Size()) &&
      (forall k, a: nat :: 0 <= k < |areas| && areas[k].Contains(a) ==>
        datas[k][a - areas[k].start] == Read(mem, a))
  {
    seq(|areas|, k requires 0 <= k < |areas| => Slice(mem, areas[k].start, areas[k].Size()))
  }

  // ---------------------------------------------------------------------------
  // Page walks for the swap subsystem

  /** Calls `op` for every page of `area`, in increasing address order
      (`Page::range_of(start, end)`). */
  method ForEachPageOfArea(ms: MemorySet, area: MemoryArea, swap: SwapTable, op: SwapOp)
    modifies swap`calls
    ensures swap.calls == old(swap.calls) + Calls(op, ms, AreaPages(area))
  {
    var first, last := FirstPage(area), EndPage(area);
    ghost var ps := AreaPages(area);
    var page := first;
    while page < last
      invariant first <= page && (page <= last || page == first)
      invariant swap.calls == old(swap.calls) + Calls(op, ms, ps[..page - first])
    {
      var addr := page * PAGE_SIZE;
      if op == SwapOp.SetSwappable {
        swap.SetSwappable(ms, addr);
      } else {
        swap.RemoveFromSwappable(ms, addr);
      }
      assert ps[..page + 1 - first] == ps[..page - first] + [addr];
      CallsAppend(op, ms, ps[..page - first], [addr]);
      page := page + 1;
    }
    assert ps[..page - first] == ps;
  }

  /** Calls `op` for every page of every area of `ms`, area by area. */
  method ForEachPage(ms: MemorySet, swap: SwapTable, op: SwapOp)
    modifies swap`calls
    ensures swap.calls == old(swap.calls) + Calls(op, ms, PageAddrs(ms.areas))
  {
    var areas := ms.areas;
    var i := 0;
    while i < |areas|
      invariant 0 <= i <= |areas|
      invariant swap.calls == old(swap.calls) + Calls(op, ms, PageAddrs(areas[..i]))
    {
      ForEachPageOfArea(ms, areas[i], swap, op);
      assert areas[..i + 1][..i] == areas[..i];
      CallsAppend(op, ms, PageAddrs(areas[..i]), AreaPages(areas[i]));
      i := i + 1;
    }
    assert areas[..i] == areas;
  }

  /** `memory_set_map_swappable`: every page of every area made swappable. */
  method MemorySetMapSwappable(ms: MemorySet, swap: SwapTable)
    modifies swap`calls
    ensures swap.calls == old(swap.calls) + Calls(SwapOp.SetSwappable, ms, PageAddrs(ms.areas))
  {
    ForEachPage(ms, swap, SwapOp.SetSwappable);
  }

  /** The 32-bit-only tail of the copy closure. */
  method ZeroArgsIn(ms: MemorySet, top: nat)
    requires 8 <= top
    modifies ms`mem
    ensures ms.mem == ZeroArgs(old(ms.mem), top)
  {
    ms.Write(top - 4, Known(Zeros(4)));
    ms.Write(top - 8, Known(Zeros(4)));
  }

  /** The closure `new_user` runs with the new address space active: copy
      each header's file bytes to its address until a header has none (which
      ends the closure), then zero argc and argv below the 32-bit stack top.
      Returns the header whose bytes lie outside the image, if any. */
  method CopyIn(ms: MemorySet, elf: ElfFile, layout: StackLayout) returns (bad: Option<nat>)
    requires 8 <= layout.Top(elf.is32)
    requires ms.mem == map[]
    modifies ms`mem
    ensures bad == CopyError(elf.headers, elf.input)
    ensures bad.None? ==> ms.mem == CopyImage(elf, layout)
  {
    var hs, data := elf.headers, elf.input;
    var userStackTop := layout.Top(elf.is32);
    var stopped := false;
    var i := 0;
    while i < |hs|
      invariant 0 <= i <= |hs| && !stopped
      invariant forall j :: 0 <= j < i ==> hs[j].fileSize != 0
      invariant AllCopiesFit(hs[..i], data)
      invariant ms.mem == CopySegments(map[], hs[..i], data)
    {
      var h := hs[i];
      if h.fileSize == 0 {
        stopped := true;
        break;
      }
      if !CopyFits(h, data) {
        // slicing the image out of bounds panics
        FirstBadCopy(hs, data, i);
        return Some(i);
      }
      CopySegmentsStep(map[], hs, data, i);
      ms.Write(h.vaddr, Known(data[h.offset..h.offset + h.fileSize]));
      i := i + 1;
    }
    assert i == CopyStop(hs);
    assert CopyError(hs, data).None?;
    if elf.is32 && !stopped {
      ZeroArgsIn(ms, userStackTop);
    }
    return None;
  }

  // ---------------------------------------------------------------------------
  // Execution contexts

  class ContextImpl {
    var arch: ArchContext
    const memorySet: MemorySet

    constructor (arch: ArchContext, memorySet: MemorySet)
      ensures this.arch == arch && this.memorySet == memorySet
    {
      this.arch := arch;
      this.memorySet := memorySet;
    }

    /** `new_init`: a placeholder context with an empty address space. */
    static method NewInit() returns (c: ContextImpl)
      ensures fresh(c) && fresh(c.memorySet)
      ensures c.arch == Null && c.memorySet.areas == [] && c.memorySet.mem == map[]
    {
      var ms := new MemorySet();
      c := new ContextImpl(Null, ms);
    }

    /** `new_kernel`: a kernel thread running `entry(arg)`. */
    static method NewKernel(entry: nat, arg: nat) returns (c: ContextImpl)
      ensures fresh(c) && fresh(c.memorySet)
      ensures c.arch == KernelThread(entry, arg) && c.memorySet.areas == [] && c.memorySet.mem == map[]
    {
      var ms := new MemorySet();
      c := new ContextImpl(KernelThread(entry, arg), ms);
    }

    /** `new_user`: only executables are accepted. The address space holds
        the segment areas and then the user stack; the copy step writes each
        header's file bytes until the first header without any, and zeroes
        argc and argv for a 32-bit image only when it got through all
        headers. The user stack pointer starts 8 bytes below the stack top.
        `ptr` is the address of the address space while it is built. */
    static method NewUser(elf: ElfFile, layout: StackLayout, record: MemorySetRecord, ptr: nat)
      returns (r: Result<ContextImpl, LoadError>)
      requires 8 <= layout.Top(elf.is32)
      modifies record`entries
      ensures elf.elfType != ET_EXEC ==> r == Failure(NotExecutable) && record.entries == old(record.entries)
      ensures elf.elfType == ET_EXEC ==> (r.Failure? <==> CopyError(elf.headers, elf.input).Some?)
      ensures elf.elfType == ET_EXEC && r.Failure? ==>
        r.error == SegmentOutOfBounds(CopyError(elf.headers, elf.input).value) &&
        record.entries == old(record.entries) + [ptr]
      ensures r.Success? ==> fresh(r.value) && fresh(r.value.memorySet)
      ensures r.Success? ==> r.value.memorySet.areas == LoadAreas(elf.headers) + [layout.Area(elf.is32)]
      ensures r.Success? ==>
        CopyError(elf.headers, elf.input).None? && r.value.memorySet.mem == CopyImage(elf, layout)
      ensures r.Success? ==> r.value.arch == UserThread(elf.entry, layout.Top(elf.is32) - 8, elf.is32)
      ensures r.Success? ==> record.entries == RemoveFirst(old(record.entries) + [ptr], ptr)
    {
      if elf.elfType != ET_EXEC {
        return Failure(NotExecutable);
      }
      var is32 := elf.is32;
      var userStackBottom, userStackTop := layout.Bottom(is32), layout.Top(is32);
      var ms := MemorySetFrom(elf);
      record.PushBack(ptr);
      ms.Push(MemoryArea(userStackBottom, userStackTop, MemoryAttr.Default().User(), "user_stack"));
      var entryAddr := elf.entry;

      var bad := CopyIn(ms, elf, layout);
      if bad.Some? {
        return Failure(SegmentOutOfBounds(bad.value));
      }

      Unrecord(record, ptr);
      var c := new ContextImpl(UserThread(entryAddr, userStackTop - 8, is32), ms);
      return Success(c);
    }

    /** `fork`: a cloned address space into which every area's bytes, as
        captured from this one, are written back; the arch context is built
        from the trap frame. */
    method Fork(tf: TrapFrame, record: MemorySetRecord, ptr: nat) returns (c: ContextImpl)
      modifies record`entries
      ensures fresh(c) && fresh(c.memorySet)
      ensures c.memorySet.areas == memorySet.areas
      ensures HoldsCopyOf(c.memorySet.mem, memorySet.mem, memorySet.areas)
      ensures c.arch == Forked(tf)
      ensures record.entries == RemoveFirst(old(record.entries) + [ptr], ptr)
    {
      var ms := memorySet.Clone();
      record.PushBack(ptr);

      // captured while this address space is active
      var datas := Capture(memorySet.mem, ms.areas);

      // buffer k written into area k with the new address space active
      var i := 0;
      while i < |ms.areas|
        invariant 0 <= i <= |ms.areas|
        invariant ms.areas == memorySet.areas && |datas| == |ms.areas|
        invariant forall a: nat :: Read(ms.mem, a) == if Covered(ms.areas[..i], a) then Read(memorySet.mem, a) else None
        invariant record.entries == old(record.entries) + [ptr]
      {
        var area := ms.areas[i];
        ms.Write(area.start, datas[i]);
        forall a: nat
          ensures Covered(ms.areas[..i + 1], a) <==> Covered(ms.areas[..i], a) || area.Contains(a)
        {
          CoveredPrefix(ms.areas, i, a);
        }
        i := i + 1;
      }
      assert ms.areas[..i] == ms.areas;

      Unrecord(record, ptr);
      c := new ContextImpl(Forked(tf), ms);
    }

    /** `drop`: every page of every area taken out of the swap subsystem. */
    method Drop(swap: SwapTable)
      modifies swap`calls
      ensures swap.calls == old(swap.calls) + Calls(SwapOp.RemoveFromSwappable, memorySet, PageAddrs(memorySet.areas))
    {
      ForEachPage(memorySet, swap, SwapOp.RemoveFromSwappable);
    }
  }
}
