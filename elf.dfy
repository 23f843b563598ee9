/** The parsed view of an ELF image that the loaders consume, and the part
    of the address-space layout that both loaders derive from it the same way:
    one area per loadable segment, with attributes from the segment flags. */
module Elf {
  import opened Memory

  /** `e_type` values of the ELF header (System V ABI, "ELF Header"). */
  const ET_EXEC: nat := 2
  const ET_DYN: nat := 3

  /** `p_type` values of a program header (System V ABI, "Program Header"). */
  const PT_LOAD: nat := 1
  const PT_PHDR: nat := 6

  /** The execute bit of `p_flags`. */
  const PF_X: bv32 := 1

  /** One program header, the same for the 32- and the 64-bit layouts. */
  datatype ProgramHeader = ProgramHeader(
    kind: nat,
    flags: bv32,
    offset: nat,
    vaddr: nat,
    fileSize: nat,
    memSize: nat)

  /** A parsed image: the header fields the loaders read, its program headers
      (so `e_phnum` is `|headers|`), and the raw bytes of the file. */
  datatype ElfFile = ElfFile(
    is32: bool,
    elfType: nat,
    entry: nat,
    phOffset: nat,
    phEntrySize: nat,
    headers: seq<ProgramHeader>,
    input: seq<byte>)

  /** Why building a process from an image fails (the source panics). */
  datatype LoadError =
    | NotExecutable
    | NoLoadSegment
    | SegmentOutOfBounds(index: nat)

  predicate IsLoad(h: ProgramHeader) { h.kind == PT_LOAD }

  predicate IsPhdr(h: ProgramHeader) { h.kind == PT_PHDR }

  predicate IsExecute(flags: bv32) { flags & PF_X != 0 }

  /** `ToMemoryAttr::to_attr` / `memory_attr_from`: always user-accessible,
      executable exactly when the segment is, never marked read-only. */
  function ToAttr(flags: bv32): (attr: MemoryAttr)
    ensures attr.user && !attr.readonly
    ensures attr.execute <==> IsExecute(flags)
  {
    var attr := MemoryAttr.Default().User();
    if IsExecute(flags) then attr.Execute() else attr
  }

  /** The area a loadable segment occupies: `[vaddr, vaddr + mem_size)`. */
  function AreaOf(h: ProgramHeader): (area: MemoryArea)
    ensures area.start == h.vaddr && area.Size() == h.memSize
    ensures area.attr.user && (area.attr.execute <==> IsExecute(h.flags))
  {
    MemoryArea(h.vaddr, h.vaddr + h.memSize, ToAttr(h.flags), "")
  }

  /** The areas pushed for `hs`, in header order. */
  function LoadAreas(hs: seq<ProgramHeader>): seq<MemoryArea>
  {
    if hs == [] then []
    else
      var h := hs[|hs| - 1];
      LoadAreas(hs[..|hs| - 1]) + if IsLoad(h) then [AreaOf(h)] else []
  }

  /** The areas of a list of headers are the areas of its parts, in order,
      and a single header yields its area exactly when it is loadable. */
  lemma {:induction false} LoadAreasAppend(hs1: seq<ProgramHeader>, hs2: seq<ProgramHeader>)
    ensures LoadAreas(hs1 + hs2) == LoadAreas(hs1) + LoadAreas(hs2)
    decreases |hs2|
  {
    if hs2 == [] {
      assert hs1 + hs2 == hs1;
    } else {
      var init := hs2[..|hs2| - 1];
      var h := hs2[|hs2| - 1];
      assert (hs1 + hs2)[..|hs1 + hs2| - 1] == hs1 + init;
      LoadAreasAppend(hs1, init);
    }
  }

  lemma LoadAreasSingle(h: ProgramHeader)
    ensures LoadAreas([h]) == if IsLoad(h) then [AreaOf(h)] else []
  {
    assert [h][..0] == [];
  }

  /** Every pushed area is user-accessible, executable exactly when its
      segment is, and there is one per loadable header. */
  lemma {:induction false} LoadAreasShape(hs: seq<ProgramHeader>)
    ensures |LoadAreas(hs)| == |set i | 0 <= i < |hs| && IsLoad(hs[i])|
    ensures forall k :: 0 <= k < |LoadAreas(hs)| ==> LoadAreas(hs)[k].attr.user
  {
    if hs != [] {
      var init := hs[..|hs| - 1];
      LoadAreasShape(init);
      var before := set i | 0 <= i < |init| && IsLoad(init[i]);
      var all := set i | 0 <= i < |hs| && IsLoad(hs[i]);
      var last := |hs| - 1;
      if IsLoad(hs[last]) {
        assert all == before + {last};
        assert last !in before;
      } else {
        assert all == before;
      }
    }
  }
}
