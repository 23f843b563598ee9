/** Process and thread control blocks (`kernel/src/process/structs.rs`):
    the process id, the per-process tables, registration of a thread with its
    process, and building a user process from an ELF image. */
module ProcessStructs {
  import opened Wrappers
  import opened Seqs
  import opened Memory
  import opened Elf
  import opened Arch

  // ---------------------------------------------------------------------------
  // Process id

  /** The id of a process: unset until its first thread registers, then the
      id of that thread for good. */
  class Pid {
    var id: Option<nat>

    constructor Uninitialized()
      ensures id == None
    {
      id := None;
    }

    /** Sets the id to `tid` if it was unset; returns whether it was. A set id
        is never changed. */
    method SetIfUninitialized(tid: nat) returns (first: bool)
      modifies this`id
      ensures first <==> old(id).None?
      ensures id == if first then Some(tid) else old(id)
    {
      if id == None {
        id := Some(tid);
        first := true;
      } else {
        first := false;
      }
    }

    /** The id; reading an unset id is a broken invariant (`unwrap`). */
    method Get() returns (n: nat)
      requires id.Some?
      ensures id == Some(n)
    {
      n := id.value;
    }

    /** Whether this is the id of the init process. */
    predicate IsInit()
      reads this
      ensures IsInit() <==> id == Some(0)
    {
      id == Some(0)
    }
  }

  // ---------------------------------------------------------------------------
  // Open files

  datatype OpenOptions = OpenOptions(read: bool, write: bool, append: bool)

  /** The inode behind a file handle: the console streams or any other one. */
  datatype INode = Stdin | Stdout | Node(ino: nat)

  datatype FileHandle = FileHandle(inode: INode, options: OpenOptions)

  datatype IpEndpoint = IpEndpoint(addr: seq<byte>, port: nat)

  datatype TcpSocketState = TcpSocketState(localEndpoint: Option<IpEndpoint>, isListening: bool)

  datatype UdpSocketState = UdpSocketState(remoteEndpoint: Option<IpEndpoint>)

  datatype SocketType = Raw | Tcp(tcp: TcpSocketState) | Udp(udp: UdpSocketState) | Icmp

  datatype SocketWrapper = SocketWrapper(handle: nat, socketType: SocketType)

  datatype FileLike = File(file: FileHandle) | Socket(socket: SocketWrapper)

  /** The smallest descriptor from `from` on that is not open. */
  function FirstFreeFrom(files: map<nat, FileLike>, from: nat): (fd: nat)
    ensures from <= fd && fd !in files
    ensures forall k :: from <= k < fd ==> k in files
    decreases set k | k in files && from <= k
  {
    if from !in files then from
    else
      var later := set k | k in files && from + 1 <= k;
      var here := set k | k in files && from <= k;
      assert from in here && from !in later;
      assert later < here;
      FirstFreeFrom(files, from + 1)
  }

  /** The descriptors a new user process starts with: 0 is standard input,
      read-only; 1 and 2 are standard output, write-only. */
  function StdFiles(): (fs: map<nat, FileLike>)
    ensures fs.Keys == {0, 1, 2}
    ensures fs[0].File? && fs[0].file.inode == Stdin && fs[0].file.options.read && !fs[0].file.options.write
    ensures forall fd :: fd in {1, 2} ==>
      fs[fd].File? && fs[fd].file.inode == Stdout && !fs[fd].file.options.read && fs[fd].file.options.write
  {
    map[
      0 := File(FileHandle(Stdin, OpenOptions(true, false, false))),
      1 := File(FileHandle(Stdout, OpenOptions(false, true, false))),
      2 := File(FileHandle(Stdout, OpenOptions(false, true, false)))]
  }

  /** With the standard descriptors open, the next free one is 3; with 1
      closed again, it is 1. */
  lemma StdFilesFreeFd()
    ensures FirstFreeFrom(StdFiles(), 0) == 3
    ensures FirstFreeFrom(StdFiles() - {1}, 0) == 1
  {
  }

  // ---------------------------------------------------------------------------
  // Processes, threads and the process registry

  /** A wait condition; only its identity matters here. */
  class Condvar {
    constructor ()
    {
    }
  }

  class Process {
    var memorySet: MemorySet
    var files: map<nat, FileLike>
    var cwd: string
    var futexes: map<nat, Condvar>

    const pid: Pid
    var parent: Process?
    var children: seq<Process>
    var threads: seq<nat>

    const childExit: Condvar
    var childExitCode: map<nat, nat>

    /** At most one wait condition per user address. */
    ghost predicate Valid()
      reads this
    {
      forall a, b :: a in futexes && b in futexes && a != b ==> futexes[a] != futexes[b]
    }

    /** No futex yet, no id, no children, no threads, no exit codes. */
    ghost predicate Unregistered()
      reads this, pid
    {
      futexes == map[] && pid.id == None && children == [] && threads == [] && childExitCode == map[]
    }

    constructor (memorySet: MemorySet, files: map<nat, FileLike>, cwd: string, parent: Process?)
      ensures this.memorySet == memorySet && this.files == files && this.cwd == cwd && this.parent == parent
      ensures fresh(pid) && fresh(childExit)
      ensures Valid() && Unregistered()
    {
      this.memorySet := memorySet;
      this.files := files;
      this.cwd := cwd;
      futexes := map[];
      pid := new Pid.Uninitialized();
      this.parent := parent;
      children := [];
      threads := [];
      childExit := new Condvar();
      childExitCode := map[];
    }

    /** `get_free_fd`: the least descriptor that is not open. */
    function GetFreeFd(): (fd: nat)
      reads this
      ensures fd !in files
      ensures forall k :: 0 <= k < fd ==> k in files
    {
      FirstFreeFrom(files, 0)
    }

    /** `get_futex`: the wait condition of `uaddr`, created on first use. */
    method GetFutex(uaddr: nat) returns (c: Condvar)
      requires Valid()
      modifies this`futexes
      ensures Valid()
      ensures uaddr in futexes && c == futexes[uaddr]
      ensures uaddr in old(futexes) ==> futexes == old(futexes)
      ensures uaddr !in old(futexes) ==> fresh(c) && futexes == old(futexes)[uaddr := c]
    {
      if uaddr !in futexes {
        var c0 := new Condvar();
        futexes := futexes[uaddr := c0];
      }
      c := futexes[uaddr];
    }
  }

  /** `PROCESSES`: process id to process. */
  class Registry {
    var table: map<nat, Process>

    constructor ()
      ensures table == map[]
    {
      table := map[];
    }
  }

  /** What a new user process finds on its stack: arguments, environment
      (always empty here) and the auxiliary vector. */
  datatype ProcInitInfo = ProcInitInfo(args: seq<string>, envs: map<string, string>, auxv: map<nat, nat>)

  /** Keys of the auxiliary vector (AMD64 psABI, section 3.4.3). */
  const AT_PHDR: nat := 3
  const AT_PHENT: nat := 4
  const AT_PHNUM: nat := 5
  const AT_PAGESZ: nat := 6

  predicate IsZeroOffsetLoad(h: ProgramHeader) { IsLoad(h) && h.offset == 0 }

  /** The auxiliary vector of a new user process. The entry size, the entry
      count and the page size are always there. The program-header address is
      taken from the first PT_PHDR header; failing that, from the first
      loadable segment at file offset 0 plus the header-table offset; failing
      that, it is left out. */
  function Auxv(elf: ElfFile): (m: map<nat, nat>)
    ensures m.Keys <= {AT_PHDR, AT_PHENT, AT_PHNUM, AT_PAGESZ}
    ensures AT_PHENT in m && m[AT_PHENT] == elf.phEntrySize
    ensures AT_PHNUM in m && m[AT_PHNUM] == |elf.headers|
    ensures AT_PAGESZ in m && m[AT_PAGESZ] == PAGE_SIZE
    ensures AT_PHDR in m <==>
      exists i :: 0 <= i < |elf.headers| && (IsPhdr(elf.headers[i]) || IsZeroOffsetLoad(elf.headers[i]))
    ensures forall i ::
      (0 <= i < |elf.headers| && IsPhdr(elf.headers[i]) &&
       (forall j :: 0 <= j < i ==> !IsPhdr(elf.headers[j]))) ==>
      AT_PHDR in m && m[AT_PHDR] == elf.headers[i].vaddr
    ensures forall i ::
      (0 <= i < |elf.headers| && IsZeroOffsetLoad(elf.headers[i]) &&
       (forall j :: 0 <= j < i ==> !IsZeroOffsetLoad(elf.headers[j])) &&
       (forall j :: 0 <= j < |elf.headers| ==> !IsPhdr(elf.headers[j]))) ==>
      AT_PHDR in m && m[AT_PHDR] == elf.headers[i].vaddr + elf.phOffset
  {
    var hs := elf.headers;
    var phdr :=
      match FindFirst(hs, IsPhdr)
      case Some(i) => map[AT_PHDR := hs[i].vaddr]
      case None =>
        match FindFirst(hs, IsZeroOffsetLoad)
        case Some(i) => map[AT_PHDR := hs[i].vaddr + elf.phOffset]
        case None => map[];
    phdr[AT_PHENT := elf.phEntrySize][AT_PHNUM := |hs|][AT_PAGESZ := PAGE_SIZE]
  }

  function InitInfo(elf: ElfFile, args: seq<string>): ProcInitInfo
  {
    ProcInitInfo(args, map[], Auxv(elf))
  }

  // ---------------------------------------------------------------------------
  // Building an address space from an ELF image

  /** Copying a segment does not slice out of bounds: its file bytes lie in
      the image and fit in its memory size. */
  predicate SegmentFits(h: ProgramHeader, input: seq<byte>)
  {
    h.fileSize <= h.memSize && (h.fileSize == 0 || h.offset + h.fileSize <= |input|)
  }

  predicate AllLoadsFit(hs: seq<ProgramHeader>, input: seq<byte>)
  {
    forall i :: 0 <= i < |hs| && IsLoad(hs[i]) ==> SegmentFits(hs[i], input)
  }

  /** How `memory_set_from` fails on `hs`, if it does: no loadable segment at
      all, or the first loadable segment that does not fit. */
  function SegmentsError(hs: seq<ProgramHeader>, input: seq<byte>): (e: Option<LoadError>)
    ensures e != Some(NotExecutable)
    ensures e.None? <==> (exists i :: 0 <= i < |hs| && IsLoad(hs[i])) && AllLoadsFit(hs, input)
    ensures e == Some(NoLoadSegment) <==> forall i :: 0 <= i < |hs| ==> !IsLoad(hs[i])
    ensures e.Some? && e.value.SegmentOutOfBounds? ==>
      e.value.index < |hs| && IsLoad(hs[e.value.index]) && !SegmentFits(hs[e.value.index], input) &&
      AllLoadsFit(hs[..e.value.index], input)
  {
    match FindFirst(hs, IsLoad)
    case None => Some(NoLoadSegment)
    case Some(_) =>
      match FindFirst(hs, h => IsLoad(h) && !SegmentFits(h, input))
      case None => None
      case Some(k) => Some(SegmentOutOfBounds(k))
  }

  /** The bytes of a segment that come from the file. */
  function FileBytes(h: ProgramHeader, input: seq<byte>): (bs: seq<byte>)
    requires h.fileSize == 0 || h.offset + h.fileSize <= |input|
    ensures |bs| == h.fileSize
  {
    if h.fileSize == 0 then [] else input[h.offset..h.offset + h.fileSize]
  }

  /** `mem` after loading one segment: its file bytes copied to its start, the
      rest up to its memory size zeroed. Other headers change nothing. */
  function LoadSegment(mem: map<nat, byte>, h: ProgramHeader, input: seq<byte>): map<nat, byte>
    requires IsLoad(h) ==> SegmentFits(h, input)
  {
    if !IsLoad(h) then mem
    else
      var copied := if h.fileSize != 0 then Store(mem, h.vaddr, Known(FileBytes(h, input))) else mem;
      Store(copied, h.vaddr + h.fileSize, Known(Zeros(h.memSize - h.fileSize)))
  }

  /** The bytes of a new address space after loading `hs` in order. */
  function LoadImage(hs: seq<ProgramHeader>, input: seq<byte>): map<nat, byte>
    requires AllLoadsFit(hs, input)
  {
    if hs == [] then map[]
    else
      var init := hs[..|hs| - 1];
      assert AllLoadsFit(init, input) by {
        forall i | 0 <= i < |init| && IsLoad(init[i]) ensures SegmentFits(init[i], input) {
          assert init[i] == hs[i];
        }
      }
      LoadSegment(LoadImage(init, input), hs[|hs| - 1], input)
  }

  /** One more header: the image of `hs[..i + 1]` is that of `hs[..i]` with
      `hs[i]` loaded over it. */
  lemma LoadImageStep(hs: seq<ProgramHeader>, input: seq<byte>, i: nat)
    requires i < |hs| && AllLoadsFit(hs[..i], input)
    requires IsLoad(hs[i]) ==> SegmentFits(hs[i], input)
    ensures AllLoadsFit(hs[..i + 1], input)
    ensures LoadImage(hs[..i + 1], input) == LoadSegment(LoadImage(hs[..i], input), hs[i], input)
    ensures LoadAreas(hs[..i + 1]) == LoadAreas(hs[..i]) + if IsLoad(hs[i]) then [AreaOf(hs[i])] else []
  {
    var pre := hs[..i + 1];
    assert pre[..i] == hs[..i];
    forall k | 0 <= k < |pre| && IsLoad(pre[k]) ensures SegmentFits(pre[k], input) {
      if k < i {
        assert pre[k] == hs[..i][k];
      }
    }
  }

  /** The first loadable header that does not fit is the error reported. */
  lemma FirstBadLoad(hs: seq<ProgramHeader>, input: seq<byte>, i: nat)
    requires i < |hs| && AllLoadsFit(hs[..i], input)
    requires IsLoad(hs[i]) && !SegmentFits(hs[i], input)
    ensures SegmentsError(hs, input) == Some(SegmentOutOfBounds(i))
  {
  }

  predicate Disjoint(h1: ProgramHeader, h2: ProgramHeader)
  {
    h1.vaddr + h1.memSize <= h2.vaddr || h2.vaddr + h2.memSize <= h1.vaddr
  }

  /** A loaded segment that no later segment overlaps holds its file bytes
      followed by zeros up to its memory size. */
  lemma {:induction false} LoadedSegmentBytes(hs: seq<ProgramHeader>, input: seq<byte>, i: nat)
    requires AllLoadsFit(hs, input)
    requires i < |hs| && IsLoad(hs[i])
    requires forall j :: i < j < |hs| && IsLoad(hs[j]) ==> Disjoint(hs[i], hs[j])
    ensures Slice(LoadImage(hs, input), hs[i].vaddr, hs[i].memSize) ==
            Known(FileBytes(hs[i], input) + Zeros(hs[i].memSize - hs[i].fileSize))
  {
    var h := hs[i];
    var init := hs[..|hs| - 1];
    var last := hs[|hs| - 1];
    var expected := Known(FileBytes(h, input) + Zeros(h.memSize - h.fileSize));
    var m := LoadImage(hs, input);
    assert AllLoadsFit(init, input) by {
      forall k | 0 <= k < |init| && IsLoad(init[k]) ensures SegmentFits(init[k], input) {
        assert init[k] == hs[k];
      }
    }
    var before := LoadImage(init, input);
    assert m == LoadSegment(before, last, input);
    if i == |hs| - 1 {
      var copied := if h.fileSize != 0 then Store(before, h.vaddr, Known(FileBytes(h, input))) else before;
      assert m == Store(copied, h.vaddr + h.fileSize, Known(Zeros(h.memSize - h.fileSize)));
      forall a: nat | h.vaddr <= a < h.vaddr + h.memSize
        ensures Read(m, a) == expected[a - h.vaddr]
      {
        if a < h.vaddr + h.fileSize {
          assert Read(m, a) == Read(copied, a);
        }
      }
    } else {
      forall k | i < k < |init| && IsLoad(init[k]) ensures Disjoint(h, init[k]) {
        assert init[k] == hs[k];
      }
      assert init[i] == h;
      LoadedSegmentBytes(init, input, i);
      forall a: nat | h.vaddr <= a < h.vaddr + h.memSize
        ensures Read(m, a) == Read(before, a)
      {
        if IsLoad(last) {
          assert Disjoint(h, last);
          var copied := if last.fileSize != 0 then Store(before, last.vaddr, Known(FileBytes(last, input))) else before;
          assert Read(copied, a) == Read(before, a);
        }
      }
    }
  }

  /** The copy run with the new address space active: the segment's file
      bytes (none when its file size is 0), then zeros up to its memory size. */
  method CopySegment(ms: MemorySet, h: ProgramHeader, input: seq<byte>)
    requires IsLoad(h) && SegmentFits(h, input)
    modifies ms`mem
    ensures ms.mem == LoadSegment(old(ms.mem), h, input)
  {
    if h.fileSize != 0 {
      ms.Write(h.vaddr, Known(input[h.offset..h.offset + h.fileSize]));
    }
    ms.Write(h.vaddr + h.fileSize, Known(Zeros(h.memSize - h.fileSize)));
  }

  /** `memory_set_from`: one area per loadable segment, in header order, with
      each segment's bytes loaded and its tail zeroed; the result is the
      header's entry point. */
  method MemorySetFrom(elf: ElfFile) returns (ms: MemorySet, r: Result<nat, LoadError>)
    ensures fresh(ms)
    ensures r.Failure? <==> SegmentsError(elf.headers, elf.input).Some?
    ensures r.Failure? ==> r.error == SegmentsError(elf.headers, elf.input).value
    ensures r.Success? ==> r.value == elf.entry
    ensures r.Success? ==> ms.areas == LoadAreas(elf.headers)
    ensures r.Success? ==> AllLoadsFit(elf.headers, elf.input) && ms.mem == LoadImage(elf.headers, elf.input)
  {
    var hs, input := elf.headers, elf.input;
    ms := new MemorySet();
    var entry := elf.entry;
    if FindFirst(hs, IsLoad).None? {
      // the lowest segment address is taken with `min().unwrap()`
      return ms, Failure(NoLoadSegment);
    }
    var bad := LoadSegments(ms, hs, input);
    if bad.Some? {
      FirstBadLoad(hs, input, bad.value);
      return ms, Failure(SegmentOutOfBounds(bad.value));
    }
    return ms, Success(entry);
  }

  /** The loop of `memory_set_from` over the program headers: for each
      loadable one, push its area, then copy its bytes. Stops at the first
      loadable segment that does not fit, which is returned. */
  method LoadSegments(ms: MemorySet, hs: seq<ProgramHeader>, input: seq<byte>) returns (bad: Option<nat>)
    requires ms.areas == [] && ms.mem == map[]
    modifies ms`areas, ms`mem
    ensures bad.Some? ==>
      bad.value < |hs| && IsLoad(hs[bad.value]) && !SegmentFits(hs[bad.value], input) &&
      AllLoadsFit(hs[..bad.value], input)
    ensures bad.None? ==>
      AllLoadsFit(hs, input) && ms.areas == LoadAreas(hs) && ms.mem == LoadImage(hs, input)
  {
    var i := 0;
    while i < |hs|
      invariant 0 <= i <= |hs|
      invariant AllLoadsFit(hs[..i], input)
      invariant ms.areas == LoadAreas(hs[..i])
      invariant ms.mem == LoadImage(hs[..i], input)
    {
      var h := hs[i];
      if IsLoad(h) {
        ms.Push(MemoryArea(h.vaddr, h.vaddr + h.memSize, ToAttr(h.flags), ""));
        if !SegmentFits(h, input) {
          // slicing the image or the target out of bounds panics
          return Some(i);
        }
        LoadImageStep(hs, input, i);
        CopySegment(ms, h, input);
      } else {
        LoadImageStep(hs, input, i);
      }
      i := i + 1;
    }
    assert hs[..i] == hs;
    return None;
  }

  predicate IsExecutableOrShared(elf: ElfFile)
  {
    elf.elfType == ET_EXEC || elf.elfType == ET_DYN
  }

  // ---------------------------------------------------------------------------
  // Threads

  class Thread {
    var context: ArchContext
    var clearChildTid: nat
    const proc: Process

    constructor (context: ArchContext, clearChildTid: nat, proc: Process)
      ensures this.context == context && this.clearChildTid == clearChildTid && this.proc == proc
    {
      this.context := context;
      this.clearChildTid := clearChildTid;
      this.proc := proc;
    }

    /** `new_init`: a placeholder context over an empty process. */
    static method NewInit() returns (t: Thread)
      ensures fresh(t) && fresh(t.proc) && fresh(t.proc.memorySet) && fresh(t.proc.pid)
      ensures t.context == Null && t.clearChildTid == 0
      ensures t.proc.memorySet.areas == [] && t.proc.memorySet.mem == map[]
      ensures t.proc.files == map[] && t.proc.cwd == "/" && t.proc.parent == null
      ensures t.proc.Valid() && t.proc.Unregistered()
    {
      var ms := new MemorySet();
      var p := new Process(ms, map[], "/", null);
      t := new Thread(Null, 0, p);
    }

    /** `new_kernel`: a kernel thread running `entry(arg)` in an empty process. */
    static method NewKernel(entry: nat, arg: nat) returns (t: Thread)
      ensures fresh(t) && fresh(t.proc) && fresh(t.proc.memorySet) && fresh(t.proc.pid)
      ensures t.context == KernelThread(entry, arg) && t.clearChildTid == 0
      ensures t.proc.memorySet.areas == [] && t.proc.memorySet.mem == map[]
      ensures t.proc.files == map[] && t.proc.cwd == "/" && t.proc.parent == null
      ensures t.proc.Valid() && t.proc.Unregistered()
    {
      var ms := new MemorySet();
      var p := new Process(ms, map[], "/", null);
      t := new Thread(KernelThread(entry, arg), 0, p);
    }

    /** `new_user`: a process built from an ELF image. Only executables and
        shared objects are accepted. The address space holds the segments and
        then the user stack, whose position depends on the image's word size;
        the standard descriptors are open. `pushAt` stands for
        `ProcInitInfo::push_at`, which lays out the initial stack and yields
        the new stack pointer. */
    static method NewUser(elf: ElfFile, args: seq<string>, layout: StackLayout,
                          pushAt: (ProcInitInfo, nat) -> nat)
      returns (r: Result<Thread, LoadError>)
      ensures !IsExecutableOrShared(elf) ==> r == Failure(NotExecutable)
      ensures IsExecutableOrShared(elf) ==>
        (r.Failure? <==> SegmentsError(elf.headers, elf.input).Some?)
      ensures IsExecutableOrShared(elf) && r.Failure? ==>
        r.error == SegmentsError(elf.headers, elf.input).value
      ensures r.Success? ==>
        fresh(r.value) && fresh(r.value.proc) && fresh(r.value.proc.memorySet) && fresh(r.value.proc.pid)
      ensures r.Success? ==>
        r.value.proc.memorySet.areas == LoadAreas(elf.headers) + [layout.Area(elf.is32)]
      ensures r.Success? ==>
        AllLoadsFit(elf.headers, elf.input) && r.value.proc.memorySet.mem == LoadImage(elf.headers, elf.input)
      ensures r.Success? ==>
        r.value.context == UserThread(elf.entry, pushAt(InitInfo(elf, args), layout.Top(elf.is32)), elf.is32)
      ensures r.Success? ==> r.value.clearChildTid == 0
      ensures r.Success? ==>
        r.value.proc.files == StdFiles() && r.value.proc.cwd == "/" && r.value.proc.parent == null
      ensures r.Success? ==> r.value.proc.Valid() && r.value.proc.Unregistered()
    {
      if !IsExecutableOrShared(elf) {
        return Failure(NotExecutable);
      }
      var ms, entry := MemorySetFrom(elf);
      if entry.Failure? {
        return Failure(entry.error);
      }
      var ustackTop := layout.Top(elf.is32);
      ms.Push(MemoryArea(layout.Bottom(elf.is32), ustackTop, MemoryAttr.Default().User(), "user_stack"));
      var initInfo := ProcInitInfo(args, map[], Auxv(elf));
      ustackTop := pushAt(initInfo, ustackTop);
      var files := map[];
      files := files[0 := File(FileHandle(Stdin, OpenOptions(true, false, false)))];
      files := files[1 := File(FileHandle(Stdout, OpenOptions(false, true, false)))];
      files := files[2 := File(FileHandle(Stdout, OpenOptions(false, true, false)))];
      var p := new Process(ms, files, "/", null);
      var t := new Thread(UserThread(entry.value, ustackTop, elf.is32), 0, p);
      return Success(t);
    }

    /** `fork`: a new process with a copy of this one's areas and bytes, file
        table and working directory, whose parent is this thread's process. */
    method Fork(tf: TrapFrame) returns (child: Thread)
      ensures fresh(child) && fresh(child.proc) && fresh(child.proc.memorySet) && fresh(child.proc.pid)
      ensures child.proc.memorySet.areas == proc.memorySet.areas
      ensures HoldsCopyOf(child.proc.memorySet.mem, proc.memorySet.mem, proc.memorySet.areas)
      ensures child.proc.files == proc.files && child.proc.cwd == proc.cwd && child.proc.parent == proc
      ensures child.proc.Valid() && child.proc.Unregistered()
      ensures child.context == Forked(tf) && child.clearChildTid == 0
    {
      var ms := proc.memorySet.Clone();
      var files := proc.files;
      var cwd := proc.cwd;
      var parent := proc;
      var i := 0;
      while i < |ms.areas|
        invariant 0 <= i <= |ms.areas|
        invariant ms.areas == proc.memorySet.areas
        invariant forall a: nat :: Read(ms.mem, a) == if Covered(ms.areas[..i], a) then Read(proc.memorySet.mem, a) else None
      {
        var area := ms.areas[i];
        // read in the current (parent's) address space, written in the new one
        var data := Slice(proc.memorySet.mem, area.start, area.Size());
        ms.Write(area.start, data);
        forall a: nat
          ensures Covered(ms.areas[..i + 1], a) <==> Covered(ms.areas[..i], a) || area.Contains(a)
        {
          CoveredPrefix(ms.areas, i, a);
        }
        i := i + 1;
      }
      assert ms.areas[..i] == ms.areas;
      var p := new Process(ms, files, cwd, parent);
      child := new Thread(Forked(tf), 0, p);
    }

    /** `clone`: a new thread in the same process. */
    method Clone(tf: TrapFrame, stackTop: nat, tls: nat, clearChildTid: nat) returns (t: Thread)
      ensures fresh(t) && t.proc == proc
      ensures t.context == Cloned(tf, stackTop, tls) && t.clearChildTid == clearChildTid
    {
      t := new Thread(Cloned(tf, stackTop, tls), clearChildTid, proc);
    }

    /** `set_tid`: the first thread to register gives its process its id and,
        if the process has a parent, joins the parent's children. Every thread
        is appended to the process's threads, and the process is (re)entered
        in the registry under its id. The parent must be another process: its
        lock is taken while this one's is held. */
    method SetTid(tid: nat, registry: Registry)
      requires proc.parent != proc
      modifies proc`threads, proc.pid`id, registry`table
      modifies (if proc.parent == null then {} else {proc.parent})`children
      ensures proc.threads == old(proc.threads) + [tid]
      ensures proc.pid.id == if old(proc.pid.id).None? then Some(tid) else old(proc.pid.id)
      ensures proc.parent != null && old(proc.pid.id).None? ==>
        proc.parent.children == old(proc.parent.children) + [proc]
      ensures proc.parent != null && old(proc.pid.id).Some? ==>
        proc.parent.children == old(proc.parent.children)
      ensures proc.pid.id.Some? && registry.table == old(registry.table)[proc.pid.id.value := proc]
    {
      var first := proc.pid.SetIfUninitialized(tid);
      if first && proc.parent != null {
        proc.parent.children := proc.parent.children + [proc];
      }
      proc.threads := proc.threads + [tid];
      var pid := proc.pid.Get();
      registry.table := registry.table[pid := proc];
    }
  }
}
