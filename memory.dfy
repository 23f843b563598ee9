/** The address-space handle the process code drives (`MemorySet`,
    `MemoryArea`, `MemoryAttr`): a list of mapped areas and an abstract map
    from virtual address to byte. An address that is not a key of the map holds
    whatever its frame happened to hold; the model knows nothing about it. */
module Memory {
  import opened Wrappers

  newtype byte = x: int | 0 <= x < 256

  /** Size of a page, and so of the `AT_PAGESZ` auxiliary entry. */
  const PAGE_SIZE: nat := 4096

  /** Access attributes of a mapped area. The process code only ever sets
      `user` and `execute`; `readonly` stays at its default. */
  datatype MemoryAttr = MemoryAttr(user: bool, readonly: bool, execute: bool)
  {
    static function Default(): MemoryAttr { MemoryAttr(false, false, false) }
    function User(): MemoryAttr { this.(user := true) }
    function Execute(): MemoryAttr { this.(execute := true) }
  }

  /** A mapped area `[start, end)`. */
  datatype MemoryArea = MemoryArea(start: nat, end: nat, attr: MemoryAttr, name: string)
  {
    function Size(): nat { if start <= end then end - start else 0 }
    predicate Contains(a: nat) { start <= a < end }
  }

  // ---------------------------------------------------------------------------
  // Bytes of an address space

  /** The byte at `a`, or None when its contents are unspecified. */
  function Read(mem: map<nat, byte>, a: nat): Option<byte>
  {
    if a in mem then Some(mem[a]) else None
  }

  /** The `len` bytes from `start` on, as `MemoryArea::as_slice` reads them. */
  function Slice(mem: map<nat, byte>, start: nat, len: nat): (s: seq<Option<byte>>)
    ensures |s| == len
    ensures forall i :: 0 <= i < len ==> s[i] == Read(mem, start + i)
  {
    seq(len, i requires 0 <= i < len => Read(mem, start + i))
  }

  /** Bytes whose value is known. */
  function Known(bs: seq<byte>): (s: seq<Option<byte>>)
    ensures |s| == |bs|
    ensures forall i :: 0 <= i < |bs| ==> s[i] == Some(bs[i])
  {
    seq(|bs|, i requires 0 <= i < |bs| => Some(bs[i]))
  }

  function Zeros(n: nat): (z: seq<byte>)
    ensures |z| == n
    ensures forall i :: 0 <= i < n ==> z[i] == 0
  {
    seq(n, i => 0)
  }

  /** `mem` after copying `buf` to `[start, start + |buf|)`; a byte of `buf`
      whose value is unspecified leaves the target byte unspecified too. */
  function Store(mem: map<nat, byte>, start: nat, buf: seq<Option<byte>>): (m: map<nat, byte>)
    ensures forall a: nat :: Read(m, a) == if start <= a < start + |buf| then buf[a - start] else Read(mem, a)
    decreases |buf|
  {
    if buf == [] then mem
    else
      var first := if buf[0].Some? then mem[start := buf[0].value] else mem - {start};
      Store(first, start + 1, buf[1..])
  }

  /** Reading back what was just stored gives the stored bytes. */
  lemma StoreThenSlice(mem: map<nat, byte>, start: nat, buf: seq<Option<byte>>)
    ensures Slice(Store(mem, start, buf), start, |buf|) == buf
  {
  }

  /** Whether some area of `areas` maps `a`. */
  ghost predicate Covered(areas: seq<MemoryArea>, a: nat)
  {
    exists k :: 0 <= k < |areas| && areas[k].Contains(a)
  }

  lemma CoveredPrefix(areas: seq<MemoryArea>, i: nat, a: nat)
    requires i < |areas|
    ensures Covered(areas[..i + 1], a) <==> Covered(areas[..i], a) || areas[i].Contains(a)
  {
    if Covered(areas[..i + 1], a) && !areas[i].Contains(a) {
      var k :| 0 <= k < i + 1 && areas[..i + 1][k].Contains(a);
      assert areas[..i][k].Contains(a);
    }
    if Covered(areas[..i], a) {
      var k :| 0 <= k < i && areas[..i][k].Contains(a);
      assert areas[..i + 1][k].Contains(a);
    }
    if areas[i].Contains(a) {
      assert areas[..i + 1][i].Contains(a);
    }
  }

  /** `child` holds exactly the bytes of `parent` inside the areas and nothing
      outside them: what an eager fork copy leaves in a fresh address space. */
  ghost predicate HoldsCopyOf(child: map<nat, byte>, parent: map<nat, byte>, areas: seq<MemoryArea>)
  {
    forall a: nat :: Read(child, a) == if Covered(areas, a) then Read(parent, a) else None
  }

  /** Area by area, an eager copy holds the same bytes as the original, with
      the same length. */
  lemma CopyMatchesPerArea(child: map<nat, byte>, parent: map<nat, byte>, areas: seq<MemoryArea>, k: nat)
    requires HoldsCopyOf(child, parent, areas)
    requires k < |areas|
    ensures Slice(child, areas[k].start, areas[k].Size()) == Slice(parent, areas[k].start, areas[k].Size())
  {
    var area := areas[k];
    forall a: nat | area.start <= a < area.start + area.Size()
      ensures Read(child, a) == Read(parent, a)
    {
      assert areas[k].Contains(a);
    }
  }

  // ---------------------------------------------------------------------------
  // The address-space handle

  class MemorySet {
    var areas: seq<MemoryArea>
    var mem: map<nat, byte>

    /** `MemorySet::new`: no areas, no known bytes. */
    constructor ()
      ensures areas == [] && mem == map[]
    {
      areas := [];
      mem := map[];
    }

    /** `MemorySet::push`: maps one more area, after the existing ones. */
    method Push(area: MemoryArea)
      modifies this`areas
      ensures areas == old(areas) + [area]
    {
      areas := areas + [area];
    }

    /** A copy into this address space while it is temporarily activated
        (`MemorySet::with` around a `copy_from_slice`). */
    method Write(start: nat, buf: seq<Option<byte>>)
      modifies this`mem
      ensures mem == Store(old(mem), start, buf)
    {
      mem := Store(mem, start, buf);
    }

    /** `MemorySet::clone`: the same areas in a new page table whose bytes
        are not yet copied. */
    method Clone() returns (c: MemorySet)
      ensures fresh(c)
      ensures c.areas == areas && c.mem == map[]
    {
      c := new MemorySet();
      c.areas := areas;
    }
  }

  // ---------------------------------------------------------------------------
  // Pages of an area, as `Page::range_of(start, end)` enumerates them

  function FirstPage(area: MemoryArea): nat
  {
    area.start / PAGE_SIZE
  }

  function EndPage(area: MemoryArea): nat
  {
    (area.end + PAGE_SIZE - 1) / PAGE_SIZE
  }

  /** Start addresses of the pages of `area`, in increasing order. */
  function AreaPages(area: MemoryArea): (ps: seq<nat>)
    ensures |ps| == if EndPage(area) <= FirstPage(area) then 0 else EndPage(area) - FirstPage(area)
    ensures forall k :: 0 <= k < |ps| ==> ps[k] == (FirstPage(area) + k) * PAGE_SIZE
  {
    var first, last := FirstPage(area), EndPage(area);
    if last <= first then [] else seq(last - first, k requires 0 <= k < last - first => (first + k) * PAGE_SIZE)
  }

  /** The pages of an area are exactly the page-aligned addresses whose page
      overlaps `[start, end)`, each listed once. */
  lemma AreaPagesExact(area: MemoryArea, p: nat)
    ensures p in AreaPages(area) <==> p % PAGE_SIZE == 0 && p < area.end && area.start < p + PAGE_SIZE
    ensures forall k1, k2 :: 0 <= k1 < k2 < |AreaPages(area)| ==> AreaPages(area)[k1] < AreaPages(area)[k2]
  {
    var ps := AreaPages(area);
    var first, last := FirstPage(area), EndPage(area);
    if p in ps {
      var k :| 0 <= k < |ps| && ps[k] == p;
      var q := first + k;
      assert p == q * PAGE_SIZE;
      assert q < last;
      assert p < area.end by {
        assert q * PAGE_SIZE < area.end by {
          DivBelow(area.end + PAGE_SIZE - 1, q);
        }
      }
      assert area.start < p + PAGE_SIZE by {
        DivAbove(area.start, q);
      }
    }
    if p % PAGE_SIZE == 0 && p < area.end && area.start < p + PAGE_SIZE {
      var q := p / PAGE_SIZE;
      assert p == q * PAGE_SIZE;
      assert first <= q by {
        DivMonotone(area.start, p + PAGE_SIZE - 1);
        assert (p + PAGE_SIZE - 1) / PAGE_SIZE == q;
      }
      assert q < last by {
        DivMonotone(p + PAGE_SIZE, area.end + PAGE_SIZE - 1);
        assert (p + PAGE_SIZE) / PAGE_SIZE == q + 1;
      }
      assert ps[q - first] == p;
    }
    forall k1, k2 | 0 <= k1 < k2 < |ps|
      ensures ps[k1] < ps[k2]
    {
      MulStrict(first + k1, first + k2);
    }
  }

  lemma DivBelow(x: nat, q: nat)
    requires q < x / PAGE_SIZE
    ensures q * PAGE_SIZE + PAGE_SIZE <= x
  {
  }

  lemma DivAbove(x: nat, q: nat)
    requires q >= x / PAGE_SIZE
    ensures x < q * PAGE_SIZE + PAGE_SIZE
  {
  }

  lemma DivMonotone(x: nat, y: nat)
    requires x <= y
    ensures x / PAGE_SIZE <= y / PAGE_SIZE
  {
  }

  lemma MulStrict(a: nat, b: nat)
    requires a < b
    ensures a * PAGE_SIZE < b * PAGE_SIZE
  {
  }

  /** The pages of every area, area by area in order: the visiting order of
      the nested loops over `memory_set.iter()` and `Page::range_of`. */
  function PageAddrs(areas: seq<MemoryArea>): seq<nat>
  {
    if areas == [] then [] else PageAddrs(areas[..|areas| - 1]) + AreaPages(areas[|areas| - 1])
  }

  /** Sum of the per-area page counts. */
  function TotalPages(areas: seq<MemoryArea>): nat
  {
    if areas == [] then 0 else TotalPages(areas[..|areas| - 1]) + |AreaPages(areas[|areas| - 1])|
  }

  /** The visit makes one step per page of each area, and no other. */
  lemma {:induction false} PageAddrsCount(areas: seq<MemoryArea>)
    ensures |PageAddrs(areas)| == TotalPages(areas)
  {
    if areas != [] {
      PageAddrsCount(areas[..|areas| - 1]);
    }
  }

  /** Whether `p` is a page of one of the areas. */
  ghost predicate PageOfSomeArea(areas: seq<MemoryArea>, p: nat)
  {
    exists k :: 0 <= k < |areas| && p in AreaPages(areas[k])
  }

  lemma PageOfSomeAreaLast(areas: seq<MemoryArea>, p: nat)
    requires areas != []
    ensures PageOfSomeArea(areas, p) <==>
      PageOfSomeArea(areas[..|areas| - 1], p) || p in AreaPages(areas[|areas| - 1])
  {
    var init := areas[..|areas| - 1];
    if PageOfSomeArea(init, p) {
      var k :| 0 <= k < |init| && p in AreaPages(init[k]);
      assert areas[k] == init[k];
    }
    if PageOfSomeArea(areas, p) {
      var k :| 0 <= k < |areas| && p in AreaPages(areas[k]);
      if k < |init| {
        assert init[k] == areas[k];
      }
    }
  }

  /** An address is visited iff it is a page of one of the areas. */
  lemma {:induction false} PageAddrsMembers(areas: seq<MemoryArea>, p: nat)
    ensures p in PageAddrs(areas) <==> PageOfSomeArea(areas, p)
  {
    if areas != [] {
      var init, last := areas[..|areas| - 1], areas[|areas| - 1];
      assert PageAddrs(areas) == PageAddrs(init) + AreaPages(last);
      PageAddrsMembers(init, p);
      PageOfSomeAreaLast(areas, p);
    }
  }
}
