// kernel/src/kcore/init.rs: how the memory map is divided at boot into the page table,
// the heap and the page allocator's range.
module BootLayout {
  import opened Wrappers
  import opened Bits
  import opened Blocks
  import opened FreeLists
  import opened BuddySystem
  import opened BuddyAllocators
  import opened HeapAllocators
  import opened PageAllocators

  const MAX_HEAP := 16 * 1024 * 1024

  datatype Target = X86 | Arm | Other {
    /** Size of the first-level table; it is aligned to its size. */
    function TableSize(): nat {
      match this
      case X86 => 4 * 1024
      case Arm => 16 * 1024
      case Other => 0
    }
  }

  datatype MemoryMap = MemoryMap(ramStart: nat, ramSize: nat, peripheralBase: nat, peripheralSize: nat) {
    function RamEnd(): nat {
      ramStart + ramSize
    }

    function PeripheralEnd(): nat {
      peripheralBase + peripheralSize
    }

    /** [start, end) does not meet the peripheral window. */
    predicate ClearOfMmio(start: nat, end: nat) {
      peripheralSize > 0 ==> end <= peripheralBase || start >= PeripheralEnd()
    }
  }

  /** The assertion that stops the boot. */
  datatype Panic = OutsideRam | KernelInMmio | TableInMmio | PagesInMmio

  datatype MemoryLayout = MemoryLayout(
    kernelEnd: nat, heapStart: nat, heapEnd: nat, pageStart: nat, pageEnd: nat, pageTable: Option<(nat, nat)>)
  {
    function Available(): nat {
      if heapStart <= pageEnd then pageEnd - heapStart else 0
    }
  }

  function FreeStart(kernelEnd: nat): nat {
    RoundUp(kernelEnd, PAGE_SIZE)
  }

  function TableRange(target: Target, free: nat): Option<(nat, nat)> {
    if target == Other then None
    else
      var start := RoundUp(free, target.TableSize());
      Some((start, start + target.TableSize()))
  }

  function AfterTable(pageTable: Option<(nat, nat)>, free: nat): nat {
    if pageTable == None then free else RoundUp(pageTable.value.1, PAGE_SIZE)
  }

  function UsableEnd(mm: MemoryMap, start: nat): nat {
    if mm.peripheralSize > 0 && mm.peripheralBase >= start && mm.peripheralBase < mm.RamEnd()
    then mm.peripheralBase
    else mm.RamEnd()
  }

  function HeapSize(available: nat): nat {
    if MAX_HEAP <= available / 10 then MAX_HEAP else available / 10
  }

  /** A tenth, rounded down, of what is there, and at most 16 MB. */
  ghost predicate IsTenth(size: int, available: int) {
    if available >= 10 * 0x100_0000 then size == 0x100_0000 else 10 * size <= available < 10 * size + 10
  }

  lemma HeapIsTenth(available: nat)
    ensures IsTenth(HeapSize(available), available)
  {
  }

  /** `x` is the first multiple of `m` from `a` on. */
  ghost predicate FirstMultiple(x: nat, a: nat, m: nat)
    requires m > 0
  {
    a <= x < a + m && x % m == 0
  }

  /** The ranges, before the last guard. */
  function Ranges(target: Target, mm: MemoryMap, kernelEnd: nat): MemoryLayout {
    var free := FreeStart(kernelEnd);
    var pageTable := TableRange(target, free);
    var start := AfterTable(pageTable, free);
    var usable := UsableEnd(mm, start);
    var heapEnd := start + HeapSize(if start <= usable then usable - start else 0);
    MemoryLayout(kernelEnd, start, heapEnd, RoundUp(heapEnd, PAGE_SIZE), usable, pageTable)
  }

  /** `setup_memory_management`'s arithmetic and its assertions, in their order */
  function Divide(target: Target, mm: MemoryMap, kernelEnd: nat): Result<MemoryLayout, Panic> {
    var free := FreeStart(kernelEnd);
    if !(mm.ramStart <= free < mm.RamEnd()) then Err(OutsideRam)
    else if mm.peripheralSize > 0 && mm.peripheralBase <= free < mm.PeripheralEnd() then Err(KernelInMmio)
    else
      var layout := Ranges(target, mm, kernelEnd);
      if layout.pageTable.Some? && !mm.ClearOfMmio(layout.pageTable.value.0, layout.pageTable.value.1) then Err(TableInMmio)
      else if !mm.ClearOfMmio(layout.pageStart, layout.pageEnd) then Err(PagesInMmio)
      else Ok(layout)
  }

  // ---- Rounding ----

  lemma RoundUpPages(a: nat)
    ensures a <= RoundUp(a, PAGE_SIZE) < a + PAGE_SIZE
    ensures RoundUp(a, PAGE_SIZE) % PAGE_SIZE == 0
    ensures a % PAGE_SIZE == 0 ==> RoundUp(a, PAGE_SIZE) == a
  {
    hide RoundUp;
    assert PAGE_SIZE == Pow2(12);
    RoundUpMeaning(a, 12);
    var u := RoundUp(a, PAGE_SIZE);
    if a % PAGE_SIZE == 0 && a < u {
      MultiplesApart(a, u, PAGE_SIZE);
    }
  }

  lemma TablePlaced(target: Target, free: nat)
    requires free % PAGE_SIZE == 0
    ensures var t := TableRange(target, free);
            && AfterTable(t, free) % PAGE_SIZE == 0 && free <= AfterTable(t, free)
            && (t.Some? ==> free <= t.value.0 < t.value.1 == AfterTable(t, free) && t.value.0 % target.TableSize() == 0)
            && (t == None <==> target == Other)
  {
    hide RoundUp, Pow2, Target.TableSize;
    if target != Other {
      var size := target.TableSize();
      var k := SizePower(target);
      RoundUpMeaning(free, k);
      var start := RoundUp(free, size);
      CoarserPow2(start, k, 12);
      SumOfMultiples(start, size, PAGE_SIZE);
      RoundUpPages(start + size);
    }
  }

  lemma SizePower(target: Target) returns (k: nat)
    requires target != Other
    ensures k >= 12 && target.TableSize() == Pow2(k) && target.TableSize() % PAGE_SIZE == 0
    ensures PAGE_SIZE == Pow2(12)
  {
    k := if target == X86 then 12 else 14;
    assert Pow2(12) == 4096;
    assert Pow2(14) == 2 * (2 * Pow2(12));
  }

  /** What the rounding leaves to reason about. */
  lemma RangesPlaced(target: Target, mm: MemoryMap, kernelEnd: nat)
    ensures var free, m := FreeStart(kernelEnd), Ranges(target, mm, kernelEnd);
            && kernelEnd <= free <= m.heapStart <= m.heapEnd <= m.pageStart
            && m.heapStart % PAGE_SIZE == 0 && m.pageStart % PAGE_SIZE == 0
            && m.pageEnd == UsableEnd(mm, m.heapStart)
            && m.heapEnd == m.heapStart + HeapSize(m.Available())
            && m.pageStart == RoundUp(m.heapEnd, PAGE_SIZE) < m.heapEnd + PAGE_SIZE
            && (m.pageTable == None ==> m.heapStart == free)
            && (m.pageTable.Some? ==> free <= m.pageTable.value.0 < m.pageTable.value.1 == m.heapStart)
  {
    hide RoundUp;
    RoundUpPages(kernelEnd);
    TablePlaced(target, FreeStart(kernelEnd));
    RoundUpPages(Ranges(target, mm, kernelEnd).heapEnd);
  }

  lemma FirstMultipleUnique(x: nat, y: nat, a: nat, m: nat)
    requires m > 0 && FirstMultiple(x, a, m) && FirstMultiple(y, a, m)
    ensures x == y
  {
    if x < y {
      MultiplesApart(x, y, m);
    } else if y < x {
      MultiplesApart(y, x, m);
    }
  }

  lemma RoundUpIsFirst(a: nat, target: Target)
    ensures FirstMultiple(RoundUp(a, 0x1000), a, 0x1000)
    ensures target != Other ==> target.TableSize() > 0 && FirstMultiple(RoundUp(a, target.TableSize()), a, target.TableSize())
  {
    RoundUpPages(a);
    if target != Other {
      var k := SizePower(target);
      RoundUpMeaning(a, k);
    }
  }

  // ---- Properties of the layout ----

  /**
   * The whole outcome in addresses.  `free` is the first page after the kernel and `table` the first place from there
   * for a table of 4 KB on x86, of 16 KB on ARM, aligned to its size; the heap begins behind it and takes a tenth of
   * what is left below the end of RAM, or below the peripherals if those come first; the pages follow on a page.
   */
  lemma DividedExactly(target: Target, mm: MemoryMap, kernelEnd: nat,
                       free: nat, table: nat, start: nat, end: nat, heapSize: nat, pageStart: nat)
    requires FirstMultiple(free, kernelEnd, 0x1000)
    requires target == X86 ==> FirstMultiple(table, free, 0x1000) && start == table + 0x1000
    requires target == Arm ==> FirstMultiple(table, free, 0x4000) && start == table + 0x4000
    requires target == Other ==> start == free
    requires end == if mm.peripheralSize > 0 && start <= mm.peripheralBase < mm.ramStart + mm.ramSize
                    then mm.peripheralBase else mm.ramStart + mm.ramSize
    requires IsTenth(heapSize, if start <= end then end - start else 0) && FirstMultiple(pageStart, start + heapSize, 0x1000)
    ensures var mmioEnd := mm.peripheralBase + mm.peripheralSize;
            Divide(target, mm, kernelEnd) ==
            if free < mm.ramStart || mm.ramStart + mm.ramSize <= free then Err(OutsideRam)
            else if mm.peripheralBase <= free < mmioEnd then Err(KernelInMmio)
            else if target != Other && mm.peripheralSize > 0 && mm.peripheralBase < start && table < mmioEnd then Err(TableInMmio)
            else Ok(MemoryLayout(kernelEnd, start, start + heapSize, pageStart, end, if target == Other then None else Some((table, start))))
  {
    hide RoundUp, FirstMultiple, HeapSize, IsTenth, FreeStart, Ranges, UsableEnd;
    TablePlacedExactly(target, kernelEnd, free, table, start);
    RangesExactly(target, mm, kernelEnd, free, start, end, heapSize, pageStart);
    GuardNeverFires(target, mm, kernelEnd);
  }

  lemma TablePlacedExactly(target: Target, kernelEnd: nat, free: nat, table: nat, start: nat)
    requires FirstMultiple(free, kernelEnd, 0x1000)
    requires target == X86 ==> FirstMultiple(table, free, 0x1000) && start == table + 0x1000
    requires target == Arm ==> FirstMultiple(table, free, 0x4000) && start == table + 0x4000
    requires target == Other ==> start == free
    ensures FreeStart(kernelEnd) == free
    ensures TableRange(target, free) == if target == Other then None else Some((table, start))
    ensures AfterTable(TableRange(target, free), free) == start
  {
    hide RoundUp, FirstMultiple;
    RoundUpIsFirst(kernelEnd, target);
    FirstMultipleUnique(free, FreeStart(kernelEnd), kernelEnd, 0x1000);
    RoundUpIsFirst(free, target);
    if target != Other {
      FirstMultipleUnique(table, RoundUp(free, target.TableSize()), free, target.TableSize());
    }
    RoundUpPages(kernelEnd);
    TablePlaced(target, free);
  }

  lemma RangesExactly(target: Target, mm: MemoryMap, kernelEnd: nat, free: nat, start: nat, end: nat, heapSize: nat, pageStart: nat)
    requires FreeStart(kernelEnd) == free && AfterTable(TableRange(target, free), free) == start
    requires end == if mm.peripheralSize > 0 && start <= mm.peripheralBase < mm.ramStart + mm.ramSize
                    then mm.peripheralBase else mm.ramStart + mm.ramSize
    requires IsTenth(heapSize, if start <= end then end - start else 0) && FirstMultiple(pageStart, start + heapSize, 0x1000)
    ensures Ranges(target, mm, kernelEnd) ==
            MemoryLayout(kernelEnd, start, start + heapSize, pageStart, end, TableRange(target, free))
  {
    hide RoundUp, FirstMultiple, HeapSize, FreeStart, TableRange, AfterTable;
    HeapIsTenth(if start <= end then end - start else 0);
    RoundUpIsFirst(start + heapSize, target);
    FirstMultipleUnique(pageStart, RoundUp(start + heapSize, 0x1000), start + heapSize, 0x1000);
  }

  /** Whatever the memory map, the earlier assertions leave the last guard nothing to catch. */
  lemma GuardNeverFires(target: Target, mm: MemoryMap, kernelEnd: nat)
    ensures Divide(target, mm, kernelEnd) != Err(PagesInMmio)
  {
    hide RoundUp, Ranges, FreeStart;
    RangesPlaced(target, mm, kernelEnd);
  }

  /**
   * In every layout that leaves any room, the ranges lie in order above the kernel, inside RAM and outside MMIO;
   * being ordered they are disjoint.
   */
  lemma RangesDisjoint(target: Target, mm: MemoryMap, kernelEnd: nat)
    requires Divide(target, mm, kernelEnd).Ok?
    requires var m := Divide(target, mm, kernelEnd).value; m.pageStart <= m.pageEnd
    ensures var m := Divide(target, mm, kernelEnd).value;
            && m.kernelEnd == kernelEnd <= m.heapStart <= m.heapEnd <= m.pageStart <= m.pageEnd <= mm.RamEnd()
            && mm.ramStart <= m.heapStart
            && mm.ClearOfMmio(m.heapStart, m.heapEnd) && mm.ClearOfMmio(m.pageStart, m.pageEnd)
            && (m.pageTable.Some? <==> target != Other)
            && (m.pageTable.Some? ==>
                  var (start, end) := m.pageTable.value;
                  && mm.ramStart <= start && kernelEnd <= start < end <= m.heapStart && mm.ClearOfMmio(start, end)
                  && end - start == target.TableSize() && start % target.TableSize() == 0)
  {
    hide RoundUp;
    RangesPlaced(target, mm, kernelEnd);
    RoundUpPages(kernelEnd);
    TablePlaced(target, FreeStart(kernelEnd));
  }

  /** What remains after rounding the heap's end up to a page. */
  lemma RoundedHeapFits(start: nat, usable: nat)
    requires start % PAGE_SIZE == 0 && start <= usable
    ensures var available := usable - start;
            RoundUp(start + HeapSize(available), PAGE_SIZE) <= usable <==> available < 10 || available >= PAGE_SIZE
  {
    hide RoundUp;
    var available := usable - start;
    var size := HeapSize(available);
    RoundUpPages(start + size);
    if available < 10 {
      assert size == 0;
    } else if available < PAGE_SIZE {
      assert 0 < size;
      MultiplesApart(start, RoundUp(start + size, PAGE_SIZE), PAGE_SIZE);
    } else if available < 10 * PAGE_SIZE {
      var u := RoundUp(start + size, PAGE_SIZE);
      if start + PAGE_SIZE < u {
        SumOfMultiples(start, PAGE_SIZE, PAGE_SIZE);
        MultiplesApart(start + PAGE_SIZE, u, PAGE_SIZE);
      }
    }
  }

  /** The page allocator's range is a range exactly when no room, or at least a page of it, is left above the table. */
  lemma PagesFitIff(target: Target, mm: MemoryMap, kernelEnd: nat)
    ensures var m := Ranges(target, mm, kernelEnd);
            m.pageStart <= m.pageEnd <==> m.heapStart <= m.pageEnd && (m.Available() < 10 || m.Available() >= PAGE_SIZE)
  {
    hide RoundUp, Ranges, FreeStart;
    RangesPlaced(target, mm, kernelEnd);
    var m := Ranges(target, mm, kernelEnd);
    if m.heapStart <= m.pageEnd {
      RoundedHeapFits(m.heapStart, m.pageEnd);
    }
  }

  /** With a usable end on a page boundary, only a table that ran past it can spoil the layout. */
  lemma AlignedEndFits(target: Target, mm: MemoryMap, kernelEnd: nat)
    requires Ranges(target, mm, kernelEnd).pageEnd % PAGE_SIZE == 0
    ensures var m := Ranges(target, mm, kernelEnd); m.pageStart <= m.pageEnd <==> m.heapStart <= m.pageEnd
  {
    hide RoundUp, Ranges, FreeStart;
    var m := Ranges(target, mm, kernelEnd);
    PagesFitIff(target, mm, kernelEnd);
    RangesPlaced(target, mm, kernelEnd);
    if m.heapStart < m.pageEnd {
      MultiplesApart(m.heapStart, m.pageEnd, PAGE_SIZE);
    }
  }

  // ---- On x86 ----

  /** `get_kernel_end_address`: the end of the image if it is plausible, else a fixed address. */
  function X86KernelEnd(bssEnd: nat): nat {
    if 0x10_0000 < bssEnd < 0x640_0000 then bssEnd else 0x10_0000 + 2 * 1024 * 1024
  }

  datatype RegionKind = Available | Mmio | Reserved

  datatype MemoryRegion = MemoryRegion(base: nat, size: nat, kind: RegionKind)

  /** `memory_map`: the largest RAM region, and the span from the lowest MMIO base to the highest MMIO end. */
  ghost predicate Summarises(mm: MemoryMap, regions: seq<MemoryRegion>) {
    && MemoryRegion(mm.ramStart, mm.ramSize, Available) in regions
    && (forall r :: r in regions && r.kind == Available ==> r.size <= mm.ramSize)
    && (forall r :: r in regions && r.kind == Mmio ==> mm.peripheralBase <= r.base && r.base + r.size <= mm.PeripheralEnd())
    && ((forall r :: r in regions ==> r.kind != Mmio) ==> mm.peripheralBase == 0 && mm.peripheralSize == 0)
  }

  /** The RAM and the ISA window that every PC is given, whatever the boot loader reports. */
  const PC_RAM := MemoryRegion(0x10_0000, 127 * 1024 * 1024, Available)
  const PC_ISA := MemoryRegion(0xA_0000, 0x6_0000, Mmio)

  /** With the standard regions in the map, an x86 layout that passes its assertions always has room for the page range. */
  lemma StandardPcFits(regions: seq<MemoryRegion>, mm: MemoryMap, bssEnd: nat)
    requires PC_RAM in regions && PC_ISA in regions && Summarises(mm, regions)
    requires Divide(X86, mm, X86KernelEnd(bssEnd)).Ok?
    ensures var m := Divide(X86, mm, X86KernelEnd(bssEnd)).value; m.pageStart <= m.pageEnd == mm.RamEnd()
  {
    hide RoundUp;
    var kernelEnd := X86KernelEnd(bssEnd);
    RangesPlaced(X86, mm, kernelEnd);
    RoundUpPages(kernelEnd);
    TablePlaced(X86, FreeStart(kernelEnd));
    RoundUpPages(FreeStart(kernelEnd));
    RoundUpPages(FreeStart(kernelEnd) + 4096);
    PagesFitIff(X86, mm, kernelEnd);
  }

  /** A region table with no entry to spare. */
  function FullTable(): seq<MemoryRegion> {
    [MemoryRegion(0x10_0000, 0x20_1064, Available)] + seq(63, _ => MemoryRegion(0, 0, Reserved))
  }

  /**
   * Without them (entries of the boot loader have filled the region table, and later ones are dropped) it need not: a
   * hundred bytes behind the page directory make a ten-byte heap, whose end rounds up past them.
   */
  lemma HundredBytesDoNotFit()
    ensures X86KernelEnd(0) == 0x30_0000
    ensures var mm := MemoryMap(0x10_0000, 0x20_1064, 0, 0);
            && |FullTable()| == 64 && Summarises(mm, FullTable())
            && var m := Divide(X86, mm, X86KernelEnd(0));
               m.Ok? && m.value.Available() == 100 && m.value.pageStart > m.value.pageEnd
  {
    FullTableSummarised();
    hide RoundUp, Summarises, FullTable;
    var mm := MemoryMap(0x10_0000, 0x20_1064, 0, 0);
    HundredBytesLeft(mm);
    assert Divide(X86, mm, 0x30_0000) == Ok(Ranges(X86, mm, 0x30_0000));
  }

  lemma FullTableSummarised()
    ensures |FullTable()| == 64 && Summarises(MemoryMap(0x10_0000, 0x20_1064, 0, 0), FullTable())
  {
    assert FullTable()[0] == MemoryRegion(0x10_0000, 0x20_1064, Available);
  }

  lemma HundredBytesLeft(mm: MemoryMap)
    requires mm == MemoryMap(0x10_0000, 0x20_1064, 0, 0)
    ensures var m := Ranges(X86, mm, 0x30_0000);
            FreeStart(0x30_0000) == 0x30_0000 && m.Available() == 100 && m.pageStart > m.pageEnd
  {
    hide RoundUp;
    RangesPlaced(X86, mm, 0x30_0000);
    RoundUpPages(0x30_0000);
    TablePlaced(X86, 0x30_0000);
    RoundUpPages(0x30_1000);
    hide TableRange, AfterTable;
    PagesFitIff(X86, mm, 0x30_0000);
  }

  /** Both allocators accept their ranges. */
  lemma RangesAccepted(m: MemoryLayout)
    requires 0 < m.heapStart <= m.heapEnd <= m.pageStart <= m.pageEnd
    requires m.heapStart % PAGE_SIZE == 0 && m.pageStart % PAGE_SIZE == 0
    ensures 0 < RoundUp(m.heapStart, MIN_BLOCK_SIZE) <= AndNot(m.heapEnd, MIN_BLOCK_SIZE - 1)
    ensures 0 < RoundUp(m.pageStart, PAGE_SIZE) <= AndNot(m.pageEnd, PAGE_SIZE - 1)
  {
    assert MIN_BLOCK_SIZE == Pow2(5) && PAGE_SIZE == Pow2(12);
    CoarserPow2(m.heapStart, 12, 5);
    AlignedRange(m.heapStart, m.heapEnd, 5);
    AlignedRange(m.pageStart, m.pageEnd, 12);
  }

  lemma AlignedRange(start: nat, end: nat, k: nat)
    requires start % Pow2(k) == 0 && start <= end
    ensures RoundUp(start, Pow2(k)) == start <= AndNot(end, Pow2(k) - 1)
  {
    hide RoundUp, AndNot;
    RoundUpMeaning(start, k);
    AndNotMask(end, k);
    FloorMultiple(end, Pow2(k));
    if start < RoundUp(start, Pow2(k)) {
      MultiplesApart(start, RoundUp(start, Pow2(k)), Pow2(k));
    }
    var floor := end - end % Pow2(k);
    if floor < start {
      MultiplesApart(floor, start, Pow2(k));
    }
  }

  // ---- Carrying the layout out ----

  /** Lists whose own cells are untouched are still spelt out. */
  lemma LinkedFrame(heads: seq<nat>, cells: seq<nat>, after: seq<nat>, lists: Lists)
    requires Linked(heads, cells, lists) && |cells| == |after|
    requires forall b :: b in FreeSet(lists) ==> b.addr < |cells| && cells[b.addr] == after[b.addr]
    ensures Linked(heads, after, lists)
  {
    forall o, i | 0 <= o < |lists| && 0 <= i < |lists[o]|
      ensures after[lists[o][i]] == Next(lists[o], i)
    {
      InFreeSet(lists, Block(lists[o][i], o));
    }
  }

  /** A buddy allocator keeps what it keeps however memory outside its region changes. */
  twostate lemma OutsideRegion(buddy: BuddyAllocator)
    requires old(buddy.Valid())
    requires unchanged(buddy, buddy.freeLists)
    requires forall c: nat :: buddy.baseAddr <= c < buddy.baseAddr + buddy.totalSize ==> buddy.mem[c] == old(buddy.mem[c])
    ensures buddy.Valid()
  {
    forall b | b in buddy.FreeBlocks()
      ensures b.addr < buddy.mem.Length && buddy.mem[b.addr] == old(buddy.mem[b.addr])
    {
      assert b in buddy.Now().free + buddy.Now().live;
      assert buddy.Managed().Inside(b);
    }
    LinkedFrame(buddy.freeLists[..], old(buddy.mem[..]), buddy.mem[..], buddy.lists);
  }

  /** The heap, just initialised, survives stores outside it. */
  twostate lemma HeapUndisturbed(heap: HeapAllocator)
    requires old(heap.Valid()) && old(heap.payloads) == map[]
    requires unchanged(heap) && unchanged(heap.inner) && unchanged(heap.inner.freeLists)
    requires forall c: nat :: heap.inner.baseAddr <= c < heap.inner.baseAddr + heap.inner.totalSize ==>
               heap.inner.mem[c] == old(heap.inner.mem[c])
    ensures heap.Valid()
  {
    OutsideRegion(heap.inner);
  }

  /** What carrying out the layout relies on. */
  lemma ReadyToSetUp(target: Target, mm: MemoryMap, kernelEnd: nat)
    requires Divide(target, mm, kernelEnd).Ok? && 0 < kernelEnd
    requires var m := Divide(target, mm, kernelEnd).value; m.heapStart <= m.pageEnd && (m.Available() < 10 || m.Available() >= PAGE_SIZE)
    ensures var m := Divide(target, mm, kernelEnd).value;
            && FreeStart(kernelEnd) <= m.heapStart <= m.heapEnd <= m.pageStart <= m.pageEnd <= mm.RamEnd()
            && mm.ClearOfMmio(m.heapStart, m.heapEnd) && mm.ClearOfMmio(m.pageStart, m.pageEnd)
            && (m.pageTable.Some? ==>
                  && FreeStart(kernelEnd) <= m.pageTable.value.0 <= m.pageTable.value.1 <= m.heapStart
                  && mm.ClearOfMmio(m.pageTable.value.0, m.pageTable.value.1))
            && m.heapEnd == m.heapStart + HeapSize(m.Available())
            && 0 < RoundUp(m.heapStart, MIN_BLOCK_SIZE) <= AndNot(m.heapEnd, MIN_BLOCK_SIZE - 1)
            && 0 < RoundUp(m.pageStart, PAGE_SIZE) <= AndNot(m.pageEnd, PAGE_SIZE - 1)
  {
    hide RoundUp, AndNot;
    PagesFitIff(target, mm, kernelEnd);
    RangesPlaced(target, mm, kernelEnd);
    RangesDisjoint(target, mm, kernelEnd);
    RangesAccepted(Divide(target, mm, kernelEnd).value);
  }

  /**
   * `setup_memory_management`: zero the first-level table, then hand each allocator its range of the memory.
   * Neither initialisation writes outside its range, so both allocators and the table stand at the end.
   */
  method SetUp(target: Target, mm: MemoryMap, kernelEnd: nat, mem: array<nat>, heap: HeapAllocator, pages: PageAllocator)
    returns (result: Result<MemoryLayout, Panic>)
    requires heap.inner == null && pages.inner == null && pages.owned == {}
    requires 0 < kernelEnd && mm.RamEnd() <= mem.Length
    requires Divide(target, mm, kernelEnd).Ok? ==>
               var m := Divide(target, mm, kernelEnd).value;
               m.heapStart <= m.pageEnd && (m.Available() < 10 || m.Available() >= PAGE_SIZE)
    modifies heap, pages, mem
    ensures result == Divide(target, mm, kernelEnd)
    ensures result.Err? ==> unchanged(heap, pages, mem)
    ensures result.Ok? ==>
              var m := result.value;
              && heap.Valid() && pages.Valid() && heap.payloads == map[] && pages.owned == {}
              && heap.inner.mem == pages.inner.mem == mem
              && m.heapStart <= heap.inner.baseAddr < m.heapStart + MIN_BLOCK_SIZE
              && m.heapEnd - MIN_BLOCK_SIZE < heap.inner.baseAddr + heap.inner.totalSize <= m.heapEnd
              && m.pageStart <= pages.inner.baseAddr < m.pageStart + PAGE_SIZE
              && m.pageEnd - PAGE_SIZE < pages.inner.baseAddr + pages.inner.totalSize <= m.pageEnd
              && IsTenth(m.heapEnd - m.heapStart, m.pageEnd - m.heapStart)
              && (m.pageTable.Some? ==> forall c: nat :: m.pageTable.value.0 <= c < m.pageTable.value.1 ==> c < mem.Length && mem[c] == 0)
              && (forall c: nat :: c < mem.Length && mem[c] != old(mem[c]) ==>
                    FreeStart(kernelEnd) <= c < m.pageEnd && mm.ClearOfMmio(c, c + 1))
  {
    hide RoundUp, AndNot, Inv, Divide, FreeStart, Accounts, OneOwner, Linked;
    result := Divide(target, mm, kernelEnd);
    if result.Err? {
      return;
    }
    var m := result.value;
    ReadyToSetUp(target, mm, kernelEnd);
    HeapIsTenth(m.Available());
    if m.pageTable.Some? {
      var (start, end) := m.pageTable.value;
      ZeroRange(mem, start, end);
    }
    heap.Init(mem, m.heapStart, m.heapEnd);
    label heapReady:
    pages.Init(mem, m.pageStart, m.pageEnd);
    HeapUndisturbed@heapReady(heap);
  }

  method ZeroRange(mem: array<nat>, start: nat, end: nat)
    requires start <= end <= mem.Length
    modifies mem
    ensures forall c: nat :: c < mem.Length ==> mem[c] == if start <= c < end then 0 else old(mem[c])
  {
    for i := start to end
      invariant forall c: nat :: c < mem.Length ==> mem[c] == if start <= c < i then 0 else old(mem[c])
    {
      mem[i] := 0;
    }
  }
}
