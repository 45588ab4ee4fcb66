// `map_region` and `unmap_region` as they run: stores to the directory and the tables,
// each followed by INVLPG, while the processor may load translations at any moment.
module Mmu {
  import opened Bits
  import opened PageTables

  /** A cached translation; a 4 MB page may be cached in pieces, all tagged with its size. */
  datatype TlbEntry = TlbEntry(page: nat, large: bool, t: Translation)

  ghost predicate Agrees(tables: Tables, e: TlbEntry)
    requires tables.Shaped()
  {
    && e.page < PAGES && e.t.Mapped? && tables.Walk(e.page) == e.t
    && (e.large <==> IsLarge(tables.pd[e.page / ENTRIES]))
  }

  /** No cached translation disagrees with the tables. */
  ghost predicate Coherent(tables: Tables, tlb: set<TlbEntry>)
    requires tables.Shaped()
  {
    forall e :: e in tlb ==> Agrees(tables, e)
  }

  ghost predicate Subset(s: set<TlbEntry>, t: set<TlbEntry>) {
    s <= t
  }

  /** Directory entries in [lo, hi) that are not present: tables `map_region` would have to create. */
  function Missing(pd: seq<nat>, lo: nat, hi: nat): nat
    requires hi <= |pd|
  {
    if hi <= lo then 0
    else Missing(pd, lo, hi - 1) + if Has(pd[hi - 1], X86_PRESENT) then 0 else 1
  }

  lemma {:induction false} MissingGrows(pd: seq<nat>, lo: nat, hi: nat, hi': nat)
    requires hi <= hi' <= |pd|
    ensures Missing(pd, lo, hi) <= Missing(pd, lo, hi')
    decreases hi'
  {
    if hi < hi' {
      MissingGrows(pd, lo, hi, hi' - 1);
    }
  }

  /** First directory index not yet touched after mapping `n` pages from page `first` on. */
  function DirectoryEnd(first: nat, n: nat): nat {
    if n == 0 then first / ENTRIES else (first + n - 1) / ENTRIES + 1
  }

  /** The directory words of the pages [first, first + n) that are not present. */
  function AbsentTables(pd: seq<nat>, first: nat, n: nat): set<nat> {
    set d: nat | d < |pd| && pd[d] % 2 == 0 && d * 1024 < first + n && first < d * 1024 + 1024 && n > 0
  }

  /** `map_region` needs as many tables. */
  lemma MissingIsCount(pd: seq<nat>, first: nat, n: nat)
    requires DirectoryEnd(first, n) <= |pd|
    ensures Missing(pd, first / ENTRIES, DirectoryEnd(first, n)) == |AbsentTables(pd, first, n)|
  {
    MissingSet(pd, first / ENTRIES, DirectoryEnd(first, n));
    assert AbsentTables(pd, first, n) == AbsentIn(pd, first / ENTRIES, DirectoryEnd(first, n));
  }

  function AbsentIn(pd: seq<nat>, lo: nat, hi: nat): set<nat> {
    set d: nat | d < |pd| && pd[d] % 2 == 0 && lo <= d < hi
  }

  lemma {:induction false} MissingSet(pd: seq<nat>, lo: nat, hi: nat)
    requires hi <= |pd|
    ensures Missing(pd, lo, hi) == |AbsentIn(pd, lo, hi)|
    decreases hi
  {
    if lo < hi {
      MissingSet(pd, lo, hi - 1);
      DigitTests(pd[hi - 1]);
      hide Has;
      assert AbsentIn(pd, lo, hi) == AbsentIn(pd, lo, hi - 1) + if pd[hi - 1] % 2 == 0 then {hi - 1} else {};
    } else {
      assert AbsentIn(pd, lo, hi) == {};
    }
  }

  /** Pages that `map_region` and `unmap_region` go over. */
  function PageCount(virt: nat, size: nat): nat {
    (size + And(virt, 0xFFF) + PAGE_SIZE - 1) / PAGE_SIZE
  }

  function FirstPage(virt: nat): nat {
    AndNot(virt, 0xFFF) / PAGE_SIZE
  }

  /** The range, rounded outwards to pages, ends within the address space, and counting its pages does not wrap. */
  predicate InAddressSpace(start: nat, offset: nat, size: nat) {
    size + offset + PAGE_SIZE - 1 < 0x1_0000_0000 && start + (size + offset + PAGE_SIZE - 1) / PAGE_SIZE * PAGE_SIZE <= 0x1_0000_0000
  }

  /** The pages gone over are those with a byte in [virt, virt + size), and for an empty range at most the page of `virt`. */
  lemma RangeCovered(virt: nat, size: nat)
    ensures FirstPage(virt) == virt / PAGE_SIZE && AndNot(virt, 0xFFF) == FirstPage(virt) * PAGE_SIZE
    ensures forall a: nat :: virt <= a < virt + size ==> FirstPage(virt) <= a / PAGE_SIZE < FirstPage(virt) + PageCount(virt, size)
    ensures size > 0 ==> FirstPage(virt) + PageCount(virt, size) == (virt + size - 1) / PAGE_SIZE + 1
    ensures size == 0 ==> PageCount(virt, size) <= 1
  {
    Pow12();
    AndMask(virt, 12);
    AndNotMask(virt, 12);
  }

  class X86Mmu {
    const pd: array<nat>
    const pool: array<nat>
    const poolBase: nat
    var poolNext: nat
    ghost var tlb: set<TlbEntry>

    ghost function Now(): Tables
      reads this, pd, pool
    {
      Tables(poolBase, pd[..], pool[..], poolNext)
    }

    ghost predicate Valid()
      reads this, pd, pool
    {
      pd != pool && Now().Valid() && Coherent(Now(), tlb)
    }

    /** A zeroed directory and the zeroed pool. */
    constructor (pd: array<nat>, pool: array<nat>, poolBase: nat)
      requires pd != pool && pd.Length == ENTRIES && pool.Length == PT_POOL_COUNT * ENTRIES && poolBase % PAGE_SIZE == 0
      requires forall i :: 0 <= i < pd.Length ==> pd[i] == 0
      requires forall i :: 0 <= i < pool.Length ==> pool[i] == 0
      ensures this.pd == pd && this.pool == pool && Valid()
      ensures forall q: nat :: q < PAGES ==> Now().Walk(q) == Fault
    {
      this.pd, this.pool, this.poolBase := pd, pool, poolBase;
      poolNext := 0;
      tlb := {};
      new;
      ZeroEntry(X86_PRESENT);
    }

    // ---- The processor ----

    /** Between any two instructions the processor may load translations from the tables, or drop some. */
    ghost method HardwareFill()
      requires Now().Shaped()
      modifies this`tlb
      ensures forall e :: e in tlb ==> e in old(tlb) || Agrees(Now(), e)
    {
      ghost var tables, cached := Now(), tlb;
      assert Coherent(tables, {}) && Subset({}, cached);
      var loaded :| Coherent(tables, loaded);
      var kept :| Subset(kept, cached);
      tlb := kept + loaded;
      forall e | e in tlb
        ensures e in cached || Agrees(Now(), e)
      {
        assert Now() == tables && Subset(kept, cached) && Coherent(tables, loaded);
        assert e in loaded ==> Agrees(tables, e);
      }
    }

    /** INVLPG drops what is cached for the page, and everything cached of a 4 MB page around it. */
    ghost method Invlpg(va: nat)
      modifies this`tlb
      ensures forall e :: e in tlb <==>
                e in old(tlb) && e.page != va / PAGE_SIZE && !(e.large && e.page / ENTRIES == va / PAGE_SIZE / ENTRIES)
    {
      tlb := set e | e in tlb && e.page != va / PAGE_SIZE && !(e.large && e.page / ENTRIES == va / PAGE_SIZE / ENTRIES);
    }

    // ---- Mapping ----

    /** One round of `map_region`; false stands for the panic of an exhausted pool. */
    method MapPage(va: nat, pa: nat, flags: MapFlags) returns (ok: bool)
      requires Valid() && va % PAGE_SIZE == 0 && va / PAGE_SIZE < PAGES && pa % PAGE_SIZE == 0
      requires !IsLarge(pd[va / PAGE_SIZE / ENTRIES])
      modifies this`poolNext, this`tlb, pd, pool
      ensures var d := va / PAGE_SIZE / ENTRIES; var page := va / PAGE_SIZE;
              && (ok <==> old(Has(pd[d], X86_PRESENT)) || old(poolNext) < PT_POOL_COUNT)
              && (ok ==>
                    && Valid() && IsTable(pd[d])
                    && poolNext == old(poolNext) + (if old(Has(pd[d], X86_PRESENT)) then 0 else 1)
                    && (forall e :: 0 <= e < ENTRIES && e != d ==> pd[e] == old(pd[e]))
                    && Now().Walk(page) == Mapped(pa, flags.write, flags.user, flags.device)
                    && (forall q: nat :: q < PAGES && q != page ==> Now().Walk(q) == old(Now()).Walk(q)))
    {
      hide And, AndNot, Or, Tables.Walk, Tables.Valid, MapFlagsToX86;
      ghost var before, page := Now(), va / PAGE_SIZE;
      before.ShapeAndBounds();
      var pteBits := MapFlagsToX86(flags);
      IndexSplit(va);
      var pdi := PdIndex(va);
      var pti := PtIndex(va);
      var slot;
      ok, slot := FindTable(pdi);
      if !ok {
        return;
      }
      ghost var mid := Now();
      mid.ShapeAndBounds();
      mid.TableIndex(page);
      PteMeaning(mid, page, pa, flags);
      var pte := Or(AndNot(pa, 0xFFF), pteBits);
      mid.SetEntry(page, pte);
      pool[slot * ENTRIES + pti] := pte;
      ghost var after := Now();
      assert after == mid.(pool := mid.pool[slot * ENTRIES + pti := pte]);
      CoherentBut(mid, after, tlb, page);
      HardwareFill();
      Invlpg(va);
      HardwareFill();
    }

    /** Locate or create the page table for a directory entry. */
    method FindTable(pdi: nat) returns (ok: bool, slot: nat)
      requires Valid() && pdi < ENTRIES && pdi < pd.Length && !IsLarge(pd[pdi])
      modifies this`poolNext, this`tlb, pd
      ensures ok <==> old(Has(pd[pdi], X86_PRESENT)) || old(poolNext) < PT_POOL_COUNT
      ensures ok ==>
                && Valid() && IsTable(pd[pdi]) && slot == Now().Slot(pd[pdi])
                && poolNext == old(poolNext) + (if old(Has(pd[pdi], X86_PRESENT)) then 0 else 1)
                && (forall e :: 0 <= e < ENTRIES && e != pdi ==> pd[e] == old(pd[e]))
                && (forall q: nat :: q < PAGES ==> Now().Walk(q) == old(Now()).Walk(q))
    {
      hide And, AndNot, Or, Tables.Walk, Tables.Valid;
      ghost var before := Now();
      before.ShapeAndBounds();
      var pde := pd[pdi];
      if Has(pde, X86_PRESENT) {
        before.TableIndex(pdi * ENTRIES);
        return true, (Frame(pde) - poolBase) / PAGE_SIZE;
      }
      var idx := poolNext;
      poolNext := poolNext + 1;
      if idx >= PT_POOL_COUNT {
        return false, 0;
      }
      before.AddTable(pdi);
      before.NewPdeParts();
      var newPde := Or(Or(Or(poolBase + idx * PAGE_SIZE, X86_WRITABLE), X86_USER), X86_PRESENT);
      pd[pdi] := newPde;
      ghost var after := Now();
      assert after == before.(pd := before.pd[pdi := newPde], next := before.next + 1);
      CoherentWithTable(before, after, tlb, pdi);
      HardwareFill();
      return true, idx;
    }

    static lemma PteMeaning(t: Tables, page: nat, pa: nat, flags: MapFlags)
      requires t.Valid() && page < PAGES && IsTable(t.pd[page / ENTRIES]) && pa % PAGE_SIZE == 0
      ensures FromEntries(t.pd[page / ENTRIES], Or(AndNot(pa, 0xFFF), MapFlagsToX86(flags)))
              == Mapped(pa, flags.write, flags.user, flags.device)
    {
      assert t.TableEntry(t.pd[page / ENTRIES]);
      var bits := MapFlagsToX86(flags);
      FlagBits(flags);
      EntryParts(pa, 0);
      EntryParts(pa, bits);
      hide And, MapFlagsToX86;
    }

    /** A page-table store can leave stale what is cached for that page, and nothing else. */
    static lemma CoherentBut(t: Tables, t': Tables, tlb: set<TlbEntry>, page: nat)
      requires t.Shaped() && t'.Shaped() && Coherent(t, tlb) && t'.pd == t.pd
      requires forall q: nat :: q < PAGES && q != page ==> t'.Walk(q) == t.Walk(q)
      ensures forall e :: e in tlb && e.page != page ==> Agrees(t', e)
    {
    }

    /** A new, empty table leaves nothing stale: nothing was cached under it. */
    static lemma CoherentWithTable(t: Tables, t': Tables, tlb: set<TlbEntry>, d: nat)
      requires t.Shaped() && t'.Shaped() && Coherent(t, tlb) && d < ENTRIES && !Has(t.pd[d], X86_PRESENT)
      requires forall e :: 0 <= e < ENTRIES && e != d ==> t'.pd[e] == t.pd[e]
      requires forall q: nat :: q < PAGES ==> t'.Walk(q) == t.Walk(q)
      ensures Coherent(t', tlb)
    {
    }

    /** What `map_region` makes of the address map: the rounded range, and nothing else, is redirected. */
    static ghost predicate RangeMapped(t: Tables, t': Tables, first: nat, n: nat, physStart: nat, flags: MapFlags)
      requires t.Shaped() && t'.Shaped()
    {
      forall q: nat :: q < PAGES ==>
        t'.Walk(q) == if first <= q < first + n then Mapped(physStart + (q - first) * PAGE_SIZE, flags.write, flags.user, flags.device)
                      else t.Walk(q)
    }

    /**
     * `map_region`.  The result is false where the source panics, which is exactly when the range needs
     * more new tables than the pool has left.
     */
    method MapRegion(virt: nat, phys: nat, size: nat, flags: MapFlags) returns (ok: bool)
      requires Valid()
      requires InAddressSpace(AndNot(virt, 0xFFF), And(virt, 0xFFF), size)
      requires InAddressSpace(AndNot(phys, 0xFFF), And(virt, 0xFFF), size)
      requires NoLargePages(Now(), FirstPage(virt), PageCount(virt, size))
      modifies this`poolNext, this`tlb, pd, pool
      ensures var first, n := FirstPage(virt), PageCount(virt, size);
              && DirectoryEnd(first, n) <= ENTRIES
              && (ok <==> old(poolNext) + |AbsentTables(old(pd[..]), first, n)| <= 64)
              && (ok ==> poolNext == old(poolNext) + |AbsentTables(old(pd[..]), first, n)|)
              && (ok ==> Valid() && RangeMapped(old(Now()), Now(), first, n, AndNot(phys, 0xFFF), flags))
    {
      hide And, AndNot, Tables.Walk, Tables.Valid;
      RangeCovered(virt, size);
      PhysAligned(phys);
      ghost var before, first := Now(), FirstPage(virt);
      before.ShapeAndBounds();
      var virtStart := AndNot(virt, 0xFFF);
      var physStart := AndNot(phys, 0xFFF);
      var pages := (size + And(virt, 0xFFF) + PAGE_SIZE - 1) / PAGE_SIZE;
      NothingYet(before, first, physStart, flags);
      DirectoryBound(first, pages);
      MissingIsCount(before.pd, first, pages);
      hide Partly, RangeMapped, DirectoryEnd, Missing, NoLargePages, AbsentTables;
      var i := 0;
      while i < pages
        invariant 0 <= i <= pages && Valid() && Now().Shaped()
        invariant Partly(before, Now(), first, i, physStart, flags)
      {
        ok := MapRound(before, first, pages, i, virtStart, physStart, flags);
        if !ok {
          return false;
        }
        i := i + 1;
      }
      AllDone(before, Now(), first, pages, physStart, flags);
      return true;
    }

    /** To the byte: an address in the mapped range leads as far behind the physical start as it lies behind the virtual one. */
    static lemma MappedBytes(t: Tables, t': Tables, virt: nat, phys: nat, size: nat, flags: MapFlags, va: nat)
      requires t.Shaped() && t'.Shaped() && virt <= va < virt + size && virt + size <= 0x1_0000_0000
      requires RangeMapped(t, t', FirstPage(virt), PageCount(virt, size), AndNot(phys, 0xFFF), flags)
      ensures va / PAGE_SIZE < PAGES && AndNot(virt, 0xFFF) <= va
      ensures t'.Translate(va) == Mapped(AndNot(phys, 0xFFF) + (va - AndNot(virt, 0xFFF)), flags.write, flags.user, flags.device)
    {
      hide And, AndNot, Tables.Walk;
      RangeCovered(virt, size);
      var q := va / PAGE_SIZE;
      assert FirstPage(virt) <= q < FirstPage(virt) + PageCount(virt, size);
    }

    method MapRound(ghost before: Tables, ghost first: nat, ghost pages: nat, i: nat, virtStart: nat, physStart: nat, flags: MapFlags)
      returns (ok: bool)
      requires Valid() && before.Shaped() && Now().Shaped() && i < pages && first + pages <= PAGES
      requires virtStart == first * PAGE_SIZE && physStart % PAGE_SIZE == 0
      requires NoLargePages(before, first, pages) && Partly(before, Now(), first, i, physStart, flags)
      modifies this`poolNext, this`tlb, pd, pool
      ensures ok ==> Valid() && Now().Shaped() && Partly(before, Now(), first, i + 1, physStart, flags)
      ensures !ok ==> DirectoryEnd(first, pages) <= ENTRIES
                      && before.next + Missing(before.pd, first / ENTRIES, DirectoryEnd(first, pages)) > PT_POOL_COUNT
    {
      hide And, AndNot, Tables.Walk, Tables.Valid, Partly, RangeMapped, DirectoryEnd, Missing, NoLargePages;
      ghost var now := Now();
      RoomForPage(before, now, first, i, pages, physStart, flags);
      var va := virtStart + i * PAGE_SIZE;
      var pa := physStart + i * PAGE_SIZE;
      PageOf(first, physStart, i);
      ok := MapPage(va, pa, flags);
      if !ok {
        PoolTooSmall(before, now, first, i, pages, physStart, flags);
      } else {
        Now().ShapeAndBounds();
        PageDone(before, now, Now(), first, i, physStart, flags);
      }
    }

    /** No page of the range is, at the moment, part of a 4 MB page. */
    static ghost predicate NoLargePages(t: Tables, first: nat, n: nat)
      requires t.Shaped()
    {
      first + n <= PAGES && forall q: nat :: first <= q < first + n ==> !IsLarge(t.pd[q / ENTRIES])
    }

    /** After `i` pages: that part of the range is mapped, with as many new tables as were missing for it. */
    static ghost predicate Partly(t: Tables, t': Tables, first: nat, i: nat, physStart: nat, flags: MapFlags)
      requires t.Shaped() && t'.Shaped()
    {
      && DirectoryEnd(first, i) <= ENTRIES
      && RangeMapped(t, t', first, i, physStart, flags)
      && t'.next == t.next + Missing(t.pd, first / ENTRIES, DirectoryEnd(first, i))
      && t'.next <= PT_POOL_COUNT
      && (forall d :: first / ENTRIES <= d < DirectoryEnd(first, i) ==> Has(t'.pd[d], X86_PRESENT) && !IsLarge(t'.pd[d]))
      && (forall d :: 0 <= d < ENTRIES && !(first / ENTRIES <= d < DirectoryEnd(first, i)) ==> t'.pd[d] == t.pd[d])
    }

    static lemma NothingYet(t: Tables, first: nat, physStart: nat, flags: MapFlags)
      requires t.Valid() && first <= PAGES
      ensures Partly(t, t, first, 0, physStart, flags)
    {
    }

    static lemma PageOf(first: nat, physStart: nat, i: nat)
      requires physStart % PAGE_SIZE == 0
      ensures (first * PAGE_SIZE + i * PAGE_SIZE) / PAGE_SIZE == first + i
      ensures (first * PAGE_SIZE + i * PAGE_SIZE) % PAGE_SIZE == 0
      ensures (physStart + i * PAGE_SIZE) % PAGE_SIZE == 0
    {
    }

    static lemma RoomForPage(t: Tables, t': Tables, first: nat, i: nat, n: nat, physStart: nat, flags: MapFlags)
      requires t.Shaped() && t'.Shaped() && Partly(t, t', first, i, physStart, flags) && i < n
      requires NoLargePages(t, first, n)
      ensures first + i < PAGES && !IsLarge(t'.pd[(first + i) / ENTRIES])
    {
      NextDirectory(first, i);
      var page := first + i;
      assert !IsLarge(t.pd[page / ENTRIES]);
    }

    static lemma PoolTooSmall(t: Tables, t': Tables, first: nat, i: nat, n: nat, physStart: nat, flags: MapFlags)
      requires t.Shaped() && t'.Shaped() && Partly(t, t', first, i, physStart, flags) && i < n
      requires first + n <= PAGES && !Has(t'.pd[(first + i) / ENTRIES], X86_PRESENT) && t'.next >= PT_POOL_COUNT
      ensures DirectoryEnd(first, n) <= ENTRIES
      ensures t.next + Missing(t.pd, first / ENTRIES, DirectoryEnd(first, n)) > PT_POOL_COUNT
    {
      NextDirectory(first, i);
      MissingGrows(t.pd, first / ENTRIES, DirectoryEnd(first, i + 1), DirectoryEnd(first, n));
    }

    static lemma PageDone(t: Tables, t': Tables, t'': Tables, first: nat, i: nat, physStart: nat, flags: MapFlags)
      requires t.Shaped() && t'.Shaped() && t''.Shaped() && Partly(t, t', first, i, physStart, flags) && first + i < PAGES
      requires t''.next == t'.next + (if Has(t'.pd[(first + i) / ENTRIES], X86_PRESENT) then 0 else 1) <= PT_POOL_COUNT
      requires IsTable(t''.pd[(first + i) / ENTRIES])
      requires forall e :: 0 <= e < ENTRIES && e != (first + i) / ENTRIES ==> t''.pd[e] == t'.pd[e]
      requires t''.Walk(first + i) == Mapped(physStart + i * PAGE_SIZE, flags.write, flags.user, flags.device)
      requires forall q: nat :: q < PAGES && q != first + i ==> t''.Walk(q) == t'.Walk(q)
      ensures Partly(t, t'', first, i + 1, physStart, flags)
    {
      NextDirectory(first, i);
      hide And, Tables.Walk;
      assert RangeMapped(t, t'', first, i + 1, physStart, flags);
    }

    static lemma AllDone(t: Tables, t': Tables, first: nat, n: nat, physStart: nat, flags: MapFlags)
      requires t.Shaped() && t'.Shaped() && Partly(t, t', first, n, physStart, flags)
      ensures RangeMapped(t, t', first, n, physStart, flags) && DirectoryEnd(first, n) <= ENTRIES
      ensures t'.next == t.next + Missing(t.pd, first / ENTRIES, DirectoryEnd(first, n)) <= PT_POOL_COUNT
    {
    }

    // ---- Unmapping ----

    /** One round of `unmap_region`. */
    method UnmapPage(va: nat)
      requires Valid() && va % PAGE_SIZE == 0 && va / PAGE_SIZE < PAGES
      modifies this`tlb, pd, pool
      ensures Valid()
      ensures var d, page := va / PAGE_SIZE / ENTRIES, va / PAGE_SIZE;
              && (forall e :: 0 <= e < ENTRIES ==> pd[e] == if e == d && IsLarge(old(pd[d])) then 0 else old(pd[e]))
              && (forall q: nat :: q < PAGES ==>
                    Now().Walk(q) == if q == page || (q / ENTRIES == d && IsLarge(old(pd[d]))) then Fault else old(Now()).Walk(q))
    {
      hide And, AndNot, Tables.Valid, FromLarge;
      ghost var before, page := Now(), va / PAGE_SIZE;
      before.ShapeAndBounds();
      IndexSplit(va);
      var pdi := PdIndex(va);
      var pti := PtIndex(va);
      var pde := pd[pdi];
      if !Has(pde, X86_PRESENT) {
        return;
      }
      if Has(pde, X86_PS) {
        before.ClearDirectoryEntry(pdi);
        pd[pdi] := 0;
        ghost var after := Now();
        assert after == before.(pd := before.pd[pdi := 0]);
        CoherentButLarge(before, after, tlb, pdi);
        HardwareFill();
        Invlpg(va);
        HardwareFill();
        return;
      }
      before.TableIndex(page);
      before.SetEntry(page, 0);
      ZeroEntry(X86_PRESENT);
      var slot := (Frame(pde) - poolBase) / PAGE_SIZE;
      pool[slot * ENTRIES + pti] := 0;
      ghost var after := Now();
      assert after == before.(pool := before.pool[slot * ENTRIES + pti := 0]);
      CoherentBut(before, after, tlb, page);
      HardwareFill();
      Invlpg(va);
      HardwareFill();
    }

    /** After clearing a 4 MB entry, only pieces of that 4 MB page can be stale, and they are tagged as such. */
    static lemma CoherentButLarge(t: Tables, t': Tables, tlb: set<TlbEntry>, d: nat)
      requires t.Shaped() && t'.Shaped() && Coherent(t, tlb) && d < ENTRIES && IsLarge(t.pd[d])
      requires t'.pd == t.pd[d := 0]
      requires forall q: nat :: q < PAGES && q / ENTRIES != d ==> t'.Walk(q) == t.Walk(q)
      ensures forall e :: e in tlb && !(e.large && e.page / ENTRIES == d) ==> Agrees(t', e)
    {
    }

    /** The range is untranslated; what else is gone is the rest of 4 MB pages met in it; all other pages are as before. */
    static ghost predicate RangeUnmapped(t: Tables, t': Tables, first: nat, n: nat)
      requires t.Shaped() && t'.Shaped()
    {
      && (forall q: nat :: q < PAGES ==>
            t'.Walk(q) == if first <= q < first + n || InLargeMet(t, first, n, q / ENTRIES) then Fault else t.Walk(q))
      && (forall d :: 0 <= d < ENTRIES ==> t'.pd[d] == if InLargeMet(t, first, n, d) then 0 else t.pd[d])
    }

    /** Directory entry `d` was a 4 MB page with a page in the range. */
    static ghost predicate InLargeMet(t: Tables, first: nat, n: nat, d: nat)
      requires t.Shaped() && d < ENTRIES
    {
      first / ENTRIES <= d < DirectoryEnd(first, n) && IsLarge(t.pd[d])
    }

    method UnmapRegion(virt: nat, size: nat)
      requires Valid() && InAddressSpace(AndNot(virt, 0xFFF), And(virt, 0xFFF), size)
      modifies this`tlb, pd, pool
      ensures Valid() && RangeUnmapped(old(Now()), Now(), FirstPage(virt), PageCount(virt, size))
    {
      hide And, AndNot, Tables.Walk, Tables.Valid, RangeUnmapped;
      RangeCovered(virt, size);
      ghost var before, first := Now(), FirstPage(virt);
      before.ShapeAndBounds();
      var virtStart := AndNot(virt, 0xFFF);
      var pages := (size + And(virt, 0xFFF) + PAGE_SIZE - 1) / PAGE_SIZE;
      UnmappedNothing(before, first);
      var i := 0;
      while i < pages
        invariant 0 <= i <= pages && Valid() && Now().Shaped()
        invariant RangeUnmapped(before, Now(), first, i)
      {
        ghost var now := Now();
        PageOf(first, 0, i);
        UnmapPage(virtStart + i * PAGE_SIZE);
        Now().ShapeAndBounds();
        PageUnmapped(before, now, Now(), first, i);
        i := i + 1;
      }
    }

    static lemma UnmappedNothing(t: Tables, first: nat)
      requires t.Shaped()
      ensures RangeUnmapped(t, t, first, 0)
    {
    }

    static lemma PageUnmapped(t: Tables, t': Tables, t'': Tables, first: nat, i: nat)
      requires t.Shaped() && t'.Shaped() && t''.Shaped() && RangeUnmapped(t, t', first, i) && first + i < PAGES
      requires var d := (first + i) / ENTRIES;
               && (forall e :: 0 <= e < ENTRIES ==> t''.pd[e] == if e == d && IsLarge(t'.pd[d]) then 0 else t'.pd[e])
               && (forall q: nat :: q < PAGES ==>
                     t''.Walk(q) == if q == first + i || (q / ENTRIES == d && IsLarge(t'.pd[d])) then Fault else t'.Walk(q))
      ensures RangeUnmapped(t, t'', first, i + 1)
    {
      NextDirectory(first, i);
      ZeroEntry(X86_PRESENT);
      hide And, Tables.Walk;
      var d := (first + i) / ENTRIES;
      assert t'.pd[d] == if InLargeMet(t, first, i, d) then 0 else t.pd[d];
      assert forall e :: 0 <= e < ENTRIES ==> (InLargeMet(t, first, i + 1, e) <==> InLargeMet(t, first, i, e) || (e == d && IsLarge(t.pd[d])));
    }

    // ---- Initialisation ----

    /** `init`: two 4 MB pages map the first 8 MB to themselves; loading CR3 empties the TLB. */
    method Init()
      requires Valid() && !Has(pd[0], X86_PRESENT) && !Has(pd[1], X86_PRESENT)
      modifies this`tlb, pd
      ensures Valid() && poolNext == old(poolNext)
      ensures forall q: nat :: q < PAGES ==>
                Now().Walk(q) == if q < 2 * ENTRIES then Mapped(q * PAGE_SIZE, true, false, false) else old(Now()).Walk(q)
    {
      ghost var before := Now();
      before.ShapeAndBounds();
      LargeWord(0);
      LargeWord(0x40_0000);
      hide And, AndNot, Or;
      var pde0 := Or(Or(Or(0, X86_PS), X86_WRITABLE), X86_PRESENT);
      pd[0] := pde0;
      var pde1 := Or(Or(Or(0x40_0000, X86_PS), X86_WRITABLE), X86_PRESENT);
      pd[1] := pde1;
      tlb := {};
      LargeEntries(before, Now(), pde0, pde1);
      HardwareFill();
    }

    static lemma LargeWord(frame: nat)
      requires frame % 0x40_0000 == 0
      ensures Or(Or(Or(frame, X86_PS), X86_WRITABLE), X86_PRESENT) == frame + 131
      ensures IsLarge(frame + 131) && Has(frame + 131, X86_WRITABLE) && !Has(frame + 131, X86_USER) && !Has(frame + 131, X86_PCD)
    {
      hide And, Or, AndNot;
      OrAssoc(Or(frame, 128), 2, 1);
      OrAssoc(frame, 128, Or(2, 1));
      LargeBits();
      EntryParts(frame, 131);
    }

    static lemma LargeBits()
      ensures Or(2, 1) == 3 && Or(128, 3) == 131
      ensures And(131, 1) == 1 && And(131, 2) == 2 && And(131, 4) == 0 && And(131, 16) == 0 && And(131, 128) == 128
    {
      hide And, Or;
      LargeOr();
      LargeLowBits();
      LargePcdBit();
      LargePsBit();
    }

    static lemma LargeOr()
      ensures Or(2, 1) == 3 && Or(128, 3) == 131
    {
    }

    static lemma LargeLowBits()
      ensures And(131, 1) == 1 && And(131, 2) == 2 && And(131, 4) == 0
    {
      hide And;
      BitAt0(65, 1);
      BitAbove(65, 1, 1);
      BitAt0(32, 1);
      BitAbove(65, 1, 2);
      BitAbove(32, 1, 1);
      BitAt0(16, 0);
    }

    static lemma LargePcdBit()
      ensures And(131, 16) == 0
    {
      hide And;
      BitAbove(65, 1, 8);
      BitAbove(32, 1, 4);
      BitAbove(16, 0, 2);
      BitAbove(8, 0, 1);
      BitAt0(4, 0);
    }

    static lemma LargePsBit()
      ensures And(131, 128) == 128
    {
      hide And;
      BitAbove(65, 1, 64);
      BitAbove(32, 1, 32);
      BitAbove(16, 0, 16);
      BitAbove(8, 0, 8);
      BitAbove(4, 0, 4);
      BitAbove(2, 0, 2);
      BitAbove(1, 0, 1);
      BitAt0(0, 1);
    }

    static lemma LargeEntries(t: Tables, t': Tables, pde0: nat, pde1: nat)
      requires t.Valid() && !Has(t.pd[0], X86_PRESENT) && !Has(t.pd[1], X86_PRESENT)
      requires pde0 == 131 && pde1 == 0x40_0000 + 131
      requires t' == t.(pd := t.pd[0 := pde0][1 := pde1])
      ensures t'.Valid()
      ensures forall q: nat :: q < PAGES ==>
                t'.Walk(q) == if q < 2 * ENTRIES then Mapped(q * PAGE_SIZE, true, false, false) else t.Walk(q)
    {
      hide And, Or, AndNot;
      LargeWord(0);
      LargeWord(0x40_0000);
      LargeEntriesValid(t, t', pde0, pde1);
      hide Tables.Valid, Frame;
      assert pde0 - pde0 % 0x40_0000 == 0 && pde1 - pde1 % 0x40_0000 == 0x40_0000;
      forall q: nat | q < PAGES
        ensures t'.Walk(q) == if q < 2 * ENTRIES then Mapped(q * PAGE_SIZE, true, false, false) else t.Walk(q)
      {
        assert q < ENTRIES ==> t'.pd[q / ENTRIES] == pde0;
        assert ENTRIES <= q < 2 * ENTRIES ==> t'.pd[q / ENTRIES] == pde1;
      }
    }

    static lemma LargeEntriesValid(t: Tables, t': Tables, pde0: nat, pde1: nat)
      requires t.Valid() && IsLarge(pde0) && IsLarge(pde1) && t' == t.(pd := t.pd[0 := pde0][1 := pde1])
      ensures t'.Valid() && t.Shaped()
    {
      hide And, AndNot;
      forall d | 0 <= d < ENTRIES && IsTable(t'.pd[d])
        ensures t'.TableEntry(t'.pd[d]) && d != 0 && d != 1
      {
        assert d != 0 && d != 1 ==> t.TableEntry(t.pd[d]);
      }
    }

    static lemma PhysAligned(phys: nat)
      ensures AndNot(phys, 0xFFF) % PAGE_SIZE == 0 && AndNot(phys, 0xFFF) <= phys
    {
      Pow12();
      AndNotMask(phys, 12);
      FloorMultiple(phys, PAGE_SIZE);
    }

    static lemma DirectoryBound(first: nat, n: nat)
      requires first + n <= PAGES
      ensures DirectoryEnd(first, n) <= ENTRIES
    {
    }

    /** The next page is under the last directory entry touched so far or the one after it. */
    static lemma NextDirectory(first: nat, i: nat)
      ensures DirectoryEnd(first, i + 1) == (first + i) / ENTRIES + 1
      ensures DirectoryEnd(first, i) <= DirectoryEnd(first, i + 1) <= DirectoryEnd(first, i) + 1
      ensures first / ENTRIES <= DirectoryEnd(first, i)
    {
    }

    /** `(va >> 22) & 0x3FF` */
    static function PdIndex(va: nat): nat {
      And(va / 0x40_0000, 0x3FF)
    }

    /** `(va >> 12) & 0x3FF` */
    static function PtIndex(va: nat): nat {
      And(va / PAGE_SIZE, 0x3FF)
    }

    /** The two indices are the page number, split. */
    static lemma IndexSplit(va: nat)
      requires va / PAGE_SIZE < PAGES
      ensures PdIndex(va) == va / PAGE_SIZE / ENTRIES < ENTRIES
      ensures PtIndex(va) == va / PAGE_SIZE % ENTRIES
    {
      hide And;
      IndexMask(va / 0x40_0000);
      IndexMask(va / PAGE_SIZE);
    }

    static lemma IndexMask(x: nat)
      ensures And(x, 0x3FF) == x % ENTRIES
    {
      assert Pow2(10) == 1024;
      AndMask(x, 10);
    }
  }
}
