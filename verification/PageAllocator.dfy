// kernel/src/mm/page_allocator.rs and the owning wrappers of page_table.rs.
// Every wrapper remembers its address; what it gives back on drop is fixed by its type.
module PageAllocators {
  import opened Wrappers
  import opened Bits
  import opened Blocks
  import opened BuddySystem
  import opened FreeLists
  import opened BuddyAllocators

  /** An owned allocation.  A `PageBlock` carries its order as a type parameter. */
  datatype Owned =
    | Page(addr: nat)
    | PageBlock(addr: nat, order: nat)
    | L1Table(addr: nat)
    | L2Table(addr: nat)

  /** What to allocate, and with which order the page allocator asks for it. */
  datatype Request = APage | ABlock(order: nat) | AnL1Table | AnL2Table

  function RequestOrder(q: Request): nat {
    match q
    case APage => 0
    case ABlock(order) => order
    case AnL1Table => 2
    case AnL2Table => 0
  }

  function Wrap(q: Request, addr: nat): Owned {
    match q
    case APage => Page(addr)
    case ABlock(order) => PageBlock(addr, order)
    case AnL1Table => L1Table(addr)
    case AnL2Table => L2Table(addr)
  }

  /** The order each `Drop` implementation frees with. */
  function DropOrder(o: Owned): nat {
    match o
    case Page(_) => 0
    case PageBlock(_, order) => order
    case L1Table(_) => 2
    case L2Table(_) => 0
  }

  function BlockOf(o: Owned): Block {
    Block(o.addr, DropOrder(o))
  }

  /** Bytes each constructor zeroes from the wrapper's address on. */
  function ZeroedBytes(o: Owned): nat {
    match o
    case Page(_) => PAGE_SIZE
    case PageBlock(_, order) => Shl(PAGE_SIZE, order)
    case L1Table(_) => Shl(PAGE_SIZE, 1)
    case L2Table(_) => PAGE_SIZE
  }

  ghost function BlocksOf(owned: set<Owned>): set<Block> {
    set o | o in owned :: BlockOf(o)
  }

  /** No two wrappers own the same block. */
  ghost predicate OneOwner(owned: set<Owned>) {
    forall o, p :: o in owned && p in owned && BlockOf(o) == BlockOf(p) ==> o == p
  }

  // ---- Wrappers own what they free ----

  /** Each wrapper frees with the order it was allocated with; a first-level table takes four pages. */
  lemma DropMatchesRequest(q: Request, addr: nat)
    ensures BlockOf(Wrap(q, addr)) == Block(addr, RequestOrder(q))
    ensures BlockOf(Wrap(q, addr)) == Block(addr, if q.ABlock? then q.order else if q.AnL1Table? then 2 else 0)
  {
  }

  /** A new wrapper's memory is zeroed whole exactly when it is not an L1 table, of which one half is. */
  lemma ZeroedWhole(r: Region, o: Owned)
    requires r.log == 12
    ensures ZeroedBytes(o) <= r.Size(DropOrder(o))
    ensures ZeroedBytes(o) == r.Size(DropOrder(o)) <==> !o.L1Table?
    ensures o.L1Table? ==> 2 * ZeroedBytes(o) == r.Size(DropOrder(o))
  {
    assert PAGE_SIZE == Pow2(12);
    ShlPow2(12, DropOrder(o));
    ShlPow2(12, 1);
    assert Pow2(14) == 2 * Pow2(13);
  }

  predicate AllZero(cells: seq<nat>, start: nat, end: nat)
    requires end <= |cells|
  {
    forall c :: start <= c < end ==> cells[c] == 0
  }

  lemma OwnAdd(owned: set<Owned>, o: Owned)
    requires OneOwner(owned) && BlockOf(o) !in BlocksOf(owned)
    ensures OneOwner(owned + {o}) && BlocksOf(owned + {o}) == BlocksOf(owned) + {BlockOf(o)}
    ensures o !in owned
  {
    forall b | b in BlocksOf(owned) + {BlockOf(o)}
      ensures b in BlocksOf(owned + {o})
    {
      if b in BlocksOf(owned) {
        var p :| p in owned && BlockOf(p) == b;
        assert p in owned + {o};
      } else {
        assert o in owned + {o};
      }
    }
    assert o in owned ==> BlockOf(o) in BlocksOf(owned);
    forall p, q | p in owned + {o} && q in owned + {o} && BlockOf(p) == BlockOf(q)
      ensures p == q
    {
      assert p in owned ==> BlockOf(p) in BlocksOf(owned);
      assert q in owned ==> BlockOf(q) in BlocksOf(owned);
    }
  }

  lemma OwnDrop(owned: set<Owned>, o: Owned)
    requires OneOwner(owned) && o in owned
    ensures OneOwner(owned - {o}) && BlocksOf(owned - {o}) == BlocksOf(owned) - {BlockOf(o)}
    ensures BlockOf(o) in BlocksOf(owned)
  {
    forall b | b in BlocksOf(owned) - {BlockOf(o)}
      ensures b in BlocksOf(owned - {o})
    {
      var p :| p in owned && BlockOf(p) == b;
      assert p in owned - {o};
    }
  }

  // ---- Runs of acquisitions and drops ----

  datatype Held = Held(blocks: State, owned: set<Owned>)

  datatype Event = Acquire(request: Request, result: Option<Owned>) | Drop(wrapper: Owned)

  ghost predicate HeldInv(r: Region, h: Held) {
    Inv(r, h.blocks) && h.blocks.live == BlocksOf(h.owned) && OneOwner(h.owned)
  }

  /** A drop frees whatever block the wrapper's type and address name, without looking whether it is outstanding. */
  ghost predicate HeldStep(r: Region, h: Held, e: Event, h': Held) {
    match e
    case Acquire(q, None) =>
      AllocStep(r, h.blocks, RequestOrder(q), None, h'.blocks) && h'.owned == h.owned
    case Acquire(q, Some(o)) =>
      AllocStep(r, h.blocks, RequestOrder(q), Some(o.addr), h'.blocks) && o == Wrap(q, o.addr) && h'.owned == h.owned + {o}
    case Drop(o) =>
      && o in h.owned && r.Aligned(BlockOf(o)) && h'.owned == h.owned - {o}
      && h'.blocks == if BlockOf(o).order > MAX_ORDER then h.blocks
                      else State(Coalesce(r, h.blocks.free, BlockOf(o)), h.blocks.live - {BlockOf(o)})
  }

  lemma HeldStepKeeps(r: Region, h: Held, e: Event, h': Held)
    requires HeldInv(r, h) && HeldStep(r, h, e, h')
    ensures HeldInv(r, h')
    ensures e.Drop? ==> BlockOf(e.wrapper) in h.blocks.live && FreeStep(r, h.blocks, BlockOf(e.wrapper), h'.blocks)
  {
    match e
    case Acquire(q, None) =>
      AllocKeepsInv(r, h.blocks, RequestOrder(q), None, h'.blocks);
    case Acquire(q, Some(o)) =>
      AllocKeepsInv(r, h.blocks, RequestOrder(q), Some(o.addr), h'.blocks);
      DropMatchesRequest(q, o.addr);
      OwnAdd(h.owned, o);
    case Drop(o) =>
      OwnDrop(h.owned, o);
      LiveOrder(r, h.blocks, BlockOf(o));
      FreeKeepsInv(r, h.blocks, BlockOf(o), h'.blocks);
  }

  lemma LiveOrder(r: Region, s: State, b: Block)
    requires Inv(r, s) && b in s.live
    ensures b.order <= MAX_ORDER && r.Aligned(b)
  {
    assert b in s.free + s.live;
    assert r.Inside(b);
  }

  ghost predicate HeldRun(r: Region, run: seq<Held>, events: seq<Event>) {
    && |run| == |events| + 1
    && forall i :: 0 <= i < |events| ==> HeldStep(r, run[i], events[i], run[i + 1])
  }

  lemma {:induction false} HeldRunKeeps(r: Region, run: seq<Held>, events: seq<Event>, k: nat)
    requires HeldRun(r, run, events) && HeldInv(r, run[0]) && k < |run|
    ensures HeldInv(r, run[k])
  {
    if k > 0 {
      HeldRunKeeps(r, run, events, k - 1);
      HeldStepKeeps(r, run[k - 1], events[k - 1], run[k]);
    }
  }

  /** Dropping every wrapper, in whatever order, gives back exactly the free blocks the run began with. */
  lemma DroppingAllRestores(r: Region, run: seq<Held>, events: seq<Event>)
    requires HeldRun(r, run, events) && HeldInv(r, run[0])
    requires run[0].owned == {} && run[|run| - 1].owned == {}
    ensures run[|run| - 1] == run[0]
  {
    HeldRunKeeps(r, run, events, |run| - 1);
    SameLiveSameFree(r, run[0].blocks, run[|run| - 1].blocks);
  }

  class PageAllocator {
    var inner: BuddyAllocator?
    ghost var owned: set<Owned>

    ghost function Footprint(): set<object>
      reads this, inner
    {
      if inner == null then {} else {inner, inner.freeLists, inner.mem}
    }

    /** The wrappers alive own exactly the outstanding blocks, one each. */
    ghost predicate Valid()
      reads this, inner, Footprint()
    {
      && inner != null && inner.Valid() && inner.minBlockSize == PAGE_SIZE && inner.log == 12
      && inner.live == BlocksOf(owned)
      && OneOwner(owned)
    }

    ghost function Now(): Held
      requires inner != null
      reads this, inner
    {
      Held(inner.Now(), owned)
    }

    constructor ()
      ensures inner == null && owned == {}
    {
      inner := null;
      owned := {};
    }

    method Init(mem: array<nat>, start: nat, end: nat)
      requires inner == null && owned == {}
      requires 0 < RoundUp(start, PAGE_SIZE) <= AndNot(end, PAGE_SIZE - 1) && end <= mem.Length
      modifies this, mem
      ensures Valid() && owned == {} && inner.mem == mem && fresh(inner) && fresh(inner.freeLists)
      ensures start <= inner.baseAddr < start + PAGE_SIZE
      ensures end - PAGE_SIZE < inner.baseAddr + inner.totalSize <= end
      ensures forall c: nat :: c < mem.Length && mem[c] != old(mem[c]) ==> start <= c < end
    {
      assert PAGE_SIZE == Pow2(12);
      var buddy := new BuddyAllocator(mem, PAGE_SIZE, 12);
      buddy.Init(start, end);
      inner := buddy;
    }

    /** Allocation followed by the wrapper's constructor, which zeroes memory. */
    method Acquire(q: Request) returns (result: Option<Owned>)
      requires Valid()
      modifies this`owned, Footprint()
      ensures Valid() && inner == old(inner) && inner.Managed() == old(inner.Managed())
      ensures HeldStep(inner.Managed(), old(Now()), Event.Acquire(q, result), Now())
      ensures result.Some? ==>
                match q
                case APage => result.value == Page(result.value.addr)
                case ABlock(order) => result.value == PageBlock(result.value.addr, order)
                case AnL1Table => result.value == L1Table(result.value.addr)
                case AnL2Table => result.value == L2Table(result.value.addr)
      ensures result.Some? ==>
                var a, n := result.value.addr, ZeroedBytes(result.value);
                a + n <= inner.mem.Length && forall c :: a <= c < a + n ==> inner.mem[c] == 0
      ensures result.Some? ==>
                var rest, end := result.value.addr + ZeroedBytes(result.value), inner.Managed().End(BlockOf(result.value));
                && rest <= end <= inner.mem.Length && (rest < end <==> result.value.L1Table?)
                && (forall c :: rest <= c < end ==> inner.mem[c] == old(inner.mem[c]))
                && (AllZero(inner.mem[..], result.value.addr, end) <==> AllZero(old(inner.mem[..]), rest, end))
      ensures forall c: nat :: c < inner.mem.Length && inner.mem[c] != old(inner.mem[c]) ==>
                !inner.Managed().Covered(old(inner.live), c)
    {
      hide Inv, AllocStep, WhollyFree, Region.Covered, FreeSet, Linked, OneOwner, BlocksOf, AllZero, ZeroedBytes, Region.Size;
      ghost var r := inner.Managed();
      var found := TakeBlock(q);
      if found == None {
        return None;
      }
      var o := Wrap(q, found.value);
      DropMatchesRequest(q, found.value);
      ZeroedWhole(r, o);
      OwnAdd(owned, o);
      ZeroFill(o.addr, ZeroedBytes(o), BlockOf(o));
      ZeroedRest(old(inner.mem[..]), inner.mem[..], o.addr, o.addr + ZeroedBytes(o), r.End(BlockOf(o)));
      owned := owned + {o};
      return Some(o);
    }

    /** `alloc_block` for single pages and L2 tables, `alloc_block_order` for the rest. */
    method TakeBlock(q: Request) returns (found: Option<nat>)
      requires Valid()
      modifies Footprint()
      ensures inner.Valid() && inner.Managed() == old(inner.Managed())
      ensures AllocStep(inner.Managed(), old(inner.Now()), RequestOrder(q), found, inner.Now())
      ensures found == None ==> inner.Now() == old(inner.Now())
      ensures found.Some? ==>
                var b := Block(found.value, RequestOrder(q));
                && inner.Managed().Inside(b) && b !in old(inner.live) && inner.live == old(inner.live) + {b}
                && inner.Managed().End(b) <= inner.mem.Length
                && (forall c: nat :: c < inner.mem.Length && inner.Managed().Contains(b, c) ==>
                      inner.mem[c] == old(inner.mem[c]) && !inner.Managed().Covered(old(inner.live), c))
      ensures forall c: nat :: c < inner.mem.Length && inner.mem[c] != old(inner.mem[c]) ==>
                !inner.Managed().Covered(old(inner.live), c)
    {
      hide Inv, WhollyFree, Region.Covered, FreeSet, Linked, OneOwner, BlocksOf;
      ghost var r, was := inner.Managed(), inner.Now();
      if q.APage? || q.AnL2Table? {
        found := inner.AllocBlock();
      } else {
        found := inner.AllocBlockOrder(RequestOrder(q));
      }
      hide AllocStep;
      if found.Some? {
        ghost var b := Block(found.value, RequestOrder(q));
        AcquiredBlock(r, was, b, inner.Now());
        NewBlockKept(r, old(inner.mem[..]), inner.mem[..], inner.live, b);
      }
    }

    /** Splitting stores only into the free halves, so the block in hand is as it was. */
    static lemma NewBlockKept(r: Region, was: seq<nat>, cells: seq<nat>, live: set<Block>, b: Block)
      requires |was| == |cells| && b in live
      requires forall c: nat :: c < |cells| && cells[c] != was[c] ==> !r.Covered(live, c)
      ensures forall c: nat :: c < |cells| && r.Contains(b, c) ==> cells[c] == was[c]
    {
    }

    static lemma ZeroedRest(was: seq<nat>, cells: seq<nat>, addr: nat, rest: nat, end: nat)
      requires |was| == |cells| && addr <= rest <= end <= |cells|
      requires forall c :: addr <= c < rest ==> cells[c] == 0
      requires forall c :: rest <= c < end ==> cells[c] == was[c]
      ensures AllZero(cells, addr, end) <==> AllZero(was, rest, end)
    {
    }

    static lemma AcquiredBlock(r: Region, was: State, b: Block, now: State)
      requires Inv(r, was) && AllocStep(r, was, b.order, Some(b.addr), now)
      ensures r.Inside(b) && b !in was.live && now.live == was.live + {b}
      ensures forall c: nat :: r.Contains(b, c) || !r.Covered(now.live, c) ==> !r.Covered(was.live, c)
    {
      BuddyAllocator.ServedInside(r, was, b, now);
      AllocKeepsInv(r, was, b.order, Some(b.addr), now);
      forall c: nat | r.Covered(was.live, c)
        ensures !r.Contains(b, c) && r.Covered(now.live, c)
      {
        var l := BlockAt(r, was.live, c);
        assert l in now.free + now.live && b in now.free + now.live;
        assert r.Apart(l, b);
      }
    }

    /** `write_bytes(addr, 0, count)` inside an outstanding block */
    method ZeroFill(addr: nat, count: nat, ghost b: Block)
      requires inner != null && inner.Valid() && b in inner.live && inner.Managed().Inside(b)
      requires b.addr == addr && count <= inner.Managed().Size(b.order)
      modifies inner.mem
      ensures inner.Valid() && addr + count <= inner.mem.Length
      ensures forall c :: addr <= c < addr + count ==> inner.mem[c] == 0
      ensures forall c: nat :: c < inner.mem.Length && inner.mem[c] != old(inner.mem[c]) ==>
                addr <= c < addr + count && inner.Managed().Contains(b, c)
    {
      hide Inv, FreeSet, Linked;
      var i := 0;
      while i < count
        invariant 0 <= i <= count && inner.Valid()
        invariant forall c :: addr <= c < addr + i ==> inner.mem[c] == 0
        invariant forall c: nat :: c < inner.mem.Length && inner.mem[c] != old(inner.mem[c]) ==> addr <= c < addr + i
      {
        ghost var cells := inner.mem[..];
        BuddyAllocator.NoListCell(inner.Managed(), inner.live, inner.freeLists[..], cells, inner.lists, b, addr + i, 0);
        inner.mem[addr + i] := 0;
        assert inner.mem[..] == cells[addr + i := 0];
        i := i + 1;
      }
    }

    method Release(o: Owned)
      requires Valid() && o in owned
      modifies this`owned, Footprint()
      ensures Valid() && inner == old(inner) && inner.Managed() == old(inner.Managed())
      ensures HeldStep(inner.Managed(), old(Now()), Event.Drop(o), Now())
      ensures forall c: nat :: c < inner.mem.Length && inner.mem[c] != old(inner.mem[c]) ==>
                !inner.Managed().Covered(inner.live, c)
    {
      hide Inv, Coalesce, Region.Covered, FreeSet, Linked, OneOwner, BlocksOf;
      ghost var r, was := inner.Managed(), inner.Now();
      OwnDrop(owned, o);
      LiveOrder(r, was, BlockOf(o));
      inner.FreeBlock(o.addr, DropOrder(o));
      owned := owned - {o};
    }
  }
}
