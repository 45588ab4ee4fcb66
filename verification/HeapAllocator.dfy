// kernel/src/mm/heap_allocator.rs: the kernel heap on top of the buddy allocator.
// A ghost ledger records the payload each pointer was handed out for; the contracts
// speak about the bytes of every payload in it.
module HeapAllocators {
  import opened Wrappers
  import opened Bits
  import opened Blocks
  import opened BuddySystem
  import opened FreeLists
  import opened BuddyAllocators

  const MIN_BLOCK_SIZE := 32

  datatype Payload = Payload(block: Block, layout: Layout)

  type Ledger = map<nat, Payload>

  /**
   * The payload at `p` lies behind the header of its own outstanding block, and the header still holds the order.
   * No smaller block would have held it.
   */
  ghost predicate Sound(r: Region, live: set<Block>, cells: seq<nat>, p: nat, it: Payload) {
    && it.block in live && it.layout.Valid() && it.layout.size > 0
    && r.End(it.block) <= r.end <= |cells|
    && p == it.block.addr + it.layout.Header() && p % it.layout.align == 0
    && p + it.layout.size <= r.End(it.block)
    && cells[it.block.addr] == it.block.order
    && (it.block.order == 0 || r.Size(it.block.order - 1) < it.layout.size + it.layout.Header())
  }

  ghost function BlocksOf(ledger: Ledger): set<Block> {
    set p | p in ledger :: ledger[p].block
  }

  ghost predicate Accounts(r: Region, live: set<Block>, cells: seq<nat>, ledger: Ledger) {
    && live == BlocksOf(ledger)
    && (forall p :: p in ledger ==> Sound(r, live, cells, p, ledger[p]))
    && (forall p, q :: p in ledger && q in ledger && p != q ==> ledger[p].block != ledger[q].block)
  }

  lemma LiveApart(r: Region, s: State, b: Block, c: Block)
    requires Inv(r, s) && b in s.live && c in s.live && b != c
    ensures r.Apart(b, c)
  {
    assert b in s.free + s.live && c in s.free + s.live;
  }

  /** Every payload is disjoint from every other, to the byte. */
  lemma PayloadsApart(r: Region, s: State, cells: seq<nat>, ledger: Ledger, p: nat, q: nat)
    requires Inv(r, s) && Accounts(r, s.live, cells, ledger)
    requires p in ledger && q in ledger && p != q
    ensures p + ledger[p].layout.size <= q || q + ledger[q].layout.size <= p
  {
    hide Inv;
    assert Sound(r, s.live, cells, p, ledger[p]) && Sound(r, s.live, cells, q, ledger[q]);
    LiveApart(r, s, ledger[p].block, ledger[q].block);
  }

  /**
   * `free` takes the cell one header size below the pointer for the header.  In every state of the heap that cell
   * and its address name an outstanding block, the payload's own, exactly for alignments up to the header's size.
   */
  lemma HeaderFoundIff(r: Region, s: State, cells: seq<nat>, ledger: Ledger, p: nat)
    requires Inv(r, s) && Accounts(r, s.live, cells, ledger) && p in ledger
    ensures HEADER_SIZE <= p <= |cells|
    ensures Block(p - HEADER_SIZE, cells[p - HEADER_SIZE]) in s.live <==> ledger[p].layout.align <= HEADER_SIZE
    ensures ledger[p].layout.align <= HEADER_SIZE ==> Block(p - HEADER_SIZE, cells[p - HEADER_SIZE]) == ledger[p].block
  {
    hide Inv;
    assert Sound(r, s.live, cells, p, ledger[p]);
    var found, own := Block(p - HEADER_SIZE, cells[p - HEADER_SIZE]), ledger[p].block;
    if found in s.live && found != own {
      LiveApart(r, s, found, own);
    }
  }

  /**
   * Above that size, if the stale cell reads as an order, `free_block` puts an address on a free list that no
   * block can have: no merge is found for it, and no state with it on a list is valid.
   */
  lemma MisfreedNeverValid(r: Region, s: State, cells: seq<nat>, ledger: Ledger, p: nat, order: nat)
    requires Inv(r, s) && Accounts(r, s.live, cells, ledger) && p in ledger
    requires ledger[p].layout.align > HEADER_SIZE && r.log == 5 && order <= MAX_ORDER
    ensures HEADER_SIZE <= p
    ensures Block(Xor(p - HEADER_SIZE, r.Size(order)), order) !in s.free
    ensures forall s': State :: Block(p - HEADER_SIZE, order) in s'.free ==> !Inv(r, s')
  {
    hide Inv, Accounts, Xor, Pow2, Region.Aligned;
    OwnBlock(r, s, cells, ledger, p);
    OffGrid(r, ledger[p].block, ledger[p].layout, p);
    XorKeepsLow4(p - HEADER_SIZE, 5 + order);
    FreeOnGrid(r, s);
    forall s': State | Block(p - HEADER_SIZE, order) in s'.free
      ensures !Inv(r, s')
    {
      if Inv(r, s') {
        FreeOnGrid(r, s');
      }
    }
  }

  lemma OwnBlock(r: Region, s: State, cells: seq<nat>, ledger: Ledger, p: nat)
    requires Inv(r, s) && Accounts(r, s.live, cells, ledger) && p in ledger
    ensures r.Aligned(ledger[p].block) && ledger[p].layout.Valid() && p == ledger[p].block.addr + ledger[p].layout.Header()
  {
    assert Sound(r, s.live, cells, p, ledger[p]);
    assert ledger[p].block in s.free + s.live;
  }

  lemma FreeOnGrid(r: Region, s: State)
    requires Inv(r, s) && r.log == 5
    ensures forall b :: b in s.free ==> b.addr % 16 == 0
  {
    forall b | b in s.free
      ensures b.addr % 16 == 0
    {
      assert b in s.free + s.live;
      OnGrid(r, b);
    }
  }

  /** Payloads aligned above the header size are multiples of 16. */
  lemma OffGrid(r: Region, own: Block, layout: Layout, p: nat)
    requires r.log == 5 && r.Aligned(own) && layout.Valid() && layout.align > HEADER_SIZE && p == own.addr + layout.Header()
    ensures HEADER_SIZE <= p && (p - HEADER_SIZE) % 16 == 8
  {
    hide Region.Aligned, Layout.Valid;
    OnGrid(r, own);
    BigAlignment(layout);
    Below(own.addr, layout.align);
  }

  lemma Below(a: nat, m: nat)
    requires a % 16 == 0 && m % 16 == 0 && m >= 16
    ensures (a + m - HEADER_SIZE) % 16 == 8
  {
  }

  lemma BigAlignment(layout: Layout)
    requires layout.Valid() && layout.align > HEADER_SIZE
    ensures layout.align % 16 == 0 && layout.align >= 16
  {
    var k: nat :| layout.align == Pow2(k);
    BigPower(k);
  }

  lemma BigPower(k: nat)
    requires Pow2(k) > 8
    ensures Pow2(k) % 16 == 0 && Pow2(k) >= 16
  {
    assert Pow2(3) == 8 && Pow2(4) == 16;
    if k < 4 {
      Pow2Monotone(k, 3);
    }
    hide Pow2;
    Pow2Monotone(4, k);
    DivModUnique(Pow2(k), Pow2(k), 1, 0);
    CoarserPow2(Pow2(k), k, 4);
  }

  lemma OnGrid(r: Region, b: Block)
    requires r.log == 5 && r.Aligned(b)
    ensures b.addr % 16 == 0
  {
    assert Pow2(4) == 16;
    hide Pow2;
    CoarserPow2(b.addr, 5 + b.order, 4);
  }

  /** The contents of a payload. */
  function Bytes(cells: seq<nat>, p: nat, size: nat): seq<nat> {
    if p + size <= |cells| then cells[p..p + size] else []
  }

  function Put(bytes: seq<nat>, i: nat, v: nat): seq<nat>
    requires i < |bytes|
  {
    bytes[i := v]
  }

  /** The contents of all payloads. */
  function Image(cells: seq<nat>, ledger: Ledger): map<nat, seq<nat>> {
    map p | p in ledger :: Bytes(cells, p, ledger[p].layout.size)
  }

  /** No store has hit an outstanding block, except perhaps at the base of the block `other`. */
  ghost predicate Spares(r: Region, live: set<Block>, cells: seq<nat>, cells': seq<nat>, other: Option<Block>) {
    && |cells| == |cells'|
    && forall c: nat :: c < |cells| && cells'[c] != cells[c] && (other.Some? ==> c != other.value.addr) ==> !r.Covered(live, c)
  }

  lemma PayloadSpared(r: Region, s: State, cells: seq<nat>, cells': seq<nat>, other: Option<Block>, live: set<Block>, q: nat, it: Payload)
    requires Inv(r, s) && Sound(r, live, cells, q, it) && it.block in s.live
    requires other.Some? ==> other.value in s.live && other.value != it.block
    requires Spares(r, s.live, cells, cells', other)
    ensures Sound(r, s.live, cells', q, it) && Bytes(cells', q, it.layout.size) == Bytes(cells, q, it.layout.size)
  {
    hide Inv;
    var b := it.block;
    if other.Some? {
      LiveApart(r, s, b, other.value);
    }
    forall c: nat | r.Contains(b, c)
      ensures cells'[c] == cells[c]
    {
      assert r.Covered(s.live, c);
    }
  }

  lemma LedgerAdd(r: Region, was: State, s: State, cells: seq<nat>, cells': seq<nat>, ledger: Ledger, p: nat, it: Payload)
    requires Inv(r, s) && Accounts(r, was.live, cells, ledger)
    requires s.live == was.live + {it.block} && it.block !in was.live
    requires Sound(r, s.live, cells', p, it)
    requires Spares(r, s.live, cells, cells', Some(it.block))
    ensures p !in ledger && Accounts(r, s.live, cells', ledger[p := it])
    ensures Image(cells', ledger[p := it]) - {p} == Image(cells, ledger)
  {
    hide Inv, Spares, Image;
    forall q | q in ledger
      ensures q != p && Sound(r, s.live, cells', q, ledger[q])
      ensures Bytes(cells', q, ledger[q].layout.size) == Bytes(cells, q, ledger[q].layout.size)
    {
      PayloadSpared(r, s, cells, cells', Some(it.block), was.live, q, ledger[q]);
      LiveApart(r, s, ledger[q].block, it.block);
    }
    BlocksAdd(ledger, p, it);
    ImageAdd(cells, cells', ledger, p, it);
  }

  ghost predicate SameBytes(cells: seq<nat>, cells': seq<nat>, ledger: Ledger) {
    forall q :: q in ledger ==> Bytes(cells', q, ledger[q].layout.size) == Bytes(cells, q, ledger[q].layout.size)
  }

  lemma ImageAdd(cells: seq<nat>, cells': seq<nat>, ledger: Ledger, p: nat, it: Payload)
    requires p !in ledger && SameBytes(cells, cells', ledger)
    ensures Image(cells', ledger[p := it]) - {p} == Image(cells, ledger)
  {
  }

  lemma ImageDrop(cells: seq<nat>, cells': seq<nat>, ledger: Ledger, p: nat)
    requires p in ledger && SameBytes(cells, cells', ledger - {p})
    ensures Image(cells', ledger - {p}) == Image(cells, ledger) - {p}
  {
  }

  lemma BlocksAdd(ledger: Ledger, p: nat, it: Payload)
    requires p !in ledger
    ensures BlocksOf(ledger[p := it]) == BlocksOf(ledger) + {it.block}
  {
    var after := ledger[p := it];
    forall b | b in BlocksOf(ledger) + {it.block}
      ensures b in BlocksOf(after)
    {
      if b in BlocksOf(ledger) {
        var q :| q in ledger && ledger[q].block == b;
        assert q in after && after[q].block == b;
      } else {
        assert after[p].block == b;
      }
    }
  }

  lemma LedgerDrop(r: Region, was: State, s: State, cells: seq<nat>, cells': seq<nat>, ledger: Ledger, p: nat)
    requires Inv(r, s) && Accounts(r, was.live, cells, ledger) && p in ledger
    requires s.live == was.live - {ledger[p].block}
    requires Spares(r, s.live, cells, cells', None)
    ensures Accounts(r, s.live, cells', ledger - {p})
    ensures Image(cells', ledger - {p}) == Image(cells, ledger) - {p}
  {
    hide Inv, Spares, Image;
    forall q | q in ledger && q != p
      ensures Sound(r, s.live, cells', q, ledger[q])
      ensures Bytes(cells', q, ledger[q].layout.size) == Bytes(cells, q, ledger[q].layout.size)
    {
      PayloadSpared(r, s, cells, cells', None, was.live, q, ledger[q]);
    }
    ImageDrop(cells, cells', ledger, p);
    BlocksDrop(ledger, p);
  }

  lemma BlocksDrop(ledger: Ledger, p: nat)
    requires p in ledger
    requires forall p, q :: p in ledger && q in ledger && p != q ==> ledger[p].block != ledger[q].block
    ensures BlocksOf(ledger - {p}) == BlocksOf(ledger) - {ledger[p].block}
  {
    var after := ledger - {p};
    forall b | b in BlocksOf(ledger) - {ledger[p].block}
      ensures b in BlocksOf(after)
    {
      var q :| q in ledger && ledger[q].block == b;
      assert q in after && after[q].block == b;
    }
  }

  /** A store into a payload disturbs no header and no other payload. */
  lemma PayloadStore(r: Region, s: State, cells: seq<nat>, ledger: Ledger, p: nat, i: nat, v: nat)
    requires Inv(r, s) && Accounts(r, s.live, cells, ledger)
    requires p in ledger && i < ledger[p].layout.size && p + i < |cells|
    ensures Accounts(r, s.live, cells[p + i := v], ledger)
    ensures |Image(cells, ledger)[p]| == ledger[p].layout.size
    ensures Image(cells[p + i := v], ledger) == Image(cells, ledger)[p := Put(Image(cells, ledger)[p], i, v)]
  {
    hide Inv, Image;
    forall q | q in ledger
      ensures Sound(r, s.live, cells[p + i := v], q, ledger[q])
      ensures q != p ==> Bytes(cells[p + i := v], q, ledger[q].layout.size) == Bytes(cells, q, ledger[q].layout.size)
    {
      StoreSpares(r, s, cells, ledger, p, i, v, q);
    }
    ImageStore(cells, ledger, p, i, v);
  }

  lemma StoreSpares(r: Region, s: State, cells: seq<nat>, ledger: Ledger, p: nat, i: nat, v: nat, q: nat)
    requires Inv(r, s) && Accounts(r, s.live, cells, ledger)
    requires p in ledger && i < ledger[p].layout.size && p + i < |cells| && q in ledger
    ensures Sound(r, s.live, cells[p + i := v], q, ledger[q])
    ensures q != p ==> Bytes(cells[p + i := v], q, ledger[q].layout.size) == Bytes(cells, q, ledger[q].layout.size)
  {
    hide Inv;
    assert Sound(r, s.live, cells, q, ledger[q]) && Sound(r, s.live, cells, p, ledger[p]);
    if q != p {
      PayloadsApart(r, s, cells, ledger, p, q);
      LiveApart(r, s, ledger[p].block, ledger[q].block);
    }
  }

  lemma ImageStore(cells: seq<nat>, ledger: Ledger, p: nat, i: nat, v: nat)
    requires p in ledger && i < ledger[p].layout.size && p + ledger[p].layout.size <= |cells|
    requires SameBytes(cells, cells[p + i := v], ledger - {p})
    ensures |Image(cells, ledger)[p]| == ledger[p].layout.size
    ensures Image(cells[p + i := v], ledger) == Image(cells, ledger)[p := Put(Image(cells, ledger)[p], i, v)]
  {
    var size := ledger[p].layout.size;
    assert Bytes(cells[p + i := v], p, size) == Put(Bytes(cells, p, size), i, v);
    assert forall q :: q in ledger && q != p ==> q in ledger - {p};
  }

  class HeapAllocator {
    var inner: BuddyAllocator?
    ghost var payloads: Ledger

    ghost function Footprint(): set<object>
      reads this, inner
    {
      if inner == null then {} else {inner, inner.freeLists, inner.mem}
    }

    ghost predicate Valid()
      reads this, inner, Footprint()
    {
      && inner != null && inner.Valid() && inner.log == 5
      && Accounts(inner.Managed(), inner.live, inner.mem[..], payloads)
    }

    /** What every live pointer points at. */
    ghost function Contents(): map<nat, seq<nat>>
      requires inner != null
      reads this, inner, Footprint()
    {
      Image(inner.mem[..], payloads)
    }

    constructor ()
      ensures inner == null
    {
      inner := null;
      payloads := map[];
    }

    method Init(mem: array<nat>, start: nat, end: nat)
      requires inner == null
      requires 0 < RoundUp(start, MIN_BLOCK_SIZE) <= AndNot(end, MIN_BLOCK_SIZE - 1) && end <= mem.Length
      modifies this, mem
      ensures Valid() && payloads == map[] && inner.mem == mem && fresh(inner) && fresh(inner.freeLists)
      ensures start <= inner.baseAddr < start + MIN_BLOCK_SIZE
      ensures end - MIN_BLOCK_SIZE < inner.baseAddr + inner.totalSize <= end
      ensures forall c: nat :: c < mem.Length && mem[c] != old(mem[c]) ==> start <= c < end
    {
      assert MIN_BLOCK_SIZE == Pow2(5);
      var buddy := new BuddyAllocator(mem, MIN_BLOCK_SIZE, 5);
      buddy.Init(start, end);
      inner := buddy;
      payloads := map[];
    }

    method Alloc(layout: Layout) returns (result: Option<nat>)
      requires Valid() && layout.Valid()
      modifies this`payloads, Footprint()
      ensures Valid() && inner == old(inner) && inner.Managed() == old(inner.Managed())
      ensures layout.size == 0 ==> result == None
      ensures result == None ==> payloads == old(payloads) && inner.Now() == old(inner.Now()) && Contents() == old(Contents())
      ensures result.Some? ==>
                && result.value !in old(payloads) && result.value in payloads
                && payloads == old(payloads)[result.value := payloads[result.value]]
                && payloads[result.value].layout == layout
                && Contents() - {result.value} == old(Contents())
      ensures result.Some? ==>
                var b := payloads[result.value].block;
                && AllocStep(inner.Managed(), old(inner.Now()), b.order, Some(b.addr), inner.Now())
                && result.value == b.addr + (if layout.align > 8 then layout.align else 8)
                && result.value % layout.align == 0 && result.value + layout.size <= inner.Managed().End(b)
                && (b.order == 0 || inner.Managed().Size(b.order - 1) < layout.size + layout.Header())
      ensures result == None && layout.size > 0 ==>
                forall b: Block :: b.order <= MAX_ORDER && inner.Managed().Aligned(b) && WhollyFree(inner.Managed(), old(inner.Now()), b) ==>
                  inner.Managed().Size(b.order) < layout.size + layout.Header()
      ensures forall c: nat :: c < inner.mem.Length && inner.Managed().Covered(old(inner.live), c) ==> inner.mem[c] == old(inner.mem[c])
    {
      hide Inv, Accounts, AllocStep, WhollyFree, Linked, FreeSet, Image, Layout.Header, Layout.Valid, Region.Size, Region.Aligned;
      ghost var r, was, cells := inner.Managed(), inner.Now(), inner.mem[..];
      ghost var block;
      result, block := inner.Alloc(layout);
      if result.Some? {
        BlockIsNew(r, was, block, inner.Now());
        ServedBlock(r, was, block, inner.Now());
        ghost var it := Payload(block, layout);
        assert Spares(r, inner.live, cells, inner.mem[..], Some(block));
        LedgerAdd(r, was, inner.Now(), cells, inner.mem[..], payloads, result.value, it);
        payloads := payloads[result.value := it];
      }
    }

    static lemma ServedBlock(r: Region, was: State, block: Block, now: State)
      requires Inv(r, was) && AllocStep(r, was, block.order, Some(block.addr), now)
      ensures now.live == was.live + {block} && block !in was.live
    {
      AllocKeepsInv(r, was, block.order, Some(block.addr), now);
    }

    static lemma BlockIsNew(r: Region, was: State, block: Block, now: State)
      requires Inv(r, was) && AllocStep(r, was, block.order, Some(block.addr), now)
      ensures !r.Covered(was.live, block.addr)
      ensures forall c: nat :: r.Covered(was.live, c) ==> r.Covered(now.live, c)
    {
      BuddyAllocator.ServedInside(r, was, block, now);
      AllocKeepsInv(r, was, block.order, Some(block.addr), now);
      BaseIsItsOwn(r, now.free + now.live, was.live, block);
    }

    /** A store through a pointer the heap handed out, within the size asked for. */
    method Store(p: nat, i: nat, v: nat)
      requires Valid() && p in payloads && i < payloads[p].layout.size
      modifies inner.mem
      ensures Valid() && inner.Now() == old(inner.Now())
      ensures |old(Contents())[p]| == payloads[p].layout.size
      ensures Contents() == old(Contents())[p := Put(old(Contents())[p], i, v)]
      ensures p + i < inner.mem.Length && inner.mem[..] == old(inner.mem[..])[p + i := v]
    {
      hide Inv, Accounts, Linked, FreeSet, Image;
      InBounds(inner.Managed(), inner.live, inner.mem[..], payloads, p);
      ghost var cells := inner.mem[..];
      PayloadStore(inner.Managed(), inner.Now(), cells, payloads, p, i, v);
      BuddyAllocator.NoListCell(inner.Managed(), inner.live, inner.freeLists[..], cells, inner.lists, payloads[p].block, p + i, v);
      inner.mem[p + i] := v;
      assert inner.mem[..] == cells[p + i := v];
    }

    /**
     * Freeing `p` leaves the allocator valid: the header is found, or the cell taken for it holds no order, so that
     * the block is not freed at all.  What happens otherwise is `MisfreedNeverValid`.
     */
    ghost predicate Freeable(p: nat)
      reads this, inner, Footprint()
    {
      && inner != null && p in payloads && HEADER_SIZE <= p <= inner.mem.Length
      && (payloads[p].layout.align <= HEADER_SIZE || inner.mem[p - HEADER_SIZE] > MAX_ORDER)
    }

    /** `dealloc` ignores the layout it is given and goes by the header. */
    method Dealloc(p: nat)
      requires Valid() && Freeable(p)
      modifies this`payloads, Footprint()
      ensures Valid() && inner == old(inner) && inner.Managed() == old(inner.Managed())
      ensures old(payloads[p].layout.align) <= HEADER_SIZE ==>
                && payloads == old(payloads) - {p} && Contents() == old(Contents()) - {p}
                && inner.live == old(inner.live) - {old(payloads[p].block)}
      ensures old(payloads[p].layout.align) > HEADER_SIZE ==>
                payloads == old(payloads) && Contents() == old(Contents()) && inner.Now() == old(inner.Now())
    {
      hide Inv, Accounts, FreeStep, Image, Linked;
      ghost var r, was, cells := inner.Managed(), inner.Now(), inner.mem[..];
      InBounds(r, inner.live, cells, payloads, p);
      HeaderFoundIff(r, was, cells, payloads, p);
      ghost var block := payloads[p].block;
      inner.Free(p);
      if payloads[p].layout.align <= HEADER_SIZE {
        FreedBlock(r, was, block, inner.Now());
        LedgerDrop(r, was, inner.Now(), cells, inner.mem[..], payloads, p);
        payloads := payloads - {p};
      } else {
        NotFreed(r, was, Block(p - HEADER_SIZE, cells[p - HEADER_SIZE]), inner.Now());
        LedgerKept(r, was, cells, inner.mem[..], payloads);
      }
    }

    static lemma NotFreed(r: Region, was: State, b: Block, now: State)
      requires FreeStep(r, was, b, now) && b.order > MAX_ORDER
      ensures now == was
    {
    }

    /** `realloc`: a fresh payload gets the common prefix, then the old one is freed.  Failure leaves everything as it was. */
    method Realloc(p: nat, oldLayout: Layout, newSize: nat) returns (result: Option<nat>)
      requires Valid() && Freeable(p) && payloads[p].layout == oldLayout
      modifies this`payloads, Footprint()
      ensures Valid() && inner == old(inner) && inner.Managed() == old(inner.Managed())
      ensures newSize == 0 ==> result == None
      ensures result == None ==> payloads == old(payloads) && Contents() == old(Contents())
      ensures result == None && newSize > 0 ==>
                forall b: Block :: b.order <= MAX_ORDER && inner.Managed().Aligned(b) && WhollyFree(inner.Managed(), old(inner.Now()), b) ==>
                  inner.Managed().Size(b.order) < newSize + Layout(newSize, oldLayout.align).Header()
      ensures result.Some? ==>
                && result.value !in old(payloads) && result.value in payloads
                && payloads == old(payloads)[result.value := payloads[result.value]] - Dropped(p, oldLayout)
                && payloads[result.value].layout == Layout(newSize, oldLayout.align)
                && Contents() - {result.value} == old(Contents()) - Dropped(p, oldLayout)
                && SamePrefix(Contents(), result.value, newSize, old(Contents()), p, oldLayout.size)
    {
      hide Inv, Accounts, Image, Linked, AllocStep, WhollyFree, FreeSet, Region.Size, Region.Contains, Region.Covered, Layout.Header, SamePrefix;
      InBounds(inner.Managed(), inner.live, inner.mem[..], payloads, p);
      BehindHeader(inner.Managed(), inner.live, inner.mem[..], payloads, p);
      result := Alloc(Layout(newSize, oldLayout.align));
      if result == None {
        return;
      }
      var newPtr := result.value;
      var count := Min(oldLayout.size, newSize);
      ghost var midway := Contents();
      InBounds(inner.Managed(), inner.live, inner.mem[..], payloads, p);
      InBounds(inner.Managed(), inner.live, inner.mem[..], payloads, newPtr);
      OtherEntry(midway, old(Contents()), newPtr, p);
      CellElsewhere(inner.Managed(), inner.Now(), inner.mem[..], payloads, p, newPtr);
      CopyPayload(p, newPtr, count);
      ghost var copied := Contents();
      OtherEntries(copied, midway, old(Contents()), newPtr);
      Dealloc(p);
      if oldLayout.align <= HEADER_SIZE {
        OtherEntry(Contents(), copied, p, newPtr);
      }
      CommonPrefix(Contents(), newPtr, newSize, old(Contents()), p, oldLayout.size, count);
    }

    /** What the free at the end of `realloc` removes. */
    static function Dropped(p: nat, layout: Layout): set<nat> {
      if layout.align <= HEADER_SIZE then {p} else {}
    }

    /** `copy_nonoverlapping` between two payloads */
    method CopyPayload(p: nat, newPtr: nat, count: nat)
      requires Valid() && p in payloads && newPtr in payloads && p != newPtr
      requires count <= payloads[p].layout.size && count <= payloads[newPtr].layout.size
      modifies inner.mem
      ensures Valid() && inner.Now() == old(inner.Now())
      ensures Contents().Keys == old(Contents()).Keys && Contents() - {newPtr} == old(Contents()) - {newPtr}
      ensures p in Contents() && newPtr in Contents() && |Contents()[newPtr]| == payloads[newPtr].layout.size
      ensures count <= |old(Contents())[p]| && Contents()[newPtr][..count] == old(Contents())[p][..count]
      ensures forall c: nat :: c < inner.mem.Length && !(newPtr <= c < newPtr + count) ==> inner.mem[c] == old(inner.mem[c])
    {
      hide Inv, Accounts, Linked, Image, Region.Contains, Layout.Valid, Layout.Header, BlocksOf, FreeSet;
      ghost var before := Contents();
      InBounds(inner.Managed(), inner.live, inner.mem[..], payloads, p);
      InBounds(inner.Managed(), inner.live, inner.mem[..], payloads, newPtr);
      hide Put;
      for i := 0 to count
        invariant Valid() && inner.Now() == old(inner.Now())
        invariant Contents().Keys == before.Keys && Contents() - {newPtr} == before - {newPtr}
        invariant |Contents()[newPtr]| == payloads[newPtr].layout.size && Contents()[newPtr][..i] == before[p][..i]
        invariant forall c: nat :: c < inner.mem.Length && !(newPtr <= c < newPtr + i) ==> inner.mem[c] == old(inner.mem[c])
      {
        OtherEntry(Contents(), before, newPtr, p);
        PrefixGrows(Contents()[newPtr], before[p], i);
        CopyByte(p, newPtr, i);
      }
    }

    static lemma PrefixGrows(s: seq<nat>, t: seq<nat>, i: nat)
      requires i < |s| && i < |t| && s[..i] == t[..i]
      ensures Put(s, i, t[i])[..i + 1] == t[..i + 1] && |Put(s, i, t[i])| == |s|
    {
    }

    method CopyByte(p: nat, newPtr: nat, i: nat)
      requires Valid() && p in payloads && newPtr in payloads && i < payloads[p].layout.size && i < payloads[newPtr].layout.size
      modifies inner.mem
      ensures Valid() && inner.Now() == old(inner.Now())
      ensures p in old(Contents()) && i < |old(Contents())[p]| && newPtr in old(Contents()) && i < |old(Contents())[newPtr]|
      ensures Contents() == old(Contents())[newPtr := Put(old(Contents())[newPtr], i, old(Contents())[p][i])]
      ensures newPtr + i < inner.mem.Length
      ensures forall c: nat :: c < inner.mem.Length && c != newPtr + i ==> inner.mem[c] == old(inner.mem[c])
    {
      hide Inv, Accounts, Linked, Image;
      InBounds(inner.Managed(), inner.live, inner.mem[..], payloads, p);
      InBounds(inner.Managed(), inner.live, inner.mem[..], payloads, newPtr);
      Store(newPtr, i, inner.mem[p + i]);
    }
  }

  /** The case above the header size arises: an allocation aligned to 16 succeeds, and `free` will not find its header. */
  method AlignedTo16(mem: array<nat>) returns (heap: HeapAllocator, p: nat)
    requires mem.Length >= 128
    modifies mem
    ensures heap.Valid() && heap.inner.mem == mem
    ensures p in heap.payloads && heap.payloads[p].layout == Layout(1, 16)
    ensures HEADER_SIZE <= p <= mem.Length && Block(p - HEADER_SIZE, mem[p - HEADER_SIZE]) !in heap.inner.live
  {
    hide Inv, Accounts, WhollyFree, Image, Linked;
    SixteenIsAligned();
    RoomFor128();
    heap := new HeapAllocator();
    heap.Init(mem, 32, 128);
    ghost var r, s := heap.inner.Managed(), heap.inner.Now();
    NothingLive(r, s, heap.inner.mem[..]);
    ghost var b := SomethingFree(r, s);
    var result := heap.Alloc(Layout(1, 16));
    p := result.value;
    HeaderFoundIff(heap.inner.Managed(), heap.inner.Now(), heap.inner.mem[..], heap.payloads, p);
  }

  lemma NothingLive(r: Region, s: State, cells: seq<nat>)
    requires Accounts(r, s.live, cells, map[])
    ensures s.live == {}
  {
  }

  lemma SixteenIsAligned()
    ensures Layout(1, 16).Valid() && Layout(1, 16).Header() == 16
  {
    assert Pow2(4) == 16;
  }

  lemma RoomFor128()
    ensures 0 < RoundUp(32, MIN_BLOCK_SIZE) <= AndNot(128, MIN_BLOCK_SIZE - 1)
  {
    assert Pow2(5) == MIN_BLOCK_SIZE;
    hide RoundUp, AndNot, Pow2;
    RoundUpMeaning(32, 5);
    AndNotMask(128, 5);
  }

  lemma SomethingFree(r: Region, s: State) returns (b: Block)
    requires Inv(r, s) && s.live == {} && r.base < r.end && r.log == 5
    ensures b.order <= MAX_ORDER && r.Aligned(b) && WhollyFree(r, s, b) && r.Size(b.order) >= 32
  {
    b := r.TileAt(s.free + s.live, r.base);
    assert b in s.free;
    assert Pow2(5) == 32;
    Pow2Monotone(5, 5 + b.order);
  }

  function Min(a: nat, b: nat): nat {
    if a < b then a else b
  }

  /** The first bytes of a payload, as many as both have, are those of another. */
  ghost predicate SamePrefix(now: map<nat, seq<nat>>, p: nat, size: nat, was: map<nat, seq<nat>>, q: nat, oldSize: nat) {
    && p in now && q in was && |now[p]| == size && |was[q]| == oldSize
    && forall k: nat :: k < size && k < oldSize ==> now[p][k] == was[q][k]
  }

  lemma CommonPrefix(now: map<nat, seq<nat>>, p: nat, size: nat, was: map<nat, seq<nat>>, q: nat, oldSize: nat, count: nat)
    requires p in now && q in was && |now[p]| == size && |was[q]| == oldSize && count == Min(oldSize, size)
    requires now[p][..count] == was[q][..count]
    ensures SamePrefix(now, p, size, was, q, oldSize)
  {
    forall k: nat | k < size && k < oldSize
      ensures now[p][k] == was[q][k]
    {
      assert now[p][k] == now[p][..count][k] && was[q][k] == was[q][..count][k];
    }
  }

  lemma OtherEntry(m: map<nat, seq<nat>>, m': map<nat, seq<nat>>, x: nat, p: nat)
    requires m - {x} == m' - {x} && p in m && p != x
    ensures p in m' && m[p] == m'[p]
  {
    assert p in m - {x} && (m - {x})[p] == m[p];
    assert p in m' - {x};
  }

  lemma OtherEntries(m: map<nat, seq<nat>>, m': map<nat, seq<nat>>, m'': map<nat, seq<nat>>, x: nat)
    requires m - {x} == m' - {x} && m' - {x} == m''
    ensures m - {x} == m''
  {
  }

  lemma InBounds(r: Region, live: set<Block>, cells: seq<nat>, ledger: Ledger, p: nat)
    requires Accounts(r, live, cells, ledger) && p in ledger
    ensures p + ledger[p].layout.size <= |cells| && ledger[p].layout.size > 0 && ledger[p].layout.Valid()
    ensures ledger[p].block in live && r.Contains(ledger[p].block, p) && HEADER_SIZE <= p
    ensures r.Contains(ledger[p].block, p + ledger[p].layout.size - 1)
    ensures p in Image(cells, ledger) && Image(cells, ledger)[p] == cells[p..p + ledger[p].layout.size]
    ensures cells[ledger[p].block.addr] == ledger[p].block.order && ledger[p].block.addr + ledger[p].layout.Header() == p
  {
    assert Sound(r, live, cells, p, ledger[p]);
  }

  /** The cell `free` takes for the header is in the payload's own block. */
  lemma BehindHeader(r: Region, live: set<Block>, cells: seq<nat>, ledger: Ledger, p: nat)
    requires Accounts(r, live, cells, ledger) && p in ledger
    ensures HEADER_SIZE <= p && r.Contains(ledger[p].block, p - HEADER_SIZE) && r.Covered(live, p - HEADER_SIZE)
  {
    assert Sound(r, live, cells, p, ledger[p]);
  }

  lemma CellElsewhere(r: Region, s: State, cells: seq<nat>, ledger: Ledger, p: nat, q: nat)
    requires Inv(r, s) && Accounts(r, s.live, cells, ledger) && p in ledger && q in ledger && p != q
    ensures HEADER_SIZE <= p && !(q <= p - HEADER_SIZE < q + ledger[q].layout.size)
  {
    hide Inv;
    BehindHeader(r, s.live, cells, ledger, p);
    assert Sound(r, s.live, cells, q, ledger[q]);
    LiveApart(r, s, ledger[p].block, ledger[q].block);
  }

  /** Stores outside outstanding blocks disturb no payload. */
  lemma LedgerKept(r: Region, s: State, cells: seq<nat>, cells': seq<nat>, ledger: Ledger)
    requires Inv(r, s) && Accounts(r, s.live, cells, ledger) && Spares(r, s.live, cells, cells', None)
    ensures Accounts(r, s.live, cells', ledger) && Image(cells', ledger) == Image(cells, ledger)
  {
    forall p | p in ledger
      ensures Sound(r, s.live, cells', p, ledger[p])
      ensures Bytes(cells', p, ledger[p].layout.size) == Bytes(cells, p, ledger[p].layout.size)
    {
      assert Sound(r, s.live, cells, p, ledger[p]);
      PayloadSpared(r, s, cells, cells', None, s.live, p, ledger[p]);
    }
  }

  lemma FreedBlock(r: Region, was: State, block: Block, now: State)
    requires Inv(r, was) && FreeStep(r, was, block, now) && block in was.live
    ensures now.live == was.live - {block}
  {
    assert block in was.free + was.live;
    assert r.Inside(block);
  }
}
