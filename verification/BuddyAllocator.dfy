// kernel/src/mm/buddy_allocator.rs: the allocator itself, with its free lists
// threaded through the managed memory.  A memory cell holds the word stored at its
// address; a free block's first cell holds the `next` pointer, and null is 0.
module BuddyAllocators {
  import opened Wrappers
  import opened Bits
  import opened Blocks
  import opened FreeLists
  import opened BuddySystem

  /** `size_of::<BlockHeader>()` */
  const HEADER_SIZE := 8

  datatype Layout = Layout(size: nat, align: nat) {
    /** A layout's alignment is a power of two. */
    ghost predicate Valid() {
      exists k: nat :: align == Pow2(k)
    }

    /** Distance from a block's base to its payload. */
    function Header(): nat {
      if align > HEADER_SIZE then align else HEADER_SIZE
    }

    /** The eight bytes of the header, rounded up to the alignment (or to its own, if that is larger). */
    lemma HeaderRounded()
      requires Valid()
      ensures RoundUp(8, if align > 8 then align else 8) == Header() == if align > 8 then align else 8
    {
      var k: nat :| align == Pow2(k);
      assert Pow2(3) == HEADER_SIZE;
      var n := if align > HEADER_SIZE then k else 3;
      RoundUpMeaning(HEADER_SIZE, n);
      var u := RoundUp(HEADER_SIZE, Header());
      DivModUnique(Header(), Header(), 1, 0);
      if u < Header() {
        DivModUnique(u, Header(), 0, u);
      } else if u > Header() {
        MultiplesApart(Header(), u, Header());
      }
    }

    lemma PayloadFits(r: Region, b: Block)
      requires Valid() && r.Aligned(b) && size > 0 && size + Header() <= r.Size(b.order)
      ensures (b.addr + Header()) % align == 0
    {
      var k: nat :| align == Pow2(k);
      assert Pow2(3) == HEADER_SIZE;
      if k > r.log + b.order {
        Pow2Monotone(r.log + b.order, k);
      }
      CoarserPow2(b.addr, r.log + b.order, k);
      var n := if align > HEADER_SIZE then k else 3;
      if k > n {
        Pow2Monotone(n + 1, k);
      }
      DivModUnique(Pow2(n), Pow2(n), 1, 0);
      CoarserPow2(Pow2(n), n, k);
      SumOfMultiples(b.addr, Header(), align);
    }
  }

  class BuddyAllocator {
    const mem: array<nat>
    const freeLists: array<nat>
    var baseAddr: nat
    var totalSize: nat
    const minBlockSize: nat

    ghost const log: nat
    ghost var lists: Lists
    ghost var live: set<Block>

    // ---- Abstraction ----

    ghost function Managed(): Region
      reads this
    {
      Region(baseAddr, baseAddr + totalSize, log)
    }

    ghost function FreeBlocks(): set<Block>
      reads this`lists
    {
      FreeSet(lists)
    }

    ghost function Now(): State
      reads this
    {
      State(FreeBlocks(), live)
    }

    /** Head words and `next` cells spell out `lists`. */
    ghost predicate WellLinked()
      reads this`lists, freeLists, mem
    {
      freeLists != mem && Linked(freeLists[..], mem[..], lists)
    }

    ghost predicate Fits()
      reads this
    {
      minBlockSize == Pow2(log) && 0 < baseAddr && baseAddr + totalSize <= mem.Length
    }

    ghost predicate Valid()
      reads this, freeLists, mem
    {
      WellLinked() && Fits() && Inv(Managed(), Now())
    }

    /** `new`, over the physical memory the kernel runs in */
    constructor (mem: array<nat>, minBlockSize: nat, ghost log: nat)
      requires minBlockSize == Pow2(log)
      ensures this.mem == mem && this.minBlockSize == minBlockSize && this.log == log
      ensures fresh(freeLists) && freeLists.Length == MAX_ORDER + 1
      ensures live == {}
    {
      this.mem, this.minBlockSize, this.log := mem, minBlockSize, log;
      freeLists := new nat[MAX_ORDER + 1](_ => 0);
      baseAddr, totalSize := 0, 0;
      lists := seq(MAX_ORDER + 1, _ => []);
      live := {};
    }

    // ---- Initialisation ----

    /**
     * Free blocks cover [start, current) and each was the largest that fitted where it was put.
     */
    ghost predicate Filled(start: nat, current: nat, end: nat)
      reads this`lists, freeLists, mem
    {
      && WellLinked() && current <= end <= mem.Length && 0 < start <= current
      && Region(start, current, log).Tiling(FreeBlocks())
      && (forall b :: b in FreeBlocks() ==> Greedy(Region(start, end, log), b))
    }

    static ghost predicate Greedy(r: Region, b: Block) {
      b.order >= MAX_ORDER || b.addr % r.Size(b.order + 1) != 0 || b.addr + r.Size(b.order + 1) > r.end
    }

    method Init(startAddr: nat, endAddr: nat)
      requires minBlockSize == Pow2(log)
      requires freeLists != mem && freeLists.Length == MAX_ORDER + 1
      requires 0 < RoundUp(startAddr, minBlockSize) <= AndNot(endAddr, minBlockSize - 1) && endAddr <= mem.Length
      modifies this, freeLists, mem
      ensures Valid() && live == {}
      ensures startAddr <= baseAddr < startAddr + minBlockSize && baseAddr % minBlockSize == 0
      ensures endAddr - minBlockSize < baseAddr + totalSize <= endAddr && (baseAddr + totalSize) % minBlockSize == 0
      ensures forall c: nat :: c < mem.Length && mem[c] != old(mem[c]) ==> baseAddr <= c < baseAddr + totalSize
    {
      hide Region.Tiling, Greedy, Linked, FreeSet, And, AndNot, Coalesced;
      RoundUpMeaning(startAddr, log);
      AndNotMask(endAddr, log);
      FloorMultiple(endAddr, minBlockSize);
      var start := RoundUp(startAddr, minBlockSize);
      var end := AndNot(endAddr, minBlockSize - 1);
      baseAddr := start;
      totalSize := end - start;
      live := {};
      for i := 0 to MAX_ORDER + 1
        invariant forall o :: 0 <= o < i ==> freeLists[o] == 0
        invariant baseAddr == start && baseAddr + totalSize == end && live == {} && mem[..] == old(mem[..])
      {
        freeLists[i] := 0;
      }
      lists := seq(MAX_ORDER + 1, _ => []);
      NothingListed(Region(start, start, log), freeLists[..], mem[..]);
      var current := start;
      while current + minBlockSize <= end
        invariant Filled(start, current, end) && current % minBlockSize == 0
        invariant baseAddr == start && baseAddr + totalSize == end && live == {}
        invariant forall c: nat :: c < mem.Length && mem[c] != old(mem[c]) ==> start <= c < current
        decreases end - current
      {
        current := PlaceNext(start, current, end);
      }
      if current < end {
        MultiplesApart(current, end, minBlockSize);
      }
      GreedyIsCoalesced(Managed(), FreeBlocks());
      assert FreeBlocks() + live == FreeBlocks();
    }

    /** One round of the filling loop: the largest aligned block that still fits goes on its list. */
    method PlaceNext(ghost start: nat, current: nat, end: nat) returns (next: nat)
      requires Filled(start, current, end) && minBlockSize == Pow2(log)
      requires current % minBlockSize == 0 && current + minBlockSize <= end
      modifies this`lists, freeLists, mem
      ensures Filled(start, next, end) && current < next && next % minBlockSize == 0
      ensures forall c :: 0 <= c < mem.Length && c != current ==> mem[c] == old(mem[c])
    {
      hide Region.Tiling, Greedy, Linked, FreeSet, And;
      ghost var r := Region(start, current, log);
      var remaining := end - current;
      var order := MAX_ORDER;
      next := current;
      while order > 0
        invariant 0 <= order <= MAX_ORDER && next == current
        invariant forall k :: order < k <= MAX_ORDER ==> remaining < r.Size(k) || current % r.Size(k) != 0
        invariant Filled(start, current, end) && lists == old(lists) && mem[..] == old(mem[..])
      {
        ShlPow2(log, order);
        AndMask(current, log + order);
        var blockSize := Shl(minBlockSize, order);
        if remaining >= blockSize && And(current, blockSize - 1) == 0 {
          Placed(r, lists, order, end);
          AddToFreeList(current, order);
          next := current + blockSize;
          break;
        }
        order := order - 1;
      }
      if order == 0 && remaining >= minBlockSize {
        Placed(r, lists, 0, end);
        AddToFreeList(current, 0);
        next := current + minBlockSize;
      }
    }

    static lemma NothingListed(r: Region, heads: seq<nat>, cells: seq<nat>)
      requires r.base == r.end && |heads| == MAX_ORDER + 1 && forall o :: 0 <= o <= MAX_ORDER ==> heads[o] == 0
      ensures var lists := seq(MAX_ORDER + 1, _ => []);
              Linked(heads, cells, lists) && FreeSet(lists) == {} && r.Tiling({})
    {
      var lists: Lists := seq(MAX_ORDER + 1, _ => []);
      assert FreeSet(lists) == {};
    }

    /** Placing the largest block that fits extends the tiling and is a greedy choice. */
    static lemma Placed(r: Region, lists: Lists, order: nat, end: nat)
      requires r.Tiling(FreeSet(lists)) && order <= MAX_ORDER && 0 < r.base <= r.end
      requires r.end % r.Size(order) == 0 && r.end + r.Size(order) <= end
      requires forall k :: order < k <= MAX_ORDER ==> end - r.end < r.Size(k) || r.end % r.Size(k) != 0
      requires forall b :: b in FreeSet(lists) ==> Greedy(Region(r.base, end, r.log), b)
      ensures var b, free := Block(r.end, order), FreeSet(lists) + {Block(r.end, order)};
              && !Listed(lists, r.end)
              && r.(end := r.end + r.Size(order)).Tiling(free)
              && (forall c :: c in free ==> Greedy(Region(r.base, end, r.log), c))
      ensures (r.end + r.Size(order)) % r.Size(0) == 0
    {
      var b, r' := Block(r.end, order), r.(end := r.end + r.Size(order));
      hide Greedy;
      Extended(r, FreeSet(lists), b);
      GreedyChoice(r, order, end);
      hide Region.Tiling, FreeSet, Listed;
      assert FreeSet(lists) + {} + {b} == FreeSet(lists) + {b};
      NotListed(r', lists, {}, b);
      MultipleOfUnit(r, b);
    }

    static lemma Extended(r: Region, free: set<Block>, b: Block)
      requires r.Tiling(free) && b.order <= MAX_ORDER && b.addr == r.end && r.base <= r.end && r.Aligned(b)
      ensures b !in free && r.(end := r.End(b)).Tiling(free + {b})
    {
      var r' := r.(end := r.End(b));
      assert forall o :: r'.Size(o) == r.Size(o);
      forall c | c in free
        ensures r'.Inside(c) && r'.Apart(c, b) && c != b
      {
        assert r.Inside(c);
      }
      assert r'.Inside(b);
      forall c, d | c in free + {b} && d in free + {b} && c != d
        ensures r'.Apart(c, d)
      {
        assert c != b && d != b ==> r.Apart(c, d);
      }
      forall x: nat | r'.base <= x < r'.end
        ensures r'.Covered(free + {b}, x)
      {
        if x < r.end {
          var c := r.TileAt(free, x);
          assert c in free + {b} && r'.Contains(c, x);
        } else {
          assert b in free + {b} && r'.Contains(b, x);
        }
      }
    }

    static lemma GreedyChoice(r: Region, order: nat, end: nat)
      requires order <= MAX_ORDER
      requires forall k :: order < k <= MAX_ORDER ==> end - r.end < r.Size(k) || r.end % r.Size(k) != 0
      ensures Greedy(Region(r.base, end, r.log), Block(r.end, order))
    {
      if order < MAX_ORDER {
        assert end - r.end < r.Size(order + 1) || r.end % r.Size(order + 1) != 0;
      }
    }

    static lemma MultipleOfUnit(r: Region, b: Block)
      requires r.Aligned(b)
      ensures r.End(b) % r.Size(0) == 0
    {
      var s := r.Size(b.order);
      DivModUnique(s, s, 1, 0);
      SumOfMultiples(b.addr, s, s);
      CoarserPow2(b.addr + s, r.log + b.order, r.log);
    }

    /** Greedy filling leaves no two free buddies: the left one would have been placed together with the right one. */
    static lemma GreedyIsCoalesced(r: Region, free: set<Block>)
      requires r.Tiling(free) && forall b :: b in free ==> Greedy(r, b)
      ensures Coalesced(r, free)
    {
      forall b | b in free && b.order < MAX_ORDER && r.Aligned(b)
        ensures r.Buddy(b) !in free
      {
        r.ParentHalves(b);
        r.HalvesAligned(r.Parent(b));
        assert r.Left(r.Parent(b)) in free ==> r.Parent(b).addr + r.Size(b.order + 1) > r.end;
      }
    }

    // ---- List surgery ----

    method AddToFreeList(addr: nat, order: nat)
      requires WellLinked() && order <= MAX_ORDER
      requires 0 < addr < mem.Length && !Listed(lists, addr)
      modifies this`lists, freeLists, mem
      ensures WellLinked() && lists == Push(old(lists), order, addr)
      ensures FreeBlocks() == old(FreeBlocks()) + {Block(addr, order)}
      ensures forall c :: 0 <= c < mem.Length && c != addr ==> mem[c] == old(mem[c])
    {
      hide FreeSet, NoRepeats, Listed;
      HeadLinked(freeLists[..], mem[..], lists, order);
      PushSet(lists, order, addr);
      PushLinked(freeLists[..], mem[..], lists, order, addr);
      hide Linked, Push;
      mem[addr] := freeLists[order];
      freeLists[order] := addr;
      lists := Push(lists, order, addr);
    }

    method RemoveFromFreeList(order: nat) returns (block: nat)
      requires WellLinked() && order <= MAX_ORDER && lists[order] != []
      modifies this`lists, freeLists
      ensures WellLinked() && block == old(lists[order][0]) == old(freeLists[order]) && lists == Unlink(old(lists), order, 0)
      ensures FreeBlocks() == old(FreeBlocks()) - {Block(block, order)} && Block(block, order) in old(FreeBlocks())
    {
      hide FreeSet, NoRepeats;
      HeadLinked(freeLists[..], mem[..], lists, order);
      UnlinkSet(lists, order, 0);
      SpliceLinked(freeLists[..], mem[..], lists, order, 0);
      hide Linked, Unlink;
      block := freeLists[order];
      freeLists[order] := mem[block];
      lists := Unlink(lists, order, 0);
    }

    /** Walks the list with a pointer to the word that points at the current block: the head, or a `next` cell. */
    method RemoveSpecificFromFreeList(addr: nat, order: nat) returns (found: bool)
      requires WellLinked() && order <= MAX_ORDER
      modifies this`lists, freeLists, mem
      ensures WellLinked()
      ensures found <==> Block(addr, order) in old(FreeBlocks())
      ensures FreeBlocks() == old(FreeBlocks()) - {Block(addr, order)}
      ensures !found ==> lists == old(lists)
      ensures forall c :: 0 <= c < mem.Length && mem[c] != old(mem[c]) ==> Block(c, order) in FreeBlocks()
    {
      hide NoRepeats, FreeSet, Linked, Unlink;
      HeadLinked(freeLists[..], mem[..], lists, order);
      var prev := 0;
      var current := freeLists[order];
      ghost var i := 0;
      ghost var list := lists[order];
      while current != 0
        invariant 0 <= i <= |list| && current == Next(list, i - 1)
        invariant prev == (if i == 0 then 0 else list[i - 1])
        invariant addr !in list[..i]
        invariant WellLinked() && lists == old(lists) && freeLists[..] == old(freeLists[..]) && mem[..] == old(mem[..])
        decreases |list| - i
      {
        if current == addr {
          Splice(prev, current, order, i);
          return true;
        }
        prev := current;
        current := mem[current];
        i := i + 1;
      }
      InFreeSet(lists, Block(addr, order));
      return false;
    }

    /** `*current = (**current).next`, where `current` points at the list head or at the `next` cell of `prev`. */
    method Splice(prev: nat, block: nat, order: nat, ghost i: nat)
      requires WellLinked() && order <= MAX_ORDER
      requires i < |lists[order]| && lists[order][i] == block
      requires prev == if i == 0 then 0 else lists[order][i - 1]
      modifies this`lists, freeLists, mem
      ensures WellLinked() && lists == Unlink(old(lists), order, i)
      ensures FreeBlocks() == old(FreeBlocks()) - {Block(block, order)} && Block(block, order) in old(FreeBlocks())
      ensures forall c :: 0 <= c < mem.Length && mem[c] != old(mem[c]) ==> Block(c, order) in FreeBlocks()
    {
      hide NoRepeats, FreeSet;
      HeadLinked(freeLists[..], mem[..], lists, order);
      UnlinkSet(lists, order, i);
      SpliceLinked(freeLists[..], mem[..], lists, order, i);
      if i > 0 {
        PredecessorStays(lists, order, i);
      }
      InFreeSet(lists, Block(block, order));
      hide Linked, Unlink;
      if prev == 0 {
        freeLists[order] := mem[block];
      } else {
        mem[prev] := mem[block];
      }
      lists := Unlink(lists, order, i);
    }

    // ---- Block-level allocation ----

    method AllocBlockOrder(order: nat) returns (result: Option<nat>)
      requires Valid()
      modifies this`lists, this`live, freeLists, mem
      ensures Valid()
      ensures AllocStep(Managed(), old(Now()), order, result, Now())
      ensures result == None <==>
                order > 10
                || forall b: Block :: b.order == order && Managed().Aligned(b) ==> !WhollyFree(Managed(), old(Now()), b)
      ensures result == None ==> Now() == old(Now()) && mem[..] == old(mem[..])
      ensures result.Some? ==>
                exists o :: order <= o <= 10 && FirstNonempty(old(freeLists[..]), order, o) && result.value == old(freeLists[o])
      ensures forall c: nat :: c < mem.Length && mem[c] != old(mem[c]) ==> !Managed().Covered(live, c)
    {
      hide Region.Tiling, Region.Covered, Coalesced, FreeSet, Linked, WhollyFree, AllocStep, NoneFree, Splits;
      ghost var r, was := Managed(), Now();
      if order > MAX_ORDER {
        Refused(r, was, order);
        return None;
      }
      NonemptyLists(freeLists[..], mem[..], lists);
      if freeLists[order] != 0 {
        assert FirstNonempty(old(freeLists[..]), order, order);
        var addr := RemoveFromFreeList(order);
        live := live + {Block(addr, order)};
        NoSmaller(r, was.free, addr, order);
        Served(r, was, order, addr, order, Now());
        return Some(addr);
      }
      for higher := order + 1 to MAX_ORDER + 1
        invariant Valid() && lists == old(lists) && Now() == was && mem[..] == old(mem[..])
        invariant freeLists[..] == old(freeLists[..])
        invariant forall o :: order <= o < higher ==> lists[o] == []
        invariant forall o :: order <= o < higher ==> freeLists[o] == 0
      {
        if freeLists[higher] != 0 {
          EmptyLists(lists, order, higher);
          var block := RemoveFromFreeList(higher);
          assert FreeBlocks() + live + {Block(block, higher)} == was.free + was.live;
          assert FirstNonempty(old(freeLists[..]), order, higher);
          SplitDown(block, order, higher);
          live := live + {Block(block, order)};
          Served(r, was, order, block, higher, Now());
          return Some(block);
        }
      }
      EmptyLists(lists, order, MAX_ORDER + 1);
      Refused(r, was, order);
      return None;
    }

    /** Of the lists from `order` on, the one of order `o` is the first that is not empty. */
    static ghost predicate FirstNonempty(heads: seq<nat>, order: nat, o: nat) {
      order <= o < |heads| && heads[o] != 0 && forall k :: order <= k < o ==> heads[k] == 0
    }

    static lemma NonemptyLists(heads: seq<nat>, cells: seq<nat>, lists: Lists)
      requires Linked(heads, cells, lists)
      ensures |heads| == |lists| == MAX_ORDER + 1
      ensures forall o :: 0 <= o <= MAX_ORDER ==> (heads[o] != 0 <==> lists[o] != [])
    {
      forall o: nat | o <= MAX_ORDER
        ensures heads[o] != 0 <==> lists[o] != []
      {
        HeadLinked(heads, cells, lists, o);
      }
    }

    static lemma NoSmaller(r: Region, free: set<Block>, addr: nat, order: nat)
      ensures NoneFree(free, order, order) && Splits(r, addr, order, order) == {}
    {
    }

    static lemma Served(r: Region, was: State, order: nat, addr: nat, hi: nat, now: State)
      requires Inv(r, was) && order <= hi <= MAX_ORDER && Block(addr, hi) in was.free && NoneFree(was.free, order, hi)
      requires now == State(was.free - {Block(addr, hi)} + Splits(r, addr, order, hi), was.live + {Block(addr, order)})
      ensures AllocStep(r, was, order, Some(addr), now) && Inv(r, now)
      ensures exists b: Block :: b.order == order && r.Aligned(b) && WhollyFree(r, was, b)
    {
      assert TakesFrom(r, was, order, addr, hi, now);
      AllocKeepsInv(r, was, order, Some(addr), now);
      ServedFromFree(r, was, order, addr, now);
    }

    static lemma Refused(r: Region, was: State, order: nat)
      requires Inv(r, was) && (order <= MAX_ORDER ==> NoneFree(was.free, order, MAX_ORDER + 1))
      ensures AllocStep(r, was, order, None, was)
      ensures order > MAX_ORDER || forall b: Block :: b.order == order && r.Aligned(b) ==> !WhollyFree(r, was, b)
    {
      if order <= MAX_ORDER {
        FailsOnlyWhenFull(r, was, order, None, was);
      }
    }

    static lemma EmptyLists(lists: Lists, lo: nat, hi: nat)
      requires forall o :: lo <= o < hi && o < |lists| ==> lists[o] == []
      ensures NoneFree(FreeSet(lists), lo, hi)
    {
    }

    /** The splitting loop: keep the left half, free the right one, until the block in hand has the wanted order. */
    method SplitDown(block: nat, order: nat, higher: nat)
      requires WellLinked() && Fits() && order <= higher <= MAX_ORDER
      requires Block(block, higher) !in FreeBlocks() + live
      requires Managed().Tiling(FreeBlocks() + live + {Block(block, higher)})
      modifies this`lists, freeLists, mem
      ensures WellLinked()
      ensures FreeBlocks() == old(FreeBlocks()) + Splits(Managed(), block, order, higher)
      ensures forall c: nat :: c < mem.Length && mem[c] != old(mem[c]) ==>
                !Managed().Covered(live + {Block(block, order)}, c)
    {
      hide Region.Tiling, FreeSet, Linked;
      ghost var r := Managed();
      var split := higher;
      while split > order
        invariant order <= split <= higher
        invariant WellLinked() && Block(block, split) !in FreeBlocks() + live
        invariant r.Tiling(FreeBlocks() + live + {Block(block, split)})
        invariant FreeBlocks() == old(FreeBlocks()) + Splits(r, block, split, higher)
        invariant forall c: nat :: c < mem.Length && mem[c] != old(mem[c]) ==> !r.Covered(live + {Block(block, split)}, c)
      {
        SplitOff(r, lists, live, Block(block, split));
        SplitsExtend(r, block, split, higher);
        ShlPow2(log, split - 1);
        var buddy := block + Shl(minBlockSize, split - 1);
        AddToFreeList(buddy, split - 1);
        split := split - 1;
      }
    }

    /** One round of splitting: the right half of the block in hand may go on its list. */
    static lemma SplitOff(r: Region, lists: Lists, live: set<Block>, b: Block)
      requires b !in FreeSet(lists) + live && b.order > 0
      requires r.Tiling(FreeSet(lists) + live + {b})
      ensures var half, rest := r.Left(b), r.Right(b);
              && !Listed(lists, rest.addr) && r.base <= rest.addr < r.end
              && rest !in live && half !in FreeSet(lists) + {rest} + live
              && r.Tiling(FreeSet(lists) + {rest} + live + {half})
              && !r.Covered(live + {half}, rest.addr)
      ensures forall c: nat :: r.Covered(live + {r.Left(b)}, c) ==> r.Covered(live + {b}, c)
    {
      var free, half, rest := FreeSet(lists), r.Left(b), r.Right(b);
      var tiles := free + live + {b};
      r.SplitTile(tiles, b);
      r.HalvesAligned(b);
      var after := free + {rest} + live + {half};
      assert tiles - {b} + {half, rest} == after == free + (live + {half}) + {rest};
      NotListed(r, lists, live + {half}, rest);
      BaseIsItsOwn(r, after, live + {half}, rest);
      forall c: nat | r.Covered(live + {half}, c)
        ensures r.Covered(live + {b}, c)
      {
        var t := BlockAt(r, live + {half}, c);
        if t == half {
          assert r.Contains(b, c);
        }
        assert t in live + {b} || b in live + {b};
      }
    }

    static lemma {:induction false} SplitsExtend(r: Region, addr: nat, lo: nat, hi: nat)
      requires 0 < lo <= hi
      ensures Splits(r, addr, lo - 1, hi) == Splits(r, addr, lo, hi) + {r.Right(Block(addr, lo))}
      decreases hi
    {
      if lo < hi {
        SplitsExtend(r, addr, lo, hi - 1);
      }
    }

    /** The block being freed, not yet on a list, completes the tiling. */
    ghost static predicate InHand(r: Region, free: set<Block>, live: set<Block>, b: Block) {
      && r.Inside(b) && r.Aligned(b) && r.base <= b.addr < r.end
      && b !in free + live && free !! live
      && r.Tiling(free + live + {b}) && Coalesced(r, free)
    }

    static lemma TileInside(r: Region, tiles: set<Block>, b: Block)
      requires r.Tiling(tiles) && b in tiles
      ensures r.Inside(b) && r.Aligned(b) && r.base <= b.addr < r.end
    {
    }

    /** One round of merging: the block in hand grows into its parent. */
    static lemma MergeUp(r: Region, free: set<Block>, live: set<Block>, b: Block)
      requires InHand(r, free, live, b) && b.order < MAX_ORDER
      ensures r.Aligned(b) && r.Buddy(b) == Block(r.BuddyAddr(b), b.order)
      ensures r.Parent(b) == Block(if b.addr < r.BuddyAddr(b) then b.addr else r.BuddyAddr(b), b.order + 1)
      ensures r.Buddy(b) in free ==>
                && r.base <= r.BuddyAddr(b) < r.end
                && InHand(r, free - {r.Buddy(b)}, live, r.Parent(b))
                && Coalesce(r, free, b) == Coalesce(r, free - {r.Buddy(b)}, r.Parent(b))
    {
      r.BuddyAligned(b);
      if r.Buddy(b) in free {
        var rest, p := free - {r.Buddy(b)}, r.Parent(b);
        r.MergeTiles(free + live + {b}, b);
        r.ParentHalves(b);
        assert free + live + {b} - {b, r.Buddy(b)} + {p} == rest + live + {p};
      }
    }

    /** Merging ends where the buddy is not free; the block then goes on its list. */
    static lemma CoalesceStops(r: Region, free: set<Block>, b: Block)
      requires r.Aligned(b) && (b.order < MAX_ORDER ==> r.Buddy(b) !in free)
      ensures Coalesce(r, free, b) == free + {b}
    {
    }

    static lemma LinksAreFree(r: Region, free: set<Block>, live: set<Block>, b: Block)
      requires free !! live && r.Tiling(free + live + {b})
      ensures forall f :: f in free ==> !r.Covered(live, f.addr)
    {
      forall f | f in free
        ensures !r.Covered(live, f.addr)
      {
        BaseIsItsOwn(r, free + live + {b}, live, f);
      }
    }

    method AllocBlock() returns (result: Option<nat>)
      requires Valid()
      modifies this`lists, this`live, freeLists, mem
      ensures Valid()
      ensures AllocStep(Managed(), old(Now()), 0, result, Now())
      ensures forall c: nat :: c < mem.Length && mem[c] != old(mem[c]) ==> !Managed().Covered(live, c)
    {
      result := AllocBlockOrder(0);
    }

    method FreeBlock(addr: nat, order: nat)
      requires Valid()
      requires order <= MAX_ORDER ==> Block(addr, order) in live
      modifies this`lists, this`live, freeLists, mem
      ensures Valid()
      ensures FreeStep(Managed(), old(Now()), Block(addr, order), Now())
      ensures forall c: nat :: c < mem.Length && mem[c] != old(mem[c]) ==> !Managed().Covered(live, c)
    {
      hide Region.Tiling, Region.Inside, Region.Aligned, Region.Buddy, Region.Parent, Region.BuddyAddr;
      hide Coalesce, Coalesced, FreeSet, Linked;
      ghost var r, was := Managed(), Now();
      if order > MAX_ORDER {
        return;
      }
      ghost var freed := Block(addr, order);
      TileInside(r, was.free + was.live, freed);
      ghost var target := Coalesce(r, was.free, freed);
      var currentAddr: nat, currentOrder: nat := addr, order;
      live := live - {freed};
      assert FreeBlocks() + live + {freed} == was.free + was.live;
      while currentOrder < MAX_ORDER
        invariant currentOrder <= MAX_ORDER
        invariant InHand(r, FreeBlocks(), live, Block(currentAddr, currentOrder))
        invariant live == was.live - {freed} && target == Coalesce(r, FreeBlocks(), Block(currentAddr, currentOrder))
        invariant WellLinked()
        invariant forall c: nat :: c < mem.Length && mem[c] != old(mem[c]) ==> !r.Covered(live, c)
      {
        ghost var b := Block(currentAddr, currentOrder);
        r.XorIsBuddy(b);
        ShlPow2(log, currentOrder);
        var blockSize := Shl(minBlockSize, currentOrder);
        var buddyAddr := Xor(currentAddr, blockSize);
        MergeUp(r, FreeBlocks(), live, b);
        if buddyAddr < baseAddr || buddyAddr >= baseAddr + totalSize {
          break;
        }
        LinksAreFree(r, FreeBlocks(), live, b);
        var found := RemoveSpecificFromFreeList(buddyAddr, currentOrder);
        if found {
          currentAddr := if currentAddr < buddyAddr then currentAddr else buddyAddr;
          currentOrder := currentOrder + 1;
        } else {
          break;
        }
      }
      ghost var b := Block(currentAddr, currentOrder);
      CoalesceStops(r, FreeBlocks(), b);
      NotListed(r, lists, live, b);
      BaseIsItsOwn(r, FreeBlocks() + live + {b}, live, b);
      AddToFreeList(currentAddr, currentOrder);
      FreeKeepsInv(r, was, freed, Now());
    }

    // ---- Byte-level allocation ----

    /** `alloc`: a header holding the order sits at the block's base, the payload behind it. */
    method Alloc(layout: Layout) returns (result: Option<nat>, ghost block: Block)
      requires Valid() && layout.Valid()
      modifies this`lists, this`live, freeLists, mem
      ensures Valid()
      ensures layout.size == 0 ==> result == None
      ensures result == None ==> Now() == old(Now()) && mem[..] == old(mem[..])
      ensures result == None && layout.size > 0 ==>
                forall b: Block :: b.order <= MAX_ORDER && Managed().Aligned(b) && WhollyFree(Managed(), old(Now()), b) ==>
                  Managed().Size(b.order) < layout.size + layout.Header()
      ensures result.Some? ==>
                && AllocStep(Managed(), old(Now()), block.order, Some(block.addr), Now())
                && Managed().Inside(block) && block in live
                && result.value == block.addr + layout.Header() && result.value % layout.align == 0
                && result.value + layout.size <= Managed().End(block)
                && mem[block.addr] == block.order
                && result.value == block.addr + (if layout.align > 8 then layout.align else 8)
                && (block.order == 0 || Managed().Size(block.order - 1) < layout.size + layout.Header())
      ensures forall c: nat :: c < mem.Length && mem[c] != old(mem[c]) && (result.Some? ==> c != block.addr) ==>
                !Managed().Covered(live, c)
    {
      hide Region.Tiling, Region.Covered, FreeSet, Linked, WhollyFree, AllocStep, Inv, RoundUp;
      block := Block(0, 0);
      if layout.size == 0 {
        return None, block;
      }
      var align := if layout.align > HEADER_SIZE then layout.align else HEADER_SIZE;
      layout.HeaderRounded();
      var headerSize := RoundUp(HEADER_SIZE, align);
      var totalSize := layout.size + headerSize;
      var order := 0;
      var blockSize := minBlockSize;
      while blockSize < totalSize
        invariant blockSize == Managed().Size(order) > 0
        invariant forall k: nat :: k < order ==> Managed().Size(k) < totalSize
        decreases totalSize - blockSize
      {
        order := order + 1;
        blockSize := 2 * blockSize;
      }
      ghost var r, was := Managed(), Now();
      var found := AllocBlockOrder(order);
      if found == None {
        NoBlockLargeEnough(r, was, order, totalSize);
        return None, block;
      }
      var addr := found.value;
      block := Block(addr, order);
      ServedInside(r, was, block, Now());
      layout.PayloadFits(r, block);
      WriteHeader(addr, order);
      var userPtr := addr + headerSize;
      return Some(userPtr), block;
    }

    /** `(*header_ptr).order = order` */
    method WriteHeader(addr: nat, order: nat)
      requires Valid() && Block(addr, order) in live && addr < mem.Length
      modifies mem
      ensures Valid() && mem[..] == old(mem[..])[addr := order]
    {
      hide Linked, FreeSet, Inv;
      NoListCell(Managed(), live, freeLists[..], mem[..], lists, Block(addr, order), addr, order);
      mem[addr] := order;
    }

    /** `free`: the header is looked up one header size below the payload. */
    method Free(ptr: nat)
      requires Valid()
      requires ptr != 0 ==>
                 && HEADER_SIZE <= ptr < mem.Length
                 && (mem[ptr - HEADER_SIZE] <= MAX_ORDER ==> Block(ptr - HEADER_SIZE, mem[ptr - HEADER_SIZE]) in live)
      modifies this`lists, this`live, freeLists, mem
      ensures Valid()
      ensures ptr == 0 ==> Now() == old(Now()) && mem[..] == old(mem[..])
      ensures ptr != 0 ==> FreeStep(Managed(), old(Now()), old(Block(ptr - HEADER_SIZE, mem[ptr - HEADER_SIZE])), Now())
      ensures forall c: nat :: c < mem.Length && mem[c] != old(mem[c]) ==> !Managed().Covered(live, c)
    {
      if ptr == 0 {
        return;
      }
      var headerAddr := ptr - HEADER_SIZE;
      var order := mem[headerAddr];
      FreeBlock(headerAddr, order);
    }

    static lemma NoBlockLargeEnough(r: Region, was: State, order: nat, totalSize: nat)
      requires Inv(r, was) && AllocStep(r, was, order, None, was)
      requires forall k: nat :: k < order ==> r.Size(k) < totalSize
      ensures forall b: Block :: b.order <= MAX_ORDER && r.Aligned(b) && WhollyFree(r, was, b) ==> r.Size(b.order) < totalSize
    {
      forall b: Block | b.order <= MAX_ORDER && r.Aligned(b) && WhollyFree(r, was, b)
        ensures r.Size(b.order) < totalSize
      {
        if b.order >= order {
          var c := Container(r, was, b);
          assert false;
        }
      }
    }

    static lemma ServedInside(r: Region, was: State, block: Block, now: State)
      requires Inv(r, was) && AllocStep(r, was, block.order, Some(block.addr), now)
      ensures r.Inside(block) && r.base <= block.addr < r.end && block in now.live && block !in was.live
      ensures r.Covered(now.live, block.addr)
    {
      ServedFromFree(r, was, block.order, block.addr, now);
      AllocKeepsInv(r, was, block.order, Some(block.addr), now);
      assert r.Contains(block, block.addr);
    }

    /** No list cell is inside an outstanding block. */
    static lemma NoListCell(r: Region, live: set<Block>, heads: seq<nat>, cells: seq<nat>, lists: Lists, b: Block, c: nat, v: nat)
      requires Linked(heads, cells, lists) && Inv(r, State(FreeSet(lists), live))
      requires b in live && r.Contains(b, c) && c < |cells|
      ensures Linked(heads, cells[c := v], lists)
    {
      forall o, i | 0 <= o < |lists| && 0 <= i < |lists[o]|
        ensures lists[o][i] != c
      {
        var f := Block(lists[o][i], o);
        assert f in FreeSet(lists) + live && b in FreeSet(lists) + live;
        assert r.Apart(f, b);
      }
    }
  }
}
