// The buddy allocator as a transition system on two sets of blocks, the free ones
// and the ones handed out.  Which block of a free list is taken is left open here,
// so everything below holds whatever order the free lists happen to be in.
module BuddySystem {
  import opened Wrappers
  import opened Blocks

  datatype State = State(free: set<Block>, live: set<Block>)

  // ---- Steps ----

  ghost predicate NoneFree(free: set<Block>, lo: nat, hi: nat) {
    forall b :: b in free ==> !(lo <= b.order < hi)
  }

  /** The right halves left over when the block of order `hi` at `addr` is split down to order `lo`. */
  function Splits(r: Region, addr: nat, lo: nat, hi: nat): set<Block> {
    if hi <= lo then {} else {r.Right(Block(addr, hi))} + Splits(r, addr, lo, hi - 1)
  }

  /** Freeing `b`: merge with the buddy for as long as the buddy is free. */
  function Coalesce(r: Region, free: set<Block>, b: Block): set<Block>
    requires r.Aligned(b)
    decreases MAX_ORDER - b.order
  {
    if b.order < MAX_ORDER && r.Buddy(b) in free then
      r.ParentHalves(b);
      Coalesce(r, free - {r.Buddy(b)}, r.Parent(b))
    else
      free + {b}
  }

  /** The smallest sufficient free block, of order `hi`, serves the request and its remainder is freed. */
  ghost predicate TakesFrom(r: Region, s: State, order: nat, addr: nat, hi: nat, s': State) {
    && order <= hi <= MAX_ORDER
    && Block(addr, hi) in s.free
    && NoneFree(s.free, order, hi)
    && s' == State(s.free - {Block(addr, hi)} + Splits(r, addr, order, hi), s.live + {Block(addr, order)})
  }

  ghost predicate AllocStep(r: Region, s: State, order: nat, result: Option<nat>, s': State) {
    match result
    case None => s' == s && (order > MAX_ORDER || NoneFree(s.free, order, MAX_ORDER + 1))
    case Some(addr) => exists hi :: TakesFrom(r, s, order, addr, hi, s')
  }

  /** A free of an order the allocator does not know is ignored; otherwise the block must be outstanding. */
  ghost predicate FreeStep(r: Region, s: State, b: Block, s': State) {
    if b.order > MAX_ORDER then
      s' == s
    else
      b in s.live && r.Aligned(b) && s' == State(Coalesce(r, s.free, b), s.live - {b})
  }

  datatype Event = Alloc(order: nat, result: Option<nat>) | Free(block: Block)

  ghost predicate Step(r: Region, s: State, e: Event, s': State) {
    match e
    case Alloc(order, result) => AllocStep(r, s, order, result, s')
    case Free(b) => FreeStep(r, s, b, s')
  }

  // ---- The invariant ----

  /** No two free buddies below the largest order. */
  ghost predicate Coalesced(r: Region, free: set<Block>) {
    forall b :: b in free && b.order < MAX_ORDER && r.Aligned(b) ==> r.Buddy(b) !in free
  }

  ghost predicate Inv(r: Region, s: State) {
    && s.free !! s.live
    && r.Tiling(s.free + s.live)
    && Coalesced(r, s.free)
  }

  lemma {:induction false} SplitKeepsInv(r: Region, free: set<Block>, live: set<Block>, addr: nat, lo: nat, hi: nat)
    requires lo <= hi <= MAX_ORDER
    requires free !! live && Block(addr, hi) !in free + live
    requires r.Tiling(free + live + {Block(addr, hi)}) && Coalesced(r, free)
    ensures Inv(r, State(free + Splits(r, addr, lo, hi), live + {Block(addr, lo)}))
    ensures free !! Splits(r, addr, lo, hi) && Block(addr, lo) !in live
    decreases hi
  {
    var b := Block(addr, hi);
    if hi == lo {
      assert free + live + {b} == free + Splits(r, addr, lo, hi) + (live + {b});
      assert free + Splits(r, addr, lo, hi) == free;
    } else {
      var tiles := free + live + {b};
      var half, rest := r.Left(b), r.Right(b);
      r.SplitTile(tiles, b);
      r.HalvesAligned(b);
      assert tiles - {b} + {half, rest} == (free + {rest}) + live + {half};
      CoalescedAdd(r, free, rest);
      SplitKeepsInv(r, free + {rest}, live, addr, lo, hi - 1);
      assert free + {rest} + Splits(r, addr, lo, hi - 1) == free + Splits(r, addr, lo, hi);
    }
  }

  lemma CoalescedAdd(r: Region, free: set<Block>, b: Block)
    requires Coalesced(r, free) && r.Aligned(b)
    requires b.order < MAX_ORDER ==> r.Buddy(b) !in free
    ensures Coalesced(r, free + {b})
  {
    r.BuddyAligned(b);
    forall c | c in free + {b} && c.order < MAX_ORDER && r.Aligned(c)
      ensures r.Buddy(c) !in free + {b}
    {
      r.BuddyAligned(c);
    }
  }

  lemma {:induction false} CoalesceKeepsInv(r: Region, free: set<Block>, live: set<Block>, b: Block)
    requires free !! live && b !in free + live && r.Aligned(b)
    requires r.Tiling(free + live + {b}) && Coalesced(r, free)
    ensures Inv(r, State(Coalesce(r, free, b), live))
    decreases MAX_ORDER - b.order
  {
    var tiles := free + live + {b};
    if b.order < MAX_ORDER && r.Buddy(b) in free {
      var rest := free - {r.Buddy(b)};
      r.MergeTiles(tiles, b);
      r.ParentHalves(b);
      assert tiles - {b, r.Buddy(b)} + {r.Parent(b)} == rest + live + {r.Parent(b)};
      CoalesceKeepsInv(r, rest, live, r.Parent(b));
    } else {
      CoalescedAdd(r, free, b);
      assert tiles == (free + {b}) + live;
    }
  }

  lemma AllocKeepsInv(r: Region, s: State, order: nat, result: Option<nat>, s': State)
    requires Inv(r, s) && AllocStep(r, s, order, result, s')
    ensures Inv(r, s')
    ensures result.Some? ==> Block(result.value, order) !in s.live
  {
    if result.Some? {
      var hi :| TakesFrom(r, s, order, result.value, hi, s');
      var b := Block(result.value, hi);
      assert s.free + s.live == (s.free - {b}) + s.live + {b};
      SplitKeepsInv(r, s.free - {b}, s.live, result.value, order, hi);
    }
  }

  lemma FreeKeepsInv(r: Region, s: State, b: Block, s': State)
    requires Inv(r, s) && FreeStep(r, s, b, s')
    ensures Inv(r, s')
  {
    if b.order <= MAX_ORDER {
      assert s.free + s.live == s.free + (s.live - {b}) + {b};
      CoalesceKeepsInv(r, s.free, s.live - {b}, b);
    }
  }

  // ---- The free blocks are determined by the free bytes ----

  ghost predicate WhollyFree(r: Region, s: State, b: Block) {
    forall x: nat :: r.Contains(b, x) ==> r.Covered(s.free, x)
  }

  lemma BlockAt(r: Region, tiles: set<Block>, x: nat) returns (b: Block)
    requires r.Covered(tiles, x)
    ensures b in tiles && r.Contains(b, x)
  {
    b :| b in tiles && r.Contains(b, x);
  }

  /** Every wholly free aligned block is part of one free block: coalescing has left no seam in it. */
  lemma {:induction false} Container(r: Region, s: State, b: Block) returns (c: Block)
    requires Inv(r, s) && b.order <= MAX_ORDER && r.Aligned(b) && WhollyFree(r, s, b)
    ensures c in s.free && b.order <= c.order && r.Within(b, c)
    decreases b.order
  {
    if b.order == 0 {
      assert r.Contains(b, b.addr);
      c := BlockAt(r, s.free, b.addr);
      r.ApartOrWithin(b, c);
    } else {
      r.HalvesAligned(b);
      var left, right := r.Left(b), r.Right(b);
      assert forall x: nat :: r.Contains(left, x) || r.Contains(right, x) ==> r.Contains(b, x);
      c := Container(r, s, left);
      if c.order == left.order {
        var d := Container(r, s, right);
        if d.order == right.order {
          assert false;
        } else {
          r.ApartOrWithin(b, d);
          assert false;
        }
      }
      r.ApartOrWithin(b, c);
    }
  }

  /** The free blocks are exactly the maximal wholly free aligned blocks. */
  lemma CanonicalForm(r: Region, s: State, b: Block)
    requires Inv(r, s) && b.order <= MAX_ORDER && r.Aligned(b)
    ensures b in s.free <==>
              WhollyFree(r, s, b) && (b.order == MAX_ORDER || !WhollyFree(r, s, r.Parent(b)))
  {
    r.ParentHalves(b);
    var p := r.Parent(b);
    r.HalvesAligned(p);
    if b in s.free {
      assert WhollyFree(r, s, b);
      if b.order < MAX_ORDER && WhollyFree(r, s, p) {
        var c := Container(r, s, p);
        assert false;
      }
    } else if WhollyFree(r, s, b) {
      var c := Container(r, s, b);
      if c.order == b.order {
        assert false;
      }
      r.ApartOrWithin(p, c);
      assert r.Within(p, c);
      assert forall x: nat :: r.Contains(p, x) ==> r.Contains(c, x);
    }
  }

  ghost predicate SameFreeBytes(r: Region, s: State, t: State) {
    forall x: nat :: r.Covered(s.free, x) <==> r.Covered(t.free, x)
  }

  /** History independence: equal free bytes, however they came about, mean equal free blocks. */
  lemma HistoryIndependence(r: Region, s: State, t: State)
    requires Inv(r, s) && Inv(r, t) && SameFreeBytes(r, s, t)
    ensures s.free == t.free
  {
    forall b
      ensures b in s.free <==> b in t.free
    {
      if b in s.free || b in t.free {
        CanonicalForm(r, s, b);
        CanonicalForm(r, t, b);
        assert forall c :: WhollyFree(r, s, c) <==> WhollyFree(r, t, c);
      }
    }
  }

  /** A byte of the region is free exactly when no outstanding block has it. */
  lemma FreeBytes(r: Region, s: State, x: nat)
    requires Inv(r, s)
    ensures r.Covered(s.free, x) <==> r.base <= x < r.end && !r.Covered(s.live, x)
  {
    if r.base <= x < r.end {
      var b := r.TileAt(s.free + s.live, x);
      assert b in s.free ==> r.Covered(s.free, x);
      assert b in s.live ==> r.Covered(s.live, x);
      if r.Covered(s.free, x) && r.Covered(s.live, x) {
        var f := BlockAt(r, s.free, x);
        var l := BlockAt(r, s.live, x);
        assert false;
      }
    }
  }

  lemma SameLiveSameFree(r: Region, s: State, t: State)
    requires Inv(r, s) && Inv(r, t) && s.live == t.live
    ensures s.free == t.free
  {
    forall x: nat
      ensures r.Covered(s.free, x) <==> r.Covered(t.free, x)
    {
      FreeBytes(r, s, x);
      FreeBytes(r, t, x);
    }
    HistoryIndependence(r, s, t);
  }

  // ---- Allocation fails only when it must ----

  /** `alloc_block_order` gives up exactly when no aligned run of the wanted size is wholly free. */
  lemma FailsOnlyWhenFull(r: Region, s: State, order: nat, result: Option<nat>, s': State)
    requires Inv(r, s) && order <= MAX_ORDER && AllocStep(r, s, order, result, s')
    ensures result == None <==> forall b: Block :: b.order == order && r.Aligned(b) ==> !WhollyFree(r, s, b)
  {
    if result == None {
      forall b: Block | b.order == order && r.Aligned(b)
        ensures !WhollyFree(r, s, b)
      {
        if WhollyFree(r, s, b) {
          var c := Container(r, s, b);
          assert false;
        }
      }
    } else {
      ServedFromFree(r, s, order, result.value, s');
    }
  }

  /** What an allocation returns was wholly free, aligned to its own size and inside the region. */
  lemma ServedFromFree(r: Region, s: State, order: nat, addr: nat, s': State)
    requires Inv(r, s) && AllocStep(r, s, order, Some(addr), s')
    ensures r.Inside(Block(addr, order)) && WhollyFree(r, s, Block(addr, order))
  {
    AllocKeepsInv(r, s, order, Some(addr), s');
    var hi :| TakesFrom(r, s, order, addr, hi, s');
    var b, whole := Block(addr, order), Block(addr, hi);
    assert b in s'.live;
    SizesGrow(r, order, hi);
    assert r.Within(b, whole);
  }

  lemma SizesGrow(r: Region, lo: nat, hi: nat)
    requires lo <= hi
    ensures r.Size(lo) <= r.Size(hi)
    decreases hi
  {
    if lo < hi {
      SizesGrow(r, lo, hi - 1);
    }
  }

  /**
   * A served request takes a smallest free block that is large enough, keeps its beginning and frees the rest of
   * it: exactly the bytes of the block handed out are no longer free.
   */
  lemma TakesSmallest(r: Region, s: State, order: nat, addr: nat, s': State) returns (hi: nat)
    requires Inv(r, s) && AllocStep(r, s, order, Some(addr), s')
    ensures order <= hi <= MAX_ORDER && Block(addr, hi) in s.free
    ensures forall b :: b in s.free && b.order >= order ==> b.order >= hi
    ensures s'.live == s.live + {Block(addr, order)} && Block(addr, order) !in s.live
    ensures forall x: nat :: r.Covered(s'.free, x) <==> r.Covered(s.free, x) && !r.Contains(Block(addr, order), x)
  {
    hi :| TakesFrom(r, s, order, addr, hi, s');
    AllocKeepsInv(r, s, order, Some(addr), s');
    var b := Block(addr, order);
    assert b in s'.live;
    forall x: nat
      ensures r.Covered(s'.free, x) <==> r.Covered(s.free, x) && !r.Contains(b, x)
    {
      hide TakesFrom, Region.Tiling;
      FreeBytes(r, s, x);
      FreeBytes(r, s', x);
      OneMoreCovers(r, s.live, b, x);
      ServedFromFree(r, s, order, addr, s');
    }
  }

  lemma OneMoreCovers(r: Region, tiles: set<Block>, b: Block, x: nat)
    ensures r.Covered(tiles + {b}, x) <==> r.Covered(tiles, x) || r.Contains(b, x)
  {
    assert b in tiles + {b};
    if r.Covered(tiles, x) {
      var c := BlockAt(r, tiles, x);
      assert c in tiles + {b};
    }
  }

  // ---- Runs ----

  ghost predicate Run(r: Region, states: seq<State>, events: seq<Event>) {
    && |states| == |events| + 1
    && forall i :: 0 <= i < |events| ==> Step(r, states[i], events[i], states[i + 1])
  }

  lemma {:induction false} RunKeepsInv(r: Region, states: seq<State>, events: seq<Event>, k: nat)
    requires Run(r, states, events) && Inv(r, states[0]) && k < |states|
    ensures Inv(r, states[k])
  {
    if k > 0 {
      RunKeepsInv(r, states, events, k - 1);
      var s, e, s' := states[k - 1], events[k - 1], states[k];
      assert Step(r, s, e, s');
      match e
      case Alloc(order, result) => AllocKeepsInv(r, s, order, result, s');
      case Free(b) => FreeKeepsInv(r, s, b, s');
    }
  }

  /** Conservation: at every moment of a run each byte is in exactly one block, free or outstanding. */
  lemma RunTiles(r: Region, states: seq<State>, events: seq<Event>, k: nat, x: nat)
    requires Run(r, states, events) && Inv(r, states[0]) && k < |states|
    requires r.base <= x < r.end
    ensures exists b ::
              && b in states[k].free + states[k].live && r.Contains(b, x)
              && (b in states[k].free <==> b !in states[k].live)
              && forall c :: c in states[k].free + states[k].live && r.Contains(c, x) ==> c == b
  {
    RunKeepsInv(r, states, events, k);
    var s := states[k];
    var b := r.TileAt(s.free + s.live, x);
    forall c | c in s.free + s.live && r.Contains(c, x)
      ensures c == b
    {
      assert !r.Apart(b, c);
    }
  }

  /** Whenever two moments of a run have the same blocks outstanding, their free blocks are the same. */
  lemma RunForgetsHistory(r: Region, states: seq<State>, events: seq<Event>, i: nat, j: nat)
    requires Run(r, states, events) && Inv(r, states[0]) && i < |states| && j < |states|
    requires states[i].live == states[j].live
    ensures states[i] == states[j]
  {
    RunKeepsInv(r, states, events, i);
    RunKeepsInv(r, states, events, j);
    SameLiveSameFree(r, states[i], states[j]);
  }

  /** An allocation followed by the matching free changes nothing. */
  lemma AllocThenFree(r: Region, s: State, order: nat, addr: nat, s': State, s'': State)
    requires Inv(r, s) && order <= MAX_ORDER
    requires AllocStep(r, s, order, Some(addr), s') && FreeStep(r, s', Block(addr, order), s'')
    ensures s'' == s
  {
    AllocKeepsInv(r, s, order, Some(addr), s');
    FreeKeepsInv(r, s', Block(addr, order), s'');
    assert s''.live == s.live;
    SameLiveSameFree(r, s, s'');
  }
}
