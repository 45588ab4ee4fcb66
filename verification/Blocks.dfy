// The geometry of a buddy system: naturally aligned power-of-two blocks inside a
// region, tilings of the region by such blocks, and what splitting a block in
// halves or merging two buddies does to a tiling.
module Blocks {
  import opened Bits

  /** Largest order the allocator keeps a free list for. */
  const MAX_ORDER := 10

  datatype Block = Block(addr: nat, order: nat)

  /** The managed bytes [base, end), in minimum blocks of `2^log` bytes. */
  datatype Region = Region(base: nat, end: nat, log: nat) {

    function Size(order: nat): (s: nat)
      ensures s > 0
    {
      Pow2(log + order)
    }

    function End(b: Block): nat {
      b.addr + Size(b.order)
    }

    predicate Aligned(b: Block) {
      b.addr % Size(b.order) == 0
    }

    predicate Contains(b: Block, x: nat) {
      b.addr <= x < End(b)
    }

    predicate Apart(b: Block, c: Block) {
      End(b) <= c.addr || End(c) <= b.addr
    }

    predicate Within(b: Block, c: Block) {
      c.addr <= b.addr && End(b) <= End(c)
    }

    predicate Inside(b: Block) {
      b.order <= MAX_ORDER && Aligned(b) && base <= b.addr && End(b) <= end
    }

    /** `addr ^ size` for a block aligned to its size. */
    function BuddyAddr(b: Block): nat
      requires Aligned(b)
    {
      HalfBounds(b);
      if b.addr % Size(b.order + 1) == 0 then b.addr + Size(b.order) else b.addr - Size(b.order)
    }

    function Buddy(b: Block): Block
      requires Aligned(b)
    {
      Block(BuddyAddr(b), b.order)
    }

    /** The block of the next order that a block and its buddy make up. */
    function Parent(b: Block): Block
      requires Aligned(b)
    {
      Block(if BuddyAddr(b) < b.addr then BuddyAddr(b) else b.addr, b.order + 1)
    }

    function Left(c: Block): Block
      requires c.order > 0
    {
      Block(c.addr, c.order - 1)
    }

    function Right(c: Block): Block
      requires c.order > 0
    {
      Block(c.addr + Size(c.order - 1), c.order - 1)
    }

    // ---- Alignment ----

    /** A block that is not aligned to the next order starts one block past such a point. */
    lemma HalfBounds(b: Block)
      requires Aligned(b)
      ensures b.addr % Size(b.order + 1) == 0 || b.addr % Size(b.order + 1) == Size(b.order) <= b.addr
    {
      var q, r := DivMod(b.addr, Size(b.order));
      MultipleParity(q, Size(b.order));
      DivMod0(b.addr, Size(b.order + 1));
    }

    lemma DivMod0(a: nat, d: nat)
      requires d > 0
      ensures a % d <= a
    {
    }

    lemma HalvesAligned(c: Block)
      requires c.order > 0 && Aligned(c)
      ensures Aligned(Left(c)) && Aligned(Right(c))
      ensures Buddy(Left(c)) == Right(c) && Buddy(Right(c)) == Left(c)
      ensures Parent(Left(c)) == c && Parent(Right(c)) == c
      ensures End(Left(c)) == Right(c).addr && End(Right(c)) == End(c)
    {
      var s := Size(c.order - 1);
      var q, r := DivMod(c.addr, 2 * s);
      TwiceMul(q, s, 0);
      DivModUnique(c.addr, s, 2 * q, 0);
      Distribute(2 * q, 1, s);
      DivModUnique(c.addr + s, s, 2 * q + 1, 0);
      DivModUnique(c.addr + s, 2 * s, q, s);
    }

    lemma ParentHalves(b: Block)
      requires Aligned(b)
      ensures Aligned(Parent(b))
      ensures || (Left(Parent(b)) == b && Right(Parent(b)) == Buddy(b))
              || (Left(Parent(b)) == Buddy(b) && Right(Parent(b)) == b)
    {
      HalfBounds(b);
      var d := Size(b.order + 1);
      if b.addr % d != 0 {
        FloorMultiple(b.addr, d);
      }
    }

    lemma BuddyAligned(b: Block)
      requires Aligned(b)
      ensures Aligned(Buddy(b)) && Buddy(Buddy(b)) == b && Buddy(b) != b
    {
      ParentHalves(b);
      HalvesAligned(Parent(b));
    }

    /** The source computes the buddy with an exclusive or. */
    lemma XorIsBuddy(b: Block)
      requires Aligned(b)
      ensures Xor(b.addr, Size(b.order)) == BuddyAddr(b)
    {
      XorPow2(b.addr, log + b.order);
    }

    /** Two naturally aligned blocks are apart or nested; they never overlap partially. */
    lemma {:induction false} ApartOrWithin(b: Block, c: Block)
      requires Aligned(b) && Aligned(c) && b.order <= c.order
      ensures Apart(b, c) || Within(b, c)
      decreases c.order
    {
      if b.order == c.order {
        var s := Size(b.order);
        var q, r := DivMod(b.addr, s);
        var q', r' := DivMod(c.addr, s);
        if q < q' {
          MulStrict(q, q', s);
        } else if q' < q {
          MulStrict(q', q, s);
        }
      } else {
        HalvesAligned(c);
        ApartOrWithin(b, Left(c));
        ApartOrWithin(b, Right(c));
      }
    }

    // ---- Tilings ----

    ghost predicate Disjoint(tiles: set<Block>) {
      forall b, c :: b in tiles && c in tiles && b != c ==> Apart(b, c)
    }

    ghost predicate Covered(tiles: set<Block>, x: nat) {
      exists b :: b in tiles && Contains(b, x)
    }

    /** The tiles are naturally aligned, lie in the region, never overlap and leave no byte out. */
    ghost predicate Tiling(tiles: set<Block>) {
      && (forall b :: b in tiles ==> Inside(b))
      && Disjoint(tiles)
      && (forall x: nat :: base <= x < end ==> Covered(tiles, x))
    }

    lemma TileAt(tiles: set<Block>, x: nat) returns (b: Block)
      requires Tiling(tiles) && base <= x < end
      ensures b in tiles && Contains(b, x)
    {
      assert Covered(tiles, x);
      b :| b in tiles && Contains(b, x);
    }

    /** Replacing a tile by its two halves keeps a tiling, and covers the same bytes. */
    lemma SplitTile(tiles: set<Block>, c: Block)
      requires Tiling(tiles) && c in tiles && c.order > 0
      ensures Tiling(tiles - {c} + {Left(c), Right(c)})
      ensures Left(c) !in tiles && Right(c) !in tiles && Left(c) != Right(c)
    {
      HalvesAligned(c);
      var after := tiles - {c} + {Left(c), Right(c)};
      assert Within(Left(c), c) && Within(Right(c), c);
      forall b | b in tiles && b != c
        ensures Apart(b, Left(c)) && Apart(b, Right(c))
      {
        assert Apart(b, c);
      }
      forall x: nat | base <= x < end
        ensures Covered(after, x)
      {
        var b := TileAt(tiles, x);
        if b == c {
          assert Contains(Left(c), x) || Contains(Right(c), x);
        } else {
          assert b in after;
        }
      }
      assert !Apart(Left(c), c) && !Apart(Right(c), c);
    }

    /** Replacing a tile and its buddy by their parent keeps a tiling. */
    lemma MergeTiles(tiles: set<Block>, b: Block)
      requires Tiling(tiles) && b in tiles && b.order < MAX_ORDER && Buddy(b) in tiles
      ensures Tiling(tiles - {b, Buddy(b)} + {Parent(b)})
      ensures Parent(b) !in tiles
    {
      ParentHalves(b);
      BuddyAligned(b);
      var p := Parent(b);
      HalvesAligned(p);
      var after := tiles - {b, Buddy(b)} + {p};
      assert !Apart(p, b);
      forall c | c in tiles && c != b && c != Buddy(b)
        ensures Apart(c, p)
      {
        assert Apart(c, b) && Apart(c, Buddy(b));
      }
      forall x: nat | base <= x < end
        ensures Covered(after, x)
      {
        var c := TileAt(tiles, x);
        if c == b || c == Buddy(b) {
          assert Contains(p, x);
        } else {
          assert c in after;
        }
      }
    }
  }
}
