// The per-order free lists as sequences of addresses, and how one list step changes
// the set of free blocks they denote.
module FreeLists {
  import opened Blocks

  type Lists = seq<seq<nat>>

  function FreeSet(lists: Lists): set<Block> {
    set o, a | 0 <= o < |lists| && a in lists[o] :: Block(a, o)
  }

  /** The word a list cell holds: the address of its successor, or null at the end. */
  function Next(list: seq<nat>, i: int): nat
    requires -1 <= i < |list|
  {
    if i + 1 < |list| then list[i + 1] else 0
  }

  /** No address is in two lists, or twice in one. */
  ghost predicate NoRepeats(lists: Lists) {
    forall o, i, p, j ::
      0 <= o < |lists| && 0 <= p < |lists| && 0 <= i < |lists[o]| && 0 <= j < |lists[p]| && lists[o][i] == lists[p][j]
      ==> o == p && i == j
  }

  ghost predicate Listed(lists: Lists, addr: nat) {
    exists o :: 0 <= o < |lists| && addr in lists[o]
  }

  function Push(lists: Lists, order: nat, addr: nat): Lists
    requires order < |lists|
  {
    lists[order := [addr] + lists[order]]
  }

  function Unlink(lists: Lists, order: nat, i: nat): Lists
    requires order < |lists| && i < |lists[order]|
  {
    lists[order := lists[order][..i] + lists[order][i + 1..]]
  }

  lemma PushSet(lists: Lists, order: nat, addr: nat)
    requires order < |lists| && !Listed(lists, addr) && NoRepeats(lists)
    ensures FreeSet(Push(lists, order, addr)) == FreeSet(lists) + {Block(addr, order)}
    ensures NoRepeats(Push(lists, order, addr))
  {
    var after := Push(lists, order, addr);
    assert after[order][0] == addr;
    forall o, a | 0 <= o < |lists|
      ensures a in after[o] <==> a in lists[o] || (o == order && a == addr)
    {
    }
  }

  lemma UnlinkSet(lists: Lists, order: nat, i: nat)
    requires order < |lists| && i < |lists[order]| && NoRepeats(lists)
    ensures FreeSet(Unlink(lists, order, i)) == FreeSet(lists) - {Block(lists[order][i], order)}
    ensures NoRepeats(Unlink(lists, order, i))
  {
    var after, list := Unlink(lists, order, i), lists[order];
    UnlinkAt(lists, order, i);
    forall o, a | 0 <= o < |lists|
      ensures a in after[o] <==> a in lists[o] && !(o == order && a == list[i])
    {
      if o == order && a in list && a != list[i] {
        var k :| 0 <= k < |list| && list[k] == a;
        assert after[o][if k < i then k else k - 1] == a;
      }
    }
  }

  /** Position in a list of the `j`-th address that is left after the `i`-th is unlinked. */
  function Shift(i: int, j: int): int {
    if j < i then j else j + 1
  }

  // ---- Lists threaded through memory ----

  /**
   * The head words and the `next` cells spell out the lists.  As a sequence is finite and ends in null,
   * a list so represented is acyclic; as no address repeats, no two lists share a cell.
   */
  ghost predicate Linked(heads: seq<nat>, cells: seq<nat>, lists: Lists) {
    && |heads| == |lists| == MAX_ORDER + 1
    && NoRepeats(lists)
    && (forall o :: 0 <= o < |lists| ==> heads[o] == Next(lists[o], -1))
    && (forall o, i :: 0 <= o < |lists| && 0 <= i < |lists[o]| ==>
          0 < lists[o][i] < |cells| && cells[lists[o][i]] == Next(lists[o], i))
  }

  lemma HeadLinked(heads: seq<nat>, cells: seq<nat>, lists: Lists, order: nat)
    requires Linked(heads, cells, lists) && order <= MAX_ORDER
    ensures |heads| == |lists| == MAX_ORDER + 1
    ensures heads[order] == Next(lists[order], -1)
    ensures heads[order] == 0 <==> lists[order] == []
    ensures lists[order] != [] ==> Block(heads[order], order) in FreeSet(lists)
    ensures forall i :: 0 <= i < |lists[order]| ==>
              0 < lists[order][i] < |cells| && cells[lists[order][i]] == Next(lists[order], i)
  {
    InFreeSet(lists, Block(heads[order], order));
  }

  lemma PushLinked(heads: seq<nat>, cells: seq<nat>, lists: Lists, order: nat, addr: nat)
    requires Linked(heads, cells, lists) && order <= MAX_ORDER
    requires 0 < addr < |cells| && !Listed(lists, addr)
    ensures Linked(heads[order := addr], cells[addr := heads[order]], Push(lists, order, addr))
  {
    PushSet(lists, order, addr);
    hide NoRepeats, Listed, FreeSet;
    var after := Push(lists, order, addr);
    forall o, i | 0 <= o < |after| && 0 <= i < |after[o]|
      ensures 0 < after[o][i] < |cells| && cells[addr := heads[order]][after[o][i]] == Next(after[o], i)
    {
      PushedCell(heads, cells, lists, order, addr, o, i);
    }
  }

  lemma PushedCell(heads: seq<nat>, cells: seq<nat>, lists: Lists, order: nat, addr: nat, o: nat, i: nat)
    requires Linked(heads, cells, lists) && order <= MAX_ORDER && 0 < addr < |cells| && !Listed(lists, addr)
    requires o < |lists| && i < |Push(lists, order, addr)[o]|
    ensures var a := Push(lists, order, addr)[o];
            0 < a[i] < |cells| && cells[addr := heads[order]][a[i]] == Next(a, i)
  {
    hide NoRepeats;
    HeadLinked(heads, cells, lists, order);
    var k: int := if o == order then i - 1 else i;
    if k >= 0 {
      LinkedAt(heads, cells, lists, o, k);
      assert lists[o][k] in lists[o];
    }
    hide Linked;
  }

  /** The word that points at the `i`-th block of a list: the list head, or the `next` cell of the block before. */
  function SpliceHeads(heads: seq<nat>, cells: seq<nat>, lists: Lists, order: nat, i: nat): seq<nat>
    requires |heads| == |lists| && order < |lists| && i < |lists[order]| && lists[order][i] < |cells|
  {
    if i == 0 then heads[order := cells[lists[order][i]]] else heads
  }

  function SpliceCells(cells: seq<nat>, lists: Lists, order: nat, i: nat): seq<nat>
    requires order < |lists| && i < |lists[order]|
    requires forall j :: 0 <= j <= i ==> lists[order][j] < |cells|
  {
    if i == 0 then cells else cells[lists[order][i - 1] := cells[lists[order][i]]]
  }

  /** Redirecting the pointer at a block past it unlinks exactly that block, wherever in the list it is. */
  lemma SpliceLinked(heads: seq<nat>, cells: seq<nat>, lists: Lists, order: nat, i: nat)
    requires Linked(heads, cells, lists) && order <= MAX_ORDER && i < |lists[order]|
    ensures Linked(SpliceHeads(heads, cells, lists, order, i), SpliceCells(cells, lists, order, i), Unlink(lists, order, i))
  {
    hide NoRepeats, Unlink, SpliceHeads, SpliceCells, FreeSet;
    UnlinkSet(lists, order, i);
    SplicedHeads(heads, cells, lists, order, i);
    SplicedCells(heads, cells, lists, order, i);
  }

  lemma SplicedHeads(heads: seq<nat>, cells: seq<nat>, lists: Lists, order: nat, i: nat)
    requires Linked(heads, cells, lists) && order <= MAX_ORDER && i < |lists[order]|
    ensures var after, heads' := Unlink(lists, order, i), SpliceHeads(heads, cells, lists, order, i);
            |after| == |heads'| == |lists| && forall o :: 0 <= o < |after| ==> heads'[o] == Next(after[o], -1)
  {
    hide NoRepeats, Unlink;
    UnlinkAt(lists, order, i);
    LinkedAt(heads, cells, lists, order, i);
  }

  lemma SplicedCells(heads: seq<nat>, cells: seq<nat>, lists: Lists, order: nat, i: nat)
    requires Linked(heads, cells, lists) && order <= MAX_ORDER && i < |lists[order]|
    ensures var after, cells' := Unlink(lists, order, i), SpliceCells(cells, lists, order, i);
            && |after| == |lists| && |cells'| == |cells|
            && forall o, j :: 0 <= o < |after| && 0 <= j < |after[o]| ==>
                 0 < after[o][j] < |cells| && cells'[after[o][j]] == Next(after[o], j)
  {
    hide NoRepeats, Unlink;
    UnlinkAt(lists, order, i);
    var after, cells' := Unlink(lists, order, i), SpliceCells(cells, lists, order, i);
    forall o, j | 0 <= o < |after| && 0 <= j < |after[o]|
      ensures 0 < after[o][j] < |cells| && cells'[after[o][j]] == Next(after[o], j)
    {
      SpliceCell(heads, cells, lists, order, i, o, j);
    }
  }

  lemma LinkedAt(heads: seq<nat>, cells: seq<nat>, lists: Lists, o: nat, i: nat)
    requires Linked(heads, cells, lists) && o < |lists| && i < |lists[o]|
    ensures 0 < lists[o][i] < |cells| && cells[lists[o][i]] == Next(lists[o], i)
  {
  }

  lemma SpliceCell(heads: seq<nat>, cells: seq<nat>, lists: Lists, order: nat, i: nat, o: nat, j: nat)
    requires Linked(heads, cells, lists) && order <= MAX_ORDER && i < |lists[order]|
    requires o < |lists| && j < |Unlink(lists, order, i)[o]|
    ensures var a := Unlink(lists, order, i)[o];
            0 < a[j] < |cells| && SpliceCells(cells, lists, order, i)[a[j]] == Next(a, j)
  {
    hide NoRepeats, Unlink;
    UnlinkAt(lists, order, i);
    if i > 0 {
      OnlyOnce(lists, order, i - 1);
      LinkedAt(heads, cells, lists, order, i - 1);
    }
    var k := if o == order then Shift(i, j) else j;
    LinkedAt(heads, cells, lists, o, k);
    LinkedAt(heads, cells, lists, order, i);
    hide Linked;
    assert Unlink(lists, order, i)[o][j] == lists[o][k];
  }

  lemma UnlinkAt(lists: Lists, order: nat, i: nat)
    requires order < |lists| && i < |lists[order]|
    ensures |Unlink(lists, order, i)| == |lists| && |Unlink(lists, order, i)[order]| == |lists[order]| - 1
    ensures forall o :: 0 <= o < |lists| && o != order ==> Unlink(lists, order, i)[o] == lists[o]
    ensures forall j :: 0 <= j < |lists[order]| - 1 ==> Unlink(lists, order, i)[order][j] == lists[order][Shift(i, j)]
  {
  }

  lemma OnlyOnce(lists: Lists, order: nat, i: nat)
    requires NoRepeats(lists) && order < |lists| && i < |lists[order]|
    ensures forall o, j :: 0 <= o < |lists| && 0 <= j < |lists[o]| && lists[o][j] == lists[order][i] ==> o == order && j == i
  {
  }

  lemma PredecessorStays(lists: Lists, order: nat, i: nat)
    requires order < |lists| && 0 < i < |lists[order]|
    ensures Block(lists[order][i - 1], order) in FreeSet(Unlink(lists, order, i))
  {
    assert Unlink(lists, order, i)[order][i - 1] == lists[order][i - 1];
  }

  /** Membership in the set is membership in the list of that order. */
  lemma InFreeSet(lists: Lists, b: Block)
    ensures b in FreeSet(lists) <==> b.order < |lists| && b.addr in lists[b.order]
  {
  }

  /** A block about to be put on a list is on none, because free blocks never overlap. */
  lemma NotListed(r: Region, lists: Lists, others: set<Block>, b: Block)
    requires r.Tiling(FreeSet(lists) + others + {b}) && b !in FreeSet(lists)
    ensures !Listed(lists, b.addr)
  {
    forall o | 0 <= o < |lists|
      ensures b.addr !in lists[o]
    {
      var c := Block(b.addr, o);
      InFreeSet(lists, c);
      assert c in FreeSet(lists) ==> c == b || r.Apart(c, b);
    }
  }

  /** The first byte of a tile is in no other tile. */
  lemma BaseIsItsOwn(r: Region, tiles: set<Block>, others: set<Block>, b: Block)
    requires r.Tiling(tiles) && b in tiles && others <= tiles && b !in others
    ensures !r.Covered(others, b.addr)
  {
    forall c | c in others
      ensures !r.Contains(c, b.addr)
    {
      assert r.Apart(b, c);
    }
  }
}
