// What writing one table entry, to every copy of the table, does to the disk.
module FatTable {
  import opened Bits
  import opened FatLayout

  /** A sector with the four bytes at `idx` replaced. */
  function Patch(sector: Sector, idx: nat, bytes: seq<byte>): Sector
    requires |bytes| == 4 && idx + 4 <= |sector|
  {
    sector[..idx] + bytes + sector[idx + 4..]
  }

  lemma PatchSlices(sector: Sector, idx: nat, bytes: seq<byte>, i: nat)
    requires |bytes| == 4 && idx + 4 <= |sector| && i + 4 <= |sector|
    ensures |Patch(sector, idx, bytes)| == |sector|
    ensures i == idx ==> Patch(sector, idx, bytes)[i..i + 4] == bytes
    ensures i + 4 <= idx || idx + 4 <= i ==> Patch(sector, idx, bytes)[i..i + 4] == sector[i..i + 4]
  {
  }

  ghost predicate IsCopy(g: FatInfo, s: nat, n: nat, lba: nat) {
    exists k: nat :: k < n && lba == g.CopySector(k, s)
  }

  /** The first `n` copies of table sector `s` hold `buf`; nothing else has changed. */
  ghost predicate CopiesWritten(g: FatInfo, disk: Disk, disk': Disk, s: nat, n: nat, buf: Sector) {
    && |disk'| == |disk|
    && forall lba: nat :: lba < |disk| ==> disk'[lba] == if IsCopy(g, s, n, lba) then buf else disk[lba]
  }

  lemma OneMoreCopy(g: FatInfo, disk: Disk, disk': Disk, s: nat, n: nat, buf: Sector)
    requires CopiesWritten(g, disk, disk', s, n, buf) && g.CopySector(n, s) < |disk|
    ensures CopiesWritten(g, disk, disk'[g.CopySector(n, s) := buf], s, n + 1, buf)
  {
    var disk'' := disk'[g.CopySector(n, s) := buf];
    forall lba: nat | lba < |disk|
      ensures disk''[lba] == if IsCopy(g, s, n + 1, lba) then buf else disk[lba]
    {
      assert IsCopy(g, s, n + 1, lba) <==> IsCopy(g, s, n, lba) || lba == g.CopySector(n, s) by {
        if IsCopy(g, s, n + 1, lba) {
          var k: nat :| k < n + 1 && lba == g.CopySector(k, s);
          assert k < n ==> IsCopy(g, s, n, lba);
        }
      }
    }
  }

  /** The table sector an entry is in, counted from the start of the table. */
  function TableSector(g: FatInfo, c: nat): nat
    requires g.bytesPerSector > 0
  {
    4 * c / g.bytesPerSector
  }

  /** The sector of an entry after the write. */
  function NewSector(g: FatInfo, disk: Disk, c: nat, v: nat): Sector
    requires g.bytesPerSector > 0 && g.EntrySector(c) < |disk| && g.EntryIndex(c) + 4 <= |disk[g.EntrySector(c)]|
    requires v < 0x1000_0000
  {
    Patch(disk[g.EntrySector(c)], g.EntryIndex(c), ToLe(v))
  }

  ghost predicate EntryWritten(g: FatInfo, disk: Disk, disk': Disk, c: nat, v: nat) {
    && g.Fits(disk) && c < g.Entries() && v < 0x1000_0000
    && g.EntrySector(c) < |disk| && g.EntryIndex(c) + 4 <= |disk[g.EntrySector(c)]|
    && CopiesWritten(g, disk, disk', TableSector(g, c), g.numFats, NewSector(g, disk, c, v))
  }

  /** The four bytes of an entry, unmasked, in the `k`-th copy of the table. */
  function RawEntry(g: FatInfo, disk: Disk, k: nat, c: nat): seq<byte>
    requires g.bytesPerSector > 0
  {
    var lba := g.CopySector(k, TableSector(g, c));
    if lba < |disk| && g.EntryIndex(c) + 4 <= |disk[lba]| then disk[lba][g.EntryIndex(c)..g.EntryIndex(c) + 4] else []
  }

  /** Every copy holds exactly the word written: nothing of the old one is left, its high bits included. */
  lemma RawWritten(g: FatInfo, disk: Disk, disk': Disk, c: nat, v: nat, k: nat)
    requires EntryWritten(g, disk, disk', c, v) && k < g.numFats
    ensures RawEntry(g, disk', k, c) == ToLe(v)
  {
    EntryInDisk(g, disk, c);
    var s, idx := TableSector(g, c), g.EntryIndex(c);
    assert IsCopy(g, s, g.numFats, g.CopySector(k, s));
    PatchSlices(disk[g.EntrySector(c)], idx, ToLe(v), idx);
  }

  /**
   * In the `k`-th copy of the table the four bytes at offset `4 * c` are those of `v`, the least significant
   * first.  Said in sector numbers and byte values only.
   */
  ghost predicate CopyHolds(g: FatInfo, disk: Disk, k: nat, c: nat, v: nat)
    requires g.bytesPerSector > 0
  {
    var lba, i := g.fatStart + k * g.sectorsPerFat + 4 * c / g.bytesPerSector, 4 * c % g.bytesPerSector;
    && lba < |disk| && i + 4 <= |disk[lba]|
    && disk[lba][i] == v % 0x100 && disk[lba][i + 1] == v / 0x100 % 0x100
    && disk[lba][i + 2] == v / 0x1_0000 % 0x100 && disk[lba][i + 3] == v / 0x100_0000
  }

  lemma BytesWritten(g: FatInfo, disk: Disk, disk': Disk, c: nat, v: nat, k: nat)
    requires EntryWritten(g, disk, disk', c, v) && k < g.numFats
    ensures g.bytesPerSector > 0 && CopyHolds(g, disk', k, c, v)
  {
    RawWritten(g, disk, disk', c, v, k);
    var lba, i := g.CopySector(k, TableSector(g, c)), g.EntryIndex(c);
    hide EntryWritten;
    assert disk'[lba][i..i + 4] == ToLe(v);
    assert disk'[lba][i] == ToLe(v)[0] && disk'[lba][i + 1] == ToLe(v)[1];
    assert disk'[lba][i + 2] == ToLe(v)[2] && disk'[lba][i + 3] == ToLe(v)[3];
  }

  lemma EntryInDisk(g: FatInfo, disk: Disk, c: nat)
    requires g.Fits(disk) && c < g.Entries()
    ensures g.bytesPerSector > 0
    ensures g.EntrySector(c) < |disk| && g.EntryIndex(c) + 4 <= |disk[g.EntrySector(c)]|
    ensures TableSector(g, c) < g.sectorsPerFat && g.EntrySector(c) == g.CopySector(0, TableSector(g, c))
    ensures forall k: nat :: k < g.numFats ==> g.CopySector(k, TableSector(g, c)) < g.heapStart
    ensures disk[g.EntrySector(c)] == disk[g.CopySector(0, TableSector(g, c))]
  {
    g.EntryInTable(c);
    g.EntryFits(c);
    forall k: nat | k < g.numFats
      ensures g.CopySector(k, TableSector(g, c)) < g.heapStart
    {
      g.CopyBounds(k, TableSector(g, c));
    }
    assert g.CopySector(0, TableSector(g, c)) < g.heapStart;
  }

  /** In the first copy, only the sector of the entry changes. */
  lemma FirstCopy(g: FatInfo, disk: Disk, disk': Disk, c: nat, v: nat, d: nat)
    requires EntryWritten(g, disk, disk', c, v) && d < g.Entries()
    ensures g.EntrySector(d) < |disk'|
    ensures disk'[g.EntrySector(d)] ==
            if g.EntrySector(d) == g.EntrySector(c) then NewSector(g, disk, c, v) else disk[g.EntrySector(d)]
  {
    EntryInDisk(g, disk, c);
    EntryInDisk(g, disk, d);
    var s, lba := TableSector(g, c), g.EntrySector(d);
    if IsCopy(g, s, g.numFats, lba) {
      var k: nat :| k < g.numFats && lba == g.CopySector(k, s);
      g.CopiesDistinct(k, s, 0, TableSector(g, d));
    }
    if lba == g.EntrySector(c) {
      assert lba == g.CopySector(0, s);
    }
  }

  /** The bytes of an entry in the first copy after the write. */
  lemma SliceAfter(g: FatInfo, disk: Disk, disk': Disk, c: nat, v: nat, d: nat)
    requires EntryWritten(g, disk, disk', c, v) && d < g.Entries()
    ensures g.bytesPerSector > 0 && v < 0x1000_0000
    ensures var lba, i := g.EntrySector(d), g.EntryIndex(d);
            && lba < |disk| == |disk'| && i + 4 <= |disk[lba]| == |disk'[lba]|
            && disk'[lba][i..i + 4] == if d == c then ToLe(v) else disk[lba][i..i + 4]
  {
    FirstCopy(g, disk, disk', c, v, d);
    EntryInDisk(g, disk, d);
    hide CopiesWritten, FatInfo.Fits, FatInfo.EntryIndex, FatInfo.EntrySector, ToLe, Patch, TableSector;
    if g.EntrySector(d) == g.EntrySector(c) {
      PatchSlices(disk[g.EntrySector(c)], g.EntryIndex(c), ToLe(v), g.EntryIndex(d));
      if d != c {
        g.EntriesApart(c, d);
      }
    }
  }

  /** Read back what was written; every other entry reads as before. */
  lemma EntryReadBack(g: FatInfo, disk: Disk, disk': Disk, c: nat, v: nat, d: nat)
    requires EntryWritten(g, disk, disk', c, v) && d < g.Entries()
    ensures g.Entry(disk', d) == if d == c then v else g.Entry(disk, d)
  {
    hide EntryWritten, FatInfo.Fits, FatInfo.EntryIndex, FatInfo.EntrySector, FatInfo.Entries, ToLe, FromLe, And;
    SliceAfter(g, disk, disk', c, v, d);
    if d == c {
      LeRoundTrip(v);
      MaskKeepsLow28(v);
    }
  }

  /** Writing an entry updates the table at that entry, keeps the copies alike and leaves all files' bytes alone. */
  lemma WriteEffect(g: FatInfo, disk: Disk, disk': Disk, c: nat, v: nat)
    requires EntryWritten(g, disk, disk', c, v)
    ensures g.Table(disk') == g.Table(disk)[c := v]
    ensures g.Fits(disk')
    ensures g.Mirrored(disk) ==> g.Mirrored(disk')
    ensures forall lba: nat :: lba < |disk| && (lba < g.fatStart || g.heapStart <= lba) ==> disk'[lba] == disk[lba]
  {
    EntryInDisk(g, disk, c);
    var s := TableSector(g, c);
    forall d: nat | d < g.Entries()
      ensures g.Entry(disk', d) == if d == c then v else g.Entry(disk, d)
    {
      EntryReadBack(g, disk, disk', c, v, d);
    }
    TableUpdate(g, disk, disk', c, v);
    OutsideKept(g, disk, disk', c, v);
    FitsKept(g, disk, disk', s, g.numFats, NewSector(g, disk, c, v));
    if g.Mirrored(disk) {
      MirrorKept(g, disk, disk', s, NewSector(g, disk, c, v));
    }
  }

  lemma OutsideKept(g: FatInfo, disk: Disk, disk': Disk, c: nat, v: nat)
    requires EntryWritten(g, disk, disk', c, v)
    ensures |disk'| == |disk|
    ensures forall lba: nat :: lba < |disk| && (lba < g.fatStart || g.heapStart <= lba) ==> disk'[lba] == disk[lba]
  {
    hide FatInfo.Fits, FatInfo.EntrySector, FatInfo.EntryIndex, FatInfo.CopySector, TableSector, NewSector, IsCopy;
    EntryInDisk(g, disk, c);
    forall lba: nat | lba < |disk| && (lba < g.fatStart || g.heapStart <= lba)
      ensures disk'[lba] == disk[lba]
    {
      NoCopyOutside(g, TableSector(g, c), lba);
    }
  }

  lemma NoCopyOutside(g: FatInfo, s: nat, lba: nat)
    requires forall k: nat :: k < g.numFats ==> g.CopySector(k, s) < g.heapStart
    requires lba < g.fatStart || g.heapStart <= lba
    ensures !IsCopy(g, s, g.numFats, lba)
  {
    forall k: nat | k < g.numFats
      ensures lba != g.CopySector(k, s)
    {
      ProductNonNegative(k, g.sectorsPerFat);
    }
  }

  lemma TableUpdate(g: FatInfo, disk: Disk, disk': Disk, c: nat, v: nat)
    requires c < g.Entries()
    requires forall d: nat :: d < g.Entries() ==> g.Entry(disk', d) == if d == c then v else g.Entry(disk, d)
    ensures g.Table(disk') == g.Table(disk)[c := v]
  {
    hide FatInfo.Entry;
  }

  lemma FitsKept(g: FatInfo, disk: Disk, disk': Disk, s: nat, n: nat, buf: Sector)
    requires g.Fits(disk) && CopiesWritten(g, disk, disk', s, n, buf) && |buf| == g.bytesPerSector
    ensures g.Fits(disk')
  {
  }

  lemma MirrorKept(g: FatInfo, disk: Disk, disk': Disk, s: nat, buf: Sector)
    requires g.Mirrored(disk) && CopiesWritten(g, disk, disk', s, g.numFats, buf) && s < g.sectorsPerFat
    ensures g.Mirrored(disk')
  {
    forall k: nat, t: nat | k < g.numFats && t < g.sectorsPerFat
      ensures g.CopySector(k, t) < |disk'| && disk'[g.CopySector(k, t)] == disk'[g.CopySector(0, t)]
    {
      assert g.CopySector(k, t) < |disk| && disk[g.CopySector(k, t)] == disk[g.CopySector(0, t)];
      assert g.CopySector(0, t) < |disk|;
      hide FatInfo.Mirrored;
      CopyAfter(g, s, k, t);
      CopyAfter(g, s, 0, t);
    }
  }

  /** A copy of sector `t` is written exactly when `t` is the written sector. */
  lemma CopyAfter(g: FatInfo, s: nat, k: nat, t: nat)
    requires k < g.numFats && t < g.sectorsPerFat
    ensures s < g.sectorsPerFat ==> (IsCopy(g, s, g.numFats, g.CopySector(k, t)) <==> t == s)
  {
    if s < g.sectorsPerFat && IsCopy(g, s, g.numFats, g.CopySector(k, t)) {
      var j: nat :| j < g.numFats && g.CopySector(k, t) == g.CopySector(j, s);
      g.CopiesDistinct(j, s, k, t);
    }
  }
}
