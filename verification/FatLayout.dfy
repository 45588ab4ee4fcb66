// Where FAT32 structures lie on the disk: table entries in sectors, clusters in the
// data area, and the bytes of a file in its clusters.
module FatLayout {
  import opened Bits
  import opened FatChains

  type byte = b: nat | b < 256
  type Sector = seq<byte>
  type Disk = seq<Sector>

  datatype FatError = ReadError | InvalidCluster | DiskFull

  // ---- Table entries in their four bytes ----

  function FromLe(b: seq<byte>): nat
    requires |b| == 4
  {
    var b0: nat, b1: nat, b2: nat, b3: nat := b[0], b[1], b[2], b[3];
    b0 + 0x100 * b1 + 0x1_0000 * b2 + 0x100_0000 * b3
  }

  function ToLe(v: nat): (b: seq<byte>)
    requires v < 0x1_0000_0000
    ensures |b| == 4
  {
    [v % 0x100, v / 0x100 % 0x100, v / 0x1_0000 % 0x100, v / 0x100_0000]
  }

  lemma LeRoundTrip(v: nat)
    requires v < 0x1_0000_0000
    ensures FromLe(ToLe(v)) == v
  {
    var b0, b1, b2, b3 := v % 0x100, v / 0x100 % 0x100, v / 0x100 / 0x100 % 0x100, v / 0x100 / 0x100 / 0x100;
    DivModUnique(v, 0x1_0000, v / 0x100 / 0x100, b0 + 0x100 * b1);
    DivModUnique(v, 0x100_0000, b3, b0 + 0x100 * b1 + 0x1_0000 * b2);
    assert ToLe(v) == [b0, b1, b2, b3];
  }

  const ENTRY_MASK := 0x0FFF_FFFF

  /** The mask keeps the low 28 bits. */
  lemma MaskKeepsLow28(v: nat)
    ensures And(v, ENTRY_MASK) == v % 0x1000_0000
  {
    Pow2Is28();
    AndMask(v, 28);
  }

  /** The word of four bytes, the least significant first, without its high four bits. */
  lemma MaskedWord(b: seq<byte>)
    requires |b| == 4
    ensures var b0: nat, b1: nat, b2: nat, b3: nat := b[0], b[1], b[2], b[3];
            And(FromLe(b), ENTRY_MASK) == b0 + 0x100 * b1 + 0x1_0000 * b2 + 0x100_0000 * (b3 % 16)
  {
    MaskKeepsLow28(FromLe(b));
    var b0: nat, b1: nat, b2: nat, b3: nat := b[0], b[1], b[2], b[3];
    DivModUnique(FromLe(b), 0x1000_0000, b3 / 16, b0 + 0x100 * b1 + 0x1_0000 * b2 + 0x100_0000 * (b3 % 16));
  }

  lemma Pow2Is28()
    ensures Pow2(28) == 0x1000_0000
  {
    assert Pow2(7) == 128;
    assert Pow2(14) == 16384 by { assert Pow2(10) == 1024; }
    assert Pow2(21) == 2097152 by { assert Pow2(17) == 131072; }
    assert Pow2(24) == 16777216;
  }

  /** The fields of `FatInfo` that locate things, after mounting. */
  datatype FatInfo = FatInfo(
    bytesPerSector: nat,
    sectorsPerCluster: nat,
    numFats: nat,
    sectorsPerFat: nat,
    fatStart: nat,
    heapStart: nat,
    totalClusters: nat)
  {
    function BytesPerCluster(): nat {
      bytesPerSector * sectorsPerCluster
    }

    /** Table entries there are: clusters are numbered from 2. */
    function Entries(): nat {
      totalClusters + 2
    }

    /** The volume fits the disk, the table covers every cluster, and sectors hold whole entries. */
    ghost predicate Fits(disk: Disk) {
      && 0 < bytesPerSector && bytesPerSector % 4 == 0 && 0 < sectorsPerCluster && 0 < numFats
      && heapStart == fatStart + numFats * sectorsPerFat
      && heapStart + totalClusters * sectorsPerCluster <= |disk|
      && 4 * Entries() <= sectorsPerFat * bytesPerSector
      && Entries() <= EOC
      && (forall i :: 0 <= i < |disk| ==> |disk[i]| == bytesPerSector)
    }

    // ---- The table ----

    function EntrySector(c: nat): nat
      requires bytesPerSector > 0
    {
      fatStart + 4 * c / bytesPerSector
    }

    function EntryIndex(c: nat): nat
      requires bytesPerSector > 0
    {
      4 * c % bytesPerSector
    }

    /** No entry straddles two sectors, for any cluster, exactly when the sector size is a multiple of 4. */
    lemma NoEntryCrossesIff()
      requires bytesPerSector > 0
      ensures (forall c: nat :: EntryIndex(c) + 4 <= bytesPerSector) <==> bytesPerSector % 4 == 0
    {
      if bytesPerSector % 4 == 0 {
        forall c: nat
          ensures EntryIndex(c) + 4 <= bytesPerSector
        {
          EntryFits(c);
        }
      } else {
        var c := bytesPerSector / 4;
        DivModUnique(4 * c, bytesPerSector, 0, 4 * c);
        assert EntryIndex(c) + 4 > bytesPerSector;
      }
    }

    lemma EntryFits(c: nat)
      requires bytesPerSector > 0 && bytesPerSector % 4 == 0
      ensures EntryIndex(c) + 4 <= bytesPerSector && EntryIndex(c) % 4 == 0
    {
      var q, r := DivMod(4 * c, bytesPerSector);
      var k := bytesPerSector / 4;
      Quadruple(q, k);
      assert r == 4 * (c - q * k);
    }

    lemma Quadruple(q: nat, k: nat)
      ensures q * (4 * k) == 4 * (q * k)
    {
    }

    /** The entry a disk holds for a cluster; the high four bits are not part of it. */
    function Entry(disk: Disk, c: nat): nat {
      if bytesPerSector > 0 && EntrySector(c) < |disk| && EntryIndex(c) + 4 <= |disk[EntrySector(c)]| then
        And(FromLe(disk[EntrySector(c)][EntryIndex(c)..EntryIndex(c) + 4]), ENTRY_MASK)
      else 0
    }

    /** The first copy of the table, as the sequence of its entries. */
    function Table(disk: Disk): (fat: Fat)
      ensures |fat| == Entries()
    {
      seq(Entries(), (c: nat) => Entry(disk, c))
    }

    /** All copies of the table agree. */
    ghost predicate Mirrored(disk: Disk) {
      forall k: nat, s: nat :: k < numFats && s < sectorsPerFat ==>
        CopySector(0, s) < |disk| && CopySector(k, s) < |disk| && disk[CopySector(k, s)] == disk[CopySector(0, s)]
    }

    function CopySector(k: nat, s: nat): nat {
      fatStart + s + k * sectorsPerFat
    }

    lemma EntryInTable(c: nat)
      requires bytesPerSector > 0 && 4 * Entries() <= sectorsPerFat * bytesPerSector && c < Entries()
      ensures fatStart <= EntrySector(c) < fatStart + sectorsPerFat
    {
      var q, r := DivMod(4 * c, bytesPerSector);
      if sectorsPerFat <= q {
        MulLe(sectorsPerFat, q, bytesPerSector);
      }
    }

    /** Every copy of a table sector lies between the table's start and the data area. */
    lemma CopyBounds(k: nat, s: nat)
      requires k < numFats && s < sectorsPerFat
      ensures fatStart <= CopySector(k, s) < fatStart + numFats * sectorsPerFat
      ensures k > 0 ==> CopySector(k, s) >= fatStart + sectorsPerFat
    {
      MulStrict(k, numFats, sectorsPerFat);
      if k > 0 {
        MulLe(1, k, sectorsPerFat);
      }
    }

    lemma CopiesDistinct(k: nat, s: nat, j: nat, t: nat)
      requires s < sectorsPerFat && t < sectorsPerFat && CopySector(k, s) == CopySector(j, t)
      ensures k == j && s == t
    {
      DivModUnique(s + k * sectorsPerFat, sectorsPerFat, k, s);
      DivModUnique(t + j * sectorsPerFat, sectorsPerFat, j, t);
    }

    /** Entries of different clusters have no byte in common. */
    lemma EntriesApart(c: nat, d: nat)
      requires bytesPerSector > 0 && c != d && EntrySector(c) == EntrySector(d)
      ensures EntryIndex(c) + 4 <= EntryIndex(d) || EntryIndex(d) + 4 <= EntryIndex(c)
    {
      var q, r := DivMod(4 * c, bytesPerSector);
      var q', r' := DivMod(4 * d, bytesPerSector);
    }

    // ---- Clusters and file bytes ----

    function ClusterToLba(c: nat): nat
      requires c >= 2
    {
      heapStart + (c - 2) * sectorsPerCluster
    }

    lemma ClusterBounds(c: nat, s: nat)
      requires 2 <= c < Entries() && s < sectorsPerCluster
      ensures heapStart <= ClusterToLba(c) + s < heapStart + totalClusters * sectorsPerCluster
    {
      MulStrict(c - 2, totalClusters, sectorsPerCluster);
    }

    /** Different clusters, and different sectors of a cluster, have different addresses. */
    lemma ClustersApart(c: nat, s: nat, d: nat, t: nat)
      requires 2 <= c && 2 <= d && s < sectorsPerCluster && t < sectorsPerCluster
      requires ClusterToLba(c) + s == ClusterToLba(d) + t
      ensures c == d && s == t
    {
      DivModUnique((c - 2) * sectorsPerCluster + s, sectorsPerCluster, c - 2, s);
      DivModUnique((d - 2) * sectorsPerCluster + t, sectorsPerCluster, d - 2, t);
    }

    /** Where byte `j` of a file is: which link of its chain, which sector of the cluster, which byte of the sector. */
    function LinkOf(j: nat): nat
      requires BytesPerCluster() > 0
    {
      j / BytesPerCluster()
    }

    function SectorOf(j: nat): nat
      requires BytesPerCluster() > 0 && bytesPerSector > 0
    {
      j % BytesPerCluster() / bytesPerSector
    }

    function IndexOf(j: nat): nat
      requires BytesPerCluster() > 0 && bytesPerSector > 0
    {
      j % BytesPerCluster() % bytesPerSector
    }

    lemma Coordinates(j: nat)
      requires bytesPerSector > 0 && sectorsPerCluster > 0
      ensures BytesPerCluster() > 0
      ensures j == LinkOf(j) * BytesPerCluster() + SectorOf(j) * bytesPerSector + IndexOf(j)
      ensures SectorOf(j) < sectorsPerCluster && IndexOf(j) < bytesPerSector
    {
      assert bytesPerSector * sectorsPerCluster >= bytesPerSector by {
        MulLe(1, sectorsPerCluster, bytesPerSector);
      }
      var q, r := DivMod(j, BytesPerCluster());
      var s, i := DivMod(r, bytesPerSector);
      if sectorsPerCluster <= s {
        MulLe(sectorsPerCluster, s, bytesPerSector);
      }
    }

    /** The sectors of a file one after another, whatever clusters they are in. */
    lemma SectorInFile(j: nat)
      requires bytesPerSector > 0 && sectorsPerCluster > 0 && BytesPerCluster() > 0
      ensures IndexOf(j) == j % bytesPerSector
      ensures LinkOf(j) * sectorsPerCluster + SectorOf(j) == j / bytesPerSector
    {
      Coordinates(j);
      var l, s := LinkOf(j), SectorOf(j);
      ProductOrder(l, bytesPerSector, sectorsPerCluster);
      Distribute(l * sectorsPerCluster, s, bytesPerSector);
      DivModUnique(j, bytesPerSector, l * sectorsPerCluster + s, IndexOf(j));
    }

    /** The byte of a file at given coordinates. */
    lemma FileByte(l: nat, s: nat, i: nat) returns (j: nat)
      requires bytesPerSector > 0 && sectorsPerCluster > 0 && s < sectorsPerCluster && i < bytesPerSector
      ensures j == (l * sectorsPerCluster + s) * bytesPerSector + i
      ensures BytesPerCluster() > 0 && LinkOf(j) == l && SectorOf(j) == s && IndexOf(j) == i
    {
      j := l * BytesPerCluster() + s * bytesPerSector + i;
      ProductOrder(l, bytesPerSector, sectorsPerCluster);
      Distribute(l * sectorsPerCluster, s, bytesPerSector);
      CoordinatesUnique(j, l, s, i);
    }

    static lemma ProductOrder(x: nat, y: nat, z: nat)
      ensures x * (y * z) == x * z * y
    {
    }

    lemma CoordinatesUnique(j: nat, l: nat, s: nat, i: nat)
      requires bytesPerSector > 0 && sectorsPerCluster > 0 && s < sectorsPerCluster && i < bytesPerSector
      requires j == l * BytesPerCluster() + s * bytesPerSector + i
      ensures BytesPerCluster() > 0
      ensures LinkOf(j) == l && SectorOf(j) == s && IndexOf(j) == i
    {
      MulStrict(s, sectorsPerCluster, bytesPerSector);
      DivModUnique(j, BytesPerCluster(), l, s * bytesPerSector + i);
      DivModUnique(s * bytesPerSector + i, bytesPerSector, s, i);
    }

    /** The bytes from `j` to the end of its sector are neighbours on the disk. */
    lemma SameSector(j: nat, d: nat)
      requires bytesPerSector > 0 && sectorsPerCluster > 0
      requires BytesPerCluster() > 0 && IndexOf(j) + d < bytesPerSector
      ensures LinkOf(j + d) == LinkOf(j) && SectorOf(j + d) == SectorOf(j) && IndexOf(j + d) == IndexOf(j) + d
    {
      Coordinates(j);
      CoordinatesUnique(j + d, LinkOf(j), SectorOf(j), IndexOf(j) + d);
    }

    /** Bytes a chain has room for. */
    function Capacity(path: seq<nat>): nat {
      |path| * BytesPerCluster()
    }

    lemma LinkInPath(path: seq<nat>, j: nat)
      requires BytesPerCluster() > 0
      ensures j < Capacity(path) <==> LinkOf(j) < |path|
    {
      var q, r := DivMod(j, BytesPerCluster());
      if q < |path| {
        MulStrict(q, |path|, BytesPerCluster());
      } else {
        MulLe(|path|, q, BytesPerCluster());
      }
    }
  }
}
