// The bytes of a file as one sequence, read and written a piece of a sector at a time.
module FatFiles {
  import opened Bits
  import opened FatChains
  import opened FatLayout
  import opened FatTable

  /** The clusters of a chain are distinct and within the volume. */
  ghost predicate ValidPath(g: FatInfo, path: seq<nat>) {
    && (forall i :: 0 <= i < |path| ==> 2 <= path[i] < g.Entries())
    && (forall i, j :: 0 <= i < j < |path| ==> path[i] != path[j])
  }

  lemma ChainIsValid(g: FatInfo, fat: Fat, start: nat, path: seq<nat>)
    requires Sized(fat) && |fat| == g.Entries() && IsChain(fat, start, path)
    ensures ValidPath(g, path)
  {
    forall i, j | 0 <= i < j < |path|
      ensures path[i] != path[j]
    {
      ChainAcyclic(fat, start, path, i, j);
    }
  }

  /** The sector that holds byte `j` of the file. */
  function LbaOf(g: FatInfo, path: seq<nat>, j: nat): nat
    requires g.bytesPerSector > 0 && g.BytesPerCluster() > 0
  {
    if g.LinkOf(j) < |path| && path[g.LinkOf(j)] >= 2 then
      g.ClusterToLba(path[g.LinkOf(j)]) + g.SectorOf(j)
    else 0
  }

  function ByteAt(g: FatInfo, disk: Disk, path: seq<nat>, j: nat): byte {
    if g.bytesPerSector > 0 && g.BytesPerCluster() > 0
       && LbaOf(g, path, j) < |disk| && g.IndexOf(j) < |disk[LbaOf(g, path, j)]| then
      disk[LbaOf(g, path, j)][g.IndexOf(j)]
    else 0
  }

  /** All bytes a chain has room for, in file order. */
  function Raw(g: FatInfo, disk: Disk, path: seq<nat>): (bytes: seq<byte>)
    ensures |bytes| == g.Capacity(path)
  {
    seq(g.Capacity(path), (j: nat) => ByteAt(g, disk, path, j))
  }

  function Overwrite(bytes: seq<byte>, at: nat, data: seq<byte>): seq<byte>
    requires at + |data| <= |bytes|
  {
    bytes[..at] + data + bytes[at + |data|..]
  }

  /** What the sector write of one loop round makes of the sector. */
  function Merge(sector: Sector, idx: nat, data: seq<byte>): Sector
    requires idx + |data| <= |sector|
  {
    sector[..idx] + data + sector[idx + |data|..]
  }

  lemma InDataArea(g: FatInfo, disk: Disk, path: seq<nat>, j: nat)
    requires g.Fits(disk) && ValidPath(g, path) && j < g.Capacity(path)
    ensures g.BytesPerCluster() > 0 && g.LinkOf(j) < |path| && path[g.LinkOf(j)] >= 2
    ensures LbaOf(g, path, j) == g.ClusterToLba(path[g.LinkOf(j)]) + g.SectorOf(j)
    ensures g.heapStart <= LbaOf(g, path, j) < |disk|
    ensures g.IndexOf(j) < g.bytesPerSector == |disk[LbaOf(g, path, j)]|
    ensures g.SectorOf(j) < g.sectorsPerCluster && g.fatStart <= g.heapStart
  {
    ProductNonNegative(g.numFats, g.sectorsPerFat);
    g.Coordinates(j);
    g.LinkInPath(path, j);
    g.ClusterBounds(path[g.LinkOf(j)], g.SectorOf(j));
  }

  lemma ByteOnDisk(g: FatInfo, disk: Disk, path: seq<nat>, link: nat, s: nat, i: nat)
    requires g.Fits(disk) && ValidPath(g, path)
    requires link < |path| && s < g.sectorsPerCluster && i < g.bytesPerSector
    ensures var j, lba := (link * g.sectorsPerCluster + s) * g.bytesPerSector + i, g.heapStart + (path[link] - 2) * g.sectorsPerCluster + s;
            && 0 <= j < g.Capacity(path) && 0 <= lba < |disk| && |disk[lba]| == g.bytesPerSector
            && Raw(g, disk, path)[j] == disk[lba][i]
  {
    hide FatInfo.IndexOf, FatInfo.LinkOf, FatInfo.SectorOf, FatInfo.Capacity, FatInfo.BytesPerCluster, ValidPath;
    var j := g.FileByte(link, s, i);
    g.LinkInPath(path, j);
    InDataArea(g, disk, path, j);
  }

  /**
   * Where the sectors of a file are on the disk, in sector numbers: cluster 2 is the first of the data area,
   * clusters follow each other in the order of their numbers, and so do the sectors of a cluster.
   */
  lemma SectorOnDisk(g: FatInfo, disk: Disk, path: seq<nat>, link: nat, s: nat)
    requires g.Fits(disk) && ValidPath(g, path) && link < |path| && s < g.sectorsPerCluster
    ensures var at, lba := (link * g.sectorsPerCluster + s) * g.bytesPerSector, g.heapStart + (path[link] - 2) * g.sectorsPerCluster + s;
            && 0 <= at <= at + g.bytesPerSector <= g.Capacity(path) && 0 <= lba < |disk|
            && Raw(g, disk, path)[at..at + g.bytesPerSector] == disk[lba]
  {
    hide FatInfo.Capacity, ValidPath, Raw;
    ByteOnDisk(g, disk, path, link, s, g.bytesPerSector - 1);
    ProductNonNegative(link, g.sectorsPerCluster);
    ProductNonNegative(link * g.sectorsPerCluster + s, g.bytesPerSector);
    var at, lba := (link * g.sectorsPerCluster + s) * g.bytesPerSector, g.heapStart + (path[link] - 2) * g.sectorsPerCluster + s;
    forall i: nat | i < g.bytesPerSector
      ensures Raw(g, disk, path)[at + i] == disk[lba][i]
    {
      ByteOnDisk(g, disk, path, link, s, i);
    }
  }

  /** A file whose clusters are the first ones, in order, lies on the disk sector after sector from the data area on. */
  lemma ContiguousFile(g: FatInfo, disk: Disk, path: seq<nat>, q: nat)
    requires g.Fits(disk) && ValidPath(g, path) && q < |path| * g.sectorsPerCluster
    requires forall i :: 0 <= i < |path| ==> path[i] == 2 + i
    ensures 0 <= q * g.bytesPerSector <= q * g.bytesPerSector + g.bytesPerSector <= g.Capacity(path) && g.heapStart + q < |disk|
    ensures Raw(g, disk, path)[q * g.bytesPerSector..q * g.bytesPerSector + g.bytesPerSector] == disk[g.heapStart + q]
  {
    hide FatInfo.Capacity, ValidPath, Raw;
    var l, s := DivMod(q, g.sectorsPerCluster);
    if |path| <= l {
      MulLe(|path|, l, g.sectorsPerCluster);
    }
    SectorOnDisk(g, disk, path, l, s);
  }

  /** Two bytes of one file share a sector only if they are that far apart in the file too. */
  lemma SameLba(g: FatInfo, disk: Disk, path: seq<nat>, j: nat, k: nat)
    requires g.Fits(disk) && ValidPath(g, path) && j < g.Capacity(path) && k < g.Capacity(path)
    requires g.BytesPerCluster() > 0 && LbaOf(g, path, j) == LbaOf(g, path, k)
    ensures j - g.IndexOf(j) == k - g.IndexOf(k)
  {
    InDataArea(g, disk, path, j);
    InDataArea(g, disk, path, k);
    g.ClustersApart(path[g.LinkOf(j)], g.SectorOf(j), path[g.LinkOf(k)], g.SectorOf(k));
    assert g.LinkOf(j) == g.LinkOf(k);
    g.Coordinates(j);
    g.Coordinates(k);
  }

  /** Files with no cluster in common have no sector in common. */
  lemma OtherLba(g: FatInfo, disk: Disk, path: seq<nat>, other: seq<nat>, j: nat, k: nat)
    requires g.Fits(disk) && ValidPath(g, path) && ValidPath(g, other) && DisjointPaths(other, path)
    requires j < g.Capacity(path) && k < g.Capacity(other)
    ensures g.BytesPerCluster() > 0 && LbaOf(g, path, j) != LbaOf(g, other, k)
  {
    InDataArea(g, disk, path, j);
    InDataArea(g, disk, other, k);
    assert path[g.LinkOf(j)] in path && other[g.LinkOf(k)] in other;
    if LbaOf(g, path, j) == LbaOf(g, other, k) {
      g.ClustersApart(path[g.LinkOf(j)], g.SectorOf(j), other[g.LinkOf(k)], g.SectorOf(k));
    }
  }

  /** The piece of a sector from byte `at` of the file on is the same piece of the file. */
  lemma ReadPiece(g: FatInfo, disk: Disk, path: seq<nat>, at: nat, n: nat)
    requires g.Fits(disk) && ValidPath(g, path) && at < g.Capacity(path)
    requires g.BytesPerCluster() > 0 && g.IndexOf(at) + n <= g.bytesPerSector
    ensures at + n <= g.Capacity(path) && LbaOf(g, path, at) < |disk|
    ensures g.IndexOf(at) + n <= |disk[LbaOf(g, path, at)]|
    ensures Raw(g, disk, path)[at..at + n] == disk[LbaOf(g, path, at)][g.IndexOf(at)..g.IndexOf(at) + n]
  {
    InDataArea(g, disk, path, at);
    hide FatInfo.Fits, ValidPath, FatInfo.Capacity, FatInfo.BytesPerCluster, FatInfo.IndexOf, FatInfo.LinkOf, FatInfo.SectorOf, LbaOf, ByteAt;
    if n > 0 {
      PieceByte(g, disk, path, at, at + n - 1);
    }
    forall i: nat | at <= i < at + n
      ensures Raw(g, disk, path)[i] == disk[LbaOf(g, path, at)][g.IndexOf(at) + (i - at)]
    {
      PieceByte(g, disk, path, at, i);
    }
  }

  lemma PieceByte(g: FatInfo, disk: Disk, path: seq<nat>, at: nat, i: nat)
    requires g.Fits(disk) && ValidPath(g, path) && at < g.Capacity(path) && at <= i
    requires g.BytesPerCluster() > 0 && g.IndexOf(at) + (i - at) < g.bytesPerSector
    ensures i < g.Capacity(path) && LbaOf(g, path, at) < |disk|
    ensures g.IndexOf(at) + (i - at) < |disk[LbaOf(g, path, at)]|
    ensures ByteAt(g, disk, path, i) == disk[LbaOf(g, path, at)][g.IndexOf(at) + (i - at)]
  {
    InDataArea(g, disk, path, at);
    g.SameSector(at, i - at);
    g.LinkInPath(path, i);
  }

  /** Merging a piece into its sector overwrites exactly that piece of the file. */
  lemma WritePiece(g: FatInfo, disk: Disk, path: seq<nat>, at: nat, data: seq<byte>)
    requires g.Fits(disk) && ValidPath(g, path) && at < g.Capacity(path)
    requires g.BytesPerCluster() > 0 && g.IndexOf(at) + |data| <= g.bytesPerSector
    ensures at + |data| <= g.Capacity(path) && g.heapStart <= LbaOf(g, path, at) < |disk|
    ensures g.IndexOf(at) + |data| <= |disk[LbaOf(g, path, at)]|
    ensures var lba := LbaOf(g, path, at);
            Raw(g, disk[lba := Merge(disk[lba], g.IndexOf(at), data)], path) == Overwrite(Raw(g, disk, path), at, data)
  {
    ReadPiece(g, disk, path, at, |data|);
    InDataArea(g, disk, path, at);
    var lba := LbaOf(g, path, at);
    var disk' := disk[lba := Merge(disk[lba], g.IndexOf(at), data)];
    forall j: nat | j < g.Capacity(path)
      ensures ByteAt(g, disk', path, j) == Overwrite(Raw(g, disk, path), at, data)[j]
    {
      WrittenByte(g, disk, path, at, data, j);
    }
  }

  lemma WrittenByte(g: FatInfo, disk: Disk, path: seq<nat>, at: nat, data: seq<byte>, j: nat)
    requires g.Fits(disk) && ValidPath(g, path) && at < g.Capacity(path) && j < g.Capacity(path)
    requires g.BytesPerCluster() > 0 && g.IndexOf(at) + |data| <= g.bytesPerSector
    requires LbaOf(g, path, at) < |disk| && g.IndexOf(at) + |data| <= |disk[LbaOf(g, path, at)]|
    ensures var lba := LbaOf(g, path, at);
            ByteAt(g, disk[lba := Merge(disk[lba], g.IndexOf(at), data)], path, j) ==
            if at <= j < at + |data| then data[j - at] else ByteAt(g, disk, path, j)
  {
    InDataArea(g, disk, path, at);
    InDataArea(g, disk, path, j);
    if at <= j < at + |data| {
      g.SameSector(at, j - at);
    } else if LbaOf(g, path, j) == LbaOf(g, path, at) {
      SameLba(g, disk, path, at, j);
    }
  }

  /** A write into one file's clusters leaves every other file's bytes alone. */
  lemma WriteSparesOthers(g: FatInfo, disk: Disk, path: seq<nat>, at: nat, sector: Sector, other: seq<nat>)
    requires g.Fits(disk) && ValidPath(g, path) && ValidPath(g, other) && DisjointPaths(other, path)
    requires at < g.Capacity(path) && g.BytesPerCluster() > 0 && LbaOf(g, path, at) < |disk|
    ensures Raw(g, disk[LbaOf(g, path, at) := sector], other) == Raw(g, disk, other)
  {
    forall k: nat | k < g.Capacity(other)
      ensures ByteAt(g, disk[LbaOf(g, path, at) := sector], other, k) == ByteAt(g, disk, other, k)
    {
      OtherLba(g, disk, path, other, at, k);
    }
  }

  /** A write to the data area does not touch the table or its copies. */
  lemma DataWriteKeepsTable(g: FatInfo, disk: Disk, lba: nat, sector: Sector)
    requires g.Fits(disk) && g.heapStart <= lba < |disk| && |sector| == g.bytesPerSector
    ensures g.Fits(disk[lba := sector]) && g.Table(disk[lba := sector]) == g.Table(disk)
    ensures g.Mirrored(disk) ==> g.Mirrored(disk[lba := sector])
  {
    var disk' := disk[lba := sector];
    forall c: nat | c < g.Entries()
      ensures g.Entry(disk', c) == g.Entry(disk, c)
    {
      EntryInDisk(g, disk, c);
      assert g.CopySector(0, TableSector(g, c)) < g.heapStart;
    }
    assert g.Table(disk') == g.Table(disk) by {
      hide FatInfo.Entry;
    }
    forall k: nat, s: nat | k < g.numFats && s < g.sectorsPerFat
      ensures g.CopySector(k, s) < g.heapStart
    {
      g.CopyBounds(k, s);
    }
  }

  /** Table writes do not touch any file's bytes. */
  lemma TableWriteKeepsFiles(g: FatInfo, disk: Disk, disk': Disk, path: seq<nat>)
    requires g.Fits(disk) && g.Fits(disk') && |disk'| == |disk| && ValidPath(g, path)
    requires forall lba: nat :: g.heapStart <= lba < |disk| ==> disk'[lba] == disk[lba]
    ensures Raw(g, disk', path) == Raw(g, disk, path)
  {
    forall j: nat | j < g.Capacity(path)
      ensures ByteAt(g, disk', path, j) == ByteAt(g, disk, path, j)
    {
      InDataArea(g, disk, path, j);
    }
  }

  /** Growing the chain does not move the bytes that were there. */
  lemma PrefixRaw(g: FatInfo, disk: Disk, path: seq<nat>, path': seq<nat>)
    requires g.Fits(disk) && ValidPath(g, path) && path <= path'
    ensures g.Capacity(path) <= g.Capacity(path')
    ensures Raw(g, disk, path')[..g.Capacity(path)] == Raw(g, disk, path)
  {
    MulLe(|path|, |path'|, g.BytesPerCluster());
    forall j: nat | j < g.Capacity(path)
      ensures ByteAt(g, disk, path', j) == ByteAt(g, disk, path, j)
    {
      InDataArea(g, disk, path, j);
    }
  }

  // ---- Loops over pieces ----

  /** How many of `want` bytes from `offset` on a chain with room for `capacity` has. */
  function Clip(want: nat, capacity: nat, offset: nat): (n: nat)
    ensures n <= want && (n > 0 ==> offset + n <= capacity)
    ensures n == want || offset + n >= capacity
  {
    if capacity <= offset then 0 else if want < capacity - offset then want else capacity - offset
  }

  /** The file after the first bytes of a write. */
  function Progress(bytes: seq<byte>, at: nat, data: seq<byte>): seq<byte> {
    if data == [] || at + |data| > |bytes| then bytes else Overwrite(bytes, at, data)
  }

  lemma MoreProgress(bytes: seq<byte>, at: nat, data: seq<byte>, more: seq<byte>)
    requires more != [] && at + |data| + |more| <= |bytes|
    ensures |Progress(bytes, at, data)| == |bytes|
    ensures Overwrite(Progress(bytes, at, data), at + |data|, more) == Progress(bytes, at, data + more)
  {
    if data == [] {
      assert data + more == more;
    } else {
      OverwriteTwice(bytes, at, data, more);
    }
  }

  lemma OverwriteTwice(bytes: seq<byte>, at: nat, data: seq<byte>, more: seq<byte>)
    requires at + |data| + |more| <= |bytes|
    ensures |Overwrite(bytes, at, data)| == |bytes|
    ensures Overwrite(Overwrite(bytes, at, data), at + |data|, more) == Overwrite(bytes, at, data + more)
  {
    var once := Overwrite(bytes, at, data);
    assert once[..at + |data|] == bytes[..at] + data;
    assert once[at + |data| + |more|..] == bytes[at + |data| + |more|..];
  }

  /** Files that share no cluster with `path` have kept their bytes, and so have the sectors before the table. */
  ghost predicate OthersSame(g: FatInfo, disk: Disk, disk': Disk, path: seq<nat>) {
    && |disk'| == |disk| && (forall lba: nat :: lba < g.fatStart && lba < |disk| ==> disk'[lba] == disk[lba])
    && forall other :: ValidPath(g, other) && DisjointPaths(other, path) ==> Raw(g, disk', other) == Raw(g, disk, other)
  }

  lemma StoreInDataArea(g: FatInfo, disk: Disk, path: seq<nat>, at: nat, sector: Sector)
    requires g.Fits(disk) && ValidPath(g, path) && at < g.Capacity(path)
    requires g.BytesPerCluster() > 0 && g.bytesPerSector > 0 && LbaOf(g, path, at) < |disk|
    ensures forall lba: nat :: lba < g.fatStart && lba < |disk| ==> disk[LbaOf(g, path, at) := sector][lba] == disk[lba]
  {
    hide FatInfo.Fits, FatInfo.Capacity, FatInfo.BytesPerCluster, ValidPath, LbaOf;
    InDataArea(g, disk, path, at);
  }

  lemma OthersStillSame(g: FatInfo, disk: Disk, disk': Disk, path: seq<nat>, at: nat, sector: Sector)
    requires g.Fits(disk') && ValidPath(g, path) && OthersSame(g, disk, disk', path)
    requires at < g.Capacity(path) && g.BytesPerCluster() > 0 && g.bytesPerSector > 0 && LbaOf(g, path, at) < |disk'|
    ensures OthersSame(g, disk, disk'[LbaOf(g, path, at) := sector], path)
  {
    hide FatInfo.Fits, FatInfo.Capacity, FatInfo.BytesPerCluster, ValidPath, DisjointPaths, Raw, LbaOf;
    StoreInDataArea(g, disk', path, at, sector);
    forall other | ValidPath(g, other) && DisjointPaths(other, path)
      ensures Raw(g, disk'[LbaOf(g, path, at) := sector], other) == Raw(g, disk, other)
    {
      WriteSparesOthers(g, disk', path, at, sector, other);
    }
  }

  lemma TableChangeSpares(g: FatInfo, disk: Disk, disk': Disk, path: seq<nat>)
    requires g.Fits(disk) && g.Fits(disk') && |disk'| == |disk|
    requires forall lba: nat :: lba < |disk| && (lba < g.fatStart || g.heapStart <= lba) ==> disk'[lba] == disk[lba]
    ensures OthersSame(g, disk, disk', path)
    ensures ValidPath(g, path) ==> Raw(g, disk', path) == Raw(g, disk, path)
  {
    forall other | ValidPath(g, other)
      ensures Raw(g, disk', other) == Raw(g, disk, other)
    {
      TableWriteKeepsFiles(g, disk, disk', other);
    }
  }

  // ---- The file as a byte sequence ----

  /** A file's contents: as many of its chain's bytes as its size says. */
  function Content(g: FatInfo, disk: Disk, path: seq<nat>, size: nat): seq<byte>
    requires size <= g.Capacity(path)
  {
    Raw(g, disk, path)[..size]
  }

  /** The first bytes of what an overwrite in a longer sequence leaves. */
  lemma PrefixSpliced(raw: seq<byte>, size: nat, offset: nat, data: seq<byte>)
    requires offset <= size <= |raw| && offset + |data| <= |raw|
    ensures var size' := if size < offset + |data| then offset + |data| else size;
            Overwrite(raw, offset, data)[..size'] ==
            raw[..size][..offset] + data + (if offset + |data| <= size then raw[..size][offset + |data|..] else [])
  {
  }

  /**
   * A write within or right at the end of a file, once it has found room, is the sequence write:
   * old bytes before, the buffer, what was left of the old bytes after.
   */
  lemma WriteIsSequenceWrite(g: FatInfo, disk: Disk, disk': Disk, path: seq<nat>, path': seq<nat>,
                             size: nat, offset: nat, data: seq<byte>)
    requires g.Fits(disk) && ValidPath(g, path) && path <= path'
    requires size <= g.Capacity(path) && offset <= size && data != [] && offset + |data| <= g.Capacity(path')
    requires Raw(g, disk', path') == Progress(Raw(g, disk, path'), offset, data)
    ensures var size' := if size < offset + |data| then offset + |data| else size;
            && size' <= g.Capacity(path')
            && Content(g, disk', path', size') ==
               Content(g, disk, path, size)[..offset] + data + (if offset + |data| <= size then Content(g, disk, path, size)[offset + |data|..] else [])
  {
    PrefixRaw(g, disk, path, path');
    var raw := Raw(g, disk, path');
    assert Content(g, disk, path, size) == raw[..size];
    hide Raw, ValidPath, FatInfo.Fits, FatInfo.Capacity, Overwrite;
    PrefixSpliced(raw, size, offset, data);
  }
}
