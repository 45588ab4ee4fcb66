// kernel/src/fs/fat/fat32.rs: the driver over a block device.
module Fat32 {
  import opened Wrappers
  import opened Bits
  import opened FatChains
  import opened FatLayout
  import opened FatTable
  import opened FatFiles

  /** A device that fails only for addresses it does not have. */
  class BlockDevice {
    var blocks: Disk

    constructor (blocks: Disk)
      ensures this.blocks == blocks
    {
      this.blocks := blocks;
    }

    method ReadBlock(lba: nat) returns (buf: Option<Sector>)
      ensures buf == if lba < |blocks| then Some(blocks[lba]) else None
    {
      buf := if lba < |blocks| then Some(blocks[lba]) else None;
    }

    method WriteBlock(lba: nat, buf: Sector) returns (ok: bool)
      modifies this
      ensures ok <==> lba < |old(blocks)|
      ensures blocks == if ok then old(blocks)[lba := buf] else old(blocks)
    {
      ok := lba < |blocks|;
      if ok {
        blocks := blocks[lba := buf];
      }
    }
  }

  /** The kernel's `usize` has 32 bits. */
  const USIZE_LIMIT := 0x1_0000_0000

  // ---- Following a chain, as far as it leads ----

  /** What reading the entry of a cluster yields, on a disk that may be corrupt. */
  function ReadResult(g: FatInfo, disk: Disk, c: nat): Result<nat, FatError>
    requires g.bytesPerSector > 0
  {
    if g.EntrySector(c) < |disk| then Ok(g.Entry(disk, c)) else Err(ReadError)
  }

  /** The result of `get_chain` from `cur` if it is there after `n` entries at most. */
  function Walk(g: FatInfo, disk: Disk, cur: nat, n: nat): Option<Result<seq<nat>, FatError>>
    requires g.bytesPerSector > 0
    decreases n
  {
    if cur < 2 then Some(Err(InvalidCluster))
    else if n == 0 then None
    else
      match ReadResult(g, disk, cur)
      case Err(e) => Some(Err(e))
      case Ok(next) =>
        if next >= EOC then Some(Ok([cur]))
        else if next == 0 then Some(Err(InvalidCluster))
        else Prepend(cur, Walk(g, disk, next, n - 1))
  }

  function Prepend(cur: nat, rest: Option<Result<seq<nat>, FatError>>): Option<Result<seq<nat>, FatError>> {
    match rest
    case Some(Ok(path)) => Some(Ok([cur] + path))
    case _ => rest
  }

  function PrependAll(path: seq<nat>, rest: Option<Result<seq<nat>, FatError>>): Option<Result<seq<nat>, FatError>> {
    match rest
    case Some(Ok(tail)) => Some(Ok(path + tail))
    case _ => rest
  }

  lemma PrependNothing(rest: Option<Result<seq<nat>, FatError>>)
    ensures PrependAll([], rest) == rest
  {
    if rest.Some? && rest.value.Ok? {
      assert [] + rest.value.value == rest.value.value;
    }
  }

  lemma PrependMore(path: seq<nat>, cur: nat, rest: Option<Result<seq<nat>, FatError>>)
    ensures PrependAll(path, Prepend(cur, rest)) == PrependAll(path + [cur], rest)
  {
    if rest.Some? && rest.value.Ok? {
      assert path + ([cur] + rest.value.value) == path + [cur] + rest.value.value;
    }
  }

  /** On a whole chain the walk ends, with exactly that chain. */
  lemma {:induction false} WalkFollowsChain(g: FatInfo, disk: Disk, start: nat, path: seq<nat>)
    requires g.Fits(disk) && IsChain(g.Table(disk), start, path)
    ensures Walk(g, disk, start, |path|) == Some(Ok(path))
    decreases |path|
  {
    var fat := g.Table(disk);
    EntryInDisk(g, disk, start);
    assert g.Entry(disk, start) == fat[start];
    if |path| > 1 {
      assert fat[path[0]] == path[1];
      ChainTail(fat, path, 1);
      WalkFollowsChain(g, disk, path[1], path[1..]);
      assert path == [start] + path[1..];
    } else {
      assert path == [start];
    }
  }

  /** Only the table is different, neither what precedes it nor the data area; and its copies are as alike as before. */
  ghost predicate TableOnly(g: FatInfo, disk: Disk, disk': Disk) {
    && |disk'| == |disk|
    && (g.Mirrored(disk) ==> g.Mirrored(disk'))
    && (forall lba: nat :: lba < |disk| && (lba < g.fatStart || g.heapStart <= lba) ==> disk'[lba] == disk[lba])
  }

  class Fat32Fs {
    const dev: BlockDevice
    const info: FatInfo

    constructor (dev: BlockDevice, info: FatInfo)
      ensures this.dev == dev && this.info == info
    {
      this.dev, this.info := dev, info;
    }

    ghost predicate Ready()
      reads dev
    {
      info.Fits(dev.blocks)
    }

    ghost function Fat(): Fat
      reads dev
    {
      info.Table(dev.blocks)
    }

    // ---- Entries ----

    method ReadFatEntry(cluster: nat) returns (r: Result<nat, FatError>)
      requires Ready()
      ensures r == ReadResult(info, dev.blocks, cluster)
      ensures cluster < info.Entries() ==> r == Ok(Fat()[cluster])
      ensures info.bytesPerSector > 0
      ensures var lba, i := info.fatStart + 4 * cluster / info.bytesPerSector, 4 * cluster % info.bytesPerSector;
              if lba >= |dev.blocks| then r == Err(ReadError)
              else
                && i + 4 <= |dev.blocks[lba]|
                && var b0: nat, b1: nat, b2: nat, b3: nat :=
                     dev.blocks[lba][i], dev.blocks[lba][i + 1], dev.blocks[lba][i + 2], dev.blocks[lba][i + 3];
                   r == Ok(b0 + 0x100 * b1 + 0x1_0000 * b2 + 0x100_0000 * (b3 % 16))
    {
      hide FatInfo.Fits, FatInfo.Entry, FatInfo.Table, And, FromLe;
      FitsBasics(info, dev.blocks);
      EntryOnDisk(info, dev.blocks, cluster);
      var offset := cluster * 4;
      var sector := info.fatStart + offset / info.bytesPerSector;
      var idx := offset % info.bytesPerSector;
      info.EntryFits(cluster);
      if cluster < info.Entries() {
        EntryInDisk(info, dev.blocks, cluster);
      }
      var buf := dev.ReadBlock(sector);
      if buf == None {
        return Err(ReadError);
      }
      if idx + 4 <= |buf.value| {
        MaskedWord(buf.value[idx..idx + 4]);
        var entry := FromLe(buf.value[idx..idx + 4]);
        return Ok(And(entry, ENTRY_MASK));
      } else {
        assert false;
      }
    }

    method WriteFatEntry(cluster: nat, value: nat) returns (r: Result<(), FatError>)
      requires Ready() && cluster < info.Entries() && value < 0x1_0000_0000
      modifies dev
      ensures r == Ok(()) && Ready() && TableOnly(info, old(dev.blocks), dev.blocks)
      ensures Fat() == old(Fat())[cluster := value % 0x1000_0000]
      ensures info.bytesPerSector > 0
      ensures forall k: nat :: k < info.numFats ==> CopyHolds(info, dev.blocks, k, cluster, value % 0x1000_0000)
    {
      hide FatInfo.Fits, FatInfo.Mirrored, FatInfo.Table, CopiesWritten, FatInfo.Entry, CopyHolds;
      ghost var disk := dev.blocks;
      MaskKeepsLow28(value);
      var masked := And(value, ENTRY_MASK);
      var offset := cluster * 4;
      FitsBasics(info, disk);
      var sector := info.fatStart + offset / info.bytesPerSector;
      var idx := offset % info.bytesPerSector;
      EntryInDisk(info, disk, cluster);
      ghost var s := TableSector(info, cluster);
      var read := dev.ReadBlock(sector);
      if read == None {
        assert false;
      }
      var buf := read.value;
      if idx + 4 <= |buf| {
        buf := Patch(buf, idx, ToLe(masked));
        NoneWritten(info, disk, s, buf);
        OneMoreCopy(info, disk, disk, s, 0, buf);
        var ok := dev.WriteBlock(sector, buf);
      } else {
        assert false;
      }
      for fatIdx := 1 to info.numFats
        invariant CopiesWritten(info, disk, dev.blocks, s, fatIdx, buf)
      {
        var fatSector := sector + fatIdx * info.sectorsPerFat;
        assert fatSector == info.CopySector(fatIdx, s);
        OneMoreCopy(info, disk, dev.blocks, s, fatIdx, buf);
        SameSize(info, disk, dev.blocks, s, fatIdx, buf);
        var ok := dev.WriteBlock(fatSector, buf);
      }
      SameSize(info, disk, dev.blocks, s, info.numFats, buf);
      WriteEffect(info, disk, dev.blocks, cluster, masked);
      forall k: nat | k < info.numFats
        ensures CopyHolds(info, dev.blocks, k, cluster, masked)
      {
        BytesWritten(info, disk, dev.blocks, cluster, masked, k);
      }
      return Ok(());
    }

    static lemma FitsBasics(g: FatInfo, disk: Disk)
      requires g.Fits(disk)
      ensures g.bytesPerSector > 0 && g.numFats > 0 && g.sectorsPerCluster > 0 && g.heapStart <= |disk|
      ensures g.bytesPerSector % 4 == 0 && Sized(g.Table(disk)) && |g.Table(disk)| == g.Entries()
      ensures forall i :: 0 <= i < |disk| ==> |disk[i]| == g.bytesPerSector
      ensures g.BytesPerCluster() > 0
    {
      g.Coordinates(0);
    }

    static lemma EntryOnDisk(g: FatInfo, disk: Disk, c: nat)
      requires g.Fits(disk)
      ensures c < g.Entries() ==> g.Table(disk)[c] == g.Entry(disk, c)
      ensures g.EntrySector(c) < |disk| ==>
                && g.EntryIndex(c) + 4 <= |disk[g.EntrySector(c)]|
                && g.Entry(disk, c) == And(FromLe(disk[g.EntrySector(c)][g.EntryIndex(c)..g.EntryIndex(c) + 4]), ENTRY_MASK)
    {
      g.EntryFits(c);
    }

    static lemma NoneWritten(g: FatInfo, disk: Disk, s: nat, buf: Sector)
      ensures CopiesWritten(g, disk, disk, s, 0, buf)
    {
    }

    static lemma SameSize(g: FatInfo, disk: Disk, disk': Disk, s: nat, n: nat, buf: Sector)
      requires CopiesWritten(g, disk, disk', s, n, buf)
      ensures |disk'| == |disk|
    {
    }

    // ---- Clusters ----

    /** `alloc_cluster`: the scan stops short of `total_clusters`. */
    method AllocCluster() returns (r: Result<nat, FatError>)
      requires Ready()
      modifies dev
      ensures Ready() && TableOnly(info, old(dev.blocks), dev.blocks)
      ensures match FirstFree(old(Fat()), 2, info.totalClusters)
              case None => r == Err(DiskFull) && dev.blocks == old(dev.blocks)
              case Some(c) => r == Ok(c) && Fat() == old(Fat())[c := 0x0FFF_FFFF]
    {
      hide FatInfo.Fits, FatInfo.Mirrored, FatInfo.Table;
      FitsBasics(info, dev.blocks);
      var cluster := 2;
      while cluster < info.totalClusters
        invariant 2 <= cluster && dev.blocks == old(dev.blocks)
        invariant FirstFree(Fat(), cluster, info.totalClusters) == FirstFree(Fat(), 2, info.totalClusters)
        decreases info.totalClusters - cluster
      {
        var entry := ReadFatEntry(cluster);
        if entry.value == 0 {
          var w := WriteFatEntry(cluster, EOC_MARK);
          return Ok(cluster);
        }
        cluster := cluster + 1;
      }
      return Err(DiskFull);
    }

    method LinkCluster(last: nat, new_: nat) returns (r: Result<(), FatError>)
      requires Ready() && last < info.Entries() && new_ < info.Entries()
      modifies dev
      ensures Ready() && TableOnly(info, old(dev.blocks), dev.blocks)
      ensures r == Ok(()) && Fat() == old(Fat())[last := new_][new_ := 0x0FFF_FFFF] == Link(old(Fat()), last, new_)
    {
      hide FatInfo.Fits, FatInfo.Mirrored, FatInfo.Table;
      FitsBasics(info, dev.blocks);
      r := WriteFatEntry(last, new_);
      r := WriteFatEntry(new_, EOC_MARK);
    }

    /** `get_chain`, on any disk on which it ends. */
    method GetChain(start: nat, ghost n: nat) returns (r: Result<seq<nat>, FatError>)
      requires Ready() && Walk(info, dev.blocks, start, n).Some?
      ensures Some(r) == Walk(info, dev.blocks, start, n)
    {
      hide FatInfo.Fits, FatInfo.Table, FatInfo.Entry;
      FitsBasics(info, dev.blocks);
      var chain: seq<nat>, cur: nat := [], start;
      ghost var left := n;
      PrependNothing(Walk(info, dev.blocks, start, n));
      while true
        invariant Walk(info, dev.blocks, start, n) == PrependAll(chain, Walk(info, dev.blocks, cur, left))
        decreases left
      {
        if cur < 2 {
          return Err(InvalidCluster);
        }
        chain := chain + [cur];
        var next := ReadFatEntry(cur);
        if next.Err? {
          return Err(next.error);
        }
        if next.value >= EOC {
          break;
        }
        if next.value == 0 {
          return Err(InvalidCluster);
        }
        PrependMore(chain[..|chain| - 1], cur, Walk(info, dev.blocks, next.value, left - 1));
        cur := next.value;
        left := left - 1;
      }
      return Ok(chain);
    }

    /** A size divided by the cluster size, rounded up, is the least number of clusters that hold it. */
    static lemma Enough(size: nat, bytesPerCluster: nat, count: nat)
      requires bytesPerCluster > 0
      ensures (size + bytesPerCluster - 1) / bytesPerCluster <= count <==> size <= count * bytesPerCluster
    {
      var q, r := DivMod(size + bytesPerCluster - 1, bytesPerCluster);
      if q <= count {
        MulLe(q, count, bytesPerCluster);
      } else {
        MulStrict(count, q, bytesPerCluster);
      }
    }

    /** A start cluster whose chain `get_chain` can follow to an end: whole, or reported as broken. */
    ghost predicate Followable(start: nat, n: nat)
      requires info.bytesPerSector > 0
      reads dev
    {
      match Walk(info, dev.blocks, start, n)
      case None => false
      case Some(Err(_)) => true
      case Some(Ok(path)) => IsChain(Fat(), start, path)
    }

    /**
     * `extend_file`.  The new chain, returned as `path'`, is the old one followed by clusters that were free,
     * also when the disk fills up half-way.  It has room for the new size, and none is added that is not needed.
     */
    method ExtendFile(start: nat, newSize: nat, ghost n: nat) returns (r: Result<(), FatError>, ghost path': seq<nat>)
      requires Ready() && Followable(start, n)
      requires newSize + info.BytesPerCluster() <= USIZE_LIMIT
      modifies dev
      ensures Ready() && TableOnly(info, old(dev.blocks), dev.blocks)
      ensures match Walk(info, old(dev.blocks), start, n).value
              case Err(e) => r == Err(e) && dev.blocks == old(dev.blocks)
              case Ok(path) =>
                && Extension(old(Fat()), Fat(), info.totalClusters, path, path')
                && match r
                   case Ok(_) => newSize <= info.Capacity(path') && Grown(info, path, path', newSize)
                   case Err(e) => e == DiskFull && info.Capacity(path') < newSize && FirstFree(Fat(), 2, info.totalClusters) == None
    {
      hide FatInfo.Fits, FatInfo.Table, FatInfo.Mirrored, IsChain, FatInfo.BytesPerCluster, TableOnly, Extension, FirstFree;
      path' := [];
      TableSame(info, dev.blocks);
      FitsBasics(info, dev.blocks);
      var bytesPerCluster := info.BytesPerCluster();
      var clustersNeeded := (newSize + bytesPerCluster - 1) / bytesPerCluster;
      var walked := GetChain(start, n);
      if walked.Err? {
        return Err(walked.error), path';
      }
      var chain := walked.value;
      path' := chain;
      ghost var fat := Fat();
      ChainExtendsItself(fat, info.totalClusters, start, chain);
      var currentClusters := |chain|;
      Enough(newSize, bytesPerCluster, |chain|);
      if clustersNeeded <= currentClusters {
        return Ok(()), path';
      }
      var clustersToAdd := clustersNeeded - currentClusters;
      var lastCluster := chain[|chain| - 1];
      for i := 0 to clustersToAdd
        invariant Ready() && TableOnly(info, old(dev.blocks), dev.blocks)
        invariant Extension(fat, Fat(), info.totalClusters, chain, path')
        invariant |path'| == |chain| + i && lastCluster == Last(path')
      {
        ExtensionBounds(fat, Fat(), info.totalClusters, chain, path');
        FitsBasics(info, dev.blocks);
        ghost var now, disk := Fat(), dev.blocks;
        var added := AllocCluster();
        TableTwice(info, old(dev.blocks), disk, dev.blocks);
        if added.Err? {
          Enough(newSize, bytesPerCluster, |path'|);
          return Err(added.error), path';
        }
        ExtendByOne(fat, now, info.totalClusters, chain, path', added.value);
        disk := dev.blocks;
        FirstFreeBounds(now, added.value, info.totalClusters);
        var linked := LinkCluster(lastCluster, added.value);
        TableTwice(info, old(dev.blocks), disk, dev.blocks);
        path' := path' + [added.value];
        lastCluster := added.value;
      }
      Enough(newSize, bytesPerCluster, |path'|);
      Enough(newSize, bytesPerCluster, |path'| - 1);
      return Ok(()), path';
    }

    static lemma ChainExtendsItself(fat: Fat, total: nat, start: nat, path: seq<nat>)
      requires IsChain(fat, start, path)
      ensures path != [] && Extension(fat, fat, total, path, path)
    {
    }

    static lemma TableSame(g: FatInfo, disk: Disk)
      ensures TableOnly(g, disk, disk)
    {
    }

    static lemma TableTwice(g: FatInfo, disk: Disk, disk': Disk, disk'': Disk)
      requires TableOnly(g, disk, disk') && TableOnly(g, disk', disk'')
      ensures TableOnly(g, disk, disk'')
    {
    }

    static lemma FirstFreeBounds(fat: Fat, c: nat, total: nat)
      requires total <= |fat| && FirstFree(fat, 2, total) == Some(c)
      ensures 2 <= c < total
    {
    }

    static lemma ExtensionBounds(fat: Fat, fat': Fat, total: nat, path: seq<nat>, path': seq<nat>)
      requires Extension(fat, fat', total, path, path')
      ensures path' != [] && Last(path') < |fat'| && 2 <= Last(path')
    {
    }
  }

  datatype FdError = IoError

  /** No cluster has been added that the size does not need. */
  ghost predicate Grown(g: FatInfo, path: seq<nat>, path': seq<nat>, size: nat) {
    path' == path || (path' != [] && g.Capacity(path'[1..]) < size)
  }

  /** What a write of a nonempty buffer does, on a file whose chain `path` is whole and becomes `path'`. */
  ghost predicate Written(g: FatInfo, was: Disk, now: Disk, path: seq<nat>, path': seq<nat>,
                          buf: seq<byte>, offset: nat, size: nat, size': nat, r: Result<nat, FdError>)
  {
    && Extension(g.Table(was), g.Table(now), g.totalClusters, path, path')
    && OthersSame(g, was, now, path')
    && match r
       case Err(_) =>
         // No room: the chain may be longer, but the size and every byte are as before.
         && size' == size && offset + |buf| > size
         && FirstFree(g.Table(now), 2, g.totalClusters) == None && g.Capacity(path') < offset + |buf|
         && Raw(g, now, path') == Raw(g, was, path')
       case Ok(m) =>
         && size' == (if size < offset + |buf| then offset + |buf| else size)
         && m == Clip(|buf|, g.Capacity(path'), offset)
         && (if size < offset + |buf| then m == |buf| && Grown(g, path, path', offset + |buf|)
             else path' == path && g.Table(now) == g.Table(was))
         && Raw(g, now, path') == Progress(Raw(g, was, path'), offset, buf[..m])
  }

  class Fat32File {
    const fs: Fat32Fs
    const startCluster: nat
    var size: nat

    constructor (fs: Fat32Fs, startCluster: nat, size: nat)
      requires !(startCluster < 2 && size > 0)
      ensures this.fs == fs && this.startCluster == startCluster && this.size == size
    {
      this.fs, this.startCluster, this.size := fs, startCluster, size;
    }

    /** `Fat32File::new` */
    static method New(fs: Fat32Fs, startCluster: nat, size: nat) returns (r: Result<Fat32File, FatError>)
      ensures r.Err? <==> startCluster < 2 && size > 0
      ensures r.Ok? ==> fresh(r.value) && r.value.fs == fs && r.value.startCluster == startCluster && r.value.size == size
    {
      if startCluster < 2 && size > 0 {
        return Err(InvalidCluster);
      }
      var file := new Fat32File(fs, startCluster, size);
      return Ok(file);
    }

    method Read(buf: array<byte>, offset: nat, ghost n: nat) returns (r: Result<nat, FdError>)
      requires fs.Ready() && fs.Followable(startCluster, n)
      modifies buf
      ensures offset >= size || buf.Length == 0 ==> r == Ok(0) && buf[..] == old(buf[..])
      ensures offset < size && buf.Length > 0 ==>
                match Walk(fs.info, fs.dev.blocks, startCluster, n).value
                case Err(_) => r == Err(IoError) && buf[..] == old(buf[..])
                case Ok(path) =>
                  && r.Ok? && r.value <= buf.Length
                  && r.value == Clip(if buf.Length < size - offset then buf.Length else size - offset, fs.info.Capacity(path), offset)
                  && (r.value > 0 ==> buf[..r.value] == Raw(fs.info, fs.dev.blocks, path)[offset..offset + r.value])
                  && buf[r.value..] == old(buf[r.value..])
    {
      var fileSize := size;
      if offset >= fileSize {
        return Ok(0);
      }
      var bytesToRead := if buf.Length < fileSize - offset then buf.Length else fileSize - offset;
      if bytesToRead == 0 {
        return Ok(0);
      }
      hide FatInfo.Fits, FatInfo.Table, FatInfo.Mirrored, IsChain, FatInfo.BytesPerCluster, FatInfo.Entry, Raw, ValidPath, LbaOf;
      hide FatInfo.IndexOf, FatInfo.LinkOf, FatInfo.SectorOf, FatInfo.Capacity;
      Fat32Fs.FitsBasics(fs.info, fs.dev.blocks);
      var walked := fs.GetChain(startCluster, n);
      if walked.Err? {
        return Err(IoError);
      }
      var clusterChain := walked.value;
      ChainIsValid(fs.info, fs.Fat(), startCluster, clusterChain);
      var bytesRead := ReadPieces(clusterChain, buf, bytesToRead, offset);
      return Ok(bytesRead);
    }

    /** The loop of `read`: one sector at a time. */
    method ReadPieces(clusterChain: seq<nat>, buf: array<byte>, bytesToRead: nat, offset: nat) returns (bytesRead: nat)
      requires fs.Ready() && ValidPath(fs.info, clusterChain) && bytesToRead <= buf.Length
      modifies buf
      ensures bytesRead == Clip(bytesToRead, fs.info.Capacity(clusterChain), offset)
      ensures bytesRead > 0 ==>
                && offset + bytesRead <= fs.info.Capacity(clusterChain)
                && buf[..bytesRead] == Raw(fs.info, fs.dev.blocks, clusterChain)[offset..offset + bytesRead]
      ensures buf[bytesRead..] == old(buf[bytesRead..])
    {
      hide FatInfo.Fits, FatInfo.BytesPerCluster, Raw, ValidPath, FatInfo.Capacity;
      ghost var capacity, raw := fs.info.Capacity(clusterChain), Raw(fs.info, fs.dev.blocks, clusterChain);
      bytesRead := 0;
      var fileOffset := offset;
      while bytesRead < bytesToRead
        invariant bytesRead <= bytesToRead && fileOffset == offset + bytesRead
        invariant bytesRead > 0 ==> fileOffset <= capacity && buf[..bytesRead] == raw[offset..fileOffset]
        invariant forall i :: bytesRead <= i < buf.Length ==> buf[i] == old(buf[i])
      {
        var bytesToCopy := ReadSector(clusterChain, buf, bytesRead, bytesToRead, fileOffset);
        if bytesToCopy == 0 {
          break;
        }
        GrowSlice(raw, offset, fileOffset, fileOffset + bytesToCopy);
        bytesRead := bytesRead + bytesToCopy;
        fileOffset := fileOffset + bytesToCopy;
      }
    }

    /** One round of it: as much of one sector as is wanted and there; nothing at the end of the chain. */
    method ReadSector(clusterChain: seq<nat>, buf: array<byte>, bytesRead: nat, bytesToRead: nat, fileOffset: nat)
      returns (bytesToCopy: nat)
      requires fs.Ready() && ValidPath(fs.info, clusterChain) && bytesRead < bytesToRead <= buf.Length
      modifies buf
      ensures bytesToCopy > 0 <==> fileOffset < fs.info.Capacity(clusterChain)
      ensures fileOffset + bytesToCopy <= fs.info.Capacity(clusterChain) || bytesToCopy == 0
      ensures bytesRead + bytesToCopy <= bytesToRead
      ensures bytesToCopy > 0 ==>
                buf[..bytesRead + bytesToCopy] ==
                old(buf[..bytesRead]) + Raw(fs.info, fs.dev.blocks, clusterChain)[fileOffset..fileOffset + bytesToCopy]
      ensures forall i :: bytesRead + bytesToCopy <= i < buf.Length ==> buf[i] == old(buf[i])
      ensures bytesToCopy == 0 ==> buf[..] == old(buf[..])
    {
      hide FatInfo.Fits, FatInfo.BytesPerCluster, Raw, ValidPath, LbaOf;
      hide FatInfo.IndexOf, FatInfo.LinkOf, FatInfo.SectorOf, FatInfo.Capacity;
      Fat32Fs.FitsBasics(fs.info, fs.dev.blocks);
      var found, lba, offsetInSector := Locate(clusterChain, fileOffset);
      if !found {
        return 0;
      }
      var bytesAvailable := fs.info.bytesPerSector - offsetInSector;
      bytesToCopy := if bytesAvailable < bytesToRead - bytesRead then bytesAvailable else bytesToRead - bytesRead;
      ReadPiece(fs.info, fs.dev.blocks, clusterChain, fileOffset, bytesToCopy);
      var sector := fs.dev.ReadBlock(lba);
      if sector == None {
        assert false;
      }
      CopyFromSlice(buf, bytesRead, sector.value[offsetInSector..offsetInSector + bytesToCopy]);
    }

    /**
     * `path'` is the file's chain afterwards.  A write that could not be given room changes neither the size
     * nor any byte of any file.
     */
    method Write(buf: seq<byte>, offset: nat, ghost n: nat) returns (r: Result<nat, FdError>, ghost path': seq<nat>)
      requires fs.Ready() && fs.Followable(startCluster, n)
      requires offset + |buf| + fs.info.BytesPerCluster() <= USIZE_LIMIT
      modifies this`size, fs.dev
      ensures fs.Ready() && (fs.info.Mirrored(old(fs.dev.blocks)) ==> fs.info.Mirrored(fs.dev.blocks))
      ensures buf == [] ==> r == Ok(0) && size == old(size) && fs.dev.blocks == old(fs.dev.blocks)
      ensures buf != [] ==>
                match Walk(fs.info, old(fs.dev.blocks), startCluster, n).value
                case Err(_) => r == Err(IoError) && size == old(size) && fs.dev.blocks == old(fs.dev.blocks)
                case Ok(path) =>
                  Written(fs.info, old(fs.dev.blocks), fs.dev.blocks, path, path', buf, offset, old(size), size, r)
    {
      path' := [];
      var bytesToWrite := |buf|;
      if bytesToWrite == 0 {
        return Ok(0), path';
      }
      hide FatInfo.Fits, FatInfo.Table, FatInfo.Mirrored, IsChain, FatInfo.BytesPerCluster, FatInfo.Entry, Raw, ValidPath;
      hide FatInfo.Capacity, Extension, OthersSame, Walk, Progress, TableOnly, Written, FirstFree;
      Fat32Fs.FitsBasics(fs.info, fs.dev.blocks);
      ghost var g, before, currentSize := fs.info, fs.dev.blocks, size;
      ghost var walk := Walk(g, before, startCluster, n).value;
      var hasRoom;
      ghost var steps;
      hasRoom, path', steps := MakeRoom(offset + bytesToWrite, n);
      if !hasRoom {
        if walk.Ok? {
          NoRoom(g, before, fs.dev.blocks, walk.value, path', buf, offset, size);
        }
        return Err(IoError), path';
      }
      var walked := fs.GetChain(startCluster, steps);
      if walked.Err? {
        return Err(IoError), path';
      }
      var clusterChain := walked.value;
      ghost var extendedBlocks := fs.dev.blocks;
      var m := WritePieces(clusterChain, buf, offset);
      OthersTwice(g, before, extendedBlocks, fs.dev.blocks, clusterChain);
      Done(g, before, fs.dev.blocks, walk.value, path', buf, offset, currentSize, m);
      return Ok(m), path';
    }

    /** What a write put in place, whatever the offset and however much of it fitted, the next read returns. */
    method WriteThenRead(data: seq<byte>, buf: array<byte>, offset: nat, ghost n: nat)
      returns (written: Result<nat, FdError>, read: Result<nat, FdError>)
      requires fs.Ready() && fs.Followable(startCluster, n) && data != [] && buf.Length == |data|
      requires offset + |data| + fs.info.BytesPerCluster() <= USIZE_LIMIT
      modifies this`size, fs.dev, buf
      ensures written.Ok? ==> read == written && written.value <= |data| && buf[..written.value] == data[..written.value]
      ensures written.Ok? && old(size) < offset + |data| ==> written.value == |data|
    {
      hide FatInfo.Fits, FatInfo.Table, FatInfo.Mirrored, FatInfo.BytesPerCluster, FatInfo.Entry, FatInfo.Capacity;
      hide IsChain, Raw, ValidPath, Extension, OthersSame, Walk, Progress, FirstFree, Written;
      ghost var g, was := fs.info, fs.dev.blocks;
      Fat32Fs.FitsBasics(g, was);
      ghost var walk := Walk(g, was, startCluster, n).value;
      ghost var path';
      written, path' := Write(data, offset, n);
      read := written;
      if written.Ok? {
        Readable(g, was, fs.dev.blocks, startCluster, walk.value, path', data, offset, old(size), size, written.value);
        read := Read(buf, offset, |path'|);
      }
    }

    static lemma Readable(g: FatInfo, was: Disk, now: Disk, start: nat, path: seq<nat>, path': seq<nat>,
                          data: seq<byte>, offset: nat, size: nat, size': nat, m: nat)
      requires g.Fits(now) && IsChain(g.Table(was), start, path) && data != []
      requires Written(g, was, now, path, path', data, offset, size, size', Ok(m))
      ensures Walk(g, now, start, |path'|) == Some(Ok(path')) && IsChain(g.Table(now), start, path')
      ensures offset + |data| <= size' && m == Clip(|data|, g.Capacity(path'), offset) && m <= |data|
      ensures size < offset + |data| ==> m == |data|
      ensures m > 0 ==> offset + m <= |Raw(g, now, path')| && Raw(g, now, path')[offset..offset + m] == data[..m]
    {
      hide FatInfo.Fits, FatInfo.Table, FatInfo.Entry, Walk, OthersSame, FirstFree;
      WalkFollowsChain(g, now, start, path');
      if m > 0 {
        Placed(Raw(g, was, path'), offset, data[..m]);
      }
    }

    static lemma Placed(bytes: seq<byte>, offset: nat, data: seq<byte>)
      requires data != [] && offset + |data| <= |bytes|
      ensures |Progress(bytes, offset, data)| == |bytes|
      ensures Progress(bytes, offset, data)[offset..offset + |data|] == data
    {
    }

    /** The first half of `write`: extend the file if it must grow, and note its new size. */
    method MakeRoom(newSize: nat, ghost n: nat) returns (ok: bool, ghost path': seq<nat>, ghost steps: nat)
      requires fs.Ready() && fs.Followable(startCluster, n) && newSize > 0
      requires newSize + fs.info.BytesPerCluster() <= USIZE_LIMIT
      modifies this`size, fs.dev
      ensures fs.Ready() && (fs.info.Mirrored(old(fs.dev.blocks)) ==> fs.info.Mirrored(fs.dev.blocks))
      ensures size == if ok && old(size) < newSize then newSize else old(size)
      ensures match Walk(fs.info, old(fs.dev.blocks), startCluster, n).value
              case Err(_) => fs.dev.blocks == old(fs.dev.blocks) && (ok ==> size == old(size) && steps == n)
              case Ok(path) =>
                && Extension(old(fs.Fat()), fs.Fat(), fs.info.totalClusters, path, path')
                && OthersSame(fs.info, old(fs.dev.blocks), fs.dev.blocks, path')
                && Raw(fs.info, fs.dev.blocks, path') == Raw(fs.info, old(fs.dev.blocks), path')
                && ValidPath(fs.info, path')
                && (ok ==> Walk(fs.info, fs.dev.blocks, startCluster, steps) == Some(Ok(path')))
                && (ok ==> if old(size) < newSize then newSize <= fs.info.Capacity(path') && Grown(fs.info, path, path', newSize)
                           else path' == path && fs.dev.blocks == old(fs.dev.blocks))
                && (!ok ==> newSize > size && fs.info.Capacity(path') < newSize
                            && FirstFree(fs.Fat(), 2, fs.info.totalClusters) == None)
    {
      hide FatInfo.Fits, FatInfo.Table, FatInfo.Mirrored, IsChain, FatInfo.BytesPerCluster, FatInfo.Entry, Raw, ValidPath;
      hide FatInfo.Capacity, Extension, OthersSame, Walk, TableOnly, FirstFree;
      ok, path', steps := true, [], n;
      ghost var g, before := fs.info, fs.dev.blocks;
      Fat32Fs.FitsBasics(g, before);
      ghost var walk := Walk(g, before, startCluster, n).value;
      if newSize > size {
        var extended;
        extended, path' := fs.ExtendFile(startCluster, newSize, n);
        if walk.Ok? {
          Extended(g, before, fs.dev.blocks, startCluster, walk.value, path');
          steps := |path'|;
        }
        if extended.Err? {
          return false, path', steps;
        }
        size := newSize;
      } else if walk.Ok? {
        path' := walk.value;
        TableKept(g, before);
        Fat32Fs.ChainExtendsItself(g.Table(before), g.totalClusters, startCluster, path');
        ChainIsValid(g, fs.Fat(), startCluster, path');
      }
    }

    static lemma NoRoom(g: FatInfo, was: Disk, now: Disk, path: seq<nat>, path': seq<nat>, buf: seq<byte>, offset: nat, size: nat)
      requires Extension(g.Table(was), g.Table(now), g.totalClusters, path, path') && OthersSame(g, was, now, path')
      requires offset + |buf| > size && FirstFree(g.Table(now), 2, g.totalClusters) == None
      requires g.Capacity(path') < offset + |buf| && Raw(g, now, path') == Raw(g, was, path')
      ensures Written(g, was, now, path, path', buf, offset, size, size, Err(IoError))
    {
    }

    static lemma Done(g: FatInfo, was: Disk, now: Disk, path: seq<nat>, path': seq<nat>, buf: seq<byte>, offset: nat, size: nat, m: nat)
      requires Extension(g.Table(was), g.Table(now), g.totalClusters, path, path') && OthersSame(g, was, now, path')
      requires m == Clip(|buf|, g.Capacity(path'), offset)
      requires if size < offset + |buf| then offset + |buf| <= g.Capacity(path') && Grown(g, path, path', offset + |buf|)
               else path' == path && g.Table(now) == g.Table(was)
      requires Raw(g, now, path') == Progress(Raw(g, was, path'), offset, buf[..m])
      ensures var size' := if size < offset + |buf| then offset + |buf| else size;
              Written(g, was, now, path, path', buf, offset, size, size', Ok(m))
    {
    }

    static lemma TableKept(g: FatInfo, disk: Disk)
      requires g.Fits(disk)
      ensures TableOnly(g, disk, disk)
      ensures forall path :: OthersSame(g, disk, disk, path)
    {
    }

    /** After an extension `get_chain` finds the longer chain; the bytes of files are where they were. */
    static lemma Extended(g: FatInfo, disk: Disk, disk': Disk, start: nat, path: seq<nat>, path': seq<nat>)
      requires g.Fits(disk) && g.Fits(disk') && TableOnly(g, disk, disk') && IsChain(g.Table(disk), start, path)
      requires Extension(g.Table(disk), g.Table(disk'), g.totalClusters, path, path')
      ensures Walk(g, disk', start, |path'|) == Some(Ok(path')) && IsChain(g.Table(disk'), start, path')
      ensures ValidPath(g, path') && Raw(g, disk', path') == Raw(g, disk, path')
      ensures OthersSame(g, disk, disk', path')
      ensures g.Mirrored(disk) ==> g.Mirrored(disk')
    {
      WalkFollowsChain(g, disk', start, path');
      ChainIsValid(g, g.Table(disk'), start, path');
      TableChangeSpares(g, disk, disk', path');
    }

    static lemma OthersTwice(g: FatInfo, disk: Disk, disk': Disk, disk'': Disk, path: seq<nat>)
      requires OthersSame(g, disk, disk', path) && OthersSame(g, disk', disk'', path)
      ensures OthersSame(g, disk, disk'', path)
    {
      hide ValidPath, Raw;
    }

    /** The loop of `write`: one sector at a time, reading it first unless it is replaced whole. */
    method WritePieces(clusterChain: seq<nat>, buf: seq<byte>, offset: nat) returns (bytesWritten: nat)
      requires fs.Ready() && ValidPath(fs.info, clusterChain)
      modifies fs.dev
      ensures fs.Ready() && fs.Fat() == old(fs.Fat())
      ensures fs.info.Mirrored(old(fs.dev.blocks)) ==> fs.info.Mirrored(fs.dev.blocks)
      ensures bytesWritten == Clip(|buf|, fs.info.Capacity(clusterChain), offset)
      ensures Raw(fs.info, fs.dev.blocks, clusterChain) ==
              Progress(Raw(fs.info, old(fs.dev.blocks), clusterChain), offset, buf[..bytesWritten])
      ensures OthersSame(fs.info, old(fs.dev.blocks), fs.dev.blocks, clusterChain)
    {
      hide FatInfo.Fits, FatInfo.Table, FatInfo.Mirrored, FatInfo.BytesPerCluster, FatInfo.Entry, Raw, ValidPath, LbaOf;
      hide FatInfo.IndexOf, FatInfo.LinkOf, FatInfo.SectorOf, FatInfo.Capacity, OthersSame, Progress, Overwrite;
      ghost var g, before := fs.info, fs.dev.blocks;
      Fat32Fs.FitsBasics(g, before);
      TableKept(g, before);
      ghost var raw := Raw(g, before, clusterChain);
      NoProgress(raw, offset, buf);
      bytesWritten := 0;
      var fileOffset := offset;
      while bytesWritten < |buf|
        invariant bytesWritten <= |buf| && fileOffset == offset + bytesWritten
        invariant bytesWritten > 0 ==> fileOffset <= g.Capacity(clusterChain)
        invariant fs.Ready() && fs.Fat() == old(fs.Fat())
        invariant g.Mirrored(before) ==> g.Mirrored(fs.dev.blocks)
        invariant Raw(g, fs.dev.blocks, clusterChain) == Progress(raw, offset, buf[..bytesWritten])
        invariant OthersSame(g, before, fs.dev.blocks, clusterChain)
      {
        var bytesToCopy := WriteSector(clusterChain, buf, bytesWritten, fileOffset, before);
        if bytesToCopy == 0 {
          break;
        }
        MoreProgress(raw, offset, buf[..bytesWritten], buf[bytesWritten..bytesWritten + bytesToCopy]);
        assert buf[..bytesWritten] + buf[bytesWritten..bytesWritten + bytesToCopy] == buf[..bytesWritten + bytesToCopy];
        bytesWritten := bytesWritten + bytesToCopy;
        fileOffset := fileOffset + bytesToCopy;
      }
    }

    /** One round of it: as much as one sector takes; nothing at the end of the chain. */
    method WriteSector(clusterChain: seq<nat>, buf: seq<byte>, bytesWritten: nat, fileOffset: nat, ghost before: Disk)
      returns (bytesToCopy: nat)
      requires fs.Ready() && ValidPath(fs.info, clusterChain) && bytesWritten < |buf|
      requires OthersSame(fs.info, before, fs.dev.blocks, clusterChain)
      modifies fs.dev
      ensures fs.Ready() && fs.Fat() == old(fs.Fat())
      ensures fs.info.Mirrored(old(fs.dev.blocks)) ==> fs.info.Mirrored(fs.dev.blocks)
      ensures OthersSame(fs.info, before, fs.dev.blocks, clusterChain)
      ensures bytesWritten + bytesToCopy <= |buf| && (bytesToCopy > 0 <==> fileOffset < fs.info.Capacity(clusterChain))
      ensures bytesToCopy == 0 ==> fs.dev.blocks == old(fs.dev.blocks)
      ensures bytesToCopy > 0 ==>
                && fileOffset + bytesToCopy <= fs.info.Capacity(clusterChain)
                && Raw(fs.info, fs.dev.blocks, clusterChain) ==
                   Overwrite(Raw(fs.info, old(fs.dev.blocks), clusterChain), fileOffset, buf[bytesWritten..bytesWritten + bytesToCopy])
    {
      hide FatInfo.Fits, FatInfo.Table, FatInfo.Mirrored, FatInfo.BytesPerCluster, FatInfo.Entry, Raw, ValidPath, LbaOf;
      hide FatInfo.IndexOf, FatInfo.LinkOf, FatInfo.SectorOf, FatInfo.Capacity, OthersSame, Overwrite, Merge;
      ghost var g, now := fs.info, fs.dev.blocks;
      Fat32Fs.FitsBasics(g, now);
      TableKept(g, now);
      var found, lba, offsetInSector := Locate(clusterChain, fileOffset);
      if !found {
        return 0;
      }
      var bytesAvailable := fs.info.bytesPerSector - offsetInSector;
      bytesToCopy := if bytesAvailable < |buf| - bytesWritten then bytesAvailable else |buf| - bytesWritten;
      var piece := buf[bytesWritten..bytesWritten + bytesToCopy];
      WritePiece(g, now, clusterChain, fileOffset, piece);
      var sector: Sector := seq(fs.info.bytesPerSector, _ => 0);
      if offsetInSector != 0 || bytesToCopy < fs.info.bytesPerSector {
        var read := fs.dev.ReadBlock(lba);
        sector := read.value;
      }
      MergeAnyway(now[lba], sector, offsetInSector, piece);
      sector := Merge(sector, offsetInSector, piece);
      DataWriteKeepsTable(g, now, lba, sector);
      OthersStillSame(g, before, now, clusterChain, fileOffset, sector);
      var ok := fs.dev.WriteBlock(lba, sector);
    }

    static lemma NoProgress(bytes: seq<byte>, at: nat, data: seq<byte>)
      ensures Progress(bytes, at, data[..0]) == bytes
    {
    }

    /** A sector that is replaced whole need not be read. */
    static lemma MergeAnyway(old_: Sector, sector: Sector, idx: nat, data: seq<byte>)
      requires |old_| == |sector| && idx + |data| <= |sector|
      requires sector == old_ || (idx == 0 && |data| == |sector|)
      ensures Merge(sector, idx, data) == Merge(old_, idx, data) && |Merge(sector, idx, data)| == |sector|
    {
    }

    static lemma GrowSlice(s: seq<byte>, i: nat, j: nat, k: nat)
      requires i <= j <= k <= |s|
      ensures s[i..j] + s[j..k] == s[i..k]
    {
    }

    /** The address of the sector that holds byte `fileOffset`, and the byte's place in it. */
    method Locate(clusterChain: seq<nat>, fileOffset: nat) returns (found: bool, lba: nat, offsetInSector: nat)
      requires fs.info.bytesPerSector > 0 && fs.info.sectorsPerCluster > 0 && fs.info.BytesPerCluster() > 0
      requires ValidPath(fs.info, clusterChain)
      ensures found <==> fileOffset < fs.info.Capacity(clusterChain)
      ensures found ==> lba == LbaOf(fs.info, clusterChain, fileOffset) && offsetInSector == fs.info.IndexOf(fileOffset)
      ensures found ==> offsetInSector < fs.info.bytesPerSector
      ensures var b := fs.info.bytesPerSector * fs.info.sectorsPerCluster;
              && b > 0 && (found <==> fileOffset / b < |clusterChain|)
              && (found ==>
                    && lba >= fs.info.heapStart
                    && (lba - fs.info.heapStart) * fs.info.bytesPerSector + offsetInSector ==
                       (clusterChain[fileOffset / b] - 2) * b + fileOffset % b)
    {
      fs.info.Coordinates(fileOffset);
      fs.info.LinkInPath(clusterChain, fileOffset);
      var bytesPerCluster := fs.info.bytesPerSector * fs.info.sectorsPerCluster;
      var clusterIdx := fileOffset / bytesPerCluster;
      var offsetInCluster := fileOffset % bytesPerCluster;
      if clusterIdx >= |clusterChain| {
        return false, 0, 0;
      }
      var cluster := clusterChain[clusterIdx];
      var sectorInCluster := offsetInCluster / fs.info.bytesPerSector;
      offsetInSector := offsetInCluster % fs.info.bytesPerSector;
      lba := fs.info.ClusterToLba(cluster) + sectorInCluster;
      found := true;
      FatInfo.ProductOrder(cluster - 2, fs.info.bytesPerSector, fs.info.sectorsPerCluster);
      ProductNonNegative(cluster - 2, fs.info.sectorsPerCluster);
      Distribute((cluster - 2) * fs.info.sectorsPerCluster, sectorInCluster, fs.info.bytesPerSector);
    }

    static method CopyFromSlice(buf: array<byte>, at: nat, piece: seq<byte>)
      requires at + |piece| <= buf.Length
      modifies buf
      ensures buf[..at] == old(buf[..at]) && buf[at..at + |piece|] == piece
      ensures forall i :: at + |piece| <= i < buf.Length ==> buf[i] == old(buf[i])
      ensures buf[..at + |piece|] == old(buf[..at]) + piece
    {
      forall i | 0 <= i < |piece| {
        buf[at + i] := piece[i];
      }
    }
  }

  // ---- What callers of read and write see ----

  /**
   * A successful write of a nonempty buffer at an offset within the file returns the full length, and turns the
   * contents into: the old bytes before the offset, the buffer, the old bytes behind it.
   */
  lemma WriteRefinesSequence(g: FatInfo, was: Disk, now: Disk, path: seq<nat>, path': seq<nat>,
                             buf: seq<byte>, offset: nat, size: nat, size': nat, m: nat)
    requires g.Fits(was) && path != [] && IsChain(g.Table(was), path[0], path) && size <= g.Capacity(path)
    requires buf != [] && offset <= size && Written(g, was, now, path, path', buf, offset, size, size', Ok(m))
    ensures m == |buf| && size' <= g.Capacity(path')
    ensures Content(g, now, path', size') ==
            Content(g, was, path, size)[..offset] + buf +
            (if offset + |buf| <= size then Content(g, was, path, size)[offset + |buf|..] else [])
    ensures Content(g, now, path', size')[offset..offset + |buf|] == buf
  {
    ChainIsValid(g, g.Table(was), path[0], path);
    MulLe(|path|, |path'|, g.BytesPerCluster());
    assert buf[..m] == buf;
    WriteIsSequenceWrite(g, was, now, path, path', size, offset, buf);
  }

  /** A write beyond the end keeps the old contents and puts the buffer in place; what is in the gap is left open. */
  lemma WriteBeyondEnd(g: FatInfo, was: Disk, now: Disk, path: seq<nat>, path': seq<nat>,
                       buf: seq<byte>, offset: nat, size: nat, size': nat, m: nat)
    requires g.Fits(was) && path != [] && IsChain(g.Table(was), path[0], path) && size <= g.Capacity(path)
    requires buf != [] && size < offset && Written(g, was, now, path, path', buf, offset, size, size', Ok(m))
    ensures m == |buf| && size' == offset + |buf| <= g.Capacity(path')
    ensures Content(g, now, path', size')[..size] == Content(g, was, path, size)
    ensures Content(g, now, path', size')[offset..] == buf
  {
    ChainIsValid(g, g.Table(was), path[0], path);
    PrefixRaw(g, was, path, path');
    assert buf[..m] == buf;
    assert Content(g, was, path, size) == Raw(g, was, path')[..size];
  }

  /** Every other file still has its chain, apart from the written one, and every byte of it. */
  lemma OtherFilesUntouched(g: FatInfo, was: Disk, now: Disk, path: seq<nat>, path': seq<nat>, buf: seq<byte>, offset: nat,
                            size: nat, size': nat, r: Result<nat, FdError>, start: nat, other: seq<nat>)
    requires g.Fits(was) && Written(g, was, now, path, path', buf, offset, size, size', r)
    requires IsChain(g.Table(was), start, other) && DisjointPaths(other, path)
    ensures IsChain(g.Table(now), start, other) && DisjointPaths(other, path')
    ensures Raw(g, now, other) == Raw(g, was, other)
  {
    ExtensionSpares(g.Table(was), g.Table(now), g.totalClusters, path, path', start, other);
    ChainIsValid(g, g.Table(was), start, other);
  }
}
