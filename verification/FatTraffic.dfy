// Files in use at once: runs of `extend_file`, and reads and writes of data sectors of
// the same files, interleaved.  A sector write first loads the sector and later stores
// it merged with the new bytes; any number of steps of other files may come between.
module FatTraffic {
  import opened Bits
  import opened FatChains
  import opened FatLayout
  import opened FatTable
  import opened FatFiles
  import opened FatConcurrent
  import Fat32

  datatype Write = Write(at: nat, data: seq<byte>)

  /** The sector write a file has under way, with the sector it has loaded. */
  datatype Io = Idle | Merging(write: Write, sector: Sector)

  /** `logs[i]` are the writes made to file `i`, oldest first. */
  datatype World = World(sys: System, disk: Disk, io: seq<Io>, logs: seq<seq<Write>>)

  datatype Event =
    | Lock(i: nat)                  // the next lock section of file i's `extend_file`
    | Load(i: nat, write: Write)    // file i begins a write of a piece of one sector
    | Store(i: nat)                 // and completes it

  // ---- What the writes to a file amount to ----

  /** Byte `j` after the writes, if it was `byte0` before them. */
  function LastWrite(log: seq<Write>, j: nat, byte0: byte): byte {
    if log == [] then byte0
    else
      var w := log[|log| - 1];
      if w.at <= j < w.at + |w.data| then w.data[j - w.at] else LastWrite(log[..|log| - 1], j, byte0)
  }

  lemma LogGrows(log: seq<Write>, w: Write, j: nat, byte0: byte)
    ensures LastWrite(log + [w], j, byte0) ==
            if w.at <= j < w.at + |w.data| then w.data[j - w.at] else LastWrite(log, j, byte0)
  {
    assert (log + [w])[..|log|] == log;
  }

  lemma {:induction false} BeyondLog(log: seq<Write>, j: nat, byte0: byte)
    requires forall k :: 0 <= k < |log| ==> log[k].at + |log[k].data| <= j
    ensures LastWrite(log, j, byte0) == byte0
    decreases |log|
  {
    if log != [] {
      BeyondLog(log[..|log| - 1], j, byte0);
    }
  }

  // ---- Steps ----

  /** The chains of the files after a step. */
  ghost function NextPaths(w: World, paths: seq<seq<nat>>, e: Event): seq<seq<nat>> {
    if e.Lock? && e.i < |paths| && e.i < |w.sys.threads| then paths[e.i := NextPath(w.sys.threads[e.i], paths[e.i])] else paths
  }

  /** A piece of one sector of the file, within its chain. */
  ghost predicate OnePiece(g: FatInfo, path: seq<nat>, w: Write) {
    && g.bytesPerSector > 0 && g.BytesPerCluster() > 0
    && w.data != [] && w.at < g.Capacity(path) && g.IndexOf(w.at) + |w.data| <= g.bytesPerSector
  }

  /** What may have been loaded: the sector, or anything if the write replaces it whole. */
  ghost predicate Loaded(g: FatInfo, disk: Disk, path: seq<nat>, w: Write, sector: Sector) {
    && OnePiece(g, path, w) && |sector| == g.bytesPerSector && LbaOf(g, path, w.at) < |disk|
    && (sector == disk[LbaOf(g, path, w.at)] || (g.IndexOf(w.at) == 0 && |w.data| == g.bytesPerSector))
  }

  ghost predicate SameData(g: FatInfo, disk: Disk, disk': Disk) {
    |disk'| == |disk| && forall lba: nat :: g.heapStart <= lba < |disk| ==> disk'[lba] == disk[lba]
  }

  ghost predicate WorldStep(g: FatInfo, w: World, paths: seq<seq<nat>>, e: Event, w': World) {
    && e.i < |w.io| == |w.logs| == |paths| == |w.sys.threads|
    && match e
       case Lock(i) =>
         && Step(w.sys, i, w'.sys) && w'.io == w.io && w'.logs == w.logs
         && g.Fits(w'.disk) && g.Table(w'.disk) == w'.sys.fat && SameData(g, w.disk, w'.disk)
       case Load(i, write) =>
         && w.io[i].Idle? && w.sys.threads[i].pc.Done?
         && w'.sys == w.sys && w'.disk == w.disk && w'.logs == w.logs
         && |w'.io| == |w.io| && w'.io[i].Merging? && w'.io == w.io[i := Merging(write, w'.io[i].sector)]
         && Loaded(g, w.disk, paths[i], write, w'.io[i].sector)
       case Store(i) =>
         && w.io[i].Merging? && Storable(g, w, paths, i)
         && w'.sys == w.sys && w'.io == w.io[i := Idle] && w'.logs == w.logs[i := w.logs[i] + [w.io[i].write]]
         && w'.disk == Stored(g, w, paths, i)
  }

  /** What the store relies on for being defined at all. */
  ghost predicate Storable(g: FatInfo, w: World, paths: seq<seq<nat>>, i: nat)
    requires i < |w.io| && i < |paths| && w.io[i].Merging?
  {
    && OnePiece(g, paths[i], w.io[i].write) && |w.io[i].sector| == g.bytesPerSector
    && LbaOf(g, paths[i], w.io[i].write.at) < |w.disk|
  }

  ghost function Stored(g: FatInfo, w: World, paths: seq<seq<nat>>, i: nat): Disk
    requires i < |w.io| && i < |paths| && w.io[i].Merging? && Storable(g, w, paths, i)
  {
    var write := w.io[i].write;
    w.disk[LbaOf(g, paths[i], write.at) := Merge(w.io[i].sector, g.IndexOf(write.at), write.data)]
  }

  // ---- The invariant ----

  /** A write under way still has the sector as it is on the disk. */
  ghost predicate PendingOk(g: FatInfo, w: World, path: seq<nat>, i: nat)
    requires i < |w.io| && i < |w.sys.threads|
  {
    w.io[i].Merging? ==> w.sys.threads[i].pc.Done? && Loaded(g, w.disk, path, w.io[i].write, w.io[i].sector)
  }

  /** The file's bytes are those its own writes have left, over what was on the disk at the start. */
  ghost predicate BytesOk(g: FatInfo, disk0: Disk, disk: Disk, path: seq<nat>, log: seq<Write>) {
    && (forall k :: 0 <= k < |log| ==> log[k].at + |log[k].data| <= g.Capacity(path))
    && (forall j: nat :: j < g.Capacity(path) ==>
          ByteAt(g, disk, path, j) == LastWrite(log, j, ByteAt(g, disk0, path, j)))
  }

  function SectorAddress(g: FatInfo, c: nat, s: nat): nat {
    if c >= 2 then g.ClusterToLba(c) + s else 0
  }

  ghost predicate SameCluster(g: FatInfo, disk0: Disk, disk: Disk, c: nat) {
    forall s: nat :: s < g.sectorsPerCluster && SectorAddress(g, c, s) < |disk0| && SectorAddress(g, c, s) < |disk| ==>
      disk[SectorAddress(g, c, s)] == disk0[SectorAddress(g, c, s)]
  }

  ghost predicate InNone(paths: seq<seq<nat>>, c: nat) {
    forall i :: 0 <= i < |paths| ==> c !in paths[i]
  }

  /** Clusters in no chain hold what they held at the start. */
  ghost predicate Untouched(g: FatInfo, disk0: Disk, disk: Disk, paths: seq<seq<nat>>) {
    forall c: nat :: 2 <= c < g.Entries() && InNone(paths, c) ==> SameCluster(g, disk0, disk, c)
  }

  ghost predicate WorldInv(g: FatInfo, fat0: Fat, paths0: seq<seq<nat>>, disk0: Disk, w: World, paths: seq<seq<nat>>) {
    && Inv(fat0, paths0, w.sys, paths) && g.Fits(disk0) && g.Fits(w.disk) && |w.disk| == |disk0|
    && g.Table(w.disk) == w.sys.fat
    && |w.io| == |w.logs| == |paths| == |w.sys.threads|
    && (forall i :: 0 <= i < |paths| ==> PendingOk(g, w, paths[i], i))
    && (forall i :: 0 <= i < |paths| ==> BytesOk(g, disk0, w.disk, paths[i], w.logs[i]))
    && Untouched(g, disk0, w.disk, paths)
  }

  lemma PathsOk(g: FatInfo, fat0: Fat, paths0: seq<seq<nat>>, disk0: Disk, w: World, paths: seq<seq<nat>>, i: nat)
    requires WorldInv(g, fat0, paths0, disk0, w, paths) && i < |paths|
    ensures ValidPath(g, paths[i])
    ensures forall j :: 0 <= j < |paths| && j != i ==> DisjointPaths(paths[j], paths[i])
  {
    hide PendingOk, BytesOk, Untouched;
    assert ThreadOk(fat0, paths0[i], w.sys.fat, w.sys.total, w.sys.threads[i], paths[i]);
    assert |g.Table(w.disk)| == g.Entries();
    ChainIsValid(g, w.sys.fat, w.sys.threads[i].start, paths[i]);
    forall j | 0 <= j < |paths| && j != i
      ensures DisjointPaths(paths[j], paths[i])
    {
      assert forall c :: c in paths[i] ==> Owns(w.sys.threads[i], paths[i], c);
      assert forall c :: c in paths[j] ==> Owns(w.sys.threads[j], paths[j], c);
    }
  }

  // ---- A store ----

  /** The file that stores a sector has its bytes overwritten there, and nowhere else. */
  lemma StoreOwn(g: FatInfo, disk0: Disk, disk: Disk, path: seq<nat>, log: seq<Write>, write: Write, sector: Sector)
    requires g.Fits(disk) && ValidPath(g, path) && Loaded(g, disk, path, write, sector) && BytesOk(g, disk0, disk, path, log)
    ensures g.IndexOf(write.at) + |write.data| <= |sector|
    ensures BytesOk(g, disk0, disk[LbaOf(g, path, write.at) := Merge(sector, g.IndexOf(write.at), write.data)], path, log + [write])
  {
    InDataArea(g, disk, path, write.at);
    Fat32.Fat32File.MergeAnyway(disk[LbaOf(g, path, write.at)], sector, g.IndexOf(write.at), write.data);
    WritePiece(g, disk, path, write.at, write.data);
    var disk' := disk[LbaOf(g, path, write.at) := Merge(sector, g.IndexOf(write.at), write.data)];
    hide FatInfo.Fits, ValidPath, FatInfo.Capacity, FatInfo.IndexOf, FatInfo.BytesPerCluster, LbaOf, ByteAt, Merge, LastWrite;
    forall j: nat | j < g.Capacity(path)
      ensures ByteAt(g, disk', path, j) == LastWrite(log + [write], j, ByteAt(g, disk0, path, j))
    {
      WrittenByte(g, disk, path, write.at, write.data, j);
      LogGrows(log, write, j, ByteAt(g, disk0, path, j));
    }
  }

  /** Other files have neither their bytes nor the sector they have loaded disturbed. */
  lemma StoreOther(g: FatInfo, disk0: Disk, disk: Disk, path: seq<nat>, at: nat, sector: Sector, other: seq<nat>, log: seq<Write>, io: Io)
    requires g.Fits(disk) && ValidPath(g, path) && ValidPath(g, other) && DisjointPaths(other, path)
    requires at < g.Capacity(path) && g.bytesPerSector > 0 && g.BytesPerCluster() > 0 && LbaOf(g, path, at) < |disk|
    requires BytesOk(g, disk0, disk, other, log) && (io.Merging? ==> Loaded(g, disk, other, io.write, io.sector))
    ensures BytesOk(g, disk0, disk[LbaOf(g, path, at) := sector], other, log)
    ensures io.Merging? ==> Loaded(g, disk[LbaOf(g, path, at) := sector], other, io.write, io.sector)
  {
    var disk' := disk[LbaOf(g, path, at) := sector];
    forall j: nat | j < g.Capacity(other)
      ensures LbaOf(g, path, at) != LbaOf(g, other, j) && ByteAt(g, disk', other, j) == ByteAt(g, disk, other, j)
    {
      OtherLba(g, disk, path, other, at, j);
    }
  }

  lemma StoreUntouched(g: FatInfo, disk0: Disk, disk: Disk, paths: seq<seq<nat>>, i: nat, at: nat, sector: Sector)
    requires g.Fits(disk) && i < |paths| && ValidPath(g, paths[i]) && Untouched(g, disk0, disk, paths)
    requires at < g.Capacity(paths[i]) && g.bytesPerSector > 0 && g.BytesPerCluster() > 0 && LbaOf(g, paths[i], at) < |disk|
    ensures Untouched(g, disk0, disk[LbaOf(g, paths[i], at) := sector], paths)
  {
    forall c: nat | 2 <= c < g.Entries() && InNone(paths, c)
      ensures SameCluster(g, disk0, disk[LbaOf(g, paths[i], at) := sector], c)
    {
      StoreElsewhere(g, disk, paths[i], at, c);
      assert SameCluster(g, disk0, disk, c);
    }
  }

  lemma StoreElsewhere(g: FatInfo, disk: Disk, path: seq<nat>, at: nat, c: nat)
    requires g.Fits(disk) && ValidPath(g, path) && 2 <= c < g.Entries() && c !in path
    requires at < g.Capacity(path) && g.bytesPerSector > 0 && g.BytesPerCluster() > 0
    ensures forall s: nat :: s < g.sectorsPerCluster ==> SectorAddress(g, c, s) != LbaOf(g, path, at)
  {
    InDataArea(g, disk, path, at);
    var own := path[g.LinkOf(at)];
    assert own in path;
    forall s: nat | s < g.sectorsPerCluster
      ensures SectorAddress(g, c, s) != LbaOf(g, path, at)
    {
      if SectorAddress(g, c, s) == LbaOf(g, path, at) {
        g.ClustersApart(c, s, own, g.SectorOf(at));
      }
    }
  }

  lemma StoreKeeps(g: FatInfo, fat0: Fat, paths0: seq<seq<nat>>, disk0: Disk, w: World, paths: seq<seq<nat>>, i: nat, w': World)
    requires WorldInv(g, fat0, paths0, disk0, w, paths) && WorldStep(g, w, paths, Store(i), w')
    ensures WorldInv(g, fat0, paths0, disk0, w', paths)
  {
    var write, sector, path := w.io[i].write, w.io[i].sector, paths[i];
    assert PendingOk(g, w, path, i);
    PathsOk(g, fat0, paths0, disk0, w, paths, i);
    StoreOwn(g, disk0, w.disk, path, w.logs[i], write, sector);
    var merged := Merge(sector, g.IndexOf(write.at), write.data);
    InDataArea(g, w.disk, path, write.at);
    DataWriteKeepsTable(g, w.disk, LbaOf(g, path, write.at), merged);
    StoreUntouched(g, disk0, w.disk, paths, i, write.at, merged);
    hide FatInfo.Fits, FatInfo.Table, BytesOk, Untouched, Loaded, Inv, Merge, LbaOf, FatInfo.IndexOf, FatInfo.Capacity, ValidPath;
    forall j | 0 <= j < |paths| && j != i
      ensures PendingOk(g, w', paths[j], j) && BytesOk(g, disk0, w'.disk, paths[j], w'.logs[j])
    {
      PathsOk(g, fat0, paths0, disk0, w, paths, j);
      assert PendingOk(g, w, paths[j], j);
      StoreOther(g, disk0, w.disk, path, write.at, merged, paths[j], w.logs[j], w.io[j]);
    }
  }

  // ---- A load ----

  lemma LoadKeeps(g: FatInfo, fat0: Fat, paths0: seq<seq<nat>>, disk0: Disk, w: World, paths: seq<seq<nat>>, i: nat, write: Write, w': World)
    requires WorldInv(g, fat0, paths0, disk0, w, paths) && WorldStep(g, w, paths, Load(i, write), w')
    ensures WorldInv(g, fat0, paths0, disk0, w', paths)
  {
    hide FatInfo.Fits, FatInfo.Table, BytesOk, Untouched, Loaded, Inv;
    forall j | 0 <= j < |paths|
      ensures PendingOk(g, w', paths[j], j)
    {
      assert PendingOk(g, w, paths[j], j);
    }
  }

  // ---- A lock section ----

  /** Table writes change no file's bytes. */
  lemma SameBytes(g: FatInfo, disk: Disk, disk': Disk, path: seq<nat>, j: nat)
    requires g.Fits(disk) && g.Fits(disk') && SameData(g, disk, disk') && ValidPath(g, path) && j < g.Capacity(path)
    ensures ByteAt(g, disk', path, j) == ByteAt(g, disk, path, j)
  {
    InDataArea(g, disk, path, j);
  }

  lemma TableWriteKeepsBytes(g: FatInfo, disk0: Disk, disk: Disk, disk': Disk, path: seq<nat>, log: seq<Write>, io: Io)
    requires g.Fits(disk) && g.Fits(disk') && SameData(g, disk, disk') && ValidPath(g, path)
    requires BytesOk(g, disk0, disk, path, log) && (io.Merging? ==> Loaded(g, disk, path, io.write, io.sector))
    ensures BytesOk(g, disk0, disk', path, log) && (io.Merging? ==> Loaded(g, disk', path, io.write, io.sector))
  {
    if io.Merging? {
      InDataArea(g, disk, path, io.write.at);
    }
    hide FatInfo.Fits, ValidPath, FatInfo.Capacity, ByteAt, LastWrite;
    forall j: nat | j < g.Capacity(path)
      ensures ByteAt(g, disk', path, j) == ByteAt(g, disk, path, j)
    {
      SameBytes(g, disk, disk', path, j);
    }
  }

  /** A cluster that was free brings with it the bytes it has always had; no write of the file is there yet. */
  lemma GrownBytes(g: FatInfo, disk0: Disk, disk: Disk, path: seq<nat>, c: nat, log: seq<Write>)
    requires g.Fits(disk0) && g.Fits(disk) && |disk| == |disk0| && ValidPath(g, path + [c]) && BytesOk(g, disk0, disk, path, log)
    requires SameCluster(g, disk0, disk, c)
    ensures BytesOk(g, disk0, disk, path + [c], log)
  {
    hide FatInfo.Fits, ValidPath, FatInfo.Capacity, ByteAt, LastWrite, SameCluster;
    var path' := path + [c];
    Longer(g, path, c);
    forall j: nat | j < g.Capacity(path')
      ensures ByteAt(g, disk, path', j) == LastWrite(log, j, ByteAt(g, disk0, path', j))
    {
      GrownByte(g, disk0, disk, path, c, j);
      if g.Capacity(path) <= j {
        BeyondLog(log, j, ByteAt(g, disk0, path', j));
      }
    }
  }

  lemma Longer(g: FatInfo, path: seq<nat>, c: nat)
    ensures g.Capacity(path) <= g.Capacity(path + [c])
  {
    assert (|path| + 1) * g.BytesPerCluster() == |path| * g.BytesPerCluster() + g.BytesPerCluster();
  }

  lemma GrownByte(g: FatInfo, disk0: Disk, disk: Disk, path: seq<nat>, c: nat, j: nat)
    requires g.Fits(disk0) && g.Fits(disk) && |disk| == |disk0| && ValidPath(g, path + [c]) && j < g.Capacity(path + [c])
    requires SameCluster(g, disk0, disk, c)
    ensures j < g.Capacity(path) ==>
              ByteAt(g, disk, path + [c], j) == ByteAt(g, disk, path, j) && ByteAt(g, disk0, path + [c], j) == ByteAt(g, disk0, path, j)
    ensures g.Capacity(path) <= j ==> ByteAt(g, disk, path + [c], j) == ByteAt(g, disk0, path + [c], j)
  {
    var path' := path + [c];
    InDataArea(g, disk, path', j);
    InDataArea(g, disk0, path', j);
    g.LinkInPath(path, j);
    var l := g.LinkOf(j);
    hide FatInfo.Fits, ValidPath, FatInfo.Capacity, FatInfo.LinkOf, FatInfo.SectorOf, FatInfo.IndexOf, FatInfo.BytesPerCluster;
    assert l < |path| ==> path'[l] == path[l];
    assert l == |path| ==> path'[l] == c && LbaOf(g, path', j) == SectorAddress(g, c, g.SectorOf(j));
  }

  /** The cluster a run is about to link is in no chain yet. */
  lemma PendingCluster(fat0: Fat, paths0: seq<seq<nat>>, sys: System, paths: seq<seq<nat>>, i: nat)
    requires Inv(fat0, paths0, sys, paths) && i < |paths| && sys.threads[i].pc.Linking?
    ensures InNone(paths, sys.threads[i].pc.added)
  {
    var t, c := sys.threads[i], sys.threads[i].pc.added;
    assert ThreadOk(fat0, paths0[i], sys.fat, sys.total, t, paths[i]);
    assert Owns(t, paths[i], c);
    forall j | 0 <= j < |paths|
      ensures c !in paths[j]
    {
      assert c in paths[j] ==> Owns(sys.threads[j], paths[j], c);
    }
  }

  /** The stepping file: its chain is as it was or one cluster longer. */
  lemma LockOwn(g: FatInfo, fat0: Fat, paths0: seq<seq<nat>>, disk0: Disk, w: World, paths: seq<seq<nat>>, i: nat, disk': Disk)
    requires WorldInv(g, fat0, paths0, disk0, w, paths) && i < |paths|
    requires g.Fits(disk') && SameData(g, w.disk, disk')
    requires ValidPath(g, NextPath(w.sys.threads[i], paths[i]))
    requires w.io[i].Idle?
    ensures BytesOk(g, disk0, disk', NextPath(w.sys.threads[i], paths[i]), w.logs[i])
  {
    PathsOk(g, fat0, paths0, disk0, w, paths, i);
    var path := paths[i];
    TableWriteKeepsBytes(g, disk0, w.disk, disk', path, w.logs[i], w.io[i]);
    if w.sys.threads[i].pc.Linking? {
      var c := w.sys.threads[i].pc.added;
      PendingCluster(fat0, paths0, w.sys, paths, i);
      var path' := path + [c];
      assert path'[|path|] == c;
      SameClusterKept(g, disk0, w.disk, disk', c);
      GrownBytes(g, disk0, disk', path, c, w.logs[i]);
    }
  }

  lemma SameClusterKept(g: FatInfo, disk0: Disk, disk: Disk, disk': Disk, c: nat)
    requires SameCluster(g, disk0, disk, c) && SameData(g, disk, disk') && 2 <= c
    ensures SameCluster(g, disk0, disk', c)
  {
    hide SectorAddress;
    forall s: nat
      ensures SectorAddress(g, c, s) >= g.heapStart
    {
      PastTable(g, c, s);
    }
  }

  lemma PastTable(g: FatInfo, c: nat, s: nat)
    requires 2 <= c
    ensures SectorAddress(g, c, s) >= g.heapStart
  {
    ProductNonNegative(c - 2, g.sectorsPerCluster);
  }

  lemma LockKeeps(g: FatInfo, fat0: Fat, paths0: seq<seq<nat>>, disk0: Disk, w: World, paths: seq<seq<nat>>, i: nat, w': World)
    requires WorldInv(g, fat0, paths0, disk0, w, paths) && WorldStep(g, w, paths, Lock(i), w')
    ensures WorldInv(g, fat0, paths0, disk0, w', NextPaths(w, paths, Lock(i)))
  {
    var paths' := NextPaths(w, paths, Lock(i));
    StepKeepsInv(fat0, paths0, w.sys, paths, i, w'.sys);
    assert PendingOk(g, w, paths[i], i);
    assert w.io[i].Idle?;
    assert ThreadOk(fat0, paths0[i], w'.sys.fat, w'.sys.total, w'.sys.threads[i], paths'[i]);
    assert |g.Table(w'.disk)| == g.Entries();
    ChainIsValid(g, w'.sys.fat, w'.sys.threads[i].start, paths'[i]);
    LockOwn(g, fat0, paths0, disk0, w, paths, i, w'.disk);
    hide FatInfo.Fits, FatInfo.Table, BytesOk, Untouched, Loaded, Inv, NextPath, ValidPath, ThreadStep, ThreadOk, SameData;
    forall j | 0 <= j < |paths| && j != i
      ensures PendingOk(g, w', paths[j], j) && BytesOk(g, disk0, w'.disk, paths[j], w'.logs[j])
    {
      PathsOk(g, fat0, paths0, disk0, w, paths, j);
      assert PendingOk(g, w, paths[j], j);
      TableWriteKeepsBytes(g, disk0, w.disk, w'.disk, paths[j], w.logs[j], w.io[j]);
    }
    UntouchedKept(g, disk0, w.disk, w'.disk, paths, i, w.sys.threads[i]);
  }

  lemma UntouchedKept(g: FatInfo, disk0: Disk, disk: Disk, disk': Disk, paths: seq<seq<nat>>, i: nat, t: Thread)
    requires Untouched(g, disk0, disk, paths) && SameData(g, disk, disk') && i < |paths|
    ensures Untouched(g, disk0, disk', paths[i := NextPath(t, paths[i])])
  {
    var paths' := paths[i := NextPath(t, paths[i])];
    forall c: nat | 2 <= c < g.Entries() && InNone(paths', c)
      ensures SameCluster(g, disk0, disk', c)
    {
      assert forall j :: 0 <= j < |paths| ==> c !in paths[j] by {
        assert c !in paths'[i];
        assert forall j :: 0 <= j < |paths| && j != i ==> paths'[j] == paths[j];
      }
      assert InNone(paths, c);
      SameClusterKept(g, disk0, disk, disk', c);
    }
  }

  // ---- Whole runs ----

  /** Any step of any file keeps every file's bytes its own. */
  lemma WorldStepKeeps(g: FatInfo, fat0: Fat, paths0: seq<seq<nat>>, disk0: Disk, w: World, paths: seq<seq<nat>>, e: Event, w': World)
    requires WorldInv(g, fat0, paths0, disk0, w, paths) && WorldStep(g, w, paths, e, w')
    ensures WorldInv(g, fat0, paths0, disk0, w', NextPaths(w, paths, e))
  {
    match e
    case Lock(i) => LockKeeps(g, fat0, paths0, disk0, w, paths, i, w');
    case Load(i, write) => LoadKeeps(g, fat0, paths0, disk0, w, paths, i, write, w');
    case Store(i) => StoreKeeps(g, fat0, paths0, disk0, w, paths, i, w');
  }

  ghost predicate WorldRun(g: FatInfo, worlds: seq<World>, chains: seq<seq<seq<nat>>>, events: seq<Event>) {
    && |worlds| == |chains| == |events| + 1
    && forall k :: 0 <= k < |events| ==>
         WorldStep(g, worlds[k], chains[k], events[k], worlds[k + 1]) && chains[k + 1] == NextPaths(worlds[k], chains[k], events[k])
  }

  /** Nothing has been written yet, and every file is about to be extended. */
  ghost predicate WorldInitial(g: FatInfo, w: World, paths: seq<seq<nat>>) {
    && Initial(w.sys, paths) && g.Fits(w.disk) && g.Table(w.disk) == w.sys.fat
    && |w.io| == |w.logs| == |paths|
    && (forall i :: 0 <= i < |paths| ==> w.io[i].Idle? && w.logs[i] == [])
  }

  lemma {:induction false} WorldRunKeeps(g: FatInfo, worlds: seq<World>, chains: seq<seq<seq<nat>>>, events: seq<Event>, k: nat)
    requires WorldRun(g, worlds, chains, events) && WorldInitial(g, worlds[0], chains[0]) && k < |worlds|
    ensures WorldInv(g, worlds[0].sys.fat, chains[0], worlds[0].disk, worlds[k], chains[k])
  {
    hide FatInfo.Fits, FatInfo.Table, Inv, WorldStep, NextPaths;
    if k == 0 {
      InitialInv(worlds[0].sys, chains[0]);
    } else {
      WorldRunKeeps(g, worlds, chains, events, k - 1);
      WorldStepKeeps(g, worlds[0].sys.fat, chains[0], worlds[0].disk, worlds[k - 1], chains[k - 1], events[k - 1], worlds[k]);
    }
  }

  /** The writes that a run of events makes to file `i`. */
  function WritesOf(worlds: seq<World>, events: seq<Event>, i: nat): seq<Write>
    requires |worlds| == |events| + 1
    decreases |events|
  {
    if events == [] then []
    else
      var n := |events| - 1;
      WritesOf(worlds[..n + 1], events[..n], i) +
      if events[n] == Store(i) && i < |worlds[n].io| && worlds[n].io[i].Merging? then [worlds[n].io[i].write] else []
  }

  lemma {:induction false} LogIsWrites(g: FatInfo, worlds: seq<World>, chains: seq<seq<seq<nat>>>, events: seq<Event>, i: nat)
    requires WorldRun(g, worlds, chains, events) && WorldInitial(g, worlds[0], chains[0]) && i < |chains[0]|
    ensures |worlds[|events|].logs| == |chains[0]| && worlds[|events|].logs[i] == WritesOf(worlds, events, i)
    decreases |events|
  {
    if events != [] {
      var n := |events| - 1;
      assert WorldStep(g, worlds[n], chains[n], events[n], worlds[n + 1]);
      hide WorldInitial;
      assert WorldRun(g, worlds[..n + 1], chains[..n + 1], events[..n]) by {
        hide WorldStep, NextPaths;
      }
      LogIsWrites(g, worlds[..n + 1], chains[..n + 1], events[..n], i);
    }
  }

  /**
   * However the files' lock sections, loads and stores interleave: at every moment each byte of each file is what the
   * last of the file's own completed writes there put in place, or else what was on the disk to begin with.
   */
  lemma EachFileItsOwn(g: FatInfo, worlds: seq<World>, chains: seq<seq<seq<nat>>>, events: seq<Event>, i: nat, j: nat)
    requires WorldRun(g, worlds, chains, events) && WorldInitial(g, worlds[0], chains[0])
    requires i < |chains[0]| && i < |chains[|events|]| && j < g.Capacity(chains[|events|][i])
    ensures ByteAt(g, worlds[|events|].disk, chains[|events|][i], j) ==
            LastWrite(WritesOf(worlds, events, i), j, ByteAt(g, worlds[0].disk, chains[|events|][i], j))
  {
    WorldRunKeeps(g, worlds, chains, events, |events|);
    LogIsWrites(g, worlds, chains, events, i);
    hide WorldRun, WorldInitial, WritesOf, LastWrite, ByteAt;
    assert BytesOk(g, worlds[0].disk, worlds[|events|].disk, chains[|events|][i], worlds[|events|].logs[i]);
  }
}
