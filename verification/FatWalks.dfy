// kernel/src/fs/fat/fat32.rs, `get_chain`: on which disks its loop ends.
module FatWalks {
  import opened Wrappers
  import opened Bits
  import opened FatChains
  import opened FatLayout
  import opened FatTable
  import opened Fat32

  /** `trail` is what the loop of `get_chain` reads from `start`, link after link, without finding a reason to stop. */
  ghost predicate Trail(g: FatInfo, disk: Disk, start: nat, trail: seq<nat>)
    requires g.bytesPerSector > 0
  {
    && trail != [] && trail[0] == start
    && (forall i :: 0 <= i < |trail| ==> 2 <= trail[i] && g.EntrySector(trail[i]) < |disk|)
    && (forall i :: 1 <= i < |trail| ==> trail[i] < 0x0FFF_FFF8)
    && (forall i :: 0 <= i < |trail| - 1 ==> g.Entry(disk, trail[i]) == trail[i + 1])
  }

  /** What the entry at the end of a trail decides: the chain ends there, the disk is corrupt, or its sector is missing. */
  lemma {:induction false} WalkEndsTrail(g: FatInfo, disk: Disk, start: nat, trail: seq<nat>, n: nat)
    requires g.bytesPerSector > 0 && Trail(g, disk, start, trail) && |trail| <= n
    ensures var next := g.Entry(disk, Last(trail));
            && (next >= 0x0FFF_FFF8 ==> Walk(g, disk, start, n) == Some(Ok(trail)))
            && (next < 2 ==> Walk(g, disk, start, n) == Some(Err(InvalidCluster)))
            && (2 <= next < 0x0FFF_FFF8 && g.EntrySector(next) >= |disk| && |trail| < n ==>
                  Walk(g, disk, start, n) == Some(Err(ReadError)))
    decreases n
  {
    if |trail| > 1 {
      assert g.Entry(disk, trail[0]) == trail[1];
      WalkEndsTrail(g, disk, trail[1], trail[1..], n - 1);
      assert trail == [start] + trail[1..];
    } else {
      assert trail == [start];
    }
  }

  /** Whatever the result, it is one of these, at the end of a trail no longer than the entries read. */
  lemma {:induction false} WalkLeavesTrail(g: FatInfo, disk: Disk, start: nat, n: nat) returns (trail: seq<nat>)
    requires g.bytesPerSector > 0 && Walk(g, disk, start, n).Some? && 2 <= start && g.EntrySector(start) < |disk|
    ensures Trail(g, disk, start, trail) && |trail| <= n
    ensures var next := g.Entry(disk, Last(trail));
            match Walk(g, disk, start, n).value
            case Ok(path) => path == trail && next >= 0x0FFF_FFF8
            case Err(InvalidCluster) => next < 2
            case Err(ReadError) => 2 <= next < 0x0FFF_FFF8 && g.EntrySector(next) >= |disk| && |trail| < n
            case Err(DiskFull) => false
    decreases n
  {
    var next := g.Entry(disk, start);
    trail := [start];
    if 2 <= next < EOC && g.EntrySector(next) < |disk| {
      var rest := WalkLeavesTrail(g, disk, next, n - 1);
      trail := [start] + rest;
      assert Last(trail) == Last(rest);
    }
  }

  /** The trail runs back into itself. */
  ghost predicate Loop(g: FatInfo, disk: Disk, start: nat, trail: seq<nat>)
    requires g.bytesPerSector > 0
  {
    Trail(g, disk, start, trail) && exists i :: 0 <= i < |trail| - 1 && trail[i] == Last(trail)
  }

  lemma LoopGoesOn(g: FatInfo, disk: Disk, start: nat, trail: seq<nat>) returns (rest: seq<nat>)
    requires g.bytesPerSector > 0 && Loop(g, disk, start, trail)
    ensures Loop(g, disk, g.Entry(disk, start), rest)
    ensures 2 <= start && g.EntrySector(start) < |disk| && 2 <= g.Entry(disk, start) < EOC
  {
    var i :| 0 <= i < |trail| - 1 && trail[i] == Last(trail);
    assert g.Entry(disk, trail[0]) == trail[1];
    rest := trail[1..];
    assert forall j :: 0 <= j < |rest| ==> rest[j] == trail[j + 1];
    if i > 0 {
      assert rest[i - 1] == Last(rest);
    } else {
      rest := rest + [trail[1]];
      assert rest[0] == Last(rest);
    }
  }

  lemma {:induction false} LoopNeverEnds(g: FatInfo, disk: Disk, start: nat, trail: seq<nat>, n: nat)
    requires g.bytesPerSector > 0 && Loop(g, disk, start, trail)
    ensures Walk(g, disk, start, n) == None
    decreases n
  {
    var rest := LoopGoesOn(g, disk, start, trail);
    if n > 0 {
      LoopNeverEnds(g, disk, g.Entry(disk, start), rest, n - 1);
    }
  }

  /** A walk that has not ended after `n` entries leaves a trail of `n` links. */
  lemma {:induction false} UnendedTrail(g: FatInfo, disk: Disk, start: nat, n: nat) returns (trail: seq<nat>)
    requires g.bytesPerSector > 0 && Walk(g, disk, start, n) == None && n > 0
    ensures Trail(g, disk, start, trail) && |trail| == n
    decreases n
  {
    var next := g.Entry(disk, start);
    if n == 1 {
      trail := [start];
    } else {
      var rest := UnendedTrail(g, disk, next, n - 1);
      trail := [start] + rest;
    }
  }

  /** A sequence of more numbers below a bound than there are repeats one. */
  lemma {:induction false} Pigeonhole(s: seq<nat>, bound: nat) returns (i: nat, j: nat)
    requires (forall k :: 0 <= k < |s| ==> s[k] < bound) && |s| > bound
    ensures i < j < |s| && s[i] == s[j]
  {
    if forall k, l :: 0 <= k < l < |s| ==> s[k] != s[l] {
      DistinctCount(s);
      SubsetCount(Elements(s), Below(bound));
      assert false;
    }
    i, j :| 0 <= i < j < |s| && s[i] == s[j];
  }

  function Below(n: nat): (r: set<nat>)
    ensures |r| == n && forall x: nat :: x in r <==> x < n
  {
    if n == 0 then {} else Below(n - 1) + {n - 1}
  }

  lemma {:induction false} SubsetCount(a: set<nat>, b: set<nat>)
    requires a <= b
    ensures |a| <= |b|
  {
    if a != {} {
      var x :| x in a;
      SubsetCount(a - {x}, b - {x});
    }
  }

  function Elements(s: seq<nat>): set<nat> {
    set x | x in s
  }

  lemma {:induction false} DistinctCount(s: seq<nat>)
    requires forall i, j :: 0 <= i < j < |s| ==> s[i] != s[j]
    ensures |Elements(s)| == |s|
  {
    if s != [] {
      var most, last := s[..|s| - 1], s[|s| - 1];
      DistinctCount(most);
      assert s == most + [last];
      assert Elements(s) == Elements(most) + {last};
    }
  }

  /** More links than the disk has bytes must repeat one. */
  lemma LongTrailLoops(g: FatInfo, disk: Disk, start: nat, trail: seq<nat>) returns (loop: seq<nat>)
    requires g.bytesPerSector > 0 && Trail(g, disk, start, trail) && |trail| > |disk| * g.bytesPerSector
    ensures Loop(g, disk, start, loop)
  {
    forall k | 0 <= k < |trail|
      ensures trail[k] < |disk| * g.bytesPerSector
    {
      InDiskBound(g, disk, trail[k]);
    }
    var i, j := Pigeonhole(trail, |disk| * g.bytesPerSector);
    loop := trail[..j + 1];
    assert loop[i] == Last(loop);
  }

  lemma InDiskBound(g: FatInfo, disk: Disk, c: nat)
    requires g.bytesPerSector > 0 && g.EntrySector(c) < |disk|
    ensures c < |disk| * g.bytesPerSector
  {
    var q, r := DivMod(4 * c, g.bytesPerSector);
    MulStrict(q, |disk|, g.bytesPerSector);
  }

  /** `get_chain` ends exactly when the links from the start do not run into a loop. */
  lemma EndsIffNoLoop(g: FatInfo, disk: Disk, start: nat)
    requires g.bytesPerSector > 0
    ensures (exists n: nat :: Walk(g, disk, start, n).Some?) <==> !(exists trail :: Loop(g, disk, start, trail))
  {
    var most := |disk| * g.bytesPerSector + 1;
    if Walk(g, disk, start, most) == None {
      var trail := UnendedTrail(g, disk, start, most);
      var loop := LongTrailLoops(g, disk, start, trail);
    }
    assert Walk(g, disk, start, most).Some? || exists loop :: Loop(g, disk, start, loop);
    forall trail, n: nat | Loop(g, disk, start, trail)
      ensures Walk(g, disk, start, n) == None
    {
      LoopNeverEnds(g, disk, start, trail, n);
    }
  }

  /** A cluster whose entry names itself is such a loop, on a disk that is sound in every other respect. */
  lemma SelfLinkLoops(g: FatInfo, disk: Disk, disk': Disk, c: nat)
    requires EntryWritten(g, disk, disk', c, c) && 2 <= c
    ensures g.Fits(disk') && Loop(g, disk', c, [c, c])
    ensures forall n: nat :: Walk(g, disk', c, n) == None
  {
    WriteEffect(g, disk, disk', c, c);
    EntryReadBack(g, disk, disk', c, c, c);
    EntryInDisk(g, disk', c);
    var trail := [c, c];
    assert trail[0] == Last(trail);
    forall n: nat
      ensures Walk(g, disk', c, n) == None
    {
      LoopNeverEnds(g, disk', c, trail, n);
    }
  }

  lemma WriteExists(g: FatInfo, disk: Disk, c: nat, v: nat) returns (disk': Disk)
    requires g.Fits(disk) && c < g.Entries() && v < 0x1000_0000
    ensures EntryWritten(g, disk, disk', c, v)
  {
    EntryInDisk(g, disk, c);
    hide FatInfo.Fits, FatInfo.EntrySector, FatInfo.EntryIndex, TableSector, FatInfo.CopySector, CopiesWritten;
    var s, buf := TableSector(g, c), NewSector(g, disk, c, v);
    disk' := disk;
    Fat32Fs.NoneWritten(g, disk, s, buf);
    for n := 0 to g.numFats
      invariant CopiesWritten(g, disk, disk', s, n, buf) && |disk'| == |disk|
    {
      OneMoreCopy(g, disk, disk', s, n, buf);
      disk' := disk'[g.CopySector(n, s) := buf];
    }
  }

  /** There are such disks: here one of 512-byte sectors, with 32 reserved ones and two copies of the table. */
  lemma SomeDiskLoops()
    ensures exists g: FatInfo, disk: Disk :: g.Fits(disk) && Loop(g, disk, 2, [2, 2])
  {
    var g := FatInfo(512, 1, 2, 1, 32, 34, 126);
    var disk := SmallDisk(g);
    hide FatInfo.Fits, Loop;
    var disk' := WriteExists(g, disk, 2, 2);
    SelfLinkLoops(g, disk, disk', 2);
  }

  lemma SmallDisk(g: FatInfo) returns (disk: Disk)
    requires g == FatInfo(512, 1, 2, 1, 32, 34, 126)
    ensures g.Fits(disk)
  {
    var blank: Sector := seq(512, _ => 0);
    disk := seq(160, _ => blank);
  }
}
