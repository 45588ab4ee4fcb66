// Concurrent `extend_file` runs, each on a file of its own.  Every section that holds
// `fat_lock` is one step: reading one entry of a chain, finding and marking a free
// cluster, linking it.  Between two steps of one run any number of others may happen.
module FatConcurrent {
  import opened Wrappers
  import opened FatChains

  datatype Outcome = Extended | DiskFull | InvalidCluster

  /** Where a run of `extend_file` is. */
  datatype Pc =
    | Walking(seen: seq<nat>, cur: nat)                   // in get_chain, about to read the entry of `cur`
    | Allocating(last: nat, todo: nat)                    // about to call alloc_cluster
    | Linking(last: nat, added: nat, todo: nat)           // about to call link_cluster
    | Done(outcome: Outcome)

  /** One run: the file's first cluster and the number of clusters its new size needs. */
  datatype Thread = Thread(start: nat, needed: nat, pc: Pc)

  datatype System = System(fat: Fat, total: nat, threads: seq<Thread>)

  // ---- Steps ----

  /** The local continuation once `get_chain` has read the entry `next` of `cur`. */
  function AfterRead(needed: nat, seen: seq<nat>, cur: nat, next: nat): Pc {
    if next >= EOC then
      var length := |seen| + 1;
      if needed <= length then Done(Extended) else Allocating(cur, needed - length)
    else if next == 0 then
      Done(InvalidCluster)
    else
      Walking(seen + [cur], next)
  }

  ghost predicate ThreadStep(fat: Fat, total: nat, t: Thread, fat': Fat, pc': Pc) {
    match t.pc
    case Walking(seen, cur) =>
      && fat' == fat
      && if cur < 2 then pc' == Done(InvalidCluster)
         else cur < |fat| && pc' == AfterRead(t.needed, seen, cur, fat[cur])
    case Allocating(last, todo) =>
      total <= |fat| &&
      (match FirstFree(fat, 2, total)
       case None => fat' == fat && pc' == Done(DiskFull)
       case Some(c) => fat' == fat[c := EOC_MARK] && pc' == Linking(last, c, todo))
    case Linking(last, added, todo) =>
      && last < |fat| && added < |fat| && fat' == Link(fat, last, added)
      && pc' == if todo <= 1 then Done(Extended) else Allocating(added, todo - 1)
    case Done(_) => false
  }

  ghost predicate Step(s: System, i: nat, s': System) {
    && i < |s.threads| && s'.total == s.total && |s'.threads| == |s.threads|
    && ThreadStep(s.fat, s.total, s.threads[i], s'.fat, s'.threads[i].pc)
    && s'.threads == s.threads[i := s.threads[i].(pc := s'.threads[i].pc)]
  }

  // ---- The invariant ----

  /** Clusters a run may write: those of its file, and the one it has marked but not linked yet. */
  ghost predicate Owns(t: Thread, path: seq<nat>, c: nat) {
    c in path || (t.pc.Linking? && c == t.pc.added)
  }

  /** No cluster that `alloc_cluster` scans is free. */
  ghost predicate Full(fat: Fat, total: nat)
    requires total <= |fat|
  {
    FirstFree(fat, 2, total) == None
  }

  /** No entry that was in use is free now. */
  ghost predicate NothingFreed(fat: Fat, fat': Fat) {
    |fat'| == |fat| && forall c :: 0 <= c < |fat| && fat'[c] == 0 ==> fat[c] == 0
  }

  lemma StaysFull(fat: Fat, fat': Fat, total: nat)
    requires total <= |fat| && Full(fat, total) && NothingFreed(fat, fat')
    ensures Full(fat', total)
  {
    forall c | 2 <= c < total
      ensures fat'[c] != 0
    {
    }
  }

  /** One run against its file: `path0` is the chain it started with, `path` the chain now. */
  ghost predicate ThreadOk(fat0: Fat, path0: seq<nat>, fat: Fat, total: nat, t: Thread, path: seq<nat>) {
    && total <= |fat| == |fat0|
    && IsChain(fat, t.start, path)
    && path0 <= path
    && (forall c: nat :: Owns(t, path, c) && c !in path0 ==> 2 <= c < total && fat0[c] == 0)
    && match t.pc
       case Walking(seen, cur) => path == path0 && seen + [cur] <= path
       case Allocating(last, todo) => last == Last(path) && todo > 0 && |path| + todo == t.needed
       case Linking(last, added, todo) =>
         last == Last(path) && todo > 0 && |path| + todo == t.needed && added !in path && added < |fat| && fat[added] == EOC_MARK
       case Done(Extended) => |path| == if |path0| < t.needed then t.needed else |path0|
       case Done(DiskFull) => |path| < t.needed && Full(fat, total)
       case Done(InvalidCluster) => false
  }

  ghost predicate Inv(fat0: Fat, paths0: seq<seq<nat>>, s: System, paths: seq<seq<nat>>) {
    && Sized(s.fat) && |s.fat| == |fat0| && s.total <= |s.fat|
    && |paths0| == |paths| == |s.threads|
    && (forall i :: 0 <= i < |paths| ==> ThreadOk(fat0, paths0[i], s.fat, s.total, s.threads[i], paths[i]))
    && Separate(s.threads, paths)
    && (forall c :: 0 <= c < |fat0| && Unowned(s.threads, paths, c) ==> s.fat[c] == fat0[c])
  }

  ghost predicate Separate(threads: seq<Thread>, paths: seq<seq<nat>>)
    requires |threads| == |paths|
  {
    forall i, j, c: nat :: 0 <= i < |paths| && 0 <= j < |paths| && i != j && Owns(threads[i], paths[i], c) ==>
      !Owns(threads[j], paths[j], c)
  }

  ghost predicate Unowned(threads: seq<Thread>, paths: seq<seq<nat>>, c: nat)
    requires |threads| == |paths|
  {
    forall i :: 0 <= i < |paths| ==> !Owns(threads[i], paths[i], c)
  }

  /** All runs about to start, on files whose chains are whole and disjoint. */
  ghost predicate Initial(s: System, paths: seq<seq<nat>>) {
    && Sized(s.fat) && s.total <= |s.fat| && |paths| == |s.threads|
    && (forall i :: 0 <= i < |paths| ==> IsChain(s.fat, s.threads[i].start, paths[i]))
    && (forall i, j :: 0 <= i < |paths| && 0 <= j < |paths| && i != j ==> DisjointPaths(paths[i], paths[j]))
    && (forall i :: 0 <= i < |paths| ==> s.threads[i].pc == Walking([], s.threads[i].start))
  }

  lemma InitialInv(s: System, paths: seq<seq<nat>>)
    requires Initial(s, paths)
    ensures Inv(s.fat, paths, s, paths)
  {
    forall i | 0 <= i < |paths|
      ensures ThreadOk(s.fat, paths[i], s.fat, s.total, s.threads[i], paths[i])
    {
      assert [] + [s.threads[i].start] <= paths[i];
    }
  }

  /** The path of the stepping run after the step. */
  ghost function NextPath(t: Thread, path: seq<nat>): seq<nat> {
    if t.pc.Linking? then path + [t.pc.added] else path
  }

  /** A run is not disturbed by writes to clusters it does not own. */
  lemma BystanderOk(fat0: Fat, path0: seq<nat>, fat: Fat, fat': Fat, total: nat, t: Thread, path: seq<nat>)
    requires ThreadOk(fat0, path0, fat, total, t, path) && NothingFreed(fat, fat')
    requires forall c: nat :: Owns(t, path, c) && c < |fat| ==> fat'[c] == fat[c]
    ensures ThreadOk(fat0, path0, fat', total, t, path)
  {
    if t.pc == Done(DiskFull) {
      StaysFull(fat, fat', total);
    }
    assert forall c :: c in path ==> Owns(t, path, c);
    ChainKept(fat, fat', t.start, path);
    if t.pc.Linking? {
      assert Owns(t, path, t.pc.added);
    }
  }

  /** A free cluster is in no chain and pending nowhere. */
  lemma FreeIsUnowned(fat0: Fat, paths0: seq<seq<nat>>, s: System, paths: seq<seq<nat>>, c: nat)
    requires Inv(fat0, paths0, s, paths) && c < |s.fat| && s.fat[c] == 0
    ensures Unowned(s.threads, paths, c) && fat0[c] == 0
  {
    forall i | 0 <= i < |paths|
      ensures !Owns(s.threads[i], paths[i], c)
    {
      assert ThreadOk(fat0, paths0[i], s.fat, s.total, s.threads[i], paths[i]);
      FreeNotInChain(s.fat, s.threads[i].start, paths[i], c);
    }
  }

  /** A step writes only what the run owns afterwards, and it comes to own nothing but a cluster that was free. */
  lemma StepFootprint(fat0: Fat, path0: seq<nat>, fat: Fat, total: nat, t: Thread, path: seq<nat>, fat': Fat, pc': Pc)
    requires ThreadOk(fat0, path0, fat, total, t, path) && ThreadStep(fat, total, t, fat', pc')
    ensures |fat'| == |fat|
    ensures forall c: nat :: c < |fat| && fat'[c] != fat[c] ==> Owns(t.(pc := pc'), NextPath(t, path), c)
    ensures forall c: nat :: Owns(t, path, c) ==> Owns(t.(pc := pc'), NextPath(t, path), c)
    ensures forall c: nat :: Owns(t.(pc := pc'), NextPath(t, path), c) && !Owns(t, path, c) ==> c < |fat| && fat[c] == 0
  {
    if t.pc.Linking? {
      assert Last(path) in path;
    }
  }

  /** No step frees a cluster: once the disk is full it stays full. */
  lemma StepFreesNothing(fat0: Fat, path0: seq<nat>, fat: Fat, total: nat, t: Thread, path: seq<nat>, fat': Fat, pc': Pc)
    requires ThreadOk(fat0, path0, fat, total, t, path) && ThreadStep(fat, total, t, fat', pc')
    ensures NothingFreed(fat, fat')
  {
    if t.pc.Linking? {
      assert Owns(t, path, t.pc.added) && t.pc.added !in path0;
    }
  }

  /** The stepping run keeps its file's chain whole: the old chain followed by fresh clusters. */
  lemma StepOk(fat0: Fat, path0: seq<nat>, fat: Fat, total: nat, t: Thread, path: seq<nat>, fat': Fat, pc': Pc)
    requires Sized(fat) && ThreadOk(fat0, path0, fat, total, t, path) && ThreadStep(fat, total, t, fat', pc')
    requires forall c :: 0 <= c < |fat| && fat[c] == 0 ==> fat0[c] == 0
    ensures ThreadOk(fat0, path0, fat', total, t.(pc := pc'), NextPath(t, path))
  {
    match t.pc
    case Walking(seen, cur) =>
      WalkOk(fat, t.start, path, seen, cur);
    case Allocating(last, todo) =>
      var found := FirstFree(fat, 2, total);
      if found.Some? {
        FreeNotInChain(fat, t.start, path, found.value);
        ChainKept(fat, fat', t.start, path);
      }
    case Linking(last, added, todo) =>
      assert Owns(t, path, added);
      LinkExtends(fat, t.start, path, added);
    case Done(_) =>
  }

  /** A run that reads along its own chain finds the next cluster of it, or its end. */
  lemma WalkOk(fat: Fat, start: nat, path: seq<nat>, seen: seq<nat>, cur: nat)
    requires Sized(fat) && IsChain(fat, start, path) && seen + [cur] <= path
    ensures 2 <= cur < |fat|
    ensures if |seen| + 1 == |path| then fat[cur] >= EOC && cur == Last(path)
            else 0 < fat[cur] < EOC && seen + [cur] + [fat[cur]] <= path
  {
    assert path[|seen|] == (seen + [cur])[|seen|] == cur;
    if |seen| + 1 < |path| {
      assert fat[path[|seen|]] == path[|seen| + 1];
    }
  }

  /** Any step of any run keeps the invariant, whatever the other runs are in the middle of. */
  lemma StepKeepsInv(fat0: Fat, paths0: seq<seq<nat>>, s: System, paths: seq<seq<nat>>, i: nat, s': System)
    requires Inv(fat0, paths0, s, paths) && Step(s, i, s')
    ensures Inv(fat0, paths0, s', paths[i := NextPath(s.threads[i], paths[i])])
  {
    var t, t', path, path' := s.threads[i], s'.threads[i], paths[i], NextPath(s.threads[i], paths[i]);
    var paths' := paths[i := path'];
    assert ThreadOk(fat0, paths0[i], s.fat, s.total, t, path);
    StepFootprint(fat0, paths0[i], s.fat, s.total, t, path, s'.fat, t'.pc);
    forall c | 0 <= c < |s.fat| && s.fat[c] == 0
      ensures fat0[c] == 0 && Unowned(s.threads, paths, c)
    {
      FreeIsUnowned(fat0, paths0, s, paths, c);
    }
    StepOk(fat0, paths0[i], s.fat, s.total, t, path, s'.fat, t'.pc);
    StepFreesNothing(fat0, paths0[i], s.fat, s.total, t, path, s'.fat, t'.pc);
    hide ThreadStep, Owns, Separate, NothingFreed;
    StillSeparate(s.fat, s.threads, paths, i, t', path');
    hide Unowned;
    forall j | 0 <= j < |paths'| && j != i
      ensures ThreadOk(fat0, paths0[j], s'.fat, s'.total, s'.threads[j], paths'[j])
    {
      assert ThreadOk(fat0, paths0[j], s.fat, s.total, s.threads[j], paths[j]);
      OtherSpared(s, paths, i, s', path', j);
      hide ThreadOk;
      BystanderOk(fat0, paths0[j], s.fat, s'.fat, s.total, s.threads[j], paths[j]);
    }
    hide ThreadOk;
    forall c | 0 <= c < |fat0| && Unowned(s'.threads, paths', c)
      ensures s'.fat[c] == fat0[c]
    {
      StillUnowned(s.threads, paths, i, t', path', c);
    }
  }

  /** What the stepping run comes to own was free, hence nobody else's. */
  lemma StillSeparate(fat: Fat, threads: seq<Thread>, paths: seq<seq<nat>>, i: nat, t': Thread, path': seq<nat>)
    requires |threads| == |paths| && i < |threads| && Separate(threads, paths)
    requires forall c: nat :: Owns(t', path', c) && !Owns(threads[i], paths[i], c) ==> c < |fat| && fat[c] == 0
    requires forall c :: 0 <= c < |fat| && fat[c] == 0 ==> Unowned(threads, paths, c)
    ensures Separate(threads[i := t'], paths[i := path'])
  {
    hide Owns;
    forall j, c: nat | 0 <= j < |paths| && j != i && Owns(threads[j], paths[j], c)
      ensures !Owns(t', path', c)
    {
      assert !Owns(threads[i], paths[i], c);
      assert c < |fat| ==> fat[c] != 0 || Unowned(threads, paths, c);
    }
  }

  lemma OtherSpared(s: System, paths: seq<seq<nat>>, i: nat, s': System, path': seq<nat>, j: nat)
    requires |s.threads| == |paths| == |s'.threads| && i < |paths| && j < |paths| && i != j && |s'.fat| == |s.fat|
    requires s'.threads[j] == s.threads[j]
    requires Separate(s'.threads, paths[i := path'])
    requires forall c: nat :: c < |s.fat| && s'.fat[c] != s.fat[c] ==> Owns(s'.threads[i], path', c)
    ensures forall c: nat :: Owns(s.threads[j], paths[j], c) && c < |s.fat| ==> s'.fat[c] == s.fat[c]
  {
    hide Owns;
    var paths' := paths[i := path'];
    assert paths'[j] == paths[j] && paths'[i] == path';
  }

  lemma StillUnowned(threads: seq<Thread>, paths: seq<seq<nat>>, i: nat, t': Thread, path': seq<nat>, c: nat)
    requires |threads| == |paths| && i < |threads| && Unowned(threads[i := t'], paths[i := path'], c)
    requires Owns(threads[i], paths[i], c) ==> Owns(t', path', c)
    ensures Unowned(threads, paths, c) && !Owns(t', path', c)
  {
    hide Owns;
    var threads', paths' := threads[i := t'], paths[i := path'];
    assert !Owns(threads'[i], paths'[i], c);
    forall j | 0 <= j < |paths|
      ensures !Owns(threads[j], paths[j], c)
    {
      assert !Owns(threads'[j], paths'[j], c);
    }
  }

  // ---- Whole runs ----

  /** `order[k]` says which run makes the `k`-th step. */
  ghost predicate Run(states: seq<System>, order: seq<nat>) {
    && |states| == |order| + 1
    && forall k :: 0 <= k < |order| ==> Step(states[k], order[k], states[k + 1])
  }

  lemma RunLength(states: seq<System>, order: seq<nat>)
    requires Run(states, order)
    ensures |states| == |order| + 1
  {
  }

  lemma StepAt(states: seq<System>, order: seq<nat>, k: nat)
    requires Run(states, order) && k < |order|
    ensures k + 1 < |states| && Step(states[k], order[k], states[k + 1])
  {
  }

  lemma Indexed(fat0: Fat, paths0: seq<seq<nat>>, s: System, paths: seq<seq<nat>>, i: nat, s': System)
    requires Inv(fat0, paths0, s, paths) && Step(s, i, s')
    ensures i < |s.threads| == |paths| == |s'.threads|
  {
  }

  lemma {:induction false} RunKeepsInv(states: seq<System>, order: seq<nat>, paths0: seq<seq<nat>>, k: nat)
    returns (paths: seq<seq<nat>>)
    requires Run(states, order) && Initial(states[0], paths0) && k < |states|
    ensures Inv(states[0].fat, paths0, states[k], paths) && states[k].total == states[0].total
    ensures forall i :: 0 <= i < |paths0| ==>
              states[k].threads[i].start == states[0].threads[i].start && states[k].threads[i].needed == states[0].threads[i].needed
  {
    if k == 0 {
      InitialInv(states[0], paths0);
      paths := paths0;
    } else {
      var before := RunKeepsInv(states, order, paths0, k - 1);
      StepKeepsInv(states[0].fat, paths0, states[k - 1], before, order[k - 1], states[k]);
      paths := before[order[k - 1] := NextPath(states[k - 1].threads[order[k - 1]], before[order[k - 1]])];
    }
  }

  /**
   * Under every interleaving, at every moment: each file's chain is whole and is its old chain followed by
   * clusters that were free at the start; chains of different files are disjoint; a finished run has the
   * length it needed, or was told the disk is full, is shorter, and the disk is full; none is told its
   * cluster is invalid.
   */
  lemma EveryInterleaving(states: seq<System>, order: seq<nat>, paths0: seq<seq<nat>>, k: nat)
    requires Run(states, order) && Initial(states[0], paths0) && k < |states|
    ensures exists paths: seq<seq<nat>> :: |paths| == |paths0| && Outcomes(states[0], paths0, states[k], paths)
  {
    var paths := RunKeepsInv(states, order, paths0, k);
    var s0, s := states[0], states[k];
    forall i | 0 <= i < |paths|
      ensures FileOutcome(s0.fat, s0.total, paths0[i], s.fat, s0.threads[i], s.threads[i].pc, paths[i])
    {
      assert ThreadOk(s0.fat, paths0[i], s.fat, s.total, s.threads[i], paths[i]);
      forall n | |paths0[i]| <= n < |paths[i]|
        ensures 2 <= paths[i][n] < s.total && s0.fat[paths[i][n]] == 0
      {
        NewInPath(s0.fat, s.fat, s.threads[i].start, paths0[i], paths[i], n);
        assert Owns(s.threads[i], paths[i], paths[i][n]);
      }
    }
    forall i, j | 0 <= i < |paths| && 0 <= j < |paths| && i != j
      ensures DisjointPaths(paths[i], paths[j])
    {
      assert forall c :: c in paths[i] ==> Owns(s.threads[i], paths[i], c);
      assert forall c :: c in paths[j] ==> Owns(s.threads[j], paths[j], c);
    }
    assert Outcomes(s0, paths0, s, paths);
  }

  ghost predicate FileOutcome(fat0: Fat, total: nat, path0: seq<nat>, fat: Fat, t: Thread, pc: Pc, path: seq<nat>) {
    && IsChain(fat, t.start, path) && path0 <= path
    && (forall n :: |path0| <= n < |path| ==> 2 <= path[n] < total <= |fat0| && fat0[path[n]] == 0)
    && (pc.Walking? ==> pc.seen + [pc.cur] <= path0)
    && (pc == Done(Extended) ==> |path| == if |path0| < t.needed then t.needed else |path0|)
    && (pc == Done(DiskFull) ==> |path| < t.needed && total <= |fat| && Full(fat, total))
    && pc != Done(InvalidCluster)
  }

  ghost predicate Outcomes(s0: System, paths0: seq<seq<nat>>, s: System, paths: seq<seq<nat>>) {
    && |paths0| == |paths| == |s0.threads| == |s.threads| && s.total == s0.total
    && (forall i :: 0 <= i < |paths| ==>
          FileOutcome(s0.fat, s0.total, paths0[i], s.fat, s0.threads[i], s.threads[i].pc, paths[i]))
    && (forall i, j :: 0 <= i < |paths| && 0 <= j < |paths| && i != j ==> DisjointPaths(paths[i], paths[j]))
    && |s.fat| == |s0.fat|
    && (forall c :: 0 <= c < |s.fat| && s.fat[c] != s0.fat[c] ==> !Unowned(s.threads, paths, c))
  }

  lemma NewInPath(fat0: Fat, fat: Fat, start: nat, path0: seq<nat>, path: seq<nat>, n: nat)
    requires Sized(fat) && IsChain(fat, start, path) && path0 <= path && |path0| <= n < |path|
    ensures path[n] !in path0 && path[n] in path
  {
    forall m | 0 <= m < |path0|
      ensures path0[m] != path[n]
    {
      ChainAcyclic(fat, start, path, m, n);
    }
  }

  /** Files that no run is extending keep their chains, and no run's new clusters are theirs. */
  lemma OtherFilesKept(states: seq<System>, order: seq<nat>, paths0: seq<seq<nat>>, k: nat, start: nat, other: seq<nat>)
    requires Run(states, order) && Initial(states[0], paths0) && k < |states|
    requires IsChain(states[0].fat, start, other) && forall i :: 0 <= i < |paths0| ==> DisjointPaths(other, paths0[i])
    ensures IsChain(states[k].fat, start, other)
  {
    var paths := RunKeepsInv(states, order, paths0, k);
    var s0, s := states[0], states[k];
    forall c | c in other && c < |s.fat|
      ensures s.fat[c] == s0.fat[c]
    {
      FreeInOther(s0.fat, start, other, c);
      forall i | 0 <= i < |paths|
        ensures !Owns(s.threads[i], paths[i], c)
      {
        assert ThreadOk(s0.fat, paths0[i], s.fat, s.total, s.threads[i], paths[i]);
        assert DisjointPaths(other, paths0[i]);
      }
      assert Unowned(s.threads, paths, c);
    }
    ChainKept(s0.fat, s.fat, start, other);
  }

  lemma FreeInOther(fat: Fat, start: nat, path: seq<nat>, c: nat)
    requires IsChain(fat, start, path) && c in path
    ensures c < |fat| && fat[c] != 0
  {
    if c < |fat| && fat[c] == 0 {
      FreeNotInChain(fat, start, path, c);
    }
  }

  // ---- Termination ----

  /** Steps a run still has to make, at most. */
  function Remaining(t: Thread, length: nat): nat {
    match t.pc
    case Walking(seen, _) =>
      (if |seen| < length then length - |seen| else 0) + (if length < t.needed then 2 * (t.needed - length) else 0)
    case Allocating(_, todo) => 2 * todo
    case Linking(_, _, todo) => if todo == 0 then 0 else 2 * todo - 1
    case Done(_) => 0
  }

  function TotalRemaining(threads: seq<Thread>, paths: seq<seq<nat>>): nat
    requires |threads| == |paths|
  {
    if threads == [] then 0
    else Remaining(threads[0], |paths[0]|) + TotalRemaining(threads[1..], paths[1..])
  }

  lemma {:induction false} TotalUpdate(threads: seq<Thread>, paths: seq<seq<nat>>, i: nat, t: Thread, path: seq<nat>)
    requires |threads| == |paths| && i < |threads|
    ensures TotalRemaining(threads[i := t], paths[i := path]) + Remaining(threads[i], |paths[i]|)
            == TotalRemaining(threads, paths) + Remaining(t, |path|)
  {
    var threads', paths' := threads[i := t], paths[i := path];
    if i == 0 {
      assert threads'[1..] == threads[1..] && paths'[1..] == paths[1..];
    } else {
      assert threads'[1..] == threads[1..][i - 1 := t] && paths'[1..] == paths[1..][i - 1 := path];
      TotalUpdate(threads[1..], paths[1..], i - 1, t, path);
    }
  }

  lemma StepProgress(fat0: Fat, path0: seq<nat>, fat: Fat, total: nat, t: Thread, path: seq<nat>, fat': Fat, pc': Pc)
    requires Sized(fat) && ThreadOk(fat0, path0, fat, total, t, path) && ThreadStep(fat, total, t, fat', pc')
    ensures Remaining(t.(pc := pc'), |NextPath(t, path)|) < Remaining(t, |path|)
  {
    if t.pc.Walking? {
      WalkOk(fat, t.start, path, t.pc.seen, t.pc.cur);
    }
  }

  /** Every step, whoever makes it, leaves less to do. */
  lemma StepReduces(fat0: Fat, paths0: seq<seq<nat>>, s: System, paths: seq<seq<nat>>, i: nat, s': System)
    requires Inv(fat0, paths0, s, paths) && Step(s, i, s')
    ensures |s'.threads| == |paths| == |s.threads|
    ensures 1 + TotalRemaining(s'.threads, paths[i := NextPath(s.threads[i], paths[i])]) <= TotalRemaining(s.threads, paths)
  {
    hide ThreadOk, ThreadStep, Separate, Unowned, Remaining, NextPath;
    StepProgress(fat0, paths0[i], s.fat, s.total, s.threads[i], paths[i], s'.fat, s'.threads[i].pc);
    TotalUpdate(s.threads, paths, i, s'.threads[i], NextPath(s.threads[i], paths[i]));
  }

  /** No interleaving goes on for longer than the runs have clusters to read and to add. */
  lemma {:induction false} RunsAreBounded(states: seq<System>, order: seq<nat>, paths0: seq<seq<nat>>, k: nat)
    returns (paths: seq<seq<nat>>)
    requires Run(states, order) && Initial(states[0], paths0) && k < |states|
    ensures Inv(states[0].fat, paths0, states[k], paths)
    ensures k + TotalRemaining(states[k].threads, paths) <= TotalRemaining(states[0].threads, paths0)
  {
    hide Inv, Step, Initial, NextPath, TotalRemaining, Run;
    if k == 0 {
      InitialInv(states[0], paths0);
      paths := paths0;
    } else {
      RunLength(states, order);
      StepAt(states, order, k - 1);
      var s, i, s' := states[k - 1], order[k - 1], states[k];
      var before := RunsAreBounded(states, order, paths0, k - 1);
      Indexed(states[0].fat, paths0, s, before, i, s');
      StepKeepsInv(states[0].fat, paths0, s, before, i, s');
      StepReduces(states[0].fat, paths0, s, before, i, s');
      paths := before[i := NextPath(s.threads[i], before[i])];
    }
  }

  /** A run that is not done can always take its next step: nothing waits for another run. */
  lemma NeverStuck(fat0: Fat, paths0: seq<seq<nat>>, s: System, paths: seq<seq<nat>>, i: nat) returns (s': System)
    requires Inv(fat0, paths0, s, paths) && i < |s.threads| && !s.threads[i].pc.Done?
    ensures Step(s, i, s')
  {
    var t := s.threads[i];
    assert ThreadOk(fat0, paths0[i], s.fat, s.total, t, paths[i]);
    var fat', pc' := s.fat, t.pc;
    match t.pc {
      case Walking(seen, cur) =>
        WalkOk(s.fat, t.start, paths[i], seen, cur);
        pc' := AfterRead(t.needed, seen, cur, s.fat[cur]);
      case Allocating(last, todo) =>
        var found := FirstFree(s.fat, 2, s.total);
        if found.Some? {
          fat', pc' := s.fat[found.value := EOC_MARK], Linking(last, found.value, todo);
        } else {
          pc' := Done(DiskFull);
        }
      case Linking(last, added, todo) =>
        fat' := Link(s.fat, last, added);
        pc' := if todo <= 1 then Done(Extended) else Allocating(added, todo - 1);
    }
    s' := s.(fat := fat', threads := s.threads[i := t.(pc := pc')]);
  }
}
