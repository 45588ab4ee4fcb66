// The file allocation table as a sequence of entries, and the cluster chains in it.
module FatChains {
  import opened Wrappers

  /** Entries from here on mark the end of a chain (`FAT32_EOC`). */
  const EOC := 0x0FFF_FFF8
  /** What the driver writes to end a chain. */
  const EOC_MARK := 0x0FFF_FFFF

  type Fat = seq<nat>

  /** A table no larger than cluster numbers below the end-of-chain values allow. */
  ghost predicate Sized(fat: Fat) {
    2 <= |fat| <= EOC
  }

  /** `path` is the chain from `start`: every link in range, the last entry an end-of-chain mark. */
  ghost predicate IsChain(fat: Fat, start: nat, path: seq<nat>) {
    && path != [] && path[0] == start
    && (forall i :: 0 <= i < |path| ==> 2 <= path[i] < |fat|)
    && (forall i :: 0 <= i < |path| - 1 ==> fat[path[i]] == path[i + 1])
    && EOC <= fat[Last(path)]
  }

  function Last(path: seq<nat>): nat
    requires path != []
  {
    path[|path| - 1]
  }

  ghost predicate DisjointPaths(p: seq<nat>, q: seq<nat>) {
    forall c :: c in p ==> c !in q
  }

  /** A chain is followed in only one way. */
  lemma {:induction false} ChainUnique(fat: Fat, start: nat, p: seq<nat>, q: seq<nat>)
    requires Sized(fat) && IsChain(fat, start, p) && IsChain(fat, start, q)
    ensures p == q
    decreases |p|
  {
    assert fat[start] < EOC <==> |p| > 1 by {
      assert |p| > 1 ==> fat[p[0]] == p[1];
    }
    assert fat[start] < EOC <==> |q| > 1 by {
      assert |q| > 1 ==> fat[q[0]] == q[1];
    }
    if |p| > 1 && |q| > 1 {
      assert fat[p[0]] == p[1] && fat[q[0]] == q[1];
      ChainTail(fat, p, 1);
      ChainTail(fat, q, 1);
      ChainUnique(fat, p[1], p[1..], q[1..]);
      assert p == [p[0]] + p[1..] && q == [q[0]] + q[1..];
    }
  }

  lemma ChainTail(fat: Fat, path: seq<nat>, i: nat)
    requires path != [] && IsChain(fat, path[0], path) && i < |path|
    ensures IsChain(fat, path[i], path[i..])
  {
    var tail := path[i..];
    assert forall j :: 0 <= j < |tail| ==> tail[j] == path[i + j];
  }

  /** Chains are acyclic: an end-of-chain mark cannot be reached through a cycle. */
  lemma ChainAcyclic(fat: Fat, start: nat, path: seq<nat>, i: nat, j: nat)
    requires Sized(fat) && IsChain(fat, start, path) && i < j < |path|
    ensures path[i] != path[j]
  {
    if path[i] == path[j] {
      ChainTail(fat, path, i);
      ChainTail(fat, path, j);
      ChainUnique(fat, path[i], path[i..], path[j..]);
    }
  }

  /** Updates outside a chain leave it alone. */
  lemma ChainKept(fat: Fat, fat': Fat, start: nat, path: seq<nat>)
    requires IsChain(fat, start, path) && |fat'| == |fat|
    requires forall c :: c in path && c < |fat| ==> fat'[c] == fat[c]
    ensures IsChain(fat', start, path)
  {
    assert forall i :: 0 <= i < |path| ==> path[i] in path;
  }

  /** What `link_cluster` does to the table. */
  function Link(fat: Fat, last: nat, added: nat): Fat
    requires last < |fat| && added < |fat|
  {
    fat[last := added][added := EOC_MARK]
  }

  lemma LinkExtends(fat: Fat, start: nat, path: seq<nat>, added: nat)
    requires Sized(fat) && IsChain(fat, start, path) && 2 <= added < |fat| && added !in path
    ensures IsChain(Link(fat, Last(path), added), start, path + [added])
  {
    var fat', path' := Link(fat, Last(path), added), path + [added];
    forall i | 0 <= i < |path'| - 1
      ensures fat'[path'[i]] == path'[i + 1]
    {
      assert path[i] in path;
      if i < |path| - 1 {
        ChainAcyclic(fat, start, path, i, |path| - 1);
      }
    }
  }

  /** The cluster `alloc_cluster` finds: the lowest free one it scans. */
  function FirstFree(fat: Fat, from: nat, total: nat): (r: Option<nat>)
    requires total <= |fat|
    ensures r.Some? ==> from <= r.value < total && fat[r.value] == 0
    ensures forall c :: from <= c < total && (r.Some? ==> c < r.value) ==> fat[c] != 0
    decreases total - from
  {
    if from >= total then None
    else if fat[from] == 0 then Some(from)
    else FirstFree(fat, from + 1, total)
  }

  /** Freshness: a cluster that is in no chain, because its entry is zero. */
  lemma FreeNotInChain(fat: Fat, start: nat, path: seq<nat>, c: nat)
    requires IsChain(fat, start, path) && c < |fat| && fat[c] == 0
    ensures c !in path
  {
    forall i | 0 <= i < |path|
      ensures path[i] != c
    {
      assert i == |path| - 1 || fat[path[i]] == path[i + 1];
    }
  }

  /** `path'` is the chain `path` followed by clusters that were free; no entry outside the new chain differs. */
  ghost predicate Extension(fat: Fat, fat': Fat, total: nat, path: seq<nat>, path': seq<nat>) {
    && path != [] && path <= path' && |fat'| == |fat| && IsChain(fat', path[0], path')
    && (forall n :: |path| <= n < |path'| ==> 2 <= path'[n] < total && path'[n] < |fat| && fat[path'[n]] == 0)
    && (forall c :: 0 <= c < |fat| && c !in path' ==> fat'[c] == fat[c])
  }

  /** Marking the first free cluster and linking it to the end adds one cluster to the extension. */
  lemma ExtendByOne(fat: Fat, fat': Fat, total: nat, path: seq<nat>, path': seq<nat>, c: nat)
    requires Sized(fat) && total <= |fat| && Extension(fat, fat', total, path, path')
    requires FirstFree(fat', 2, total) == Some(c)
    ensures Extension(fat, Link(fat'[c := EOC_MARK], Last(path'), c), total, path, path' + [c])
  {
    FreeNotInChain(fat', path[0], path', c);
    ChainKept(fat', fat'[c := EOC_MARK], path[0], path');
    LinkExtends(fat'[c := EOC_MARK], path[0], path', c);
    assert Last(path') in path';
  }

  /** A chain that shares no cluster with the extended one, in either form, is as it was. */
  lemma ExtensionSpares(fat: Fat, fat': Fat, total: nat, path: seq<nat>, path': seq<nat>, start: nat, other: seq<nat>)
    requires Extension(fat, fat', total, path, path')
    requires IsChain(fat, start, other) && DisjointPaths(other, path)
    ensures IsChain(fat', start, other) && DisjointPaths(other, path')
  {
    forall c | c in other
      ensures c !in path'
    {
      if c in path' {
        var n :| 0 <= n < |path'| && path'[n] == c;
        if n >= |path| {
          FreeNotInChain(fat, start, other, c);
        }
        assert false;
      }
    }
    ChainKept(fat, fat', start, other);
  }
}
