/**
 * Cluster allocation: a bump allocator that links clusters into chains in two mirrored FATs.
 * Proved here, over every run of allocations: links only lead upwards, no two chains share a
 * cluster, the chains are exactly the clusters handed out, and the two FATs stay equal.
 */
module FatClusters {
  import opened Bytes
  import opened FatGeometry
  import opened Options

  const EOC := 0x0FFF_FFFF
  const FIRST_FAT_ENTRY := 0x0FFF_FFF8

  /**
   * The volume in memory. `data[c]` is the content of cluster c; entries 0 and 1 stand for the
   * two cluster numbers that do not exist.
   */
  datatype Volume = Volume(
    clusterSize: nat, fat0: seq<nat>, fat1: seq<nat>, data: seq<seq<byte>>, next: nat, free: nat)

  /** Sizes and counters fit together; `next + free` never changes. */
  ghost predicate Shaped(v: Volume) {
    && |v.fat0| == |v.fat1| >= |v.data|
    && |v.data| <= FAT32_BAD_CLUSTER
    && 3 <= v.next && v.next + v.free == |v.data|
    && forall c {:trigger v.data[c]} :: 2 <= c < |v.data| ==> |v.data[c]| == v.clusterSize
  }

  // ---------------------------------------------------------------- allocation

  /** A FAT after `count` clusters from `first` on were linked, and hung behind `previous`. */
  function LinkRun(fat: seq<nat>, previous: Option<nat>, first: nat, count: nat): seq<nat> {
    seq(|fat|, c requires 0 <= c < |fat| =>
      if c == first + count - 1 then EOC
      else if first <= c < first + count then c + 1
      else if previous == Some(c) then first
      else fat[c])
  }

  datatype Allocation = Allocation(volume: Volume, first: Option<nat>)

  /** Take the next `count` clusters; refuse, changing nothing, when fewer are free. */
  function Allocate(v: Volume, previous: Option<nat>, count: nat): Allocation {
    if count > v.free then Allocation(v, None)
    else Allocation(
      v.(fat0 := LinkRun(v.fat0, previous, v.next, count),
         fat1 := LinkRun(v.fat1, previous, v.next, count),
         next := v.next + count,
         free := v.free - count),
      Some(v.next))
  }

  // ---------------------------------------------------------------- chains

  function Last<T>(s: seq<T>): T
    requires |s| > 0
  {
    s[|s| - 1]
  }

  /** The clusters `first`, `first + 1`, ... */
  function ClusterRun(first: nat, count: nat): (s: seq<nat>)
    ensures |s| == count && forall i :: 0 <= i < count ==> s[i] == first + i
  {
    seq(count, i => first + i)
  }

  /** Each cluster links to the next one, which has a larger number; the last one ends the chain. */
  ghost predicate IsChain(fat: seq<nat>, chain: seq<nat>) {
    && |chain| > 0
    && (forall i :: 0 <= i < |chain| ==> 2 <= chain[i] < |fat|)
    && (forall i, j :: 0 <= i < j < |chain| ==> chain[i] < chain[j])
    && (forall i :: 0 <= i < |chain| - 1 ==> fat[chain[i]] == chain[i + 1])
    && fat[Last(chain)] == EOC
  }

  /** Whether some chain holds the cluster. */
  ghost predicate Held(chains: seq<seq<nat>>, c: nat) {
    exists k :: 0 <= k < |chains| && c in chains[k]
  }

  ghost predicate Disjoint(chains: seq<seq<nat>>) {
    forall j, k, c :: 0 <= j < k < |chains| && c in chains[j] ==> c !in chains[k]
  }

  /** The chains account for every cluster handed out, and for nothing else. */
  ghost predicate Chained(v: Volume, chains: seq<seq<nat>>) {
    && Shaped(v)
    && v.fat0 == v.fat1
    && (forall k :: 0 <= k < |chains| ==> IsChain(v.fat0, chains[k]))
    && (forall k, c :: 0 <= k < |chains| && c in chains[k] ==> c < v.next)
    && Disjoint(chains)
    && (forall c :: 2 <= c < v.next ==> Held(chains, c))
    && (forall c :: v.next <= c < |v.fat0| ==> v.fat0[c] == 0)
  }

  // ---------------------------------------------------------------- allocation keeps the chains

  lemma ChainUntouched(fat: seq<nat>, chain: seq<nat>, previous: Option<nat>, first: nat, count: nat)
    requires IsChain(fat, chain) && count > 0
    requires forall c :: c in chain ==> c < first && previous != Some(c)
    ensures IsChain(LinkRun(fat, previous, first, count), chain)
  {
    var fat' := LinkRun(fat, previous, first, count);
    forall i | 0 <= i < |chain|
      ensures fat'[chain[i]] == fat[chain[i]]
    {
      assert chain[i] in chain;
    }
  }

  lemma RunIsChain(fat: seq<nat>, previous: Option<nat>, first: nat, count: nat)
    requires 0 < count && 2 <= first && first + count <= |fat|
    ensures IsChain(LinkRun(fat, previous, first, count), ClusterRun(first, count))
  {
  }

  lemma ExtendedChain(fat: seq<nat>, chain: seq<nat>, first: nat, count: nat)
    requires IsChain(fat, chain) && count > 0 && first + count <= |fat|
    requires forall c :: c in chain ==> c < first
    ensures IsChain(LinkRun(fat, Some(Last(chain)), first, count), chain + ClusterRun(first, count))
  {
    var fat' := LinkRun(fat, Some(Last(chain)), first, count);
    var whole := chain + ClusterRun(first, count);
    forall i | 0 <= i < |chain|
      ensures chain[i] < first && (i < |chain| - 1 ==> fat'[chain[i]] == fat[chain[i]])
    {
      assert chain[i] in chain;
    }
  }

  /** Clusters taken for a new chain. */
  lemma AllocateFresh(v: Volume, chains: seq<seq<nat>>, count: nat)
    requires Chained(v, chains) && 0 < count <= v.free
    ensures Chained(Allocate(v, None, count).volume, chains + [ClusterRun(v.next, count)])
  {
    var v' := Allocate(v, None, count).volume;
    var run := ClusterRun(v.next, count);
    var chains' := chains + [run];
    RunIsChain(v.fat0, None, v.next, count);
    forall k | 0 <= k < |chains|
      ensures IsChain(v'.fat0, chains'[k])
    {
      ChainUntouched(v.fat0, chains[k], None, v.next, count);
    }
    forall c | 2 <= c < v'.next
      ensures Held(chains', c)
    {
      if c < v.next {
        assert Held(chains, c);
        var k :| 0 <= k < |chains| && c in chains[k];
        assert c in chains'[k];
      } else {
        assert run[c - v.next] == c;
        assert c in chains'[|chains|];
      }
    }
  }

  /** Clusters taken to lengthen chain k. */
  lemma AllocateBehind(v: Volume, chains: seq<seq<nat>>, k: nat, count: nat)
    requires Chained(v, chains) && 0 < count <= v.free && k < |chains|
    ensures Chained(Allocate(v, Some(Last(chains[k])), count).volume,
      chains[k := chains[k] + ClusterRun(v.next, count)])
  {
    var previous := Some(Last(chains[k]));
    var v' := Allocate(v, previous, count).volume;
    var run := ClusterRun(v.next, count);
    var chains' := chains[k := chains[k] + run];
    forall j | 0 <= j < |chains|
      ensures IsChain(v'.fat0, chains'[j])
    {
      if j == k {
        ExtendedChain(v.fat0, chains[k], v.next, count);
      } else {
        assert Last(chains[k]) in chains[k];
        ChainUntouched(v.fat0, chains[j], previous, v.next, count);
      }
    }
    forall c | 2 <= c < v'.next
      ensures Held(chains', c)
    {
      HeldByLonger(chains, k, v.next, count, c);
    }
  }

  lemma HeldByLonger(chains: seq<seq<nat>>, k: nat, first: nat, count: nat, c: nat)
    requires k < |chains| && c < first + count && (c < first ==> Held(chains, c))
    ensures Held(chains[k := chains[k] + ClusterRun(first, count)], c)
  {
    var run := ClusterRun(first, count);
    var chains' := chains[k := chains[k] + run];
    if c < first {
      var j :| 0 <= j < |chains| && c in chains[j];
      assert c in chains'[j];
    } else {
      assert run[c - first] == c;
      assert c in chains'[k];
    }
  }

  // ---------------------------------------------------------------- runs of allocations

  /** One call: clusters for a new chain, or more clusters for chain `behind`. */
  datatype Allotment = Allotment(behind: Option<nat>, count: nat)

  /** The chains after a sequence of calls, together with the volume. */
  datatype History = History(volume: Volume, chains: seq<seq<nat>>)

  ghost predicate ValidAllotment(h: History, r: Allotment) {
    r.count > 0 && (r.behind.Some? ==> r.behind.value < |h.chains| && |h.chains[r.behind.value]| > 0)
  }

  ghost function Serve(h: History, r: Allotment): History
    requires ValidAllotment(h, r)
  {
    var previous := if r.behind.Some? then Some(Last(h.chains[r.behind.value])) else None;
    var a := Allocate(h.volume, previous, r.count);
    if a.first.None? then History(a.volume, h.chains)
    else if r.behind.None? then History(a.volume, h.chains + [ClusterRun(a.first.value, r.count)])
    else History(a.volume, h.chains[r.behind.value := h.chains[r.behind.value] + ClusterRun(a.first.value, r.count)])
  }

  ghost predicate ValidAllotments(h: History, rs: seq<Allotment>)
    decreases |rs|
  {
    rs == [] || (ValidAllotment(h, rs[0]) && ValidAllotments(Serve(h, rs[0]), rs[1..]))
  }

  ghost function ServeAll(h: History, rs: seq<Allotment>): History
    requires ValidAllotments(h, rs)
    decreases |rs|
  {
    if rs == [] then h else ServeAll(Serve(h, rs[0]), rs[1..])
  }

  /**
   * Over every run of allocations the chains stay ascending, disjoint and complete, the FATs stay
   * equal, and the number of clusters handed out plus the number of free ones is constant.
   */
  lemma {:induction false} RunKeepsChains(h: History, rs: seq<Allotment>)
    requires Chained(h.volume, h.chains) && ValidAllotments(h, rs)
    ensures var h' := ServeAll(h, rs);
      && Chained(h'.volume, h'.chains)
      && h'.volume.next + h'.volume.free == h.volume.next + h.volume.free
    decreases |rs|
  {
    if rs != [] {
      var r := rs[0];
      if r.count <= h.volume.free {
        if r.behind.Some? {
          AllocateBehind(h.volume, h.chains, r.behind.value, r.count);
        } else {
          AllocateFresh(h.volume, h.chains, r.count);
        }
      }
      RunKeepsChains(Serve(h, r), rs[1..]);
    }
  }

  // ---------------------------------------------------------------- reading a chain

  /**
   * The independent reader: follow the FAT from a cluster to the end-of-chain mark. It gives up
   * on numbers that are not clusters and on chains longer than the FAT.
   */
  function Walk(fat: seq<nat>, c: nat, fuel: nat): Option<seq<nat>>
    decreases fuel
  {
    var cluster := c % 0x1000_0000;
    if cluster >= 0x0FFF_FFF8 then Some([])
    else if fuel == 0 || cluster < 2 || cluster >= |fat| then None
    else
      var rest := Walk(fat, fat[cluster], fuel - 1);
      if rest.None? then None else Some([cluster] + rest.value)
  }

  function ReadChain(fat: seq<nat>, first: nat): Option<seq<nat>> {
    Walk(fat, first, |fat|)
  }

  /** The reader finds exactly the chain, so every chain is finite and ends properly. */
  lemma ReadChainFindsChain(fat: seq<nat>, limit: nat, chain: seq<nat>)
    requires IsChain(fat, chain) && limit <= FAT32_BAD_CLUSTER && limit <= |fat|
    requires forall c :: c in chain ==> c < limit
    ensures ReadChain(fat, chain[0]) == Some(chain)
  {
    AscendingIsShort(chain, |fat|);
    WalkFollowsChain(fat, limit, chain, 0, |fat|);
    assert chain[0..] == chain;
  }

  lemma {:induction false} WalkFollowsChain(fat: seq<nat>, limit: nat, chain: seq<nat>, i: nat, fuel: nat)
    requires IsChain(fat, chain) && limit <= FAT32_BAD_CLUSTER
    requires forall c :: c in chain ==> c < limit
    requires i < |chain| && fuel >= |chain| - i
    ensures Walk(fat, chain[i], fuel) == Some(chain[i..])
    decreases |chain| - i
  {
    assert chain[i] in chain;
    if i == |chain| - 1 {
      assert fat[chain[i]] == EOC;
      assert Walk(fat, EOC, fuel - 1) == Some([]);
    } else {
      WalkFollowsChain(fat, limit, chain, i + 1, fuel - 1);
    }
    assert chain[i..] == [chain[i]] + chain[i + 1..];
  }

  /** An ascending chain below `limit` has fewer than `limit` clusters. */
  lemma AscendingIsShort(chain: seq<nat>, limit: nat)
    requires forall i, j :: 0 <= i < j < |chain| ==> chain[i] < chain[j]
    requires forall i :: 0 <= i < |chain| ==> chain[i] < limit
    ensures |chain| <= limit
  {
    if |chain| > 0 {
      AscendingGrows(chain, |chain| - 1);
    }
  }

  lemma {:induction false} AscendingGrows(chain: seq<nat>, i: nat)
    requires forall j, k :: 0 <= j < k < |chain| ==> chain[j] < chain[k]
    requires i < |chain|
    ensures chain[i] >= i
  {
    if i > 0 {
      AscendingGrows(chain, i - 1);
    }
  }

  // ---------------------------------------------------------------- the free-cluster record

  /** The number of zero FAT entries from `from` on. */
  function CountFree(fat: seq<nat>, from: nat, to: nat): nat
    requires from <= to <= |fat|
    decreases |fat| - from
  {
    if from == to then 0 else (if fat[from] == 0 then 1 else 0) + CountFree(fat, from + 1, to)
  }

  /**
   * The values written at close are exact: the free count is the number of zero entries among the
   * clusters, and while space remains the next free cluster is the smallest one.
   */
  lemma FreeRecordIsExact(v: Volume, chains: seq<seq<nat>>)
    requires Chained(v, chains)
    ensures v.free == CountFree(v.fat0, 2, |v.data|)
    ensures forall c :: 2 <= c < v.next ==> v.fat0[c] != 0
    ensures v.free > 0 ==> v.fat0[v.next] == 0
  {
    forall c | 2 <= c < v.next
      ensures v.fat0[c] != 0
    {
      assert Held(chains, c);
      var k :| 0 <= k < |chains| && c in chains[k];
      var i :| 0 <= i < |chains[k]| && chains[k][i] == c;
      if i < |chains[k]| - 1 {
        assert v.fat0[c] == chains[k][i + 1];
      }
    }
    CountFreeSplits(v.fat0, 2, v.next, |v.data|);
  }

  lemma {:induction false} CountFreeSplits(fat: seq<nat>, from: nat, split: nat, to: nat)
    requires from <= split <= to <= |fat|
    requires forall c :: from <= c < split ==> fat[c] != 0
    requires forall c :: split <= c < to ==> fat[c] == 0
    ensures CountFree(fat, from, to) == to - split
    decreases |fat| - from
  {
    if from < to {
      CountFreeSplits(fat, from + 1, if from < split then split else from + 1, to);
    }
  }
}
