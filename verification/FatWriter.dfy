/**
 * Writing to a volume: directory slots that spill over cluster boundaries, and file contents laid
 * out along a chain. Each operation is specified as a function on the volume, and proved to
 * append to a directory, or to store a file, without disturbing anything already written.
 */
module FatWriter {
  import opened Bytes
  import opened Options
  import opened FatClusters
  import opened FatNames

  // ---------------------------------------------------------------- slots in clusters

  /** A position in the directory tree: a slot of a cluster. */
  datatype SlotRef = SlotRef(cluster: nat, index: nat)

  /** Where a directory is declared, the cluster it is filling, and the next slot in it. */
  datatype RawDirectory = RawDirectory(self: Option<SlotRef>, cluster: nat, entryIndex: nat)

  /** The number of slots in a cluster. */
  function MaxEntries(v: Volume): nat {
    v.clusterSize / 32
  }

  /** Clusters hold a whole number of slots, and at least two. */
  predicate SlotSized(v: Volume) {
    v.clusterSize % 32 == 0 && v.clusterSize >= 64
  }

  predicate IsCluster(v: Volume, c: nat) {
    2 <= c < |v.data|
  }

  function SlotsOf(cluster: seq<byte>): (slots: seq<Slot>)
    ensures |slots| == |cluster| / 32
  {
    seq(|cluster| / 32, i requires 0 <= i < |cluster| / 32 => cluster[32 * i..32 * i + 32])
  }

  lemma SpliceSlot(cluster: seq<byte>, i: nat, slot: Slot)
    requires 32 * i + 32 <= |cluster|
    ensures SlotsOf(Splice(cluster, 32 * i, slot)) == SlotsOf(cluster)[i := slot]
  {
    var s := Splice(cluster, 32 * i, slot);
    forall j | 0 <= j < |cluster| / 32
      ensures SlotsOf(s)[j] == SlotsOf(cluster)[i := slot][j]
    {
      if j == i {
        assert s[32 * j..32 * j + 32] == slot;
      } else {
        SpliceElsewhere(cluster, 32 * i, slot, 32 * j);
      }
    }
  }

  lemma SpliceElsewhere(cluster: seq<byte>, at: nat, slot: Slot, from: nat)
    requires at + 32 <= |cluster| && from + 32 <= |cluster|
    requires from + 32 <= at || at + 32 <= from
    ensures Splice(cluster, at, slot)[from..from + 32] == cluster[from..from + 32]
  {
  }

  function SlotAt(v: Volume, c: nat, i: nat): Slot
    requires Shaped(v) && SlotSized(v) && IsCluster(v, c) && i < MaxEntries(v)
  {
    SlotsOf(v.data[c])[i]
  }

  function PutSlot(v: Volume, c: nat, i: nat, slot: Slot): (v': Volume)
    requires Shaped(v) && SlotSized(v) && IsCluster(v, c) && i < MaxEntries(v)
    ensures Shaped(v')
  {
    v.(data := v.data[c := Splice(v.data[c], 32 * i, slot)])
  }

  // ---------------------------------------------------------------- appending to a directory

  datatype Written = Written(volume: Volume, directory: RawDirectory, ok: bool)

  lemma AllocateShaped(v: Volume, previous: Option<nat>, count: nat)
    requires Shaped(v)
    ensures Shaped(Allocate(v, previous, count).volume)
  {
  }

  /** Append slots one by one; a full cluster is followed by a newly allocated one. */
  function WriteSlots(v: Volume, d: RawDirectory, slots: seq<Slot>): (w: Written)
    requires Shaped(v) && SlotSized(v) && IsCluster(v, d.cluster)
    ensures Shaped(w.volume) && IsCluster(w.volume, w.directory.cluster)
    ensures w.volume.clusterSize == v.clusterSize && |w.volume.data| == |v.data|
    ensures w.ok && slots != [] ==> 0 < w.directory.entryIndex <= MaxEntries(v)
    decreases |slots|, if d.entryIndex < MaxEntries(v) then 0 else 1
  {
    if slots == [] then Written(v, d, true)
    else if d.entryIndex < MaxEntries(v) then
      WriteSlots(PutSlot(v, d.cluster, d.entryIndex, slots[0]), d.(entryIndex := d.entryIndex + 1), slots[1..])
    else
      var a := Allocate(v, Some(d.cluster), 1);
      AllocateShaped(v, Some(d.cluster), 1);
      if a.first.None? then Written(v, d, false)
      else WriteSlots(a.volume, d.(cluster := a.first.value, entryIndex := 0), slots)
  }

  lemma WriteSlotsNone(v: Volume, d: RawDirectory)
    requires Shaped(v) && SlotSized(v) && IsCluster(v, d.cluster)
    ensures WriteSlots(v, d, []) == Written(v, d, true)
  {
  }

  /** One slot that still fits in the cluster. */
  lemma WriteSlotsStep(v: Volume, d: RawDirectory, slots: seq<Slot>)
    requires Shaped(v) && SlotSized(v) && IsCluster(v, d.cluster) && d.entryIndex < MaxEntries(v) && slots != []
    ensures 32 * d.entryIndex + 32 <= v.clusterSize == |v.data[d.cluster]|
    ensures var v' := v.(data := v.data[d.cluster := Splice(v.data[d.cluster], 32 * d.entryIndex, slots[0])]);
      && Shaped(v')
      && WriteSlots(v, d, slots) == WriteSlots(v', d.(entryIndex := d.entryIndex + 1), slots[1..])
  {
  }

  /** A full cluster: the next slots go to a new one, if there is one. */
  lemma WriteSlotsNext(v: Volume, d: RawDirectory, slots: seq<Slot>)
    requires Shaped(v) && SlotSized(v) && IsCluster(v, d.cluster) && d.entryIndex >= MaxEntries(v) && slots != []
    ensures var a := Allocate(v, Some(d.cluster), 1);
      && d.cluster < |v.fat0| && a.volume.clusterSize == v.clusterSize && |a.volume.data| == |v.data|
      && Shaped(a.volume)
      && (a.first.None? ==> a.volume == v && WriteSlots(v, d, slots) == Written(v, d, false))
      && (a.first.Some? ==> IsCluster(a.volume, a.first.value))
      && (a.first.Some? ==>
        WriteSlots(v, d, slots) == WriteSlots(a.volume, d.(cluster := a.first.value, entryIndex := 0), slots))
  {
    AllocateShaped(v, Some(d.cluster), 1);
  }

  /** All slots of a chain of clusters. */
  function ChainSlots(data: seq<seq<byte>>, chain: seq<nat>): seq<Slot>
    requires forall i :: 0 <= i < |chain| ==> chain[i] < |data|
  {
    if chain == [] then [] else SlotsOf(data[chain[0]]) + ChainSlots(data, chain[1..])
  }

  lemma {:induction false} ChainSlotsAppend(data: seq<seq<byte>>, a: seq<nat>, b: seq<nat>)
    requires forall i :: 0 <= i < |a| ==> a[i] < |data|
    requires forall i :: 0 <= i < |b| ==> b[i] < |data|
    ensures ChainSlots(data, a + b) == ChainSlots(data, a) + ChainSlots(data, b)
    decreases |a|
  {
    if a == [] {
      assert a + b == b;
    } else {
      assert (a + b)[1..] == a[1..] + b;
      ChainSlotsAppend(data, a[1..], b);
    }
  }

  lemma {:induction false} ChainSlotsFrame(data: seq<seq<byte>>, data': seq<seq<byte>>, chain: seq<nat>)
    requires |data| == |data'|
    requires forall i :: 0 <= i < |chain| ==> chain[i] < |data| && data[chain[i]] == data'[chain[i]]
    ensures ChainSlots(data, chain) == ChainSlots(data', chain)
    decreases |chain|
  {
    if chain != [] {
      ChainSlotsFrame(data, data', chain[1..]);
    }
  }

  lemma ChainSlotsOne(data: seq<seq<byte>>, c: nat)
    requires c < |data|
    ensures ChainSlots(data, [c]) == SlotsOf(data[c])
  {
    assert [c][1..] == [];
  }

  ghost predicate InData(v: Volume, chain: seq<nat>) {
    forall i :: 0 <= i < |chain| ==> IsCluster(v, chain[i])
  }

  function Front<T>(s: seq<T>): seq<T>
    requires |s| > 0
  {
    s[..|s| - 1]
  }

  /**
   * The directory whose clusters are `chain` holds exactly the slots `content`: they fill the
   * chain up to the directory's position, and nothing but zero slots follows.
   */
  ghost predicate DirectoryHolds(v: Volume, chain: seq<nat>, d: RawDirectory, content: seq<Slot>) {
    && Shaped(v) && SlotSized(v) && InData(v, chain)
    && |chain| > 0 && d.cluster == Last(chain) && d.entryIndex <= MaxEntries(v)
    && content == ChainSlots(v.data, Front(chain)) + SlotsOf(v.data[d.cluster])[..d.entryIndex]
    && forall i :: d.entryIndex <= i < MaxEntries(v) ==> SlotAt(v, d.cluster, i)[0] == 0
  }

  /** Clusters not handed out yet are still zero. */
  ghost predicate FreshZero(v: Volume) {
    forall c :: v.next <= c < |v.data| ==> v.data[c] == Zeros(v.clusterSize)
  }

  /** Slots in use (their first byte is not zero) keep their content. */
  ghost predicate KeepsSlots(v: Volume, v': Volume)
    requires Shaped(v) && SlotSized(v) && Shaped(v') && SlotSized(v')
  {
    && v'.clusterSize == v.clusterSize && |v'.data| == |v.data|
    && forall c: nat, i: nat :: IsCluster(v, c) && i < MaxEntries(v) && SlotAt(v, c, i)[0] != 0 ==>
      SlotAt(v', c, i) == SlotAt(v, c, i)
  }

  /** Clusters that were handed out before, outside the given chain, keep their content. */
  ghost predicate KeepsOthers(v: Volume, v': Volume, chain: seq<nat>) {
    && |v'.data| == |v.data|
    && forall c :: 2 <= c < v.next && c < |v.data| && c !in chain ==> v'.data[c] == v.data[c]
  }

  lemma ZeroCluster(size: nat, i: nat)
    requires i < size / 32
    ensures SlotsOf(Zeros(size))[i][0] == 0
  {
  }

  /** Writing one slot at the directory's position appends it. */
  lemma PutSlotAppends(v: Volume, chain: seq<nat>, d: RawDirectory, content: seq<Slot>, slot: Slot)
    requires DirectoryHolds(v, chain, d, content) && d.entryIndex < MaxEntries(v)
    requires forall i, j :: 0 <= i < j < |chain| ==> chain[i] < chain[j]
    ensures var v' := PutSlot(v, d.cluster, d.entryIndex, slot);
      && DirectoryHolds(v', chain, d.(entryIndex := d.entryIndex + 1), content + [slot])
      && KeepsSlots(v, v')
  {
    var v' := PutSlot(v, d.cluster, d.entryIndex, slot);
    SpliceSlot(v.data[d.cluster], d.entryIndex, slot);
    ChainSlotsFrame(v.data, v'.data, Front(chain));
    var before, after := SlotsOf(v.data[d.cluster]), SlotsOf(v'.data[d.cluster]);
    assert after[..d.entryIndex + 1] == before[..d.entryIndex] + [slot];
    var front := ChainSlots(v.data, Front(chain));
    assert content + [slot] == front + after[..d.entryIndex + 1];
    assert InData(v', chain);
    forall i | d.entryIndex + 1 <= i < MaxEntries(v)
      ensures SlotAt(v', d.cluster, i)[0] == 0
    {
      assert SlotAt(v', d.cluster, i) == SlotAt(v, d.cluster, i);
    }
  }

  /** Moving on to a new, zero cluster leaves the content as it is. */
  lemma NextClusterHolds(v: Volume, chain: seq<nat>, d: RawDirectory, content: seq<Slot>)
    requires DirectoryHolds(v, chain, d, content) && d.entryIndex == MaxEntries(v)
    requires FreshZero(v) && v.free > 0
    ensures DirectoryHolds(Allocate(v, Some(d.cluster), 1).volume, chain + [v.next],
      d.(cluster := v.next, entryIndex := 0), content)
  {
    hide ChainSlots, SlotsOf;
    var chain' := chain + [v.next];
    assert chain == Front(chain) + [Last(chain)];
    ChainSlotsAppend(v.data, Front(chain), [Last(chain)]);
    ChainSlotsOne(v.data, Last(chain));
    assert Front(chain') == chain;
    var slots := SlotsOf(v.data[d.cluster]);
    assert slots[..d.entryIndex] == slots;
    forall i | 0 <= i < MaxEntries(v)
      ensures SlotsOf(v.data[v.next])[i][0] == 0
    {
      ZeroCluster(v.clusterSize, i);
    }
  }

  lemma KeepsSlotsTransitive(v: Volume, v1: Volume, v2: Volume)
    requires Shaped(v) && SlotSized(v) && Shaped(v1) && SlotSized(v1) && Shaped(v2) && SlotSized(v2)
    requires KeepsSlots(v, v1) && KeepsSlots(v1, v2)
    ensures KeepsSlots(v, v2)
  {
  }

  lemma KeepsOthersTransitive(v: Volume, v1: Volume, v2: Volume, chain: seq<nat>, chain1: seq<nat>)
    requires KeepsOthers(v, v1, chain) && KeepsOthers(v1, v2, chain1) && v.next <= v1.next
    requires forall c :: c in chain1 ==> c in chain || c >= v.next
    ensures KeepsOthers(v, v2, chain)
  {
  }

  /** The slots a directory can take: the rest of its cluster and all free clusters. */
  function Room(v: Volume, d: RawDirectory): int {
    MaxEntries(v) - d.entryIndex + MaxEntries(v) * v.free
  }

  /** How many of n slots a directory takes. */
  function Fits(v: Volume, d: RawDirectory, n: nat): (m: nat)
    ensures m <= n
  {
    if n <= Room(v, d) then n else if Room(v, d) < 0 then 0 else Room(v, d)
  }

  lemma PerCluster(max: nat, clusters: nat)
    ensures clusters > 0 ==> max * clusters == max + max * (clusters - 1)
    ensures max * clusters >= 0
  {
  }

  /** The room after one slot was written, after a new cluster was taken, and when none is left. */
  lemma RoomStep(v: Volume, d: RawDirectory, n: nat)
    requires d.entryIndex <= MaxEntries(v)
    ensures Fits(v, d, 0) == 0
    ensures d.entryIndex == MaxEntries(v) && v.free == 0 ==> Fits(v, d, n) == 0
    ensures d.entryIndex < MaxEntries(v) && n > 0 ==>
      forall data :: Fits(v, d, n) == 1 + Fits(v.(data := data), d.(entryIndex := d.entryIndex + 1), n - 1)
    ensures d.entryIndex == MaxEntries(v) && v.free > 0 ==>
      var v1 := Allocate(v, Some(d.cluster), 1).volume;
      Fits(v, d, n) == Fits(v1, d.(cluster := v.next, entryIndex := 0), n)
  {
    PerCluster(MaxEntries(v), v.free);
  }

  /** The effect of appending slots, as `WriteSlotsAppends` states it. */
  ghost predicate Appended(v: Volume, chains: seq<seq<nat>>, k: nat, d: RawDirectory, content: seq<Slot>,
    slots: seq<Slot>, w: Written, chains': seq<seq<nat>>, written: nat)
    requires k < |chains|
  {
    && Chained(w.volume, chains') && FreshZero(w.volume)
    && |chains'| == |chains| && chains' == chains[k := chains'[k]] && chains[k] <= chains'[k]
    && written == Fits(v, d, |slots|) && (w.ok <==> written == |slots|)
    && DirectoryHolds(w.volume, chains'[k], w.directory, content + slots[..written])
    && (!w.ok ==> w.volume.free == 0)
    && w.volume.free <= v.free && w.volume.next >= v.next
    && w.directory.self == d.self
    && Shaped(v) && SlotSized(v) && KeepsSlots(v, w.volume)
    && KeepsOthers(v, w.volume, chains[k])
  }

  /**
   * Appending slots to the directory on chain k: on success all of them are there, on failure a
   * proper prefix, the directory's clusters are full and no cluster is free. Everything else on
   * the volume is as before.
   */
  lemma {:induction false} WriteSlotsAppends(v: Volume, chains: seq<seq<nat>>, k: nat, d: RawDirectory,
    content: seq<Slot>, slots: seq<Slot>)
    returns (chains': seq<seq<nat>>, written: nat)
    requires Chained(v, chains) && FreshZero(v) && k < |chains|
    requires DirectoryHolds(v, chains[k], d, content)
    ensures Appended(v, chains, k, d, content, slots, WriteSlots(v, d, slots), chains', written)
    decreases |slots|, if d.entryIndex < MaxEntries(v) then 0 else 1, 1
  {
    RoomStep(v, d, |slots|);
    if slots == [] {
      chains', written := chains, 0;
      assert content + slots[..0] == content;
    } else if d.entryIndex < MaxEntries(v) {
      chains', written := WriteSlotHere(v, chains, k, d, content, slots);
    } else if v.free == 0 {
      chains', written := chains, 0;
      assert content + slots[..0] == content;
    } else {
      chains', written := WriteInNextCluster(v, chains, k, d, content, slots);
    }
  }

  lemma {:induction false} WriteSlotHere(v: Volume, chains: seq<seq<nat>>, k: nat, d: RawDirectory, content: seq<Slot>,
    slots: seq<Slot>)
    returns (chains': seq<seq<nat>>, written: nat)
    requires Chained(v, chains) && FreshZero(v) && k < |chains|
    requires DirectoryHolds(v, chains[k], d, content) && slots != [] && d.entryIndex < MaxEntries(v)
    ensures Appended(v, chains, k, d, content, slots, WriteSlots(v, d, slots), chains', written)
    decreases |slots|, 0, 0
  {
    hide Chained, DirectoryHolds, FreshZero, KeepsSlots, KeepsOthers, WriteSlots, Fits, Splice, Shaped;
    var v1, d1 := SlotPut(v, chains, k, d, content, slots);
    var w := WriteSlots(v1, d1, slots[1..]);
    RoomStep(v, d, |slots|);
    var rest;
    chains', rest := WriteSlotsAppends(v1, chains, k, d1, content + [slots[0]], slots[1..]);
    written := rest + 1;
    assert content + [slots[0]] + slots[1..][..rest] == content + slots[..written];
    KeepsSlotsTransitive(v, v1, w.volume);
    KeepsOthersTransitive(v, v1, w.volume, chains[k], chains[k]);
  }

  /** One slot is written, and the others follow. */
  lemma SlotPut(v: Volume, chains: seq<seq<nat>>, k: nat, d: RawDirectory, content: seq<Slot>, slots: seq<Slot>)
    returns (v1: Volume, d1: RawDirectory)
    requires Chained(v, chains) && FreshZero(v) && k < |chains|
    requires DirectoryHolds(v, chains[k], d, content) && slots != [] && d.entryIndex < MaxEntries(v)
    ensures v1 == v.(data := v1.data) && |v1.data| == |v.data| && d1 == d.(entryIndex := d.entryIndex + 1)
    ensures Shaped(v) && Shaped(v1) && SlotSized(v) && IsCluster(v, d.cluster)
    ensures WriteSlots(v, d, slots) == WriteSlots(v1, d1, slots[1..])
    ensures DirectoryHolds(v1, chains[k], d1, content + [slots[0]]) && KeepsSlots(v, v1)
    ensures Chained(v1, chains) && FreshZero(v1) && KeepsOthers(v, v1, chains[k])
  {
    hide FreshZero, KeepsSlots, KeepsOthers, WriteSlots, ChainSlots, Splice;
    v1, d1 := PutSlot(v, d.cluster, d.entryIndex, slots[0]), d.(entryIndex := d.entryIndex + 1);
    PutSlotAppends(v, chains[k], d, content, slots[0]);
    PutSlotKeepsChains(v, chains, k, d.entryIndex, slots[0]);
    WriteSlotsStep(v, d, slots);
  }

  lemma {:induction false} WriteInNextCluster(v: Volume, chains: seq<seq<nat>>, k: nat, d: RawDirectory,
    content: seq<Slot>, slots: seq<Slot>)
    returns (chains': seq<seq<nat>>, written: nat)
    requires Chained(v, chains) && FreshZero(v) && k < |chains| && v.free > 0
    requires DirectoryHolds(v, chains[k], d, content) && slots != [] && d.entryIndex == MaxEntries(v)
    ensures Appended(v, chains, k, d, content, slots, WriteSlots(v, d, slots), chains', written)
    decreases |slots|, 1, 0
  {
    hide Chained, DirectoryHolds, FreshZero, KeepsSlots, KeepsOthers, Allocate, WriteSlots, Fits;
    var v1, d1 := Allocate(v, Some(d.cluster), 1).volume, d.(cluster := v.next, entryIndex := 0);
    var chain1 := chains[k] + [v.next];
    var chains1 := chains[k := chain1];
    NextCluster(v, chains, k, d, content, slots);
    RoomStep(v, d, |slots|);
    var w := WriteSlots(v1, d1, slots);
    chains', written := WriteSlotsAppends(v1, chains1, k, d1, content, slots);
    assert chains' == chains[k := chains'[k]];
    assert chains[k] <= chain1 <= chains'[k];
    KeepsSlotsTransitive(v, v1, w.volume);
    KeepsOthersTransitive(v, v1, w.volume, chains[k], chain1);
  }

  /** The volume after a full directory cluster was followed by a new one. */
  lemma NextCluster(v: Volume, chains: seq<seq<nat>>, k: nat, d: RawDirectory, content: seq<Slot>, slots: seq<Slot>)
    requires Chained(v, chains) && FreshZero(v) && k < |chains| && v.free > 0
    requires DirectoryHolds(v, chains[k], d, content) && slots != [] && d.entryIndex == MaxEntries(v)
    ensures var v1, d1 := Allocate(v, Some(d.cluster), 1).volume, d.(cluster := v.next, entryIndex := 0);
      var chain1 := chains[k] + [v.next];
      && Shaped(v) && SlotSized(v) && IsCluster(v, d.cluster)
      && Chained(v1, chains[k := chain1]) && FreshZero(v1) && Shaped(v1) && SlotSized(v1) && IsCluster(v1, d1.cluster)
      && DirectoryHolds(v1, chain1, d1, content)
      && WriteSlots(v, d, slots) == WriteSlots(v1, d1, slots)
      && KeepsSlots(v, v1) && KeepsOthers(v, v1, chains[k]) && v1.next == v.next + 1 && v1.free == v.free - 1
      && v1.clusterSize == v.clusterSize
  {
    NextClusterHolds(v, chains[k], d, content);
    AllocateBehind(v, chains, k, 1);
    assert ClusterRun(v.next, 1) == [v.next];
  }

  lemma PutSlotKeepsChains(v: Volume, chains: seq<seq<nat>>, k: nat, i: nat, slot: Slot)
    requires Chained(v, chains) && FreshZero(v) && SlotSized(v) && k < |chains| && InData(v, chains[k])
    requires i < MaxEntries(v)
    ensures var v' := PutSlot(v, Last(chains[k]), i, slot);
      Chained(v', chains) && FreshZero(v') && KeepsOthers(v, v', chains[k])
  {
    assert Last(chains[k]) in chains[k];
  }

  // ---------------------------------------------------------------- when appending succeeds

  /** Slots can be appended exactly when they fit in the rest of the cluster and the free clusters. */
  lemma {:induction false} WriteSlotsSucceeds(v: Volume, d: RawDirectory, slots: seq<Slot>)
    requires Shaped(v) && SlotSized(v) && IsCluster(v, d.cluster) && d.entryIndex <= MaxEntries(v)
    ensures WriteSlots(v, d, slots).ok <==> |slots| <= Room(v, d)
    decreases |slots|, if d.entryIndex < MaxEntries(v) then 0 else 1
  {
    PerCluster(MaxEntries(v), v.free);
    if slots != [] {
      if d.entryIndex < MaxEntries(v) {
        WriteSlotsSucceeds(PutSlot(v, d.cluster, d.entryIndex, slots[0]), d.(entryIndex := d.entryIndex + 1),
          slots[1..]);
      } else if v.free > 0 {
        AllocateShaped(v, Some(d.cluster), 1);
        WriteSlotsSucceeds(Allocate(v, Some(d.cluster), 1).volume, d.(cluster := v.next, entryIndex := 0), slots);
      }
    }
  }

  // ---------------------------------------------------------------- file contents

  /** The number of clusters a file of `size` bytes needs. */
  function ClusterCount(size: nat, clusterSize: nat): nat
    requires clusterSize > 0
  {
    size / clusterSize + (if size % clusterSize != 0 then 1 else 0)
  }

  lemma ClusterCountStep(size: nat, clusterSize: nat)
    requires clusterSize > 0
    ensures size == 0 <==> ClusterCount(size, clusterSize) == 0
    ensures 0 < size <= clusterSize ==> ClusterCount(size, clusterSize) == 1
    ensures size >= clusterSize ==> ClusterCount(size, clusterSize) == 1 + ClusterCount(size - clusterSize, clusterSize)
  {
    if size >= clusterSize {
      DivideStep(size, clusterSize);
    } else {
      SmallDivision(size, clusterSize);
    }
  }

  lemma DivideStep(x: nat, d: nat)
    requires 0 < d <= x
    ensures x / d == 1 + (x - d) / d && x % d == (x - d) % d
  {
    var q, r := (x - d) / d, (x - d) % d;
    assert x == d * (q + 1) + r;
    DivisionUnique(x, d, q + 1, r);
  }

  lemma SmallDivision(x: nat, d: nat)
    requires x < d
    ensures x / d == 0 && x % d == x
  {
  }

  lemma DivisionUnique(x: nat, d: nat, q: nat, r: nat)
    requires d > 0 && r < d && x == d * q + r
    ensures x / d == q && x % d == r
  {
    var q', r' := x / d, x % d;
    var e := q' - q;
    Difference(d, q', q);
    if e >= 1 {
      AtLeast(d, e);
    } else if e <= -1 {
      AtLeast(d, -e);
      Difference(d, 0, e);
    }
  }

  lemma Difference(d: nat, a: int, b: int)
    ensures d * (a - b) == d * a - d * b
  {
  }

  lemma AtLeast(d: nat, e: int)
    requires e >= 1
    ensures d * e >= d
  {
  }

  /** Lay bytes out in consecutive clusters from c on; the rest of the last cluster stays. */
  function StoreRun(data: seq<seq<byte>>, c: nat, bytes: seq<byte>, clusterSize: nat): (data': seq<seq<byte>>)
    requires clusterSize > 0 && c + ClusterCount(|bytes|, clusterSize) <= |data|
    requires forall i :: c <= i < c + ClusterCount(|bytes|, clusterSize) ==> |data[i]| == clusterSize
    ensures |data'| == |data|
    decreases |bytes|
  {
    if bytes == [] then data
    else
      ClusterCountStep(|bytes|, clusterSize);
      if |bytes| <= clusterSize then data[c := Splice(data[c], 0, bytes)]
      else StoreRun(data[c := bytes[..clusterSize]], c + 1, bytes[clusterSize..], clusterSize)
  }

  /** The concatenated contents of a chain. */
  function ChainBytes(data: seq<seq<byte>>, chain: seq<nat>): seq<byte>
    requires forall i :: 0 <= i < |chain| ==> chain[i] < |data|
  {
    if chain == [] then [] else data[chain[0]] + ChainBytes(data, chain[1..])
  }

  lemma {:induction false} ChainBytesFrame(data: seq<seq<byte>>, data': seq<seq<byte>>, chain: seq<nat>)
    requires |data| == |data'|
    requires forall i :: 0 <= i < |chain| ==> chain[i] < |data| && data[chain[i]] == data'[chain[i]]
    ensures ChainBytes(data, chain) == ChainBytes(data', chain)
    decreases |chain|
  {
    if chain != [] {
      ChainBytesFrame(data, data', chain[1..]);
    }
  }

  /** What was stored can be read back from the run, and no other cluster changes. */
  lemma {:induction false} StoreRunHolds(data: seq<seq<byte>>, c: nat, bytes: seq<byte>, clusterSize: nat)
    requires clusterSize > 0 && c + ClusterCount(|bytes|, clusterSize) <= |data|
    requires forall i :: c <= i < c + ClusterCount(|bytes|, clusterSize) ==> |data[i]| == clusterSize
    ensures var n, data' := ClusterCount(|bytes|, clusterSize), StoreRun(data, c, bytes, clusterSize);
      && (forall i :: 0 <= i < |data| && !(c <= i < c + n) ==> data'[i] == data[i])
      && (forall i :: c <= i < c + n ==> |data'[i]| == clusterSize)
      && bytes <= ChainBytes(data', ClusterRun(c, n))
    decreases |bytes|
  {
    ClusterCountStep(|bytes|, clusterSize);
    if bytes == [] {
    } else if |bytes| <= clusterSize {
      assert ClusterRun(c, 1)[1..] == [];
    } else {
      var n := ClusterCount(|bytes|, clusterSize);
      StoreRunHolds(data[c := bytes[..clusterSize]], c + 1, bytes[clusterSize..], clusterSize);
      assert ClusterRun(c, n)[1..] == ClusterRun(c + 1, n - 1);
      assert bytes == bytes[..clusterSize] + bytes[clusterSize..];
    }
  }

  datatype Stored = Stored(volume: Volume, first: Option<nat>)

  /** Allocate clusters for a file and store its bytes; refuse files of 4 GiB - 1 or more. */
  function StoreFile(v: Volume, bytes: seq<byte>): Stored
    requires Shaped(v) && v.clusterSize > 0
  {
    if |bytes| >= 0xFFFF_FFFF then Stored(v, None)
    else
      var a := Allocate(v, None, ClusterCount(|bytes|, v.clusterSize));
      AllocateShaped(v, None, ClusterCount(|bytes|, v.clusterSize));
      if a.first.None? then Stored(a.volume, None)
      else Stored(a.volume.(data := StoreRun(v.data, v.next, bytes, v.clusterSize)), a.first)
  }

  lemma {:induction false} StoreRunSizes(data: seq<seq<byte>>, c: nat, bytes: seq<byte>, clusterSize: nat)
    requires clusterSize > 0 && c + ClusterCount(|bytes|, clusterSize) <= |data| && c >= 2
    requires forall i :: 2 <= i < |data| ==> |data[i]| == clusterSize
    ensures var data' := StoreRun(data, c, bytes, clusterSize);
      forall i :: 2 <= i < |data| ==> |data'[i]| == clusterSize
  {
    StoreRunHolds(data, c, bytes, clusterSize);
  }

  lemma StoreFileShaped(v: Volume, bytes: seq<byte>)
    requires Shaped(v) && v.clusterSize > 0
    ensures var v' := StoreFile(v, bytes).volume;
      Shaped(v') && v'.clusterSize == v.clusterSize && |v'.data| == |v.data|
  {
    var count := ClusterCount(|bytes|, v.clusterSize);
    if count <= v.free {
      StoreRunSizes(v.data, v.next, bytes, v.clusterSize);
      assert |bytes| < 0xFFFF_FFFF ==>
        StoreFile(v, bytes).volume.data == StoreRun(v.data, v.next, bytes, v.clusterSize);
    }
  }

  /** A stored file is on a chain of its own, and everything else on the volume is as before. */
  lemma StoreFileHolds(v: Volume, chains: seq<seq<nat>>, bytes: seq<byte>)
    requires Chained(v, chains) && FreshZero(v) && SlotSized(v) && bytes != []
    requires StoreFile(v, bytes).first.Some?
    ensures var s := StoreFile(v, bytes);
      var chain := ClusterRun(v.next, ClusterCount(|bytes|, v.clusterSize));
      && |chain| > 0 && s.first.value == chain[0]
      && Chained(s.volume, chains + [chain]) && FreshZero(s.volume)
      && InData(s.volume, chain) && bytes <= ChainBytes(s.volume.data, chain)
      && KeepsSlots(v, s.volume) && KeepsOthers(v, s.volume, chain)
  {
    var n, s := ClusterCount(|bytes|, v.clusterSize), StoreFile(v, bytes);
    ClusterCountStep(|bytes|, v.clusterSize);
    StoreRunHolds(v.data, v.next, bytes, v.clusterSize);
    AllocateFresh(v, chains, n);
    ChainsIgnoreData(Allocate(v, None, n).volume, chains + [ClusterRun(v.next, n)], s.volume.data);
    forall c: nat, i: nat | IsCluster(v, c) && i < MaxEntries(v) && SlotAt(v, c, i)[0] != 0
      ensures SlotAt(s.volume, c, i) == SlotAt(v, c, i)
    {
      if c >= v.next {
        ZeroCluster(v.clusterSize, i);
        assert false;
      }
    }
  }

  /** The chains do not depend on what the clusters hold. */
  lemma ChainsIgnoreData(v: Volume, chains: seq<seq<nat>>, data: seq<seq<byte>>)
    requires Chained(v, chains)
    requires |data| == |v.data| && forall c :: 2 <= c < |data| ==> |data[c]| == v.clusterSize
    ensures Chained(v.(data := data), chains)
  {
  }
}
