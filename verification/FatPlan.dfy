/**
 * Whether a list of operations will fit, worked out before anything is written: from the sizes of
 * the files, the lengths of the names and the number of clusters alone.
 */
module FatPlan {
  import opened Bytes
  import opened Options
  import opened FatClusters
  import opened FatNames
  import opened FatWriter
  import opened FatFilesystem
  import opened FatLog
  import opened FatInvariant
  import opened FatRefinement
  import opened FatCapacity
  import opened FatRuns

  /** The number of slots in each directory, and the clusters that directories and files take. */
  datatype Plan = Plan(slots: map<Path, nat>, taken: nat)

  /** An empty volume: the root directory with its label. */
  const EMPTY_PLAN := Plan(map[ROOT := 1], 1)

  /** The clusters a directory with n slots takes. */
  function ClustersFor(max: nat, n: nat): nat
    requires max > 0
  {
    (n + max - 1) / max
  }

  /** One more object; nothing when its parent is no directory, its name too long or its content too large. */
  function PlanStep(clusterSize: nat, plan: Plan, op: Op): Option<Plan>
    requires clusterSize >= 64
  {
    if op.parent !in plan.slots || |op.name| > 255 || (op.MakeFile? && |op.content| >= 0xFFFF_FFFF) then None
    else
      var max, n := clusterSize / 32, plan.slots[op.parent];
      var n' := n + SlotCount(op.name);
      var slots := plan.slots[op.parent := n'];
      ClustersGrow(max, n, n');
      Some(Plan(if op.MakeDirectory? then slots[op.parent + [op.name] := 2] else slots,
        plan.taken + OwnClusters(clusterSize, op) + ClustersFor(max, n') - ClustersFor(max, n)))
  }

  /** All objects of a list. */
  function PlanOf(clusterSize: nat, plan: Plan, ops: seq<Op>): Option<Plan>
    requires clusterSize >= 64
    decreases |ops|
  {
    if ops == [] then Some(plan)
    else
      var p := PlanStep(clusterSize, plan, ops[0]);
      if p.None? then None else PlanOf(clusterSize, p.value, ops[1..])
  }

  // ---------------------------------------------------------------- clusters and slots

  lemma Division(x: nat, d: nat, q: nat, r: nat)
    requires d > 0 && r < d && x == d * q + r
    ensures x / d == q
  {
    DivisionUnique(x, d, q, r);
  }

  /** A position in a chain of clusters determines the number of clusters. */
  lemma ClustersAt(max: nat, n: nat, clusters: nat, index: nat)
    requires max > 0 && clusters > 0 && 1 <= index <= max && n == max * (clusters - 1) + index
    ensures ClustersFor(max, n) == clusters
  {
    PerCluster(max, clusters);
    Division(n + max - 1, max, clusters, index - 1);
  }

  /** Slots fit in t clusters exactly when there are at most max * t of them. */
  lemma FitIn(max: nat, n: nat, t: nat)
    requires max > 0
    ensures ClustersFor(max, n) <= t <==> n <= max * t
  {
    var q, r := ClustersFor(max, n), (n + max - 1) % max;
    assert n + max - 1 == max * q + r;
    if q <= t {
      Difference(max, t, q);
      NotNegative(max, t - q);
    } else {
      Difference(max, q, t);
      AtLeast(max, q - t);
    }
  }

  lemma NotNegative(a: nat, b: nat)
    ensures a * b >= 0
  {
  }

  lemma ClustersGrow(max: nat, m: nat, n: nat)
    requires max > 0 && m <= n
    ensures ClustersFor(max, m) <= ClustersFor(max, n)
  {
    FitIn(max, n, ClustersFor(max, n));
    FitIn(max, m, ClustersFor(max, n));
  }

  /** Where writing ends: slots and position balance, cluster by cluster. */
  lemma {:induction false} WriteSlotsBalance(v: Volume, d: RawDirectory, slots: seq<Slot>)
    requires Shaped(v) && SlotSized(v) && IsCluster(v, d.cluster) && d.entryIndex <= MaxEntries(v)
    requires WriteSlots(v, d, slots).ok
    ensures var w := WriteSlots(v, d, slots);
      && w.volume.free <= v.free
      && w.directory.entryIndex + MaxEntries(v) * (v.free - w.volume.free) == d.entryIndex + |slots|
    decreases |slots|, if d.entryIndex < MaxEntries(v) then 0 else 1
  {
    hide WriteSlots, Splice;
    if slots == [] {
      WriteSlotsNone(v, d);
    } else {
      if d.entryIndex < MaxEntries(v) {
        WriteSlotsStep(v, d, slots);
        WriteSlotsBalance(PutSlot(v, d.cluster, d.entryIndex, slots[0]), d.(entryIndex := d.entryIndex + 1),
          slots[1..]);
      } else {
        WriteSlotsNext(v, d, slots);
        var v1, d1 := Allocate(v, Some(d.cluster), 1).volume, d.(cluster := v.next, entryIndex := 0);
        WriteSlotsBalance(v1, d1, slots);
        PerCluster(MaxEntries(v), v.free - WriteSlots(v1, d1, slots).volume.free);
      }
    }
  }

  // ---------------------------------------------------------------- the plan and the image

  /** A directory with n slots is filled up to this position of its last cluster. */
  ghost predicate FilledTo(max: nat, n: nat, index: nat)
    requires max > 0
  {
    1 <= index <= max && n >= 1 && ClustersFor(max, n) >= 1 && n == max * (ClustersFor(max, n) - 1) + index
  }

  /** The plan describes the directories and the free clusters of an image. */
  ghost predicate PlanDescribes(fs: Fs, plan: Plan, total: nat) {
    && fs.volume.clusterSize >= 64 && plan.taken + fs.volume.free == total
    && (forall p :: Find(fs.root, p).Some? <==> p in plan.slots)
    && (forall p :: p in plan.slots && Find(fs.root, p).Some? ==>
          FilledTo(MaxEntries(fs.volume), plan.slots[p], Find(fs.root, p).value.entryIndex))
  }

  /** The room in a directory, in clusters. */
  lemma RoomInClusters(max: nat, n: nat, index: nat, more: nat, free: nat)
    requires max > 0 && FilledTo(max, n, index)
    ensures ClustersFor(max, n) <= ClustersFor(max, n + more)
    ensures more <= max - index + max * free <==> ClustersFor(max, n + more) - ClustersFor(max, n) <= free
  {
    var q := ClustersFor(max, n);
    ClustersGrow(max, n, n + more);
    FitIn(max, n + more, q + free);
    Difference(max, q + free, q);
    PerCluster(max, q);
  }

  /** An operation succeeds exactly when the plan goes on and stays within the volume. */
  lemma StepIsPlanned(fs: Fs, plan: Plan, total: nat, op: Op)
    requires Usable(fs) && (|op.name| <= MAX_NAME ==> TailFits(fs.counters, op.name)) && PlanDescribes(fs, plan, total)
    ensures var next := PlanStep(fs.volume.clusterSize, plan, op);
      Step(fs, op).ok <==> next.Some? && next.value.taken <= total
  {
    hide Step, TailFits, SlotCount;
    var d, v := Find(fs.root, op.parent), fs.volume;
    StepSucceeds(fs, op);
    if d.Some? && |op.name| <= MAX_NAME && (op.MakeFile? ==> |op.content| < 0xFFFF_FFFF) {
      var own, n := OwnClusters(v.clusterSize, op), plan.slots[op.parent];
      if own <= v.free {
        RoomInClusters(MaxEntries(v), n, d.value.entryIndex, SlotCount(op.name), v.free - own);
      } else {
        ClustersGrow(MaxEntries(v), n, n + SlotCount(op.name));
      }
    }
  }

  /** The parent after its entry was written. */
  lemma DeclareFills(v: Volume, d: RawDirectory, counters: Counters, name: Name, directory: bool, first: nat, size: nat,
    stamp: Stamp, n: nat)
    requires Shaped(v) && SlotSized(v) && IsCluster(v, d.cluster) && |name| <= MAX_NAME && TailFits(counters, name)
    requires FilledTo(MaxEntries(v), n, d.entryIndex)
    requires Declare(v, d, counters, name, directory, first, size, stamp).written.ok
    ensures var w, n' := Declare(v, d, counters, name, directory, first, size, stamp).written, n + SlotCount(name);
      && FilledTo(MaxEntries(v), n', w.directory.entryIndex)
      && w.volume.free == v.free - (ClustersFor(MaxEntries(v), n') - ClustersFor(MaxEntries(v), n))
      && w.volume.clusterSize == v.clusterSize
  {
    hide WriteSlots;
    var slots := EntrySlots(name, TailCounter(counters, name), directory, first, size, stamp);
    var w := WriteSlots(v, d, slots);
    DeclareKeeps(v, d, counters, name, directory, first, size, stamp);
    WriteSlotsBalance(v, d, slots);
    var max, q, more := MaxEntries(v), ClustersFor(MaxEntries(v), n), v.free - w.volume.free;
    Difference(max, q + more, q);
    PerCluster(max, q);
    PerCluster(max, q + more);
    ClustersAt(max, n + |slots|, q + more, w.directory.entryIndex);
  }

  /** The plan after a successful operation describes the image after it. */
  lemma StepIsDescribed(fs: Fs, plan: Plan, total: nat, op: Op)
    requires Usable(fs) && |op.name| <= MAX_NAME && TailFits(fs.counters, op.name) && PlanDescribes(fs, plan, total)
    requires Step(fs, op).ok && PlanStep(fs.volume.clusterSize, plan, op).Some?
    ensures PlanDescribes(Step(fs, op).fs, PlanStep(fs.volume.clusterSize, plan, op).value, total)
    ensures Step(fs, op).fs.volume.clusterSize == fs.volume.clusterSize
  {
    match op
    case MakeDirectory(parent, name, stamp) => DirectoryIsDescribed(fs, plan, total, parent, name, stamp);
    case MakeFile(parent, name, content, stamp) => FileIsDescribed(fs, plan, total, parent, name, content, stamp);
  }

  lemma FileIsDescribed(fs: Fs, plan: Plan, total: nat, parent: Path, name: Name, content: seq<byte>, stamp: Stamp)
    requires Usable(fs) && |name| <= MAX_NAME && TailFits(fs.counters, name) && PlanDescribes(fs, plan, total)
    requires FileStep(fs, parent, name, content, stamp).ok && |content| < 0xFFFF_FFFF
    ensures var r, next := FileStep(fs, parent, name, content, stamp),
      PlanStep(fs.volume.clusterSize, plan, MakeFile(parent, name, content, stamp));
      next.Some? && PlanDescribes(r.fs, next.value, total) && r.fs.volume.clusterSize == fs.volume.clusterSize
  {
    hide Declare, StoreFile, TailFits, SlotCount, FilledTo, ClustersFor, ClusterCount;
    var d, v, n := Find(fs.root, parent).value, fs.volume, plan.slots[parent];
    StoreFileShaped(v, content);
    StoredTakes(v, content);
    var stored := StoreFile(v, content);
    DeclareFills(stored.volume, d, fs.counters, name, false, stored.first.value, |content|, stamp, n);
    var w := Declare(stored.volume, d, fs.counters, name, false, stored.first.value, |content|, stamp).written;
    SetRawFinds(fs.root, parent, w.directory);
  }

  lemma DirectoryIsDescribed(fs: Fs, plan: Plan, total: nat, parent: Path, name: Name, stamp: Stamp)
    requires Usable(fs) && |name| <= MAX_NAME && TailFits(fs.counters, name) && PlanDescribes(fs, plan, total)
    requires DirectoryStep(fs, parent, name, stamp).ok
    ensures var r, next :=
      DirectoryStep(fs, parent, name, stamp), PlanStep(fs.volume.clusterSize, plan, MakeDirectory(parent, name, stamp));
      next.Some? && PlanDescribes(r.fs, next.value, total) && r.fs.volume.clusterSize == fs.volume.clusterSize
  {
    hide Declare, NewDirectory, TailFits, SlotCount, FilledTo, ClustersFor, AddChild, SetRaw, EntriesDescribed;
    var d, v, n := Find(fs.root, parent).value, fs.volume, plan.slots[parent];
    DescribesEntries(fs, plan, total);
    NewDirectoryTakesOne(v, d, stamp);
    var v', first := NewDirectory(v, d, stamp), v.next;
    DeclareFills(v', d, fs.counters, name, true, first, 0, stamp, n);
    var w := Declare(v', d, fs.counters, name, true, first, 0, stamp).written;
    DeclareKeeps(v', d, fs.counters, name, true, first, 0, stamp);
    var own := RawDirectory(Some(SlotRef(w.directory.cluster, w.directory.entryIndex - 1)), first, 2);
    DirectoryAdded(MaxEntries(v), fs.root, plan.slots, parent, name, w.directory, own, n + SlotCount(name));
    var r, next :=
      DirectoryStep(fs, parent, name, stamp), PlanStep(v.clusterSize, plan, MakeDirectory(parent, name, stamp));
    assert EntriesDescribed(MaxEntries(v), r.fs.root, next.value.slots);
    EntriesDescribe(r.fs, next.value, total);
  }

  /** The directories of a tree, with their numbers of slots. */
  ghost predicate EntriesDescribed(max: nat, root: FatDirectory, slots: map<Path, nat>)
    requires max > 0
  {
    && (forall p :: Find(root, p).Some? <==> p in slots)
    && (forall p :: p in slots && Find(root, p).Some? ==> FilledTo(max, slots[p], Find(root, p).value.entryIndex))
  }

  lemma DescribesEntries(fs: Fs, plan: Plan, total: nat)
    requires PlanDescribes(fs, plan, total)
    ensures EntriesDescribed(MaxEntries(fs.volume), fs.root, plan.slots)
  {
  }

  lemma EntriesDescribe(fs: Fs, plan: Plan, total: nat)
    requires fs.volume.clusterSize >= 64 && plan.taken + fs.volume.free == total
    requires EntriesDescribed(MaxEntries(fs.volume), fs.root, plan.slots)
    ensures PlanDescribes(fs, plan, total)
  {
  }

  /** A directory's new state, and a new directory in it with two slots. */
  lemma DirectoryAdded(max: nat, root: FatDirectory, slots: map<Path, nat>, parent: Path, name: Name, d: RawDirectory,
    own: RawDirectory, n: nat)
    requires max >= 2 && EntriesDescribed(max, root, slots) && parent in slots
    requires FilledTo(max, n, d.entryIndex) && own.entryIndex == 2
    ensures Find(root, parent).Some?
    ensures EntriesDescribed(max, AddChild(SetRaw(root, parent, d), parent, name, own),
      slots[parent := n][parent + [name] := 2])
  {
    hide FilledTo, AddChild, SetRaw;
    SetRawFinds(root, parent, d);
    AddChildFinds(SetRaw(root, parent, d), parent, name, own);
    TwoSlots(max);
  }

  lemma TwoSlots(max: nat)
    requires max >= 2
    ensures FilledTo(max, 2, 2)
  {
    ClustersAt(max, 2, 1, 2);
  }

  // ---------------------------------------------------------------- whole lists

  lemma {:induction false} PlansGrow(clusterSize: nat, plan: Plan, ops: seq<Op>)
    requires clusterSize >= 64 && PlanOf(clusterSize, plan, ops).Some?
    ensures plan.taken <= PlanOf(clusterSize, plan, ops).value.taken
    decreases |ops|
  {
    hide PlanStep;
    if ops != [] {
      PlanStepGrows(clusterSize, plan, ops[0]);
      PlansGrow(clusterSize, PlanStep(clusterSize, plan, ops[0]).value, ops[1..]);
    }
  }

  lemma PlanStepGrows(clusterSize: nat, plan: Plan, op: Op)
    requires clusterSize >= 64 && PlanStep(clusterSize, plan, op).Some?
    ensures plan.taken <= PlanStep(clusterSize, plan, op).value.taken && |op.name| <= MAX_NAME
  {
    hide SlotCount;
    var n := plan.slots[op.parent];
    ClustersGrow(clusterSize / 32, n, n + SlotCount(op.name));
  }

  lemma {:induction false} RunIsPlanned(s: State, plan: Plan, total: nat, ops: seq<Op>)
    requires Usable(s.fs) && AllAllowed(s, ops) && PlanDescribes(s.fs, plan, total)
    ensures var last := PlanOf(s.fs.volume.clusterSize, plan, ops);
      AllSucceed(s, ops) <==> last.Some? && last.value.taken <= total
    decreases |ops|
  {
    hide Usable, Step, PlanStep, ModelStep, TailFits;
    if ops != [] {
      var next := PlanStep(s.fs.volume.clusterSize, plan, ops[0]);
      StepUsable(s.fs, ops[0]);
      StepIsPlanned(s.fs, plan, total, ops[0]);
      if next.Some? {
        PlanStepGrows(s.fs.volume.clusterSize, plan, ops[0]);
        if Step(s.fs, ops[0]).ok {
          StepIsDescribed(s.fs, plan, total, ops[0]);
          RunIsPlanned(Next(s, ops[0]), next.value, total, ops[1..]);
        } else if PlanOf(s.fs.volume.clusterSize, plan, ops).Some? {
          PlansGrow(s.fs.volume.clusterSize, next.value, ops[1..]);
        }
      }
    }
  }

  /**
   * Before a volume is filled: all operations of a list succeed exactly when each parent is a
   * directory by then, names and contents are within their limits, and the clusters of all files
   * and directories together are at most those of the volume.
   */
  lemma AllFit(f: Format, labelSlot: Slot, ops: seq<Op>)
    requires ValidFormat(f) && AllAllowed(Start(f, labelSlot), ops)
    ensures var last := PlanOf(f.clusterSize, EMPTY_PLAN, ops);
      AllSucceed(Start(f, labelSlot), ops) <==> last.Some? && last.value.taken <= f.clusters
  {
    hide AllAllowed, AllSucceed, PlanOf;
    var fs := Start(f, labelSlot).fs;
    ClustersAt(f.clusterSize / 32, 1, 1, 1);
    forall p
      ensures Find(fs.root, p).Some? <==> p in EMPTY_PLAN.slots
    {
    }
    RunIsPlanned(Start(f, labelSlot), EMPTY_PLAN, f.clusters, ops);
  }
}
