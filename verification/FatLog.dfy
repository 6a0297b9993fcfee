/**
 * What is appended to each directory: the slots that a run of operations adds, worked out from the
 * operations and from the room they find, without reading back what any cluster holds.
 */
module FatLog {
  import opened Bytes
  import opened Options
  import opened FatClusters
  import opened FatNames
  import opened FatWriter
  import opened FatFilesystem

  /** A directory's first cluster, and all slots ever appended to it, in order. */
  datatype Logged = Logged(first: nat, slots: seq<Slot>)

  type Log = map<Path, Logged>

  /** The clusters an object takes before its name is declared. */
  function OwnClusters(clusterSize: nat, op: Op): nat
    requires clusterSize > 0
  {
    match op
    case MakeDirectory(_, _, _) => 1
    case MakeFile(_, _, content, _) => ClusterCount(|content|, clusterSize)
  }

  /** The object itself can be stored below an existing parent. */
  predicate Storable(fs: Fs, op: Op)
    requires fs.volume.clusterSize > 0
  {
    && Find(fs.root, op.parent).Some? && OwnClusters(fs.volume.clusterSize, op) <= fs.volume.free
    && (op.MakeFile? ==> |op.content| < 0xFFFF_FFFF)
  }

  /** The entry of an object: it names the next free cluster as its first. */
  function EntryOf(fs: Fs, op: Op): (slots: seq<Slot>)
    requires |op.name| <= MAX_NAME && TailFits(fs.counters, op.name)
    ensures slots != []
  {
    EntrySlots(op.name, TailCounter(fs.counters, op.name), op.MakeDirectory?, fs.volume.next,
      if op.MakeFile? then |op.content| else 0, op.stamp)
  }

  /** How many slots of the entry the parent takes. */
  function Taken(fs: Fs, op: Op): (n: nat)
    requires fs.volume.clusterSize > 0 && Storable(fs, op)
    requires |op.name| <= MAX_NAME && TailFits(fs.counters, op.name)
    ensures n <= |EntryOf(fs, op)|
  {
    var v := fs.volume;
    Fits(v.(free := v.free - OwnClusters(v.clusterSize, op)), Find(fs.root, op.parent).value, |EntryOf(fs, op)|)
  }

  /**
   * The log after one operation: the parent gains the entry, or the part of it that fits; a new
   * directory starts with its dot slots.
   */
  function LogStep(fs: Fs, log: Log, op: Op): Log
    requires Usable(fs) && (|op.name| <= MAX_NAME ==> TailFits(fs.counters, op.name))
  {
    if |op.name| > MAX_NAME || !Storable(fs, op) || op.parent !in log then log
    else
      var slots, n, parent, first := EntryOf(fs, op), Taken(fs, op), log[op.parent], fs.volume.next;
      var log1 := log[op.parent := parent.(slots := parent.slots + slots[..n])];
      if n < |slots| || op.MakeFile? then log1
      else
        var above := if op.parent == [] then 0 else parent.first;
        log1[op.parent + [op.name] := Logged(first, DotSlots(first, above, op.stamp))]
  }

  // ---------------------------------------------------------------- what preparing an object takes

  /** The room depends on the cluster size and on how many clusters are free. */
  lemma RoomOf(v: Volume, w: Volume, d: RawDirectory)
    requires v.free == w.free && v.clusterSize == w.clusterSize
    ensures Room(v, d) == Room(w, d)
  {
  }

  lemma FitsOf(v: Volume, w: Volume, d: RawDirectory, n: nat)
    requires v.free == w.free && v.clusterSize == w.clusterSize
    ensures Fits(v, d, n) == Fits(w, d, n)
  {
  }

  lemma NewDirectoryTakesOne(v: Volume, parent: RawDirectory, stamp: Stamp)
    requires Shaped(v) && SlotSized(v) && RefOk(v, parent.self) && v.free > 0
    ensures var v' := NewDirectory(v, parent, stamp); v'.free == v.free - 1 && MaxEntries(v') == MaxEntries(v)
  {
    AllocateShaped(v, None, 1);
  }

  lemma StoredTakes(v: Volume, content: seq<byte>)
    requires Shaped(v) && SlotSized(v)
    ensures var stored, n := StoreFile(v, content), ClusterCount(|content|, v.clusterSize);
      && (stored.first.Some? <==> |content| < 0xFFFF_FFFF && n <= v.free)
      && (stored.first.Some? ==> stored.volume.free == v.free - n)
      && MaxEntries(stored.volume) == MaxEntries(v)
  {
    hide StoreRun;
    StoreFileShaped(v, content);
  }
}
