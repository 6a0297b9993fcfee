/**
 * When an operation succeeds: exactly when the parent exists, the name is at most 255 bytes, and
 * the content and the directory entries fit in what is left of the volume.
 */
module FatCapacity {
  import opened Bytes
  import opened FatClusters
  import opened FatNames
  import opened FatReader
  import opened FatWriter
  import opened FatFilesystem
  import opened FatLog
  import opened FatInvariant
  import opened FatRefinement
  import opened FatRuns

  /** The slots a name takes in a directory. */
  function SlotCount(name: Name): nat {
    1 + if IsLong(name) then LongSlotCount(name) else 0
  }

  /** The object can be stored, and its entry fits in what is then left for the parent. */
  predicate HasRoom(fs: Fs, op: Op)
    requires fs.volume.clusterSize > 0
  {
    var v := fs.volume;
    && Storable(fs, op) && |op.name| <= 255
    && SlotCount(op.name) <= Room(v.(free := v.free - OwnClusters(v.clusterSize, op)), Find(fs.root, op.parent).value)
  }

  lemma DeclareSucceeds(v: Volume, d: RawDirectory, counters: Counters, name: Name, directory: bool, first: nat,
    size: nat, stamp: Stamp)
    requires Shaped(v) && SlotSized(v) && IsCluster(v, d.cluster) && d.entryIndex <= MaxEntries(v)
    requires |name| <= MAX_NAME ==> TailFits(counters, name)
    ensures Declare(v, d, counters, name, directory, first, size, stamp).written.ok
      <==> |name| <= 255 && SlotCount(name) <= Room(v, d)
  {
    hide WriteSlots;
    if |name| <= MAX_NAME {
      WriteSlotsSucceeds(v, d, EntrySlots(name, TailCounter(counters, name), directory, first, size, stamp));
    }
  }

  /** One step succeeds exactly when there is room. */
  lemma StepSucceeds(fs: Fs, op: Op)
    requires Usable(fs) && (|op.name| <= MAX_NAME ==> TailFits(fs.counters, op.name))
    requires Find(fs.root, op.parent).Some? ==> Find(fs.root, op.parent).value.entryIndex <= MaxEntries(fs.volume)
    ensures Step(fs, op).ok <==> HasRoom(fs, op)
  {
    match op
    case MakeDirectory(parent, name, stamp) => DirectoryStepSucceeds(fs, parent, name, stamp);
    case MakeFile(parent, name, content, stamp) => FileStepSucceeds(fs, parent, name, content, stamp);
  }

  lemma DirectoryStepSucceeds(fs: Fs, parent: Path, name: Name, stamp: Stamp)
    requires Usable(fs) && (|name| <= MAX_NAME ==> TailFits(fs.counters, name))
    requires Find(fs.root, parent).Some? ==> Find(fs.root, parent).value.entryIndex <= MaxEntries(fs.volume)
    ensures DirectoryStep(fs, parent, name, stamp).ok <==> HasRoom(fs, MakeDirectory(parent, name, stamp))
  {
    hide Declare, SlotCount, ShortSlot, Splice, TailFits, MaxEntries, Room;
    var d, v := Find(fs.root, parent), fs.volume;
    if d.Some? && v.free > 0 {
      var v' := NewDirectory(v, d.value, stamp);
      NewDirectoryTakesOne(v, d.value, stamp);
      RoomOf(v', v.(free := v.free - 1), d.value);
      DeclareSucceeds(v', d.value, fs.counters, name, true, v.next, 0, stamp);
    }
  }

  lemma FileStepSucceeds(fs: Fs, parent: Path, name: Name, content: seq<byte>, stamp: Stamp)
    requires Usable(fs) && (|name| <= MAX_NAME ==> TailFits(fs.counters, name))
    requires Find(fs.root, parent).Some? ==> Find(fs.root, parent).value.entryIndex <= MaxEntries(fs.volume)
    ensures FileStep(fs, parent, name, content, stamp).ok <==> HasRoom(fs, MakeFile(parent, name, content, stamp))
  {
    hide Declare, SlotCount, TailFits, MaxEntries, StoreFile, ClusterCount, Room;
    var d, v := Find(fs.root, parent), fs.volume;
    if d.Some? {
      StoreFileShaped(v, content);
      StoredTakes(v, content);
      var stored := StoreFile(v, content);
      if stored.first.Some? {
        RoomOf(stored.volume, v.(free := v.free - ClusterCount(|content|, v.clusterSize)), d.value);
        DeclareSucceeds(stored.volume, d.value, fs.counters, name, false, stored.first.value, |content|, stamp);
      }
    }
  }

  lemma EntryIndexInside(fs: Fs, chains: seq<seq<nat>>, objects: Objects, path: Path)
    requires ImageOk(fs, chains, objects) && Find(fs.root, path).Some?
    ensures Find(fs.root, path).value.entryIndex <= MaxEntries(fs.volume)
  {
    assert ObjectOk(fs.volume, fs.root, chains, path, objects[path]);
  }

  /** After any run, the next operation succeeds exactly when there is room for it. */
  lemma NextSucceeds(f: Format, labelSlot: Slot, ops: seq<Op>, op: Op)
    requires ValidFormat(f) && IsLabel(labelSlot) && AllAllowed(Start(f, labelSlot), ops)
    requires var s := Run(Start(f, labelSlot), ops); Usable(s.fs) && Allowed(s.fs, s.model, op)
    ensures var s := Run(Start(f, labelSlot), ops);
      && s.fs.volume.clusterSize > 0
      && (Step(s.fs, op).ok <==> HasRoom(s.fs, op))
  {
    hide Step, HasRoom, Readable, TailFits, Formatted;
    FormattedIsOk(f, labelSlot);
    var chains, objects := RunKeeps(Start(f, labelSlot), [[2]], map[ROOT := DirObject(0, [labelSlot], [])], ops);
    var s := Run(Start(f, labelSlot), ops);
    if Find(s.fs.root, op.parent).Some? {
      EntryIndexInside(s.fs, chains, objects, op.parent);
    }
    StepSucceeds(s.fs, op);
  }
}
