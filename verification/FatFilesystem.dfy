/**
 * The file-system image as a value: the volume, the tree of directories being filled, and the
 * counters for generated names; and the two operations that extend it.
 */
module FatFilesystem {
  import opened Bytes
  import opened Options
  import opened FatClusters
  import opened FatNames
  import opened FatReader
  import opened FatWriter

  type Path = seq<Name>

  /** A directory being filled, with the directories declared in it. */
  datatype FatDirectory = FatDirectory(raw: RawDirectory, children: map<Name, FatDirectory>)

  datatype Fs = Fs(volume: Volume, root: FatDirectory, counters: Counters)

  /** The directory at a path, found by descending one component at a time. */
  function Find(t: FatDirectory, path: Path): Option<RawDirectory>
    decreases |path|
  {
    if path == [] then Some(t.raw)
    else if path[0] in t.children then Find(t.children[path[0]], path[1..])
    else None
  }

  /** Overwrite the state of the directory at a path. */
  function SetRaw(t: FatDirectory, path: Path, raw: RawDirectory): FatDirectory
    decreases |path|
  {
    if path == [] then t.(raw := raw)
    else if path[0] in t.children
      then t.(children := t.children[path[0] := SetRaw(t.children[path[0]], path[1..], raw)])
    else t
  }

  /** Add a directory below the directory at a path. */
  function AddChild(t: FatDirectory, path: Path, name: Name, raw: RawDirectory): FatDirectory
    decreases |path|
  {
    if path == [] then
      var child := if name in t.children then t.children[name].(raw := raw) else FatDirectory(raw, map[]);
      t.(children := t.children[name := child])
    else if path[0] in t.children then
      t.(children := t.children[path[0] := AddChild(t.children[path[0]], path[1..], name, raw)])
    else t
  }

  lemma {:induction false} FindAfterSetRaw(t: FatDirectory, path: Path, raw: RawDirectory, q: Path)
    requires Find(t, path).Some?
    ensures Find(SetRaw(t, path, raw), q) == if q == path then Some(raw) else Find(t, q)
    decreases |path|
  {
    if path != [] && q != [] && q[0] == path[0] {
      FindAfterSetRaw(t.children[path[0]], path[1..], raw, q[1..]);
      assert q == [q[0]] + q[1..] && path == [path[0]] + path[1..];
    }
  }

  lemma {:induction false} FindAfterAddChild(t: FatDirectory, path: Path, name: Name, raw: RawDirectory, q: Path)
    requires Find(t, path).Some?
    ensures Find(AddChild(t, path, name, raw), q) == if q == path + [name] then Some(raw) else Find(t, q)
    decreases |path|
  {
    if path == [] {
      assert (path + [name])[1..] == [];
      if q != [] && q[0] == name {
        assert q == [q[0]] + q[1..];
      }
    } else {
      assert (path + [name])[1..] == path[1..] + [name];
      if q != [] && q[0] == path[0] {
        FindAfterAddChild(t.children[path[0]], path[1..], name, raw, q[1..]);
        assert q == [q[0]] + q[1..];
      }
    }
  }

  // ---------------------------------------------------------------- the operations

  datatype Op =
    | MakeDirectory(parent: Path, name: Name, stamp: Stamp)
    | MakeFile(parent: Path, name: Name, content: seq<byte>, stamp: Stamp)

  datatype Result = Result(fs: Fs, ok: bool)

  ghost predicate RefOk(v: Volume, ref: Option<SlotRef>) {
    ref.Some? ==> IsCluster(v, ref.value.cluster) && ref.value.index < MaxEntries(v)
  }

  /** Every directory of the tree points into the volume. */
  ghost predicate Usable(fs: Fs) {
    && Shaped(fs.volume) && SlotSized(fs.volume)
    && forall p :: Find(fs.root, p).Some? ==>
        && IsCluster(fs.volume, Find(fs.root, p).value.cluster)
        && RefOk(fs.volume, Find(fs.root, p).value.self)
  }

  datatype Declared = Declared(written: Written, counters: Counters)

  /** Append the slots of a name to a directory; names over 255 bytes are refused. */
  function Declare(v: Volume, d: RawDirectory, counters: Counters, name: Name, directory: bool, first: nat, size: nat,
    stamp: Stamp): Declared
    requires Shaped(v) && SlotSized(v) && IsCluster(v, d.cluster)
    requires |name| <= MAX_NAME ==> TailFits(counters, name)
  {
    if |name| > MAX_NAME then Declared(Written(v, d, false), counters)
    else Declared(
      WriteSlots(v, d, EntrySlots(name, TailCounter(counters, name), directory, first, size, stamp)),
      NextCounters(counters, name))
  }

  /** The first cluster the parent's own entry names; the root has none and counts as 0. */
  function ParentCluster(v: Volume, parent: RawDirectory): nat
    requires Shaped(v) && SlotSized(v) && RefOk(v, parent.self)
  {
    if parent.self.None? then 0 else FirstCluster(SlotAt(v, parent.self.value.cluster, parent.self.value.index))
  }

  function DotSlots(own: nat, parent: nat, stamp: Stamp): (slots: seq<Slot>)
    ensures |slots| == 2
  {
    [ShortSlot(DOT_NAME, ATTR_DIRECTORY, stamp, own, 0), ShortSlot(DOT_DOT_NAME, ATTR_DIRECTORY, stamp, parent, 0)]
  }

  /** A volume whose next cluster was taken for a directory and holds `.` and `..`. */
  function NewDirectory(v: Volume, parent: RawDirectory, stamp: Stamp): (v': Volume)
    requires Shaped(v) && SlotSized(v) && RefOk(v, parent.self) && v.free > 0
    ensures Shaped(v') && v'.clusterSize == v.clusterSize && |v'.data| == |v.data|
  {
    AllocateShaped(v, None, 1);
    var v1 := Allocate(v, None, 1).volume;
    var dots := DotSlots(v.next, ParentCluster(v, parent), stamp);
    PutSlot(PutSlot(v1, v.next, 0, dots[0]), v.next, 1, dots[1])
  }

  function DirectoryStep(fs: Fs, parent: Path, name: Name, stamp: Stamp): Result
    requires Usable(fs) && (|name| <= MAX_NAME ==> TailFits(fs.counters, name))
  {
    var d := Find(fs.root, parent);
    if d.None? || fs.volume.free == 0 then Result(fs, false)
    else
      var first := fs.volume.next;
      var v := NewDirectory(fs.volume, d.value, stamp);
      var declared := Declare(v, d.value, fs.counters, name, true, first, 0, stamp);
      var w := declared.written;
      var root := SetRaw(fs.root, parent, w.directory);
      if !w.ok then Result(Fs(w.volume, root, declared.counters), false)
      else
        var self := SlotRef(w.directory.cluster, w.directory.entryIndex - 1);
        Result(Fs(w.volume, AddChild(root, parent, name, RawDirectory(Some(self), first, 2)), declared.counters), true)
  }

  function FileStep(fs: Fs, parent: Path, name: Name, content: seq<byte>, stamp: Stamp): Result
    requires Usable(fs) && (|name| <= MAX_NAME ==> TailFits(fs.counters, name))
  {
    var d := Find(fs.root, parent);
    if d.None? then Result(fs, false)
    else
      var stored := StoreFile(fs.volume, content);
      StoreFileShaped(fs.volume, content);
      if stored.first.None? then Result(fs.(volume := stored.volume), false)
      else
        var declared := Declare(stored.volume, d.value, fs.counters, name, false, stored.first.value, |content|, stamp);
        var w := declared.written;
        Result(Fs(w.volume, SetRaw(fs.root, parent, w.directory), declared.counters), w.ok)
  }

  function Step(fs: Fs, op: Op): Result
    requires Usable(fs) && (|op.name| <= MAX_NAME ==> TailFits(fs.counters, op.name))
  {
    match op
    case MakeDirectory(parent, name, stamp) => DirectoryStep(fs, parent, name, stamp)
    case MakeFile(parent, name, content, stamp) => FileStep(fs, parent, name, content, stamp)
  }

  // ---------------------------------------------------------------- the reader

  /** What a path leads to. */
  datatype Node = DirectoryNode | FileNode(content: seq<byte>)

  predicate ChainInData(data: seq<seq<byte>>, chain: seq<nat>) {
    forall i :: 0 <= i < |chain| ==> chain[i] < |data|
  }

  function ReadDirectory(v: Volume, first: nat): Option<seq<Slot>> {
    var chain := ReadChain(v.fat0, first);
    if chain.None? || !ChainInData(v.data, chain.value) then None else Some(ChainSlots(v.data, chain.value))
  }

  function ReadFile(v: Volume, first: nat, size: nat): Option<seq<byte>> {
    var chain := ReadChain(v.fat0, first);
    if chain.None? || !ChainInData(v.data, chain.value) then None
    else
      var bytes := ChainBytes(v.data, chain.value);
      if |bytes| < size then None else Some(bytes[..size])
  }

  /** The position of the first entry with a name, or the number of entries. */
  function FindName(entries: seq<Entry>, name: Name): (i: nat)
    ensures i <= |entries|
    ensures i < |entries| ==> entries[i].name == name
    ensures forall j :: 0 <= j < i ==> entries[j].name != name
  {
    if entries == [] || entries[0].name == name then 0 else 1 + FindName(entries[1..], name)
  }

  /** The root directory, described as if it were listed somewhere. */
  const ROOT_ENTRY := Entry([], true, 2, 0)

  /** Follow a path from an entry, reading only the volume. */
  function Locate(v: Volume, e: Entry, path: Path): Option<Entry>
    decreases |path|
  {
    if path == [] then Some(e)
    else if !e.directory then None
    else
      var slots := ReadDirectory(v, e.first);
      if slots.None? then None
      else
        var entries := Listing(slots.value);
        var i := FindName(entries, path[0]);
        if i == |entries| then None else Locate(v, entries[i], path[1..])
  }

  /** What the volume holds at a path. */
  function Lookup(v: Volume, path: Path): Option<Node> {
    var e := Locate(v, ROOT_ENTRY, path);
    if e.None? then None
    else if e.value.directory then Some(DirectoryNode)
    else
      var bytes := ReadFile(v, e.value.first, e.value.size);
      if bytes.None? then None else Some(FileNode(bytes.value))
  }

  // ---------------------------------------------------------------- operations keep the image usable

  lemma WithRaw(v: Volume, fs: Fs, parent: Path, d: RawDirectory, counters: Counters)
    requires Usable(fs) && Find(fs.root, parent).Some? && Shaped(v)
    requires v.clusterSize == fs.volume.clusterSize && |v.data| == |fs.volume.data|
    requires IsCluster(v, d.cluster) && RefOk(v, d.self)
    ensures Usable(Fs(v, SetRaw(fs.root, parent, d), counters))
  {
    var fs' := Fs(v, SetRaw(fs.root, parent, d), counters);
    forall p | Find(fs'.root, p).Some?
      ensures IsCluster(v, Find(fs'.root, p).value.cluster) && RefOk(v, Find(fs'.root, p).value.self)
    {
      FindAfterSetRaw(fs.root, parent, d, p);
    }
  }

  lemma WithChild(fs: Fs, parent: Path, name: Name, d: RawDirectory)
    requires Usable(fs) && Find(fs.root, parent).Some?
    requires IsCluster(fs.volume, d.cluster) && RefOk(fs.volume, d.self)
    ensures Usable(fs.(root := AddChild(fs.root, parent, name, d)))
  {
    var fs' := fs.(root := AddChild(fs.root, parent, name, d));
    forall p | Find(fs'.root, p).Some?
      ensures IsCluster(fs.volume, Find(fs'.root, p).value.cluster) && RefOk(fs.volume, Find(fs'.root, p).value.self)
    {
      FindAfterAddChild(fs.root, parent, name, d, p);
    }
  }

  /** Declaring a name does not touch where the directory itself is declared. */
  lemma {:induction false} WriteSlotsKeepsSelf(v: Volume, d: RawDirectory, slots: seq<Slot>)
    requires Shaped(v) && SlotSized(v) && IsCluster(v, d.cluster)
    ensures WriteSlots(v, d, slots).directory.self == d.self
    decreases |slots|, if d.entryIndex < MaxEntries(v) then 0 else 1
  {
    if slots != [] {
      if d.entryIndex < MaxEntries(v) {
        WriteSlotsKeepsSelf(PutSlot(v, d.cluster, d.entryIndex, slots[0]), d.(entryIndex := d.entryIndex + 1),
          slots[1..]);
      } else if v.free > 0 {
        AllocateShaped(v, Some(d.cluster), 1);
        WriteSlotsKeepsSelf(Allocate(v, Some(d.cluster), 1).volume, d.(cluster := v.next, entryIndex := 0), slots);
      }
    }
  }

  lemma StepUsable(fs: Fs, op: Op)
    requires Usable(fs) && (|op.name| <= MAX_NAME ==> TailFits(fs.counters, op.name))
    ensures Usable(Step(fs, op).fs)
  {
    match op
    case MakeDirectory(parent, name, stamp) => DirectoryStepUsable(fs, parent, name, stamp);
    case MakeFile(parent, name, content, stamp) => FileStepUsable(fs, parent, name, content, stamp);
  }

  lemma DeclareKeeps(v: Volume, d: RawDirectory, counters: Counters, name: Name, directory: bool, first: nat, size: nat,
    stamp: Stamp)
    requires Shaped(v) && SlotSized(v) && IsCluster(v, d.cluster)
    requires |name| <= MAX_NAME ==> TailFits(counters, name)
    ensures var w := Declare(v, d, counters, name, directory, first, size, stamp).written;
      && Shaped(w.volume) && w.volume.clusterSize == v.clusterSize && |w.volume.data| == |v.data|
      && IsCluster(w.volume, w.directory.cluster) && w.directory.self == d.self
      && (w.ok ==> 0 < w.directory.entryIndex <= MaxEntries(v))
  {
    if |name| <= MAX_NAME {
      WriteSlotsKeepsSelf(v, d, EntrySlots(name, TailCounter(counters, name), directory, first, size, stamp));
    }
  }

  lemma DirectoryStepUsable(fs: Fs, parent: Path, name: Name, stamp: Stamp)
    requires Usable(fs) && (|name| <= MAX_NAME ==> TailFits(fs.counters, name))
    ensures Usable(DirectoryStep(fs, parent, name, stamp).fs)
  {
    hide EntrySlots, WriteSlots, Declare, NewDirectory;
    var d := Find(fs.root, parent);
    if d.Some? && fs.volume.free > 0 {
      var first, v := fs.volume.next, NewDirectory(fs.volume, d.value, stamp);
      var declared := Declare(v, d.value, fs.counters, name, true, first, 0, stamp);
      var w := declared.written;
      DeclareKeeps(v, d.value, fs.counters, name, true, first, 0, stamp);
      WithRaw(w.volume, fs, parent, w.directory, declared.counters);
      if w.ok {
        FindAfterSetRaw(fs.root, parent, w.directory, parent);
        WithChild(Fs(w.volume, SetRaw(fs.root, parent, w.directory), declared.counters), parent, name,
          RawDirectory(Some(SlotRef(w.directory.cluster, w.directory.entryIndex - 1)), first, 2));
      }
    }
  }

  lemma FileStepUsable(fs: Fs, parent: Path, name: Name, content: seq<byte>, stamp: Stamp)
    requires Usable(fs) && (|name| <= MAX_NAME ==> TailFits(fs.counters, name))
    ensures Usable(FileStep(fs, parent, name, content, stamp).fs)
  {
    hide EntrySlots, WriteSlots, Declare, StoreFile;
    var d := Find(fs.root, parent);
    if d.Some? {
      var stored := StoreFile(fs.volume, content);
      StoreFileShaped(fs.volume, content);
      if stored.first.Some? {
        var declared := Declare(stored.volume, d.value, fs.counters, name, false, stored.first.value, |content|, stamp);
        DeclareKeeps(stored.volume, d.value, fs.counters, name, false, stored.first.value, |content|, stamp);
        WithRaw(declared.written.volume, fs, parent, declared.written.directory, declared.counters);
      }
    }
  }
}
