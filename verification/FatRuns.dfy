/**
 * Whole runs of operations on a freshly formatted volume, and what an independent reader finds
 * on the volume afterwards.
 */
module FatRuns {
  import opened Bytes
  import opened Options
  import opened FatGeometry
  import opened FatClusters
  import opened FatNames
  import opened FatReader
  import opened FatWriter
  import opened FatFilesystem
  import opened FatLog
  import opened FatInvariant
  import opened FatRefinement

  // ---------------------------------------------------------------- the formatted volume

  /** The size of a volume: bytes per cluster, number of clusters, entries per FAT. */
  datatype Format = Format(clusterSize: nat, clusters: nat, fatEntries: nat)

  predicate ValidFormat(f: Format) {
    && f.clusterSize % 32 == 0 && f.clusterSize >= 64
    && 1 <= f.clusters && f.clusters + 2 <= FAT32_BAD_CLUSTER && f.clusters + 2 <= f.fatEntries
  }

  function FormattedFat(entries: nat): (fat: seq<nat>)
    requires entries >= 3
    ensures |fat| == entries
  {
    seq(entries, c requires 0 <= c < entries =>
      if c == 0 then FIRST_FAT_ENTRY else if c <= 2 then EOC else 0)
  }

  /** The root directory's first slot: the volume label. */
  function LabelSlot(volumeName: seq<byte>, stamp: Stamp): Slot
    requires |volumeName| == 11
  {
    ShortSlot(volumeName, ATTR_VOLUME_ID, stamp, 0, 0)
  }

  function FormattedData(f: Format, labelSlot: Slot): (data: seq<seq<byte>>)
    requires ValidFormat(f)
    ensures |data| == f.clusters + 2
    ensures data[2] == labelSlot + Zeros(f.clusterSize - 32)
    ensures forall c :: 3 <= c < |data| ==> data[c] == Zeros(f.clusterSize)
  {
    seq(f.clusters + 2, c requires 0 <= c < f.clusters + 2 =>
      if c < 2 then [] else if c == 2 then labelSlot + Zeros(f.clusterSize - 32) else Zeros(f.clusterSize))
  }

  /** A freshly formatted and opened image. */
  function Formatted(f: Format, labelSlot: Slot): Fs
    requires ValidFormat(f)
  {
    var fat := FormattedFat(f.fatEntries);
    Fs(Volume(f.clusterSize, fat, fat, FormattedData(f, labelSlot), 3, f.clusters - 1),
       FatDirectory(RawDirectory(None, 2, 1), map[]),
       map[])
  }

  const EMPTY_MODEL: Model := map[ROOT := DirectoryNode]

  lemma FormattedIsUsable(f: Format, labelSlot: Slot)
    requires ValidFormat(f)
    ensures Usable(Formatted(f, labelSlot))
  {
  }

  /** The label slot is a volume label and not the end of the directory. */
  predicate IsLabel(slot: Slot) {
    slot[0] != 0 && Attributes(slot) == ATTR_VOLUME_ID
  }

  lemma LabelSlotIsLabel(volumeName: seq<byte>, stamp: Stamp)
    requires |volumeName| == 11 && volumeName[0] != 0
    ensures IsLabel(LabelSlot(volumeName, stamp))
  {
    ShortSlotFields(volumeName, ATTR_VOLUME_ID, stamp, 0, 0);
    assert LabelSlot(volumeName, stamp)[0] == RawName(LabelSlot(volumeName, stamp))[0];
  }

  lemma LabelIsSkipped(slot: Slot)
    requires IsLabel(slot)
    ensures ScanSlots(START, [slot]) == START
  {
    ScanOne(START, slot);
    hide NameOf, FirstCluster, FileSize;
  }

  lemma FormattedRoot(f: Format, labelSlot: Slot)
    requires ValidFormat(f)
    ensures DirectoryHolds(Formatted(f, labelSlot).volume, [2], RawDirectory(None, 2, 1), [labelSlot])
  {
    var v := Formatted(f, labelSlot).volume;
    var root := v.data[2];
    var slots := SlotsOf(root);
    FormattedIsUsable(f, labelSlot);
    assert root[0..32] == labelSlot;
    assert slots[..1] == [labelSlot];
    assert Front([2]) == [];
    forall i | 1 <= i < MaxEntries(v)
      ensures SlotAt(v, 2, i)[0] == 0
    {
      assert root[32 * i] == 0;
    }
  }

  lemma FormattedChains(f: Format, labelSlot: Slot)
    requires ValidFormat(f)
    ensures VolumeOk(Formatted(f, labelSlot).volume, [[2]])
  {
    var v := Formatted(f, labelSlot).volume;
    assert 2 in [2];
    forall c | 2 <= c < v.next
      ensures Held([[2]], c)
    {
      assert c in [[2]][0];
    }
    assert IsChain(v.fat0, [2]);
  }

  lemma FormattedIsOk(f: Format, labelSlot: Slot)
    requires ValidFormat(f) && IsLabel(labelSlot)
    ensures var objects := map[ROOT := DirObject(0, [labelSlot], [])];
      ImageOk(Formatted(f, labelSlot), [[2]], objects) && Nodes(objects) == EMPTY_MODEL
  {
    var fs, objects := Formatted(f, labelSlot), map[ROOT := DirObject(0, [labelSlot], [])];
    FormattedChains(f, labelSlot);
    FormattedRoot(f, labelSlot);
    LabelIsSkipped(labelSlot);
    hide ScanSlots, DirectoryHolds, VolumeOk, FormattedFat, FormattedData, IsLabel;
    assert ObjectOk(fs.volume, fs.root, [[2]], ROOT, objects[ROOT]);
  }

  // ---------------------------------------------------------------- runs

  /** A state of the image together with what should be on it. */
  datatype State = State(fs: Fs, model: Model)

  ghost predicate AllAllowed(s: State, ops: seq<Op>)
    requires Usable(s.fs)
    decreases |ops|
  {
    ops == [] ||
    (Allowed(s.fs, s.model, ops[0]) && (StepUsable(s.fs, ops[0]); AllAllowed(Next(s, ops[0]), ops[1..])))
  }

  function Next(s: State, op: Op): State
    requires Usable(s.fs) && (|op.name| <= MAX_NAME ==> TailFits(s.fs.counters, op.name))
  {
    var r := Step(s.fs, op);
    State(r.fs, ModelStep(s.model, op, r.ok))
  }

  ghost function Run(s: State, ops: seq<Op>): State
    requires Usable(s.fs) && AllAllowed(s, ops)
    decreases |ops|
  {
    if ops == [] then s
    else
      StepUsable(s.fs, ops[0]);
      Run(Next(s, ops[0]), ops[1..])
  }

  /** No operation of the run is refused. */
  ghost predicate AllSucceed(s: State, ops: seq<Op>)
    requires Usable(s.fs) && AllAllowed(s, ops)
    decreases |ops|
  {
    ops == [] || (Step(s.fs, ops[0]).ok && (StepUsable(s.fs, ops[0]); AllSucceed(Next(s, ops[0]), ops[1..])))
  }

  /** The slots that a run appends to each directory. */
  ghost function LogAfter(s: State, log: Log, ops: seq<Op>): Log
    requires Usable(s.fs) && AllAllowed(s, ops)
    decreases |ops|
  {
    if ops == [] then log
    else
      StepUsable(s.fs, ops[0]);
      LogAfter(Next(s, ops[0]), LogStep(s.fs, log, ops[0]), ops[1..])
  }

  lemma StepKeeps(fs: Fs, chains: seq<seq<nat>>, objects: Objects, op: Op)
    returns (chains': seq<seq<nat>>, objects': Objects)
    requires ImageOk(fs, chains, objects) && Usable(fs) && Allowed(fs, Nodes(objects), op)
    ensures StepOk(fs, chains, objects, Step(fs, op), chains', objects', op)
  {
    match op
    case MakeDirectory(parent, name, stamp) =>
      chains', objects' := DirectoryStepKeeps(fs, chains, objects, parent, name, stamp);
    case MakeFile(parent, name, content, stamp) =>
      chains', objects' := FileStepKeeps(fs, chains, objects, parent, name, content, stamp);
  }

  lemma {:induction false} RunKeeps(s: State, chains: seq<seq<nat>>, objects: Objects, ops: seq<Op>)
    returns (chains': seq<seq<nat>>, objects': Objects)
    requires ImageOk(s.fs, chains, objects) && Nodes(objects) == s.model
    requires Usable(s.fs) && AllAllowed(s, ops)
    ensures var s' := Run(s, ops); ImageOk(s'.fs, chains', objects') && Nodes(objects') == s'.model
    ensures AllSucceed(s, ops) && Covered(chains, objects) ==> Covered(chains', objects')
    ensures LogOf(chains', objects') == LogAfter(s, LogOf(chains, objects), ops)
    decreases |ops|
  {
    hide LogOf, LogStep, ImageOk, Usable, Step, ModelStep, Readable, TailFits, Covered;
    if ops == [] {
      chains', objects' := chains, objects;
    } else {
      StepUsable(s.fs, ops[0]);
      var chains1, objects1 := StepKeeps(s.fs, chains, objects, ops[0]);
      chains', objects' := RunKeeps(Next(s, ops[0]), chains1, objects1, ops[1..]);
    }
  }

  /** A formatted volume, on which nothing but the root directory should be found. */
  function Start(f: Format, labelSlot: Slot): (s: State)
    requires ValidFormat(f)
    ensures Usable(s.fs)
  {
    FormattedIsUsable(f, labelSlot);
    State(Formatted(f, labelSlot), EMPTY_MODEL)
  }

  // ---------------------------------------------------------------- what the reader finds

  lemma ReadChainInData(v: Volume, chains: seq<seq<nat>>, k: nat)
    requires VolumeOk(v, chains) && k < |chains| && InData(v, chains[k])
    ensures chains[k] != [] && ReadChain(v.fat0, chains[k][0]) == Some(chains[k]) && ChainInData(v.data, chains[k])
  {
    assert IsChain(v.fat0, chains[k]);
    ReadChainFindsChain(v.fat0, |v.data|, chains[k]);
  }

  /** Reading a directory's chain lists its children. */
  lemma ReadDirectoryLists(v: Volume, chains: seq<seq<nat>>, k: nat, path: Path, raw: RawDirectory, content: seq<Slot>,
    children: seq<Entry>)
    requires VolumeOk(v, chains) && k < |chains| && DirOk(v, chains[k], path, raw, content, children)
    ensures chains[k] != []
    ensures var slots := ReadDirectory(v, chains[k][0]);
      slots.Some? && content <= slots.value && Listing(slots.value) == children
  {
    var chain := chains[k];
    ReadChainInData(v, chains, k);
    DirectorySlots(v, chain, raw, content);
    var slots := ChainSlots(v.data, chain);
    var rest := slots[|content|..];
    assert slots == content + rest;
    ScanAppend(START, content, rest);
    ScanZeros(ScanSlots(START, content), rest);
  }

  /** The slots of a directory's chain: its content, then slots that are not in use. */
  lemma DirectorySlots(v: Volume, chain: seq<nat>, d: RawDirectory, content: seq<Slot>)
    requires DirectoryHolds(v, chain, d, content)
    ensures var slots := ChainSlots(v.data, chain);
      content <= slots && forall i :: |content| <= i < |slots| ==> slots[i][0] == 0
  {
    hide ChainSlots, SlotsOf;
    var front, last := ChainSlots(v.data, Front(chain)), SlotsOf(v.data[d.cluster]);
    assert chain == Front(chain) + [Last(chain)];
    ChainSlotsAppend(v.data, Front(chain), [Last(chain)]);
    ChainSlotsOne(v.data, Last(chain));
    var slots := front + last;
    assert slots == front + (last[..d.entryIndex] + last[d.entryIndex..]);
    forall i | |content| <= i < |slots|
      ensures slots[i][0] == 0
    {
      assert slots[i] == SlotAt(v, d.cluster, i - |front|);
    }
  }

  lemma ReadFileReads(v: Volume, chains: seq<seq<nat>>, k: nat, bytes: seq<byte>)
    requires VolumeOk(v, chains) && k < |chains| && FileOk(v, chains[k], bytes)
    ensures chains[k] != [] && ReadFile(v, chains[k][0], |bytes|) == Some(bytes)
  {
    ReadChainInData(v, chains, k);
    var all := ChainBytes(v.data, chains[k]);
    assert all[..|bytes|] == bytes;
  }

  /** All paths that lead to an object are made of directories. */
  lemma {:induction false} PrefixIsDirectory(objects: Objects, q: Path, n: nat)
    requires forall p :: p in objects ==> Listed(objects, p)
    requires q in objects && n < |q|
    ensures q[..n] in objects && objects[q[..n]].DirObject?
    decreases |q|
  {
    assert Listed(objects, q);
    assert q[..|q| - 1] == Front(q);
    if n < |q| - 1 {
      PrefixIsDirectory(objects, Front(q), n);
      assert Front(q)[..n] == q[..n];
    }
  }

  lemma NamesAreFound(chains: seq<seq<nat>>, objects: Objects, path: Path, children: seq<Entry>, name: Name)
    requires path in objects && objects[path].DirObject? && objects[path].children == children
    requires ChildrenOk(chains, objects, path, children)
    requires path + [name] in objects ==> Listed(objects, path + [name])
    ensures var i := FindName(children, name);
      if path + [name] in objects then i < |children| && Describes(children[i], chains, objects[path + [name]])
      else i == |children|
  {
    var i := FindName(children, name);
    if path + [name] in objects {
      PathBelow(path, name);
      assert NameListed(children, name);
    }
    if i < |children| {
      assert path + [children[i].name] in objects;
    }
  }

  /** Where one step along a path leads. */
  ghost predicate StepLeads(v: Volume, chains: seq<seq<nat>>, objects: Objects, path: Path, e: Entry, name: Name) {
    var slots := ReadDirectory(v, e.first);
    && slots.Some?
    && var entries, below := Listing(slots.value), path + [name];
       var i := FindName(entries, name);
       if below in objects then i < |entries| && Describes(entries[i], chains, objects[below]) else i == |entries|
  }

  /** One step along a path. */
  lemma LocateStep(fs: Fs, chains: seq<seq<nat>>, objects: Objects, path: Path, e: Entry, name: Name)
    requires ImageOk(fs, chains, objects) && path in objects && Describes(e, chains, objects[path])
    ensures e.directory == objects[path].DirObject?
    ensures objects[path].DirObject? ==> StepLeads(fs.volume, chains, objects, path, e, name)
  {
    hide DirOk, Listing, ReadDirectory, ChildrenOk, Listed;
    var o, below := objects[path], path + [name];
    if o.DirObject? {
      assert ObjectOk(fs.volume, fs.root, chains, path, o);
      ReadDirectoryLists(fs.volume, chains, o.chain, path, Find(fs.root, path).value, o.content, o.children);
      NamesAreFound(chains, objects, path, o.children, name);
    }
  }

  /** Nothing lies below a file or below a path that does not exist. */
  lemma NothingBelow(fs: Fs, chains: seq<seq<nat>>, objects: Objects, path: Path, rest: Path)
    requires ImageOk(fs, chains, objects) && path in objects && rest != []
    ensures path + rest in objects ==> objects[path].DirObject? && path + [rest[0]] in objects
  {
    hide ObjectsOk, VolumeOk, Listed, ChildrenOk, DotsOk;
    if path + rest in objects {
      PrefixIsDirectory(objects, path + rest, |path|);
      assert (path + rest)[..|path|] == path;
      if |rest| > 1 {
        PrefixIsDirectory(objects, path + rest, |path| + 1);
        assert (path + rest)[..|path| + 1] == path + [rest[0]];
      } else {
        assert path + rest == path + [rest[0]];
      }
    }
  }

  /** Following a path from an object's entry leads to the object there, or nowhere. */
  lemma {:induction false} LocateFinds(fs: Fs, chains: seq<seq<nat>>, objects: Objects, path: Path, e: Entry,
    rest: Path)
    requires ImageOk(fs, chains, objects) && path in objects && Describes(e, chains, objects[path])
    ensures var found := Locate(fs.volume, e, rest);
      if path + rest in objects then found.Some? && Describes(found.value, chains, objects[path + rest])
        else found == None
    decreases |rest|
  {
    hide ImageOk, Describes, Listing, ReadDirectory;
    if rest == [] {
      assert path + rest == path;
    } else {
      var below := path + [rest[0]];
      assert path + rest == below + rest[1..];
      LocateStep(fs, chains, objects, path, e, rest[0]);
      NothingBelow(fs, chains, objects, path, rest);
      if objects[path].DirObject? && below in objects {
        var entries := Listing(ReadDirectory(fs.volume, e.first).value);
        LocateFinds(fs, chains, objects, below, entries[FindName(entries, rest[0])], rest[1..]);
      }
    }
  }

  lemma RootIsDescribed(fs: Fs, chains: seq<seq<nat>>, objects: Objects)
    requires ImageOk(fs, chains, objects)
    ensures ROOT in objects && objects[ROOT].DirObject? && Describes(ROOT_ENTRY, chains, objects[ROOT])
  {
    assert ObjectOk(fs.volume, fs.root, chains, ROOT, objects[ROOT]);
  }

  lemma FileIsRead(fs: Fs, chains: seq<seq<nat>>, objects: Objects, path: Path, e: Entry)
    requires ImageOk(fs, chains, objects) && path in objects && Describes(e, chains, objects[path])
    ensures e.directory == objects[path].DirObject?
    ensures objects[path].FileObject? ==> ReadFile(fs.volume, e.first, e.size) == Some(objects[path].bytes)
  {
    hide ReadFile, FileOk, DirOk;
    assert ObjectOk(fs.volume, fs.root, chains, path, objects[path]);
    if objects[path].FileObject? {
      ReadFileReads(fs.volume, chains, objects[path].chain, objects[path].bytes);
    }
  }

  /** On an image in order the reader finds the model, path by path. */
  lemma LookupFindsModel(fs: Fs, chains: seq<seq<nat>>, objects: Objects, path: Path)
    requires ImageOk(fs, chains, objects)
    ensures Lookup(fs.volume, path) == if path in Nodes(objects) then Some(Nodes(objects)[path]) else None
  {
    hide ImageOk, Describes, Locate, ReadFile;
    RootIsDescribed(fs, chains, objects);
    LocateFinds(fs, chains, objects, ROOT, ROOT_ENTRY, path);
    assert ROOT + path == path;
    if path in objects {
      FileIsRead(fs, chains, objects, path, Locate(fs.volume, ROOT_ENTRY, path).value);
    }
  }

  /**
   * After any run of operations on a formatted volume, some of which may have been refused, the
   * reader finds at every path exactly what the successful operations created there: every
   * directory, every file with its bytes, and nothing else.
   */
  lemma ReaderFindsWhatWasCreated(f: Format, labelSlot: Slot, ops: seq<Op>, path: Path)
    requires ValidFormat(f) && IsLabel(labelSlot) && AllAllowed(Start(f, labelSlot), ops)
    ensures var s := Run(Start(f, labelSlot), ops);
      Lookup(s.fs.volume, path) == if path in s.model then Some(s.model[path]) else None
  {
    FormattedIsOk(f, labelSlot);
    var chains, objects := RunKeeps(Start(f, labelSlot), [[2]], map[ROOT := DirObject(0, [labelSlot], [])], ops);
    LookupFindsModel(Run(Start(f, labelSlot), ops).fs, chains, objects, path);
  }

  /**
   * After any run, every directory but the root begins with `.` and `..`: the first names the
   * cluster its listing gives, the second the cluster of the directory above, or 0 for the root.
   */
  lemma DotEntriesAreRight(f: Format, labelSlot: Slot, ops: seq<Op>, path: Path)
    requires ValidFormat(f) && IsLabel(labelSlot) && AllAllowed(Start(f, labelSlot), ops)
    requires var s := Run(Start(f, labelSlot), ops);
      path != ROOT && path in s.model && s.model[path] == DirectoryNode
    ensures var v := Run(Start(f, labelSlot), ops).fs.volume;
      var own, above := Locate(v, ROOT_ENTRY, path), Locate(v, ROOT_ENTRY, Front(path));
      && own.Some? && above.Some?
      && var slots := ReadDirectory(v, own.value.first);
      && slots.Some? && |slots.value| >= 2
      && IsDotSlot(slots.value[0], DOT_NAME, own.value.first)
      && IsDotSlot(slots.value[1], DOT_DOT_NAME, if Front(path) == ROOT then 0 else above.value.first)
      && IsDot(slots.value[0]) && IsDotDot(slots.value[1])
  {
    FormattedIsOk(f, labelSlot);
    var chains, objects := RunKeeps(Start(f, labelSlot), [[2]], map[ROOT := DirObject(0, [labelSlot], [])], ops);
    var s := Run(Start(f, labelSlot), ops);
    DotsOnImage(s.fs, chains, objects, path);
    var slots := ReadDirectory(s.fs.volume, Locate(s.fs.volume, ROOT_ENTRY, path).value.first).value;
    DotNames(slots[0]);
    DotNames(slots[1]);
  }

  lemma DotNames(slot: Slot)
    ensures RawName(slot) == DOT_NAME ==> IsDot(slot)
    ensures RawName(slot) == DOT_DOT_NAME ==> IsDotDot(slot)
  {
    assert forall i :: 0 <= i < 11 ==> slot[i] == RawName(slot)[i];
  }

  lemma DotsOnImage(fs: Fs, chains: seq<seq<nat>>, objects: Objects, path: Path)
    requires ImageOk(fs, chains, objects) && path != ROOT && path in objects && objects[path].DirObject?
    ensures var own, above := Locate(fs.volume, ROOT_ENTRY, path), Locate(fs.volume, ROOT_ENTRY, Front(path));
      && own.Some? && above.Some?
      && var slots := ReadDirectory(fs.volume, own.value.first);
      && slots.Some? && |slots.value| >= 2
      && IsDotSlot(slots.value[0], DOT_NAME, own.value.first)
      && IsDotSlot(slots.value[1], DOT_DOT_NAME, if Front(path) == ROOT then 0 else above.value.first)
  {
    hide Inv, ImageOk, Describes, Locate, ReadDirectory, IsDotSlot, Listing;
    var o := objects[path];
    DotsAndSlots(fs, chains, objects, path);
    RootIsDescribed(fs, chains, objects);
    LocateFinds(fs, chains, objects, ROOT, ROOT_ENTRY, path);
    LocateFinds(fs, chains, objects, ROOT, ROOT_ENTRY, Front(path));
    assert ROOT + path == path && ROOT + Front(path) == Front(path);
    DescribedFirst(chains, Locate(fs.volume, ROOT_ENTRY, path).value, o);
    DescribedFirst(chains, Locate(fs.volume, ROOT_ENTRY, Front(path)).value, objects[Front(path)]);
  }

  lemma DescribedFirst(chains: seq<seq<nat>>, e: Entry, o: Object)
    requires Describes(e, chains, o)
    ensures o.chain < |chains| && chains[o.chain] != [] && e.first == chains[o.chain][0]
  {
  }

  /** The first two slots of a directory's chain are its dot slots. */
  lemma DotsAndSlots(fs: Fs, chains: seq<seq<nat>>, objects: Objects, path: Path)
    requires ImageOk(fs, chains, objects) && path != ROOT && path in objects && objects[path].DirObject?
    ensures var own, parent := objects[path], Front(path);
      && own.chain < |chains| && chains[own.chain] != []
      && parent in objects && objects[parent].chain < |chains| && chains[objects[parent].chain] != []
      && var slots := ReadDirectory(fs.volume, chains[own.chain][0]);
      && slots.Some? && |slots.value| >= 2
      && IsDotSlot(slots.value[0], DOT_NAME, chains[own.chain][0])
      && IsDotSlot(slots.value[1], DOT_DOT_NAME, if parent == ROOT then 0 else chains[objects[parent].chain][0])
  {
    hide IsDotSlot, ReadDirectory, Listing, DirOk, Listed, ChildrenOk;
    var o := objects[path];
    assert DotsOk(chains, objects, path);
    assert ObjectOk(fs.volume, fs.root, chains, path, o);
    ReadDirectoryLists(fs.volume, chains, o.chain, path, Find(fs.root, path).value, o.content, o.children);
  }

  /** After any run the FATs are equal, and the record written at close is exact. */
  lemma FreeRecordAfterRun(f: Format, labelSlot: Slot, ops: seq<Op>)
    requires ValidFormat(f) && IsLabel(labelSlot) && AllAllowed(Start(f, labelSlot), ops)
    ensures var v := Run(Start(f, labelSlot), ops).fs.volume;
      && v.fat0 == v.fat1
      && 2 <= |v.data| <= |v.fat0| && v.free == CountFree(v.fat0, 2, |v.data|)
      && (forall c :: 2 <= c < v.next && c < |v.fat0| ==> v.fat0[c] != 0)
      && (v.free > 0 ==> v.next < |v.data| && v.fat0[v.next] == 0)
  {
    FormattedIsOk(f, labelSlot);
    var chains, objects := RunKeeps(Start(f, labelSlot), [[2]], map[ROOT := DirObject(0, [labelSlot], [])], ops);
    FreeRecordIsExact(Run(Start(f, labelSlot), ops).fs.volume, chains);
  }
}
