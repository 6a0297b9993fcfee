/**
 * What every operation keeps: an account of the volume that says, for each path created so far,
 * which chain it lives on and what it holds, and how directory listings and paths correspond.
 */
module FatInvariant {
  import opened Bytes
  import opened Options
  import opened FatClusters
  import opened FatNames
  import opened FatReader
  import opened FatWriter
  import opened FatFilesystem

  /** An existing directory or file: the index of its chain, and what it holds. */
  datatype Object =
    | DirObject(chain: nat, content: seq<Slot>, children: seq<Entry>)
    | FileObject(chain: nat, bytes: seq<byte>)

  type Objects = map<Path, Object>

  const ROOT: Path := []

  // ---------------------------------------------------------------- one object

  /** Reading the slots lists the children; only a directory that can never grow ends in mid-name. */
  ghost predicate Lists(free: nat, content: seq<Slot>, children: seq<Entry>) {
    var scan := ScanSlots(START, content);
    scan.entries == children && !scan.ended && (scan.pending != NoName ==> free == 0)
  }

  /** The short slot of a directory of that name and first cluster. */
  ghost predicate OwnSlot(slot: Slot, name: Name, first: nat) {
    exists counter: nat, stamp: Stamp :: counter < COUNTER_LIMIT
      && slot == ShortSlot(ShortName(name, counter), ATTR_DIRECTORY, stamp, first, 0)
  }

  /** What a directory remembers as its own entry is its short slot, and names its first cluster. */
  ghost predicate SelfNames(v: Volume, self: Option<SlotRef>, name: Name, first: nat)
    requires Shaped(v) && SlotSized(v)
  {
    && self.Some? && RefOk(v, self)
    && var slot := SlotAt(v, self.value.cluster, self.value.index);
      slot[0] != 0 && FirstCluster(slot) == first && OwnSlot(slot, name, first)
  }

  ghost predicate DirOk(v: Volume, chain: seq<nat>, path: Path, raw: RawDirectory, content: seq<Slot>,
    children: seq<Entry>) {
    && DirectoryHolds(v, chain, raw, content)
    && Lists(v.free, content, children)
    && if path == ROOT then raw.self == None && chain[0] == 2 else SelfNames(v, raw.self, Last(path), chain[0])
  }

  ghost predicate FileOk(v: Volume, chain: seq<nat>, bytes: seq<byte>) {
    InData(v, chain) && bytes <= ChainBytes(v.data, chain)
  }

  ghost predicate ObjectOk(v: Volume, root: FatDirectory, chains: seq<seq<nat>>, path: Path, o: Object) {
    && o.chain < |chains|
    && match o
      case DirObject(k, content, children) =>
        Find(root, path).Some? && DirOk(v, chains[k], path, Find(root, path).value, content, children)
      case FileObject(k, bytes) =>
        Find(root, path).None? && FileOk(v, chains[k], bytes)
  }

  // ---------------------------------------------------------------- how objects hang together

  /** A listed entry describes an object. */
  ghost predicate Describes(e: Entry, chains: seq<seq<nat>>, o: Object) {
    && o.chain < |chains| && chains[o.chain] != [] && e.first == chains[o.chain][0]
    && e.directory == o.DirObject?
    && (o.FileObject? ==> e.size == |o.bytes|)
  }

  /** Every child listed in a directory is an object one level below, and no name is listed twice. */
  ghost predicate ChildrenOk(chains: seq<seq<nat>>, objects: Objects, path: Path, children: seq<Entry>) {
    && (forall i :: 0 <= i < |children| ==>
          path + [children[i].name] in objects && Describes(children[i], chains, objects[path + [children[i].name]]))
    && (forall i, j :: 0 <= i < j < |children| ==> children[i].name != children[j].name)
  }

  ghost predicate NameListed(children: seq<Entry>, name: Name) {
    exists i :: 0 <= i < |children| && children[i].name == name
  }

  /** Every object but the root is listed in the directory above it. */
  ghost predicate Listed(objects: Objects, path: Path) {
    path != ROOT ==>
      (&& Front(path) in objects && objects[Front(path)].DirObject?
       && NameListed(objects[Front(path)].children, Last(path)))
  }

  /** A directory other than the root begins with `.` and `..`, which name it and its parent (0 for the root). */
  ghost predicate DotsOk(chains: seq<seq<nat>>, objects: Objects, path: Path)
    requires path in objects && objects[path].DirObject?
  {
    path != ROOT ==>
      (var own, parent := objects[path], Front(path);
       && parent in objects && objects[parent].chain < |chains| && own.chain < |chains|
       && chains[own.chain] != [] && chains[objects[parent].chain] != []
       && |own.content| >= 2
       && IsDotSlot(own.content[0], DOT_NAME, chains[own.chain][0])
       && IsDotSlot(own.content[1], DOT_DOT_NAME, if parent == ROOT then 0 else chains[objects[parent].chain][0]))
  }

  ghost predicate IsDotSlot(slot: Slot, name: seq<byte>, first: nat) {
    RawName(slot) == name && IsDirectory(slot) && FirstCluster(slot) == first
  }

  ghost predicate TreeOk(chains: seq<seq<nat>>, objects: Objects) {
    && (forall p :: p in objects && objects[p].DirObject? ==> ChildrenOk(chains, objects, p, objects[p].children))
    && (forall p :: p in objects ==> Listed(objects, p))
    && (forall p :: p in objects && objects[p].DirObject? ==> DotsOk(chains, objects, p))
    && (forall p, q :: p in objects && q in objects && p != q ==> objects[p].chain != objects[q].chain)
  }

  ghost predicate ObjectsOk(v: Volume, root: FatDirectory, chains: seq<seq<nat>>, objects: Objects) {
    && ROOT in objects && objects[ROOT].DirObject?
    && (forall p :: p in objects ==> ObjectOk(v, root, chains, p, objects[p]))
    && (forall p :: Find(root, p).Some? ==> p in objects)
  }

  ghost predicate VolumeOk(v: Volume, chains: seq<seq<nat>>) {
    Chained(v, chains) && FreshZero(v) && SlotSized(v)
  }

  /** The invariant of the image. */
  ghost predicate Inv(v: Volume, root: FatDirectory, chains: seq<seq<nat>>, objects: Objects) {
    VolumeOk(v, chains) && ObjectsOk(v, root, chains, objects) && TreeOk(chains, objects)
  }

  // ---------------------------------------------------------------- objects that an operation leaves alone

  /** An object whose clusters and directory state are untouched stays as it is. */
  lemma ObjectFrame(v: Volume, v': Volume, root: FatDirectory, root': FatDirectory,
    chains: seq<seq<nat>>, chains': seq<seq<nat>>, path: Path, o: Object)
    requires ObjectOk(v, root, chains, path, o) && Find(root', path) == Find(root, path)
    requires o.chain < |chains'| && chains'[o.chain] == chains[o.chain]
    requires Shaped(v) && SlotSized(v) && Shaped(v') && SlotSized(v') && KeepsSlots(v, v') && v'.free <= v.free
    requires forall c :: c in chains[o.chain] && c < |v.data| ==> v'.data[c] == v.data[c]
    ensures ObjectOk(v', root', chains', path, o)
  {
    var chain := chains[o.chain];
    assert forall i :: 0 <= i < |chain| ==> chain[i] in chain;
    match o
    case DirObject(_, content, children) =>
      ChainSlotsFrame(v.data, v'.data, Front(chain));
      DirectoryFrame(v, v', chain, Find(root, path).value, content);
    case FileObject(_, bytes) =>
      ChainBytesFrame(v.data, v'.data, chain);
  }

  lemma DirectoryFrame(v: Volume, v': Volume, chain: seq<nat>, d: RawDirectory, content: seq<Slot>)
    requires DirectoryHolds(v, chain, d, content)
    requires Shaped(v') && v'.clusterSize == v.clusterSize && |v'.data| == |v.data|
    requires forall i :: 0 <= i < |chain| ==> v'.data[chain[i]] == v.data[chain[i]]
    ensures DirectoryHolds(v', chain, d, content)
  {
    ChainSlotsFrame(v.data, v'.data, Front(chain));
    forall i | d.entryIndex <= i < MaxEntries(v)
      ensures SlotAt(v', d.cluster, i)[0] == 0
    {
      assert SlotAt(v', d.cluster, i) == SlotAt(v, d.cluster, i);
    }
  }

  /** Growing one chain, or adding chains, does not change what entries and dot slots refer to. */
  ghost predicate ChainsGrow(chains: seq<seq<nat>>, chains': seq<seq<nat>>) {
    |chains| <= |chains'| && forall k :: 0 <= k < |chains| ==> chains[k] <= chains'[k]
  }

  lemma TreeGrows(chains: seq<seq<nat>>, chains': seq<seq<nat>>, objects: Objects)
    requires TreeOk(chains, objects) && ChainsGrow(chains, chains')
    ensures TreeOk(chains', objects)
  {
    forall p | p in objects && objects[p].DirObject?
      ensures ChildrenOk(chains', objects, p, objects[p].children) && DotsOk(chains', objects, p)
    {
      assert ChildrenOk(chains, objects, p, objects[p].children);
      assert DotsOk(chains, objects, p);
    }
  }

  /** Taking clusters for something new and filling only those keeps the invariant. */
  lemma InvWithNewChain(v: Volume, v': Volume, root: FatDirectory, chains: seq<seq<nat>>, chain: seq<nat>,
    objects: Objects)
    requires Inv(v, root, chains, objects)
    requires Chained(v', chains + [chain]) && FreshZero(v') && SlotSized(v') && v'.free <= v.free
    requires KeepsSlots(v, v') && KeepsOthers(v, v', chain)
    requires forall c :: c in chain ==> c >= v.next
    ensures Inv(v', root, chains + [chain], objects)
  {
    var chains' := chains + [chain];
    TreeGrows(chains, chains', objects);
    forall p | p in objects
      ensures ObjectOk(v', root, chains', p, objects[p])
    {
      assert ObjectOk(v, root, chains, p, objects[p]);
      assert IsChain(v.fat0, chains[objects[p].chain]);
      ObjectFrame(v, v', root, root, chains, chains', p, objects[p]);
    }
  }

  // ---------------------------------------------------------------- declaring a name in a directory

  /** The volume and the chains after the directory on chain k took more slots. */
  ghost predicate VolumeGrew(v: Volume, w: Volume, chains: seq<seq<nat>>, chains': seq<seq<nat>>, k: nat) {
    && Shaped(v) && SlotSized(v) && k < |chains|
    && VolumeOk(w, chains')
    && |chains'| == |chains| && chains' == chains[k := chains'[k]] && chains[k] <= chains'[k]
    && w.free <= v.free && w.next >= v.next
    && KeepsSlots(v, w) && KeepsOthers(v, w, chains[k])
  }

  /** The position just before a directory's next slot. */
  function Previous(d: RawDirectory): SlotRef
    requires d.entryIndex > 0
  {
    SlotRef(d.cluster, d.entryIndex - 1)
  }

  /** After appending the slots of a name, the parent lists one more child, or on failure the same ones. */
  lemma ParentAfterDeclare(v: Volume, chains: seq<seq<nat>>, o: Object, raw: RawDirectory, parent: Path,
    name: Name, counter: nat, directory: bool, first: nat, size: nat, stamp: Stamp)
    returns (chains': seq<seq<nat>>, content: seq<Slot>)
    requires Chained(v, chains) && FreshZero(v) && SlotSized(v)
    requires o.DirObject? && o.chain < |chains| && DirOk(v, chains[o.chain], parent, raw, o.content, o.children)
    requires Readable(name) && counter < COUNTER_LIMIT && first < 0x1_0000_0000 && size < 0x1_0000_0000
    requires ScanSlots(START, o.content).pending == NoName
    ensures var slots := EntrySlots(name, counter, directory, first, size, stamp);
      var w := WriteSlots(v, raw, slots);
      && VolumeGrew(v, w.volume, chains, chains', o.chain)
      && content == o.content + slots[..Fits(v, raw, |slots|)]
      && DirOk(w.volume, chains'[o.chain], parent, w.directory, content,
          if w.ok then o.children + [Entry(name, directory, first, if directory then 0 else size)] else o.children)
      && (w.ok <==> Fits(v, raw, |slots|) == |slots|) && (w.ok ==> w.directory.entryIndex > 0)
      && (w.ok && directory ==> SelfNames(w.volume, Some(Previous(w.directory)), name, first))
  {
    hide Fits, EntrySlots, WriteSlots, DirOk, DirectoryHolds, Lists, Appended, VolumeGrew, SelfNames, Chained,
      FreshZero, ScanSlots;
    DirOkParts(v, chains[o.chain], parent, raw, o.content, o.children);
    var slots := EntrySlots(name, counter, directory, first, size, stamp);
    var w := WriteSlots(v, raw, slots);
    var written;
    chains', written := WriteSlotsAppends(v, chains, o.chain, raw, o.content, slots);
    AppendedParts(v, chains, o.chain, raw, o.content, slots, w, chains', written);
    content := o.content + slots[..written];
    ListsMore(v, o.content, o.children, name, counter, directory, first, size, stamp, written, w.volume.free, w.ok);
    DirectoryGrew(v, w, chains[o.chain], chains'[o.chain], parent, raw, o.content, o.children, content,
      if w.ok then o.children + [Entry(name, directory, first, if directory then 0 else size)] else o.children);
    if w.ok {
      assert content == o.content + slots;
      LastSlotWritten(w.volume, chains'[o.chain], w.directory, o.content, slots);
      DeclaredSlot(name, counter, directory, first, size, stamp);
      if directory {
        NamedByPrevious(w.volume, w.directory, name, counter, stamp, first);
      }
    }
  }

  lemma DirOkParts(v: Volume, chain: seq<nat>, path: Path, raw: RawDirectory, content: seq<Slot>, children: seq<Entry>)
    requires DirOk(v, chain, path, raw, content, children)
    ensures DirectoryHolds(v, chain, raw, content) && Lists(v.free, content, children)
    ensures Shaped(v) && SlotSized(v) && IsCluster(v, raw.cluster)
  {
  }

  lemma AppendedParts(v: Volume, chains: seq<seq<nat>>, k: nat, d: RawDirectory, content: seq<Slot>, slots: seq<Slot>,
    w: Written, chains': seq<seq<nat>>, written: nat)
    requires k < |chains| && Appended(v, chains, k, d, content, slots, w, chains', written)
    ensures Shaped(w.volume) && SlotSized(w.volume) && Shaped(v) && SlotSized(v) && KeepsSlots(v, w.volume)
    ensures VolumeGrew(v, w.volume, chains, chains', k) && k < |chains'| && chains[k] <= chains'[k]
    ensures written == Fits(v, d, |slots|) && (w.ok <==> written == |slots|) && (!w.ok ==> w.volume.free == 0)
    ensures DirectoryHolds(w.volume, chains'[k], w.directory, content + slots[..written])
    ensures w.directory.self == d.self
  {
    hide Chained, FreshZero, KeepsSlots, KeepsOthers, Fits;
  }

  lemma NamedByPrevious(v: Volume, d: RawDirectory, name: Name, counter: nat, stamp: Stamp, first: nat)
    requires Shaped(v) && SlotSized(v) && IsCluster(v, d.cluster) && 0 < d.entryIndex <= MaxEntries(v)
    requires counter < COUNTER_LIMIT
    requires var slot := SlotAt(v, d.cluster, d.entryIndex - 1);
      && slot[0] != 0 && FirstCluster(slot) == first
      && slot == ShortSlot(ShortName(name, counter), ATTR_DIRECTORY, stamp, first, 0)
    ensures SelfNames(v, Some(Previous(d)), name, first)
  {
    hide ShortName, ShortSlot, FirstCluster, SlotAt;
    assert OwnSlot(SlotAt(v, d.cluster, d.entryIndex - 1), name, first);
  }

  lemma DirectoryGrew(v: Volume, w: Written, chain: seq<nat>, chain': seq<nat>, path: Path, raw: RawDirectory,
    content: seq<Slot>, children: seq<Entry>, content': seq<Slot>, children': seq<Entry>)
    requires DirOk(v, chain, path, raw, content, children) && chain <= chain'
    requires DirectoryHolds(w.volume, chain', w.directory, content') && KeepsSlots(v, w.volume)
    requires Lists(w.volume.free, content', children') && w.directory.self == raw.self
    ensures DirOk(w.volume, chain', path, w.directory, content', children')
  {
    hide Lists, ChainSlots;
    assert chain'[0] == chain[0];
    if path != ROOT {
      var ref := raw.self.value;
      assert SlotAt(w.volume, ref.cluster, ref.index) == SlotAt(v, ref.cluster, ref.index);
    }
  }

  /** Listing after some leading slots of an entry were appended. */
  lemma ListsMore(v: Volume, content: seq<Slot>, children: seq<Entry>, name: Name, counter: nat, directory: bool,
    first: nat, size: nat, stamp: Stamp, written: nat, free: nat, ok: bool)
    requires Lists(v.free, content, children) && ScanSlots(START, content).pending == NoName
    requires Readable(name) && counter < COUNTER_LIMIT && first < 0x1_0000_0000 && size < 0x1_0000_0000
    requires var slots := EntrySlots(name, counter, directory, first, size, stamp);
      written <= |slots| && (ok <==> written == |slots|)
    requires !ok ==> free == 0
    ensures Lists(free, content + EntrySlots(name, counter, directory, first, size, stamp)[..written],
      if ok then children + [Entry(name, directory, first, if directory then 0 else size)] else children)
  {
    hide EntrySlots, ScanSlots;
    var slots := EntrySlots(name, counter, directory, first, size, stamp);
    ScanAppend(START, content, slots[..written]);
    if ok {
      assert slots[..written] == slots;
      ScanEntry(children, name, counter, directory, first, size, stamp);
    } else {
      ScanPartialEntry(children, name, counter, directory, first, size, stamp, written);
    }
  }

  /** The slot before a directory's position is the last one appended. */
  lemma LastSlotWritten(v: Volume, chain: seq<nat>, d: RawDirectory, before: seq<Slot>, slots: seq<Slot>)
    requires DirectoryHolds(v, chain, d, before + slots) && slots != [] && d.entryIndex > 0
    ensures Shaped(v) && SlotSized(v) && IsCluster(v, d.cluster) && d.entryIndex <= MaxEntries(v)
    ensures SlotAt(v, d.cluster, d.entryIndex - 1) == Last(slots)
  {
    var content, tail := before + slots, SlotsOf(v.data[d.cluster])[..d.entryIndex];
    assert Last(content) == Last(tail);
    assert Last(content) == Last(slots);
  }

  /** The last slot of an entry is in use and names the first cluster. */
  lemma DeclaredSlot(name: Name, counter: nat, directory: bool, first: nat, size: nat, stamp: Stamp)
    requires Readable(name) && counter < COUNTER_LIMIT && first < 0x1_0000_0000 && size < 0x1_0000_0000
    ensures var slots := EntrySlots(name, counter, directory, first, size, stamp);
      && |slots| > 0 && Last(slots)[0] != 0 && FirstCluster(Last(slots)) == first
      && (directory ==> Last(slots) == ShortSlot(ShortName(name, counter), ATTR_DIRECTORY, stamp, first, 0))
  {
    var short := ShortName(name, counter);
    var attributes, size' := if directory then ATTR_DIRECTORY else ATTR_ARCHIVE, if directory then 0 else size;
    ShortSlotFields(short, attributes, stamp, first, size');
    ShortNameVisibility(name, counter);
    var slot := ShortSlot(short, attributes, stamp, first, size');
    assert slot[0] == RawName(slot)[0];
    assert Last(EntrySlots(name, counter, directory, first, size, stamp)) == slot by {
      hide ShortSlot, ShortName, LongSlots;
    }
  }

  // ---------------------------------------------------------------- the invariant after a declaration

  /** A cluster of one chain is on no other chain. */
  lemma OnOneChain(chains: seq<seq<nat>>, j: nat, k: nat, c: nat)
    requires Disjoint(chains) && j < |chains| && k < |chains| && j != k && c in chains[j]
    ensures c !in chains[k]
  {
  }

  /** An object on another chain is untouched when chain k took more clusters and slots. */
  lemma ObjectUntouched(v: Volume, w: Volume, root: FatDirectory, root': FatDirectory, chains: seq<seq<nat>>,
    chains': seq<seq<nat>>, k: nat, q: Path, o: Object)
    requires VolumeOk(v, chains) && VolumeGrew(v, w, chains, chains', k)
    requires ObjectOk(v, root, chains, q, o) && o.chain != k && Find(root', q) == Find(root, q)
    ensures ObjectOk(w, root', chains', q, o)
  {
    var j := o.chain;
    assert IsChain(v.fat0, chains[j]);
    forall c | c in chains[j] && c < |v.data|
      ensures w.data[c] == v.data[c]
    {
      OnOneChain(chains, j, k, c);
    }
    ObjectFrame(v, w, root, root', chains, chains', q, o);
  }

  /** Objects other than the parent are untouched when the parent takes more slots. */
  lemma OthersAfterDeclare(v: Volume, w: Volume, root: FatDirectory, root': FatDirectory, chains: seq<seq<nat>>,
    chains': seq<seq<nat>>, objects: Objects, parent: Path, q: Path)
    requires Inv(v, root, chains, objects) && parent in objects && q in objects && q != parent
    requires VolumeGrew(v, w, chains, chains', objects[parent].chain)
    requires Find(root', q) == Find(root, q)
    ensures ObjectOk(w, root', chains', q, objects[q])
  {
    hide VolumeOk, VolumeGrew, ObjectOk, Find;
    ObjectUntouched(v, w, root, root', chains, chains', objects[parent].chain, q, objects[q]);
  }

  /** The same object, or a directory that has more slots and more children. */
  ghost predicate Continues(o: Object, o': Object) {
    && o'.chain == o.chain
    && match o
      case DirObject(_, content, children) => o'.DirObject? && content <= o'.content && children <= o'.children
      case FileObject(_, bytes) => o' == o
  }

  ghost predicate Extends(objects: Objects, objects': Objects) {
    forall p :: p in objects ==> p in objects' && Continues(objects[p], objects'[p])
  }

  lemma ChildrenStill(chains: seq<seq<nat>>, chains': seq<seq<nat>>, objects: Objects, objects': Objects, p: Path,
    children: seq<Entry>)
    requires ChildrenOk(chains, objects, p, children) && ChainsGrow(chains, chains') && Extends(objects, objects')
    ensures ChildrenOk(chains', objects', p, children)
  {
    forall i | 0 <= i < |children|
      ensures p + [children[i].name] in objects' && Describes(children[i], chains', objects'[p + [children[i].name]])
    {
      var o := objects[p + [children[i].name]];
      assert Describes(children[i], chains, o);
      assert chains[o.chain] <= chains'[o.chain];
    }
  }

  lemma DotsStill(chains: seq<seq<nat>>, chains': seq<seq<nat>>, objects: Objects, objects': Objects, p: Path)
    requires p in objects && objects[p].DirObject? && DotsOk(chains, objects, p)
    requires ChainsGrow(chains, chains') && Extends(objects, objects')
    ensures DotsOk(chains', objects', p)
  {
    if p != ROOT {
      var o, above := objects[p], objects[Front(p)];
      assert chains[o.chain] <= chains'[o.chain] && chains[above.chain] <= chains'[above.chain];
    }
  }

  lemma ListedStill(objects: Objects, objects': Objects, p: Path)
    requires Listed(objects, p) && Extends(objects, objects')
    ensures Listed(objects', p)
  {
    if p != ROOT {
      var children, children' := objects[Front(p)].children, objects'[Front(p)].children;
      var i :| 0 <= i < |children| && children[i].name == Last(p);
      assert children'[i] == children[i];
    }
  }

  lemma TreeWithSameChildren(chains: seq<seq<nat>>, chains': seq<seq<nat>>, objects: Objects, parent: Path, o': Object)
    requires TreeOk(chains, objects) && ChainsGrow(chains, chains') && parent in objects
    requires Continues(objects[parent], o')
    requires o'.DirObject? && o'.children == objects[parent].children
    ensures TreeOk(chains', objects[parent := o'])
  {
    hide ChildrenOk, DotsOk, Listed, ChainsGrow;
    var objects' := objects[parent := o'];
    assert Extends(objects, objects');
    forall p | p in objects'
      ensures objects'[p].DirObject? ==>
        ChildrenOk(chains', objects', p, objects'[p].children) && DotsOk(chains', objects', p)
      ensures Listed(objects', p)
    {
      ListedStill(objects, objects', p);
      if objects'[p].DirObject? {
        ChildrenStill(chains, chains', objects, objects', p, objects[p].children);
        DotsStill(chains, chains', objects, objects', p);
      }
    }
  }

  /** All objects after the parent took more slots; `added` is a path the tree may have gained. */
  lemma ObjectsAfterDeclare(v: Volume, w: Volume, d: RawDirectory, root: FatDirectory, root': FatDirectory,
    chains: seq<seq<nat>>, chains': seq<seq<nat>>, objects: Objects, objects': Objects, parent: Path, added: set<Path>)
    requires Inv(v, root, chains, objects) && parent in objects && parent !in added && ROOT !in added
    requires VolumeGrew(v, w, chains, chains', objects[parent].chain)
    requires objects'.Keys == objects.Keys + added
    requires forall q :: q in objects && q != parent && q !in added ==> objects'[q] == objects[q]
    requires parent == ROOT ==> objects'[ROOT].DirObject?
    requires ObjectOk(w, root', chains', parent, objects'[parent])
    requires forall q :: q in added ==> ObjectOk(w, root', chains', q, objects'[q])
    requires forall q :: q != parent && q !in added ==> Find(root', q) == Find(root, q)
    ensures ObjectsOk(w, root', chains', objects')
  {
    hide VolumeGrew, ObjectOk, Find, TreeOk, VolumeOk;
    forall q | q in objects'
      ensures ObjectOk(w, root', chains', q, objects'[q])
    {
      if q != parent && q !in added {
        OthersAfterDeclare(v, w, root, root', chains, chains', objects, parent, q);
      }
    }
  }

  lemma InvAfterFailure(v: Volume, w: Written, root: FatDirectory, chains: seq<seq<nat>>, chains': seq<seq<nat>>,
    objects: Objects, parent: Path, o': Object)
    requires Inv(v, root, chains, objects) && parent in objects && Continues(objects[parent], o')
    requires VolumeGrew(v, w.volume, chains, chains', o'.chain)
    requires o'.DirObject? && DirOk(w.volume, chains'[o'.chain], parent, w.directory, o'.content, o'.children)
    requires o'.children == objects[parent].children
    ensures Inv(w.volume, SetRaw(root, parent, w.directory), chains', objects[parent := o'])
  {
    hide ObjectOk, ObjectsOk, Find, SetRaw, TreeOk, VolumeOk, DirOk, VolumeGrew, Continues, ChainsGrow;
    GrownParts(v, w.volume, chains, chains', objects[parent], o');
    var root' := SetRaw(root, parent, w.directory);
    ParentIsThere(v, root, chains, objects, parent);
    SetRawFinds(root, parent, w.directory);
    ParentIsOk(w.volume, root', chains', parent, o', w.directory);
    ObjectsAfterDeclare(v, w.volume, w.directory, root, root', chains, chains', objects, objects[parent := o'], parent,
      {});
    TreeWithSameChildren(chains, chains', objects, parent, o');
  }

  lemma GrownParts(v: Volume, w: Volume, chains: seq<seq<nat>>, chains': seq<seq<nat>>, o: Object, o': Object)
    requires VolumeGrew(v, w, chains, chains', o'.chain) && Continues(o, o')
    ensures VolumeOk(w, chains') && ChainsGrow(chains, chains') && |chains'| == |chains| && o'.chain < |chains|
    ensures o'.chain == o.chain && o'.DirObject? == o.DirObject?
  {
  }

  lemma SetRawFinds(root: FatDirectory, path: Path, raw: RawDirectory)
    requires Find(root, path).Some?
    ensures Find(SetRaw(root, path, raw), path) == Some(raw)
    ensures forall q :: q != path ==> Find(SetRaw(root, path, raw), q) == Find(root, q)
  {
    forall q
      ensures Find(SetRaw(root, path, raw), q) == if q == path then Some(raw) else Find(root, q)
    {
      FindAfterSetRaw(root, path, raw, q);
    }
  }

  lemma ParentIsThere(v: Volume, root: FatDirectory, chains: seq<seq<nat>>, objects: Objects, parent: Path)
    requires Inv(v, root, chains, objects) && parent in objects && objects[parent].DirObject?
    ensures Find(root, parent).Some?
  {
    assert ObjectOk(v, root, chains, parent, objects[parent]);
  }

  lemma ParentIsOk(v: Volume, root: FatDirectory, chains: seq<seq<nat>>, parent: Path, o: Object, d: RawDirectory)
    requires o.DirObject? && o.chain < |chains| && DirOk(v, chains[o.chain], parent, d, o.content, o.children)
    requires Find(root, parent) == Some(d)
    ensures ObjectOk(v, root, chains, parent, o)
  {
  }

  /** The parent's new list of children, the last of which is a new object. */
  lemma ChildrenWithNew(chains: seq<seq<nat>>, chains': seq<seq<nat>>, objects: Objects, objects': Objects,
    parent: Path, children: seq<Entry>, entry: Entry)
    requires ChildrenOk(chains, objects, parent, children) && ChainsGrow(chains, chains') && Extends(objects, objects')
    requires parent + [entry.name] !in objects && parent + [entry.name] in objects'
    requires Describes(entry, chains', objects'[parent + [entry.name]])
    ensures ChildrenOk(chains', objects', parent, children + [entry])
  {
    ChildrenStill(chains, chains', objects, objects', parent, children);
  }

  /** The parent lists one more child, and the child is there. */
  lemma TreeWithNewChild(chains: seq<seq<nat>>, chains': seq<seq<nat>>, objects: Objects, parent: Path, o': Object,
    entry: Entry, child: Object)
    requires TreeOk(chains, objects) && ChainsGrow(chains, chains') && parent in objects
    requires Continues(objects[parent], o')
    requires o'.DirObject? && o'.children == objects[parent].children + [entry] && parent + [entry.name] !in objects
    requires Describes(entry, chains', child)
    requires forall p :: p in objects ==> objects[p].chain != child.chain
    requires child.DirObject? ==>
      && child.children == []
      && DotsOk(chains', objects[parent := o'][parent + [entry.name] := child], parent + [entry.name])
    ensures TreeOk(chains', objects[parent := o'][parent + [entry.name] := child])
  {
    hide ChildrenOk, DotsOk, Listed, ChainsGrow, Describes, Continues, TreeOk;
    var path := parent + [entry.name];
    var objects' := objects[parent := o'][path := child];
    assert |path| == |parent| + 1;
    ContinuesParts(objects[parent], o');
    ExtendsByOne(objects, objects', parent, path);
    NewChildIsListed(objects', parent, o', entry);
    OldObjectsInTree(chains, chains', objects, objects', parent);
    ChildrenWithNew(chains, chains', objects, objects', parent, objects[parent].children, entry);
    if child.DirObject? {
      NoChildren(chains', objects', path);
    }
    AssembleTree(chains', objects, objects', parent, path);
  }

  lemma ContinuesParts(o: Object, o': Object)
    requires Continues(o, o')
    ensures o'.chain == o.chain && o'.DirObject? == o.DirObject?
  {
  }

  lemma NoChildren(chains: seq<seq<nat>>, objects: Objects, path: Path)
    ensures ChildrenOk(chains, objects, path, [])
  {
  }

  lemma ExtendsByOne(objects: Objects, objects': Objects, parent: Path, path: Path)
    requires parent in objects && path !in objects && objects'.Keys == objects.Keys + {path}
    requires Continues(objects[parent], objects'[parent])
    requires forall p :: p in objects && p != parent ==> objects'[p] == objects[p]
    ensures Extends(objects, objects')
  {
  }

  lemma AssembleTree(chains: seq<seq<nat>>, objects: Objects, objects': Objects, parent: Path, path: Path)
    requires parent in objects && path !in objects && objects'.Keys == objects.Keys + {path}
    requires forall p :: p in objects ==> Listed(objects', p) && objects'[p].DirObject? == objects[p].DirObject?
    requires forall p :: p in objects && objects[p].DirObject? ==> DotsOk(chains, objects', p)
    requires forall p :: p in objects && objects[p].DirObject? && p != parent ==>
      ChildrenOk(chains, objects', p, objects'[p].children)
    requires objects[parent].DirObject? && ChildrenOk(chains, objects', parent, objects'[parent].children)
    requires Listed(objects', path)
    requires objects'[path].DirObject? ==>
      DotsOk(chains, objects', path) && ChildrenOk(chains, objects', path, objects'[path].children)
    requires forall p :: p in objects ==>
      objects'[p].chain == objects[p].chain && objects[p].chain != objects'[path].chain
    requires forall p, q :: p in objects && q in objects && p != q ==> objects[p].chain != objects[q].chain
    ensures TreeOk(chains, objects')
  {
    hide ChildrenOk, DotsOk, Listed;
  }

  lemma NewChildIsListed(objects: Objects, parent: Path, o: Object, entry: Entry)
    requires parent in objects && objects[parent] == o && o.DirObject? && o.children != [] && Last(o.children) == entry
    ensures Listed(objects, parent + [entry.name])
  {
    var path := parent + [entry.name];
    assert Front(path) == parent && Last(path) == entry.name;
    assert NameListed(o.children, entry.name);
  }

  /** All old objects keep their place in the tree; only the parent's children are not covered. */
  lemma OldObjectsInTree(chains: seq<seq<nat>>, chains': seq<seq<nat>>, objects: Objects, objects': Objects,
    parent: Path)
    requires TreeOk(chains, objects) && ChainsGrow(chains, chains') && Extends(objects, objects')
    requires forall p :: p in objects && p != parent ==> objects'[p] == objects[p]
    ensures forall p :: p in objects ==> Listed(objects', p)
    ensures forall p :: p in objects && objects[p].DirObject? ==> DotsOk(chains', objects', p)
    ensures forall p :: p in objects && objects[p].DirObject? && p != parent ==>
      ChildrenOk(chains', objects', p, objects'[p].children)
    ensures forall p, q :: p in objects && q in objects && p != q ==> objects[p].chain != objects[q].chain
    ensures parent in objects && objects[parent].DirObject? ==>
      ChildrenOk(chains, objects, parent, objects[parent].children)
  {
    forall p | p in objects
      ensures Listed(objects', p)
      ensures objects[p].DirObject? ==> DotsOk(chains', objects', p)
      ensures objects[p].DirObject? && p != parent ==> ChildrenOk(chains', objects', p, objects'[p].children)
    {
      assert Continues(objects[p], objects'[p]);
      ListedStill(objects, objects', p);
      if objects[p].DirObject? {
        DotsStill(chains, chains', objects, objects', p);
        ChildrenStill(chains, chains', objects, objects', p, objects[p].children);
      }
    }
  }

  lemma InvAfterSuccess(v: Volume, w: Written, root: FatDirectory, root': FatDirectory, chains: seq<seq<nat>>,
    chains': seq<seq<nat>>, objects: Objects, parent: Path, o': Object, entry: Entry, child: Object)
    requires Inv(v, root, chains, objects) && parent in objects && Continues(objects[parent], o')
    requires VolumeGrew(v, w.volume, chains, chains', o'.chain)
    requires o'.DirObject? && DirOk(w.volume, chains'[o'.chain], parent, w.directory, o'.content, o'.children)
    requires o'.children == objects[parent].children + [entry] && parent + [entry.name] !in objects
    requires Describes(entry, chains', child) && ObjectOk(w.volume, root', chains', parent + [entry.name], child)
    requires forall p :: p in objects ==> objects[p].chain != child.chain
    requires child.DirObject? ==>
      && child.children == []
      && DotsOk(chains', objects[parent := o'][parent + [entry.name] := child], parent + [entry.name])
    requires Find(root', parent) == Some(w.directory)
    requires forall q :: q != parent && q != parent + [entry.name] ==> Find(root', q) == Find(root, q)
    ensures Inv(w.volume, root', chains', objects[parent := o'][parent + [entry.name] := child])
  {
    hide ObjectOk, ObjectsOk, Find, TreeOk, VolumeOk, DirOk, DotsOk, Describes, VolumeGrew, Continues, ChainsGrow;
    GrownParts(v, w.volume, chains, chains', objects[parent], o');
    var path := parent + [entry.name];
    assert |path| == |parent| + 1;
    ParentIsOk(w.volume, root', chains', parent, o', w.directory);
    var objects' := objects[parent := o'][path := child];
    ObjectsAfterDeclare(v, w.volume, w.directory, root, root', chains, chains', objects, objects', parent, {path});
    TreeWithNewChild(chains, chains', objects, parent, o', entry, child);
  }
}
