/**
 * The image refines a map from paths to nodes: after any run of operations, successful or
 * refused, the independent reader finds exactly what the successful ones created.
 */
module FatRefinement {
  import opened Bytes
  import opened Options
  import opened FatClusters
  import opened FatNames
  import opened FatReader
  import opened FatWriter
  import opened FatFilesystem
  import opened FatLog
  import opened FatInvariant

  type Model = map<Path, Node>

  function NodeOf(o: Object): Node {
    match o
    case DirObject(_, _, _) => DirectoryNode
    case FileObject(_, bytes) => FileNode(bytes)
  }

  function Nodes(objects: Objects): Model {
    map p | p in objects :: NodeOf(objects[p])
  }

  /** What the callers of an operation must see to. */
  ghost predicate Allowed(fs: Fs, model: Model, op: Op) {
    && (|op.name| <= MAX_NAME ==> Readable(op.name) && TailFits(fs.counters, op.name))
    && op.parent + [op.name] !in model
    && (op.MakeFile? ==> op.content != [])
  }

  function Created(op: Op): Node {
    match op
    case MakeDirectory(_, _, _) => DirectoryNode
    case MakeFile(_, _, content, _) => FileNode(content)
  }

  /** A successful operation adds one path, a refused one changes nothing. */
  function ModelStep(model: Model, op: Op, ok: bool): Model {
    if ok then model[op.parent + [op.name] := Created(op)] else model
  }

  // ---------------------------------------------------------------- creating a file

  /** A directory's own entry lies in its parent's chain. */
  ghost predicate SelfInParent(root: FatDirectory, chains: seq<seq<nat>>, objects: Objects, path: Path) {
    path != ROOT ==>
      (var d, parent := Find(root, path), Front(path);
       && d.Some? && d.value.self.Some? && parent in objects && objects[parent].chain < |chains|
       && d.value.self.value.cluster in chains[objects[parent].chain])
  }

  ghost predicate SelvesOk(root: FatDirectory, chains: seq<seq<nat>>, objects: Objects) {
    forall p :: p in objects && objects[p].DirObject? ==> SelfInParent(root, chains, objects, p)
  }

  /** The invariant for an image as a whole. */
  ghost predicate ImageOk(fs: Fs, chains: seq<seq<nat>>, objects: Objects) {
    Inv(fs.volume, fs.root, chains, objects) && SelvesOk(fs.root, chains, objects)
  }

  /** The slots that each directory holds. */
  ghost function LogOf(chains: seq<seq<nat>>, objects: Objects): Log {
    map p | p in objects && objects[p].DirObject? :: Logged(FirstOf(chains, objects[p].chain), objects[p].content)
  }

  /** The first cluster of chain k. */
  function FirstOf(chains: seq<seq<nat>>, k: nat): nat {
    if k < |chains| && chains[k] != [] then chains[k][0] else 0
  }

  /** Every object has a chain with a first cluster. */
  ghost predicate HaveFirsts(chains: seq<seq<nat>>, objects: Objects) {
    forall p :: p in objects ==> objects[p].chain < |chains| && chains[objects[p].chain] != []
  }

  lemma ImageHasFirsts(fs: Fs, chains: seq<seq<nat>>, objects: Objects)
    requires ImageOk(fs, chains, objects)
    ensures HaveFirsts(chains, objects)
  {
    forall p | p in objects
      ensures objects[p].chain < |chains| && chains[objects[p].chain] != []
    {
      assert ObjectOk(fs.volume, fs.root, chains, p, objects[p]);
      assert IsChain(fs.volume.fat0, chains[objects[p].chain]);
    }
  }

  /** Chains that grow keep their first clusters. */
  lemma SameFirsts(chains: seq<seq<nat>>, chains': seq<seq<nat>>, objects: Objects)
    requires HaveFirsts(chains, objects) && ChainsGrow(chains, chains')
    ensures LogOf(chains', objects) == LogOf(chains, objects)
  {
    forall p | p in objects
      ensures FirstOf(chains', objects[p].chain) == FirstOf(chains, objects[p].chain)
    {
      assert chains[objects[p].chain] <= chains'[objects[p].chain];
    }
  }

  lemma NewPathIsNotFound(fs: Fs, chains: seq<seq<nat>>, objects: Objects, path: Path)
    requires ImageOk(fs, chains, objects) && path !in objects
    ensures Find(fs.root, path).None?
  {
  }

  /** A found directory is an object whose state is right. */
  lemma FoundDirectory(fs: Fs, chains: seq<seq<nat>>, objects: Objects, path: Path)
    requires ImageOk(fs, chains, objects) && Find(fs.root, path).Some?
    ensures path in objects && objects[path].DirObject? && objects[path].chain < |chains|
    ensures var o := objects[path];
      DirOk(fs.volume, chains[o.chain], path, Find(fs.root, path).value, o.content, o.children)
  {
    assert ObjectOk(fs.volume, fs.root, chains, path, objects[path]);
  }

  lemma ChainIndexBelow(v: Volume, root: FatDirectory, chains: seq<seq<nat>>, objects: Objects)
    requires Inv(v, root, chains, objects)
    ensures forall p :: p in objects ==> objects[p].chain < |chains|
  {
    forall p | p in objects
      ensures objects[p].chain < |chains|
    {
      assert ObjectOk(v, root, chains, p, objects[p]);
    }
  }

  lemma SameFind(v: Volume, root: FatDirectory, root': FatDirectory, chains: seq<seq<nat>>, p: Path, o: Object)
    requires ObjectOk(v, root, chains, p, o) && Find(root', p) == Find(root, p)
    ensures ObjectOk(v, root', chains, p, o)
  {
  }

  /** Setting a directory's state to what it was changes nothing that matters. */
  lemma SameRaw(v: Volume, root: FatDirectory, chains: seq<seq<nat>>, objects: Objects, path: Path)
    requires Inv(v, root, chains, objects) && Find(root, path).Some?
    ensures Inv(v, SetRaw(root, path, Find(root, path).value), chains, objects)
  {
    hide VolumeOk, TreeOk, ObjectOk, Find, SetRaw;
    var root' := SetRaw(root, path, Find(root, path).value);
    SetRawFinds(root, path, Find(root, path).value);
    forall p | p in objects
      ensures ObjectOk(v, root', chains, p, objects[p])
    {
      SameFind(v, root, root', chains, p, objects[p]);
    }
  }

  /**
   * Declaring a name for an object that was prepared on the last chain: on success it joins the
   * tree, on failure the tree is as before. `self` is what the new object's directory, if it is
   * one, will remember as its own entry.
   */
  lemma DeclareKeepsInv(v: Volume, root: FatDirectory, chains: seq<seq<nat>>, objects: Objects, parent: Path,
    name: Name, counters: Counters, size: nat, stamp: Stamp, child: Object)
    returns (chains': seq<seq<nat>>, o': Object)
    requires Inv(v, root, chains, objects) && Find(root, parent).Some?
    requires Readable(name) && TailFits(counters, name) && parent + [name] !in objects && size < 0x1_0000_0000
    requires parent in objects && objects[parent].DirObject? && objects[parent].chain < |chains|
    requires ScanSlots(START, objects[parent].content).pending == NoName
    requires |chains| > 0 && child.chain == |chains| - 1 && chains[child.chain] != [] && chains[child.chain][0] < v.next
    requires forall p :: p in objects ==> objects[p].chain != child.chain
    ensures var d := Find(root, parent).value;
      var first := chains[child.chain][0];
      var w := Declare(v, d, counters, name, child.DirObject?, first, size, stamp).written;
      var entry := Entry(name, child.DirObject?, first, if child.DirObject? then 0 else size);
      && o'.DirObject? && Continues(objects[parent], o')
      && VolumeGrew(v, w.volume, chains, chains', o'.chain)
      && DirOk(w.volume, chains'[o'.chain], parent, w.directory, o'.content, o'.children)
      && o'.children == (if w.ok then objects[parent].children + [entry] else objects[parent].children)
      && (w.ok ==> w.directory.entryIndex > 0)
      && (w.ok && child.DirObject? ==> SelfNames(w.volume, Some(Previous(w.directory)), name, first))
      && var slots := EntrySlots(name, TailCounter(counters, name), child.DirObject?, first, size, stamp);
      o'.content == objects[parent].content + slots[..Fits(v, d, |slots|)] && (w.ok <==> Fits(v, d, |slots|) == |slots|)
  {
    hide EntrySlots, WriteSlots, Fits, DirectoryHolds, Lists, SelfNames, TreeOk, VolumeGrew, ScanSlots;
    var o, d, first := objects[parent], Find(root, parent).value, chains[child.chain][0];
    assert ObjectOk(v, root, chains, parent, o);
    DirOkParts(v, chains[o.chain], parent, d, o.content, o.children);
    var content;
    chains', content := ParentAfterDeclare(v, chains, o, d, parent, name, TailCounter(counters, name), child.DirObject?,
      first, size, stamp);
    var w := Declare(v, d, counters, name, child.DirObject?, first, size, stamp).written;
    var entry := Entry(name, child.DirObject?, first, if child.DirObject? then 0 else size);
    o' := DirObject(o.chain, content, if w.ok then o.children + [entry] else o.children);
  }

  /** A name that is too long is refused after the clusters were taken; the tree is as before. */
  lemma LongNameRefused(v: Volume, root: FatDirectory, chains: seq<seq<nat>>, objects: Objects, parent: Path,
    name: Name, counters: Counters, directory: bool, first: nat, size: nat, stamp: Stamp)
    requires Inv(v, root, chains, objects) && Find(root, parent).Some? && |name| > MAX_NAME
    requires Shaped(v) && SlotSized(v) && IsCluster(v, Find(root, parent).value.cluster)
    ensures var w := Declare(v, Find(root, parent).value, counters, name, directory, first, size, stamp).written;
      && !w.ok && w.directory == Find(root, parent).value
      && Inv(w.volume, SetRaw(root, parent, w.directory), chains, objects)
  {
    SameRaw(v, root, chains, objects, parent);
  }

  ghost predicate OwnsChain(objects: Objects, k: nat) {
    exists p :: p in objects && objects[p].chain == k
  }

  /** Every chain belongs to a directory or file. */
  ghost predicate Covered(chains: seq<seq<nat>>, objects: Objects) {
    forall k :: 0 <= k < |chains| ==> OwnsChain(objects, k)
  }

  /** The result of one operation, as the lemmas below establish it. */
  ghost predicate StepOk(fs: Fs, chains: seq<seq<nat>>, objects: Objects, r: Result, chains': seq<seq<nat>>,
    objects': Objects, op: Op)
    requires Usable(fs) && (|op.name| <= MAX_NAME ==> TailFits(fs.counters, op.name))
  {
    && LogOf(chains', objects') == LogStep(fs, LogOf(chains, objects), op)
    && ImageOk(r.fs, chains', objects') && Nodes(objects') == ModelStep(Nodes(objects), op, r.ok)
    && (r.ok && Covered(chains, objects) ==> Covered(chains', objects'))
  }

  lemma CoveredByOneMore(v: Volume, w: Volume, chains: seq<seq<nat>>, chain: seq<nat>, chains': seq<seq<nat>>,
    objects: Objects, parent: Path, o': Object, path: Path, child: Object)
    requires Covered(chains, objects) && parent in objects && path !in objects && Continues(objects[parent], o')
    requires VolumeGrew(v, w, chains + [chain], chains', o'.chain) && child.chain == |chains|
    ensures Covered(chains', objects[parent := o'][path := child])
  {
    var objects' := objects[parent := o'][path := child];
    forall k | 0 <= k < |chains'|
      ensures OwnsChain(objects', k)
    {
      if k < |chains| {
        assert OwnsChain(objects, k);
        var p :| p in objects && objects[p].chain == k;
        assert p in objects' && objects'[p].chain == k;
      } else {
        assert path in objects' && objects'[path].chain == k;
      }
    }
  }

  lemma SameNodes(objects: Objects, parent: Path, o': Object)
    requires parent in objects && Continues(objects[parent], o')
    ensures Nodes(objects[parent := o']) == Nodes(objects)
  {
  }

  lemma OneMoreNode(objects: Objects, parent: Path, o': Object, path: Path, child: Object)
    requires parent in objects && path != parent && Continues(objects[parent], o')
    ensures Nodes(objects[parent := o'][path := child]) == Nodes(objects)[path := NodeOf(child)]
  {
    SameNodes(objects, parent, o');
  }

  /** Only a volume without free clusters has a directory that ends in the middle of a name. */
  lemma NothingPending(v: Volume, root: FatDirectory, chains: seq<seq<nat>>, objects: Objects, path: Path)
    requires Inv(v, root, chains, objects) && path in objects && objects[path].DirObject? && v.free > 0
    ensures ScanSlots(START, objects[path].content).pending == NoName
  {
    assert ObjectOk(v, root, chains, path, objects[path]);
  }

  /** The new file, still unlisted, on the volume that holds its bytes. */
  lemma StoredFile(fs: Fs, chains: seq<seq<nat>>, objects: Objects, path: Path, content: seq<byte>)
    requires ImageOk(fs, chains, objects) && content != [] && path !in objects
    requires Shaped(fs.volume) && SlotSized(fs.volume) && StoreFile(fs.volume, content).first.Some?
    ensures var stored := StoreFile(fs.volume, content);
      var chains1 := chains + [ClusterRun(fs.volume.next, ClusterCount(|content|, fs.volume.clusterSize))];
      && Inv(stored.volume, fs.root, chains1, objects)
      && ObjectOk(stored.volume, fs.root, chains1, path, FileObject(|chains|, content))
      && chains1[|chains|] != [] && chains1[|chains|][0] == stored.first.value < stored.volume.next
      && |content| < 0x1_0000_0000
  {
    var v, stored := fs.volume, StoreFile(fs.volume, content);
    var chain := ClusterRun(v.next, ClusterCount(|content|, v.clusterSize));
    StoreFileHolds(v, chains, content);
    NewPathIsNotFound(fs, chains, objects, path);
    InvWithNewChain(v, stored.volume, fs.root, chains, chain, objects);
  }

  /** A refused file leaves the volume alone; an accepted one found a free cluster. */
  lemma StoreFileRefusal(v: Volume, content: seq<byte>)
    requires Shaped(v) && SlotSized(v)
    ensures StoreFile(v, content).first.None? ==> StoreFile(v, content).volume == v
    ensures StoreFile(v, content).first.Some? && content != [] ==> v.free > 0
  {
    ClusterCountStep(|content|, v.clusterSize);
  }

  lemma PathBelow(parent: Path, name: Name)
    ensures parent + [name] != parent && parent + [name] != ROOT
    ensures Front(parent + [name]) == parent && Last(parent + [name]) == name
  {
    assert |parent + [name]| == |parent| + 1;
  }

  lemma UsableParts(fs: Fs, path: Path)
    requires Usable(fs) && Find(fs.root, path).Some?
    ensures Shaped(fs.volume) && SlotSized(fs.volume) && IsCluster(fs.volume, Find(fs.root, path).value.cluster)
    ensures RefOk(fs.volume, Find(fs.root, path).value.self)
  {
  }

  // ---------------------------------------------------------------- the log and the saved entries

  /** The parent's record after the entry, or the part of it that fits, was appended. */
  function WithEntry(fs: Fs, parent: Logged, op: Op): Logged
    requires fs.volume.clusterSize > 0 && Storable(fs, op) && |op.name| <= MAX_NAME && TailFits(fs.counters, op.name)
  {
    parent.(slots := parent.slots + EntryOf(fs, op)[..Taken(fs, op)])
  }

  /** Nothing is appended when the object cannot be stored or its name is too long. */
  lemma NothingLogged(fs: Fs, log: Log, op: Op)
    requires Usable(fs) && (|op.name| <= MAX_NAME ==> TailFits(fs.counters, op.name))
    requires |op.name| > MAX_NAME || !Storable(fs, op)
    ensures LogStep(fs, log, op) == log
  {
  }

  /** The parent's slots after the entry, or the part of it that fits, was appended. */
  lemma LogAfterDeclare(fs: Fs, chains: seq<seq<nat>>, chains': seq<seq<nat>>, objects: Objects, op: Op, v: Volume,
    o': Object, first: nat, size: nat)
    requires HaveFirsts(chains, objects) && ChainsGrow(chains, chains')
    requires Usable(fs) && |op.name| <= MAX_NAME && TailFits(fs.counters, op.name) && Storable(fs, op)
    requires v.free == fs.volume.free - OwnClusters(fs.volume.clusterSize, op) && v.clusterSize == fs.volume.clusterSize
    requires first == fs.volume.next && size == (if op.MakeFile? then |op.content| else 0)
    requires op.parent in objects && objects[op.parent].DirObject? && o'.DirObject?
    requires o'.chain == objects[op.parent].chain
    requires var slots :=
      EntrySlots(op.name, TailCounter(fs.counters, op.name), op.MakeDirectory?, first, size, op.stamp);
      o'.content == objects[op.parent].content + slots[..Fits(v, Find(fs.root, op.parent).value, |slots|)]
    ensures op.parent in LogOf(chains, objects)
    ensures var log := LogOf(chains, objects);
      LogOf(chains', objects[op.parent := o']) == log[op.parent := WithEntry(fs, log[op.parent], op)]
    ensures EntryOf(fs, op)
      == EntrySlots(op.name, TailCounter(fs.counters, op.name), op.MakeDirectory?, first, size, op.stamp)
    ensures Taken(fs, op) == Fits(v, Find(fs.root, op.parent).value, |EntryOf(fs, op)|)
  {
    hide EntrySlots, Fits, OwnClusters, TailFits, HaveFirsts, ChainsGrow, FirstOf;
    SameFirsts(chains, chains', objects);
    assert LogOf(chains', objects)[op.parent] == LogOf(chains, objects)[op.parent];
    FitsOf(v, fs.volume.(free := fs.volume.free - OwnClusters(fs.volume.clusterSize, op)),
      Find(fs.root, op.parent).value, |EntryOf(fs, op)|);
  }

  lemma FileStorable(fs: Fs, parent: Path, name: Name, content: seq<byte>, stamp: Stamp)
    requires Shaped(fs.volume) && SlotSized(fs.volume) && Find(fs.root, parent).Some?
    requires StoreFile(fs.volume, content).first.Some?
    ensures var op := MakeFile(parent, name, content, stamp);
      && Storable(fs, op) && StoreFile(fs.volume, content).first.value == fs.volume.next
      && StoreFile(fs.volume, content).volume.free == fs.volume.free - OwnClusters(fs.volume.clusterSize, op)
  {
    StoredTakes(fs.volume, content);
  }

  lemma DirectoryStorable(fs: Fs, parent: Path, name: Name, stamp: Stamp)
    requires fs.volume.clusterSize > 0 && Find(fs.root, parent).Some? && fs.volume.free > 0
    ensures var op := MakeDirectory(parent, name, stamp);
      Storable(fs, op) && OwnClusters(fs.volume.clusterSize, op) == 1
  {
  }

  lemma LogStepOfFile(fs: Fs, log: Log, op: Op)
    requires Usable(fs) && |op.name| <= MAX_NAME && TailFits(fs.counters, op.name) && Storable(fs, op)
    requires op.MakeFile? && op.parent in log
    ensures LogStep(fs, log, op) == log[op.parent := WithEntry(fs, log[op.parent], op)]
  {
  }

  lemma LogStepOfDirectory(fs: Fs, log: Log, op: Op)
    requires Usable(fs) && |op.name| <= MAX_NAME && TailFits(fs.counters, op.name) && Storable(fs, op)
    requires op.MakeDirectory? && op.parent in log
    ensures var log1 := log[op.parent := WithEntry(fs, log[op.parent], op)];
      var above := if op.parent == ROOT then 0 else log[op.parent].first;
      LogStep(fs, log, op) == if Taken(fs, op) < |EntryOf(fs, op)| then log1
        else log1[op.parent + [op.name] := Logged(fs.volume.next, DotSlots(fs.volume.next, above, op.stamp))]
  {
  }

  /** A cluster that was taken for nothing does not move saved entries. */
  lemma SameSelves(root: FatDirectory, chains: seq<seq<nat>>, chain: seq<nat>, objects: Objects, parent: Path)
    requires SelvesOk(root, chains, objects) && Find(root, parent).Some?
    ensures SelvesOk(SetRaw(root, parent, Find(root, parent).value), chains + [chain], objects)
  {
    SetRawFinds(root, parent, Find(root, parent).value);
    forall p | p in objects && objects[p].DirObject? && p != ROOT
      ensures SelfInParent(SetRaw(root, parent, Find(root, parent).value), chains + [chain], objects, p)
    {
      assert SelfInParent(root, chains, objects, p);
    }
  }

  lemma LogWithFile(chains: seq<seq<nat>>, objects: Objects, path: Path, child: Object)
    requires path !in objects && child.FileObject?
    ensures LogOf(chains, objects[path := child]) == LogOf(chains, objects)
  {
  }

  lemma LogWithDirectory(chains: seq<seq<nat>>, objects: Objects, path: Path, child: Object)
    requires path !in objects && child.DirObject?
    ensures LogOf(chains, objects[path := child])
      == LogOf(chains, objects)[path := Logged(FirstOf(chains, child.chain), child.content)]
  {
  }

  lemma GrowsByOne(chains: seq<seq<nat>>, chain: seq<nat>, chains': seq<seq<nat>>)
    requires ChainsGrow(chains + [chain], chains')
    ensures ChainsGrow(chains, chains')
  {
    forall k | 0 <= k < |chains|
      ensures chains[k] <= chains'[k]
    {
      assert (chains + [chain])[k] == chains[k];
    }
  }

  lemma OneMoreChain(chains: seq<seq<nat>>, chain: seq<nat>, objects: Objects)
    requires HaveFirsts(chains, objects)
    ensures LogOf(chains + [chain], objects) == LogOf(chains, objects)
  {
    SameFirsts(chains, chains + [chain], objects);
  }

  lemma NewFirst(chains: seq<seq<nat>>, first: nat, chains': seq<seq<nat>>)
    requires ChainsGrow(chains + [[first]], chains')
    ensures FirstOf(chains', |chains|) == first
  {
    assert (chains + [[first]])[|chains|] <= chains'[|chains|];
  }

  lemma ParentFirst(chains: seq<seq<nat>>, objects: Objects, parent: Path)
    requires HaveFirsts(chains, objects) && parent in objects && objects[parent].DirObject?
    ensures LogOf(chains, objects)[parent].first == FirstOf(chains, objects[parent].chain)
    ensures AboveCluster(chains, objects, parent) == if parent == ROOT then 0 else LogOf(chains, objects)[parent].first
  {
  }

  /** Saved entries stay in the parents' chains; at most one object is new. */
  lemma SelvesStill(root: FatDirectory, root': FatDirectory, chains: seq<seq<nat>>, chains': seq<seq<nat>>,
    objects: Objects, objects': Objects, path: Path)
    requires SelvesOk(root, chains, objects) && ChainsGrow(chains, chains') && Extends(objects, objects')
    requires forall p :: p in objects' && p !in objects ==> p == path
    requires forall p :: p in objects && Find(root, p).Some? ==>
      Find(root', p).Some? && Find(root', p).value.self == Find(root, p).value.self
    requires path in objects' && path !in objects && objects'[path].DirObject? ==>
      SelfInParent(root', chains', objects', path)
    ensures SelvesOk(root', chains', objects')
  {
    hide Find;
    forall p | p in objects' && objects'[p].DirObject? && p in objects && p != ROOT
      ensures SelfInParent(root', chains', objects', p)
    {
      assert Continues(objects[p], objects'[p]);
      assert SelfInParent(root, chains, objects, p);
      var k := objects[Front(p)].chain;
      assert Continues(objects[Front(p)], objects'[Front(p)]);
      assert chains[k] <= chains'[k];
      InPrefix(chains[k], chains'[k], Find(root, p).value.self.value.cluster);
    }
  }

  lemma InPrefix(s: seq<nat>, t: seq<nat>, c: nat)
    requires s <= t && c in s
    ensures c in t
  {
    var i :| 0 <= i < |s| && s[i] == c;
    assert t[i] == c;
  }

  lemma OneContinues(objects: Objects, parent: Path, o': Object)
    requires parent in objects && Continues(objects[parent], o')
    ensures Extends(objects, objects[parent := o'])
  {
  }

  /** Saved entries after the parent took more slots; nothing is new but possibly a file. */
  lemma SelvesAfterDeclare(v: Volume, w: Written, root: FatDirectory, chains: seq<seq<nat>>, chain: seq<nat>,
    chains': seq<seq<nat>>, objects: Objects, parent: Path, o': Object, path: Path, child: Object)
    requires SelvesOk(root, chains, objects) && parent in objects && Continues(objects[parent], o') && path !in objects
    requires VolumeGrew(v, w.volume, chains + [chain], chains', o'.chain)
    requires Find(root, parent).Some? && w.directory.self == Find(root, parent).value.self && child.FileObject?
    ensures var root' := SetRaw(root, parent, w.directory);
      SelvesOk(root', chains', objects[parent := o']) && SelvesOk(root', chains', objects[parent := o'][path := child])
  {
    hide Find, SetRaw, SelvesOk, ChainsGrow, VolumeGrew, Continues, Extends;
    GrownParts(v, w.volume, chains + [chain], chains', objects[parent], o');
    GrowsByOne(chains, chain, chains');
    SetRawFinds(root, parent, w.directory);
    OneContinues(objects, parent, o');
    SelvesStill(root, SetRaw(root, parent, w.directory), chains, chains', objects, objects[parent := o'], path);
    ExtendsByOne(objects, objects[parent := o'][path := child], parent, path);
    SelvesStill(root, SetRaw(root, parent, w.directory), chains, chains', objects, objects[parent := o'][path := child],
      path);
  }

  /** The same with a new directory, whose entry was just written at the end of its parent. */
  lemma SelvesWithDirectory(v: Volume, w: Written, root: FatDirectory, chains: seq<seq<nat>>, chain: seq<nat>,
    chains': seq<seq<nat>>, objects: Objects, parent: Path, o': Object, name: Name, child: Object, first: nat)
    requires SelvesOk(root, chains, objects) && parent in objects && Continues(objects[parent], o')
    requires parent + [name] !in objects
    requires VolumeGrew(v, w.volume, chains + [chain], chains', o'.chain)
    requires Find(root, parent).Some? && w.directory.self == Find(root, parent).value.self
    requires o'.DirObject? && DirectoryHolds(w.volume, chains'[o'.chain], w.directory, o'.content)
    requires w.directory.entryIndex > 0
    ensures SelvesOk(AddChild(SetRaw(root, parent, w.directory), parent, name,
      NewRaw(Some(Previous(w.directory)), first)), chains',
      objects[parent := o'][parent + [name] := child])
  {
    hide Find, SetRaw, AddChild, SelvesOk, ChainsGrow, VolumeGrew, Continues, Extends, ChainSlots;
    var path, root1, raw :=
      parent + [name], SetRaw(root, parent, w.directory), NewRaw(Some(Previous(w.directory)), first);
    PathBelow(parent, name);
    GrownParts(v, w.volume, chains + [chain], chains', objects[parent], o');
    GrowsByOne(chains, chain, chains');
    SetRawFinds(root, parent, w.directory);
    AddChildFinds(root1, parent, name, raw);
    var objects' := objects[parent := o'][path := child];
    ExtendsByOne(objects, objects', parent, path);
    assert w.directory.cluster == Last(chains'[o'.chain]);
    SelvesStill(root, AddChild(root1, parent, name, raw), chains, chains', objects, objects', path);
  }

  lemma FileStepKeeps(fs: Fs, chains: seq<seq<nat>>, objects: Objects, parent: Path, name: Name, content: seq<byte>,
    stamp: Stamp)
    returns (chains': seq<seq<nat>>, objects': Objects)
    requires ImageOk(fs, chains, objects) && Usable(fs)
    requires Allowed(fs, Nodes(objects), MakeFile(parent, name, content, stamp))
    ensures StepOk(fs, chains, objects, FileStep(fs, parent, name, content, stamp), chains', objects',
      MakeFile(parent, name, content, stamp))
  {
    hide Inv, SelvesOk, Find, SetRaw, Declare, StoreFile, ObjectOk, Readable, TailFits, DirOk, VolumeGrew, Describes,
      Continues, LogStep, LogOf;
    var path, v, op := parent + [name], fs.volume, MakeFile(parent, name, content, stamp);
    chains', objects' := chains, objects;
    StoredTakes(v, content);
    if Find(fs.root, parent).Some? {
      UsableParts(fs, parent);
      StoreFileRefusal(v, content);
      var stored := StoreFile(v, content);
      if stored.first.Some? {
        chains', objects' := FileDeclared(fs, chains, objects, parent, name, content, stamp);
      } else {
        NothingLogged(fs, LogOf(chains, objects), op);
      }
    } else {
      NothingLogged(fs, LogOf(chains, objects), op);
    }
  }

  /** The log and the saved entries once a file's name was declared, in part or whole. */
  lemma FileRecorded(fs: Fs, chains: seq<seq<nat>>, chain: seq<nat>, chains': seq<seq<nat>>, objects: Objects, op: Op,
    v: Volume, w: Written, o': Object, child: Object)
    requires Usable(fs) && |op.name| <= MAX_NAME && TailFits(fs.counters, op.name) && Storable(fs, op) && op.MakeFile?
    requires v.free == fs.volume.free - OwnClusters(fs.volume.clusterSize, op) && v.clusterSize == fs.volume.clusterSize
    requires HaveFirsts(chains, objects) && SelvesOk(fs.root, chains, objects) && op.parent + [op.name] !in objects
    requires op.parent in objects && objects[op.parent].DirObject? && o'.DirObject? && Continues(objects[op.parent], o')
    requires VolumeGrew(v, w.volume, chains + [chain], chains', o'.chain) && child.FileObject?
    requires w.directory.self == Find(fs.root, op.parent).value.self
    requires var slots := EntryOf(fs, op);
      o'.content == objects[op.parent].content + slots[..Fits(v, Find(fs.root, op.parent).value, |slots|)]
    ensures var objects1, root' := objects[op.parent := o'], SetRaw(fs.root, op.parent, w.directory);
      var objects2 := objects1[op.parent + [op.name] := child];
      && LogOf(chains', objects1) == LogOf(chains', objects2) == LogStep(fs, LogOf(chains, objects), op)
      && SelvesOk(root', chains', objects1) && SelvesOk(root', chains', objects2)
  {
    hide SelvesOk, HaveFirsts, Continues, VolumeGrew, EntrySlots, Fits, Taken, LogOf, LogStep, WithEntry, Usable,
      TailFits, SetRaw, ChainsGrow;
    var path := op.parent + [op.name];
    GrownParts(v, w.volume, chains + [chain], chains', objects[op.parent], o');
    GrowsByOne(chains, chain, chains');
    PathBelow(op.parent, op.name);
    LogAfterDeclare(fs, chains, chains', objects, op, v, o', fs.volume.next, |op.content|);
    LogStepOfFile(fs, LogOf(chains, objects), op);
    LogWithFile(chains', objects[op.parent := o'], path, child);
    SelvesAfterDeclare(v, w, fs.root, chains, chain, chains', objects, op.parent, o', path, child);
  }

  /** The step once the bytes are stored: the name is declared, or refused. */
  lemma FileDeclared(fs: Fs, chains: seq<seq<nat>>, objects: Objects, parent: Path, name: Name, content: seq<byte>,
    stamp: Stamp)
    returns (chains': seq<seq<nat>>, objects': Objects)
    requires ImageOk(fs, chains, objects) && Usable(fs) && Find(fs.root, parent).Some?
    requires Shaped(fs.volume) && SlotSized(fs.volume) && StoreFile(fs.volume, content).first.Some?
    requires Allowed(fs, Nodes(objects), MakeFile(parent, name, content, stamp))
    ensures StepOk(fs, chains, objects, FileStep(fs, parent, name, content, stamp), chains', objects',
      MakeFile(parent, name, content, stamp))
  {
    hide Inv, SelvesOk, Find, SetRaw, Declare, StoreFile, ObjectOk, Readable, TailFits, DirOk, VolumeGrew, Usable,
      Describes, Continues, Covered, EntrySlots, Fits, Taken, LogOf, LogStep, Storable, ChainsGrow, HaveFirsts;
    var op := MakeFile(parent, name, content, stamp);
    var path, child := parent + [name], FileObject(|chains|, content);
    var stored := StoreFile(fs.volume, content);
    var v, root, chains1 :=
      stored.volume, fs.root, chains + [ClusterRun(fs.volume.next, ClusterCount(|content|, fs.volume.clusterSize))];
    ImageHasFirsts(fs, chains, objects);
    UsableParts(fs, parent);
    StoreFileShaped(fs.volume, content);
    StoreFileRefusal(fs.volume, content);
    StoredFile(fs, chains, objects, path, content);
    FoundDirectory(fs, chains, objects, parent);
    var w := Declare(v, Find(root, parent).value, fs.counters, name, false, stored.first.value, |content|,
      stamp).written;
    if |name| > MAX_NAME {
      LongNameRefused(v, root, chains1, objects, parent, name, fs.counters, false, stored.first.value, |content|,
        stamp);
      chains', objects' := chains1, objects;
      NothingLogged(fs, LogOf(chains, objects), op);
      SameSelves(root, chains, chains1[|chains|], objects, parent);
      OneMoreChain(chains, chains1[|chains|], objects);
    } else {
      DeclareKeeps(v, Find(root, parent).value, fs.counters, name, false, stored.first.value, |content|, stamp);
      FileStorable(fs, parent, name, content, stamp);
      NothingPending(fs.volume, root, chains, objects, parent);
      ChainIndexBelow(fs.volume, root, chains, objects);
      var o';
      chains', o' := DeclareKeepsInv(v, root, chains1, objects, parent, name, fs.counters, |content|, stamp, child);
      FileRecorded(fs, chains, chains1[|chains|], chains', objects, op, v, w, o', child);
      if w.ok {
        objects' := objects[parent := o'][path := child];
        FileJoins(v, w, root, chains1, chains', objects, parent, o', Entry(name, false, stored.first.value, |content|),
          child);
        OneMoreNode(objects, parent, o', path, child);
        if Covered(chains, objects) {
          CoveredByOneMore(v, w.volume, chains, chains1[|chains|], chains', objects, parent, o', path, child);
        }
      } else {
        objects' := objects[parent := o'];
        InvAfterFailure(v, w, root, chains1, chains', objects, parent, o');
        SameNodes(objects, parent, o');
      }
    }
  }

  /** The tree with the new file listed in its parent. */
  lemma FileJoins(v: Volume, w: Written, root: FatDirectory, chains: seq<seq<nat>>, chains': seq<seq<nat>>,
    objects: Objects, parent: Path, o': Object, entry: Entry, child: Object)
    requires Inv(v, root, chains, objects) && parent in objects && Continues(objects[parent], o')
    requires Find(root, parent).Some?
    requires VolumeGrew(v, w.volume, chains, chains', o'.chain)
    requires o'.DirObject? && DirOk(w.volume, chains'[o'.chain], parent, w.directory, o'.content, o'.children)
    requires o'.children == objects[parent].children + [entry] && parent + [entry.name] !in objects
    requires child.FileObject? && ObjectOk(v, root, chains, parent + [entry.name], child)
    requires child.chain < |chains| && chains[child.chain] != []
    requires entry == Entry(entry.name, false, chains[child.chain][0], |child.bytes|)
    requires forall p :: p in objects ==> objects[p].chain != child.chain
    ensures Inv(w.volume, SetRaw(root, parent, w.directory), chains',
      objects[parent := o'][parent + [entry.name] := child])
  {
    hide Inv, Find, SetRaw, ObjectOk, DirOk, VolumeGrew, Describes, Continues;
    var path, root' := parent + [entry.name], SetRaw(root, parent, w.directory);
    PathBelow(parent, entry.name);
    SetRawFinds(root, parent, w.directory);
    InvParts(v, root, chains, objects);
    ContinuesParts(objects[parent], o');
    ObjectUntouched(v, w.volume, root, root', chains, chains', o'.chain, path, child);
    StillDescribes(v, w.volume, chains, chains', o'.chain, entry, child);
    InvAfterSuccess(v, w, root, root', chains, chains', objects, parent, o', entry, child);
  }

  lemma InvParts(v: Volume, root: FatDirectory, chains: seq<seq<nat>>, objects: Objects)
    requires Inv(v, root, chains, objects)
    ensures VolumeOk(v, chains)
  {
  }

  lemma StillDescribes(v: Volume, w: Volume, chains: seq<seq<nat>>, chains': seq<seq<nat>>, k: nat, e: Entry, o: Object)
    requires VolumeGrew(v, w, chains, chains', k) && o.chain < |chains| && o.chain != k
    requires chains[o.chain] != [] && e.first == chains[o.chain][0] && e.directory == o.DirObject?
    requires o.FileObject? ==> e.size == |o.bytes|
    ensures Describes(e, chains', o) && chains'[o.chain] == chains[o.chain]
  {
  }

  // ---------------------------------------------------------------- creating a directory

  /** The first cluster of the parent, as the new directory's `..` records it. */
  function AboveCluster(chains: seq<seq<nat>>, objects: Objects, parent: Path): nat
    requires parent in objects && objects[parent].chain < |chains| && chains[objects[parent].chain] != []
  {
    if parent == ROOT then 0 else chains[objects[parent].chain][0]
  }

  lemma ParentClusterIsRight(fs: Fs, chains: seq<seq<nat>>, objects: Objects, parent: Path)
    requires ImageOk(fs, chains, objects) && Find(fs.root, parent).Some? && Usable(fs)
    ensures parent in objects && objects[parent].chain < |chains| && chains[objects[parent].chain] != []
    ensures Shaped(fs.volume) && SlotSized(fs.volume) && RefOk(fs.volume, Find(fs.root, parent).value.self)
    ensures ParentCluster(fs.volume, Find(fs.root, parent).value) == AboveCluster(chains, objects, parent)
    ensures AboveCluster(chains, objects, parent) < 0x1_0000_0000
  {
    FoundDirectory(fs, chains, objects, parent);
    var chain := chains[objects[parent].chain];
    assert IsChain(fs.volume.fat0, chain);
    assert chain[0] in chain;
  }

  lemma DotSlotsScan(own: nat, above: nat, stamp: Stamp)
    requires own < 0x1_0000_0000 && above < 0x1_0000_0000
    ensures var slots := DotSlots(own, above, stamp);
      && IsDotSlot(slots[0], DOT_NAME, own) && IsDotSlot(slots[1], DOT_DOT_NAME, above)
      && ScanSlots(START, slots) == START
  {
    var slots := DotSlots(own, above, stamp);
    ShortSlotFields(DOT_NAME, ATTR_DIRECTORY, stamp, own, 0);
    ShortSlotFields(DOT_DOT_NAME, ATTR_DIRECTORY, stamp, above, 0);
    DotIsSkipped(slots[0]);
    DotIsSkipped(slots[1]);
    hide ShortSlot, ScanSlot;
    assert slots == [slots[0]] + [slots[1]];
    ScanCons(START, slots[0], [slots[1]]);
    ScanOne(START, slots[1]);
  }

  lemma DotIsSkipped(slot: Slot)
    requires (RawName(slot) == DOT_NAME || RawName(slot) == DOT_DOT_NAME) && Attributes(slot) == ATTR_DIRECTORY
    ensures ScanSlot(START, slot) == START
  {
    assert slot[0] == RawName(slot)[0];
    hide NameOf, FirstCluster, FileSize;
  }

  /** The state a new directory starts in: two slots of its only cluster are filled. */
  function NewRaw(self: Option<SlotRef>, first: nat): RawDirectory {
    RawDirectory(self, first, 2)
  }

  /** A new directory on its own chain; everything else is as before. */
  lemma NewDirectoryHolds(v: Volume, chains: seq<seq<nat>>, parent: RawDirectory, self: Option<SlotRef>, stamp: Stamp)
    requires VolumeOk(v, chains) && Shaped(v) && SlotSized(v) && RefOk(v, parent.self) && v.free > 0
    ensures var v', chain := NewDirectory(v, parent, stamp), [v.next];
      && VolumeOk(v', chains + [chain]) && v'.free <= v.free && v'.next == v.next + 1
      && KeepsSlots(v, v') && KeepsOthers(v, v', chain)
      && DirectoryHolds(v', chain, NewRaw(self, v.next), DotSlots(v.next, ParentCluster(v, parent), stamp))
  {
    var first, chain, dots := v.next, [v.next], DotSlots(v.next, ParentCluster(v, parent), stamp);
    var v0 := Allocate(v, None, 1).volume;
    AllocateFresh(v, chains, 1);
    assert ClusterRun(v.next, 1) == chain;
    EmptyDirectory(v, v0, self);
    var d0 := RawDirectory(self, first, 0);
    var v1 := PutSlot(v0, first, 0, dots[0]);
    PutSlotAppends(v0, chain, d0, [], dots[0]);
    PutSlotKeepsChains(v0, chains + [chain], |chains|, 0, dots[0]);
    var v2 := PutSlot(v1, first, 1, dots[1]);
    PutSlotAppends(v1, chain, d0.(entryIndex := 1), [dots[0]], dots[1]);
    PutSlotKeepsChains(v1, chains + [chain], |chains|, 1, dots[1]);
    assert [] + [dots[0]] == [dots[0]] && [dots[0]] + [dots[1]] == dots;
    KeepsSlotsTransitive(v, v0, v1);
    KeepsSlotsTransitive(v, v1, v2);
  }

  /** A freshly taken cluster is an empty directory. */
  lemma EmptyDirectory(v: Volume, v0: Volume, self: Option<SlotRef>)
    requires Shaped(v) && SlotSized(v) && FreshZero(v) && v.free > 0
    requires v0 == Allocate(v, None, 1).volume
    ensures Shaped(v0) && SlotSized(v0) && KeepsSlots(v, v0)
    ensures DirectoryHolds(v0, [v.next], RawDirectory(self, v.next, 0), [])
  {
    forall i | 0 <= i < MaxEntries(v0)
      ensures SlotAt(v0, v.next, i)[0] == 0
    {
      ZeroCluster(v.clusterSize, i);
    }
  }

  lemma DirectoryStepKeeps(fs: Fs, chains: seq<seq<nat>>, objects: Objects, parent: Path, name: Name, stamp: Stamp)
    returns (chains': seq<seq<nat>>, objects': Objects)
    requires ImageOk(fs, chains, objects) && Usable(fs)
    requires Allowed(fs, Nodes(objects), MakeDirectory(parent, name, stamp))
    ensures StepOk(fs, chains, objects, DirectoryStep(fs, parent, name, stamp), chains', objects',
      MakeDirectory(parent, name, stamp))
  {
    hide Inv, SelvesOk, Find, SetRaw, Declare, NewDirectory, ObjectOk, Readable, TailFits, DirOk, VolumeGrew, Describes,
      Continues, LogStep, LogOf;
    chains', objects' := chains, objects;
    if Find(fs.root, parent).Some? && fs.volume.free > 0 {
      chains', objects' := DirectoryDeclared(fs, chains, objects, parent, name, stamp);
    } else {
      NothingLogged(fs, LogOf(chains, objects), MakeDirectory(parent, name, stamp));
    }
  }

  /** The step once the new cluster is taken: the name is declared, or refused. */
  lemma DirectoryDeclared(fs: Fs, chains: seq<seq<nat>>, objects: Objects, parent: Path, name: Name, stamp: Stamp)
    returns (chains': seq<seq<nat>>, objects': Objects)
    requires ImageOk(fs, chains, objects) && Usable(fs) && Find(fs.root, parent).Some? && fs.volume.free > 0
    requires Allowed(fs, Nodes(objects), MakeDirectory(parent, name, stamp))
    ensures StepOk(fs, chains, objects, DirectoryStep(fs, parent, name, stamp), chains', objects',
      MakeDirectory(parent, name, stamp))
  {
    hide Inv, SelvesOk, Find, SetRaw, AddChild, Declare, NewDirectory, ObjectOk, Readable, TailFits, DirOk, VolumeOk,
      VolumeGrew, Usable, Describes, Continues, KeepsSlots, KeepsOthers, DirectoryHolds, Covered, EntrySlots, EntryOf,
      Fits, Taken, LogOf, LogStep, Storable, ChainsGrow, HaveFirsts, WithEntry, FirstOf;
    var op := MakeDirectory(parent, name, stamp);
    ImageHasFirsts(fs, chains, objects);
    UsableParts(fs, parent);
    ParentClusterIsRight(fs, chains, objects, parent);
    InvParts(fs.volume, fs.root, chains, objects);
    FoundDirectory(fs, chains, objects, parent);
    var raw, path, first := Find(fs.root, parent).value, parent + [name], fs.volume.next;
    var v, root, chains1 := NewDirectory(fs.volume, raw, stamp), fs.root, chains + [[first]];
    var dots := DotSlots(first, AboveCluster(chains, objects, parent), stamp);
    NewDirectoryHolds(fs.volume, chains, raw, None, stamp);
    TakenCluster(fs.volume, v, root, chains, objects, first);
    var child := DirObject(|chains|, dots, []);
    var w := Declare(v, raw, fs.counters, name, true, first, 0, stamp).written;
    if |name| > MAX_NAME {
      LongNameRefused(v, root, chains1, objects, parent, name, fs.counters, true, first, 0, stamp);
      chains', objects' := chains1, objects;
      NothingLogged(fs, LogOf(chains, objects), op);
      SameSelves(root, chains, [first], objects, parent);
      OneMoreChain(chains, [first], objects);
    } else {
      DeclareKeeps(v, raw, fs.counters, name, true, first, 0, stamp);
      DirectoryStorable(fs, parent, name, stamp);
      NewDirectoryTakesOne(fs.volume, raw, stamp);
      NothingPending(fs.volume, root, chains, objects, parent);
      ChainIndexBelow(fs.volume, root, chains, objects);
      var o';
      chains', o' := DeclareKeepsInv(v, root, chains1, objects, parent, name, fs.counters, 0, stamp, child);
      GrownParts(v, w.volume, chains1, chains', objects[parent], o');
      GrowsByOne(chains, [first], chains');
      NewFirst(chains, first, chains');
      LogAfterDeclare(fs, chains, chains', objects, op, v, o', first, 0);
      LogStepOfDirectory(fs, LogOf(chains, objects), op);
      ParentFirst(chains, objects, parent);
      LogWithDirectory(chains', objects[parent := o'], path, child);
      SelvesAfterDeclare(v, w, root, chains, [first], chains', objects, parent, o', path, FileObject(0, []));
      if w.ok {
        objects' := objects[parent := o'][path := child];
        DirOkParts(w.volume, chains'[o'.chain], parent, w.directory, o'.content, o'.children);
        SelvesWithDirectory(v, w, root, chains, [first], chains', objects, parent, o', name, child, first);
        DirectoryJoins(v, w, root, chains1, chains', objects, parent, o', Entry(name, true, first, 0), child, stamp);
        PathBelow(parent, name);
        OneMoreNode(objects, parent, o', path, child);
        if Covered(chains, objects) {
          CoveredByOneMore(v, w.volume, chains, [first], chains', objects, parent, o', path, child);
        }
      } else {
        objects' := objects[parent := o'];
        InvAfterFailure(v, w, root, chains1, chains', objects, parent, o');
        SameNodes(objects, parent, o');
      }
    }
    var r := DirectoryStep(fs, parent, name, stamp);
    assert LogOf(chains', objects') == LogStep(fs, LogOf(chains, objects), op);
    assert Inv(r.fs.volume, r.fs.root, chains', objects');
    assert SelvesOk(r.fs.root, chains', objects');
    assert Nodes(objects') == ModelStep(Nodes(objects), op, r.ok);
    assert r.ok && Covered(chains, objects) ==> Covered(chains', objects');
  }

  /** Taking a cluster for a new directory keeps the invariant. */
  lemma TakenCluster(v: Volume, v': Volume, root: FatDirectory, chains: seq<seq<nat>>, objects: Objects, first: nat)
    requires Inv(v, root, chains, objects) && VolumeOk(v', chains + [[first]]) && first == v.next && v'.free <= v.free
    requires Shaped(v) && SlotSized(v) && Shaped(v') && SlotSized(v')
    requires KeepsSlots(v, v') && KeepsOthers(v, v', [first])
    ensures Inv(v', root, chains + [[first]], objects) && first < 0x1_0000_0000
  {
    InvWithNewChain(v, v', root, chains, [first], objects);
    assert IsChain(v'.fat0, (chains + [[first]])[|chains|]);
  }

  /** The tree with the new directory listed in its parent. */
  lemma DirectoryJoins(v: Volume, w: Written, root: FatDirectory, chains: seq<seq<nat>>, chains': seq<seq<nat>>,
    objects: Objects, parent: Path, o': Object, entry: Entry, child: Object, stamp: Stamp)
    requires Inv(v, root, chains, objects) && parent in objects && Continues(objects[parent], o')
    requires Find(root, parent).Some?
    requires VolumeGrew(v, w.volume, chains, chains', o'.chain)
    requires o'.DirObject? && DirOk(w.volume, chains'[o'.chain], parent, w.directory, o'.content, o'.children)
    requires o'.children == objects[parent].children + [entry] && parent + [entry.name] !in objects
    requires child.DirObject? && child.chain < |chains| && child.children == [] && chains[child.chain] == [entry.first]
    requires entry.directory && DirectoryHolds(v, chains[child.chain], NewRaw(None, entry.first), child.content)
    requires objects[parent].chain < |chains| && chains[objects[parent].chain] != []
    requires entry.first < 0x1_0000_0000 && AboveCluster(chains, objects, parent) < 0x1_0000_0000
    requires child.content == DotSlots(entry.first, AboveCluster(chains, objects, parent), stamp)
    requires forall p :: p in objects ==> objects[p].chain != child.chain
    requires w.directory.entryIndex > 0 && SelfNames(w.volume, Some(Previous(w.directory)), entry.name, entry.first)
    ensures Inv(w.volume,
      AddChild(SetRaw(root, parent, w.directory), parent, entry.name, NewRaw(Some(Previous(w.directory)), entry.first)),
      chains', objects[parent := o'][parent + [entry.name] := child])
  {
    hide Inv, Find, SetRaw, AddChild, ObjectOk, DirOk, VolumeOk, VolumeGrew, Describes, Continues, SelfNames, DotsOk,
      DirectoryHolds, DotSlots, IsDotSlot;
    var path, root1, raw :=
      parent + [entry.name], SetRaw(root, parent, w.directory), NewRaw(Some(Previous(w.directory)), entry.first);
    var root' := AddChild(root1, parent, entry.name, raw);
    PathBelow(parent, entry.name);
    SetRawFinds(root, parent, w.directory);
    AddChildFinds(root1, parent, entry.name, raw);
    InvParts(v, root, chains, objects);
    GrownShape(v, w.volume, chains, chains', o'.chain);
    ContinuesParts(objects[parent], o');
    StillDescribes(v, w.volume, chains, chains', o'.chain, entry, child);
    DotSlotsScan(entry.first, AboveCluster(chains, objects, parent), stamp);
    NewDirectoryOk(v, w.volume, chains, chains', o'.chain, child, path, root', raw);
    NewDotsOk(v, w.volume, chains, chains', objects, parent, o', path, child);
    InvAfterSuccess(v, w, root, root', chains, chains', objects, parent, o', entry, child);
  }

  lemma GrownShape(v: Volume, w: Volume, chains: seq<seq<nat>>, chains': seq<seq<nat>>, k: nat)
    requires VolumeGrew(v, w, chains, chains', k)
    ensures Shaped(w) && SlotSized(w)
  {
  }

  lemma AddChildFinds(root: FatDirectory, parent: Path, name: Name, raw: RawDirectory)
    requires Find(root, parent).Some?
    ensures var root' := AddChild(root, parent, name, raw);
      Find(root', parent + [name]) == Some(raw) && forall q :: q != parent + [name] ==> Find(root', q) == Find(root, q)
  {
    forall q
      ensures Find(AddChild(root, parent, name, raw), q) == if q == parent + [name] then Some(raw) else Find(root, q)
    {
      FindAfterAddChild(root, parent, name, raw, q);
    }
  }

  lemma NewDirectoryOk(v: Volume, w: Volume, chains: seq<seq<nat>>, chains': seq<seq<nat>>, k: nat, child: Object,
    path: Path, root: FatDirectory, raw: RawDirectory)
    requires VolumeOk(v, chains) && VolumeGrew(v, w, chains, chains', k)
    requires child.DirObject? && child.chain < |chains| && child.chain != k && chains[child.chain] == [raw.cluster]
    requires DirectoryHolds(v, chains[child.chain], raw.(self := None), child.content)
    requires ScanSlots(START, child.content) == START && child.children == []
    requires Shaped(w) && SlotSized(w) && path != ROOT && SelfNames(w, raw.self, Last(path), raw.cluster)
    requires Find(root, path) == Some(raw)
    ensures ObjectOk(w, root, chains', path, child)
  {
    hide ScanSlots, ChainSlots, SelfNames;
    assert raw.cluster in chains[child.chain];
    OnOneChain(chains, child.chain, k, raw.cluster);
    DirectoryFrame(v, w, chains[child.chain], raw.(self := None), child.content);
  }

  lemma NewDotsOk(v: Volume, w: Volume, chains: seq<seq<nat>>, chains': seq<seq<nat>>, objects: Objects, parent: Path,
    o': Object, path: Path, child: Object)
    requires VolumeGrew(v, w, chains, chains', o'.chain) && parent in objects && Continues(objects[parent], o')
    requires path != ROOT && path != parent && Front(path) == parent
    requires child.DirObject? && child.chain < |chains| && chains[child.chain] != [] && |child.content| >= 2
    requires objects[parent].chain < |chains| && chains[objects[parent].chain] != []
    requires IsDotSlot(child.content[0], DOT_NAME, chains[child.chain][0])
    requires IsDotSlot(child.content[1], DOT_DOT_NAME, AboveCluster(chains, objects, parent))
    ensures DotsOk(chains', objects[parent := o'][path := child], path)
  {
    hide IsDotSlot, KeepsSlots, KeepsOthers, VolumeOk;
    assert chains[child.chain] <= chains'[child.chain];
  }
}
