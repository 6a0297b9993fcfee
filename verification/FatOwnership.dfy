/**
 * Who owns which cluster after a run of operations, as the reader sees it: no two paths share a
 * cluster, and while every operation succeeds no cluster is lost.
 */
module FatOwnership {
  import opened Options
  import opened FatClusters
  import opened FatNames
  import opened FatReader
  import opened FatWriter
  import opened FatFilesystem
  import opened FatLog
  import opened FatInvariant
  import opened FatRefinement
  import opened FatRuns

  /** The clusters the reader finds below a path. */
  function ClustersOf(v: Volume, path: Path): seq<nat> {
    var e := Locate(v, ROOT_ENTRY, path);
    if e.None? then []
    else
      var chain := ReadChain(v.fat0, e.value.first);
      if chain.None? then [] else chain.value
  }

  /** The reader finds a path's own chain. */
  lemma ClustersOfObject(fs: Fs, chains: seq<seq<nat>>, objects: Objects, path: Path)
    requires ImageOk(fs, chains, objects) && path in objects
    ensures objects[path].chain < |chains| && ClustersOf(fs.volume, path) == chains[objects[path].chain]
  {
    hide ImageOk, Describes, Locate, ReadChain;
    RootIsDescribed(fs, chains, objects);
    LocateFinds(fs, chains, objects, ROOT, ROOT_ENTRY, path);
    assert ROOT + path == path;
    DescribedFirst(chains, Locate(fs.volume, ROOT_ENTRY, path).value, objects[path]);
    ChainOfObject(fs, chains, objects, path);
  }

  lemma ChainOfObject(fs: Fs, chains: seq<seq<nat>>, objects: Objects, path: Path)
    requires ImageOk(fs, chains, objects) && path in objects
    ensures var k := objects[path].chain;
      k < |chains| && chains[k] != [] && ReadChain(fs.volume.fat0, chains[k][0]) == Some(chains[k])
  {
    assert ObjectOk(fs.volume, fs.root, chains, path, objects[path]);
    var k := objects[path].chain;
    assert IsChain(fs.volume.fat0, chains[k]);
    ReadChainFindsChain(fs.volume.fat0, |fs.volume.data|, chains[k]);
  }

  /** After any run, no cluster belongs to two paths. */
  lemma ClustersAreNotShared(f: Format, labelSlot: Slot, ops: seq<Op>, p: Path, q: Path)
    requires ValidFormat(f) && IsLabel(labelSlot) && AllAllowed(Start(f, labelSlot), ops) && p != q
    requires var model := Run(Start(f, labelSlot), ops).model; p in model && q in model
    ensures var v := Run(Start(f, labelSlot), ops).fs.volume;
      forall c :: c in ClustersOf(v, p) ==> c !in ClustersOf(v, q)
  {
    FormattedIsOk(f, labelSlot);
    var chains, objects := RunKeeps(Start(f, labelSlot), [[2]], map[ROOT := DirObject(0, [labelSlot], [])], ops);
    var fs := Run(Start(f, labelSlot), ops).fs;
    ClustersOfObject(fs, chains, objects, p);
    ClustersOfObject(fs, chains, objects, q);
    ChainsApart(fs, chains, objects, p, q);
  }

  lemma ChainsApart(fs: Fs, chains: seq<seq<nat>>, objects: Objects, p: Path, q: Path)
    requires ImageOk(fs, chains, objects) && p in objects && q in objects && p != q
    requires objects[p].chain < |chains| && objects[q].chain < |chains|
    ensures forall c :: c in chains[objects[p].chain] ==> c !in chains[objects[q].chain]
  {
    assert Disjoint(chains);
  }

  ghost predicate Belongs(v: Volume, model: Model, c: nat) {
    exists path :: path in model && c in ClustersOf(v, path)
  }

  /** While every operation succeeds, the clusters handed out are exactly those of the paths. */
  lemma NoClusterIsLost(f: Format, labelSlot: Slot, ops: seq<Op>, c: nat)
    requires ValidFormat(f) && IsLabel(labelSlot) && AllAllowed(Start(f, labelSlot), ops)
    requires AllSucceed(Start(f, labelSlot), ops)
    ensures var s := Run(Start(f, labelSlot), ops);
      Belongs(s.fs.volume, s.model, c) <==> 2 <= c < s.fs.volume.next
  {
    hide ImageOk, Formatted, ClustersOf;
    FormattedIsOk(f, labelSlot);
    var objects0 := map[ROOT := DirObject(0, [labelSlot], [])];
    assert ROOT in objects0 && objects0[ROOT].chain == 0;
    assert OwnsChain(objects0, 0);
    var chains, objects := RunKeeps(Start(f, labelSlot), [[2]], objects0, ops);
    OwnedClusters(Run(Start(f, labelSlot), ops).fs, chains, objects, c);
  }

  lemma OwnedClusters(fs: Fs, chains: seq<seq<nat>>, objects: Objects, c: nat)
    requires ImageOk(fs, chains, objects) && Covered(chains, objects)
    ensures Belongs(fs.volume, Nodes(objects), c) <==> 2 <= c < fs.volume.next
  {
    hide ImageOk, ClustersOf;
    HeldClusters(fs, chains, objects, c);
    if Held(chains, c) {
      var k :| 0 <= k < |chains| && c in chains[k];
      assert OwnsChain(objects, k);
      var p :| p in objects && objects[p].chain == k;
      ClustersOfObject(fs, chains, objects, p);
      assert p in Nodes(objects);
    }
    if Belongs(fs.volume, Nodes(objects), c) {
      var p :| p in Nodes(objects) && c in ClustersOf(fs.volume, p);
      ClustersOfObject(fs, chains, objects, p);
      assert c in chains[objects[p].chain];
    }
  }

  lemma HeldClusters(fs: Fs, chains: seq<seq<nat>>, objects: Objects, c: nat)
    requires ImageOk(fs, chains, objects)
    ensures Held(chains, c) <==> 2 <= c < fs.volume.next
  {
    hide ObjectsOk, TreeOk;
    var v := fs.volume;
    assert Chained(v, chains);
    if Held(chains, c) {
      var k :| 0 <= k < |chains| && c in chains[k];
      assert IsChain(v.fat0, chains[k]);
    }
  }

  // ---------------------------------------------------------------- the directories being filled

  /** What the image remembers about a directory agrees with what the reader finds. */
  ghost predicate StateAgrees(v: Volume, path: Path, d: RawDirectory)
    requires Shaped(v) && SlotSized(v)
  {
    var chain := ClustersOf(v, path);
    && chain != [] && d.cluster == Last(chain) && IsCluster(v, d.cluster) && d.entryIndex <= MaxEntries(v)
    && (forall i :: d.entryIndex <= i < MaxEntries(v) ==> SlotAt(v, d.cluster, i)[0] == 0)
    && if path == ROOT then d.self == None && chain[0] == 2
      else SelfNames(v, d.self, Last(path), chain[0]) && d.self.value.cluster in ClustersOf(v, Front(path))
  }

  /**
   * After any run, the state kept for each directory is right: it fills the last cluster of the
   * directory's chain, only zero slots follow its position, and the entry it remembers as its own
   * names its first cluster.
   */
  lemma DirectoryStateIsRight(f: Format, labelSlot: Slot, ops: seq<Op>, path: Path)
    requires ValidFormat(f) && IsLabel(labelSlot) && AllAllowed(Start(f, labelSlot), ops)
    requires var s := Run(Start(f, labelSlot), ops); path in s.model && s.model[path] == DirectoryNode
    ensures var s := Run(Start(f, labelSlot), ops);
      && Shaped(s.fs.volume) && SlotSized(s.fs.volume)
      && Find(s.fs.root, path).Some? && StateAgrees(s.fs.volume, path, Find(s.fs.root, path).value)
  {
    hide ImageOk, Formatted, StateAgrees, Shaped, SlotSized;
    FormattedIsOk(f, labelSlot);
    var chains, objects := RunKeeps(Start(f, labelSlot), [[2]], map[ROOT := DirObject(0, [labelSlot], [])], ops);
    StateOfObject(Run(Start(f, labelSlot), ops).fs, chains, objects, path);
  }

  lemma StateOfObject(fs: Fs, chains: seq<seq<nat>>, objects: Objects, path: Path)
    requires ImageOk(fs, chains, objects) && path in objects && objects[path].DirObject?
    ensures Shaped(fs.volume) && SlotSized(fs.volume)
    ensures Find(fs.root, path).Some? && StateAgrees(fs.volume, path, Find(fs.root, path).value)
  {
    hide ClustersOf, TreeOk, SelfNames, Chained, FreshZero, Lists, ChainSlots;
    ClustersOfObject(fs, chains, objects, path);
    assert SelfInParent(fs.root, chains, objects, path);
    if path != ROOT {
      ClustersOfObject(fs, chains, objects, Front(path));
    }
    assert ObjectOk(fs.volume, fs.root, chains, path, objects[path]);
  }

  // ---------------------------------------------------------------- what directories hold

  /** The root directory of a formatted volume holds the label. */
  function StartLog(labelSlot: Slot): Log {
    map[ROOT := Logged(2, [labelSlot])]
  }

  /** The slots of the directory that an entry describes are the given ones, and then only unused ones. */
  ghost predicate ReadsAs(v: Volume, e: Option<Entry>, l: Logged) {
    && e.Some? && e.value.first == l.first
    && var slots := ReadDirectory(v, l.first);
    && slots.Some? && l.slots <= slots.value
    && forall i :: |l.slots| <= i < |slots.value| ==> slots.value[i][0] == 0
  }

  /**
   * After any run, reading a directory's chain gives exactly the slots that the operations appended
   * to it, in order (the label or the dot slots, then the entries of its children, or of a refused
   * child the part that still fitted), and behind them only slots that are not in use.
   */
  lemma DirectoryHoldsLog(f: Format, labelSlot: Slot, ops: seq<Op>, path: Path)
    requires ValidFormat(f) && IsLabel(labelSlot) && AllAllowed(Start(f, labelSlot), ops)
    ensures var s := Run(Start(f, labelSlot), ops);
      var log := LogAfter(Start(f, labelSlot), StartLog(labelSlot), ops);
      && (path in log <==> NodeIsDirectory(s.model, path))
      && (path in log ==> ReadsAs(s.fs.volume, Locate(s.fs.volume, ROOT_ENTRY, path), log[path]))
  {
    hide ImageOk, Formatted, ReadsAs, LogStep, Locate;
    FormattedIsOk(f, labelSlot);
    var objects0 := map[ROOT := DirObject(0, [labelSlot], [])];
    assert LogOf([[2]], objects0) == StartLog(labelSlot);
    var chains, objects := RunKeeps(Start(f, labelSlot), [[2]], objects0, ops);
    if path in objects && objects[path].DirObject? {
      ObjectReadsAs(Run(Start(f, labelSlot), ops).fs, chains, objects, path);
    }
  }

  predicate NodeIsDirectory(model: Model, path: Path) {
    path in model && model[path] == DirectoryNode
  }

  lemma ObjectReadsAs(fs: Fs, chains: seq<seq<nat>>, objects: Objects, path: Path)
    requires ImageOk(fs, chains, objects) && path in objects && objects[path].DirObject?
    ensures ReadsAs(fs.volume, Locate(fs.volume, ROOT_ENTRY, path), LogOf(chains, objects)[path])
  {
    hide Describes, Locate, ReadDirectory, Listing, TreeOk, SelvesOk;
    RootIsDescribed(fs, chains, objects);
    LocateFinds(fs, chains, objects, ROOT, ROOT_ENTRY, path);
    assert ROOT + path == path;
    DescribedFirst(chains, Locate(fs.volume, ROOT_ENTRY, path).value, objects[path]);
    assert ObjectOk(fs.volume, fs.root, chains, path, objects[path]);
    DirectoryReads(fs.volume, chains, objects[path].chain, path, Find(fs.root, path).value, objects[path].content,
      objects[path].children);
  }

  lemma DirectoryReads(v: Volume, chains: seq<seq<nat>>, k: nat, path: Path, raw: RawDirectory, content: seq<Slot>,
    children: seq<Entry>)
    requires VolumeOk(v, chains) && k < |chains| && DirOk(v, chains[k], path, raw, content, children)
    ensures chains[k] != []
    ensures var slots := ReadDirectory(v, chains[k][0]);
      slots.Some? && content <= slots.value && forall i :: |content| <= i < |slots.value| ==> slots.value[i][0] == 0
  {
    ReadChainInData(v, chains, k);
    DirectorySlots(v, chains[k], raw, content);
  }
}
