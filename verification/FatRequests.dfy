/**
 * Filling a new image from a list of requests, as the image creator's main program does, and the
 * end-to-end guarantee: what the reader finds on the finished image.
 */
module FatRequests {
  import opened Bytes
  import opened Options
  import opened FatGeometry
  import opened FatClusters
  import opened FatNames
  import opened FatReader
  import opened FatWriter
  import opened FatFilesystem
  import opened FatInvariant
  import opened FatRefinement
  import opened FatCapacity
  import opened FatPlan
  import opened FatBoot
  import opened FatBytes
  import opened FatFormatted
  import opened FatRuns
  import opened FatShortNames
  import opened FatPaths
  import opened FatImage

  // ---------------------------------------------------------------- requests that may be made

  function Target(op: Op): Path {
    op.parent + [op.name]
  }

  function NamesOf(ops: seq<Op>): (names: seq<Name>)
    ensures |names| == |ops|
  {
    seq(|ops|, i requires 0 <= i < |ops| => ops[i].name)
  }

  /** An operation that is in order on its own: a name the reader can show, and no empty file. */
  predicate InOrder(op: Op) {
    && (|op.name| <= MAX_NAME ==> Readable(op.name))
    && (op.MakeFile? ==> op.content != [])
  }

  /** A name that needs a generated tail finds a number below 1000 for it. */
  predicate TailLeft(names: seq<Name>, name: Name) {
    HasTail(name) ==> Uses(names, CounterKey(name)) < COUNTER_LIMIT - 1
  }

  /** Operations in order, no target twice, and for a generated tail fewer than 999 earlier ones on its counter. */
  ghost predicate Proper(ops: seq<Op>) {
    && (forall i :: 0 <= i < |ops| ==> InOrder(ops[i]))
    && (forall i :: 0 <= i < |ops| ==> TailLeft(NamesOf(ops[..i]), ops[i].name))
    && (forall i, j :: 0 <= i < j < |ops| ==> Target(ops[i]) != Target(ops[j]))
  }

  ghost predicate CountersBounded(counters: Counters, done: seq<Op>) {
    forall key :: key in counters ==> counters[key] <= 1 + Uses(NamesOf(done), key)
  }

  ghost predicate IsTarget(done: seq<Op>, p: Path) {
    exists i :: 0 <= i < |done| && Target(done[i]) == p
  }

  ghost predicate ModelWithin(model: Model, done: seq<Op>) {
    forall p :: p in model ==> p == ROOT || IsTarget(done, p)
  }

  lemma StepCounters(fs: Fs, op: Op)
    requires Usable(fs) && (|op.name| <= MAX_NAME ==> TailFits(fs.counters, op.name))
    ensures var counters := Step(fs, op).fs.counters;
      counters == fs.counters || (|op.name| <= MAX_NAME && counters == NextCounters(fs.counters, op.name))
  {
    hide EntrySlots, WriteSlots, NewDirectory, StoreFile;
  }

  lemma BoundedAfter(counters: Counters, counters': Counters, done: seq<Op>, op: Op)
    requires CountersBounded(counters, done)
    requires counters' == counters || (|op.name| <= MAX_NAME && counters' == NextCounters(counters, op.name))
    ensures CountersBounded(counters', done + [op])
  {
    hide HasTail, CounterKey;
    var names := NamesOf(done + [op]);
    assert names[..|names| - 1] == NamesOf(done) && names[|names| - 1] == op.name;
  }

  lemma WithinAfter(model: Model, done: seq<Op>, op: Op, ok: bool)
    requires ModelWithin(model, done)
    ensures ModelWithin(ModelStep(model, op, ok), done + [op])
  {
    forall p | p in ModelStep(model, op, ok) && p != ROOT
      ensures IsTarget(done + [op], p)
    {
      if p in model {
        assert IsTarget(done, p);
        var i :| 0 <= i < |done| && Target(done[i]) == p;
        assert (done + [op])[i] == done[i];
      } else {
        assert (done + [op])[|done|] == op;
      }
    }
  }

  lemma ProperIsAllowed(s: State, done: seq<Op>, op: Op, rest: seq<Op>)
    requires CountersBounded(s.fs.counters, done) && ModelWithin(s.model, done)
    requires Proper(done + [op] + rest)
    ensures Allowed(s.fs, s.model, op)
  {
    hide Readable, HasTail, CounterKey;
    var ops, n := done + [op] + rest, |done|;
    assert ops[n] == op && ops[..n] == done;
    assert InOrder(ops[n]);
    assert TailLeft(NamesOf(ops[..n]), ops[n].name);
    forall i | 0 <= i < |done|
      ensures Target(done[i]) != Target(op)
    {
      assert ops[i] == done[i];
    }
    assert !IsTarget(done, Target(op));
  }

  lemma {:induction false} ProperRunAllowed(s: State, done: seq<Op>, rest: seq<Op>)
    requires Usable(s.fs) && CountersBounded(s.fs.counters, done) && ModelWithin(s.model, done)
    requires Proper(done + rest)
    ensures AllAllowed(s, rest)
    decreases |rest|
  {
    hide Usable, Step, Proper, CountersBounded, ModelWithin, ModelStep, Readable, TailFits;
    if rest != [] {
      var op := rest[0];
      assert done + rest == done + [op] + rest[1..];
      ProperIsAllowed(s, done, op, rest[1..]);
      StepUsable(s.fs, op);
      StepCounters(s.fs, op);
      BoundedAfter(s.fs.counters, Step(s.fs, op).fs.counters, done, op);
      WithinAfter(s.model, done, op, Step(s.fs, op).ok);
      ProperRunAllowed(Next(s, op), done + [op], rest[1..]);
    }
  }

  /** Proper requests satisfy the conditions of every operation on a new volume. */
  lemma ProperRequestsAreAllowed(f: Format, labelSlot: Slot, ops: seq<Op>)
    requires ValidFormat(f) && Proper(ops)
    ensures AllAllowed(Start(f, labelSlot), ops)
  {
    hide Proper, AllAllowed, Usable, CountersBounded, ModelWithin;
    assert [] + ops == ops;
    NothingBounded(Start(f, labelSlot));
    ProperRunAllowed(Start(f, labelSlot), [], ops);
  }

  lemma NothingBounded(start: State)
    requires start.fs.counters == map[] && start.model == EMPTY_MODEL
    ensures CountersBounded(start.fs.counters, []) && ModelWithin(start.model, [])
  {
  }

  lemma ProperPrefix(ops: seq<Op>, n: nat)
    requires Proper(ops) && n <= |ops|
    ensures Proper(ops[..n])
  {
    hide InOrder, TailLeft;
    forall i | 0 <= i < n
      ensures InOrder(ops[..n][i]) && TailLeft(NamesOf(ops[..n][..i]), ops[..n][i].name)
    {
      assert ops[..n][..i] == ops[..i] && ops[..n][i] == ops[i];
    }
  }

  // ---------------------------------------------------------------- one more operation

  lemma {:induction false} RunOneMore(s: State, ops: seq<Op>, op: Op)
    requires Usable(s.fs) && AllAllowed(s, ops + [op])
    ensures AllAllowed(s, ops)
    ensures var s' := Run(s, ops);
      && Usable(s'.fs) && Allowed(s'.fs, s'.model, op) && Run(s, ops + [op]) == Next(s', op)
      && (AllSucceed(s, ops + [op]) <==> AllSucceed(s, ops) && Step(s'.fs, op).ok)
    decreases |ops|
  {
    hide Usable, Step, ModelStep, Readable, TailFits;
    if ops == [] {
      assert [op][0] == op && [op][1..] == [];
      assert ops + [op] == [op];
      StepUsable(s.fs, op);
    } else {
      assert (ops + [op])[0] == ops[0] && (ops + [op])[1..] == ops[1..] + [op];
      StepUsable(s.fs, ops[0]);
      RunOneMore(Next(s, ops[0]), ops[1..], op);
    }
  }

  /** If a whole list succeeds, so does its beginning. */
  lemma {:induction false} BeginningSucceeds(s: State, ops: seq<Op>, rest: seq<Op>)
    requires Usable(s.fs) && AllAllowed(s, ops + rest)
    ensures AllAllowed(s, ops) && (AllSucceed(s, ops + rest) ==> AllSucceed(s, ops))
    decreases |ops|
  {
    hide Usable, Step, ModelStep, Readable, TailFits;
    if ops != [] {
      assert (ops + rest)[0] == ops[0] && (ops + rest)[1..] == ops[1..] + rest;
      StepUsable(s.fs, ops[0]);
      BeginningSucceeds(Next(s, ops[0]), ops[1..], rest);
    }
  }

  /** The map that a list of operations describes when all of them succeed. */
  function ModelOf(ops: seq<Op>): Model {
    if ops == [] then EMPTY_MODEL else ModelStep(ModelOf(Front(ops)), Last(ops), true)
  }

  // ---------------------------------------------------------------- the main program's loop

  datatype Item =
    | DirectoryItem(path: Text, stamp: Stamp)
    | FileItem(path: Text, content: seq<byte>, stamp: Stamp)

  function OpOf(item: Item): Op
    requires item.path != []
  {
    var d := Parse(item.path).value;
    match item
    case DirectoryItem(_, stamp) => MakeDirectory(d.parent, d.name, stamp)
    case FileItem(_, content, stamp) => MakeFile(d.parent, d.name, content, stamp)
  }

  predicate HavePaths(items: seq<Item>) {
    forall i :: 0 <= i < |items| ==> items[i].path != []
  }

  function OpsOf(items: seq<Item>): (ops: seq<Op>)
    requires HavePaths(items)
    ensures |ops| == |items|
  {
    seq(|items|, i requires 0 <= i < |items| => OpOf(items[i]))
  }

  function NodeAt(model: Model, path: Path): Option<Node> {
    if path in model then Some(model[path]) else None
  }

  /** Carry out one item. */
  method Perform(image: Fat, item: Item) returns (ok: bool)
    requires item.path != [] && image.Valid()
    requires InOrder(OpOf(item)) && (|OpOf(item).name| <= MAX_NAME ==> TailFits(image.nameMap, OpOf(item).name))
    modifies image, image.fat0, image.fat1, image.data
    ensures image.Valid()
    ensures var r := Step(old(image.State()), OpOf(item));
      image.State() == r.fs && ok == r.ok
  {
    hide Usable, DirectoryStep, FileStep, TailFits, Readable;
    var outcome;
    match item
    case DirectoryItem(path, stamp) =>
      outcome := image.CreateDirectory(path, stamp);
      ok := outcome == Done(true);
    case FileItem(path, content, stamp) =>
      outcome := image.CreateFile(path, content, stamp);
      ok := outcome == Done(true);
  }

  /** The number of free clusters, and while there are any, the smallest one. */
  ghost predicate RecordIsExact(fat: seq<nat>, clusters: nat, r: Record) {
    && clusters + 2 <= |fat| && r.freeCount == CountFree(fat, 2, clusters + 2)
    && (forall c :: 2 <= c < r.nextFree && c < |fat| ==> fat[c] != 0)
    && (r.freeCount > 0 ==> r.nextFree < |fat| && fat[r.nextFree] == 0)
  }

  /** The clusters of all files and directories together fit, as planned in advance. */
  predicate PlanFits(clusterSize: nat, clusters: nat, ops: seq<Op>) {
    clusterSize >= 64 && var plan := PlanOf(clusterSize, EMPTY_PLAN, ops);
    plan.Some? && plan.value.taken <= clusters
  }

  /** The state in which a list of operations begins. */
  ghost function StartOf(lbaCount: nat, volumeName: seq<byte>, stamp: Stamp): (s: State)
    requires 66600 < lbaCount <= DWORD_LIMIT - 8161
    ensures Usable(s.fs)
  {
    FormatIs(lbaCount);
    Start(FormatOf(lbaCount), LabelSlot(VolumeLabel(volumeName), stamp))
  }

  /** The operations may be performed, and all of them succeed. */
  ghost predicate Succeeds(start: State, ops: seq<Op>)
    requires Usable(start.fs)
  {
    AllAllowed(start, ops) && AllSucceed(start, ops)
  }

  /** There is room for the i-th operation once those before it were carried out. */
  ghost predicate RoomAt(start: State, ops: seq<Op>, i: nat)
    requires Usable(start.fs) && i < |ops|
  {
    AllAllowed(start, ops[..i])
    && (RunUsable(start, ops[..i]);
        HasRoom(Run(start, ops[..i]).fs, ops[i]))
  }

  /** A run of allowed operations that ends in the given image and model. */
  ghost predicate Reached(start: State, ops: seq<Op>, fs: Fs, model: Model)
    requires Usable(start.fs)
  {
    AllAllowed(start, ops) && Run(start, ops) == State(fs, model)
  }

  /** What a reader finds who has nothing but the bytes of a partition. */
  ghost predicate FoundInBytes(p: seq<byte>, fat: seq<nat>, model: Model) {
    var v := ReadVolume(p);
    v.Some? && v.value.fat0 == fat && forall path :: Lookup(v.value, path) == NodeAt(model, path)
  }

  /**
   * The bytes of a partition carry the volume's name as label: eleven bytes, filled up with spaces.
   * A name whose first byte is 0xE5 is not found.
   */
  ghost predicate LabelInBytes(p: seq<byte>, volumeName: seq<byte>) {
    var v := ReadVolume(p);
    && v.Some?
    && var slots := ReadDirectory(v.value, 2);
    && slots.Some?
    && var text := seq(11, i requires 0 <= i < 11 => if i < |volumeName| then volumeName[i] else 0x20);
    (LabelOf(slots.value) == Some(text) <==> text[0] != 0xE5)
  }

  lemma LabelText(volumeName: seq<byte>, stamp: Stamp)
    ensures LabelSlot(VolumeLabel(volumeName), stamp)[..11]
      == seq(11, i requires 0 <= i < 11 => if i < |volumeName| then volumeName[i] else 0x20)
  {
  }

  lemma {:induction false} LocateIgnoresCounters(v: Volume, v': Volume, e: Entry, path: Path)
    requires v' == v.(next := v'.next, free := v'.free)
    ensures Locate(v', e, path) == Locate(v, e, path)
    decreases |path|
  {
    hide Listing;
    assert ReadDirectory(v', e.first) == ReadDirectory(v, e.first);
    if path != [] && e.directory && ReadDirectory(v, e.first).Some? {
      var entries := Listing(ReadDirectory(v, e.first).value);
      var i := FindName(entries, path[0]);
      if i < |entries| {
        LocateIgnoresCounters(v, v', entries[i], path[1..]);
      }
    }
  }

  /** The counters of a volume play no part in finding files. */
  lemma LookupIgnoresCounters(v: Volume, next: nat, free: nat, path: Path)
    ensures Lookup(v.(next := next, free := free), path) == Lookup(v, path)
  {
    LocateIgnoresCounters(v, v.(next := next, free := free), ROOT_ENTRY, path);
  }

  /**
   * Format a partition and carry out the items in order, up to the first for which there is no
   * room. A reader of the partition's bytes then finds exactly the items before it. If there was
   * room for all, the image is closed, and its free-cluster record is exact; otherwise the record
   * still says that nothing is known.
   */
  method CreateImage(lbaCount: nat, volumeName: seq<byte>, stamp: Stamp, items: seq<Item>)
    returns (image: Fat, done: nat)
    requires Formattable(lbaCount)
    requires VolumeLabel(volumeName)[0] != 0
    requires HavePaths(items) && Proper(OpsOf(items))
    ensures image.Valid() && done <= |items| && image.lbaCount == lbaCount
    ensures FormatOf(lbaCount) == Format(image.clusterSize, image.clusterCount, image.fat0.Length)
    ensures forall i: nat :: i < done ==> RoomAt(StartOf(lbaCount, volumeName, stamp), OpsOf(items), i)
    ensures done == |items| <==> PlanFits(image.clusterSize, image.clusterCount, OpsOf(items))
    ensures done < |items| ==> !RoomAt(StartOf(lbaCount, volumeName, stamp), OpsOf(items), done)
    ensures forall path :: Lookup(image.Contents(), path) == NodeAt(ModelOf(OpsOf(items)[..done]), path)
    ensures image.fat0[..] == image.fat1[..]
    ensures FoundInBytes(image.PartitionBytes(), image.fat0[..], ModelOf(OpsOf(items)[..done]))
    ensures LabelInBytes(image.PartitionBytes(), volumeName) && HasMarks(image.fat0[..])
    ensures image.Announced()
    ensures done < |items| ==> image.FreeRecord() == Some(Record(0xFFFF_FFFF, 0xFFFF_FFFF))
    ensures done == |items| ==> RecordIsExact(image.fat0[..], image.clusterCount, image.FreeRecord().value)
  {
    hide Usable, Step, Proper, ModelStep, ModelOf, IsLabel, Formatted, Lookup, Reached, Run, AllAllowed, TailFits,
      RoomAt, StartOf, ReadBoot, ReadRecord, RecordIsExact, Shaped, SlotSized, CountFree, AllSucceed, PlanOf,
      ReadVolume, PartitionOf, SectorAt, FormatOf, FitsAddresses, FoundInBytes, LabelSlot, VolumeLabel,
      Start, HasMarks, LabelFound, LabelInBytes, Succeeds, PlanFits;
    ghost var ops := OpsOf(items);
    image := new Fat(lbaCount, volumeName, stamp);
    ghost var f, labelSlot := FormatOf(lbaCount), LabelSlot(VolumeLabel(volumeName), stamp);
    LabelSlotIsLabel(VolumeLabel(volumeName), stamp);
    StartIs(lbaCount, volumeName, stamp);
    var ok;
    done, ok := CarryOut(image, items, f, labelSlot);
    ProperRequestsAreAllowed(f, labelSlot, ops);
    PlanDecides(f, labelSlot, ops);
    ReachedIsRead(f, labelSlot, if ok then ops[..done] else ops[..done + 1], image.State(), ModelOf(ops[..done]));
    UsableVolume(image.State());
    if ok {
      image.CloseFilesystem();
      ClosedRecord(image);
    }
    ContentsInBytes(image, ModelOf(ops[..done]));
    LabelIsInBytes(image, volumeName, stamp);
  }

  /** A closed image has the counters of its volume in its record. */
  lemma ClosedRecord(image: Fat)
    requires image.ValidVolume() && image.Announced()
    requires var v := image.Contents();
      && image.FreeRecord() == Some(Record(v.free, v.next))
      && |v.data| >= 2 && RecordIsExact(v.fat0, |v.data| - 2, Record(v.free, v.next))
    ensures RecordIsExact(image.fat0[..], image.clusterCount, image.FreeRecord().value)
  {
    hide RecordIsExact, ReadBoot, ReadRecord, SectorAt;
  }

  lemma PlanDecides(f: Format, labelSlot: Slot, ops: seq<Op>)
    requires ValidFormat(f) && AllAllowed(Start(f, labelSlot), ops)
    ensures Succeeds(Start(f, labelSlot), ops) <==> PlanFits(f.clusterSize, f.clusters, ops)
  {
    hide AllAllowed, AllSucceed, PlanOf, Start;
    AllFit(f, labelSlot, ops);
  }

  /** The label found on the volume is found in the partition's bytes. */
  lemma LabelIsInBytes(image: Fat, volumeName: seq<byte>, stamp: Stamp)
    requires image.ValidVolume() && image.Announced()
    requires LabelFound(image.Contents(), LabelSlot(VolumeLabel(volumeName), stamp))
    ensures LabelInBytes(image.PartitionBytes(), volumeName)
  {
    hide ReadVolume, ReadBoot, ReadRecord, SectorAt, PartitionOf, LabelOf, LabelSlot;
    image.BytesReadBack();
    LabelText(volumeName, stamp);
    var slot := LabelSlot(VolumeLabel(volumeName), stamp);
    assert slot[0] == slot[..11][0];
  }

  ghost predicate LabelFound(v: Volume, labelSlot: Slot) {
    var slots := ReadDirectory(v, 2);
    slots.Some? && (LabelOf(slots.value) == Some(labelSlot[..11]) <==> labelSlot[0] != 0xE5)
  }

  /** What is found on the volume is found in the partition's bytes. */
  lemma ContentsInBytes(image: Fat, model: Model)
    requires image.ValidVolume() && image.Announced()
    requires forall path :: Lookup(image.Contents(), path) == NodeAt(model, path)
    ensures FoundInBytes(image.PartitionBytes(), image.fat0[..], model)
  {
    hide ReadVolume, ReadBoot, ReadRecord, Lookup, SectorAt, PartitionOf;
    image.BytesReadBack();
    var v, r := image.Contents(), image.FreeRecord().value;
    forall path
      ensures Lookup(v.(next := r.nextFree, free := r.freeCount), path) == NodeAt(model, path)
    {
      LookupIgnoresCounters(v, r.nextFree, r.freeCount, path);
    }
  }

  /** Carry out the items in order, up to the first for which there is no room. */
  method CarryOut(image: Fat, items: seq<Item>, ghost f: Format, ghost labelSlot: Slot) returns (done: nat, ok: bool)
    requires image.Valid() && ValidFormat(f) && IsLabel(labelSlot)
    requires image.State() == Formatted(f, labelSlot)
    requires HavePaths(items) && Proper(OpsOf(items))
    modifies image, image.fat0, image.fat1, image.data
    ensures image.Valid() && done <= |items| && (ok <==> done == |items|)
    ensures var ops, start := OpsOf(items), Start(f, labelSlot);
      && (forall i: nat :: i < done ==> RoomAt(start, ops, i))
      && (!ok ==> !RoomAt(start, ops, done))
      && (ok <==> Succeeds(start, ops))
      && Reached(start, if ok then ops[..done] else ops[..done + 1], image.State(), ModelOf(ops[..done]))
  {
    hide Usable, Step, Proper, ModelStep, ModelOf, IsLabel, Formatted, Reached, Succeeds, TailFits, RoomAt;
    ghost var ops, start := OpsOf(items), Start(f, labelSlot);
    done, ok := 0, true;
    assert ops[..0] == [];
    NothingReached(start);
    while ok && done < |items|
      invariant done <= |items| && image.Valid()
      invariant ok ==> Reached(start, ops[..done], image.State(), ModelOf(ops[..done]))
      invariant !ok ==> done < |items| && !RoomAt(start, ops, done)
      invariant if ok then Succeeds(start, ops[..done]) else !Succeeds(start, ops[..done + 1])
      invariant !ok ==> Reached(start, ops[..done + 1], image.State(), ModelOf(ops[..done]))
      invariant forall i: nat :: i < done ==> RoomAt(start, ops, i)
      decreases ok, |items| - done
    {
      ReachedNext(f, labelSlot, ops, done, image.State());
      assert OpOf(items[done]) == ops[done];
      ok := Perform(image, items[done]);
      if ok {
        done := done + 1;
      }
    }
    PrefixSucceeds(f, labelSlot, ops, if ok then done else done + 1);
    assert done == |items| ==> ops[..done] == ops;
  }

  lemma PrefixSucceeds(f: Format, labelSlot: Slot, ops: seq<Op>, n: nat)
    requires ValidFormat(f) && Proper(ops) && n <= |ops|
    ensures Succeeds(Start(f, labelSlot), ops) ==> Succeeds(Start(f, labelSlot), ops[..n])
  {
    hide Proper, Start, AllAllowed, AllSucceed;
    ProperRequestsAreAllowed(f, labelSlot, ops);
    assert ops[..n] + ops[n..] == ops;
    BeginningSucceeds(Start(f, labelSlot), ops[..n], ops[n..]);
  }

  lemma UsableVolume(fs: Fs)
    requires Usable(fs)
    ensures Shaped(fs.volume) && SlotSized(fs.volume)
  {
  }

  lemma StartIs(lbaCount: nat, volumeName: seq<byte>, stamp: Stamp)
    requires 66600 < lbaCount <= DWORD_LIMIT - 8161
    ensures ValidFormat(FormatOf(lbaCount))
    ensures StartOf(lbaCount, volumeName, stamp) == Start(FormatOf(lbaCount), LabelSlot(VolumeLabel(volumeName), stamp))
  {
    FormatIs(lbaCount);
  }

  /** Runs end in usable images. */
  lemma {:induction false} RunUsable(s: State, ops: seq<Op>)
    requires Usable(s.fs) && AllAllowed(s, ops)
    ensures Usable(Run(s, ops).fs) && Run(s, ops).fs.volume.clusterSize > 0
    decreases |ops|
  {
    if ops != [] {
      hide Usable, Step, ModelStep, Readable, TailFits;
      StepUsable(s.fs, ops[0]);
      RunUsable(Next(s, ops[0]), ops[1..]);
    }
  }

  lemma NothingReached(start: State)
    requires Usable(start.fs) && start.model == EMPTY_MODEL
    ensures Reached(start, [], start.fs, ModelOf([])) && Succeeds(start, [])
  {
  }

  /** The next operation may be performed, and its result is reached. */
  lemma ReachedNext(f: Format, labelSlot: Slot, ops: seq<Op>, done: nat, fs: Fs)
    requires ValidFormat(f) && Proper(ops) && done < |ops|
    requires Reached(Start(f, labelSlot), ops[..done], fs, ModelOf(ops[..done]))
    ensures InOrder(ops[done]) && (|ops[done].name| <= MAX_NAME ==> TailFits(fs.counters, ops[done].name)) && Usable(fs)
    ensures var r := Step(fs, ops[done]);
      && Reached(Start(f, labelSlot), ops[..done + 1], r.fs,
           if r.ok then ModelOf(ops[..done + 1]) else ModelOf(ops[..done]))
      && (IsLabel(labelSlot) ==> (r.ok <==> RoomAt(Start(f, labelSlot), ops, done)))
      && (Succeeds(Start(f, labelSlot), ops[..done + 1]) <==> Succeeds(Start(f, labelSlot), ops[..done]) && r.ok)
  {
    hide Usable, Step, Proper, Start, Run, AllAllowed, Readable, TailFits, HasRoom, IsLabel, AllSucceed;
    var start := Start(f, labelSlot);
    ProperPrefix(ops, done + 1);
    ProperRequestsAreAllowed(f, labelSlot, ops[..done + 1]);
    assert ops[..done + 1] == ops[..done] + [ops[done]];
    RunOneMore(start, ops[..done], ops[done]);
    InOrderAt(ops, done);
    if IsLabel(labelSlot) {
      NextSucceeds(f, labelSlot, ops[..done], ops[done]);
    }
    assert Front(ops[..done + 1]) == ops[..done] && Last(ops[..done + 1]) == ops[done];
  }

  /** What is found on an image that a run of operations reached. */
  lemma ReachedIsRead(f: Format, labelSlot: Slot, ops: seq<Op>, fs: Fs, model: Model)
    requires ValidFormat(f) && IsLabel(labelSlot) && Reached(Start(f, labelSlot), ops, fs, model)
    ensures forall path :: Lookup(fs.volume, path) == NodeAt(model, path)
    ensures var v := fs.volume;
      && v.fat0 == v.fat1 && HasMarks(v.fat0) && LabelFound(v, labelSlot)
      && |v.data| >= 2 && RecordIsExact(v.fat0, |v.data| - 2, Record(v.free, v.next))
  {
    hide Usable, Start, Run, AllAllowed, IsLabel, Lookup, LabelOf, ReadDirectory, HasMarks;
    forall path
      ensures Lookup(fs.volume, path) == NodeAt(model, path)
    {
      ReaderFindsWhatWasCreated(f, labelSlot, ops, path);
    }
    FreeRecordAfterRun(f, labelSlot, ops);
    MarksAfterRun(f, labelSlot, ops);
    LabelAfterRun(f, labelSlot, ops);
  }

  lemma InOrderAt(ops: seq<Op>, i: nat)
    requires Proper(ops) && i < |ops|
    ensures InOrder(ops[i])
  {
  }
}
