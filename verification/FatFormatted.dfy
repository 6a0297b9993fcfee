/**
 * What formatting leaves on a volume and no operation touches: the two reserved entries of the FAT,
 * and the volume label in the root directory (FAT32 File System Specification v1.03, "FAT Data
 * Structure" and "FAT Directory Structure").
 */
module FatFormatted {
  import opened Bytes
  import opened Options
  import opened FatClusters
  import opened FatNames
  import opened FatReader
  import opened FatWriter
  import opened FatFilesystem
  import opened FatLog
  import opened FatInvariant
  import opened FatRefinement
  import opened FatRuns
  import opened FatOwnership

  // ---------------------------------------------------------------- the reserved entries

  /** Entry 0 repeats the media byte 0xF8, entry 1 is an end mark with the bits of a clean volume set. */
  ghost predicate HasMarks(fat: seq<nat>) {
    |fat| >= 2 && fat[0] == 0x0FFF_FFF8 && fat[1] == 0x0FFF_FFFF
  }

  lemma AllocateKeepsMarks(v: Volume, previous: Option<nat>, count: nat)
    requires Shaped(v) && HasMarks(v.fat0) && (previous.Some? ==> previous.value >= 2)
    ensures HasMarks(Allocate(v, previous, count).volume.fat0)
  {
  }

  lemma {:induction false} WriteSlotsKeepsMarks(v: Volume, d: RawDirectory, slots: seq<Slot>)
    requires Shaped(v) && SlotSized(v) && IsCluster(v, d.cluster) && HasMarks(v.fat0)
    ensures HasMarks(WriteSlots(v, d, slots).volume.fat0)
    decreases |slots|, if d.entryIndex < MaxEntries(v) then 0 else 1
  {
    hide WriteSlots, Splice;
    if slots == [] {
      WriteSlotsNone(v, d);
    } else if d.entryIndex < MaxEntries(v) {
      WriteSlotsStep(v, d, slots);
      WriteSlotsKeepsMarks(PutSlot(v, d.cluster, d.entryIndex, slots[0]), d.(entryIndex := d.entryIndex + 1),
        slots[1..]);
    } else {
      WriteSlotsNext(v, d, slots);
      AllocateKeepsMarks(v, Some(d.cluster), 1);
      var a := Allocate(v, Some(d.cluster), 1);
      if a.first.Some? {
        WriteSlotsKeepsMarks(a.volume, d.(cluster := a.first.value, entryIndex := 0), slots);
      }
    }
  }

  lemma DeclareKeepsMarks(v: Volume, d: RawDirectory, counters: Counters, name: Name, directory: bool, first: nat,
    size: nat, stamp: Stamp)
    requires Shaped(v) && SlotSized(v) && IsCluster(v, d.cluster) && HasMarks(v.fat0)
    requires |name| <= MAX_NAME ==> TailFits(counters, name)
    ensures HasMarks(Declare(v, d, counters, name, directory, first, size, stamp).written.volume.fat0)
  {
    hide WriteSlots, EntrySlots;
    if |name| <= MAX_NAME {
      WriteSlotsKeepsMarks(v, d, EntrySlots(name, TailCounter(counters, name), directory, first, size, stamp));
    }
  }

  lemma StepKeepsMarks(fs: Fs, op: Op)
    requires Usable(fs) && (|op.name| <= MAX_NAME ==> TailFits(fs.counters, op.name)) && HasMarks(fs.volume.fat0)
    ensures HasMarks(Step(fs, op).fs.volume.fat0)
  {
    hide Declare, EntrySlots, TailFits, HasMarks, StoreRun, Splice;
    var d, v := Find(fs.root, op.parent), fs.volume;
    if d.Some? {
      match op
      case MakeDirectory(_, name, stamp) =>
        if v.free > 0 {
          AllocateKeepsMarks(v, None, 1);
          DeclareKeepsMarks(NewDirectory(v, d.value, stamp), d.value, fs.counters, name, true, v.next, 0, stamp);
        }
      case MakeFile(_, name, content, stamp) =>
        var stored := StoreFile(v, content);
        StoreFileShaped(v, content);
        AllocateKeepsMarks(v, None, ClusterCount(|content|, v.clusterSize));
        if stored.first.Some? {
          DeclareKeepsMarks(stored.volume, d.value, fs.counters, name, false, stored.first.value, |content|, stamp);
        }
    }
  }

  lemma {:induction false} RunKeepsMarks(s: State, ops: seq<Op>)
    requires Usable(s.fs) && AllAllowed(s, ops) && HasMarks(s.fs.volume.fat0)
    ensures HasMarks(Run(s, ops).fs.volume.fat0)
    decreases |ops|
  {
    hide Usable, Step, ModelStep, Readable, TailFits, HasMarks;
    if ops != [] {
      StepUsable(s.fs, ops[0]);
      StepKeepsMarks(s.fs, ops[0]);
      RunKeepsMarks(Next(s, ops[0]), ops[1..]);
    }
  }

  /** After any run the reserved entries are as formatting wrote them. */
  lemma MarksAfterRun(f: Format, labelSlot: Slot, ops: seq<Op>)
    requires ValidFormat(f) && AllAllowed(Start(f, labelSlot), ops)
    ensures HasMarks(Run(Start(f, labelSlot), ops).fs.volume.fat0)
  {
    hide FormattedData, Run, AllAllowed, Usable;
    RunKeepsMarks(Start(f, labelSlot), ops);
  }

  // ---------------------------------------------------------------- the label

  /** The label of a volume: the first entry of the root directory that is neither free, nor long, nor a file. */
  function LabelOf(slots: seq<Slot>): Option<seq<byte>> {
    if slots == [] || slots[0][0] == 0 then None
    else if slots[0][0] != 0xE5 && slots[0][11] % 64 != 0x0F && slots[0][11] / 8 % 4 == 1 then Some(slots[0][..11])
    else LabelOf(slots[1..])
  }

  /** The label's entry holds its eleven bytes and time stamp; it is a label only, without clusters or size. */
  lemma LabelSlotReads(volumeName: seq<byte>, stamp: Stamp)
    requires |volumeName| == 11 && stamp.time < 0x1_0000 && stamp.date < 0x1_0000
    ensures var s := LabelSlot(volumeName, stamp);
      && s[..11] == volumeName && s[11] == 0x08 && FirstCluster(s) == 0 && FileSize(s) == 0
      && TimesOf(s) == Times(0, stamp, stamp.date, stamp)
  {
    ShortSlotFields(volumeName, 0x08, stamp, 0, 0);
    TimesReadBack(volumeName, 0x08, stamp, 0, 0);
  }

  lemma StepKeepsFirstSlots(fs: Fs, log: Log, op: Op)
    requires Usable(fs) && (|op.name| <= MAX_NAME ==> TailFits(fs.counters, op.name)) && ROOT in log
    ensures ROOT in LogStep(fs, log, op) && log[ROOT].first == LogStep(fs, log, op)[ROOT].first
    ensures log[ROOT].slots <= LogStep(fs, log, op)[ROOT].slots
  {
    hide EntryOf, Taken, Storable, Usable, TailFits, DotSlots;
    assert op.parent + [op.name] != ROOT;
  }

  lemma {:induction false} RunKeepsFirstSlots(s: State, log: Log, ops: seq<Op>)
    requires Usable(s.fs) && AllAllowed(s, ops) && ROOT in log
    ensures ROOT in LogAfter(s, log, ops) && log[ROOT].first == LogAfter(s, log, ops)[ROOT].first
    ensures log[ROOT].slots <= LogAfter(s, log, ops)[ROOT].slots
    decreases |ops|
  {
    hide Usable, Step, ModelStep, Readable, TailFits, LogStep;
    if ops != [] {
      StepUsable(s.fs, ops[0]);
      StepKeepsFirstSlots(s.fs, log, ops[0]);
      RunKeepsFirstSlots(Next(s, ops[0]), LogStep(s.fs, log, ops[0]), ops[1..]);
    }
  }

  /**
   * After any run a reader of the root directory, which begins at cluster 2, finds the label,
   * unless its first byte is 0xE5: the original stores that byte as it is, and it marks a free entry.
   */
  lemma LabelAfterRun(f: Format, labelSlot: Slot, ops: seq<Op>)
    requires ValidFormat(f) && IsLabel(labelSlot) && AllAllowed(Start(f, labelSlot), ops)
    ensures var slots := ReadDirectory(Run(Start(f, labelSlot), ops).fs.volume, 2);
      slots.Some? && (LabelOf(slots.value) == Some(labelSlot[..11]) <==> labelSlot[0] != 0xE5)
  {
    hide Run, AllAllowed, Start, LogAfter, ReadDirectory, Locate, LogStep, LabelOf, IsLabel;
    var s, log := Start(f, labelSlot), StartLog(labelSlot);
    var v := Run(s, ops).fs.volume;
    DirectoryHoldsLog(f, labelSlot, ops, ROOT);
    RunKeepsFirstSlots(s, log, ops);
    var first := LogAfter(s, log, ops)[ROOT];
    assert ReadsAs(v, Locate(v, ROOT_ENTRY, ROOT), first);
    var slots := ReadDirectory(v, 2).value;
    assert slots[0] == first.slots[0] == log[ROOT].slots[0] == labelSlot;
    FirstSlotIsLabel(slots);
  }

  lemma FirstSlotIsLabel(slots: seq<Slot>)
    requires slots != [] && IsLabel(slots[0])
    ensures LabelOf(slots) == Some(slots[0][..11]) <==> slots[0][0] != 0xE5
  {
    if slots[0][0] == 0xE5 {
      LabelIsInUse(slots[1..]);
      assert slots[0][..11][0] == 0xE5;
    }
  }

  lemma {:induction false} LabelIsInUse(slots: seq<Slot>)
    ensures LabelOf(slots).Some? ==> |LabelOf(slots).value| == 11 && LabelOf(slots).value[0] != 0xE5
  {
    if slots != [] {
      LabelIsInUse(slots[1..]);
    }
  }
}
