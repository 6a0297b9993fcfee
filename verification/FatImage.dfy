/**
 * The image creator's file system object: FATs, data area and counters that its methods update
 * in place. Every method is proved against the operations on values of the modules before.
 */
module FatImage {
  import opened Bytes
  import opened Options
  import opened FatGeometry
  import opened FatClusters
  import opened FatNames
  import opened FatReader
  import opened FatWriter
  import opened FatFilesystem
  import opened Buffers
  import opened FatMemory
  import opened FatEntries
  import opened FatPaths
  import opened FatRuns
  import opened FatBoot
  import opened FatBytes

  class Fat {
    const lbaCount: nat
    const clusterSize: nat
    const clusterCount: nat
    const reserved: array<byte>
    const fat0: array<dword>
    const fat1: array<dword>
    const data: array<byte>
    var nextFreeCluster: nat
    var freeClusterCount: nat
    var rootDirectory: FatDirectory
    var nameMap: Counters

    /** The parts of the partition: none lies over another one, and together they do not exceed it. */
    ghost predicate Mapped() {
      && fat0 != fat1 && reserved != data
      && reserved.Length == RESERVED_SECTORS * SECTOR_SIZE
      && PartsLength() <= lbaCount * SECTOR_SIZE
      && Addressable(data.Length, clusterSize, clusterCount)
    }

    /** The bytes of all parts. */
    function PartsLength(): nat {
      reserved.Length + 4 * fat0.Length + 4 * fat1.Length + data.Length
    }

    /** The bytes of the partition. */
    function PartitionBytes(): (p: seq<byte>)
      reads reserved, fat0, fat1, data
      requires Mapped()
      ensures |p| == lbaCount * SECTOR_SIZE
    {
      PartitionOf(reserved[..], fat0[..], fat1[..], data[..], lbaCount * SECTOR_SIZE - PartsLength())
    }

    /** The free-cluster record, as the boot sector announces its place. */
    ghost function FreeRecord(): Option<Record>
      reads reserved
      requires Mapped()
    {
      ReadRecord(SectorAt(reserved[..], 1))
    }

    /** The boot sector announces the sizes in use, and there is a free-cluster record. */
    ghost predicate Announced()
      reads reserved
    {
      && Mapped() && fat0.Length % 128 == 0
      && ReadBoot(SectorAt(reserved[..], 0)) == Some(ShapeOf(Format(clusterSize, clusterCount, fat0.Length)))
      && FreeRecord().Some?
    }

    /** The volume the arrays and counters stand for. */
    ghost function Contents(): Volume
      reads this, fat0, fat1, data
      requires Mapped()
    {
      Volume(clusterSize, fat0[..], fat1[..], Clusters(data[..], clusterSize, clusterCount), nextFreeCluster,
        freeClusterCount)
    }

    ghost predicate ValidVolume()
      reads this, fat0, fat1, data
    {
      Mapped() && Shaped(Contents()) && SlotSized(Contents())
    }

    ghost function State(): Fs
      reads this, fat0, fat1, data
      requires Mapped()
    {
      Fs(Contents(), rootDirectory, nameMap)
    }

    ghost predicate Valid()
      reads this, fat0, fat1, data
    {
      Mapped() && Usable(State())
    }

    /**
     * Format a partition of zero bytes and open it. The partition must be one the cluster-size
     * table accepts, its size formula must not overflow, and its data area must be addressable.
     */
    constructor (lbaCount: nat, volumeName: seq<byte>, stamp: Stamp)
      requires Formattable(lbaCount)
      ensures Valid() && fresh(reserved) && fresh(fat0) && fresh(fat1) && fresh(data)
      ensures this.lbaCount == lbaCount && reserved[..] == ReservedOf(lbaCount)
      ensures Announced() && FreeRecord() == Some(Record(0xFFFF_FFFF, 0xFFFF_FFFF))
      ensures ValidFormat(FormatOf(lbaCount)) && FormatOf(lbaCount) == Format(clusterSize, clusterCount, fat0.Length)
      ensures State() == Formatted(FormatOf(lbaCount), LabelSlot(VolumeLabel(volumeName), stamp))
    {
      hide GeometryOf, FormatOf, FatSizeInSectors, SectorsPerCluster, FitsAddresses, FormattedData, Clusters,
        IsClusterSize, Usable, LabelSlot, VolumeLabel, FormattedFat, Shaped, ReadBoot, ReadRecord, ReservedArea,
        SectorAt;
      var spc := FindSectorsPerCluster(lbaCount);
      FormatIs(lbaCount);
      var fatSize := FatSizeInSectors(lbaCount, spc);
      var size, clusters, fatEntries :=
        spc * SECTOR_SIZE, DataSectors(lbaCount, fatSize) / spc, fatSize * SECTOR_SIZE / 4;
      this.lbaCount, clusterSize, clusterCount := lbaCount, size, clusters;
      var labelSlot := LabelSlot(VolumeLabel(volumeName), stamp);
      BootIsRead(lbaCount);
      var sectors := FormatReserved(ReservedArea(lbaCount, spc, fatSize));
      var table0 := FormatTable(fatEntries);
      var table1 := FormatTable(fatEntries);
      var memory := FormatDataArea(FormatOf(lbaCount), clusters * size, labelSlot);
      PartsFit(lbaCount);
      reserved, fat0, fat1, data := sectors, table0, table1, memory;
      nextFreeCluster := 3;
      freeClusterCount := clusters - 1;
      rootDirectory := FatDirectory(RawDirectory(None, 2, 1), map[]);
      nameMap := map[];
      FormattedIsUsable(FormatOf(lbaCount), labelSlot);
      new;
      assert State() == Formatted(FormatOf(lbaCount), labelSlot);
    }

    // -------------------------------------------------------------- clusters

    /** Take clusters and link them, behind `previousCluster` if there is one. */
    method AllocateClusters(previousCluster: Option<nat>, clusterCount: nat) returns (first: Option<nat>)
      requires ValidVolume() && (previousCluster.Some? ==> previousCluster.value < fat0.Length)
      modifies this`nextFreeCluster, this`freeClusterCount, fat0, fat1
      ensures ValidVolume()
      ensures var a := Allocate(old(Contents()), previousCluster, clusterCount);
        Contents() == a.volume && first == a.first
    {
      ghost var before := Contents();
      AllocateShaped(before, previousCluster, clusterCount);
      if clusterCount > freeClusterCount {
        return None;
      }
      freeClusterCount := freeClusterCount - clusterCount;
      var start := nextFreeCluster;
      nextFreeCluster := LinkClusters(fat0, fat1, previousCluster, start, clusterCount);
      first := Some(start);
      assert Contents() == Allocate(before, previousCluster, clusterCount).volume;
    }

    /** Copy bytes to a place in a cluster. */
    method CopyToCluster(cluster: nat, at: nat, bytes: seq<byte>)
      requires ValidVolume() && 2 <= cluster < clusterCount + 2 && at + |bytes| <= clusterSize
      modifies data
      ensures ValidVolume()
      ensures Contents()
        == old(Contents()).(data := old(Contents()).data[cluster := Splice(old(Contents()).data[cluster], at, bytes)])
    {
      SpliceCluster(data[..], clusterSize, clusterCount, cluster, at, bytes);
      var pointer := (cluster - 2) * clusterSize % DWORD_LIMIT;
      CopyBytes(data, pointer + at, bytes);
    }

    // -------------------------------------------------------------- files

    /**
     * Store a file, following its chain. `asserted` says whether the assertion after the last
     * cluster holds: it does unless the file is empty.
     */
    method WriteFile(content: seq<byte>) returns (first: Option<nat>, size: nat, asserted: bool)
      requires ValidVolume()
      modifies this`nextFreeCluster, this`freeClusterCount, fat0, fat1, data
      ensures ValidVolume()
      ensures var s := StoreFile(old(Contents()), content);
        Contents() == s.volume && first == s.first && (first.Some? ==> size == |content|)
      ensures asserted <==> content != []
    {
      hide StoreRun, ClusterCount, Clusters, Allocate, Shaped;
      if |content| >= 0xFFFF_FFFF {
        return None, 0, true;
      }
      var count := |content| / clusterSize + (if |content| % clusterSize != 0 then 1 else 0);
      CountClusters(|content|, clusterSize);
      AllocationLinks(Contents(), count);
      StoreFileIs(Contents(), content, count);
      first := AllocateClusters(None, count);
      if first == None {
        return None, 0, true;
      }
      ghost var fat := fat0[..];
      assert forall c :: 0 <= c < |fat| ==> fat[c] == fat0[c];
      asserted := FillChain(content, first.value);
      size := |content|;
    }

    /** Lay a file out along the chain that starts at `first`. */
    method FillChain(content: seq<byte>, first: nat) returns (asserted: bool)
      requires ValidVolume() && 2 <= first
      requires var n := ClusterCount(|content|, clusterSize);
        && first + n <= clusterCount + 2 && first + n <= fat0.Length
        && (forall c :: first <= c < first + n - 1 ==> fat0[c] == c + 1)
        && (n > 0 ==> fat0[first + n - 1] == EOC)
      modifies data
      ensures ValidVolume()
      ensures Contents() == old(Contents()).(data := StoreRun(old(Contents()).data, first, content, clusterSize))
      ensures asserted <==> content != []
    {
      hide Laid, ClusterCount, StoreRun, Clusters, Splice;
      var bytesToWrite: nat := |content|;
      var currentCluster: nat := first;
      ghost var before, n, k: nat := Contents(), ClusterCount(|content|, clusterSize), 0;
      NothingLaid(before.data, first, content, clusterSize);
      while bytesToWrite >= clusterSize
        invariant ValidVolume() && Contents() == before.(data := Contents().data)
        invariant Laid(before.data, Contents().data, first, k, content, bytesToWrite, clusterSize)
        invariant k <= n && (bytesToWrite == 0 <==> k == n)
        invariant currentCluster == if k == n > 0 then EOC else first + k
      {
        ghost var now := Contents().data;
        LaidStep(before.data, now, first, k, content, bytesToWrite, clusterSize);
        var written := |content| - bytesToWrite;
        CopyToCluster(currentCluster, 0, content[written..written + clusterSize]);
        bytesToWrite := bytesToWrite - clusterSize;
        currentCluster := fat0[currentCluster];
        k := k + 1;
      }
      LaidLast(before.data, Contents().data, first, k, content, bytesToWrite, clusterSize);
      if bytesToWrite > 0 {
        asserted := fat0[currentCluster] == EOC;
        CopyToCluster(currentCluster, 0, content[|content| - bytesToWrite..]);
      } else {
        asserted := currentCluster == EOC;
      }
    }

    // -------------------------------------------------------------- directories

    /** Copy entries to the directory's cluster until it is full or none is left. */
    method CopyEntries(directory: RawDirectory, entryBuffer: array<byte>, from: nat)
      returns (directory': RawDirectory, index: nat)
      requires ValidVolume() && 2 <= directory.cluster < clusterCount + 2
      requires entryBuffer != data && entryBuffer.Length % 32 == 0 && from <= entryBuffer.Length / 32
      modifies data
      ensures ValidVolume() && Contents() == old(Contents()).(data := Contents().data)
      ensures directory'.cluster == directory.cluster
      ensures from <= index <= entryBuffer.Length / 32
      ensures directory.entryIndex < clusterSize / 32 && from < entryBuffer.Length / 32 ==> index > from
      ensures index == entryBuffer.Length / 32 || directory'.entryIndex >= clusterSize / 32
      ensures var slots := SlotsOf(entryBuffer[..]);
        WriteSlots(Contents(), directory', slots[index..]) == WriteSlots(old(Contents()), directory, slots[from..])
    {
      hide WriteSlots, Clusters, Shaped;
      var maxDirEntries, count := clusterSize / 32, entryBuffer.Length / 32;
      directory', index := directory, from;
      ghost var before, slots := Contents(), SlotsOf(entryBuffer[..]);
      while directory'.entryIndex < maxDirEntries && index < count
        invariant ValidVolume() && Contents() == before.(data := Contents().data)
        invariant directory'.cluster == directory.cluster && from <= index <= count
        invariant index == from ==> directory' == directory
        invariant WriteSlots(Contents(), directory', slots[index..]) == WriteSlots(before, directory, slots[from..])
        decreases count - index
      {
        WriteSlotsStep(Contents(), directory', slots[index..]);
        assert slots[index..][0] == slots[index] == entryBuffer[32 * index..32 * index + 32];
        assert slots[index..][1..] == slots[index + 1..];
        CopyToCluster(directory.cluster, 32 * directory'.entryIndex, entryBuffer[32 * index..32 * index + 32]);
        directory', index := directory'.(entryIndex := directory'.entryIndex + 1), index + 1;
      }
    }

    /** Append the entries of a buffer to a directory, in new clusters when the last one is full. */
    method WriteDirectoryEntries(directory: RawDirectory, entryBuffer: array<byte>)
      returns (directory': RawDirectory, ok: bool)
      requires ValidVolume() && 2 <= directory.cluster < clusterCount + 2
      requires entryBuffer != data && entryBuffer.Length % 32 == 0
      modifies this`nextFreeCluster, this`freeClusterCount, fat0, fat1, data
      ensures ValidVolume()
      ensures var w := WriteSlots(old(Contents()), directory, SlotsOf(entryBuffer[..]));
        Contents() == w.volume && directory' == w.directory && ok == w.ok
    {
      hide WriteSlots, Allocate, Clusters;
      var index;
      var count := entryBuffer.Length / 32;
      ghost var before, slots := Contents(), SlotsOf(entryBuffer[..]);
      assert slots[0..] == slots;
      directory', index := CopyEntries(directory, entryBuffer, 0);
      while index < count
        invariant ValidVolume() && 2 <= directory'.cluster < clusterCount + 2 && index <= count
        invariant index == count || directory'.entryIndex >= clusterSize / 32
        invariant WriteSlots(Contents(), directory', slots[index..]) == WriteSlots(before, directory, slots)
        decreases count - index
      {
        WriteSlotsNext(Contents(), directory', slots[index..]);
        var newCluster := AllocateClusters(Some(directory'.cluster), 1);
        if newCluster == None {
          return directory', false;
        }
        directory' := directory'.(cluster := newCluster.value, entryIndex := 0);
        directory', index := CopyEntries(directory', entryBuffer, index);
      }
      assert slots[index..] == [];
      WriteSlotsNone(Contents(), directory');
      ok := true;
    }

    // -------------------------------------------------------------- directory entries

    /** The 8.3 name of a file, with a fresh tail if the name is long. */
    method GetShortName(name: Name) returns (isLong: bool, shortName: seq<byte>)
      requires TailFits(nameMap, name)
      modifies this`nameMap
      ensures isLong == IsLong(name)
      ensures shortName == ShortName(name, TailCounter(old(nameMap), name))
      ensures nameMap == NextCounters(old(nameMap), name)
    {
      hide Stem, Extension, IsLong, Lower, ShortName, StemField, Padded, Digits, CounterKey, Splice;
      var stem, extension;
      isLong, stem, extension := CutName(name);
      var temp := new byte[11](_ => SPACE);
      assert temp[..] == Spaces(11);
      CopyBytes(temp, 0, stem);
      ghost var base := Padded(stem, 8);
      PaddedStem(temp[..], stem);
      ghost var counter := 1;
      if stem != [] && isLong {
        temp[6] := TILDE;
        temp[7] := DIGIT_ZERO + 1;
        assert temp[..] == base[..6] + [TILDE, DIGIT_ZERO + 1] + Spaces(3);
        var key := Lower(temp[..]);
        CounterKeyIs(name);
        var index := 1;
        if key in nameMap {
          index := nameMap[key];
        }
        counter := index;
        nameMap := nameMap[key := index + 1];
        ghost var marked := temp[..];
        PutTail(temp, index);
        TailOverStem(base, marked, index, temp[..]);
      }
      StemFieldIs(name, counter);
      assert temp[..8] == StemField(name, counter) && temp[8..] == Spaces(3);
      ghost var before := temp[..];
      CopyBytes(temp, 8, extension);
      ExtensionAfterStem(before, StemField(name, counter), extension);
      ShortNameIs(name, counter);
      shortName := temp[..];
    }

    /** The entries of one file or directory; a name of more than 255 bytes has none. */
    method GetDirectoryEntry(name: Name, directory: bool, first: nat, size: nat, stamp: Stamp)
      returns (entryBuffer: Option<array<byte>>)
      requires |name| <= MAX_NAME ==> TailFits(nameMap, name)
      modifies this`nameMap
      ensures entryBuffer.None? <==> |name| > 255
      ensures entryBuffer.None? ==> nameMap == old(nameMap)
      ensures entryBuffer.Some? ==>
        && fresh(entryBuffer.value) && entryBuffer.value.Length % 32 == 0
        && nameMap == NextCounters(old(nameMap), name)
        && SlotsOf(entryBuffer.value[..])
          == EntrySlots(name, TailCounter(old(nameMap), name), directory, first, size, stamp)
    {
      if |name| > MAX_NAME {
        return None;
      }
      ghost var counter := TailCounter(nameMap, name);
      var isLong, shortName := GetShortName(name);
      var buff := BuildEntry(name, isLong, shortName, counter, directory, first, size, stamp);
      ghost var slots := EntrySlots(name, counter, directory, first, size, stamp);
      forall i | 0 <= i < |slots|
        ensures SlotsOf(buff[..])[i] == slots[i]
      {
        assert SlotIn(buff[..], i) == slots[i];
      }
      assert SlotsOf(buff[..]) == slots;
      entryBuffer := Some(buff);
    }

    /** The first cluster a directory's own entry names, read from memory; 0 for the root. */
    method SelfCluster(directory: RawDirectory) returns (first: nat)
      requires ValidVolume() && RefOk(Contents(), directory.self)
      ensures first == ParentCluster(Contents(), directory)
    {
      hide Clusters, ClusterOffset, FromLe, SlotAt, Shaped;
      if directory.self == None {
        return 0;
      }
      var cluster, index := directory.self.value.cluster, directory.self.value.index;
      SlotLies(Contents(), data[..], clusterCount, cluster, index);
      var entry := (cluster - 2) * clusterSize % DWORD_LIMIT + 32 * index;
      ghost var slot := SlotAt(Contents(), cluster, index);
      first := data[entry + 26] as int + 256 * data[entry + 27] as int
        + 0x1_0000 * (data[entry + 20] as int + 256 * data[entry + 21] as int);
      TwoBytes(slot, 26);
      TwoBytes(slot, 20);
    }

    /** Create a directory below `parent`: its cluster with `.` and `..`, and its entry. */
    method CreateRawDirectory(parent: RawDirectory, directoryName: Name, stamp: Stamp)
      returns (parent': RawDirectory, created: Option<RawDirectory>)
      requires ValidVolume() && 2 <= parent.cluster < clusterCount + 2 && RefOk(Contents(), parent.self)
      requires |directoryName| <= MAX_NAME ==> TailFits(nameMap, directoryName)
      modifies this`nextFreeCluster, this`freeClusterCount, this`nameMap, fat0, fat1, data
      ensures ValidVolume()
      ensures var v := old(Contents());
        if v.free == 0 then Contents() == v && nameMap == old(nameMap) && parent' == parent && created == None
        else
          var declared :=
            Declare(NewDirectory(v, parent, stamp), parent, old(nameMap), directoryName, true, v.next, 0, stamp);
          var w := declared.written;
          && Contents() == w.volume && nameMap == declared.counters && parent' == w.directory
          && (w.ok ==> w.directory.entryIndex > 0)
          && created == (
            if w.ok then Some(RawDirectory(Some(SlotRef(w.directory.cluster, w.directory.entryIndex - 1)), v.next, 2))
            else None)
    {
      hide WriteSlots, EntrySlots, Clusters, ShortSlot;
      ghost var v := Contents();
      var above := SelfCluster(parent);
      NewDirectoryIs(v, parent, stamp);
      var newCluster := AllocateClusters(None, 1);
      if newCluster == None {
        return parent, None;
      }
      CopyToCluster(newCluster.value, 0, ShortSlot(DOT_NAME, ATTR_DIRECTORY, stamp, newCluster.value, 0));
      CopyToCluster(newCluster.value, 32, ShortSlot(DOT_DOT_NAME, ATTR_DIRECTORY, stamp, above, 0));
      assert Contents() == NewDirectory(v, parent, stamp);
      var entryBuffer := GetDirectoryEntry(directoryName, true, newCluster.value, 0, stamp);
      if entryBuffer == None {
        return parent, None;
      }
      var ok;
      parent', ok := WriteDirectoryEntries(parent, entryBuffer.value);
      if !ok {
        return parent', None;
      }
      created := Some(RawDirectory(Some(SlotRef(parent'.cluster, parent'.entryIndex - 1)), newCluster.value, 2));
    }

    /** Create a file below `directory`. `asserted` is false for an empty file, as in `WriteFile`. */
    method CreateRawFile(directory: RawDirectory, filename: Name, content: seq<byte>, stamp: Stamp)
      returns (directory': RawDirectory, ok: bool, asserted: bool)
      requires ValidVolume() && 2 <= directory.cluster < clusterCount + 2
      requires |filename| <= MAX_NAME ==> TailFits(nameMap, filename)
      modifies this`nextFreeCluster, this`freeClusterCount, this`nameMap, fat0, fat1, data
      ensures ValidVolume() && (asserted <==> content != [])
      ensures var s := StoreFile(old(Contents()), content);
        if s.first.None? then Contents() == s.volume && nameMap == old(nameMap) && directory' == directory && !ok
        else
          && Shaped(s.volume) && s.volume.clusterSize == clusterSize && |s.volume.data| == clusterCount + 2
          && var declared :=
            Declare(s.volume, directory, old(nameMap), filename, false, s.first.value, |content|, stamp);
          && Contents() == declared.written.volume && nameMap == declared.counters
          && directory' == declared.written.directory && ok == declared.written.ok
    {
      hide WriteSlots, EntrySlots, Clusters, StoreFile;
      var first, size;
      first, size, asserted := WriteFile(content);
      if first == None {
        return directory, false, asserted;
      }
      var entryBuffer := GetDirectoryEntry(filename, false, first.value, size, stamp);
      if entryBuffer == None {
        return directory, false, asserted;
      }
      directory', ok := WriteDirectoryEntries(directory, entryBuffer.value);
    }

    // -------------------------------------------------------------- paths

    /** The directory a text names, found component by component. */
    method FindDirectory(path: Text) returns (directory: Option<RawDirectory>)
      ensures directory == Find(rootDirectory, DirectoryPath(path))
    {
      hide Split, SlashIndex;
      if path == [] {
        return Some(rootDirectory.raw);
      }
      var cwd, rest, eof := rootDirectory, path, false;
      while !eof
        invariant Find(rootDirectory, DirectoryPath(path)) == Find(cwd, if eof then [] else Split(rest))
        decreases !eof, |rest|
      {
        var i := SlashIndex(rest);
        var dir := rest[..i];
        ghost var parts := Split(rest);
        SplitStep(rest);
        if i == |rest| {
          eof := true;
        } else {
          rest := rest[i + 1..];
        }
        assert parts[0] == dir && parts[1..] == if eof then [] else Split(rest);
        if dir !in cwd.children {
          return None;
        }
        cwd := cwd.children[dir];
      }
      directory := Some(cwd.raw);
    }

    /** Create a directory; an empty text makes the search for the parent leave the text. */
    method CreateDirectory(path: Text, stamp: Stamp) returns (outcome: Outcome)
      requires Valid() && NameAccepted(path, nameMap)
      modifies this`nextFreeCluster, this`freeClusterCount, this`nameMap, this`rootDirectory, fat0, fat1, data
      ensures Valid()
      ensures path == [] ==> State() == old(State()) && outcome == OutOfRange
      ensures path != [] ==>
        var d := Parse(path).value;
        var r := DirectoryStep(old(State()), d.parent, d.name, stamp);
        State() == r.fs && outcome == Done(r.ok)
    {
      hide Shaped, Clusters, Declare, NewDirectory, AddChild, SetRaw, EntrySlots;
      if path == [] {
        return OutOfRange;
      }
      var parent, name := SplitDestination(path);
      ghost var before := State();
      StepUsable(before, MakeDirectory(DirectoryPath(parent), name, stamp));
      var directory := FindDirectory(parent);
      if directory == None {
        return Done(false);
      }
      var directory', created := CreateRawDirectory(directory.value, name, stamp);
      SetSameRaw(rootDirectory, DirectoryPath(parent));
      rootDirectory := SetRaw(rootDirectory, DirectoryPath(parent), directory');
      if created == None {
        return Done(false);
      }
      rootDirectory := AddChild(rootDirectory, DirectoryPath(parent), name, created.value);
      outcome := Done(true);
    }

    /** Create a file; storing an empty one stops at an assertion. */
    method CreateFile(path: Text, content: seq<byte>, stamp: Stamp) returns (outcome: Outcome)
      requires Valid() && NameAccepted(path, nameMap)
      modifies this`nextFreeCluster, this`freeClusterCount, this`nameMap, this`rootDirectory, fat0, fat1, data
      ensures Valid()
      ensures path == [] ==> State() == old(State()) && outcome == OutOfRange
      ensures path != [] ==>
        var d := Parse(path).value;
        var r := FileStep(old(State()), d.parent, d.name, content, stamp);
        State() == r.fs
        && outcome == if content == [] && Find(old(rootDirectory), d.parent).Some? then AssertionFailed else Done(r.ok)
    {
      hide Shaped, Clusters, Declare, StoreFile, AddChild, SetRaw, EntrySlots;
      if path == [] {
        return OutOfRange;
      }
      var parent, name := SplitDestination(path);
      ghost var before := State();
      StepUsable(before, MakeFile(DirectoryPath(parent), name, content, stamp));
      var directory := FindDirectory(parent);
      if directory == None {
        return Done(false);
      }
      StoreFileShaped(Contents(), content);
      var directory', ok, asserted := CreateRawFile(directory.value, name, content, stamp);
      SetSameRaw(rootDirectory, DirectoryPath(parent));
      rootDirectory := SetRaw(rootDirectory, DirectoryPath(parent), directory');
      outcome := if asserted then Done(ok) else AssertionFailed;
    }

    /** Write the counters to the free-cluster record, and to the same place of the second boot sector. */
    method CloseFilesystem()
      requires ValidVolume() && Announced()
      modifies reserved
      ensures ValidVolume() && Contents() == old(Contents())
      ensures Announced() && FreeRecord() == Some(Record(Contents().free, Contents().next))
      ensures var free, next := Contents().free, Contents().next;
        reserved[..] == WithNumbers(WithNumbers(old(reserved[..]), 1, free, next), BACKUP_SECTOR, free, next)
    {
      hide ReadRecord, ReadBoot, Shaped, Clusters, SectorAt;
      CountersFit(Contents());
      AreaClosed(reserved[..], freeClusterCount, nextFreeCluster);
      CopyBytes(reserved, SECTOR_SIZE + 488, Le(4, freeClusterCount));
      CopyBytes(reserved, SECTOR_SIZE + 492, Le(4, nextFreeCluster));
      CopyBytes(reserved, BACKUP_SECTOR * SECTOR_SIZE + 488, Le(4, freeClusterCount));
      CopyBytes(reserved, BACKUP_SECTOR * SECTOR_SIZE + 492, Le(4, nextFreeCluster));
    }

    /** A reader of the partition's bytes finds the volume with the recorded counters. */
    lemma BytesReadBack()
      requires ValidVolume() && Announced()
      ensures ReadVolume(PartitionBytes())
        == Some(Contents().(next := FreeRecord().value.nextFree, free := FreeRecord().value.freeCount))
    {
      hide ReadRecord, ReadBoot, Clusters, SectorAt, ReadVolume, PartitionOf;
      VolumeReadsBack(Format(clusterSize, clusterCount, fat0.Length), reserved[..], fat0[..], fat1[..], data[..],
        lbaCount * SECTOR_SIZE - PartsLength(), FreeRecord().value);
    }
  }

  // ---------------------------------------------------------------- formatting

  /** The first eleven bytes of the volume name, padded. */
  function VolumeLabel(volumeName: seq<byte>): (text: seq<byte>)
    ensures |text| == 11
  {
    Padded(volumeName[..Min(11, |volumeName|)], 11)
  }

  /** Whether 32-bit cluster offsets reach the whole data area. */
  predicate FitsAddresses(lbaCount: nat)
    requires 66600 < lbaCount < DWORD_LIMIT
  {
    var g := GeometryOf(lbaCount);
    g.clusters * (g.sectorsPerCluster * SECTOR_SIZE) <= DWORD_LIMIT
  }

  /** The lengths of partitions that can be formatted. */
  predicate Formattable(lbaCount: nat) {
    66600 < lbaCount <= DWORD_LIMIT - 8161 && FitsAddresses(lbaCount)
  }

  function FormatOf(lbaCount: nat): Format
    requires 66600 < lbaCount <= DWORD_LIMIT - 8161
  {
    GeometryIsFat32(lbaCount);
    var g := GeometryOf(lbaCount);
    Format(g.sectorsPerCluster * SECTOR_SIZE, g.clusters, 128 * g.fatSize)
  }

  /** The sectors left for clusters. */
  function DataSectors(lbaCount: nat, fatSize: int): int {
    lbaCount - (RESERVED_SECTORS + NUMBER_OF_FATS * fatSize)
  }

  /** The format as the code computes its parts. */
  lemma FormatIs(lbaCount: nat)
    requires 66600 < lbaCount <= DWORD_LIMIT - 8161
    ensures lbaCount % DWORD_LIMIT == lbaCount && IsClusterSize(SectorsPerCluster(lbaCount))
    ensures SectorsPerCluster(lbaCount) > 0
    ensures var f, spc := FormatOf(lbaCount), SectorsPerCluster(lbaCount);
      var fatSize := FatSizeInSectors(lbaCount, spc);
      && ValidFormat(f) && f.clusterSize == spc * SECTOR_SIZE && f.clusters == DataSectors(lbaCount, fatSize) / spc
      && f.fatEntries == fatSize * SECTOR_SIZE / 4
      && f.clusters * f.clusterSize >= 64
      && (FitsAddresses(lbaCount) <==> f.clusters * f.clusterSize <= DWORD_LIMIT)
  {
    hide FatSizeInSectors;
    GeometryIsFat32(lbaCount);
    var f := FormatOf(lbaCount);
    ClusterSizeIsValid(SectorsPerCluster(lbaCount));
    Distribute(1, f.clusters - 1, f.clusterSize);
  }

  lemma ClusterSizeIsValid(spc: nat)
    requires IsClusterSize(spc)
    ensures spc * SECTOR_SIZE % 32 == 0 && spc * SECTOR_SIZE >= 64
  {
  }

  /** The first k clusters of a file are laid out; what is left will complete it. */
  ghost predicate Laid(data0: seq<seq<byte>>, data: seq<seq<byte>>, first: nat, k: nat, content: seq<byte>, left: nat,
    clusterSize: nat) {
    && clusterSize > 0 && left <= |content| && |data| == |data0|
    && k + ClusterCount(left, clusterSize) == ClusterCount(|content|, clusterSize)
    && first + ClusterCount(|content|, clusterSize) <= |data|
    && (forall i :: first <= i < first + ClusterCount(|content|, clusterSize) ==>
      |data0[i]| == |data[i]| == clusterSize)
    && StoreRun(data, first + k, content[|content| - left..], clusterSize)
      == StoreRun(data0, first, content, clusterSize)
  }

  lemma NothingLaid(data: seq<seq<byte>>, first: nat, content: seq<byte>, clusterSize: nat)
    requires clusterSize > 0 && first + ClusterCount(|content|, clusterSize) <= |data|
    requires forall i :: first <= i < first + ClusterCount(|content|, clusterSize) ==> |data[i]| == clusterSize
    ensures Laid(data, data, first, 0, content, |content|, clusterSize)
    ensures |content| == 0 <==> ClusterCount(|content|, clusterSize) == 0
  {
    ClusterCountStep(|content|, clusterSize);
    assert content[0..] == content;
  }

  /** One more full cluster. */
  lemma LaidStep(data0: seq<seq<byte>>, data: seq<seq<byte>>, first: nat, k: nat, content: seq<byte>, left: nat,
    clusterSize: nat)
    requires Laid(data0, data, first, k, content, left, clusterSize) && left >= clusterSize
    ensures first + k < |data| && |data[first + k]| == clusterSize && k < ClusterCount(|content|, clusterSize)
    ensures var written := |content| - left;
      var data' := data[first + k := Splice(data[first + k], 0, content[written..written + clusterSize])];
      Laid(data0, data', first, k + 1, content, left - clusterSize, clusterSize)
    ensures left - clusterSize == 0 <==> k + 1 == ClusterCount(|content|, clusterSize)
  {
    hide StoreRun, ClusterCount, Splice;
    ClusterCountStep(left, clusterSize);
    ClusterCountStep(left - clusterSize, clusterSize);
    StoreRunStep(data, first + k, content[|content| - left..], clusterSize);
    RestOf(content, |content| - left, clusterSize);
  }

  /** The last cluster of a file, if it is not full. */
  lemma LaidLast(data0: seq<seq<byte>>, data: seq<seq<byte>>, first: nat, k: nat, content: seq<byte>, left: nat,
    clusterSize: nat)
    requires Laid(data0, data, first, k, content, left, clusterSize) && left < clusterSize
    ensures left > 0 ==>
      k + 1 == ClusterCount(|content|, clusterSize) && first + k < |data| && |data[first + k]| == clusterSize
    ensures StoreRun(data0, first, content, clusterSize)
      == if left == 0 then data else data[first + k := Splice(data[first + k], 0, content[|content| - left..])]
  {
    hide StoreRun, ClusterCount, Splice;
    ClusterCountStep(left, clusterSize);
    StoreRunLast(data, first + k, content[|content| - left..], clusterSize);
  }

  lemma RestOf(content: seq<byte>, written: nat, size: nat)
    requires written + size <= |content|
    ensures content[written..written + size] == content[written..][..size]
    ensures content[written + size..] == content[written..][size..]
  {
  }

  lemma CountersFit(v: Volume)
    requires Shaped(v)
    ensures v.free < DWORD_LIMIT && v.next < DWORD_LIMIT
  {
  }

  /** The reserved sectors of a partition. */
  ghost function ReservedOf(lbaCount: nat): (area: seq<byte>)
    requires 66600 < lbaCount <= DWORD_LIMIT - 8161
    ensures |area| == RESERVED_SECTORS * SECTOR_SIZE
  {
    BootIsRead(lbaCount);
    var spc := SectorsPerCluster(lbaCount);
    ReservedArea(lbaCount, spc, FatSizeInSectors(lbaCount, spc))
  }

  /** The reserved sectors announce the volume as it was formatted. */
  lemma BootIsRead(lbaCount: nat)
    requires 66600 < lbaCount <= DWORD_LIMIT - 8161
    ensures var spc := SectorsPerCluster(lbaCount);
      && IsClusterSize(spc) && spc <= 64 && 0 < FatSizeInSectors(lbaCount, spc) < DWORD_LIMIT
      && var area := ReservedArea(lbaCount, spc, FatSizeInSectors(lbaCount, spc));
      && ReadBoot(SectorAt(area, 0)) == Some(ShapeOf(FormatOf(lbaCount))) && FormatOf(lbaCount).fatEntries % 128 == 0
      && ReadRecord(SectorAt(area, 1)) == Some(Record(UNKNOWN, UNKNOWN))
  {
    hide FatSizeInSectors, BootSector, RecordSector, ReadRecord, ReservedArea, SectorAt, ReadBoot;
    var spc := SectorsPerCluster(lbaCount);
    FormatIs(lbaCount);
    GeometryIsFat32(lbaCount);
    var fatSize := FatSizeInSectors(lbaCount, spc);
    FatSizeFits(lbaCount, spc, fatSize);
    ReservedSectors(lbaCount, spc, fatSize);
    BootSectorIsRead(lbaCount, spc, fatSize);
    RecordReadsBack(UNKNOWN, UNKNOWN);
  }

  /** A boot sector of a volume with enough clusters says where its parts lie. */
  lemma BootSectorIsRead(lbaCount: nat, spc: nat, fatSize: nat)
    requires lbaCount < DWORD_LIMIT && fatSize < DWORD_LIMIT && IsClusterSize(spc)
    requires DataSectors(lbaCount, fatSize) > 0 && DataSectors(lbaCount, fatSize) / spc >= 65525
    ensures var f := Format(spc * 512, DataSectors(lbaCount, fatSize) / spc, fatSize * 512 / 4);
      ReadBoot(BootSector(lbaCount, spc, fatSize, 1)) == Some(Shape(f, 512, 32, 2, fatSize, 1, 6))
  {
    hide BootSector, Field;
    BootFields(lbaCount, spc, fatSize, 1);
  }

  /** Reserved sectors, FATs and clusters fit in the partition. */
  lemma PartsFit(lbaCount: nat)
    requires 66600 < lbaCount <= DWORD_LIMIT - 8161
    ensures var f := FormatOf(lbaCount);
      RESERVED_SECTORS * SECTOR_SIZE + 8 * f.fatEntries + f.clusters * f.clusterSize <= lbaCount * SECTOR_SIZE
  {
    hide FatSizeInSectors;
    var spc := SectorsPerCluster(lbaCount);
    FormatIs(lbaCount);
    GeometryIsFat32(lbaCount);
    if spc == 1 {} else if spc == 8 {} else if spc == 16 {} else if spc == 32 {} else {}
  }

  lemma FatSizeFits(lbaCount: nat, spc: nat, fatSize: int)
    requires IsClusterSize(spc) && lbaCount < DWORD_LIMIT
    requires var clusters := DataSectors(lbaCount, fatSize) / spc; 1 <= clusters && clusters + 2 <= 128 * fatSize
    ensures 0 < fatSize < DWORD_LIMIT && DataSectors(lbaCount, fatSize) > 0
  {
    if spc == 1 {} else if spc == 8 {} else if spc == 16 {} else if spc == 32 {} else {}
  }

  method FormatReserved(bytes: seq<byte>) returns (sectors: array<byte>)
    ensures fresh(sectors) && sectors[..] == bytes
  {
    sectors := new byte[|bytes|](_ => 0);
    CopyBytes(sectors, 0, bytes);
  }

  /** An empty FAT: two reserved entries and the root directory's end-of-chain mark. */
  method FormatTable(entries: nat) returns (fat: array<dword>)
    requires entries >= 3
    ensures fresh(fat) && fat[..] == FormattedFat(entries)
  {
    fat := new dword[entries](_ => 0);
    fat[0] := FIRST_FAT_ENTRY;
    fat[1] := EOC;
    fat[2] := EOC;
  }

  /** Zero bytes, and the volume label at the start of the root directory. */
  method FormatDataArea(ghost f: Format, length: nat, labelSlot: Slot) returns (memory: array<byte>)
    requires ValidFormat(f) && Addressable(length, f.clusterSize, f.clusters) && length >= 32
    ensures fresh(memory) && memory.Length == length
    ensures Clusters(memory[..], f.clusterSize, f.clusters) == FormattedData(f, labelSlot)
  {
    memory := new byte[length](_ => 0);
    ghost var zeros := memory[..];
    AllZero(zeros);
    CopyBytes(memory, 0, labelSlot);
    FormattedMemory(f, zeros, labelSlot);
  }

  /** Zero memory with the label in front is the formatted data area. */
  lemma FormattedMemory(f: Format, zeros: seq<byte>, labelSlot: Slot)
    requires ValidFormat(f) && Addressable(|zeros|, f.clusterSize, f.clusters) && zeros == Zeros(|zeros|)
    requires |zeros| >= 32
    ensures Clusters(Splice(zeros, 0, labelSlot), f.clusterSize, f.clusters) == FormattedData(f, labelSlot)
  {
    hide ClusterOffset, Splice, Zeros;
    var memory := Splice(zeros, 0, labelSlot);
    var data := Clusters(memory, f.clusterSize, f.clusters);
    forall c | 2 <= c < f.clusters + 2
      ensures data[c] == FormattedData(f, labelSlot)[c]
    {
      ClusterLies(c, f.clusterSize, f.clusters);
      if c > 2 {
        ClustersApart(2, c, f.clusterSize, f.clusters);
      }
      LabelledCluster(zeros, labelSlot, ClusterOffset(c, f.clusterSize), f.clusterSize);
    }
    assert data == FormattedData(f, labelSlot);
  }

  lemma AllZero(bytes: seq<byte>)
    requires forall i :: 0 <= i < |bytes| ==> bytes[i] == 0
    ensures bytes == Zeros(|bytes|)
  {
  }

  lemma LabelledCluster(zeros: seq<byte>, labelSlot: Slot, from: nat, size: nat)
    requires zeros == Zeros(|zeros|) && size >= 32 && from + size <= |zeros|
    ensures from == 0 ==> Splice(zeros, 0, labelSlot)[from..from + size] == labelSlot + Zeros(size - 32)
    ensures from >= 32 ==> Splice(zeros, 0, labelSlot)[from..from + size] == Zeros(size)
  {
  }

  lemma {:induction false} SetSameRaw(t: FatDirectory, path: Path)
    requires Find(t, path).Some?
    ensures SetRaw(t, path, Find(t, path).value) == t
    decreases |path|
  {
    if path != [] {
      SetSameRaw(t.children[path[0]], path[1..]);
      assert t.children[path[0] := t.children[path[0]]] == t.children;
    }
  }

  /** How a call ends: it returns, leaves the text it searches, or stops at an assertion. */
  datatype Outcome = Done(ok: bool) | OutOfRange | AssertionFailed

  /** The parsed name, if short enough to be stored, gets a tail of at most three digits. */
  predicate NameAccepted(path: Text, counters: Counters) {
    var d := Parse(path);
    d.Some? && |d.value.name| <= MAX_NAME ==> TailFits(counters, d.value.name)
  }

  /** Cut a destination into the text of the parent and the name. */
  method SplitDestination(path: Text) returns (parent: Text, name: Name)
    requires path != []
    ensures Parse(path) == Some(Destination(DirectoryPath(parent), name))
  {
    var lastSlash := LastSlash(path);
    if lastSlash == None {
      return path[1..], path;
    }
    if lastSlash.value == 0 {
      parent := [];
    } else {
      parent := path[1..lastSlash.value];
    }
    name := path[lastSlash.value + 1..];
  }

  lemma PaddedStem(temp: seq<byte>, stem: seq<byte>)
    requires |stem| <= 8 && temp == Splice(Spaces(11), 0, stem)
    ensures temp == Padded(stem, 8) + Spaces(3)
  {
  }

  lemma TailOverStem(base: seq<byte>, marked: seq<byte>, counter: nat, temp: seq<byte>)
    requires |base| == 8 && marked == base[..6] + [TILDE, DIGIT_ZERO + 1] + Spaces(3) && counter < COUNTER_LIMIT
    requires temp == marked[..7 - DigitCount(counter)] + [TILDE] + Digits(counter) + marked[8..]
    ensures temp == base[..7 - DigitCount(counter)] + [TILDE] + Digits(counter) + Spaces(3)
  {
    assert marked[..7 - DigitCount(counter)] == base[..7 - DigitCount(counter)];
    assert marked[8..] == Spaces(3);
  }

  lemma CounterKeyIs(name: Name)
    ensures CounterKey(name) == Lower(Padded(Stem(name), 8)[..6] + [TILDE, DIGIT_ZERO + 1] + Spaces(3))
  {
  }

  lemma StemFieldIs(name: Name, counter: nat)
    requires counter < COUNTER_LIMIT
    ensures var base := Padded(Stem(name), 8);
      StemField(name, counter)
        == if HasTail(name) then base[..7 - DigitCount(counter)] + [TILDE] + Digits(counter) else base
  {
  }

  lemma ExtensionAfterStem(before: seq<byte>, field: seq<byte>, extension: seq<byte>)
    requires |field| == 8 && |extension| <= 3 && before == field + Spaces(3)
    ensures Splice(before, 8, extension) == field + Padded(extension, 3)
  {
  }

  lemma ShortNameIs(name: Name, counter: nat)
    requires counter < COUNTER_LIMIT
    ensures ShortName(name, counter) == StemField(name, counter) + Padded(Extension(name), 3)
  {
  }

  /** A slot of a cluster in flat memory. */
  lemma SlotLies(v: Volume, bytes: seq<byte>, clusters: nat, cluster: nat, index: nat)
    requires Shaped(v) && SlotSized(v) && Addressable(|bytes|, v.clusterSize, clusters)
    requires v.data == Clusters(bytes, v.clusterSize, clusters) && IsCluster(v, cluster) && index < MaxEntries(v)
    ensures var entry := (cluster - 2) * v.clusterSize % DWORD_LIMIT + 32 * index;
      0 <= entry && entry + 32 <= |bytes| && SlotAt(v, cluster, index) == bytes[entry..entry + 32]
  {
    hide ClusterOffset, Shaped;
    ClusterLies(cluster, v.clusterSize, clusters);
    OffsetIs(cluster, v.clusterSize);
    var offset, size := ClusterOffset(cluster, v.clusterSize), v.clusterSize;
    assert v.data[cluster] == bytes[offset..offset + size];
    SliceOfSlice(bytes, offset, size, 32 * index, 32);
  }

  lemma OffsetIs(cluster: nat, clusterSize: nat)
    requires cluster >= 2
    ensures ClusterOffset(cluster, clusterSize) == (cluster - 2) * clusterSize % DWORD_LIMIT
  {
  }

  lemma TwoBytes(slot: Slot, at: nat)
    requires at + 2 <= 32
    ensures FromLe(slot[at..at + 2]) == slot[at] as int + 256 * slot[at + 1] as int
  {
    assert slot[at..at + 2][1..] == [slot[at + 1]];
    assert FromLe([slot[at + 1]]) == slot[at + 1] as int + 256 * FromLe([]);
  }

  /** The two writes that make a new directory's cluster. */
  lemma NewDirectoryIs(v: Volume, parent: RawDirectory, stamp: Stamp)
    requires Shaped(v) && SlotSized(v) && RefOk(v, parent.self)
    ensures v.free == 0 <==> Allocate(v, None, 1).first.None?
    ensures v.free > 0 ==>
      var v1, c := Allocate(v, None, 1).volume, v.next;
      && Allocate(v, None, 1).first == Some(c) && v1.data == v.data && 2 <= c < |v.data|
      && |v.data[c]| == v.clusterSize >= 64
      && var once := Splice(v.data[c], 0, ShortSlot(DOT_NAME, ATTR_DIRECTORY, stamp, c, 0));
         var twice := Splice(once, 32, ShortSlot(DOT_DOT_NAME, ATTR_DIRECTORY, stamp, ParentCluster(v, parent), 0));
      NewDirectory(v, parent, stamp) == v1.(data := v.data[c := twice])
  {
    AllocateShaped(v, None, 1);
  }

  lemma CountClusters(size: nat, clusterSize: nat)
    requires clusterSize > 0
    ensures ClusterCount(size, clusterSize) == size / clusterSize + (if size % clusterSize != 0 then 1 else 0)
    ensures size == 0 <==> ClusterCount(size, clusterSize) == 0
  {
    ClusterCountStep(size, clusterSize);
  }

  lemma AllocationLinks(v: Volume, count: nat)
    requires Shaped(v)
    ensures var a := Allocate(v, None, count);
      && |a.volume.fat0| == |v.fat0| && a.volume.data == v.data && a.volume.clusterSize == v.clusterSize
      && 3 <= v.next
      && (a.first.None? <==> count > v.free)
      && (a.first.None? ==> a.volume == v)
      && (a.first.Some? ==> a.first.value == v.next && v.next + count <= |v.data| <= |v.fat0|)
      && (a.first.Some? ==> forall c :: v.next <= c < v.next + count - 1 ==> a.volume.fat0[c] == c + 1)
      && (a.first.Some? && count > 0 ==> a.volume.fat0[v.next + count - 1] == EOC)
  {
  }

  lemma StoreFileIs(v: Volume, bytes: seq<byte>, count: nat)
    requires Shaped(v) && v.clusterSize > 0 && count == ClusterCount(|bytes|, v.clusterSize) && |bytes| < 0xFFFF_FFFF
    ensures var a := Allocate(v, None, count);
      if a.first.None? then StoreFile(v, bytes) == Stored(a.volume, None)
      else
        && v.next + count <= |v.data| && (forall i :: v.next <= i < v.next + count ==> |v.data[i]| == v.clusterSize)
        && StoreFile(v, bytes) == Stored(a.volume.(data := StoreRun(v.data, v.next, bytes, v.clusterSize)), a.first)
  {
  }

  /** One full cluster of a file. */
  lemma StoreRunStep(data: seq<seq<byte>>, c: nat, bytes: seq<byte>, clusterSize: nat)
    requires clusterSize > 0 && |bytes| >= clusterSize && c + ClusterCount(|bytes|, clusterSize) <= |data|
    requires forall i :: c <= i < c + ClusterCount(|bytes|, clusterSize) ==> |data[i]| == clusterSize
    ensures ClusterCount(|bytes|, clusterSize) == 1 + ClusterCount(|bytes| - clusterSize, clusterSize)
    ensures var data' := data[c := Splice(data[c], 0, bytes[..clusterSize])];
      StoreRun(data, c, bytes, clusterSize) == StoreRun(data', c + 1, bytes[clusterSize..], clusterSize)
  {
    ClusterCountStep(|bytes|, clusterSize);
    assert Splice(data[c], 0, bytes[..clusterSize]) == bytes[..clusterSize];
    if |bytes| == clusterSize {
      assert bytes[..clusterSize] == bytes;
    }
  }

  /** The rest of a file, less than a cluster. */
  lemma StoreRunLast(data: seq<seq<byte>>, c: nat, bytes: seq<byte>, clusterSize: nat)
    requires |bytes| < clusterSize && c + ClusterCount(|bytes|, clusterSize) <= |data|
    requires forall i :: c <= i < c + ClusterCount(|bytes|, clusterSize) ==> |data[i]| == clusterSize
    ensures bytes != [] ==> ClusterCount(|bytes|, clusterSize) == 1
    ensures StoreRun(data, c, bytes, clusterSize) == if bytes == [] then data else data[c := Splice(data[c], 0, bytes)]
  {
    ClusterCountStep(|bytes|, clusterSize);
  }

  /** Link the clusters of a run in both FATs, behind `previous` if there is one, and end the chain. */
  method LinkClusters(fat0: array<dword>, fat1: array<dword>, previous: Option<nat>, start: nat, count: nat)
    returns (next: nat)
    requires fat0 != fat1 && fat0.Length == fat1.Length && 1 <= start && start + count <= fat0.Length
    requires start + count < DWORD_LIMIT
    requires previous.Some? ==> previous.value < fat0.Length
    modifies fat0, fat1
    ensures next == start + count
    ensures fat0[..] == LinkRun(old(fat0[..]), previous, start, count)
    ensures fat1[..] == LinkRun(old(fat1[..]), previous, start, count)
  {
    if previous.Some? {
      fat0[previous.value] := start;
      fat1[previous.value] := start;
    }
    var currentCluster := start;
    for i := 0 to count
      invariant currentCluster == start + i
      invariant forall c :: 0 <= c < fat0.Length ==> fat0[c] == Linked(old(fat0[..]), previous, start, i, count, c)
      invariant forall c :: 0 <= c < fat1.Length ==> fat1[c] == Linked(old(fat1[..]), previous, start, i, count, c)
    {
      if i != count - 1 {
        fat0[currentCluster] := currentCluster + 1;
        fat1[currentCluster] := currentCluster + 1;
      }
      currentCluster := currentCluster + 1;
    }
    next := currentCluster;
    currentCluster := currentCluster - 1;
    fat0[currentCluster] := EOC;
    fat1[currentCluster] := EOC;
  }

  /** A FAT entry while the first i clusters of a run are linked. */
  function Linked(fat: seq<nat>, previous: Option<nat>, start: nat, i: nat, count: nat, c: nat): nat
    requires c < |fat|
  {
    if start <= c < start + i && c != start + count - 1 then c + 1
    else if previous == Some(c) then start
    else fat[c]
  }
}
