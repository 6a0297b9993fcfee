/**
 * The image creator's main program: a partitioned disk whose partitions are filled with file
 * systems; and what is found by a reader who starts from nothing but the finished file.
 */
module DiskImage {
  import opened Bytes
  import opened Options
  import opened GptLayout
  import opened GptDisk
  import opened GptReader
  import FatNames
  import opened FatFilesystem
  import opened FatBytes
  import opened FatImage
  import opened FatRequests

  // ---------------------------------------------------------------- partitions of the file

  function ExtentBytes(e: Extent): nat {
    if e.first <= e.last then (e.last + 1 - e.first) * SECTOR_SIZE else 0
  }

  /** The bytes of an extent of the file. */
  function Inside(file: seq<byte>, e: Extent): (p: seq<byte>)
    ensures |p| == ExtentBytes(e)
  {
    Region(file, e.first * SECTOR_SIZE, ExtentBytes(e))
  }

  /** The file once the bytes of an extent are written. */
  function Filled(file: seq<byte>, e: Extent, bytes: seq<byte>): seq<byte> {
    Overwritten(file, e.first * SECTOR_SIZE, bytes)
  }

  /** Filling an extent of the usable area changes neither headers nor tables. */
  lemma FillKeepsDisk(file: seq<byte>, l: Layout, partitions: seq<Partition>, diskId: Guid, e: Extent, bytes: seq<byte>)
    requires OnDisk(file, l, partitions, diskId) && AreasOk(l, |partitions|)
    requires l.primaryHeader == 1 && l.partitionTable == 2
    requires l.firstUsable <= e.first <= e.last <= l.lastUsable && |bytes| == ExtentBytes(e)
    ensures OnDisk(Filled(file, e, bytes), l, partitions, diskId)
  {
    hide Region, Overwritten, HeaderBytes, ProtectiveMbr, IsTable, AreasOk, Checksum, Cut;
    var table: seq<byte> :| TableOnDisk(file, l, partitions, diskId, table);
    var at, n := e.first * SECTOR_SIZE, |partitions|;
    TableLength(table, partitions);
    AreasAreApart(l, n);
    UsableIsApart(l, n);
    RegionKept(file, at, bytes, 0, SECTOR_SIZE);
    RegionKept(file, at, bytes, SECTOR_SIZE, SECTOR_SIZE);
    RegionKept(file, at, bytes, 2 * SECTOR_SIZE, |table|);
    RegionKept(file, at, bytes, l.backupTable * SECTOR_SIZE, |table|);
    RegionKept(file, at, bytes, l.secondaryHeader * SECTOR_SIZE, SECTOR_SIZE);
    assert TableOnDisk(Filled(file, e, bytes), l, partitions, diskId, table);
  }

  lemma UsableIsApart(l: Layout, n: nat)
    requires AreasOk(l, n) && l.partitionTable == 2
    ensures 2 * SECTOR_SIZE + ENTRY_STRIDE * n < l.firstUsable * SECTOR_SIZE
    ensures l.lastUsable < l.backupTable <= l.secondaryHeader
  {
    assert TableSectors(n) == 64 * n;
  }

  /** Filling an extent gives its bytes, and leaves the extents apart from it. */
  lemma FillInside(file: seq<byte>, e: Extent, bytes: seq<byte>, other: Extent)
    requires |bytes| == ExtentBytes(e) && e.first <= e.last
    ensures Inside(Filled(file, e, bytes), e) == bytes
    ensures other.last < e.first || e.last < other.first ==>
      Inside(Filled(file, e, bytes), other) == Inside(file, other)
  {
    hide Region, Overwritten;
    RegionWritten(file, e.first * SECTOR_SIZE, bytes);
    if other.first <= other.last && (other.last < e.first || e.last < other.first) {
      RegionKept(file, e.first * SECTOR_SIZE, bytes, other.first * SECTOR_SIZE, ExtentBytes(other));
    } else if other.first > other.last {
      assert Inside(Filled(file, e, bytes), other) == Inside(file, other);
    }
  }

  // ---------------------------------------------------------------- the reader

  /** What the bytes of a partition hold at a path. */
  function NodeIn(p: seq<byte>, path: Path): Option<Node> {
    var v := ReadVolume(p);
    if v.None? then None else Lookup(v.value, path)
  }

  /**
   * What a file holds at a path of its i-th partition, for a reader who checks the primary header,
   * takes the partition's place from the table, and the rest from the partition's bytes.
   */
  function NodeOnDisk(file: seq<byte>, i: nat, path: Path): Option<Node> {
    if !HeaderChecks(file, 1) || i >= Field(Sector(file, 1), 80, 4) then None
    else NodeIn(Inside(file, ReadPartition(file, 1, i).extent), path)
  }

  /** Exactly the first n items are found in the bytes of a partition. */
  ghost predicate HoldsItems(p: seq<byte>, items: seq<Item>, n: nat)
    requires HavePaths(items) && n <= |items|
  {
    forall path :: NodeIn(p, path) == NodeAt(ModelOf(OpsOf(items)[..n]), path)
  }

  // ---------------------------------------------------------------- file systems to make

  /** A file system to be made in the partition of a name. */
  datatype Filesystem = Filesystem(partition: seq<nat>, volumeName: seq<byte>, stamp: FatNames.Stamp, items: seq<Item>)

  /** The partition of a file system, or the number of partitions. */
  function PlaceOf(partitions: seq<Partition>, f: Filesystem): (i: nat)
    ensures i <= |partitions|
  {
    IndexOfName(partitions, f.partition)
  }

  /** The requests are proper, and the partition, if there is one, can be formatted. */
  ghost predicate InGoodOrder(partitions: seq<Partition>, f: Filesystem) {
    && HavePaths(f.items) && Proper(OpsOf(f.items)) && VolumeLabel(f.volumeName)[0] != 0
    && var i := PlaceOf(partitions, f); i < |partitions| ==> Formattable(partitions[i].lbaCount)
  }

  /** File systems in good order, each for a partition of its own. */
  ghost predicate AllInGoodOrder(partitions: seq<Partition>, filesystems: seq<Filesystem>) {
    && (forall k :: 0 <= k < |filesystems| ==> InGoodOrder(partitions, filesystems[k]))
    && (forall j, k :: 0 <= j < k < |filesystems| ==> filesystems[j].partition != filesystems[k].partition)
  }

  /** What is asked for fits in a partition of this length. */
  predicate FitsIn(lbaCount: nat, items: seq<Item>)
    requires Formattable(lbaCount) && HavePaths(items)
  {
    var format := FormatOf(lbaCount);
    PlanFits(format.clusterSize, format.clusters, OpsOf(items))
  }

  /** The partition exists, and what is asked for fits in it. */
  ghost predicate Fits(partitions: seq<Partition>, f: Filesystem)
    requires InGoodOrder(partitions, f)
  {
    var i := PlaceOf(partitions, f);
    i < |partitions| && FitsIn(partitions[i].lbaCount, f.items)
  }

  ghost predicate AllFit(partitions: seq<Partition>, filesystems: seq<Filesystem>)
    requires AllInGoodOrder(partitions, filesystems)
  {
    forall k :: 0 <= k < |filesystems| ==> Fits(partitions, filesystems[k])
  }

  /** How the program ends. */
  datatype Ending = Complete | NoSuchPartition | NoRoom(carriedOut: nat)

  // ---------------------------------------------------------------- the main program

  /** Make a file system in a partition of zero bytes. */
  method MakeFilesystem(disk: Disk, e: Extent, lbaCount: nat, f: Filesystem) returns (n: nat, ghost bytes: seq<byte>)
    requires Formattable(lbaCount) && e.first <= e.last && e.last + 1 - e.first == lbaCount
    requires HavePaths(f.items) && Proper(OpsOf(f.items)) && VolumeLabel(f.volumeName)[0] != 0
    requires Inside(disk.os.file, e) == Zeros(ExtentBytes(e))
    modifies disk.os
    ensures |bytes| == ExtentBytes(e) && disk.os.file == Filled(old(disk.os.file), e, bytes)
    ensures n <= |f.items| && HoldsItems(bytes, f.items, n) && LabelInBytes(bytes, f.volumeName)
    ensures n == |f.items| <==> FitsIn(lbaCount, f.items)
  {
    hide Proper, FoundInBytes, Overwritten, PlanFits, ReadVolume, Lookup, ModelOf, RoomAt, RecordIsExact, Formattable,
      FormatOf, HoldsItems, LabelInBytes, Inside, Usable, StartOf, HavePaths, VolumeLabel;
    var image;
    image, n := CreateImage(lbaCount, f.volumeName, f.stamp, f.items);
    bytes := image.PartitionBytes();
    FoundIsHeld(bytes, image.fat0[..], f.items, n);
    disk.os.Seek(e.first * SECTOR_SIZE);
    disk.os.Write(image.PartitionBytes());
  }

  lemma FoundIsHeld(p: seq<byte>, fat: seq<nat>, items: seq<Item>, n: nat)
    requires HavePaths(items) && n <= |items| && FoundInBytes(p, fat, ModelOf(OpsOf(items)[..n]))
    ensures HoldsItems(p, items, n)
  {
    hide ReadVolume, Lookup, ModelOf;
  }

  /** Some of the first n file systems belongs to the i-th partition. */
  ghost predicate Used(partitions: seq<Partition>, filesystems: seq<Filesystem>, n: nat, i: nat)
    requires n <= |filesystems|
  {
    exists k :: 0 <= k < n && PlaceOf(partitions, filesystems[k]) == i
  }

  /** The k-th file system is found in its partition. */
  ghost predicate IsMade(file: seq<byte>, l: Layout, partitions: seq<Partition>, f: Filesystem)
    requires InGoodOrder(partitions, f) && |l.extents| == |partitions|
  {
    && Fits(partitions, f)
    && var bytes := Inside(file, l.extents[PlaceOf(partitions, f)]);
    HoldsItems(bytes, f.items, |f.items|) && LabelInBytes(bytes, f.volumeName)
  }

  /**
   * The disk is in place, the first `done` file systems are found, and partitions that do not
   * belong to the first `used` file systems hold zero bytes.
   */
  ghost predicate Made(file: seq<byte>, l: Layout, partitions: seq<Partition>, diskId: Guid,
    filesystems: seq<Filesystem>, done: nat, used: nat)
    requires AllInGoodOrder(partitions, filesystems) && |l.extents| == |partitions| && done <= used <= |filesystems|
  {
    && OnDisk(file, l, partitions, diskId)
    && (forall k :: 0 <= k < done ==> IsMade(file, l, partitions, filesystems[k]))
    && (forall i :: 0 <= i < |partitions| && !Used(partitions, filesystems, used, i) ==>
          Inside(file, l.extents[i]) == Zeros(ExtentBytes(l.extents[i])))
  }

  /** A proper disk: its partitions lie in the usable area, apart from each other. */
  ghost predicate IsProperDisk(l: Layout, partitions: seq<Partition>) {
    && AreasOk(l, |partitions|) && l.primaryHeader == 1 && l.partitionTable == 2 && |l.extents| == |partitions|
    && (forall i :: 0 <= i < |l.extents| ==> l.firstUsable <= l.extents[i].first <= l.extents[i].last <= l.lastUsable)
    && (forall i, j :: 0 <= i < j < |l.extents| ==> l.extents[i].last < l.extents[j].first)
  }

  /** Making the next file system leaves everything else. */
  lemma NextIsMade(file: seq<byte>, l: Layout, partitions: seq<Partition>, diskId: Guid, filesystems: seq<Filesystem>,
    done: nat, bytes: seq<byte>)
    requires IsProperDisk(l, partitions) && AllInGoodOrder(partitions, filesystems) && done < |filesystems|
    requires Made(file, l, partitions, diskId, filesystems, done, done)
    requires PlaceOf(partitions, filesystems[done]) < |partitions|
    requires |bytes| == ExtentBytes(l.extents[PlaceOf(partitions, filesystems[done])])
    ensures var e := l.extents[PlaceOf(partitions, filesystems[done])];
      && Made(Filled(file, e, bytes), l, partitions, diskId, filesystems, done, done + 1)
      && Inside(Filled(file, e, bytes), e) == bytes
  {
    hide AreasOk, OnDisk, Inside, Filled, HoldsItems, LabelInBytes, FitsIn, InGoodOrder;
    var place := PlaceOf(partitions, filesystems[done]);
    var e := l.extents[place];
    FillKeepsDisk(file, l, partitions, diskId, e, bytes);
    FillInside(file, e, bytes, e);
    forall i | 0 <= i < |partitions| && i != place
      ensures Inside(Filled(file, e, bytes), l.extents[i]) == Inside(file, l.extents[i])
    {
      FillInside(file, e, bytes, l.extents[i]);
    }
    assert Used(partitions, filesystems, done + 1, place);
    forall i | 0 <= i < |partitions| && !Used(partitions, filesystems, done + 1, i)
      ensures !Used(partitions, filesystems, done, i)
    {
    }
    forall k | 0 <= k < done
      ensures IsMade(Filled(file, e, bytes), l, partitions, filesystems[k])
    {
      assert IsMade(file, l, partitions, filesystems[k]);
      assert PlaceOf(partitions, filesystems[k]) != place;
    }
  }

  /** A newly written disk. */
  lemma NothingMade(file: seq<byte>, requests: seq<Request>, diskId: Guid, filesystems: seq<Filesystem>)
    requires Plannable(requests) && AllInGoodOrder(Planned(requests), filesystems)
    requires OnDisk(file, LayoutOf(SizesOf(requests)), Planned(requests), diskId)
    requires var l := LayoutOf(SizesOf(requests)); IsZero(file, l.firstUsable, l.lastUsable)
    ensures var l := LayoutOf(SizesOf(requests));
      IsProperDisk(l, Planned(requests)) && Made(file, l, Planned(requests), diskId, filesystems, 0, 0)
  {
    hide OnDisk, LayoutOf, AllInGoodOrder, FitsDisk, IsZero, Inside;
    var l := LayoutOf(SizesOf(requests));
    LayoutIsProper(SizesOf(requests));
    NumbersFit(requests);
    forall i | 0 <= i < |requests|
      ensures Inside(file, l.extents[i]) == Zeros(ExtentBytes(l.extents[i]))
    {
      InsideIsZero(file, l.firstUsable, l.lastUsable, l.extents[i]);
    }
  }

  lemma InsideIsZero(file: seq<byte>, first: nat, last: nat, e: Extent)
    requires IsZero(file, first, last) && first <= e.first <= e.last <= last
    ensures Inside(file, e) == Zeros(ExtentBytes(e))
  {
  }

  /** The length of a partition's extent. */
  lemma PlannedExtent(requests: seq<Request>, i: nat)
    requires Plannable(requests) && i < |requests|
    ensures var e := LayoutOf(SizesOf(requests)).extents[i];
      Planned(requests)[i].extent == e && e.first <= e.last && e.last + 1 - e.first == Planned(requests)[i].lbaCount
  {
    hide LayoutOf, FitsDisk, AreasOk;
    LayoutIsProper(SizesOf(requests));
  }

  /** The reader's way through the partition table ends at the planned extents. */
  lemma ReaderFindsExtents(file: seq<byte>, requests: seq<Request>, diskId: Guid, i: nat, path: Path)
    requires Plannable(requests) && |requests| < MAX_PARTITIONS && NamesOk(requests) && i < |requests|
    requires OnDisk(file, LayoutOf(SizesOf(requests)), Planned(requests), diskId)
    ensures NodeOnDisk(file, i, path) == NodeIn(Inside(file, LayoutOf(SizesOf(requests)).extents[i]), path)
  {
    hide OnDisk, LayoutOf, FitsDisk, HeaderChecks, NamesOk, NodeIn, Inside, Sector, ReadPartition, EntryArray;
    PrimaryHeaderVerifies(file, requests, diskId);
    assert ReadPartition(file, 1, i) == Describe(Planned(requests)[i]);
  }

  /** The next file system is in good order, and its partition still holds zero bytes. */
  lemma NextInGoodOrder(file: seq<byte>, l: Layout, partitions: seq<Partition>, diskId: Guid,
    filesystems: seq<Filesystem>, done: nat)
    requires AllInGoodOrder(partitions, filesystems) && |l.extents| == |partitions| && done < |filesystems|
    requires Made(file, l, partitions, diskId, filesystems, done, done)
    ensures InGoodOrder(partitions, filesystems[done])
    ensures var i := PlaceOf(partitions, filesystems[done]);
      i < |partitions| ==> Inside(file, l.extents[i]) == Zeros(ExtentBytes(l.extents[i]))
  {
    hide OnDisk, Inside, IsMade, InGoodOrder;
    var i := PlaceOf(partitions, filesystems[done]);
    assert i < |partitions| ==> !Used(partitions, filesystems, done, i);
  }

  /** A file system that fits and is found completes the next step. */
  lemma OneMoreMade(file: seq<byte>, l: Layout, partitions: seq<Partition>, diskId: Guid, filesystems: seq<Filesystem>,
    done: nat)
    requires AllInGoodOrder(partitions, filesystems) && |l.extents| == |partitions| && done < |filesystems|
    requires Made(file, l, partitions, diskId, filesystems, done, done + 1)
    requires InGoodOrder(partitions, filesystems[done]) && IsMade(file, l, partitions, filesystems[done])
    ensures Made(file, l, partitions, diskId, filesystems, done + 1, done + 1)
  {
    hide OnDisk, Inside, IsMade, InGoodOrder;
  }

  /** In the partitions of the first file systems, a reader of the file finds exactly what was asked for. */
  ghost predicate AllFound(file: seq<byte>, partitions: seq<Partition>, filesystems: seq<Filesystem>, done: nat)
    requires AllInGoodOrder(partitions, filesystems) && done <= |filesystems|
  {
    forall k, path :: 0 <= k < done ==>
      NodeOnDisk(file, PlaceOf(partitions, filesystems[k]), path) == NodeAt(ModelOf(OpsOf(filesystems[k].items)), path)
  }

  /** Why the program stopped at a file system, and what it left behind. */
  ghost predicate Stopped(file: seq<byte>, l: Layout, partitions: seq<Partition>, f: Filesystem, ending: Ending)
    requires InGoodOrder(partitions, f) && |l.extents| == |partitions|
  {
    var i := PlaceOf(partitions, f);
    match ending
    case Complete => false
    case NoSuchPartition => i == |partitions|
    case NoRoom(carriedOut) =>
      && i < |partitions| && carriedOut < |f.items| && !Fits(partitions, f)
      && HoldsItems(Inside(file, l.extents[i]), f.items, carriedOut)
  }

  lemma StoppedIsNotAll(file: seq<byte>, l: Layout, partitions: seq<Partition>, filesystems: seq<Filesystem>, done: nat,
    ending: Ending)
    requires AllInGoodOrder(partitions, filesystems) && done < |filesystems| && |l.extents| == |partitions|
    requires InGoodOrder(partitions, filesystems[done]) && Stopped(file, l, partitions, filesystems[done], ending)
    ensures !AllFit(partitions, filesystems)
  {
    hide InGoodOrder, FitsIn, HoldsItems;
    assert !Fits(partitions, filesystems[done]);
  }

  /** What a reader of the file finds in the finished partitions. */
  lemma WhatIsRead(file: seq<byte>, requests: seq<Request>, diskId: Guid, filesystems: seq<Filesystem>, done: nat,
    used: nat)
    requires Plannable(requests) && AllInGoodOrder(Planned(requests), filesystems) && done <= used <= |filesystems|
    requires Made(file, LayoutOf(SizesOf(requests)), Planned(requests), diskId, filesystems, done, used)
    ensures done == |filesystems| ==> AllFit(Planned(requests), filesystems)
    ensures IsProtective(file)
    ensures |requests| < MAX_PARTITIONS ==> HeaderChecks(file, 1)
    ensures |requests| < MAX_PARTITIONS && NamesOk(requests) ==> AllFound(file, Planned(requests), filesystems, done)
  {
    hide OnDisk, LayoutOf, FitsDisk, IsProtective, HeaderChecks, NamesOk, NodeOnDisk, NodeIn, ModelOf, FitsIn, Inside,
      Announces, LabelInBytes;
    var partitions := Planned(requests);
    DiskIsProtected(file, LayoutOf(SizesOf(requests)), partitions, diskId);
    assert forall k :: 0 <= k < done ==> IsMade(file, LayoutOf(SizesOf(requests)), partitions, filesystems[k]);
    if |requests| < MAX_PARTITIONS {
      PrimaryHeaderVerifies(file, requests, diskId);
      if NamesOk(requests) {
        forall k, path | 0 <= k < done
          ensures NodeOnDisk(file, PlaceOf(partitions, filesystems[k]), path)
            == NodeAt(ModelOf(OpsOf(filesystems[k].items)), path)
        {
          var items := filesystems[k].items;
          assert OpsOf(items)[..|items|] == OpsOf(items);
          ReaderFindsExtents(file, requests, diskId, PlaceOf(partitions, filesystems[k]), path);
        }
      }
    }
  }

  /**
   * Write a disk and make the file systems in order, up to the first that is impossible. All are
   * made exactly when each has a partition and fits in it. In each finished partition exactly what
   * was asked for is found, starting from nothing but the file; a file system without room leaves
   * the items before; partitions without file system hold zero bytes; and the partition tables and
   * headers are as they were written.
   */
  method CreateDiskImage(diskId: Guid, requests: seq<Request>, filesystems: seq<Filesystem>)
    returns (disk: Disk, done: nat, ending: Ending)
    requires Plannable(requests) && AllInGoodOrder(Planned(requests), filesystems)
    ensures fresh(disk) && fresh(disk.os)
    ensures done <= |filesystems| && (ending == Complete <==> done == |filesystems|)
    ensures disk.layout == LayoutOf(SizesOf(requests)) && disk.partitions == Planned(requests)
    ensures var used := if ending.NoRoom? then done + 1 else done;
      Made(disk.os.file, disk.layout, disk.partitions, diskId, filesystems, done, used)
    ensures ending == Complete <==> AllFit(disk.partitions, filesystems)
    ensures ending != Complete ==>
      InGoodOrder(disk.partitions, filesystems[done])
      && Stopped(disk.os.file, disk.layout, disk.partitions, filesystems[done], ending)
    ensures IsProtective(disk.os.file)
    ensures |requests| < MAX_PARTITIONS ==> HeaderChecks(disk.os.file, 1)
    ensures |requests| < MAX_PARTITIONS && NamesOk(requests) ==>
      AllFound(disk.os.file, disk.partitions, filesystems, done)
  {
    hide OnDisk, LayoutOf, Planned, FitsDisk, IsZero, AllInGoodOrder, Made, IsProtective, HeaderChecks, Announces,
      Inside, Filled, AllFit, AllFound, NamesOk, IsProperDisk, Formattable, Proper, FitsIn, HoldsItems, ExtentsOk,
      AreasOk, LabelInBytes;
    disk := WriteDisk(diskId, requests);
    NothingMade(disk.os.file, requests, diskId, filesystems);
    ghost var l, partitions := disk.layout, disk.partitions;
    done, ending := 0, Complete;
    while done < |filesystems|
      invariant done <= |filesystems| && ending == Complete
      invariant disk.partitions == partitions && disk.layout == l && disk.diskCreated && fresh(disk.os)
      invariant Made(disk.os.file, l, partitions, diskId, filesystems, done, done)
    {
      var f := filesystems[done];
      var partition := disk.GetPartition(f.partition);
      NextInGoodOrder(disk.os.file, l, partitions, diskId, filesystems, done);
      if partition == None {
        ending := NoSuchPartition;
        break;
      }
      PlannedExtent(requests, PlaceOf(partitions, f));
      ghost var before := disk.os.file;
      var n, bytes := MakeFilesystem(disk, partition.value.extent, partition.value.lbaCount, f);
      NextIsMade(before, l, partitions, diskId, filesystems, done, bytes);
      if n < |f.items| {
        ending := NoRoom(n);
        break;
      }
      OneMoreMade(disk.os.file, l, partitions, diskId, filesystems, done);
      done := done + 1;
    }
    if ending != Complete {
      StoppedIsNotAll(disk.os.file, l, partitions, filesystems, done, ending);
    }
    WhatIsRead(disk.os.file, requests, diskId, filesystems, done, if ending.NoRoom? then done + 1 else done);
  }
}
