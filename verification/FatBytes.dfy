/**
 * A whole volume as one run of bytes, as it lies in its partition: reserved sectors, two FATs, the
 * clusters; and a reader that starts from nothing but these bytes.
 */
module FatBytes {
  import opened Bytes
  import opened Options
  import opened FatGeometry
  import opened FatClusters
  import opened FatMemory
  import opened FatBoot
  import opened FatRuns

  // ---------------------------------------------------------------- FATs as bytes

  function FatBytes(fat: seq<nat>): (s: seq<byte>)
    ensures |s| == 4 * |fat|
  {
    if fat == [] then [] else FatBytes(fat[..|fat| - 1]) + Le(4, fat[|fat| - 1])
  }

  /** The entries of a FAT. */
  function FatEntries(s: seq<byte>): (fat: seq<nat>)
    ensures |fat| == |s| / 4
  {
    seq(|s| / 4, i requires 0 <= i < |s| / 4 => Field(s, 4 * i, 4))
  }

  lemma {:induction false} FatEntryAt(fat: seq<nat>, i: nat)
    requires i < |fat|
    ensures FatBytes(fat)[4 * i..4 * i + 4] == Le(4, fat[i])
  {
    var front := fat[..|fat| - 1];
    if i < |front| {
      FatEntryAt(front, i);
      assert FatBytes(fat)[4 * i..4 * i + 4] == FatBytes(front)[4 * i..4 * i + 4];
    }
  }

  /** A FAT of 32-bit entries reads back. */
  lemma FatReadsBack(fat: seq<nat>)
    requires forall i :: 0 <= i < |fat| ==> fat[i] < DWORD_LIMIT
    ensures FatEntries(FatBytes(fat)) == fat
  {
    hide FatBytes, Field;
    forall i | 0 <= i < |fat|
      ensures FatEntries(FatBytes(fat))[i] == fat[i]
    {
      FatEntryAt(fat, i);
      Limits();
      FieldInside(FatBytes(fat), 4 * i, 4, fat[i]);
    }
  }

  // ---------------------------------------------------------------- the reader

  /** Where the clusters begin, in bytes. */
  function DataStart(b: Shape): nat {
    (b.reserved + b.fats * b.fatSectors) * b.bytesPerSector
  }

  /** One cluster of a partition; clusters are numbered from 2. */
  function ReadCluster(p: seq<byte>, start: nat, clusterSize: nat, c: nat): seq<byte>
    requires 2 <= c
  {
    var at: nat := start + (c - 2) * clusterSize;
    if at + clusterSize <= |p| then p[at..at + clusterSize] else []
  }

  /** All clusters of a partition; the first two numbers stand for none. */
  function ReadClusters(p: seq<byte>, start: nat, clusterSize: nat, clusters: nat): (data: seq<seq<byte>>)
    ensures |data| == clusters + 2
  {
    seq(clusters + 2, c requires 0 <= c < clusters + 2 => if c < 2 then [] else ReadCluster(p, start, clusterSize, c))
  }

  /** Bytes of a partition, or none where it ends. */
  function Part(p: seq<byte>, at: nat, length: nat): seq<byte> {
    if at + length <= |p| then p[at..at + length] else []
  }

  /**
   * The volume that a partition holds: the boot sector says where the record, the FATs and the
   * clusters lie.
   */
  function ReadVolume(p: seq<byte>): Option<Volume> {
    if |p| < SECTOR_SIZE then None
    else
      var boot := ReadBoot(SectorAt(p, 0));
      if boot.None? then None
      else
        var b, f := boot.value, boot.value.format;
        var fatBytes := b.fatSectors * b.bytesPerSector;
        if b.bytesPerSector != SECTOR_SIZE || (b.recordSector + 1) * SECTOR_SIZE > |p| then None
        else
          var record := ReadRecord(SectorAt(p, b.recordSector));
          if record.None? then None
          else
            Some(Volume(f.clusterSize,
              FatEntries(Part(p, b.reserved * b.bytesPerSector, fatBytes)),
              FatEntries(Part(p, b.reserved * b.bytesPerSector + fatBytes, fatBytes)),
              ReadClusters(p, DataStart(b), f.clusterSize, f.clusters),
              record.value.nextFree, record.value.freeCount))
  }

  // ---------------------------------------------------------------- reading back

  /** The parts of a partition, one behind the other. */
  function PartitionOf(reserved: seq<byte>, fat0: seq<nat>, fat1: seq<nat>, data: seq<byte>, rest: nat): (p: seq<byte>)
    ensures |p| == |reserved| + 4 * |fat0| + 4 * |fat1| + |data| + rest
  {
    reserved + FatBytes(fat0) + FatBytes(fat1) + data + Zeros(rest)
  }

  /** A run of bytes lies in another one. */
  ghost predicate HoldsAt(p: seq<byte>, at: nat, part: seq<byte>) {
    at + |part| <= |p| && p[at..at + |part|] == part
  }

  lemma PartHolds(before: seq<byte>, part: seq<byte>, after: seq<byte>)
    ensures HoldsAt(before + part + after, |before|, part)
  {
  }

  lemma HoldsInLonger(p: seq<byte>, at: nat, part: seq<byte>, after: seq<byte>)
    requires HoldsAt(p, at, part)
    ensures HoldsAt(p + after, at, part)
  {
    assert (p + after)[at..at + |part|] == p[at..at + |part|];
  }

  /** A part of a part. */
  lemma HoldsWithin(p: seq<byte>, start: nat, part: seq<byte>, at: nat, n: nat)
    requires HoldsAt(p, start, part) && at + n <= |part|
    ensures HoldsAt(p, start + at, part[at..at + n])
  {
    SliceOfSlice(p, start, |part|, at, n);
  }

  lemma SliceOfSlice(p: seq<byte>, start: nat, length: nat, at: nat, n: nat)
    requires start + length <= |p| && at + n <= length
    ensures p[start..start + length][at..at + n] == p[start + at..start + at + n]
  {
    var part, whole := p[start..start + length][at..at + n], p[start + at..start + at + n];
    forall k | 0 <= k < n
      ensures part[k] == whole[k]
    {
      assert part[k] == p[start..start + length][at + k];
    }
    assert part == whole;
  }

  lemma PartIs(p: seq<byte>, at: nat, part: seq<byte>)
    requires HoldsAt(p, at, part)
    ensures Part(p, at, |part|) == part
  {
  }

  /** The parts of a partition and where they lie. */
  lemma PartsOf(reserved: seq<byte>, a: seq<byte>, b: seq<byte>, data: seq<byte>, rest: seq<byte>)
    ensures var p := reserved + a + b + data + rest;
      && HoldsAt(p, 0, reserved) && HoldsAt(p, |reserved|, a) && HoldsAt(p, |reserved| + |a|, b)
      && HoldsAt(p, |reserved| + |a| + |b|, data)
  {
    hide HoldsAt;
    PartHolds([], reserved, a);
    assert [] + reserved + a == reserved + a;
    PartHolds(reserved, a, b);
    PartHolds(reserved + a, b, data);
    PartHolds(reserved + a + b, data, rest);
    HoldsInLonger(reserved + a, 0, reserved, b);
    HoldsInLonger(reserved + a + b, 0, reserved, data);
    HoldsInLonger(reserved + a + b, |reserved|, a, data);
    HoldsInLonger(reserved + a + b + data, 0, reserved, rest);
    HoldsInLonger(reserved + a + b + data, |reserved|, a, rest);
    HoldsInLonger(reserved + a + b + data, |reserved| + |a|, b, rest);
  }

  /** The sectors of the reserved area, found in the partition. */
  lemma SectorHolds(p: seq<byte>, reserved: seq<byte>, n: nat)
    requires HoldsAt(p, 0, reserved) && (n + 1) * SECTOR_SIZE <= |reserved|
    ensures (n + 1) * SECTOR_SIZE <= |p| && SectorAt(p, n) == SectorAt(reserved, n)
  {
    HoldsWithin(p, 0, reserved, n * SECTOR_SIZE, SECTOR_SIZE);
  }

  /** The shape of the volumes that are written here. */
  function ShapeOf(f: Format): Shape {
    Shape(f, SECTOR_SIZE, RESERVED_SECTORS, NUMBER_OF_FATS, f.fatEntries / 128, 1, BACKUP_ANNOUNCED)
  }

  /** Clusters read from the bytes are those of the data area. */
  lemma ClustersReadBack(p: seq<byte>, start: nat, data: seq<byte>, clusterSize: nat, clusters: nat)
    requires Addressable(|data|, clusterSize, clusters) && HoldsAt(p, start, data)
    ensures ReadClusters(p, start, clusterSize, clusters) == Clusters(data, clusterSize, clusters)
  {
    hide ClusterOffset, HoldsAt;
    forall c | 2 <= c < clusters + 2
      ensures ReadCluster(p, start, clusterSize, c) == ClusterAt(data, clusterSize, clusters, c)
    {
      ClusterLies(c, clusterSize, clusters);
      HoldsWithin(p, start, data, (c - 2) * clusterSize, clusterSize);
      ClusterIs(p, start, clusterSize, c, data[(c - 2) * clusterSize..(c - 2) * clusterSize + clusterSize]);
    }
    assert ReadClusters(p, start, clusterSize, clusters) == Clusters(data, clusterSize, clusters);
  }

  lemma ClusterIs(p: seq<byte>, start: nat, clusterSize: nat, c: nat, cluster: seq<byte>)
    requires 2 <= c && |cluster| == clusterSize && (c - 2) * clusterSize >= 0
    requires HoldsAt(p, start + (c - 2) * clusterSize, cluster)
    ensures ReadCluster(p, start, clusterSize, c) == cluster
  {
  }

  /** The volume reads back from the bytes of its partition. */
  lemma VolumeReadsBack(f: Format, reserved: seq<byte>, fat0: seq<nat>, fat1: seq<nat>, data: seq<byte>, rest: nat,
    r: Record)
    requires |reserved| == RESERVED_SECTORS * SECTOR_SIZE && ReadRecord(SectorAt(reserved, 1)) == Some(r)
    requires ReadBoot(SectorAt(reserved, 0)) == Some(ShapeOf(f)) && f.fatEntries % 128 == 0
    requires |fat0| == |fat1| == f.fatEntries && Addressable(|data|, f.clusterSize, f.clusters)
    requires forall i :: 0 <= i < |fat0| ==> fat0[i] < DWORD_LIMIT && fat1[i] < DWORD_LIMIT
    ensures ReadVolume(PartitionOf(reserved, fat0, fat1, data, rest))
      == Some(Volume(f.clusterSize, fat0, fat1, Clusters(data, f.clusterSize, f.clusters), r.nextFree, r.freeCount))
  {
    hide FatBytes, FatEntries, ReadBoot, ReadRecord, Clusters, ReadClusters, Part, Addressable, HoldsAt, SectorAt;
    var p, b, start := PartitionOf(reserved, fat0, fat1, data, rest), ShapeOf(f), |reserved| + 8 * f.fatEntries;
    PartsOf(reserved, FatBytes(fat0), FatBytes(fat1), data, Zeros(rest));
    SectorHolds(p, reserved, 0);
    SectorHolds(p, reserved, 1);
    PartIs(p, |reserved|, FatBytes(fat0));
    PartIs(p, |reserved| + 4 * f.fatEntries, FatBytes(fat1));
    FatReadsBack(fat0);
    FatReadsBack(fat1);
    FatSizes(f);
    ClustersReadBack(p, start, data, f.clusterSize, f.clusters);
  }

  lemma FatSizes(f: Format)
    requires f.fatEntries % 128 == 0
    ensures var b := ShapeOf(f);
      && b.fatSectors * b.bytesPerSector == 4 * f.fatEntries
      && DataStart(b) == RESERVED_SECTORS * SECTOR_SIZE + 8 * f.fatEntries
  {
  }
}
