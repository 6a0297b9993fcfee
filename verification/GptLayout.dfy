/**
 * Where the parts of a GPT disk go: header, partition table, partitions one after the other with
 * a padding sector behind each, backup table and secondary header.
 */
module GptLayout {
  const SECTOR_SIZE := 512
  const ENTRY_STRIDE := 32768
  const LBA_LIMIT := 0x1_0000_0000_0000_0000

  /** The sectors of a partition, both ends included. */
  datatype Extent = Extent(first: nat, last: nat)

  /** The sectors of a partition table with n entries. */
  function TableSectors(n: nat): nat {
    ENTRY_STRIDE * n / SECTOR_SIZE
  }

  function FirstUsable(n: nat): nat {
    2 + TableSectors(n) + 1
  }

  /** The sectors that the first k partitions take, with their padding. */
  function SectorsBefore(sizes: seq<nat>, k: nat): nat
    requires k <= |sizes|
  {
    if k == 0 then 0 else SectorsBefore(sizes, k - 1) + sizes[k - 1] + 1
  }

  function PartitionStart(sizes: seq<nat>, k: nat): nat
    requires k <= |sizes|
  {
    FirstUsable(|sizes|) + SectorsBefore(sizes, k)
  }

  /** All positions on the disk. */
  datatype Layout = Layout(
    primaryHeader: nat, partitionTable: nat, firstUsable: nat, extents: seq<Extent>, lastUsable: nat, backupTable: nat,
    secondaryHeader: nat, diskSize: nat)

  /** The layout in closed form, for partitions of at least one sector. */
  function LayoutOf(sizes: seq<nat>): (l: Layout)
    requires forall i :: 0 <= i < |sizes| ==> sizes[i] >= 1
    ensures |l.extents| == |sizes|
  {
    var n := |sizes|;
    Layout(1, 2, FirstUsable(n),
      seq(n, i requires 0 <= i < n => Extent(PartitionStart(sizes, i), PartitionStart(sizes, i) + sizes[i] - 1)),
      PartitionStart(sizes, n), PartitionStart(sizes, n) + 1, PartitionStart(sizes, n) + 1 + TableSectors(n),
      (PartitionStart(sizes, n) + 1 + TableSectors(n) + 1) * SECTOR_SIZE)
  }

  /** Every position and the size in bytes fit in 64 bits. */
  predicate FitsDisk(sizes: seq<nat>) {
    (PartitionStart(sizes, |sizes|) + 1 + TableSectors(|sizes|) + 1) * SECTOR_SIZE < LBA_LIMIT
  }

  function Wrap(x: int): nat {
    x % LBA_LIMIT
  }

  lemma {:induction false} SectorsGrow(sizes: seq<nat>, i: nat, j: nat)
    requires i < j <= |sizes|
    ensures SectorsBefore(sizes, i) + sizes[i] + 1 <= SectorsBefore(sizes, j)
    decreases j
  {
    if i < j - 1 {
      SectorsGrow(sizes, i, j - 1);
    }
  }

  /**
   * The extents are ordered and disjoint, of the requested sizes, with one sector of padding behind
   * each, and fill the usable area.
   */
  ghost predicate ExtentsOk(l: Layout, sizes: seq<nat>) {
    && |l.extents| == |sizes|
    && (forall i :: 0 <= i < |sizes| ==>
          l.firstUsable <= l.extents[i].first <= l.extents[i].last <= l.lastUsable
          && l.extents[i].last - l.extents[i].first + 1 == sizes[i])
    && (forall i, j :: 0 <= i < j < |sizes| ==> l.extents[i].last + 1 < l.extents[j].first)
    && (forall i :: 0 <= i < |sizes| - 1 ==> l.extents[i + 1].first == l.extents[i].last + 2)
    && (if sizes == [] then l.lastUsable == l.firstUsable
        else l.extents[0].first == l.firstUsable && l.lastUsable == l.extents[|sizes| - 1].last + 2)
  }

  /**
   * Header, a table of 64 sectors for each partition, a sector of padding, the usable area, the
   * backup table and the secondary header follow each other; with it the disk ends.
   */
  ghost predicate AreasOk(l: Layout, n: nat) {
    && l.primaryHeader == 1 && l.partitionTable == 2
    && l.firstUsable == l.partitionTable + 64 * n + 1
    && l.firstUsable <= l.lastUsable
    && l.backupTable == l.lastUsable + 1
    && l.secondaryHeader == l.backupTable + 64 * n
    && l.diskSize == (l.secondaryHeader + 1) * 512
  }

  /** The closed form is a proper disk layout. */
  lemma LayoutIsProper(sizes: seq<nat>)
    requires forall i :: 0 <= i < |sizes| ==> sizes[i] >= 1
    ensures ExtentsOk(LayoutOf(sizes), sizes) && AreasOk(LayoutOf(sizes), |sizes|)
  {
    hide TableSectors, SectorsBefore;
    var l := LayoutOf(sizes);
    SectorsAll(sizes);
    forall i | 0 <= i < |sizes|
      ensures l.firstUsable <= l.extents[i].first <= l.extents[i].last <= l.lastUsable
      ensures l.extents[i].last - l.extents[i].first + 1 == sizes[i]
    {
      assert SectorsBefore(sizes, i) + sizes[i] + 1 <= SectorsBefore(sizes, |sizes|);
    }
    forall i, j | 0 <= i < j < |sizes|
      ensures l.extents[i].last + 1 < l.extents[j].first
    {
      assert SectorsBefore(sizes, i) + sizes[i] + 1 <= SectorsBefore(sizes, j);
    }
    NextSectors(sizes);
    SixtyFour(|sizes|);
    assert AreasOk(l, |sizes|);
  }

  lemma SectorsAll(sizes: seq<nat>)
    ensures forall i, j :: 0 <= i < j <= |sizes| ==> SectorsBefore(sizes, i) + sizes[i] + 1 <= SectorsBefore(sizes, j)
  {
    forall i, j | 0 <= i < j <= |sizes|
      ensures SectorsBefore(sizes, i) + sizes[i] + 1 <= SectorsBefore(sizes, j)
    {
      SectorsGrow(sizes, i, j);
    }
  }

  lemma NextSectors(sizes: seq<nat>)
    ensures SectorsBefore(sizes, 0) == 0
    ensures forall i: nat :: i < |sizes| ==> SectorsBefore(sizes, i + 1) == SectorsBefore(sizes, i) + sizes[i] + 1
  {
  }

  lemma SixtyFour(n: nat)
    ensures TableSectors(n) == 64 * n
  {
  }
}
