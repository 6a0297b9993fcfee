/**
 * The GPT disk writer: it plans the layout, and writes headers and partition tables through a
 * cursor. Proved here: every structure lands on its planned sector, the primary header verifies
 * (UEFI Specification, section 5.3), and the entry array read at its stride gives the partitions.
 */
module GptDisk {
  import opened Bytes
  import opened Buffers
  import opened Options
  import opened GptLayout
  import Crc32

  const HEADER_SIZE := 92
  const ENTRY_SIZE := 128
  const SIGNATURE := 0x5452_4150_2049_4645
  const REVISION := 0x1_0000

  /** The checksum routine takes a 32-bit length; longer buffers are cut. */
  const CRC_LENGTH_LIMIT := 0x1_0000_0000

  /** What the checksum routine sees of a buffer. */
  function Cut(buffer: seq<byte>): (seen: seq<byte>)
    ensures |seen| <= |buffer|
  {
    CutLength(|buffer|);
    buffer[..|buffer| % CRC_LENGTH_LIMIT]
  }

  lemma CutLength(n: nat)
    ensures n % CRC_LENGTH_LIMIT <= n
    ensures n < CRC_LENGTH_LIMIT ==> n % CRC_LENGTH_LIMIT == n
  {
  }

  lemma CutOfShort(buffer: seq<byte>)
    requires |buffer| < CRC_LENGTH_LIMIT
    ensures Cut(buffer) == buffer
  {
    CutLength(|buffer|);
    assert buffer[..|buffer|] == buffer;
  }

  type Guid = s: seq<byte> | |s| == 16 witness Zeros(16)

  datatype Partition = Partition(kind: Guid, id: Guid, lbaCount: nat, extent: Extent, name: seq<nat>)

  // ---------------------------------------------------------------- checksums of bytes

  function Bits(s: seq<byte>): (t: seq<bv8>)
    ensures |t| == |s|
  {
    seq(|s|, i requires 0 <= i < |s| => s[i] as bv8)
  }

  /** The CRC-32 of bytes, as a number. */
  function Checksum(s: seq<byte>): nat {
    Crc32.Crc(Bits(s)) as int
  }

  lemma ChecksumFits(s: seq<byte>)
    ensures Checksum(s) < Limit(4)
  {
    WordFits(Crc32.Crc(Bits(s)));
    Limits();
  }

  lemma WordFits(w: bv32)
    ensures w as int < 0x1_0000_0000
  {
  }

  method ComputeChecksum(buffer: seq<byte>) returns (crc: nat)
    ensures crc == Checksum(buffer)
  {
    hide Crc32.Crc;
    var data := new bv8[|buffer|](i requires 0 <= i < |buffer| => buffer[i] as bv8);
    assert data[..|buffer|] == Bits(buffer);
    var word := Crc32.ComputeCrc32(data, |buffer|);
    crc := word as int;
  }

  // ---------------------------------------------------------------- structures

  function Units(name: seq<nat>): (s: seq<byte>)
    ensures |s| == 2 * |name|
  {
    if name == [] then [] else Le(2, name[0]) + Units(name[1..])
  }

  /** The part of a name that an entry has room for. */
  function Shown(name: seq<nat>): (shown: seq<nat>)
    ensures |shown| <= 32
  {
    if |name| < 32 then name else name[..32]
  }

  /** The name field: at most 32 characters in 72 bytes. */
  function NameField(name: seq<nat>): (s: seq<byte>)
    ensures |s| == 72
  {
    Units(Shown(name)) + Zeros(72 - 2 * |Shown(name)|)
  }

  function EntryBytes(p: Partition): (s: seq<byte>)
    ensures |s| == ENTRY_SIZE
  {
    p.kind + p.id + Le(8, p.extent.first) + Le(8, p.extent.last) + Le(8, 1) + NameField(p.name)
  }

  /** The partition table: one entry at the start of each stride, zero bytes otherwise. */
  ghost predicate IsTable(table: seq<byte>, partitions: seq<Partition>) {
    && |table| == ENTRY_STRIDE * |partitions|
    && (forall i :: 0 <= i < |partitions| ==> EntryAt(table, i) == EntryBytes(partitions[i]))
    && ZeroBetween(table)
  }

  /** The bytes of each stride behind its entry are zero. */
  ghost predicate ZeroBetween(table: seq<byte>) {
    forall b :: 0 <= b < |table| && b % ENTRY_STRIDE >= ENTRY_SIZE ==> table[b] == 0
  }

  function EntryAt(table: seq<byte>, i: nat): seq<byte> {
    if ENTRY_STRIDE * i + ENTRY_SIZE <= |table| then table[ENTRY_STRIDE * i..ENTRY_STRIDE * i + ENTRY_SIZE] else []
  }

  datatype Header = Header(
    crc: nat, myLba: nat, alternateLba: nat, firstUsable: nat, lastUsable: nat, diskId: Guid,
    entryLba: nat, entryCount: nat, arrayCrc: nat)

  function HeaderBytes(h: Header): (s: seq<byte>)
    ensures |s| == HEADER_SIZE
  {
    Le(8, SIGNATURE) + Le(4, REVISION) + Le(4, SECTOR_SIZE) + Le(4, h.crc) + Zeros(4)
    + Le(8, h.myLba) + Le(8, h.alternateLba) + Le(8, h.firstUsable) + Le(8, h.lastUsable) + h.diskId
    + Le(8, h.entryLba) + Le(4, h.entryCount) + Le(4, ENTRY_STRIDE) + Le(4, h.arrayCrc)
  }

  /** A header in a sector of its own. */
  function HeaderSector(h: Header): (s: seq<byte>)
    ensures |s| == SECTOR_SIZE
  {
    HeaderBytes(h) + Zeros(SECTOR_SIZE - HEADER_SIZE)
  }

  function ProtectiveMbr(): (s: seq<byte>)
    ensures |s| == SECTOR_SIZE
  {
    Zeros(446) + [0, 0, 2, 0, 0xEE, 0xFF, 0xFF, 0xFF, 1, 0, 0, 0, 0xFF, 0xFF, 0xFF, 0xFF] + Zeros(48) + [0x55, 0xAA]
  }

  // ---------------------------------------------------------------- the output file

  /** A file's bytes after writing at a position; a gap before it reads as zero. */
  function Overwritten(file: seq<byte>, at: nat, bytes: seq<byte>): (file': seq<byte>) {
    var long := if |file| < at + |bytes| then file + Zeros(at + |bytes| - |file|) else file;
    Splice(long, at, bytes)
  }

  class Stream {
    var file: seq<byte>
    var cursor: nat

    constructor ()
      ensures file == [] && cursor == 0
    {
      file, cursor := [], 0;
    }

    method Seek(position: nat)
      modifies this
      ensures cursor == position && file == old(file)
    {
      cursor := position;
    }

    method Write(bytes: seq<byte>)
      modifies this
      ensures file == Overwritten(old(file), old(cursor), bytes) && cursor == old(cursor) + |bytes|
    {
      if |file| < cursor + |bytes| {
        file := file + Zeros(cursor + |bytes| - |file|);
      }
      file := file[..cursor] + bytes + file[cursor + |bytes|..];
      cursor := cursor + |bytes|;
    }
  }

  /** The bytes of a file from a position on; what lies behind the end is zero. */
  function Region(file: seq<byte>, at: nat, length: nat): (s: seq<byte>)
    ensures |s| == length
  {
    seq(length, i requires 0 <= i < length => if at + i < |file| then file[at + i] else 0)
  }

  lemma RegionWritten(file: seq<byte>, at: nat, bytes: seq<byte>)
    ensures Region(Overwritten(file, at, bytes), at, |bytes|) == bytes
  {
  }

  lemma RegionKept(file: seq<byte>, at: nat, bytes: seq<byte>, from: nat, length: nat)
    requires from + length <= at || at + |bytes| <= from
    ensures Region(Overwritten(file, at, bytes), from, length) == Region(file, from, length)
  {
  }

  // ---------------------------------------------------------------- planning and writing

  datatype Request = Request(kind: Guid, id: Guid, lbaCount: nat, name: seq<nat>)

  function SizesOf(requests: seq<Request>): (sizes: seq<nat>)
    ensures |sizes| == |requests|
  {
    seq(|requests|, i requires 0 <= i < |requests| => requests[i].lbaCount)
  }

  predicate Plannable(requests: seq<Request>) {
    && (forall i :: 0 <= i < |requests| ==> requests[i].lbaCount >= 1)
    && FitsDisk(SizesOf(requests))
  }

  /** The partitions with the places the layout gives them. */
  function Planned(requests: seq<Request>): (partitions: seq<Partition>)
    requires forall i :: 0 <= i < |requests| ==> requests[i].lbaCount >= 1
    ensures |partitions| == |requests|
  {
    seq(|requests|, i requires 0 <= i < |requests| =>
      Partition(requests[i].kind, requests[i].id, requests[i].lbaCount, LayoutOf(SizesOf(requests)).extents[i],
        requests[i].name))
  }

  class Disk {
    const os: Stream
    const diskId: Guid
    var partitions: seq<Partition>
    var layout: Layout
    var diskCreated: bool

    constructor (diskId: Guid)
      ensures fresh(os) && os.file == [] && os.cursor == 0 && this.diskId == diskId
      ensures partitions == [] && !diskCreated
    {
      var stream := new Stream();
      os, this.diskId, partitions, diskCreated := stream, diskId, [], false;
      layout := Layout(0, 0, 0, [], 0, 0, 0, 0);
    }

    /** Place the partitions one after the other; positions are 64-bit numbers. */
    method ConfigureDisk(requests: seq<Request>)
      requires partitions == [] && Plannable(requests)
      modifies this`partitions, this`layout, os
      ensures layout == LayoutOf(SizesOf(requests)) && partitions == Planned(requests)
      ensures os.cursor == 0 && os.file == old(os.file)
    {
      hide TableSectors, Wrap, PartitionStart, FitsDisk, LayoutOf, Planned;
      ghost var sizes := SizesOf(requests);
      PlaceFirst(sizes);
      var n := |requests|;
      var firstUsable := Wrap(2 + ENTRY_STRIDE * n / 512 + 1);
      var currentLba := firstUsable;
      var extents: seq<Extent> := [];
      for i := 0 to n
        invariant currentLba == PartitionStart(sizes, i) && os.file == old(os.file)
        invariant extents == LayoutOf(sizes).extents[..i] && partitions == Planned(requests)[..i]
      {
        PlaceOne(requests, i);
        var first := currentLba;
        currentLba := Wrap(currentLba + requests[i].lbaCount - 1);
        var extent := Extent(first, currentLba);
        extents := extents + [extent];
        partitions :=
          partitions + [Partition(requests[i].kind, requests[i].id, requests[i].lbaCount, extent, requests[i].name)];
        currentLba := Wrap(currentLba + 2);
      }
      PlaceTables(sizes);
      var lastUsable := currentLba;
      var backupTable := Wrap(lastUsable + 1);
      var secondaryHeader := Wrap(backupTable + ENTRY_STRIDE * n / 512);
      var last := Wrap(secondaryHeader + 2);
      layout := Layout(1, 2, firstUsable, extents, lastUsable, backupTable, secondaryHeader,
        Wrap((last - 1) * SECTOR_SIZE));
      os.Seek(0);
    }

    /** The partition table as bytes. */
    method GeneratePartitionTable() returns (table: seq<byte>)
      ensures IsTable(table, partitions)
    {
      hide EntryBytes, ZeroBetween, EntryAt;
      var bufferLength := ENTRY_STRIDE * |partitions|;
      var buffer := new byte[bufferLength](_ => 0);
      AllZeroBetween(buffer[..]);
      var index := 0;
      for i := 0 to |partitions|
        invariant index == ENTRY_STRIDE * i && buffer.Length == bufferLength
        invariant forall k :: 0 <= k < i ==> EntryAt(buffer[..], k) == EntryBytes(partitions[k])
        invariant ZeroBetween(buffer[..])
      {
        ghost var before := buffer[..];
        CopyBytes(buffer, index, EntryBytes(partitions[i]));
        EntriesAfterCopy(before, i, EntryBytes(partitions[i]));
        ZeroAfterCopy(before, i, EntryBytes(partitions[i]));
        index := index + ENTRY_STRIDE;
      }
      table := buffer[..];
    }

    /** The header with both checksums still zero. */
    method InitialHeader() returns (header: Header)
      ensures header == PrimaryHeader(layout, |partitions|, diskId, 0, 0)
    {
      header := Header(0, layout.primaryHeader, layout.secondaryHeader, layout.firstUsable, layout.lastUsable,
        diskId, layout.partitionTable, |partitions|, 0);
    }

    /** Write every structure to an empty file. */
    method CreateDisk()
      requires AreasOk(layout, |partitions|) && layout.primaryHeader == 1 && layout.partitionTable == 2
      requires os.file == [] && os.cursor == 0
      modifies this`diskCreated, os
      ensures OnDisk(os.file, layout, partitions, diskId)
      ensures diskCreated && os.cursor == layout.secondaryHeader * SECTOR_SIZE + HEADER_SIZE
      ensures IsZero(os.file, layout.firstUsable, layout.lastUsable)
    {
      hide HeaderBytes, ProtectiveMbr, Region, Overwritten, IsTable, AreasOk, Checksum, Cut, IsZero;
      os.Write(ProtectiveMbr());
      var table := GeneratePartitionTable();
      TableLength(table, partitions);
      var arrayCrc := ComputeChecksum(Cut(table));
      var header := InitialHeader();
      header := header.(arrayCrc := arrayCrc);
      var headerCrc := ComputeChecksum(HeaderSector(header));
      header := header.(crc := headerCrc);
      os.Write(HeaderBytes(header));
      os.Seek(layout.partitionTable * SECTOR_SIZE);
      os.Write(table);
      os.Seek(layout.backupTable * SECTOR_SIZE);
      os.Write(table);
      var secondary := header.(myLba := layout.secondaryHeader, alternateLba := layout.primaryHeader, crc := 0);
      headerCrc := ComputeChecksum(HeaderSector(secondary));
      AreasAreApart(layout, |partitions|);
      WritesLand(ProtectiveMbr(), HeaderBytes(header), table, HeaderBytes(secondary), layout, |partitions|);
      NothingBetween(ProtectiveMbr(), HeaderBytes(header), table, HeaderBytes(secondary), layout, |partitions|);
      os.Write(HeaderBytes(secondary));
      diskCreated := true;
      assert TableOnDisk(os.file, layout, partitions, diskId, table);
    }

    /** The first partition with a name, once the disk is written. */
    method GetPartition(name: seq<nat>) returns (partition: Option<Partition>)
      ensures var i := IndexOfName(partitions, name);
        partition == if diskCreated && i < |partitions| then Some(partitions[i]) else None
    {
      if !diskCreated {
        return None;
      }
      for i := 0 to |partitions|
        invariant forall j :: 0 <= j < i ==> partitions[j].name != name
      {
        if partitions[i].name == name {
          FirstOfName(partitions, name, i);
          return Some(partitions[i]);
        }
      }
      partition := None;
    }
  }

  function PrimaryHeader(l: Layout, n: nat, diskId: Guid, crc: nat, arrayCrc: nat): Header {
    Header(crc, l.primaryHeader, l.secondaryHeader, l.firstUsable, l.lastUsable, diskId, l.partitionTable, n, arrayCrc)
  }

  /** The file after the five writes of a disk. */
  function FileOf(mbr: seq<byte>, header: seq<byte>, table: seq<byte>, secondary: seq<byte>, l: Layout): seq<byte> {
    var f1 := Overwritten([], 0, mbr);
    var f2 := Overwritten(f1, |mbr|, header);
    var f3 := Overwritten(f2, l.partitionTable * SECTOR_SIZE, table);
    var f4 := Overwritten(f3, l.backupTable * SECTOR_SIZE, table);
    Overwritten(f4, l.backupTable * SECTOR_SIZE + |table|, secondary)
  }

  lemma TableLength(table: seq<byte>, partitions: seq<Partition>)
    requires IsTable(table, partitions)
    ensures |table| == ENTRY_STRIDE * |partitions|
  {
  }

  lemma AreasAreApart(l: Layout, n: nat)
    requires AreasOk(l, n) && l.partitionTable == 2
    ensures 2 * SECTOR_SIZE + ENTRY_STRIDE * n < l.backupTable * SECTOR_SIZE
    ensures l.backupTable * SECTOR_SIZE + ENTRY_STRIDE * n == l.secondaryHeader * SECTOR_SIZE
  {
    assert TableSectors(n) == 64 * n;
  }

  /** Where the structures lie on the file, each at its planned sector. */
  ghost predicate Placed(file: seq<byte>, l: Layout, mbr: seq<byte>, header: seq<byte>, table: seq<byte>,
    secondary: seq<byte>)
    requires |header| <= SECTOR_SIZE && |secondary| <= SECTOR_SIZE
  {
    && Region(file, 0, |mbr|) == mbr
    && Region(file, l.primaryHeader * SECTOR_SIZE, SECTOR_SIZE) == header + Zeros(SECTOR_SIZE - |header|)
    && Region(file, l.partitionTable * SECTOR_SIZE, |table|) == table
    && Region(file, l.backupTable * SECTOR_SIZE, |table|) == table
    && Region(file, l.secondaryHeader * SECTOR_SIZE, SECTOR_SIZE) == secondary + Zeros(SECTOR_SIZE - |secondary|)
  }

  /** The finished disk: a table of the partitions, and headers with the checksums of that table. */
  ghost predicate OnDisk(file: seq<byte>, l: Layout, partitions: seq<Partition>, diskId: Guid) {
    exists table: seq<byte> :: TableOnDisk(file, l, partitions, diskId, table)
  }

  ghost predicate TableOnDisk(file: seq<byte>, l: Layout, partitions: seq<Partition>, diskId: Guid, table: seq<byte>) {
    && IsTable(table, partitions)
    && var n, arrayCrc := |partitions|, Checksum(Cut(table));
       var primary :=
         PrimaryHeader(l, n, diskId, Checksum(HeaderSector(PrimaryHeader(l, n, diskId, 0, arrayCrc))), arrayCrc);
       var secondary := primary.(myLba := l.secondaryHeader, alternateLba := l.primaryHeader, crc := 0);
       Placed(file, l, ProtectiveMbr(), HeaderBytes(primary), table, HeaderBytes(secondary))
  }

  /** The position of the first partition with a name, or the number of partitions. */
  function IndexOfName(partitions: seq<Partition>, name: seq<nat>): (i: nat)
    ensures i <= |partitions|
    ensures i < |partitions| ==> partitions[i].name == name
    ensures forall j :: 0 <= j < i ==> partitions[j].name != name
  {
    if partitions == [] || partitions[0].name == name then 0 else 1 + IndexOfName(partitions[1..], name)
  }

  lemma FirstOfName(partitions: seq<Partition>, name: seq<nat>, i: nat)
    requires i < |partitions| && partitions[i].name == name && forall j :: 0 <= j < i ==> partitions[j].name != name
    ensures IndexOfName(partitions, name) == i
  {
  }

  // ---------------------------------------------------------------- the usable area

  /** Sectors that hold zero bytes only. */
  ghost predicate IsZero(file: seq<byte>, first: nat, last: nat) {
    forall b :: first * SECTOR_SIZE <= b < (last + 1) * SECTOR_SIZE && b < |file| ==> file[b] == 0
  }

  /** Nothing is written between the tables. */
  lemma NothingBetween(mbr: seq<byte>, header: seq<byte>, table: seq<byte>, secondary: seq<byte>, l: Layout, n: nat)
    requires |mbr| == SECTOR_SIZE && |header| == HEADER_SIZE && |table| == ENTRY_STRIDE * n
    requires AreasOk(l, n) && l.partitionTable == 2
    ensures IsZero(FileOf(mbr, header, table, secondary, l), l.firstUsable, l.lastUsable)
  {
    hide Overwritten;
    assert TableSectors(n) == 64 * n;
    var f2 := Overwritten(Overwritten([], 0, mbr), |mbr|, header);
    var f3 := Overwritten(f2, 2 * SECTOR_SIZE, table);
    var backup := l.backupTable * SECTOR_SIZE;
    ShortFile(mbr, header, table);
    ZeroGap(f3, backup, table, l.firstUsable * SECTOR_SIZE);
    ZeroGapKept(Overwritten(f3, backup, table), backup + |table|, secondary, l.firstUsable * SECTOR_SIZE, backup);
  }

  lemma ShortFile(mbr: seq<byte>, header: seq<byte>, table: seq<byte>)
    requires |mbr| == SECTOR_SIZE && |header| == HEADER_SIZE
    ensures |Overwritten(Overwritten(Overwritten([], 0, mbr), |mbr|, header), 2 * SECTOR_SIZE, table)|
      <= 2 * SECTOR_SIZE + |table|
  {
  }

  lemma ZeroGap(file: seq<byte>, at: nat, bytes: seq<byte>, from: nat)
    requires |file| <= from
    ensures var file' := Overwritten(file, at, bytes); forall b :: from <= b < at && b < |file'| ==> file'[b] == 0
  {
  }

  lemma ZeroGapKept(file: seq<byte>, at: nat, bytes: seq<byte>, from: nat, to: nat)
    requires to <= at && forall b :: from <= b < to && b < |file| ==> file[b] == 0
    ensures var file' := Overwritten(file, at, bytes); forall b :: from <= b < to && b < |file'| ==> file'[b] == 0
  {
  }

  lemma WrapIs(x: nat)
    ensures x < LBA_LIMIT ==> Wrap(x) == x
  {
  }

  /** No position overflows before the end of the plan. */
  lemma StartFits(sizes: seq<nat>, i: nat)
    requires i <= |sizes| && FitsDisk(sizes)
    ensures FirstUsable(|sizes|) <= PartitionStart(sizes, i) <= PartitionStart(sizes, |sizes|)
    ensures i < |sizes| ==>
      PartitionStart(sizes, i + 1) == PartitionStart(sizes, i) + sizes[i] + 1 <= PartitionStart(sizes, |sizes|)
    ensures (PartitionStart(sizes, |sizes|) + 1 + TableSectors(|sizes|) + 1) * SECTOR_SIZE < LBA_LIMIT
  {
    hide TableSectors;
    SectorsAll(sizes);
  }

  lemma PlaceFirst(sizes: seq<nat>)
    requires FitsDisk(sizes)
    ensures Wrap(2 + ENTRY_STRIDE * |sizes| / 512 + 1) == PartitionStart(sizes, 0)
  {
    hide Wrap;
    StartFits(sizes, 0);
    WrapIs(2 + ENTRY_STRIDE * |sizes| / 512 + 1);
  }

  /** One partition of the plan. */
  lemma PlaceOne(requests: seq<Request>, i: nat)
    requires i < |requests| && Plannable(requests)
    ensures var sizes, r := SizesOf(requests), requests[i];
      var first, last := PartitionStart(sizes, i), PartitionStart(sizes, i) + r.lbaCount - 1;
      && Wrap(first + r.lbaCount - 1) == last && Wrap(last + 2) == PartitionStart(sizes, i + 1)
      && LayoutOf(sizes).extents[..i + 1] == LayoutOf(sizes).extents[..i] + [Extent(first, last)]
      && Planned(requests)[..i + 1]
        == Planned(requests)[..i] + [Partition(r.kind, r.id, r.lbaCount, Extent(first, last), r.name)]
  {
    hide Wrap, TableSectors, PartitionStart;
    var sizes := SizesOf(requests);
    StartFits(sizes, i);
    WrapIs(PartitionStart(sizes, i) + sizes[i] - 1);
    WrapIs(PartitionStart(sizes, i) + sizes[i] + 1);
  }

  lemma PlaceTables(sizes: seq<nat>)
    requires FitsDisk(sizes) && forall i :: 0 <= i < |sizes| ==> sizes[i] >= 1
    ensures var l, lastUsable := LayoutOf(sizes), PartitionStart(sizes, |sizes|);
      var backup := Wrap(lastUsable + 1);
      var secondary := Wrap(backup + ENTRY_STRIDE * |sizes| / 512);
      var last := Wrap(secondary + 2);
      && l.extents[..|sizes|] == l.extents && last >= 1
      && l == Layout(1, 2, PartitionStart(sizes, 0), l.extents, lastUsable, backup, secondary,
        Wrap((last - 1) * SECTOR_SIZE))
  {
    hide Wrap;
    var lastUsable := PartitionStart(sizes, |sizes|);
    StartFits(sizes, |sizes|);
    WrapIs(lastUsable + 1);
    WrapIs(lastUsable + 1 + TableSectors(|sizes|));
    WrapIs(lastUsable + 1 + TableSectors(|sizes|) + 2);
    WrapIs((lastUsable + 1 + TableSectors(|sizes|) + 1) * SECTOR_SIZE);
  }

  lemma AllZeroBetween(table: seq<byte>)
    requires forall b :: 0 <= b < |table| ==> table[b] == 0
    ensures ZeroBetween(table)
  {
  }

  /** Copying an entry to its stride writes nothing between the entries. */
  lemma ZeroAfterCopy(table: seq<byte>, i: nat, entry: seq<byte>)
    requires ZeroBetween(table) && |entry| == ENTRY_SIZE && ENTRY_STRIDE * i + ENTRY_SIZE <= |table|
    ensures ZeroBetween(Splice(table, ENTRY_STRIDE * i, entry))
  {
    var table' := Splice(table, ENTRY_STRIDE * i, entry);
    forall b | 0 <= b < |table'| && b % ENTRY_STRIDE >= ENTRY_SIZE
      ensures table'[b] == 0
    {
      InsideStride(b, i);
      assert table'[b] == table[b];
    }
  }

  lemma InsideStride(b: nat, i: nat)
    ensures ENTRY_STRIDE * i <= b < ENTRY_STRIDE * i + ENTRY_SIZE ==> b % ENTRY_STRIDE < ENTRY_SIZE
  {
  }

  /** Copying an entry to its stride leaves the others. */
  lemma EntriesAfterCopy(table: seq<byte>, i: nat, entry: seq<byte>)
    requires |entry| == ENTRY_SIZE && ENTRY_STRIDE * i + ENTRY_SIZE <= |table|
    ensures var table' := Splice(table, ENTRY_STRIDE * i, entry);
      EntryAt(table', i) == entry && forall k: nat :: k != i ==> EntryAt(table', k) == EntryAt(table, k)
  {
    var table' := Splice(table, ENTRY_STRIDE * i, entry);
    forall k: nat | k != i
      ensures EntryAt(table', k) == EntryAt(table, k)
    {
    }
  }

  /** Writes that do not overlap all land. */
  lemma WritesLand(mbr: seq<byte>, header: seq<byte>, table: seq<byte>, secondary: seq<byte>, l: Layout, n: nat)
    requires |mbr| == SECTOR_SIZE && |header| == |secondary| == HEADER_SIZE && |table| == ENTRY_STRIDE * n
    requires l.primaryHeader == 1 && l.partitionTable == 2
    requires 2 * SECTOR_SIZE + |table| < l.backupTable * SECTOR_SIZE
    requires l.backupTable * SECTOR_SIZE + |table| == l.secondaryHeader * SECTOR_SIZE
    ensures Placed(FileOf(mbr, header, table, secondary, l), l, mbr, header, table, secondary)
  {
    hide Region, Overwritten;
    var f1 := Overwritten([], 0, mbr);
    var f2 := Overwritten(f1, SECTOR_SIZE, header);
    var f3 := Overwritten(f2, 2 * SECTOR_SIZE, table);
    var backup := l.backupTable * SECTOR_SIZE;
    var f4 := Overwritten(f3, backup, table);
    var f5 := Overwritten(f4, backup + |table|, secondary);
    RegionWritten([], 0, mbr);
    HeaderRegion(f1, mbr, header);
    RegionWritten(f2, 2 * SECTOR_SIZE, table);
    RegionWritten(f3, backup, table);
    ShortFile(mbr, header, table);
    LastHeaderRegion(f3, backup, table, secondary);
    RegionKept(f1, SECTOR_SIZE, header, 0, SECTOR_SIZE);
    LaterWrites(f2, f3, f4, f5, table, secondary, backup, 0, SECTOR_SIZE);
    LaterWrites(f2, f3, f4, f5, table, secondary, backup, SECTOR_SIZE, SECTOR_SIZE);
    RegionKept(f3, backup, table, 2 * SECTOR_SIZE, |table|);
    RegionKept(f4, backup + |table|, secondary, 2 * SECTOR_SIZE, |table|);
    RegionKept(f4, backup + |table|, secondary, backup, |table|);
  }

  lemma HeaderRegion(f1: seq<byte>, mbr: seq<byte>, header: seq<byte>)
    requires |mbr| == SECTOR_SIZE && |header| == HEADER_SIZE && f1 == Overwritten([], 0, mbr)
    ensures Region(Overwritten(f1, SECTOR_SIZE, header), SECTOR_SIZE, SECTOR_SIZE)
      == header + Zeros(SECTOR_SIZE - |header|)
  {
  }

  /** Behind the header at the end of the file there is nothing. */
  lemma LastHeaderRegion(f3: seq<byte>, backup: nat, table: seq<byte>, header: seq<byte>)
    requires |header| == HEADER_SIZE && |f3| <= backup + |table|
    ensures Region(Overwritten(Overwritten(f3, backup, table), backup + |table|, header), backup + |table|, SECTOR_SIZE)
      == header + Zeros(SECTOR_SIZE - |header|)
  {
  }

  /** The first two sectors survive the writes behind them. */
  lemma LaterWrites(f2: seq<byte>, f3: seq<byte>, f4: seq<byte>, f5: seq<byte>, table: seq<byte>, secondary: seq<byte>,
    backup: nat, from: nat, length: nat)
    requires f3 == Overwritten(f2, 2 * SECTOR_SIZE, table) && f4 == Overwritten(f3, backup, table)
    requires f5 == Overwritten(f4, backup + |table|, secondary)
    requires from + length <= 2 * SECTOR_SIZE <= backup
    ensures Region(f5, from, length) == Region(f2, from, length)
  {
    hide Region, Overwritten;
    RegionKept(f2, 2 * SECTOR_SIZE, table, from, length);
    RegionKept(f3, backup, table, from, length);
    RegionKept(f4, backup + |table|, secondary, from, length);
  }
}
