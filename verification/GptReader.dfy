/**
 * An independent reader of GPT disks, written from the UEFI Specification: it recognises the
 * protective MBR (section 5.2.3), checks both checksums of a header, and reads partition entries at
 * the stride the header declares (section 5.3).
 */
module GptReader {
  import opened Bytes
  import opened GptLayout
  import opened GptDisk

  /** From here on the table is longer than the checksum routine's 32-bit length can say. */
  const MAX_PARTITIONS := 0x2_0000

  function Sector(file: seq<byte>, lba: nat): (s: seq<byte>)
    ensures |s| == SECTOR_SIZE
  {
    Region(file, lba * 512, 512)
  }

  /** The record of a partition in a boot sector's table: all bytes zero if there is none. */
  function MbrRecord(s: seq<byte>, i: nat): (record: seq<byte>)
    requires |s| == 512 && i < 4
    ensures |record| == 16
  {
    s[446 + 16 * i..446 + 16 * i + 16]
  }

  /**
   * Sector 0 protects the disk from tools that do not know GPT: one record of type 0xEE that
   * starts at sector 1 (head 0, track 0, sector 2) and claims the largest size, and no other one.
   */
  predicate IsProtective(file: seq<byte>) {
    var s := Sector(file, 0);
    var record := MbrRecord(s, 0);
    && s[510] == 0x55 && s[511] == 0xAA
    && record[..4] == [0, 0, 2, 0] && record[4] == 0xEE && record[5..8] == [0xFF, 0xFF, 0xFF]
    && Field(record, 8, 4) == 1 && Field(record, 12, 4) == 0xFFFF_FFFF
    && forall i :: 1 <= i < 4 ==> MbrRecord(s, i) == Zeros(16)
  }

  /** The entry array that a header describes. */
  function EntryArray(file: seq<byte>, header: seq<byte>): seq<byte>
    requires |header| == SECTOR_SIZE
  {
    Region(file, Field(header, 72, 8) * 512, Field(header, 80, 4) * Field(header, 84, 4))
  }

  /** Signature, position and both checksums of a header are right. */
  predicate HeaderChecks(file: seq<byte>, lba: nat) {
    var s := Sector(file, lba);
    var size := Field(s, 12, 4);
    && Field(s, 0, 8) == 0x5452_4150_2049_4645 && Field(s, 8, 4) == 0x1_0000
    && 92 <= size <= 512
    && Field(s, 24, 8) == lba
    && Field(s, 16, 4) == Checksum(s[..16] + Zeros(4) + s[20..size])
    && Field(s, 88, 4) == Checksum(EntryArray(file, s))
  }

  /** The characters of a name up to its terminator. */
  function ReadName(s: seq<byte>): seq<nat> {
    if |s| < 2 || FromLe(s[..2]) == 0 then [] else [FromLe(s[..2])] + ReadName(s[2..])
  }

  /** What an entry says about a partition. */
  datatype Description = Description(
    kind: seq<byte>, id: seq<byte>, extent: Extent, attributes: nat, name: seq<nat>)

  function ReadEntry(entry: seq<byte>): Description
    requires |entry| == 128
  {
    Description(entry[..16], entry[16..32], Extent(Field(entry, 32, 8), Field(entry, 40, 8)), Field(entry, 48, 8),
      ReadName(entry[56..]))
  }

  /** The i-th entry of the array that the header at `lba` describes. */
  function ReadPartition(file: seq<byte>, lba: nat, i: nat): Description {
    var s := Sector(file, lba);
    ReadEntry(Region(file, Field(s, 72, 8) * 512 + i * Field(s, 84, 4), 128))
  }

  // ---------------------------------------------------------------- reading back the fields

  /** Whether the numbers in a header fit their fields. */
  predicate FieldsFit(h: Header) {
    && h.crc < Limit(4) && h.myLba < Limit(8) && h.alternateLba < Limit(8) && h.firstUsable < Limit(8)
    && h.lastUsable < Limit(8) && h.entryLba < Limit(8) && h.entryCount < Limit(4) && h.arrayCrc < Limit(4)
  }

  /** The start of a header, up to the disk identifier. */
  function HeaderFront(h: Header): (s: seq<byte>)
    ensures |s| == 56
  {
    Le(8, SIGNATURE) + Le(4, REVISION) + Le(4, SECTOR_SIZE) + Le(4, h.crc) + Zeros(4)
    + Le(8, h.myLba) + Le(8, h.alternateLba) + Le(8, h.firstUsable) + Le(8, h.lastUsable)
  }

  function HeaderBack(h: Header): (s: seq<byte>)
    ensures |s| == 20
  {
    Le(8, h.entryLba) + Le(4, h.entryCount) + Le(4, ENTRY_STRIDE) + Le(4, h.arrayCrc)
  }

  lemma HeaderParts(h: Header)
    ensures HeaderSector(h) == HeaderFront(h) + h.diskId + HeaderBack(h) + Zeros(420)
  {
    hide Le;
  }

  lemma FrontFields(h: Header)
    requires FieldsFit(h)
    ensures var s := HeaderFront(h);
      && Field(s, 0, 8) == 0x5452_4150_2049_4645 && Field(s, 8, 4) == 0x1_0000 && Field(s, 12, 4) == 512
      && Field(s, 16, 4) == h.crc && s[20..24] == Zeros(4)
      && Field(s, 24, 8) == h.myLba && Field(s, 32, 8) == h.alternateLba
      && Field(s, 40, 8) == h.firstUsable && Field(s, 48, 8) == h.lastUsable
  {
    hide Le, Limit;
    Limits();
    var s := HeaderFront(h);
    ConstantsFit();
    FieldInside(s, 0, 8, SIGNATURE);
    FieldInside(s, 8, 4, REVISION);
    FieldInside(s, 12, 4, SECTOR_SIZE);
    FieldInside(s, 16, 4, h.crc);
    FieldInside(s, 24, 8, h.myLba);
    FieldInside(s, 32, 8, h.alternateLba);
    FieldInside(s, 40, 8, h.firstUsable);
    FieldInside(s, 48, 8, h.lastUsable);
  }

  lemma ConstantsFit()
    ensures SIGNATURE < LBA_LIMIT && REVISION < 0x1_0000_0000
  {
  }

  lemma BackFields(h: Header)
    requires FieldsFit(h)
    ensures var s := HeaderBack(h);
      && Field(s, 0, 8) == h.entryLba && Field(s, 8, 4) == h.entryCount && Field(s, 12, 4) == 32768
      && Field(s, 16, 4) == h.arrayCrc
  {
    hide Le, Limit;
    Limits();
    var s := HeaderBack(h);
    FieldInside(s, 0, 8, h.entryLba);
    FieldInside(s, 8, 4, h.entryCount);
    FieldInside(s, 12, 4, ENTRY_STRIDE);
    FieldInside(s, 16, 4, h.arrayCrc);
  }

  /** Every field of a header sector reads back. */
  lemma HeaderFields(h: Header)
    requires FieldsFit(h)
    ensures var s := HeaderSector(h);
      && Field(s, 0, 8) == 0x5452_4150_2049_4645 && Field(s, 8, 4) == 0x1_0000 && Field(s, 12, 4) == 512
      && Field(s, 16, 4) == h.crc && s[20..24] == Zeros(4)
      && Field(s, 24, 8) == h.myLba && Field(s, 32, 8) == h.alternateLba
      && Field(s, 40, 8) == h.firstUsable && Field(s, 48, 8) == h.lastUsable
      && s[56..72] == h.diskId
      && Field(s, 72, 8) == h.entryLba && Field(s, 80, 4) == h.entryCount && Field(s, 84, 4) == 32768
      && Field(s, 88, 4) == h.arrayCrc && s[92..] == Zeros(420)
  {
    hide HeaderSector, HeaderFront, HeaderBack, Field, FieldsFit;
    HeaderParts(h);
    FrontFields(h);
    BackFields(h);
    var s, front, back := HeaderSector(h), HeaderFront(h), HeaderBack(h);
    var rest, start := h.diskId + back + Zeros(420), front + h.diskId;
    assert s == [] + front + rest && s == start + back + Zeros(420);
    assert s[56..72] == h.diskId && s[20..24] == front[20..24] && s[92..] == Zeros(420);
    FieldOfPart(s, [], front, rest, 0, 8);
    FieldOfPart(s, [], front, rest, 8, 4);
    FieldOfPart(s, [], front, rest, 12, 4);
    FieldOfPart(s, [], front, rest, 16, 4);
    FieldOfPart(s, [], front, rest, 24, 8);
    FieldOfPart(s, [], front, rest, 32, 8);
    FieldOfPart(s, [], front, rest, 40, 8);
    FieldOfPart(s, [], front, rest, 48, 8);
    FieldOfPart(s, start, back, Zeros(420), 0, 8);
    FieldOfPart(s, start, back, Zeros(420), 8, 4);
    FieldOfPart(s, start, back, Zeros(420), 12, 4);
    FieldOfPart(s, start, back, Zeros(420), 16, 4);
  }

  /** Clearing the checksum field of a header sector gives the sector without checksum. */
  lemma ClearedChecksum(h: Header)
    ensures var s := HeaderSector(h); s[..16] + Zeros(4) + s[20..SECTOR_SIZE] == HeaderSector(h.(crc := 0))
  {
    hide Le;
    ZeroWord();
    var s := HeaderSector(h);
    assert s[16..20] == Le(4, h.crc);
  }

  lemma ZeroWord()
    ensures Le(4, 0) == Zeros(4)
  {
    assert Le(1, 0) == [0] && Le(2, 0) == [0, 0] && Le(3, 0) == [0, 0, 0];
  }

  // ---------------------------------------------------------------- entries

  /** Names are 16-bit characters other than the terminator. */
  predicate IsName(name: seq<nat>) {
    forall i :: 0 <= i < |name| ==> 0 < name[i] < 0x1_0000
  }

  lemma {:induction false} NameReadsBack(name: seq<nat>, zeros: nat)
    requires IsName(name) && zeros >= 2
    ensures ReadName(Units(name) + Zeros(zeros)) == name
    decreases |name|
  {
    hide Units, ReadName, Le;
    UnitsStep(name, zeros);
    if name != [] {
      NameReadsBack(name[1..], zeros);
    }
  }

  /** Reading one character, or the terminator. */
  lemma UnitsStep(name: seq<nat>, zeros: nat)
    requires IsName(name) && zeros >= 2
    ensures var whole := Units(name) + Zeros(zeros);
      ReadName(whole) == if name == [] then [] else [name[0]] + ReadName(Units(name[1..]) + Zeros(zeros))
  {
    hide Le, FromLe;
    var whole := Units(name) + Zeros(zeros);
    if name == [] {
      assert whole[..2] == [0, 0];
      NoUnit();
    } else {
      assert whole[..2] == Le(2, name[0]);
      assert whole[2..] == Units(name[1..]) + Zeros(zeros);
      Limits();
      LeRoundTrip(2, name[0]);
    }
  }

  lemma NoUnit()
    ensures FromLe([0, 0]) == 0
  {
    assert [0, 0][1..] == [0] && [0][1..] == [];
    assert FromLe([0]) == 0;
  }

  /** What an entry should say: the first 32 characters of the name, and that the partition is required. */
  function Describe(p: Partition): Description {
    Description(p.kind, p.id, p.extent, 1, if |p.name| <= 32 then p.name else p.name[..32])
  }

  lemma EntryFields(p: Partition)
    requires p.extent.first < Limit(8) && p.extent.last < Limit(8) && IsName(p.name)
    ensures ReadEntry(EntryBytes(p)) == Describe(p)
  {
    hide Le, NameField, Limit, ReadName;
    var e := EntryBytes(p);
    FieldInside(e, 32, 8, p.extent.first);
    FieldInside(e, 40, 8, p.extent.last);
    Limits();
    FieldInside(e, 48, 8, 1);
    NameFieldReads(p.name);
    assert e[56..] == NameField(p.name);
  }

  lemma NameFieldReads(name: seq<nat>)
    requires IsName(name)
    ensures ReadName(NameField(name)) == Shown(name)
  {
    hide ReadName, Units;
    NameReadsBack(Shown(name), 72 - 2 * |Shown(name)|);
  }

  /** An entry inside a region that holds a table. */
  lemma EntryInRegion(file: seq<byte>, base: nat, table: seq<byte>, partitions: seq<Partition>, i: nat)
    requires IsTable(table, partitions) && i < |partitions| && Region(file, base, |table|) == table
    ensures Region(file, base + i * ENTRY_STRIDE, ENTRY_SIZE) == EntryBytes(partitions[i])
  {
    hide EntryBytes;
    var entry := EntryAt(table, i);
    var from := ENTRY_STRIDE * i;
    assert from + ENTRY_SIZE <= |table|;
    forall k | 0 <= k < ENTRY_SIZE
      ensures Region(file, base + from, ENTRY_SIZE)[k] == entry[k]
    {
      assert Region(file, base, |table|)[from + k] == table[from + k];
    }
  }

  // ---------------------------------------------------------------- the finished disk

  /** A disk with its structures in place is protected. */
  lemma DiskIsProtected(file: seq<byte>, l: Layout, partitions: seq<Partition>, diskId: Guid)
    requires OnDisk(file, l, partitions, diskId)
    ensures IsProtective(file)
  {
    hide HeaderBytes, IsTable, Region, Checksum, Cut, ProtectiveMbr;
    var table: seq<byte> :| TableOnDisk(file, l, partitions, diskId, table);
    MbrProtects(Sector(file, 0));
  }

  lemma MbrProtects(s: seq<byte>)
    requires s == ProtectiveMbr()
    ensures s[510] == 0x55 && s[511] == 0xAA
    ensures var record := MbrRecord(s, 0);
      && record[..4] == [0, 0, 2, 0] && record[4] == 0xEE && record[5..8] == [0xFF, 0xFF, 0xFF]
      && Field(record, 8, 4) == 1 && Field(record, 12, 4) == 0xFFFF_FFFF
    ensures forall i :: 1 <= i < 4 ==> MbrRecord(s, i) == Zeros(16)
  {
    var record := MbrRecord(s, 0);
    assert record == [0, 0, 2, 0, 0xEE, 0xFF, 0xFF, 0xFF, 1, 0, 0, 0, 0xFF, 0xFF, 0xFF, 0xFF];
    assert record[8..12] == [1, 0, 0, 0] && record[12..16] == [0xFF, 0xFF, 0xFF, 0xFF];
    FourBytes(1, 0, 0, 0);
    FourBytes(0xFF, 0xFF, 0xFF, 0xFF);
  }

  lemma FourBytes(a: byte, b: byte, c: byte, d: byte)
    ensures FromLe([a, b, c, d]) == a + 0x100 * b + 0x1_0000 * c + 0x100_0000 * d
  {
    hide FromLe;
    NextByte(a, [b, c, d]);
    NextByte(b, [c, d]);
    NextByte(c, [d]);
    NextByte(d, []);
    NoBytes();
    assert [a, b, c, d] == [a] + [b, c, d] && [b, c, d] == [b] + [c, d] && [c, d] == [c] + [d] && [d] == [d] + [];
  }

  lemma NextByte(b: byte, rest: seq<byte>)
    ensures FromLe([b] + rest) == b + 0x100 * FromLe(rest)
  {
    assert ([b] + rest)[1..] == rest;
  }

  lemma NoBytes()
    ensures FromLe([]) == 0
  {
  }

  /** The planned numbers fit the fields of headers and entries. */
  lemma NumbersFit(requests: seq<Request>)
    requires Plannable(requests)
    ensures var l := LayoutOf(SizesOf(requests));
      && l.firstUsable <= l.lastUsable < l.secondaryHeader < LBA_LIMIT && l.partitionTable == 2 && l.primaryHeader == 1
      && forall i :: 0 <= i < |l.extents| ==> l.extents[i].first < LBA_LIMIT && l.extents[i].last < LBA_LIMIT
  {
    hide LayoutOf;
    var sizes := SizesOf(requests);
    LayoutIsProper(sizes);
    LayoutEnds(sizes);
  }

  lemma LayoutEnds(sizes: seq<nat>)
    requires (forall i :: 0 <= i < |sizes| ==> sizes[i] >= 1) && FitsDisk(sizes)
    ensures var l := LayoutOf(sizes);
      && l.diskSize < LBA_LIMIT && l.diskSize == (l.secondaryHeader + 1) * SECTOR_SIZE
      && l.primaryHeader == 1 && l.partitionTable == 2
  {
  }

  /**
   * The primary header announces the positions of a layout and the disk's identifier, its entries
   * describe the partitions, and the backup table is a copy of the table it describes.
   */
  ghost predicate Announces(file: seq<byte>, l: Layout, diskId: Guid, partitions: seq<Partition>) {
    var s, n := Sector(file, 1), |partitions|;
    && s[56..72] == diskId
    && Field(s, 32, 8) == l.secondaryHeader && Field(s, 40, 8) == l.firstUsable && Field(s, 48, 8) == l.lastUsable
    && Field(s, 80, 4) == n && Field(s, 84, 4) == 32768 && Field(s, 72, 8) == 2
    && Region(file, l.backupTable * 512, 32768 * n) == EntryArray(file, s)
    && forall i :: 0 <= i < n ==> ReadPartition(file, 1, i) == Describe(partitions[i])
  }

  /** The header that a finished disk carries. */
  function FinalHeader(l: Layout, n: nat, diskId: Guid, table: seq<byte>): Header {
    var bare := PrimaryHeader(l, n, diskId, 0, Checksum(Cut(table)));
    bare.(crc := Checksum(HeaderSector(bare)))
  }

  /** The header sector of a finished disk, field by field. */
  lemma FinalHeaderFields(file: seq<byte>, requests: seq<Request>, diskId: Guid, table: seq<byte>)
    requires Plannable(requests) && |requests| < 0x1_0000_0000
    requires TableOnDisk(file, LayoutOf(SizesOf(requests)), Planned(requests), diskId, table)
    ensures var h := FinalHeader(LayoutOf(SizesOf(requests)), |requests|, diskId, table);
      && FieldsFit(h) && Sector(file, 1) == HeaderSector(h) && EntryArray(file, Sector(file, 1)) == table
  {
    hide LayoutOf, HeaderBytes, HeaderSector, IsTable, Region, Field, Checksum, ProtectiveMbr, Limit, Cut;
    var l, n := LayoutOf(SizesOf(requests)), |requests|;
    var cut := Cut(table);
    var bare := PrimaryHeader(l, n, diskId, 0, Checksum(cut));
    var h := FinalHeader(l, n, diskId, table);
    NumbersFit(requests);
    ChecksumFits(cut);
    ChecksumFits(HeaderSector(bare));
    Limits();
    SectorIsHeader(h);
    TableLength(table, Planned(requests));
    HeaderFields(h);
  }

  /** The primary header passes exactly when the cut table has the checksum of the whole one. */
  lemma ChecksDependOnArray(file: seq<byte>, requests: seq<Request>, diskId: Guid, table: seq<byte>)
    requires Plannable(requests) && |requests| < 0x1_0000_0000
    requires TableOnDisk(file, LayoutOf(SizesOf(requests)), Planned(requests), diskId, table)
    ensures HeaderChecks(file, 1) <==> Checksum(Cut(table)) == Checksum(table)
  {
    hide LayoutOf, HeaderBytes, HeaderSector, TableOnDisk, FieldsFit, EntryArray, Region, Field, Checksum, Sector, Cut;
    var h := FinalHeader(LayoutOf(SizesOf(requests)), |requests|, diskId, table);
    FinalHeaderFields(file, requests, diskId, table);
    NumbersFit(requests);
    HeaderFields(h);
    ClearedChecksum(h);
  }

  /** A finished disk of fewer than 2^32 partitions announces what was planned. */
  lemma DiskAnnounces(file: seq<byte>, requests: seq<Request>, diskId: Guid)
    requires Plannable(requests) && |requests| < 0x1_0000_0000 && NamesOk(requests)
    requires OnDisk(file, LayoutOf(SizesOf(requests)), Planned(requests), diskId)
    ensures Announces(file, LayoutOf(SizesOf(requests)), diskId, Planned(requests))
  {
    hide LayoutOf, HeaderBytes, HeaderSector, ReadName, Shown, IsName, Region, Field, EntryBytes, Checksum, FieldsFit,
      Limit, IsTable, ProtectiveMbr, Cut;
    var l, partitions := LayoutOf(SizesOf(requests)), Planned(requests);
    var table: seq<byte> :| TableOnDisk(file, l, partitions, diskId, table);
    var h := FinalHeader(l, |requests|, diskId, table);
    FinalHeaderFields(file, requests, diskId, table);
    NumbersFit(requests);
    HeaderFields(h);
    TableLength(table, partitions);
    Limits();
    forall i | 0 <= i < |requests|
      ensures ReadPartition(file, 1, i) == Describe(partitions[i])
    {
      EntryInRegion(file, 2 * SECTOR_SIZE, table, partitions, i);
      EntryFields(partitions[i]);
    }
  }

  /**
   * On a finished disk of fewer than 131072 partitions the primary header passes both checksum
   * tests and announces the planned positions, and each entry, read at the stride it declares,
   * describes its partition.
   */
  lemma PrimaryHeaderVerifies(file: seq<byte>, requests: seq<Request>, diskId: Guid)
    requires Plannable(requests) && |requests| < MAX_PARTITIONS
    requires OnDisk(file, LayoutOf(SizesOf(requests)), Planned(requests), diskId)
    ensures HeaderChecks(file, 1)
    ensures NamesOk(requests) ==> Announces(file, LayoutOf(SizesOf(requests)), diskId, Planned(requests))
  {
    hide LayoutOf, HeaderChecks, Announces, IsName, Checksum, Placed, IsTable, Cut;
    var l, partitions := LayoutOf(SizesOf(requests)), Planned(requests);
    var table: seq<byte> :| TableOnDisk(file, l, partitions, diskId, table);
    ChecksDependOnArray(file, requests, diskId, table);
    TableLength(table, partitions);
    CutOfShort(table);
    if NamesOk(requests) {
      DiskAnnounces(file, requests, diskId);
    }
  }

  // ---------------------------------------------------------------- the secondary header

  /**
   * What the secondary header says: it lies at its own sector and names the primary one as its
   * alternate, but it names the first table, not the copy in front of it, and its checksum is 0.
   */
  ghost predicate AnnouncesAgain(file: seq<byte>, l: Layout, diskId: Guid, n: nat) {
    var s := Sector(file, l.secondaryHeader);
    && Field(s, 0, 8) == 0x5452_4150_2049_4645 && Field(s, 8, 4) == 0x1_0000 && Field(s, 12, 4) == 512
    && Field(s, 16, 4) == 0 && Field(s, 24, 8) == l.secondaryHeader && Field(s, 32, 8) == 1
    && Field(s, 40, 8) == l.firstUsable && Field(s, 48, 8) == l.lastUsable && s[56..72] == diskId
    && Field(s, 72, 8) == 2 && Field(s, 80, 4) == n && Field(s, 84, 4) == 32768
  }

  /** The secondary header of a finished disk passes exactly when the primary one does and its own checksum is 0. */
  lemma SecondaryHeaderChecks(file: seq<byte>, requests: seq<Request>, diskId: Guid)
    requires Plannable(requests) && |requests| < 0x1_0000_0000
    requires OnDisk(file, LayoutOf(SizesOf(requests)), Planned(requests), diskId)
    ensures var l := LayoutOf(SizesOf(requests));
      && AnnouncesAgain(file, l, diskId, |requests|)
      && (HeaderChecks(file, l.secondaryHeader)
          <==> HeaderChecks(file, 1) && Checksum(Sector(file, l.secondaryHeader)) == 0)
  {
    hide LayoutOf, HeaderBytes, HeaderSector, ProtectiveMbr, FieldsFit, Region, Field, Checksum, Sector, Cut, IsTable,
      Limit, FinalHeader, HeaderChecks;
    var l, partitions := LayoutOf(SizesOf(requests)), Planned(requests);
    var table: seq<byte> :| TableOnDisk(file, l, partitions, diskId, table);
    FinalHeaderFields(file, requests, diskId, table);
    ChecksDependOnArray(file, requests, diskId, table);
    NumbersFit(requests);
    var first := FinalHeader(l, |requests|, diskId, table);
    var second := first.(myLba := l.secondaryHeader, alternateLba := 1, crc := 0);
    SecondSector(file, l, partitions, diskId, table);
    StillFits(first, l.secondaryHeader);
    FinalHeaderIs(l, |requests|, diskId, table);
    HeaderFields(first);
    HeaderFields(second);
    ClearedChecksum(second);
    SecondChecks(file, l.secondaryHeader, second);
  }

  lemma FinalHeaderIs(l: Layout, n: nat, diskId: Guid, table: seq<byte>)
    requires l.primaryHeader == 1 && l.partitionTable == 2
    ensures var h := FinalHeader(l, n, diskId, table);
      && h.firstUsable == l.firstUsable && h.lastUsable == l.lastUsable && h.diskId == diskId && h.entryLba == 2
      && h.entryCount == n && h.arrayCrc == Checksum(Cut(table))
  {
  }

  lemma StillFits(h: Header, sector: nat)
    requires FieldsFit(h) && sector < LBA_LIMIT
    ensures FieldsFit(h.(myLba := sector, alternateLba := 1, crc := 0))
  {
    Limits();
  }

  lemma SecondSector(file: seq<byte>, l: Layout, partitions: seq<Partition>, diskId: Guid, table: seq<byte>)
    requires TableOnDisk(file, l, partitions, diskId, table) && l.primaryHeader == 1
    ensures Sector(file, l.secondaryHeader) == HeaderSector(
      FinalHeader(l, |partitions|, diskId, table).(myLba := l.secondaryHeader, alternateLba := 1, crc := 0))
  {
    hide HeaderBytes, HeaderSector, IsTable, Region, Checksum, Cut, ProtectiveMbr;
    var h := FinalHeader(l, |partitions|, diskId, table);
    SectorIsHeader(h.(myLba := l.secondaryHeader, alternateLba := 1, crc := 0));
  }

  /** The checks on a header whose checksum field is 0. */
  lemma SecondChecks(file: seq<byte>, lba: nat, h: Header)
    requires Sector(file, lba) == HeaderSector(h) && h.crc == 0 && FieldsFit(h) && h.myLba == lba
    ensures HeaderChecks(file, lba)
      <==> Checksum(HeaderSector(h)) == 0 && h.arrayCrc == Checksum(EntryArray(file, HeaderSector(h)))
  {
    hide HeaderSector, FieldsFit, EntryArray, Region, Field, Checksum, Sector;
    HeaderFields(h);
    ClearedChecksum(h);
  }

  predicate NamesOk(requests: seq<Request>) {
    forall i :: 0 <= i < |requests| ==> IsName(requests[i].name)
  }

  lemma SectorIsHeader(h: Header)
    ensures HeaderSector(h) == HeaderBytes(h) + Zeros(SECTOR_SIZE - |HeaderBytes(h)|)
  {
  }

  /**
   * Plan and write a disk. Below 2^32 partitions it announces what was planned, and below 131072
   * the reader accepts its primary header.
   */
  method WriteDisk(diskId: Guid, requests: seq<Request>) returns (disk: Disk)
    requires Plannable(requests)
    ensures fresh(disk) && fresh(disk.os) && disk.diskCreated
    ensures disk.layout == LayoutOf(SizesOf(requests)) && disk.partitions == Planned(requests)
    ensures ExtentsOk(disk.layout, SizesOf(requests)) && AreasOk(disk.layout, |requests|)
    ensures OnDisk(disk.os.file, disk.layout, disk.partitions, diskId)
    ensures IsProtective(disk.os.file)
    ensures |requests| < 0x1_0000_0000 ==> AnnouncesAgain(disk.os.file, disk.layout, diskId, |requests|)
    ensures IsZero(disk.os.file, disk.layout.firstUsable, disk.layout.lastUsable)
    ensures |requests| < MAX_PARTITIONS ==> HeaderChecks(disk.os.file, 1)
    ensures |requests| < 0x1_0000_0000 && NamesOk(requests) ==>
      Announces(disk.os.file, disk.layout, diskId, disk.partitions)
  {
    hide OnDisk, IsProtective, HeaderChecks, Announces, AnnouncesAgain, ExtentsOk, AreasOk, FitsDisk, LayoutOf, Planned,
      IsZero;
    disk := new Disk(diskId);
    disk.ConfigureDisk(requests);
    LayoutIsProper(SizesOf(requests));
    NumbersFit(requests);
    disk.CreateDisk();
    DiskIsProtected(disk.os.file, disk.layout, disk.partitions, diskId);
    if |requests| < MAX_PARTITIONS {
      PrimaryHeaderVerifies(disk.os.file, requests, diskId);
    }
    if |requests| < 0x1_0000_0000 {
      SecondaryHeaderChecks(disk.os.file, requests, diskId);
    }
    if |requests| < 0x1_0000_0000 && NamesOk(requests) {
      DiskAnnounces(disk.os.file, requests, diskId);
    }
  }
}
