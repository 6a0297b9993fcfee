/**
 * The reserved sectors of a volume: the boot sector with the parameter block, the record of free
 * clusters, and the copies of both; and what a reader makes of them (FAT32 File System Specification v1.03, "Boot
 * Sector and BPB", "FAT Type Determination" and "FAT32 FSInfo Sector Structure and Backup Boot
 * Sector").
 */
module FatBoot {
  import opened Bytes
  import opened Options
  import opened FatGeometry
  import opened FatMemory
  import opened FatRuns

  const SIGNATURE: seq<byte> := [0x55, 0xAA]
  const LEAD_SIGNATURE := 0x4161_5252
  const STRUCT_SIGNATURE := 0x6141_7272
  const TRAIL_SIGNATURE := 0xAA55_0000

  /** What the record holds while nothing is known. */
  const UNKNOWN := 0xFFFF_FFFF

  // ---------------------------------------------------------------- the sectors as written

  /** The sector that the boot sector names as its backup. */
  const BACKUP_ANNOUNCED := 6

  /** Jump instruction, maker, and the block's fields up to the number of FATs. */
  function BootOpening(spc: byte): (s: seq<byte>)
    ensures |s| == 17
  {
    [0xEB, 0xFE, 0x90] + [83, 73, 80, 79, 83, 68, 86, 0] + Le(2, SECTOR_SIZE) + [spc] + Le(2, RESERVED_SECTORS) + [2]
  }

  /** The fields from the root directory's size to the sectors of the volume. */
  function BootMiddle(lbaCount: nat): (s: seq<byte>)
    ensures |s| == 19
  {
    Le(2, 0) + Le(2, 0) + [0xF8] + Le(2, 0) + Le(2, 63) + Le(2, 255) + Le(4, 0) + Le(4, lbaCount)
  }

  /** The fields of FAT32 volumes, up to the end of the block. */
  function BootBack(fatSize: nat, recordSector: nat): (s: seq<byte>)
    ensures |s| == 54
  {
    Le(4, fatSize) + Le(2, 0) + Le(2, 0) + Le(4, 2) + Le(2, recordSector) + Le(2, BACKUP_ANNOUNCED) + Zeros(12)
    + [0x80, 0, 0x29] + Le(4, 0xFEED_FACE)
    + [78, 79, 32, 78, 65, 77, 69, 32, 32, 32, 0] + [70, 65, 84, 51, 50, 32, 32, 0]
  }

  /** The boot sector; `recordSector` is where it says the free-cluster record lies. */
  function BootSector(lbaCount: nat, spc: byte, fatSize: nat, recordSector: nat): (s: seq<byte>)
    ensures |s| == SECTOR_SIZE
  {
    BootOpening(spc) + BootMiddle(lbaCount) + BootBack(fatSize, recordSector) + Zeros(420) + SIGNATURE
  }

  function RecordSector(freeCount: nat, nextFree: nat): (s: seq<byte>)
    ensures |s| == SECTOR_SIZE
  {
    Le(4, LEAD_SIGNATURE) + Zeros(480) + Le(4, STRUCT_SIGNATURE) + Le(4, freeCount) + Le(4, nextFree)
    + Zeros(12) + Le(4, TRAIL_SIGNATURE)
  }

  /** Where the second boot sector and record are written: behind the sector announced for them. */
  const BACKUP_SECTOR := 7

  /** The reserved sectors of a new volume. */
  function ReservedArea(lbaCount: nat, spc: byte, fatSize: nat): (s: seq<byte>)
    ensures |s| == RESERVED_SECTORS * SECTOR_SIZE
  {
    BootSector(lbaCount, spc, fatSize, 1) + RecordSector(UNKNOWN, UNKNOWN) + Zeros((BACKUP_SECTOR - 2) * SECTOR_SIZE)
    + BootSector(lbaCount, spc, fatSize, BACKUP_SECTOR) + RecordSector(UNKNOWN, UNKNOWN)
    + Zeros((RESERVED_SECTORS - BACKUP_SECTOR - 2) * SECTOR_SIZE)
  }

  /** The two numbers of a record, written into a sector. */
  function WithNumbers(area: seq<byte>, sector: nat, freeCount: nat, nextFree: nat): (s: seq<byte>)
    requires (sector + 1) * SECTOR_SIZE <= |area|
    ensures |s| == |area|
  {
    Splice(Splice(area, sector * SECTOR_SIZE + 488, Le(4, freeCount)), sector * SECTOR_SIZE + 492, Le(4, nextFree))
  }

  // ---------------------------------------------------------------- the reader

  /** What a boot sector says: the volume's size, and where its parts lie, in sectors. */
  datatype Shape = Shape(
    format: Format, bytesPerSector: nat, reserved: nat, fats: nat, fatSectors: nat, recordSector: nat,
    backupSector: nat)

  /** The sectors of a FAT, and of the volume: a 16-bit field counts if it is not zero. */
  function Chosen(small: nat, large: nat): nat {
    if small != 0 then small else large
  }

  /** What every FAT volume must fulfil: jump, signature, sector and cluster sizes, media. */
  predicate IsFatSector(s: seq<byte>)
    requires |s| == 512
  {
    && ((s[0] == 0xEB && s[2] == 0x90) || s[0] == 0xE9)
    && s[510] == 0x55 && s[511] == 0xAA
    && Field(s, 11, 2) in {512, 1024, 2048, 4096} && s[13] in {1, 2, 4, 8, 16, 32, 64, 128}
    && Field(s, 14, 2) != 0 && s[16] != 0 && (s[21] == 0xF0 || s[21] >= 0xF8)
  }

  /**
   * The shape of a FAT32 volume whose FATs are mirrored and whose root directory starts at cluster
   * 2, worked out from its boot sector as the specification says ("FAT Type Determination");
   * nothing if the sector is not a boot sector, or the volume is not such a FAT32 volume.
   */
  function ReadBoot(s: seq<byte>): Option<Shape>
    requires |s| == 512
  {
    if !IsFatSector(s) then None
    else
      var bytesPerSector, spc, reserved, fats := Field(s, 11, 2), s[13], Field(s, 14, 2), s[16];
      var rootSectors := (Field(s, 17, 2) * 32 + bytesPerSector - 1) / bytesPerSector;
      var total, fatSize := Chosen(Field(s, 19, 2), Field(s, 32, 4)), Chosen(Field(s, 22, 2), Field(s, 36, 4));
      var data := total - (reserved + fats * fatSize + rootSectors);
      if data < 0 || data / spc < 65525 then None
      else if Field(s, 17, 2) != 0 || Field(s, 19, 2) != 0 || Field(s, 22, 2) != 0 then None
      else if Field(s, 40, 2) / 128 % 2 != 0 || Field(s, 42, 2) != 0 || Field(s, 44, 4) != 2 then None
      else
        Some(Shape(Format(spc * bytesPerSector, data / spc, fatSize * bytesPerSector / 4),
          bytesPerSector, reserved, fats, fatSize, Field(s, 48, 2), Field(s, 50, 2)))
  }

  datatype Record = Record(freeCount: nat, nextFree: nat)

  /** The free-cluster record, if the sector carries its three signatures. */
  function ReadRecord(s: seq<byte>): Option<Record>
    requires |s| == 512
  {
    var lead, struct, trail := Field(s, 0, 4), Field(s, 484, 4), Field(s, 508, 4);
    if lead != 0x4161_5252 || struct != 0x6141_7272 || trail != 0xAA55_0000 then None
    else Some(Record(Field(s, 488, 4), Field(s, 492, 4)))
  }

  // ---------------------------------------------------------------- reading back

  /** The characters of a text as bytes. */
  function Codes(text: string): (s: seq<byte>)
    requires forall i :: 0 <= i < |text| ==> text[i] < 128 as char
    ensures |s| == |text|
  {
    seq(|text|, i requires 0 <= i < |text| => text[i] as int)
  }

  /** The maker, the label and the type in a boot sector; each ends in a NUL. */
  lemma BootTexts(lbaCount: nat, spc: byte, fatSize: nat, recordSector: nat)
    ensures var s := BootSector(lbaCount, spc, fatSize, recordSector);
      && s[3..11] == Codes("SIPOSDV") + [0]
      && s[71..82] == Codes("NO NAME   ") + [0] && s[82..90] == Codes("FAT32  ") + [0]
  {
    hide Le;
    var opening, middle, back := BootOpening(spc), BootMiddle(lbaCount), BootBack(fatSize, recordSector);
    var s := BootSector(lbaCount, spc, fatSize, recordSector);
    assert opening[3..11] == Codes("SIPOSDV") + [0];
    assert back[35..46] == Codes("NO NAME   ") + [0] && back[46..54] == Codes("FAT32  ") + [0];
    hide BootOpening, BootMiddle, BootBack, Codes;
    assert s[3..11] == opening[3..11] && s[71..82] == back[35..46] && s[82..90] == back[46..54];
  }

  lemma OpeningFields(spc: byte)
    ensures var s := BootOpening(spc);
      s[0] == 0xEB && s[2] == 0x90 && Field(s, 11, 2) == 512 && s[13] == spc && Field(s, 14, 2) == 32 && s[16] == 2
  {
    hide Le, Limit;
    Limits();
    var s := BootOpening(spc);
    FieldInside(s, 11, 2, SECTOR_SIZE);
    FieldInside(s, 14, 2, RESERVED_SECTORS);
  }

  lemma MiddleFields(lbaCount: nat)
    requires lbaCount < DWORD_LIMIT
    ensures var s := BootMiddle(lbaCount);
      && Field(s, 0, 2) == 0 && Field(s, 2, 2) == 0 && s[4] == 0xF8 && Field(s, 5, 2) == 0
      && Field(s, 7, 2) == 63 && Field(s, 9, 2) == 255 && Field(s, 11, 4) == 0 && Field(s, 15, 4) == lbaCount
  {
    hide Le, Limit;
    Limits();
    var s := BootMiddle(lbaCount);
    FieldInside(s, 0, 2, 0);
    FieldInside(s, 2, 2, 0);
    FieldInside(s, 5, 2, 0);
    FieldInside(s, 7, 2, 63);
    FieldInside(s, 9, 2, 255);
    FieldInside(s, 11, 4, 0);
    FieldInside(s, 15, 4, lbaCount);
  }

  lemma BackFields(fatSize: nat, recordSector: nat)
    requires fatSize < DWORD_LIMIT && recordSector < 0x1_0000
    ensures var s := BootBack(fatSize, recordSector);
      && Field(s, 0, 4) == fatSize && Field(s, 4, 2) == 0 && Field(s, 6, 2) == 0 && Field(s, 8, 4) == 2
      && Field(s, 12, 2) == recordSector && Field(s, 14, 2) == 6 && s[16..28] == Zeros(12)
      && s[28] == 0x80 && s[30] == 0x29 && Field(s, 31, 4) == 0xFEED_FACE
  {
    hide Le, Limit;
    Limits();
    var s := BootBack(fatSize, recordSector);
    FieldInside(s, 0, 4, fatSize);
    FieldInside(s, 4, 2, 0);
    FieldInside(s, 6, 2, 0);
    FieldInside(s, 8, 4, 2);
    FieldInside(s, 12, 2, recordSector);
    assert s[14..16] == Le(2, BACKUP_ANNOUNCED);
    FieldInside(s, 14, 2, BACKUP_ANNOUNCED);
    FieldInside(s, 31, 4, 0xFEED_FACE);
  }

  /** Every field of the boot sector that a reader may need, in the order of the sector. */
  lemma BootFields(lbaCount: nat, spc: byte, fatSize: nat, recordSector: nat)
    requires lbaCount < DWORD_LIMIT && fatSize < DWORD_LIMIT && recordSector < 0x1_0000
    ensures var s := BootSector(lbaCount, spc, fatSize, recordSector);
      && s[0] == 0xEB && s[2] == 0x90 && Field(s, 11, 2) == 512 && s[13] == spc && Field(s, 14, 2) == 32 && s[16] == 2
      && Field(s, 17, 2) == 0 && Field(s, 19, 2) == 0 && s[21] == 0xF8 && Field(s, 22, 2) == 0
      && Field(s, 24, 2) == 63 && Field(s, 26, 2) == 255 && Field(s, 28, 4) == 0 && Field(s, 32, 4) == lbaCount
      && Field(s, 36, 4) == fatSize && Field(s, 40, 2) == 0 && Field(s, 42, 2) == 0 && Field(s, 44, 4) == 2
      && Field(s, 48, 2) == recordSector && Field(s, 50, 2) == 6
      && s[64] == 0x80 && s[66] == 0x29 && Field(s, 67, 4) == 0xFEED_FACE && s[510] == 0x55 && s[511] == 0xAA
  {
    hide BootOpening, BootMiddle, BootBack, Field;
    OpeningFields(spc);
    MiddleFields(lbaCount);
    BackFields(fatSize, recordSector);
    var s := BootSector(lbaCount, spc, fatSize, recordSector);
    var opening, middle, back := BootOpening(spc), BootMiddle(lbaCount), BootBack(fatSize, recordSector);
    var rest := Zeros(420) + SIGNATURE;
    assert s == [] + opening + (middle + back + rest) && s == opening + middle + (back + rest);
    assert s == (opening + middle) + back + rest;
    PartOfSector(s, [], opening, middle + back + rest);
    PartOfSector(s, opening, middle, back + rest);
    PartOfSector(s, opening + middle, back, rest);
  }

  /** Bytes and fields of a part of a sector. */
  lemma PartOfSector(s: seq<byte>, before: seq<byte>, part: seq<byte>, rest: seq<byte>)
    requires s == before + part + rest
    ensures forall i :: |before| <= i < |before| + |part| ==> s[i] == part[i - |before|]
    ensures forall at: nat, width: nat :: |before| <= at && at + width <= |before| + |part| ==>
      Field(s, at, width) == Field(part, at - |before|, width)
  {
    hide Field;
    forall at: nat, width: nat | |before| <= at && at + width <= |before| + |part|
      ensures Field(s, at, width) == Field(part, at - |before|, width)
    {
      FieldOfPart(s, before, part, rest, at - |before|, width);
    }
  }

  lemma RecordReadsBack(freeCount: nat, nextFree: nat)
    requires freeCount < DWORD_LIMIT && nextFree < DWORD_LIMIT
    ensures ReadRecord(RecordSector(freeCount, nextFree)) == Some(Record(freeCount, nextFree))
  {
    hide Le, Limit;
    Limits();
    var s := RecordSector(freeCount, nextFree);
    FieldInside(s, 0, 4, LEAD_SIGNATURE);
    FieldInside(s, 484, 4, STRUCT_SIGNATURE);
    FieldInside(s, 488, 4, freeCount);
    FieldInside(s, 492, 4, nextFree);
    FieldInside(s, 508, 4, TRAIL_SIGNATURE);
  }

  /** Sector n of an area. */
  function SectorAt(area: seq<byte>, n: nat): (s: seq<byte>)
    requires (n + 1) * SECTOR_SIZE <= |area|
    ensures |s| == SECTOR_SIZE
  {
    area[n * SECTOR_SIZE..(n + 1) * SECTOR_SIZE]
  }

  /** The reserved sectors of a new volume that a reader may look at. */
  lemma ReservedSectors(lbaCount: nat, spc: byte, fatSize: nat)
    ensures var area := ReservedArea(lbaCount, spc, fatSize);
      && SectorAt(area, 0) == BootSector(lbaCount, spc, fatSize, 1)
      && SectorAt(area, 1) == RecordSector(UNKNOWN, UNKNOWN)
      && SectorAt(area, BACKUP_ANNOUNCED) == Zeros(SECTOR_SIZE)
      && SectorAt(area, BACKUP_SECTOR) == BootSector(lbaCount, spc, fatSize, BACKUP_SECTOR)
  {
    hide BootSector, RecordSector;
  }

  /** Overwriting the two numbers of a record keeps its signatures. */
  lemma RecordUpdated(s: seq<byte>, freeCount: nat, nextFree: nat)
    requires |s| == SECTOR_SIZE && ReadRecord(s).Some? && freeCount < DWORD_LIMIT && nextFree < DWORD_LIMIT
    ensures ReadRecord(WithNumbers(s, 0, freeCount, nextFree)) == Some(Record(freeCount, nextFree))
  {
    hide Le, Limit;
    Limits();
    var s' := WithNumbers(s, 0, freeCount, nextFree);
    NumbersLeave(s, freeCount, nextFree, 0);
    NumbersLeave(s, freeCount, nextFree, 484);
    NumbersLeave(s, freeCount, nextFree, 508);
    FieldInside(s', 488, 4, freeCount);
    FieldInside(s', 492, 4, nextFree);
  }

  lemma NumbersLeave(s: seq<byte>, freeCount: nat, nextFree: nat, at: nat)
    requires |s| == SECTOR_SIZE && (at <= 484 || 496 <= at <= 508)
    ensures WithNumbers(s, 0, freeCount, nextFree)[at..at + 4] == s[at..at + 4]
  {
    hide Le, Splice;
    SpliceOutside(s, 488, Le(4, freeCount), at, 4);
    SpliceOutside(Splice(s, 488, Le(4, freeCount)), 492, Le(4, nextFree), at, 4);
  }

  lemma PieceInArea(area: seq<byte>, sector: nat, at: nat, piece: seq<byte>, n: nat)
    requires (sector + 1) * SECTOR_SIZE <= |area| && (n + 1) * SECTOR_SIZE <= |area| && at + |piece| <= SECTOR_SIZE
    ensures SectorAt(Splice(area, sector * SECTOR_SIZE + at, piece), n)
      == if n == sector then Splice(SectorAt(area, n), at, piece) else SectorAt(area, n)
  {
    hide Splice;
    if n == sector {
      SpliceWithin(area, n * SECTOR_SIZE, SECTOR_SIZE, at, piece);
    } else {
      SpliceOutside(area, sector * SECTOR_SIZE + at, piece, n * SECTOR_SIZE, SECTOR_SIZE);
    }
  }

  /** Writing the numbers to one sector of an area changes that sector alone. */
  lemma NumbersInArea(area: seq<byte>, sector: nat, freeCount: nat, nextFree: nat, n: nat)
    requires (sector + 1) * SECTOR_SIZE <= |area| && (n + 1) * SECTOR_SIZE <= |area|
    ensures SectorAt(WithNumbers(area, sector, freeCount, nextFree), n)
      == if n == sector then WithNumbers(SectorAt(area, n), 0, freeCount, nextFree) else SectorAt(area, n)
  {
    hide Le, Splice, SectorAt;
    var once := Splice(area, sector * SECTOR_SIZE + 488, Le(4, freeCount));
    PieceInArea(area, sector, 488, Le(4, freeCount), n);
    PieceInArea(once, sector, 492, Le(4, nextFree), n);
  }

  /** Closing a volume updates the record, and as many bytes of the second boot sector. */
  lemma AreaClosed(area: seq<byte>, freeCount: nat, nextFree: nat)
    requires |area| == RESERVED_SECTORS * SECTOR_SIZE && ReadRecord(SectorAt(area, 1)).Some?
    requires freeCount < DWORD_LIMIT && nextFree < DWORD_LIMIT
    ensures var closed := WithNumbers(WithNumbers(area, 1, freeCount, nextFree), BACKUP_SECTOR, freeCount, nextFree);
      && SectorAt(closed, 0) == SectorAt(area, 0)
      && ReadRecord(SectorAt(closed, 1)) == Some(Record(freeCount, nextFree))
  {
    hide ReadRecord, WithNumbers, SectorAt;
    var once := WithNumbers(area, 1, freeCount, nextFree);
    NumbersInArea(area, 1, freeCount, nextFree, 0);
    NumbersInArea(area, 1, freeCount, nextFree, 1);
    NumbersInArea(once, BACKUP_SECTOR, freeCount, nextFree, 0);
    NumbersInArea(once, BACKUP_SECTOR, freeCount, nextFree, 1);
    RecordUpdated(SectorAt(area, 1), freeCount, nextFree);
  }

  /** The reserved area once the volume is closed. */
  function Closed(lbaCount: nat, spc: byte, fatSize: nat, freeCount: nat, nextFree: nat): (s: seq<byte>)
    ensures |s| == RESERVED_SECTORS * SECTOR_SIZE
  {
    var area := ReservedArea(lbaCount, spc, fatSize);
    WithNumbers(WithNumbers(area, 1, freeCount, nextFree), BACKUP_SECTOR, freeCount, nextFree)
  }

  /**
   * A reader that needs the backup does not find it: the announced sector is not a boot sector,
   * and the second boot sector names itself as the place of its record, which it is not.
   */
  lemma BackupIsNotFound(lbaCount: nat, spc: byte, fatSize: nat, freeCount: nat, nextFree: nat)
    requires lbaCount < DWORD_LIMIT && fatSize < DWORD_LIMIT
    ensures var area := Closed(lbaCount, spc, fatSize, freeCount, nextFree);
      && Field(SectorAt(area, 0), 50, 2) == BACKUP_ANNOUNCED && ReadBoot(SectorAt(area, BACKUP_ANNOUNCED)) == None
      && Field(SectorAt(area, BACKUP_SECTOR), 48, 2) == BACKUP_SECTOR
      && ReadRecord(SectorAt(area, BACKUP_SECTOR)) == None
  {
    hide WithNumbers, SectorAt, ReservedArea, BootSector, RecordSector, ReadBoot, ReadRecord, Field;
    var area := ReservedArea(lbaCount, spc, fatSize);
    var once, boot := WithNumbers(area, 1, freeCount, nextFree), BootSector(lbaCount, spc, fatSize, BACKUP_SECTOR);
    ReservedSectors(lbaCount, spc, fatSize);
    NumbersInArea(area, 1, freeCount, nextFree, 0);
    NumbersInArea(area, 1, freeCount, nextFree, BACKUP_ANNOUNCED);
    NumbersInArea(area, 1, freeCount, nextFree, BACKUP_SECTOR);
    NumbersInArea(once, BACKUP_SECTOR, freeCount, nextFree, 0);
    NumbersInArea(once, BACKUP_SECTOR, freeCount, nextFree, BACKUP_ANNOUNCED);
    NumbersInArea(once, BACKUP_SECTOR, freeCount, nextFree, BACKUP_SECTOR);
    BootFields(lbaCount, spc, fatSize, 1);
    BootFields(lbaCount, spc, fatSize, BACKUP_SECTOR);
    NoBootSector(Zeros(SECTOR_SIZE));
    BootStart(lbaCount, spc, fatSize, BACKUP_SECTOR);
    NumbersBehind(boot, freeCount, nextFree);
  }

  lemma NoBootSector(s: seq<byte>)
    requires |s| == SECTOR_SIZE && s[510] == 0
    ensures ReadBoot(s) == None
  {
    hide Field;
    assert s[510..][0] != SIGNATURE[0];
  }

  lemma BootStart(lbaCount: nat, spc: byte, fatSize: nat, recordSector: nat)
    ensures BootSector(lbaCount, spc, fatSize, recordSector)[0] == 0xEB
  {
    hide Le;
  }

  /** Numbers written behind a boot sector's fields leave these, and make it no record. */
  lemma NumbersBehind(s: seq<byte>, freeCount: nat, nextFree: nat)
    requires |s| == SECTOR_SIZE && s[0] == 0xEB
    ensures var s' := WithNumbers(s, 0, freeCount, nextFree);
      Field(s', 48, 2) == Field(s, 48, 2) && ReadRecord(s') == None
  {
    hide Le, Limit;
    var s' := WithNumbers(s, 0, freeCount, nextFree);
    assert s'[48..50] == s[48..50];
    assert s'[0..4][0] == 0xEB;
  }
}
