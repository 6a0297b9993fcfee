/**
 * An independent reader of FAT32 directories, written from the specification: it walks slots,
 * collects long names, checks their ordinals and checksums, and falls back to the 8.3 name.
 */
module FatReader {
  import opened Bytes
  import opened FatNames

  /** What a directory listing says about one file or directory. */
  datatype Entry = Entry(name: Name, directory: bool, first: nat, size: nat)

  /** Long-name slots collected so far: their units, the ordinal that must come next, the checksum. */
  datatype Pending = NoName | Collected(units: seq<int>, next: nat, checksum: byte)

  datatype Scan = Scan(entries: seq<Entry>, pending: Pending, ended: bool)

  const DOT_NAME: seq<byte> := [DOT] + Spaces(10)
  const DOT_DOT_NAME: seq<byte> := [DOT, DOT] + Spaces(9)

  /** A byte turned right by one bit. */
  function TurnedRight(x: byte): byte {
    x / 2 + 128 * (x % 2)
  }

  /** The specification's checksum of an 8.3 name: turn right, then add the next byte. */
  function NameChecksum(raw: seq<byte>): byte {
    if raw == [] then 0 else (TurnedRight(NameChecksum(raw[..|raw| - 1])) + raw[|raw| - 1]) % 256
  }

  function Attributes(s: Slot): byte {
    s[11]
  }

  function FirstCluster(s: Slot): nat {
    FromLe(s[26..28]) + 0x1_0000 * FromLe(s[20..22])
  }

  function FileSize(s: Slot): nat {
    FromLe(s[28..32])
  }

  function RawName(s: Slot): (raw: seq<byte>)
    ensures |raw| == 11
  {
    s[..11]
  }

  /** Pairs of bytes as 16-bit units. */
  function PairsOf(s: seq<byte>): (units: seq<int>)
    requires |s| % 2 == 0
    decreases |s|
  {
    if s == [] then [] else [FromLe(s[..2])] + PairsOf(s[2..])
  }

  function UnitsOf(s: Slot): seq<int> {
    PairsOf(s[1..11]) + PairsOf(s[14..26]) + PairsOf(s[28..32])
  }

  /** The name held by a sequence of units: everything before the terminator; what is no byte becomes `?`. */
  function DecodeUnits(units: seq<int>): Name {
    if units == [] || units[0] == 0 then []
    else [if 0 < units[0] < 0x100 then units[0] else 0x3F] + DecodeUnits(units[1..])
  }

  predicate IsLongSlot(s: Slot) {
    Attributes(s) % 64 == 0x0F
  }

  predicate IsVolumeLabel(s: Slot) {
    Attributes(s) / 8 % 2 == 1
  }

  predicate IsDirectory(s: Slot) {
    Attributes(s) / 16 % 2 == 1
  }

  /** The entry `.` of a directory. */
  predicate IsDot(s: Slot) {
    s[0] == 0x2E && forall i :: 1 <= i < 11 ==> s[i] == 0x20
  }

  /** The entry `..` of a directory. */
  predicate IsDotDot(s: Slot) {
    s[0] == 0x2E && s[1] == 0x2E && forall i :: 2 <= i < 11 ==> s[i] == 0x20
  }

  /** A long-name slot has no type and no cluster; the first one on disk has bit 6 of its ordinal set. */
  function Collect(pending: Pending, s: Slot): Pending {
    var ordinal, checksum := s[0], s[13];
    if s[12] != 0 || s[26] != 0 || s[27] != 0 then NoName
    else if 0x40 < ordinal < 0x80 then Collected(UnitsOf(s), ordinal - 0x41, checksum)
    else if pending.Collected? && 0 < pending.next == ordinal && pending.checksum == checksum then
      Collected(UnitsOf(s) + pending.units, ordinal - 1, checksum)
    else NoName
  }

  /** The long name, if it is complete and belongs to this 8.3 name; otherwise the 8.3 name. */
  function NameOf(pending: Pending, s: Slot): Name {
    if pending.Collected? && pending.next == 0 && pending.checksum == NameChecksum(RawName(s))
    then DecodeUnits(pending.units)
    else DecodeShort(RawName(s))
  }

  function ScanSlot(scan: Scan, s: Slot): Scan {
    if scan.ended then scan
    else if s[0] == 0 then scan.(ended := true)
    else if s[0] == 0xE5 then scan.(pending := NoName)
    else if IsLongSlot(s) then scan.(pending := Collect(scan.pending, s))
    else if IsVolumeLabel(s) || IsDot(s) || IsDotDot(s) then scan.(pending := NoName)
    else Scan(scan.entries + [Entry(NameOf(scan.pending, s), IsDirectory(s), FirstCluster(s), FileSize(s))], NoName,
      false)
  }

  function ScanSlots(scan: Scan, slots: seq<Slot>): Scan
    decreases |slots|
  {
    if slots == [] then scan else ScanSlots(ScanSlot(scan, slots[0]), slots[1..])
  }

  const START := Scan([], NoName, false)

  /** The entries of a directory whose slots are given. */
  function Listing(slots: seq<Slot>): seq<Entry> {
    ScanSlots(START, slots).entries
  }

  // ---------------------------------------------------------------- reading back what was written

  lemma {:induction false} ScanAppend(scan: Scan, a: seq<Slot>, b: seq<Slot>)
    ensures ScanSlots(scan, a + b) == ScanSlots(ScanSlots(scan, a), b)
    decreases |a|
  {
    hide ScanSlot;
    if a == [] {
      assert a + b == b;
    } else {
      assert (a + b)[1..] == a[1..] + b;
      ScanAppend(ScanSlot(scan, a[0]), a[1..], b);
    }
  }

  lemma {:induction false} ScanEnded(scan: Scan, slots: seq<Slot>)
    requires scan.ended
    ensures ScanSlots(scan, slots) == scan
    decreases |slots|
  {
    if slots != [] {
      ScanEnded(scan, slots[1..]);
    }
  }

  /** Zero slots end a listing without adding to it. */
  lemma ScanZeros(scan: Scan, slots: seq<Slot>)
    requires forall i :: 0 <= i < |slots| ==> slots[i][0] == 0
    ensures ScanSlots(scan, slots).entries == scan.entries
  {
    if slots != [] {
      ScanEnded(ScanSlot(scan, slots[0]), slots[1..]);
    }
  }

  // The units of a name, from position `from` on.
  function UnitRange(name: Name, from: nat, count: nat): (u: seq<int>)
    ensures |u| == count
  {
    seq(count, i requires 0 <= i < count => Unit(name, from + i))
  }

  lemma UnitAt(name: Name, from: nat, count: nat, i: nat)
    requires i < count
    ensures UnitRange(name, from, count)[i] == Unit(name, from + i)
  {
  }

  lemma JoinUnits(name: Name, from: nat, count: nat, more: nat)
    ensures UnitRange(name, from, count) + UnitRange(name, from + count, more) == UnitRange(name, from, count + more)
  {
  }

  lemma UnitFits(name: Name, j: nat)
    ensures FromLe(Le(2, Unit(name, j))) == Unit(name, j)
  {
    LeRoundTrip(2, Unit(name, j));
    Limits();
  }

  lemma {:induction false} PairsOfUnitBytes(name: Name, from: nat, count: nat)
    ensures PairsOf(UnitBytes(name, from, count)) == UnitRange(name, from, count)
    decreases count
  {
    if count > 0 {
      var s := UnitBytes(name, from, count);
      assert s[..2] == Le(2, Unit(name, from)) && s[2..] == UnitBytes(name, from + 1, count - 1);
      UnitFits(name, from);
      PairsOfUnitBytes(name, from + 1, count - 1);
      assert UnitRange(name, from, count) == [Unit(name, from)] + UnitRange(name, from + 1, count - 1);
    }
  }

  lemma LongSlotFields(name: Name, k: nat, checksum: byte)
    requires 1 <= k <= LongSlotCount(name) <= 20
    ensures var s := LongSlot(name, k, checksum);
      && s[0] == (if k == LongSlotCount(name) then LAST_LONG_ENTRY + k else k)
      && Attributes(s) == ATTR_LONG_NAME && s[12] == 0 && s[13] == checksum && s[26] == 0 && s[27] == 0
      && UnitsOf(s) == UnitRange(name, 13 * (k - 1), 13)
  {
    var s, from := LongSlot(name, k, checksum), 13 * (k - 1);
    hide UnitBytes, PairsOf, LongSlotCount;
    LongSlotParts(s[0], UnitBytes(name, from, 5), checksum, UnitBytes(name, from + 5, 6),
      UnitBytes(name, from + 11, 2), s);
    PairsOfUnitBytes(name, from, 5);
    PairsOfUnitBytes(name, from + 5, 6);
    PairsOfUnitBytes(name, from + 11, 2);
    JoinUnits(name, from, 5, 6);
    JoinUnits(name, from, 11, 2);
  }

  /**
   * A long-name slot as the reader sees it: its ordinal, bit 6 set on the first one on disk, and
   * thirteen units, which are bytes of the name, then one zero, then 0xFFFF.
   */
  lemma LongSlotIs(name: Name, k: nat, checksum: byte, e: nat)
    requires 13 * (k - 1) < |name| <= 255 && k >= 1 && e < 13
    ensures k <= LongSlotCount(name) <= 20
    ensures var s, j := LongSlot(name, k, checksum), 13 * (k - 1) + e;
      && s[0] == (if |name| <= 13 * k then 0x40 + k else k)
      && s[11] == 0x0F && s[12] == 0 && s[13] == checksum && s[26] == 0 && s[27] == 0
      && |UnitsOf(s)| == 13
      && UnitsOf(s)[e] == if j < |name| then name[j] else if j == |name| then 0 else 0xFFFF
  {
    hide LongSlot, UnitsOf, LongSlotCount, UnitRange, Unit;
    SlotsNeeded(name, k);
    LongSlotFields(name, k, checksum);
    UnitAt(name, 13 * (k - 1), 13, e);
    UnitIs(name, 13 * (k - 1) + e);
  }

  lemma UnitIs(name: Name, j: nat)
    ensures Unit(name, j) == if j < |name| then name[j] else if j == |name| then 0 else 0xFFFF
  {
  }

  /** The k-th slot is needed if the name goes on behind the slots before it, and is the last if it ends there. */
  lemma SlotsNeeded(name: Name, k: nat)
    requires 13 * (k - 1) < |name| <= 255 && k >= 1
    ensures k <= LongSlotCount(name) <= 20 && (k == LongSlotCount(name) <==> |name| <= 13 * k)
  {
  }

  /** Where the parts of a long-name slot lie. */
  lemma LongSlotParts(ordinal: byte, a: seq<byte>, checksum: byte, b: seq<byte>, c: seq<byte>, s: seq<byte>)
    requires |a| == 10 && |b| == 12 && |c| == 4
    requires s == [ordinal] + a + [ATTR_LONG_NAME, 0, checksum] + b + [0, 0] + c
    ensures |s| == 32 && s[0] == ordinal && s[11] == ATTR_LONG_NAME && s[12] == 0 && s[13] == checksum
    ensures s[26] == 0 && s[27] == 0
    ensures s[1..11] == a && s[14..26] == b && s[28..32] == c
  {
  }

  /** The state of a scan after the slots with ordinals above m of a name. */
  function MidName(entries: seq<Entry>, name: Name, m: nat, checksum: byte): Scan
    requires m <= LongSlotCount(name)
  {
    Scan(entries, Collected(UnitRange(name, 13 * m, 13 * (LongSlotCount(name) - m)), m, checksum), false)
  }

  lemma ScanCollects(scan: Scan, s: Slot)
    requires !scan.ended && Attributes(s) == ATTR_LONG_NAME && s[0] != 0 && s[0] != 0xE5
    ensures ScanSlot(scan, s) == Scan(scan.entries, Collect(scan.pending, s), false)
  {
    hide Collect, NameOf, RawName, FirstCluster, FileSize;
  }

  /** A slot with ordinal k is collected as the last one of a name, or behind ordinal k + 1. */
  lemma CollectSlot(pending: Pending, s: Slot, k: nat, checksum: byte, units: seq<int>)
    requires 1 <= k <= 20 && s[13] == checksum && s[12] == 0 && s[26] == 0 && s[27] == 0
    requires s[0] == LAST_LONG_ENTRY + k || (s[0] == k && pending == Collected(units, k, checksum))
    ensures Collect(pending, s)
      == Collected(if s[0] == k then UnitsOf(s) + units else UnitsOf(s), k - 1, checksum)
  {
    hide UnitsOf;
  }

  /** Reading one long-name slot after those with larger ordinals. */
  lemma ScanLongSlot(scan: Scan, name: Name, k: nat, checksum: byte)
    requires 1 <= k <= LongSlotCount(name) <= 20 && !scan.ended
    requires k == LongSlotCount(name) || scan == MidName(scan.entries, name, k, checksum)
    ensures ScanSlot(scan, LongSlot(name, k, checksum)) == MidName(scan.entries, name, k - 1, checksum)
  {
    var n, s := LongSlotCount(name), LongSlot(name, k, checksum);
    var units := UnitRange(name, 13 * k, 13 * (n - k));
    LongSlotFields(name, k, checksum);
    JoinUnits(name, 13 * (k - 1), 13, 13 * (n - k));
    hide LongSlot, UnitsOf, UnitRange, LongSlotCount, Collect, ScanSlot, Attributes;
    ScanCollects(scan, s);
    CollectSlot(scan.pending, s, k, checksum, units);
    assert k == n ==> units == [];
  }

  lemma ScanCons(scan: Scan, slot: Slot, rest: seq<Slot>)
    ensures ScanSlots(scan, [slot] + rest) == ScanSlots(ScanSlot(scan, slot), rest)
  {
    hide ScanSlot;
    assert ([slot] + rest)[1..] == rest;
  }

  lemma LongSlotsHead(name: Name, k: nat, m: nat, checksum: byte)
    requires m <= k <= LongSlotCount(name) <= 20
    ensures m < k ==>
      LongSlots(name, k, m, checksum) == [LongSlot(name, k, checksum)] + LongSlots(name, k - 1, m, checksum)
    ensures m == k ==> LongSlots(name, k, m, checksum) == []
  {
    hide LongSlot;
  }

  lemma MidNameFields(entries: seq<Entry>, name: Name, m: nat, checksum: byte)
    requires m <= LongSlotCount(name)
    ensures var scan := MidName(entries, name, m, checksum); scan.entries == entries && !scan.ended
  {
  }

  /** Reading the long-name slots from ordinal k down to m + 1. */
  lemma {:induction false} ScanLongSlots(scan: Scan, name: Name, k: nat, m: nat, checksum: byte)
    requires m < k <= LongSlotCount(name) <= 20 && !scan.ended
    requires k == LongSlotCount(name) || scan == MidName(scan.entries, name, k, checksum)
    ensures ScanSlots(scan, LongSlots(name, k, m, checksum)) == MidName(scan.entries, name, m, checksum)
    decreases k
  {
    hide ScanSlot, LongSlot, LongSlots, MidName, LongSlotCount;
    ScanLongSlot(scan, name, k, checksum);
    var fewer, middle := LongSlots(name, k - 1, m, checksum), MidName(scan.entries, name, k - 1, checksum);
    MidNameFields(scan.entries, name, k - 1, checksum);
    LongSlotsHead(name, k, m, checksum);
    ScanCons(scan, LongSlot(name, k, checksum), fewer);
    if k - 1 > m {
      ScanLongSlots(middle, name, k - 1, m, checksum);
    } else {
      LongSlotsHead(name, m, m, checksum);
    }
  }

  /** The units of a name decode to it exactly when it holds no NUL. */
  lemma {:induction false} DecodeUnitRange(name: Name, from: nat, count: nat)
    requires from <= |name| <= from + count
    ensures DecodeUnits(UnitRange(name, from, count)) == name[from..] <==> 0 !in name[from..]
    decreases count
  {
    var u := UnitRange(name, from, count);
    if count > 0 {
      UnitAt(name, from, count, 0);
    }
    if from < |name| {
      assert name[from..] == [name[from]] + name[from + 1..];
      assert u[1..] == UnitRange(name, from + 1, count - 1);
      DecodeUnitRange(name, from + 1, count - 1);
    }
  }

  /** Writer and reader compute the same checksum. */
  lemma {:induction false} ChecksumsAgree(sum: byte, front: seq<byte>, rest: seq<byte>)
    requires sum == NameChecksum(front)
    ensures ChecksumFrom(sum, rest) == NameChecksum(front + rest)
    decreases |rest|
  {
    if rest == [] {
      assert front + rest == front;
    } else {
      var longer := front + [rest[0]];
      assert longer[..|longer| - 1] == front && front + rest == longer + rest[1..];
      ChecksumsAgree(RotateAdd(sum, rest[0]), longer, rest[1..]);
    }
  }

  lemma ChecksumIs(short: seq<byte>)
    ensures Checksum(short) == NameChecksum(short)
  {
    ChecksumsAgree(0, [], short);
    assert [] + short == short;
  }

  lemma OneMoreByte(s: seq<byte>, i: nat, sum: byte, next: byte)
    requires i < |s| && NameChecksum(s[..i]) == sum && next == (TurnedRight(sum) + s[i]) % 256
    ensures NameChecksum(s[..i + 1]) == next
  {
    assert s[..i + 1][..i] == s[..i];
  }

  /** The checksum of `AppHel~1.exe`. */
  lemma ChecksumOfAppHello(s: seq<byte>)
    requires |s| == 11 && s[0] == 0x41 && s[1] == 0x70 && s[2] == 0x70 && s[3] == 0x48 && s[4] == 0x65 && s[5] == 0x6C
    requires s[6] == 0x7E && s[7] == 0x31 && s[8] == 0x65 && s[9] == 0x78 && s[10] == 0x65
    ensures NameChecksum(s) == 0xB2
  {
    hide NameChecksum;
    assert s[..0] == [];
    NoChecksum();
    OneMoreByte(s, 0, 0x00, 0x41);
    OneMoreByte(s, 1, 0x41, 0x10);
    OneMoreByte(s, 2, 0x10, 0x78);
    OneMoreByte(s, 3, 0x78, 0x84);
    OneMoreByte(s, 4, 0x84, 0xA7);
    OneMoreByte(s, 5, 0xA7, 0x3F);
    OneMoreByte(s, 6, 0x3F, 0x1D);
    OneMoreByte(s, 7, 0x1D, 0xBF);
    OneMoreByte(s, 8, 0xBF, 0x44);
    OneMoreByte(s, 9, 0x44, 0x9A);
    OneMoreByte(s, 10, 0x9A, 0xB2);
    assert s[..11] == s;
  }

  lemma NoChecksum()
    ensures NameChecksum([]) == 0
  {
  }

  lemma ShortSlotFields(short: seq<byte>, attributes: byte, stamp: Stamp, first: nat, size: nat)
    requires |short| == 11 && first < 0x1_0000_0000 && size < 0x1_0000_0000
    ensures var s := ShortSlot(short, attributes, stamp, first, size);
      RawName(s) == short && Attributes(s) == attributes && FirstCluster(s) == first && FileSize(s) == size
  {
    var s := ShortSlot(short, attributes, stamp, first, size);
    hide Le;
    assert s[20..22] == Le(2, first / 0x1_0000) && s[26..28] == Le(2, first % 0x1_0000) && s[28..32] == Le(4, size);
    LeRoundTrip(2, first / 0x1_0000);
    LeRoundTrip(2, first % 0x1_0000);
    LeRoundTrip(4, size);
    Limits();
  }

  /** The time stamps of a short entry: creation with its tenths, last access, last write. */
  datatype Times = Times(tenths: nat, created: Stamp, accessedDate: nat, written: Stamp)

  function TimesOf(s: Slot): Times {
    Times(s[13], Stamp(FromLe(s[14..16]), FromLe(s[16..18])), FromLe(s[18..20]),
      Stamp(FromLe(s[22..24]), FromLe(s[24..26])))
  }

  /** All three time stamps of an entry are the one it was written with; the reserved byte is zero. */
  lemma TimesReadBack(short: seq<byte>, attributes: byte, stamp: Stamp, first: nat, size: nat)
    requires |short| == 11 && stamp.time < 0x1_0000 && stamp.date < 0x1_0000
    ensures TimesOf(ShortSlot(short, attributes, stamp, first, size)) == Times(0, stamp, stamp.date, stamp)
    ensures ShortSlot(short, attributes, stamp, first, size)[12] == 0
  {
    var s := ShortSlot(short, attributes, stamp, first, size);
    hide Le;
    assert s[14..16] == Le(2, stamp.time) && s[16..18] == Le(2, stamp.date) && s[18..20] == Le(2, stamp.date);
    assert s[22..24] == Le(2, stamp.time) && s[24..26] == Le(2, stamp.date);
    LeRoundTrip(2, stamp.time);
    LeRoundTrip(2, stamp.date);
    Limits();
  }

  /** An entry's last slot says what it is: a directory, or a file to be archived, and nothing else. */
  lemma EntryAttributes(name: Name, counter: nat, directory: bool, first: nat, size: nat, stamp: Stamp)
    requires |name| <= MAX_NAME && counter < COUNTER_LIMIT
    ensures var slots := EntrySlots(name, counter, directory, first, size, stamp);
      slots[|slots| - 1][11] == if directory then 0x10 else 0x20
  {
    hide ShortName, LongSlots, Checksum, Le;
  }

  /** Names whose 8.3 slot does not mark a free entry or the end of the directory. */
  predicate Visible(name: Name) {
    Stem(name) != [] ==> name[0] != 0 && name[0] != 0xE5
  }

  /** Names the reader gives back: visible, no NUL in a long one, padding survived in a short one. */
  predicate Readable(name: Name) {
    && |name| <= 255
    && Visible(name)
    && if IsLong(name) then 0 !in name else SurvivesPadding(name)
  }

  /** The name the reader shows. */
  function ShownName(name: Name, counter: nat): Name
    requires counter < COUNTER_LIMIT
  {
    if IsLong(name) then DecodeUnits(UnitRange(name, 0, 13 * LongSlotCount(name)))
    else DecodeShort(ShortName(name, counter))
  }

  lemma ShownNameIsName(name: Name, counter: nat)
    requires |name| <= MAX_NAME && counter < COUNTER_LIMIT
    ensures ShownName(name, counter) == name && Visible(name) <==> Readable(name)
  {
    LongSlotCounts(name);
    if IsLong(name) {
      DecodeUnitRange(name, 0, 13 * LongSlotCount(name));
      assert name[0..] == name;
    } else {
      ShortNameRoundTrip(name, counter);
    }
  }

  /** The 8.3 name of a visible name is neither hidden nor mistaken for `.` or `..`. */
  lemma ShortNameVisibility(name: Name, counter: nat)
    requires counter < COUNTER_LIMIT
    ensures var short := ShortName(name, counter);
      && (Visible(name) <==> short[0] != 0 && short[0] != 0xE5)
      && short != DOT_NAME && short != DOT_DOT_NAME
  {
    var short := ShortName(name, counter);
    if Stem(name) == [] {
      assert short[0] == SPACE;
    } else {
      assert short[0] == name[0] && name[0] != DOT;
    }
  }

  lemma LongSlotCounts(name: Name)
    requires |name| <= MAX_NAME
    ensures LongSlotCount(name) <= 20 && |name| <= 13 * LongSlotCount(name)
    ensures IsLong(name) ==> 1 <= LongSlotCount(name)
  {
  }

  /** Reading the slots of one entry adds it under the shown name, or nothing if it is hidden. */
  lemma ScanShown(entries: seq<Entry>, name: Name, counter: nat, directory: bool, first: nat, size: nat, stamp: Stamp)
    requires |name| <= MAX_NAME && counter < COUNTER_LIMIT
    requires first < 0x1_0000_0000 && size < 0x1_0000_0000
    ensures var scan :=
      ScanSlots(Scan(entries, NoName, false), EntrySlots(name, counter, directory, first, size, stamp));
      && (Visible(name) ==> scan == Scan(
            entries + [Entry(ShownName(name, counter), directory, first, if directory then 0 else size)],
            NoName, false))
      && (!Visible(name) ==> scan.entries == entries)
  {
    var short := ShortName(name, counter);
    var attributes := if directory then ATTR_DIRECTORY else ATTR_ARCHIVE;
    var size' := if directory then 0 else size;
    var slot := ShortSlot(short, attributes, stamp, first, size');
    var start := Scan(entries, NoName, false);
    if IsLong(name) {
      LongSlotCounts(name);
      var n, checksum := LongSlotCount(name), Checksum(short);
      var long := LongSlots(name, n, 0, checksum);
      var middle := MidName(entries, name, 0, checksum);
      ScanLongSlots(start, name, n, 0, checksum);
      assert middle.entries == entries && !middle.ended && middle.pending.Collected?;
      ScanShortSlot(middle, name, counter, attributes, stamp, first, size');
      hide ShortName, ShortSlot, ScanSlot, ScanSlots, MidName, LongSlots, LongSlotCount, Checksum, DecodeUnits, Visible;
      ScanAppend(start, long, [slot]);
      ScanOne(middle, slot);
    } else {
      ScanShortSlot(start, name, counter, attributes, stamp, first, size');
      hide ShortName, ShortSlot, ScanSlot, IsLong, Visible;
      assert [] + [slot] == [slot];
      ScanOne(start, slot);
    }
  }

  /** Reading the slots of one entry yields exactly that entry if the name is readable. */
  lemma ScanEntry(entries: seq<Entry>, name: Name, counter: nat, directory: bool, first: nat, size: nat, stamp: Stamp)
    requires Readable(name) && counter < COUNTER_LIMIT
    requires first < 0x1_0000_0000 && size < 0x1_0000_0000
    ensures ScanSlots(Scan(entries, NoName, false), EntrySlots(name, counter, directory, first, size, stamp))
      == Scan(entries + [Entry(name, directory, first, if directory then 0 else size)], NoName, false)
  {
    hide ShownName, ScanSlots, EntrySlots, IsLong, SurvivesPadding;
    ScanShown(entries, name, counter, directory, first, size, stamp);
    ShownNameIsName(name, counter);
  }

  /** Readable names are exactly those whose slots list as one entry of that name. */
  lemma ReadableIsExact(name: Name, counter: nat, directory: bool, first: nat, size: nat, stamp: Stamp)
    requires |name| <= MAX_NAME && counter < COUNTER_LIMIT
    requires first < 0x1_0000_0000 && size < 0x1_0000_0000
    ensures var e := Entry(name, directory, first, if directory then 0 else size);
      Listing(EntrySlots(name, counter, directory, first, size, stamp)) == [e] <==> Readable(name)
  {
    hide ShownName, ScanSlots, EntrySlots, IsLong, SurvivesPadding;
    ScanShown([], name, counter, directory, first, size, stamp);
    ShownNameIsName(name, counter);
    var shown := Entry(ShownName(name, counter), directory, first, if directory then 0 else size);
    assert [] + [shown] == [shown] && [shown][0] == shown;
  }

  /** Reading the 8.3 slot of a name adds the entry, named by what was collected. */
  lemma ScanShortSlot(scan: Scan, name: Name, counter: nat, attributes: byte, stamp: Stamp, first: nat, size: nat)
    requires counter < COUNTER_LIMIT && !scan.ended
    requires first < 0x1_0000_0000 && size < 0x1_0000_0000
    requires attributes == ATTR_DIRECTORY || attributes == ATTR_ARCHIVE
    requires var short := ShortName(name, counter);
      if IsLong(name) then scan.pending == Collected(UnitRange(name, 0, 13 * LongSlotCount(name)), 0, Checksum(short))
      else scan.pending == NoName
    ensures var scan' := ScanSlot(scan, ShortSlot(ShortName(name, counter), attributes, stamp, first, size));
      && (Visible(name) ==> scan' == Scan(
            scan.entries + [Entry(ShownName(name, counter), attributes == ATTR_DIRECTORY, first, size)], NoName, false))
      && (!Visible(name) ==> scan'.entries == scan.entries)
  {
    var short := ShortName(name, counter);
    var slot := ShortSlot(short, attributes, stamp, first, size);
    ShortNameVisibility(name, counter);
    ShortSlotFields(short, attributes, stamp, first, size);
    assert slot[0] == RawName(slot)[0];
    ChecksumIs(short);
    assert NameOf(scan.pending, slot) == ShownName(name, counter);
    hide ShortName, ShortSlot, ShownName, NameOf, Visible, IsLong;
    if Visible(name) {
      ScanVisible(scan, short, slot, ShownName(name, counter));
    } else {
      assert slot[0] == 0 || slot[0] == 0xE5;
      assert ScanSlot(scan, slot).entries == scan.entries;
    }
  }

  lemma ScanVisible(scan: Scan, short: seq<byte>, slot: Slot, name: Name)
    requires |short| == 11 && RawName(slot) == short && !scan.ended
    requires Attributes(slot) == ATTR_DIRECTORY || Attributes(slot) == ATTR_ARCHIVE
    requires short[0] != 0 && short[0] != 0xE5 && short != DOT_NAME && short != DOT_DOT_NAME
    requires NameOf(scan.pending, slot) == name
    ensures ScanSlot(scan, slot)
      == Scan(scan.entries + [Entry(name, Attributes(slot) == ATTR_DIRECTORY, FirstCluster(slot), FileSize(slot))],
        NoName, false)
  {
    assert slot[0] == short[0];
    hide NameOf, FirstCluster, FileSize;
  }

  lemma ScanOne(scan: Scan, slot: Slot)
    ensures ScanSlots(scan, [slot]) == ScanSlot(scan, slot)
  {
    hide ScanSlot;
    assert [slot][1..] == [];
  }

  /** The leading slots of an entry are long-name slots. */
  lemma EntryPrefix(name: Name, counter: nat, directory: bool, first: nat, size: nat, stamp: Stamp, written: nat)
    requires |name| <= MAX_NAME && counter < COUNTER_LIMIT
    requires written < |EntrySlots(name, counter, directory, first, size, stamp)|
    ensures LongSlotCount(name) <= 20
    ensures written > 0 ==> IsLong(name) && written <= LongSlotCount(name)
    ensures written > 0 ==>
      EntrySlots(name, counter, directory, first, size, stamp)[..written]
        == LongSlots(name, LongSlotCount(name), LongSlotCount(name) - written, Checksum(ShortName(name, counter)))
  {
    LongSlotCounts(name);
    if written > 0 {
      var n, checksum := LongSlotCount(name), Checksum(ShortName(name, counter));
      LongSlotsPrefix(name, n, n - written, checksum);
      hide ShortSlot, ShortName, LongSlots, LongSlotCount, IsLong, Checksum;
      assert EntrySlots(name, counter, directory, first, size, stamp)[..written]
        == LongSlots(name, n, 0, checksum)[..written];
    }
  }

  /** Reading only some leading slots of one entry yields nothing. */
  lemma ScanPartialEntry(entries: seq<Entry>, name: Name, counter: nat, directory: bool, first: nat, size: nat,
    stamp: Stamp, written: nat)
    requires |name| <= MAX_NAME && counter < COUNTER_LIMIT
    requires written < |EntrySlots(name, counter, directory, first, size, stamp)|
    ensures var scan :=
      ScanSlots(Scan(entries, NoName, false), EntrySlots(name, counter, directory, first, size, stamp)[..written]);
      scan.entries == entries && !scan.ended && (written == 0 ==> scan.pending == NoName)
  {
    hide EntrySlots, LongSlots, LongSlotCount, IsLong, MidName, ShortName, Checksum;
    EntryPrefix(name, counter, directory, first, size, stamp, written);
    var n, checksum := LongSlotCount(name), Checksum(ShortName(name, counter));
    if written > 0 {
      ScanLongSlots(Scan(entries, NoName, false), name, n, n - written, checksum);
      MidNameFields(entries, name, n - written, checksum);
    } else {
      assert EntrySlots(name, counter, directory, first, size, stamp)[..0] == [];
    }
  }
}
