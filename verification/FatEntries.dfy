/**
 * Building directory entries in place: the 8.3 name and its tail, its checksum, and the buffer of
 * long-name slots followed by the short entry.
 */
module FatEntries {
  import opened Bytes
  import opened FatNames
  import opened Buffers
  import opened FatReader

  // ---------------------------------------------------------------- the 8.3 name

  method FindDot(name: Name) returns (i: nat)
    ensures i == DotIndex(name)
  {
    i := 0;
    while i < |name| && name[i] != DOT
      invariant i <= |name| && DotIndex(name) == i + DotIndex(name[i..])
    {
      i := i + 1;
    }
  }

  /** The parts of a name that go into its 8.3 form, and whether the name is too long for it. */
  method CutName(name: Name) returns (isLong: bool, stem: seq<byte>, extension: seq<byte>)
    ensures isLong == IsLong(name) && stem == Stem(name) && extension == Extension(name)
  {
    var length := |name|;
    var dot := FindDot(name);
    if dot < length {
      isLong := dot > 8 || length - dot - 1 > 3;
      extension := name[dot + 1..dot + 1 + Min(length - dot - 1, 3)];
      stem := name[..Min(dot, 8)];
    } else {
      isLong := length > 8;
      extension := [];
      stem := name[..Min(length, 8)];
    }
  }

  function PowerOfTen(n: nat): nat {
    if n == 0 then 1 else 10 * PowerOfTen(n - 1)
  }

  lemma Powers()
    ensures PowerOfTen(0) == 1 && PowerOfTen(1) == 10 && PowerOfTen(2) == 100
  {
  }

  /** Overwrite the end of the stem with `~` and the decimal digits of the counter. */
  method PutTail(temp: array<byte>, counter: nat)
    requires temp.Length == 11 && counter < COUNTER_LIMIT
    modifies temp
    ensures temp[..] == old(temp[..7 - DigitCount(counter)]) + [TILDE] + Digits(counter) + old(temp[8..])
  {
    var digitCount := DigitCount(counter);
    var index := 8 - digitCount;
    temp[index - 1] := TILDE;
    var pow := 1;
    for i := 1 to digitCount
      invariant pow == PowerOfTen(i - 1)
    {
      pow := 10 * pow;
    }
    Powers();
    ghost var last := counter;
    while pow > 0
      invariant 8 - digitCount <= index <= 8
      invariant pow == (if index == 8 then 0 else if index == 7 then 1 else if index == 6 then 10 else 100)
      invariant forall j :: 0 <= j < 11 ==>
        temp[j] == if 8 - digitCount <= j < index then Digits(counter)[j - (8 - digitCount)]
          else if j == 7 - digitCount then TILDE else old(temp[j])
    {
      temp[index] := DIGIT_ZERO + counter / pow % 10;
      assert temp[index] == Digits(counter)[index - (8 - digitCount)];
      index := index + 1;
      pow := pow / 10;
    }
  }

  // ---------------------------------------------------------------- the checksum

  method ComputeChecksum(short: seq<byte>) returns (sum: byte)
    requires |short| == 11
    ensures sum == Checksum(short)
  {
    sum := 0;
    for i := 0 to 11
      invariant Checksum(short) == ChecksumFrom(sum, short[i..])
    {
      sum := ((if sum % 2 == 1 then 128 else 0) + sum / 2 + short[i]) % 256;
    }
  }

  // ---------------------------------------------------------------- one long-name slot

  /** Where the e-th unit of a long-name slot lies. */
  function UnitOffset(e: nat): nat {
    if e < 5 then 1 + 2 * e else if e < 11 then 14 + 2 * (e - 5) else 28 + 2 * (e - 11)
  }

  /** The bytes of a long-name slot that hold no unit. */
  predicate IsHeaderByte(i: int) {
    i == 0 || 11 <= i < 14 || 26 <= i < 28
  }

  lemma {:induction false} UnitBytesAt(name: Name, from: nat, count: nat, e: nat)
    requires e < count
    ensures UnitBytes(name, from, count)[2 * e..2 * e + 2] == Le(2, Unit(name, from + e))
    decreases count
  {
    var all := UnitBytes(name, from, count);
    if e > 0 {
      UnitBytesAt(name, from + 1, count - 1, e - 1);
      assert all == Le(2, Unit(name, from)) + UnitBytes(name, from + 1, count - 1);
      assert all[2 * e..2 * e + 2] == UnitBytes(name, from + 1, count - 1)[2 * (e - 1)..2 * (e - 1) + 2];
    }
  }

  lemma UnitLe(name: Name, j: nat)
    ensures Le(2, Unit(name, j)) == [Unit(name, j) % 256, Unit(name, j) / 256]
  {
    assert Le(2, Unit(name, j))[1..] == Le(1, Unit(name, j) / 256);
  }

  predicate HoldsUnit(slot: seq<byte>, at: nat, unit: nat)
    requires at + 2 <= |slot|
  {
    slot[at] == unit % 256 && slot[at + 1] == unit / 256
  }

  lemma UnitsMatch(slot: seq<byte>, name: Name, from: nat, first: nat, count: nat, at: nat)
    requires at + 2 * count <= |slot|
    requires forall e :: 0 <= e < count ==> HoldsUnit(slot, at + 2 * e, Unit(name, from + first + e))
    ensures slot[at..at + 2 * count] == UnitBytes(name, from + first, count)
  {
    hide UnitBytes, Unit, Le;
    var units := UnitBytes(name, from + first, count);
    forall i | 0 <= i < 2 * count
      ensures slot[at..at + 2 * count][i] == units[i]
    {
      var e := i / 2;
      UnitBytesAt(name, from + first, count, e);
      UnitLe(name, from + first + e);
      assert HoldsUnit(slot, at + 2 * e, Unit(name, from + first + e));
      assert units[2 * e..2 * e + 2][i - 2 * e] == units[i];
    }
  }

  predicate HoldsUnits(slot: seq<byte>, name: Name, from: nat, count: nat)
    requires |slot| == 32 && count <= 13
  {
    forall e :: 0 <= e < count ==> HoldsUnit(slot, UnitOffset(e), Unit(name, from + e))
  }

  /** A slot is determined by its header bytes and its thirteen units. */
  lemma LongSlotFrom(slot: Slot, name: Name, k: nat, checksum: byte)
    requires 1 <= k <= LongSlotCount(name) <= 20
    requires slot[0] == (if k == LongSlotCount(name) then LAST_LONG_ENTRY + k else k)
    requires slot[11] == ATTR_LONG_NAME && slot[12] == 0 && slot[13] == checksum && slot[26] == 0 && slot[27] == 0
    requires HoldsUnits(slot, name, 13 * (k - 1), 13)
    ensures slot == LongSlot(name, k, checksum)
  {
    hide HoldsUnits;
    UnitFieldsMatch(slot, name, 13 * (k - 1));
    SlotInParts(slot);
  }

  lemma UnitFieldsMatch(slot: Slot, name: Name, from: nat)
    requires HoldsUnits(slot, name, from, 13)
    ensures slot[1..11] == UnitBytes(name, from, 5)
    ensures slot[14..26] == UnitBytes(name, from + 5, 6)
    ensures slot[28..32] == UnitBytes(name, from + 11, 2)
  {
    hide UnitBytes, Unit, HoldsUnit;
    forall e | 0 <= e < 5 ensures HoldsUnit(slot, 1 + 2 * e, Unit(name, from + 0 + e)) {
      assert UnitOffset(e) == 1 + 2 * e;
    }
    forall e | 0 <= e < 6 ensures HoldsUnit(slot, 14 + 2 * e, Unit(name, from + 5 + e)) {
      assert UnitOffset(5 + e) == 14 + 2 * e;
    }
    forall e | 0 <= e < 2 ensures HoldsUnit(slot, 28 + 2 * e, Unit(name, from + 11 + e)) {
      assert UnitOffset(11 + e) == 28 + 2 * e;
    }
    UnitsMatch(slot, name, from, 0, 5, 1);
    UnitsMatch(slot, name, from, 5, 6, 14);
    UnitsMatch(slot, name, from, 11, 2, 28);
  }

  lemma SlotInParts(slot: Slot)
    ensures slot
      == [slot[0]] + slot[1..11] + [slot[11], slot[12], slot[13]] + slot[14..26] + [slot[26], slot[27]] + slot[28..32]
  {
  }

  /** Store one 16-bit unit; the slot keeps its units in three separate fields. */
  method PutUnit(buff: array<byte>, at: nat, e: nat, low: byte, high: byte)
    requires at + 32 <= buff.Length && e < 13
    modifies buff
    ensures forall i :: 0 <= i < buff.Length ==>
      buff[i] == if i == at + UnitOffset(e) then low else if i == at + UnitOffset(e) + 1 then high else old(buff[i])
  {
    if e < 5 {
      buff[at + 1 + 2 * e] := low;
      buff[at + 1 + 2 * e + 1] := high;
    } else if e < 11 {
      buff[at + 14 + 2 * (e - 5)] := low;
      buff[at + 14 + 2 * (e - 5) + 1] := high;
    } else {
      buff[at + 28 + 2 * (e - 11)] := low;
      buff[at + 28 + 2 * (e - 11) + 1] := high;
    }
  }

  method PutHeader(buff: array<byte>, at: nat, ordinal: byte, checksum: byte)
    requires at + 32 <= buff.Length
    modifies buff
    ensures forall i :: 0 <= i < buff.Length && !IsHeaderByte(i - at) ==> buff[i] == old(buff[i])
    ensures buff[at] == ordinal && buff[at + 11] == ATTR_LONG_NAME && buff[at + 12] == 0 && buff[at + 13] == checksum
    ensures buff[at + 26] == 0 && buff[at + 27] == 0
  {
    buff[at] := ordinal;
    buff[at + 11] := ATTR_LONG_NAME;
    buff[at + 12] := 0;
    buff[at + 13] := checksum;
    buff[at + 26] := 0;
    buff[at + 27] := 0;
  }

  /** Store the first `count` characters of a slot's part of the name. */
  method PutCharacters(buff: array<byte>, at: nat, name: Name, from: nat, count: nat)
    requires at + 32 <= buff.Length && count <= 13 && from + count <= |name|
    modifies buff
    ensures forall i :: 0 <= i < buff.Length && (i < at || i >= at + 32 || IsHeaderByte(i - at)) ==>
      buff[i] == old(buff[i])
    ensures forall e :: count <= e < 13 ==>
      && buff[at + UnitOffset(e)] == old(buff[at + UnitOffset(e)])
      && buff[at + UnitOffset(e) + 1] == old(buff[at + UnitOffset(e) + 1])
    ensures forall e :: 0 <= e < count ==> HoldsUnit(buff[at..at + 32], UnitOffset(e), Unit(name, from + e))
  {
    for entryIndex := 0 to count
      invariant forall i :: 0 <= i < buff.Length && (i < at || i >= at + 32 || IsHeaderByte(i - at)) ==>
        buff[i] == old(buff[i])
      invariant forall e :: entryIndex <= e < 13 ==>
        && buff[at + UnitOffset(e)] == old(buff[at + UnitOffset(e)])
        && buff[at + UnitOffset(e) + 1] == old(buff[at + UnitOffset(e) + 1])
      invariant forall e :: 0 <= e < entryIndex ==> HoldsUnit(buff[at..at + 32], UnitOffset(e), Unit(name, from + e))
    {
      PutUnit(buff, at, entryIndex, name[from + entryIndex], 0);
    }
  }

  /** Only the given slot of the buffer differs. */
  predicate OnlySlot(before: seq<byte>, after: seq<byte>, at: nat) {
    |after| == |before| && forall i :: 0 <= i < |after| && (i < at || i >= at + 32) ==> after[i] == before[i]
  }

  /** Fill a slot with 0xFF, but for its header and, when the name ends inside it, the terminator. */
  method PutFillAndTerminator(buff: array<byte>, name: Name, from: nat, ordinal: byte, checksum: byte)
    requires buff.Length >= 32 && from < |name| <= from + 13
    modifies buff
    ensures OnlySlot(old(buff[..]), buff[..], 0)
    ensures buff[0] == ordinal && buff[11] == ATTR_LONG_NAME && buff[12] == 0 && buff[13] == checksum
    ensures buff[26] == 0 && buff[27] == 0
    ensures forall e :: |name| - from <= e < 13 ==>
      buff[UnitOffset(e)] == Unit(name, from + e) % 256 && buff[UnitOffset(e) + 1] == Unit(name, from + e) / 256
  {
    FillBytes(buff, 0, 0xFF, 32);
    assert forall i :: 0 <= i < buff.Length ==> buff[..][i] == if i < 32 then 0xFF else old(buff[i]);
    PutHeader(buff, 0, ordinal, checksum);
    assert forall e :: 0 <= e < 13 ==> !IsHeaderByte(UnitOffset(e)) && !IsHeaderByte(UnitOffset(e) + 1);
    if |name| - from < 13 {
      PutUnit(buff, 0, |name| - from, 0, 0);
    }
  }

  /** The slot with the highest ordinal: fill, terminator, then what is left of the name. */
  method PutLastLongSlot(buff: array<byte>, name: Name, count: nat, checksum: byte)
    requires buff.Length >= 32 && 1 <= count == LongSlotCount(name) <= 20
    modifies buff
    ensures OnlySlot(old(buff[..]), buff[..], 0)
    ensures buff[..32] == LongSlot(name, count, checksum)
  {
    hide LongSlot, Unit;
    var startIndex := (count - 1) * 13;
    var lastCharCount := |name| - startIndex;
    PutFillAndTerminator(buff, name, startIndex, LAST_LONG_ENTRY + count, checksum);
    PutCharacters(buff, 0, name, startIndex, lastCharCount);
    ghost var slot := buff[0..32];
    assert HoldsUnits(slot, name, startIndex, 13);
    LongSlotFrom(slot, name, count, checksum);
  }

  // ---------------------------------------------------------------- the whole entry

  lemma {:induction false} LongSlotsAt(name: Name, k: nat, checksum: byte, j: nat)
    requires j < k <= LongSlotCount(name) <= 20
    ensures LongSlots(name, k, 0, checksum)[j] == LongSlot(name, k - j, checksum)
    decreases k
  {
    hide LongSlot;
    if j > 0 {
      LongSlotsAt(name, k - 1, checksum, j - 1);
    }
  }

  function SlotIn(buff: seq<byte>, i: nat): Slot
    requires 32 * i + 32 <= |buff|
  {
    buff[32 * i..32 * i + 32]
  }

  lemma OtherSlots(before: seq<byte>, after: seq<byte>, k: nat)
    requires OnlySlot(before, after, 32 * k)
    ensures forall i: nat :: i != k && 32 * i + 32 <= |after| ==> SlotIn(after, i) == SlotIn(before, i)
  {
  }

  /** A slot in the middle of the name: thirteen characters. */
  method PutLongSlot(buff: array<byte>, i: nat, name: Name, k: nat, checksum: byte)
    requires 32 * i + 32 <= buff.Length && 1 <= k < LongSlotCount(name) <= 20
    modifies buff
    ensures SlotIn(buff[..], i) == LongSlot(name, k, checksum)
    ensures forall j: nat :: j != i && 32 * j + 32 <= buff.Length ==> SlotIn(buff[..], j) == old(SlotIn(buff[..], j))
  {
    ghost var before := buff[..];
    PutHeader(buff, 32 * i, k, checksum);
    PutCharacters(buff, 32 * i, name, (k - 1) * 13, 13);
    LongSlotFrom(buff[32 * i..32 * i + 32], name, k, checksum);
    OtherSlots(before, buff[..], i);
  }

  method PutEntry(buff: array<byte>, i: nat, slot: Slot)
    requires 32 * i + 32 <= buff.Length
    modifies buff
    ensures SlotIn(buff[..], i) == slot
    ensures forall j: nat :: j != i && 32 * j + 32 <= buff.Length ==> SlotIn(buff[..], j) == old(SlotIn(buff[..], j))
  {
    ghost var before := buff[..];
    CopyBytes(buff, 32 * i, slot);
    assert forall j :: 0 <= j < buff.Length ==> buff[j] == buff[..][j];
    OtherSlots(before, buff[..], i);
  }

  /** The buffer a directory receives for one file or directory. */
  method BuildEntry(name: Name, isLong: bool, short: seq<byte>, ghost counter: nat, directory: bool, first: nat,
    size: nat, stamp: Stamp)
    returns (buff: array<byte>)
    requires |name| <= MAX_NAME && counter < COUNTER_LIMIT
    requires isLong == IsLong(name) && short == ShortName(name, counter)
    ensures fresh(buff)
    ensures var slots := EntrySlots(name, counter, directory, first, size, stamp);
      buff.Length == 32 * |slots| && forall i :: 0 <= i < |slots| ==> SlotIn(buff[..], i) == slots[i]
  {
    hide ShortName, LongSlot, ShortSlot, Checksum;
    var count := if isLong then |name| / 13 + (if |name| % 13 != 0 then 1 else 0) else 0;
    buff := new byte[32 * count + 32](_ => 0);
    ghost var checksum := Checksum(short);
    if isLong {
      LongSlotCounts(name);
      var checkSum := ComputeChecksum(short);
      PutLastLongSlot(buff, name, count, checkSum);
      assert SlotIn(buff[..], 0) == buff[..32];
      for i := 1 to count
        invariant forall j :: 0 <= j < i ==> SlotIn(buff[..], j) == LongSlot(name, count - j, checksum)
      {
        PutLongSlot(buff, i, name, count - i, checkSum);
      }
    }
    PutEntry(buff, count,
      ShortSlot(short, if directory then ATTR_DIRECTORY else ATTR_ARCHIVE, stamp, first,
        if directory then 0 else size));
    forall i | 0 <= i < count
      ensures SlotIn(buff[..], i) == EntrySlots(name, counter, directory, first, size, stamp)[i]
    {
      LongSlotsAt(name, count, checksum, i);
    }
  }
}
