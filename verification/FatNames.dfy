/**
 * File names on disk: 8.3 names with generated tails, their checksum, and the slots that hold a
 * long name (FAT32 File System Specification v1.03, "FAT Long Directory Entries").
 */
module FatNames {
  import opened Bytes

  type Name = seq<byte>

  /** One 32-byte directory entry. */
  type Slot = s: seq<byte> | |s| == 32 witness seq(32, _ => 0)

  const SPACE: byte := 32
  const DOT: byte := 46
  const DIGIT_ZERO: byte := 48
  const TILDE: byte := 126

  const ATTR_VOLUME_ID: byte := 0x08
  const ATTR_LONG_NAME: byte := 0x0F
  const ATTR_DIRECTORY: byte := 0x10
  const ATTR_ARCHIVE: byte := 0x20
  const LAST_LONG_ENTRY: byte := 0x40

  const MAX_NAME := 255
  const COUNTER_LIMIT := 1000

  function Min(a: nat, b: nat): nat {
    if a < b then a else b
  }

  function Spaces(n: nat): (s: seq<byte>)
    ensures |s| == n && forall i :: 0 <= i < n ==> s[i] == SPACE
  {
    seq(n, _ => SPACE)
  }

  function Lower(s: seq<byte>): (t: seq<byte>)
    ensures |t| == |s|
  {
    seq(|s|, i requires 0 <= i < |s| => if 65 <= s[i] <= 90 then s[i] + 32 else s[i])
  }

  // ---------------------------------------------------------------- the 8.3 name

  /** The position of the first dot, or the length when there is none. */
  function DotIndex(name: Name): (i: nat)
    ensures i <= |name| && (i < |name| ==> name[i] == DOT)
    ensures forall j :: 0 <= j < i ==> name[j] != DOT
  {
    if name == [] || name[0] == DOT then 0 else 1 + DotIndex(name[1..])
  }

  function Stem(name: Name): (s: seq<byte>)
    ensures |s| <= 8
  {
    name[..Min(DotIndex(name), 8)]
  }

  function Extension(name: Name): (s: seq<byte>)
    ensures |s| <= 3
  {
    var dot := DotIndex(name);
    if dot == |name| then [] else name[dot + 1..dot + 1 + Min(|name| - dot - 1, 3)]
  }

  /** Whether the name does not fit the 8.3 form by length. */
  predicate IsLong(name: Name) {
    DotIndex(name) > 8 || |name| > DotIndex(name) + 4
  }

  function Padded(s: seq<byte>, width: nat): (t: seq<byte>)
    requires |s| <= width
    ensures |t| == width
  {
    s + Spaces(width - |s|)
  }

  /** The counter a generated name draws its tail from. */
  function CounterKey(name: Name): seq<byte> {
    Lower(Padded(Stem(name), 8)[..6] + [TILDE, DIGIT_ZERO + 1] + Spaces(3))
  }

  type Counters = map<seq<byte>, nat>

  function Counter(counters: Counters, name: Name): nat {
    var key := CounterKey(name);
    if key in counters then counters[key] else 1
  }

  function DigitCount(n: nat): nat {
    if n < 10 then 1 else if n < 100 then 2 else if n < 1000 then 3 else if n < 10000 then 4
    else if n < 100000 then 5 else if n < 1000000 then 6 else if n < 10000000 then 7
    else if n < 100000000 then 8 else if n < 1000000000 then 9 else 10
  }

  /** The decimal digits of a number below 1000. */
  function Digits(n: nat): (s: seq<byte>)
    requires n < COUNTER_LIMIT
    ensures |s| == DigitCount(n)
    ensures forall i :: 0 <= i < |s| ==> 48 <= s[i] <= 57
  {
    if n < 10 then [48 + n]
    else if n < 100 then [48 + n / 10, 48 + n % 10]
    else [48 + n / 100, 48 + n / 10 % 10, 48 + n % 10]
  }

  /** The number that decimal digits stand for. */
  function DecimalValue(s: seq<byte>): int {
    if s == [] then 0 else 10 * DecimalValue(s[..|s| - 1]) + s[|s| - 1] - 0x30
  }

  /** The digits of a counter stand for the counter, without leading zeros. */
  lemma DigitsHaveValue(n: nat)
    requires n < 1000
    ensures DecimalValue(Digits(n)) == n && (n > 0 ==> Digits(n)[0] != 0x30)
  {
    ThreeDigits(n);
    hide DecimalValue;
    if n < 10 {
      ValueOfThree(48, 48, 48 + n);
    } else if n < 100 {
      ValueOfThree(48, 48 + n / 10, 48 + n % 10);
    } else {
      ValueOfThree(48 + n / 100, 48 + n / 10 % 10, 48 + n % 10);
    }
  }

  lemma ThreeDigits(n: nat)
    requires n < COUNTER_LIMIT
    ensures n == 100 * (n / 100) + 10 * (n / 10 % 10) + n % 10
    ensures n < 100 ==> n / 100 == 0 && n / 10 % 10 == n / 10
  {
  }

  /** The values of one, two and three digits. */
  lemma ValueOfThree(a: byte, b: byte, c: byte)
    ensures DecimalValue([c]) == c - 0x30 && DecimalValue([b, c]) == 10 * (b - 0x30) + c - 0x30
    ensures DecimalValue([a, b, c]) == 100 * (a - 0x30) + 10 * (b - 0x30) + c - 0x30
  {
    NoDigits();
    hide DecimalValue;
    OneMoreDigit([], a);
    OneMoreDigit([], b);
    OneMoreDigit([], c);
    OneMoreDigit([b], c);
    OneMoreDigit([a], b);
    OneMoreDigit([a, b], c);
    assert [] + [a] == [a] && [] + [b] == [b] && [] + [c] == [c];
    assert [b] + [c] == [b, c] && [a] + [b] == [a, b] && [a, b] + [c] == [a, b, c];
  }

  lemma NoDigits()
    ensures DecimalValue([]) == 0
  {
  }

  lemma OneMoreDigit(s: seq<byte>, digit: byte)
    ensures DecimalValue(s + [digit]) == 10 * DecimalValue(s) + digit - 0x30
  {
    assert (s + [digit])[..|s|] == s;
  }

  /** Where the first dot of a name is; its length if there is none. */
  predicate FirstDot(name: Name, dot: nat) {
    dot <= |name| && (dot < |name| ==> name[dot] == 0x2E) && forall i :: 0 <= i < dot ==> name[i] != 0x2E
  }

  /** The extension is what follows the first dot, up to three bytes; without a dot there is none. */
  lemma ExtensionIs(name: Name, dot: nat)
    requires FirstDot(name, dot)
    ensures |Extension(name)| == if dot == |name| then 0 else Min(3, |name| - dot - 1)
    ensures forall i :: 0 <= i < |Extension(name)| ==> Extension(name)[i] == name[dot + 1 + i]
    ensures |Stem(name)| == Min(8, dot) && forall i :: 0 <= i < |Stem(name)| ==> Stem(name)[i] == name[i]
  {
    var found := DotIndex(name);
    assert found == dot;
  }

  /** Whether the name gets a generated `~n` tail. */
  predicate HasTail(name: Name) {
    IsLong(name) && Stem(name) != []
  }

  /** The counter used for a name; names without a generated tail do not need one. */
  function TailCounter(counters: Counters, name: Name): nat {
    if HasTail(name) then Counter(counters, name) else 1
  }

  /** The in-code assertion that a generated tail has at most three digits. */
  predicate TailFits(counters: Counters, name: Name) {
    TailCounter(counters, name) < COUNTER_LIMIT
  }

  function StemField(name: Name, counter: nat): (s: seq<byte>)
    requires counter < COUNTER_LIMIT
    ensures |s| == 8
  {
    var base := Padded(Stem(name), 8);
    if HasTail(name) then base[..7 - DigitCount(counter)] + [TILDE] + Digits(counter) else base
  }

  /** The eleven bytes of the 8.3 name. */
  function ShortName(name: Name, counter: nat): (s: seq<byte>)
    requires counter < COUNTER_LIMIT
    ensures |s| == 11
  {
    StemField(name, counter) + Padded(Extension(name), 3)
  }

  function NextCounters(counters: Counters, name: Name): Counters {
    if HasTail(name) then counters[CounterKey(name) := Counter(counters, name) + 1] else counters
  }

  // ---------------------------------------------------------------- reading an 8.3 name back

  function TrimRight(s: seq<byte>): (t: seq<byte>)
    ensures |t| <= |s|
  {
    if s == [] || s[|s| - 1] != 0x20 then s else TrimRight(s[..|s| - 1])
  }

  function Joined(stem: seq<byte>, extension: seq<byte>): Name {
    if extension == [] then stem else stem + [0x2E] + extension
  }

  /** The first byte 0x05 stands for 0xE5, which would mark the entry as free. */
  function Unescaped(s: seq<byte>): (t: seq<byte>)
    ensures |t| == |s|
  {
    if s != [] && s[0] == 0x05 then [0xE5] + s[1..] else s
  }

  function DecodeShort(raw: seq<byte>): Name
    requires |raw| == 11
  {
    Joined(TrimRight(Unescaped(raw[..8])), TrimRight(raw[8..]))
  }

  predicate EndsInSpace(s: seq<byte>) {
    s != [] && s[|s| - 1] == 0x20
  }

  /** Names whose 8.3 form can be read back: no padding byte at the end of a part, no empty extension. */
  predicate SurvivesPadding(name: Name) {
    && !EndsInSpace(Stem(name))
    && !EndsInSpace(Extension(name))
    && (DotIndex(name) < |name| ==> Extension(name) != [])
    && (Stem(name) != [] ==> name[0] != 0x05)
  }

  lemma {:induction false} TrimPadding(s: seq<byte>, n: nat)
    ensures TrimRight(s + Spaces(n)) == TrimRight(s)
  {
    if n == 0 {
      assert s + Spaces(0) == s;
    } else {
      var padded := s + Spaces(n);
      assert padded[..|padded| - 1] == s + Spaces(n - 1);
      TrimPadding(s, n - 1);
    }
  }

  lemma TrimmedLength(s: seq<byte>)
    ensures TrimRight(s) == s <==> !EndsInSpace(s)
    ensures TrimRight(s) != s ==> |TrimRight(s)| < |s|
  {
  }

  /** The parts of a name that fits the 8.3 form. */
  lemma FittingNameParts(name: Name)
    requires !IsLong(name)
    ensures name == if DotIndex(name) == |name| then Stem(name) else Stem(name) + [DOT] + Extension(name)
    ensures DotIndex(name) == |name| ==> Extension(name) == []
    ensures Stem(name) != [] ==> name[0] == Stem(name)[0]
  {
    var dot := DotIndex(name);
    hide DotIndex;
    assert Min(dot, 8) == dot;
    if dot < |name| {
      assert Min(|name| - dot - 1, 3) == |name| - dot - 1;
      SplitAt(name, dot);
    } else {
      assert name[..dot] == name;
    }
  }

  lemma SplitAt(name: Name, dot: nat)
    requires dot < |name| && name[dot] == DOT
    ensures name == name[..dot] + [DOT] + name[dot + 1..]
    ensures name[dot + 1..dot + 1 + (|name| - dot - 1)] == name[dot + 1..]
  {
  }

  lemma DecodeOfFittingName(name: Name, counter: nat)
    requires !IsLong(name) && counter < COUNTER_LIMIT
    ensures DecodeShort(ShortName(name, counter))
      == Joined(TrimRight(Unescaped(Stem(name))), TrimRight(Extension(name)))
  {
    hide IsLong, DotIndex, Stem, Extension, ShortName, TrimRight, Unescaped;
    var raw, stem, extension := ShortName(name, counter), Stem(name), Extension(name);
    FittingParts(name, counter);
    TrimPadding(extension, 3 - |extension|);
    UnescapedPadding(stem, 8 - |stem|);
    TrimPadding(Unescaped(stem), 8 - |stem|);
  }

  lemma FittingParts(name: Name, counter: nat)
    requires !IsLong(name) && counter < COUNTER_LIMIT
    ensures var raw := ShortName(name, counter);
      raw[..8] == Stem(name) + Spaces(8 - |Stem(name)|) && raw[8..] == Extension(name) + Spaces(3 - |Extension(name)|)
  {
    hide DotIndex, Stem, Extension, Digits;
  }

  lemma UnescapedPadding(stem: seq<byte>, n: nat)
    ensures Unescaped(stem + Spaces(n)) == Unescaped(stem) + Spaces(n)
  {
  }

  /** Trimmed parts join to the whole only if nothing was trimmed. */
  lemma JoinedAsBefore(stem: seq<byte>, extension: seq<byte>, shown: seq<byte>, trimmed: seq<byte>, dotted: bool)
    requires |shown| <= |stem| && |trimmed| <= |extension| && (extension != [] ==> dotted)
    ensures Joined(shown, trimmed) == (if dotted then stem + [DOT] + extension else stem)
       <==> shown == stem && trimmed == extension && (dotted ==> extension != [])
  {
    var whole := if dotted then stem + [DOT] + extension else stem;
    if Joined(shown, trimmed) == whole {
      assert |shown| == |stem| && |trimmed| == |extension|;
      assert shown == Joined(shown, trimmed)[..|shown|] && stem == whole[..|stem|];
      if dotted {
        assert trimmed == Joined(shown, trimmed)[|shown| + 1..] && extension == whole[|stem| + 1..];
      }
    }
  }

  /** A name stored only in 8.3 form is read back exactly when it survives the padding. */
  lemma ShortNameRoundTrip(name: Name, counter: nat)
    requires !IsLong(name) && counter < COUNTER_LIMIT
    ensures DecodeShort(ShortName(name, counter)) == name <==> SurvivesPadding(name)
  {
    var stem, extension := Stem(name), Extension(name);
    FittingNameParts(name);
    DecodeOfFittingName(name, counter);
    hide ShortName, Stem, Extension, TrimRight, IsLong;
    TrimmedLength(extension);
    TrimmedLength(Unescaped(stem));
    JoinedAsBefore(stem, extension, TrimRight(Unescaped(stem)), TrimRight(extension), DotIndex(name) < |name|);
    UnescapedAsBefore(stem);
  }

  lemma UnescapedAsBefore(stem: seq<byte>)
    ensures TrimRight(Unescaped(stem)) == stem <==> !EndsInSpace(stem) && (stem != [] ==> stem[0] != 0x05)
  {
    TrimmedLength(Unescaped(stem));
    TrimmedLength(stem);
  }

  /** The digits in a tail: one below 10, two below 100. */
  function TailDigits(counter: nat): nat {
    if counter < 10 then 1 else if counter < 100 then 2 else 3
  }

  /** The byte of a name in front of its first dot, or padding. */
  function StemByte(name: Name, dot: nat, i: nat): byte
    requires dot <= |name|
  {
    if i < dot then name[i] else 0x20
  }

  /** The byte of a name behind its first dot, or padding. */
  function ExtensionByte(name: Name, dot: nat, i: nat): byte {
    if dot + 1 + i < |name| then name[dot + 1 + i] else 0x20
  }

  /**
   * A short name byte by byte. A name with at most eight bytes in front of its first dot and at most
   * three behind it is stored as it is, filled up with spaces; a longer one gets a tilde and the
   * counter at the end of its stem, unless that is empty.
   */
  lemma ShortNameBytes(name: Name, counter: nat, dot: nat)
    requires counter < 1000 && FirstDot(name, dot)
    ensures var short, n := ShortName(name, counter), TailDigits(counter);
      && (forall i :: 0 <= i < 3 ==> short[8..][i] == ExtensionByte(name, dot, i))
      && if dot == 0 || (dot <= 8 && |name| - dot - 1 <= 3) then
           forall i :: 0 <= i < 8 ==> short[i] == StemByte(name, dot, i)
         else
           && (forall i :: 0 <= i < 7 - n ==> short[i] == StemByte(name, dot, i))
           && short[7 - n] == 0x7E && DecimalValue(short[8 - n..8]) == counter
  {
    hide StemField, DecimalValue, HasTail, Extension, FirstDot;
    TailIffTooLong(name, dot);
    ExtensionField(name, dot);
    var short, stem := ShortName(name, counter), StemField(name, counter);
    assert short[..8] == stem && short[8..] == Padded(Extension(name), 3);
    forall i | 0 <= i < 8
      ensures short[i] == stem[i]
    {
      assert short[i] == short[..8][i];
    }
    if HasTail(name) {
      StemFieldWithTail(name, counter, dot);
      var n := TailDigits(counter);
      assert short[8 - n..8] == stem[8 - n..8];
    } else {
      StemBytes(name, dot);
      PlainStemField(name, counter);
    }
  }

  lemma ExtensionField(name: Name, dot: nat)
    requires FirstDot(name, dot)
    ensures forall i :: 0 <= i < 3 ==> Padded(Extension(name), 3)[i] == ExtensionByte(name, dot, i)
  {
    ExtensionIs(name, dot);
    hide Extension, FirstDot;
  }

  lemma StemBytes(name: Name, dot: nat)
    requires FirstDot(name, dot)
    ensures forall i :: 0 <= i < 8 ==> Padded(Stem(name), 8)[i] == StemByte(name, dot, i)
  {
    ExtensionIs(name, dot);
    hide Stem, FirstDot;
  }

  lemma PlainStemField(name: Name, counter: nat)
    requires counter < COUNTER_LIMIT && !HasTail(name)
    ensures StemField(name, counter) == Padded(Stem(name), 8)
  {
  }

  lemma StemFieldWithTail(name: Name, counter: nat, dot: nat)
    requires counter < 1000 && FirstDot(name, dot) && HasTail(name)
    ensures var stem, n := StemField(name, counter), TailDigits(counter);
      && (forall i :: 0 <= i < 7 - n ==> stem[i] == StemByte(name, dot, i))
      && stem[7 - n] == 0x7E && DecimalValue(stem[8 - n..8]) == counter
  {
    StemBytes(name, dot);
    DigitsHaveValue(counter);
    hide Digits, DecimalValue, HasTail, FirstDot, Stem, Padded, StemByte;
    var stem, n, base := StemField(name, counter), TailDigits(counter), Padded(Stem(name), 8);
    assert n == DigitCount(counter);
    assert stem == base[..7 - n] + [TILDE] + Digits(counter);
    assert stem[8 - n..8] == Digits(counter);
  }

  lemma TailIffTooLong(name: Name, dot: nat)
    requires FirstDot(name, dot)
    ensures HasTail(name) <==> dot > 0 && (dot > 8 || |name| - dot - 1 > 3)
  {
    assert DotIndex(name) == dot;
  }

  /** A name is long exactly when its stored parts do not make up the whole of it. */
  lemma LongIffCut(name: Name)
    ensures IsLong(name) <==>
      name != if 0x2E in name then Stem(name) + [0x2E] + Extension(name) else Stem(name)
  {
    if !IsLong(name) {
      FittingNameParts(name);
    }
    var dot := DotIndex(name);
    if 0x2E in name {
      var i :| 0 <= i < |name| && name[i] == 0x2E;
      assert dot <= i;
    }
  }

  // ---------------------------------------------------------------- checksum

  /** A byte turned right by one bit. */
  function Turned(b: byte): byte {
    (if b % 2 == 1 then 128 else 0) + b / 2
  }

  function RotateAdd(sum: byte, b: byte): byte {
    (Turned(sum) + b) % 256
  }

  function ChecksumFrom(sum: byte, s: seq<byte>): byte
    decreases |s|
  {
    if s == [] then sum else ChecksumFrom(RotateAdd(sum, s[0]), s[1..])
  }

  /** The checksum that ties long-name slots to their 8.3 name. */
  function Checksum(short: seq<byte>): byte {
    ChecksumFrom(0, short)
  }

  /** The step before the byte is added turns the sum right by one bit: the lowest bit becomes the highest. */
  lemma RotateAddTurns(sum: byte, b: byte)
    ensures var turned := (RotateAdd(sum, b) + 256 - b) % 256;
      turned / 128 == sum % 2 && turned % 128 == sum / 2
  {
  }

  lemma RotateAddInjective(sum: byte, sum': byte, b: byte, b': byte)
    ensures b == b' ==> (RotateAdd(sum, b) == RotateAdd(sum', b') <==> sum == sum')
    ensures sum == sum' ==> (RotateAdd(sum, b) == RotateAdd(sum', b') <==> b == b')
  {
    TurnedInjective(sum, sum');
    hide Turned;
    AddInjective(Turned(sum), b, b');
    AddInjective(b, Turned(sum), Turned(sum'));
  }

  lemma TurnedInjective(b: byte, b': byte)
    ensures Turned(b) == Turned(b') <==> b == b'
  {
  }

  lemma AddInjective(a: byte, b: byte, b': byte)
    ensures (a + b) % 256 == (a + b') % 256 <==> b == b'
  {
  }

  lemma {:induction false} ChecksumKeepsDifference(sum: byte, sum': byte, s: seq<byte>)
    ensures ChecksumFrom(sum, s) == ChecksumFrom(sum', s) <==> sum == sum'
    decreases |s|
  {
    if s != [] {
      RotateAddInjective(sum, sum', s[0], s[0]);
      ChecksumKeepsDifference(RotateAdd(sum, s[0]), RotateAdd(sum', s[0]), s[1..]);
    }
  }

  /** Changing any single byte of a short name changes its checksum. */
  lemma ChecksumDetectsByte(short: seq<byte>, i: nat, b: byte)
    requires i < |short|
    ensures Checksum(short[i := b]) == Checksum(short) <==> short[i] == b
  {
    ChecksumDetectsByteFrom(0, short, i, b);
  }

  lemma {:induction false} ChecksumDetectsByteFrom(sum: byte, s: seq<byte>, i: nat, b: byte)
    requires i < |s|
    ensures ChecksumFrom(sum, s[i := b]) == ChecksumFrom(sum, s) <==> s[i] == b
    decreases |s|
  {
    if i == 0 {
      assert s[i := b][1..] == s[1..];
      RotateAddInjective(sum, sum, s[0], b);
      ChecksumKeepsDifference(RotateAdd(sum, b), RotateAdd(sum, s[0]), s[1..]);
    } else {
      assert s[i := b][1..] == s[1..][i - 1 := b];
      ChecksumDetectsByteFrom(RotateAdd(sum, s[0]), s[1..], i - 1, b);
    }
  }

  // ---------------------------------------------------------------- slots

  /** The 16-bit unit at position j of a long name: the name, a terminator, then fill. */
  function Unit(name: Name, j: nat): nat {
    if j < |name| then name[j] else if j == |name| then 0 else 0xFFFF
  }

  function UnitBytes(name: Name, from: nat, count: nat): (s: seq<byte>)
    ensures |s| == 2 * count
    decreases count
  {
    if count == 0 then [] else Le(2, Unit(name, from)) + UnitBytes(name, from + 1, count - 1)
  }

  function LongSlotCount(name: Name): nat {
    |name| / 13 + (if |name| % 13 == 0 then 0 else 1)
  }

  /** A long-name slot from its ordinal, its three groups of units and its checksum. */
  function LongFields(ordinal: byte, first: seq<byte>, checksum: byte, second: seq<byte>, third: seq<byte>): Slot
    requires |first| == 10 && |second| == 12 && |third| == 4
  {
    [ordinal] + first + [ATTR_LONG_NAME, 0, checksum] + second + [0, 0] + third
  }

  /** The slot with ordinal k, which holds units 13(k-1) to 13k-1. */
  function LongSlot(name: Name, k: nat, checksum: byte): Slot
    requires 1 <= k <= LongSlotCount(name) <= 20
  {
    var ordinal := if k == LongSlotCount(name) then LAST_LONG_ENTRY + k else k;
    var from := 13 * (k - 1);
    LongFields(ordinal, UnitBytes(name, from, 5), checksum, UnitBytes(name, from + 5, 6), UnitBytes(name, from + 11, 2))
  }

  /** The slots with ordinals k, k-1, ..., m + 1. */
  function LongSlots(name: Name, k: nat, m: nat, checksum: byte): (slots: seq<Slot>)
    requires m <= k <= LongSlotCount(name) <= 20
    ensures |slots| == k - m
    decreases k - m
  {
    if k == m then [] else [LongSlot(name, k, checksum)] + LongSlots(name, k - 1, m, checksum)
  }

  /** The first slots of a run are a shorter run. */
  lemma {:induction false} LongSlotsPrefix(name: Name, k: nat, m: nat, checksum: byte)
    requires m <= k <= LongSlotCount(name) <= 20
    ensures LongSlots(name, k, 0, checksum)[..k - m] == LongSlots(name, k, m, checksum)
    decreases k - m
  {
    hide LongSlot;
    if k > m {
      LongSlotsPrefix(name, k - 1, m, checksum);
    }
  }

  /** A time stamp: the two 16-bit fields. */
  datatype Stamp = Stamp(time: nat, date: nat)

  function ShortSlot(short: seq<byte>, attributes: byte, stamp: Stamp, first: nat, size: nat): Slot
    requires |short| == 11
  {
    short + [attributes, 0, 0] + Le(2, stamp.time) + Le(2, stamp.date) + Le(2, stamp.date)
    + Le(2, first / 0x1_0000) + Le(2, stamp.time) + Le(2, stamp.date) + Le(2, first % 0x1_0000)
    + Le(4, size)
  }

  /** All slots of one file or directory, long-name slots first. */
  function EntrySlots(name: Name, counter: nat, directory: bool, first: nat, size: nat,
    stamp: Stamp): (slots: seq<Slot>)
    requires |name| <= MAX_NAME && counter < COUNTER_LIMIT
    ensures |slots| == 1 + if IsLong(name) then LongSlotCount(name) else 0
  {
    var short := ShortName(name, counter);
    var long := if IsLong(name) then LongSlots(name, LongSlotCount(name), 0, Checksum(short)) else [];
    long + [ShortSlot(short, if directory then ATTR_DIRECTORY else ATTR_ARCHIVE, stamp, first,
      if directory then 0 else size)]
  }
}
