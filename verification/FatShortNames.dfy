/**
 * Runs of 8.3 names: which names end up with the same short name, ignoring case, generated or not.
 */
module FatShortNames {
  import opened Bytes
  import opened FatNames

  /** How many of the names draw their tail from a counter. */
  function Uses(names: seq<Name>, key: seq<byte>): (n: nat)
    ensures n <= |names|
  {
    if names == [] then 0
    else
      var last := names[|names| - 1];
      Uses(names[..|names| - 1], key) + if HasTail(last) && CounterKey(last) == key then 1 else 0
  }

  /** The counters after generating short names for all the names. */
  function CountersAfter(names: seq<Name>): Counters {
    if names == [] then map[]
    else NextCounters(CountersAfter(names[..|names| - 1]), names[|names| - 1])
  }

  /** Each counter holds one more than the number of its uses. */
  lemma {:induction false} CounterCountsUses(names: seq<Name>, key: seq<byte>)
    ensures Uses(names, key) == 0 <==> key !in CountersAfter(names)
    ensures key in CountersAfter(names) ==> CountersAfter(names)[key] == 1 + Uses(names, key)
  {
    hide HasTail, CounterKey;
    if names != [] {
      CounterCountsUses(names[..|names| - 1], key);
    }
  }

  /** The number in the tail of the i-th name of a run, if it gets one. */
  function TailNumber(names: seq<Name>, i: nat): nat
    requires i < |names|
  {
    TailCounter(CountersAfter(names[..i]), names[i])
  }

  lemma TailNumberIs(names: seq<Name>, i: nat)
    requires i < |names| && HasTail(names[i])
    ensures TailNumber(names, i) == 1 + Uses(names[..i], CounterKey(names[i]))
  {
    CounterCountsUses(names[..i], CounterKey(names[i]));
  }

  /** Every long name gets a tail of at most three digits. */
  predicate TailsFit(names: seq<Name>) {
    forall i :: 0 <= i < |names| ==> TailNumber(names, i) < COUNTER_LIMIT
  }

  /** The short name of the i-th name of a run. */
  function ShortOf(names: seq<Name>, i: nat): (short: seq<byte>)
    requires i < |names| && TailsFit(names)
    ensures |short| == 11
  {
    ShortName(names[i], TailNumber(names, i))
  }

  // ---------------------------------------------------------------- when two short names are equal

  /** The same letter in either case, or the same byte. */
  predicate SameLetter(a: byte, b: byte) {
    a == b || (0x41 <= a <= 0x5A && b == a + 0x20) || (0x41 <= b <= 0x5A && a == b + 0x20)
  }

  /** Lower case is compared exactly when case plays no part. */
  lemma LowerEqual(s: seq<byte>, t: seq<byte>)
    ensures Lower(s) == Lower(t) <==> |s| == |t| && forall i :: 0 <= i < |s| ==> SameLetter(s[i], t[i])
  {
    if Lower(s) == Lower(t) {
      forall i | 0 <= i < |s|
        ensures SameLetter(s[i], t[i])
      {
        assert Lower(s)[i] == Lower(t)[i];
      }
    }
  }

  /** Two names share a counter exactly when the first six bytes of their padded stems are the same letters. */
  lemma CountersShared(name: Name, dot: nat, name': Name, dot': nat)
    requires FirstDot(name, dot) && FirstDot(name', dot')
    ensures CounterKey(name) == CounterKey(name')
      <==> forall i :: 0 <= i < 6 ==> SameLetter(StemByte(name, dot, i), StemByte(name', dot', i))
  {
    hide CounterKey, Lower, Stem, Padded, SameLetter, FirstDot, StemByte;
    KeyIsRemains(name, name');
    var front, front' := Padded(Stem(name), 8)[..6], Padded(Stem(name'), 8)[..6];
    LowerEqual(front, front');
    FrontBytes(name, dot);
    FrontBytes(name', dot');
  }

  lemma FrontBytes(name: Name, dot: nat)
    requires FirstDot(name, dot)
    ensures |Padded(Stem(name), 8)| == 8 && Remains(name, 1) == Lower(Padded(Stem(name), 8)[..6])
    ensures forall i :: 0 <= i < 6 ==> Padded(Stem(name), 8)[..6][i] == StemByte(name, dot, i)
  {
    ExtensionIs(name, dot);
    hide Stem, Lower;
  }

  lemma LowerAppend(a: seq<byte>, b: seq<byte>)
    ensures Lower(a + b) == Lower(a) + Lower(b)
  {
  }

  /** Equal halves, for parts of equal length. */
  lemma SplitEqual(a: seq<byte>, b: seq<byte>, c: seq<byte>, d: seq<byte>)
    requires |a| == |c|
    ensures a + b == c + d <==> a == c && b == d
  {
    if a + b == c + d {
      assert a == (a + b)[..|a|] && c == (c + d)[..|a|];
      assert b == (a + b)[|a|..] && d == (c + d)[|a|..];
    }
  }

  lemma DigitsInjective(m: nat, n: nat)
    requires m < COUNTER_LIMIT && n < COUNTER_LIMIT && DigitCount(m) == DigitCount(n)
    ensures Digits(m) == Digits(n) <==> m == n
  {
    var s, t := Digits(m), Digits(n);
    ThreeDigits(m);
    ThreeDigits(n);
    if s == t {
      assert s[0] == t[0];
      if |s| > 1 {
        assert s[1] == t[1];
      }
      if |s| > 2 {
        assert s[2] == t[2];
      }
    }
  }

  lemma LowerDigits(n: nat)
    requires n < COUNTER_LIMIT
    ensures Lower([TILDE] + Digits(n)) == [TILDE] + Digits(n)
  {
  }

  /** What is left of the stem in front of the tail. */
  function Remains(name: Name, counter: nat): seq<byte>
    requires counter < COUNTER_LIMIT
  {
    Lower(Padded(Stem(name), 8)[..7 - DigitCount(counter)])
  }

  lemma LoweredStemField(name: Name, counter: nat)
    requires HasTail(name) && counter < COUNTER_LIMIT
    ensures Lower(StemField(name, counter)) == Remains(name, counter) + ([TILDE] + Digits(counter))
    ensures |Remains(name, counter)| == 7 - DigitCount(counter)
  {
    var front := Padded(Stem(name), 8)[..7 - DigitCount(counter)];
    hide HasTail, Lower;
    assert StemField(name, counter) == front + ([TILDE] + Digits(counter));
    LowerAppend(front, [TILDE] + Digits(counter));
    LowerDigits(counter);
  }

  lemma StemFieldsEqual(name: Name, counter: nat, name': Name, counter': nat)
    requires HasTail(name) && HasTail(name') && counter < COUNTER_LIMIT && counter' < COUNTER_LIMIT
    ensures Lower(StemField(name, counter)) == Lower(StemField(name', counter'))
      <==> counter == counter' && Remains(name, counter) == Remains(name', counter')
  {
    hide HasTail, StemField, Lower, Remains;
    LoweredStemField(name, counter);
    LoweredStemField(name', counter');
    var front, tail, front', tail' :=
      Remains(name, counter), [TILDE] + Digits(counter), Remains(name', counter'), [TILDE] + Digits(counter');
    if DigitCount(counter) == DigitCount(counter') {
      SplitEqual(front, tail, front', tail');
      SplitEqual([TILDE], Digits(counter), [TILDE], Digits(counter'));
      DigitsInjective(counter, counter');
    } else {
      TailsDiffer(front, counter, front', counter');
    }
  }

  /** Tails of different lengths put the tilde in different places. */
  lemma TailsDiffer(front: seq<byte>, counter: nat, front': seq<byte>, counter': nat)
    requires counter < COUNTER_LIMIT && counter' < COUNTER_LIMIT && DigitCount(counter) != DigitCount(counter')
    requires |front| == 7 - DigitCount(counter) && |front'| == 7 - DigitCount(counter')
    ensures front + ([TILDE] + Digits(counter)) != front' + ([TILDE] + Digits(counter'))
  {
    var a, b := front + ([TILDE] + Digits(counter)), front' + ([TILDE] + Digits(counter'));
    if |front| < |front'| {
      assert b[|front'|] == TILDE && a[|front'|] == Digits(counter)[|front'| - |front| - 1];
    } else {
      assert a[|front|] == TILDE && b[|front|] == Digits(counter')[|front| - |front'| - 1];
    }
  }

  /** The lower-case extension as stored. */
  function StoredExtension(name: Name): seq<byte> {
    Lower(Padded(Extension(name), 3))
  }

  /** Two generated names are equal, ignoring case, exactly when number, remaining stem and extension are. */
  lemma ShortNamesEqual(name: Name, counter: nat, name': Name, counter': nat)
    requires HasTail(name) && HasTail(name') && counter < COUNTER_LIMIT && counter' < COUNTER_LIMIT
    ensures Lower(ShortName(name, counter)) == Lower(ShortName(name', counter'))
      <==>
      && counter == counter' && Remains(name, counter) == Remains(name', counter')
      && StoredExtension(name) == StoredExtension(name')
  {
    hide HasTail, StemField, Lower, Remains, Extension;
    StemFieldsEqual(name, counter, name', counter');
    LowerAppend(StemField(name, counter), Padded(Extension(name), 3));
    LowerAppend(StemField(name', counter'), Padded(Extension(name'), 3));
    SplitEqual(Lower(StemField(name, counter)), StoredExtension(name), Lower(StemField(name', counter')),
      StoredExtension(name'));
  }

  /** The counter key is what remains in front of a one-digit tail. */
  lemma KeyIsRemains(name: Name, name': Name)
    ensures CounterKey(name) == CounterKey(name') <==> Remains(name, 1) == Remains(name', 1)
  {
    var front, front', rest :=
      Padded(Stem(name), 8)[..6], Padded(Stem(name'), 8)[..6], [TILDE, DIGIT_ZERO + 1] + Spaces(3);
    assert front + [TILDE, DIGIT_ZERO + 1] + Spaces(3) == front + rest;
    assert front' + [TILDE, DIGIT_ZERO + 1] + Spaces(3) == front' + rest;
    hide Stem, Padded, Lower;
    LowerAppend(front, rest);
    LowerAppend(front', rest);
    SplitEqual(Lower(front), Lower(rest), Lower(front'), Lower(rest));
  }

  // ---------------------------------------------------------------- over a run

  lemma {:induction false} UsesGrow(names: seq<Name>, i: nat, j: nat, key: seq<byte>)
    requires i <= j <= |names|
    ensures Uses(names[..i], key) <= Uses(names[..j], key)
    ensures i < j && HasTail(names[i]) && CounterKey(names[i]) == key ==> Uses(names[..i], key) < Uses(names[..j], key)
    decreases j
  {
    hide HasTail, CounterKey;
    if i < j {
      assert names[..j][..j - 1] == names[..j - 1];
      UsesGrow(names, i, j - 1, key);
    }
  }

  /**
   * In a run of generated names, two long names get the same short name, ignoring case, exactly
   * when they draw from different counters, reach the same number there, a number of at least
   * two digits, and agree in extension and in what that number leaves of the stem.
   */
  lemma LongNamesCollide(names: seq<Name>, i: nat, j: nat)
    requires TailsFit(names) && i < j < |names| && HasTail(names[i]) && HasTail(names[j])
    ensures Lower(ShortOf(names, i)) == Lower(ShortOf(names, j))
      <==> (&& CounterKey(names[i]) != CounterKey(names[j])
            && TailNumber(names, i) == TailNumber(names, j) >= 10
            && Remains(names[i], TailNumber(names, i)) == Remains(names[j], TailNumber(names, i))
            && StoredExtension(names[i]) == StoredExtension(names[j]))
  {
    hide HasTail, CounterKey, Lower, Remains, StoredExtension, ShortName, TailsFit;
    FittingTails(names, i);
    FittingTails(names, j);
    var m, n := TailNumber(names, i), TailNumber(names, j);
    TailNumberIs(names, i);
    TailNumberIs(names, j);
    ShortNamesEqual(names[i], m, names[j], n);
    UsesGrow(names, i, j, CounterKey(names[i]));
    KeyIsRemains(names[i], names[j]);
    OneDigitRemains(names[i], m);
    OneDigitRemains(names[j], m);
  }

  lemma FittingTails(names: seq<Name>, i: nat)
    requires TailsFit(names) && i < |names|
    ensures TailNumber(names, i) < COUNTER_LIMIT
  {
  }

  lemma OneDigitRemains(name: Name, counter: nat)
    ensures counter < 10 ==> Remains(name, counter) == Remains(name, 1)
  {
  }

  /** While no counter is used more than nine times, generated names are pairwise distinct, ignoring case. */
  lemma LongNamesAreDistinct(names: seq<Name>, i: nat, j: nat)
    requires TailsFit(names) && i < j < |names| && HasTail(names[i]) && HasTail(names[j])
    requires forall k :: 0 <= k < |names| && HasTail(names[k]) ==> Uses(names, CounterKey(names[k])) <= 9
    ensures Lower(ShortOf(names, i)) != Lower(ShortOf(names, j))
  {
    hide CounterKey, Lower, Remains, StoredExtension, ShortName, TailsFit;
    LongNamesCollide(names, i, j);
    TailNumberIs(names, i);
    UsesGrow(names, i, |names|, CounterKey(names[i]));
    assert names[..|names|] == names;
  }

  // ---------------------------------------------------------------- names that are stored as they are

  /** Whether a stem, ignoring case, is spelled like a generated one. */
  predicate SpelledLike(stem: seq<byte>, name: Name, counter: nat)
    requires |stem| <= 8 && counter < COUNTER_LIMIT
  {
    Lower(Padded(stem, 8)) == Remains(name, counter) + ([TILDE] + Digits(counter))
  }

  /**
   * Two short names of a run are equal, ignoring case, exactly when the stored extensions are and
   * the stems are: two generated ones as in `LongNamesCollide`, two plain ones when they are
   * spelled alike, and a plain one with a generated one when it is spelled like it.
   */
  lemma AnyNamesCollide(names: seq<Name>, i: nat, j: nat)
    requires TailsFit(names) && i < |names| && j < |names|
    ensures TailNumber(names, i) < COUNTER_LIMIT && TailNumber(names, j) < COUNTER_LIMIT
    ensures !HasTail(names[i]) && !HasTail(names[j]) ==>
      (Lower(ShortOf(names, i)) == Lower(ShortOf(names, j))
       <==> (&& StoredExtension(names[i]) == StoredExtension(names[j])
             && Lower(Padded(Stem(names[i]), 8)) == Lower(Padded(Stem(names[j]), 8))))
    ensures HasTail(names[i]) && !HasTail(names[j]) ==>
      (Lower(ShortOf(names, i)) == Lower(ShortOf(names, j))
       <==> (&& StoredExtension(names[i]) == StoredExtension(names[j])
             && SpelledLike(Stem(names[j]), names[i], TailNumber(names, i))))
  {
    hide HasTail, Lower, Remains, Padded, StemField, Extension, Stem, TailNumber;
    FittingTails(names, i);
    FittingTails(names, j);
    var m, n := TailNumber(names, i), TailNumber(names, j);
    LoweredShort(names[i], m);
    LoweredShort(names[j], n);
    SplitEqual(Lower(StemField(names[i], m)), StoredExtension(names[i]), Lower(StemField(names[j], n)),
      StoredExtension(names[j]));
    if !HasTail(names[j]) {
      PlainStemField(names[j], n);
    }
    if HasTail(names[i]) {
      LoweredStemField(names[i], m);
    } else {
      PlainStemField(names[i], m);
    }
  }

  lemma LoweredShort(name: Name, counter: nat)
    requires counter < COUNTER_LIMIT
    ensures Lower(ShortName(name, counter)) == Lower(StemField(name, counter)) + StoredExtension(name)
  {
    hide Lower, StemField, Extension, Padded;
    LowerAppend(StemField(name, counter), Padded(Extension(name), 3));
  }

  /** `aaaaaa~1` and the first long name that begins with `aaaaaa` are stored alike. */
  const PLAIN_NAME: Name := [97, 97, 97, 97, 97, 97, 126, 49]
  const LONG_NAME: Name := [97, 97, 97, 97, 97, 97, 98, 98, 98]

  lemma PlainNameCollides()
    ensures var names := [PLAIN_NAME, LONG_NAME];
      TailsFit(names) && !HasTail(names[0]) && HasTail(names[1]) && ShortOf(names, 0) == ShortOf(names, 1)
  {
    hide ShortName, HasTail, TailNumber, CounterKey, Spaces;
    var names := [PLAIN_NAME, LONG_NAME];
    PlainNameIs();
    LongNameIs();
    FirstTail(names);
    assert names[..1] == [PLAIN_NAME];
    TailNumberIs(names, 1);
  }

  lemma FirstTail(names: seq<Name>)
    requires names != [] && !HasTail(names[0])
    ensures TailNumber(names, 0) == 1 && forall key :: Uses(names[..1], key) == 0
  {
    hide HasTail;
    assert names[..1][..0] == [];
  }

  lemma PlainNameIs()
    ensures !HasTail(PLAIN_NAME) && ShortName(PLAIN_NAME, 1) == PLAIN_NAME + Spaces(3)
  {
    NoDot(PLAIN_NAME);
    hide DotIndex;
    assert Stem(PLAIN_NAME) == PLAIN_NAME && Extension(PLAIN_NAME) == [];
    assert PLAIN_NAME + Spaces(0) == PLAIN_NAME;
  }

  lemma LongNameIs()
    ensures HasTail(LONG_NAME) && ShortName(LONG_NAME, 1) == PLAIN_NAME + Spaces(3)
  {
    hide Stem, Extension, HasTail, Padded;
    SampleName(LONG_NAME);
    StemOf(LONG_NAME);
  }

  lemma StemOf(name: Name)
    requires HasTail(name) && Padded(Stem(name), 8) == PLAIN_NAME[..6] + [98, 98] && Extension(name) == []
    ensures ShortName(name, 1) == PLAIN_NAME + Spaces(3)
  {
    hide Stem, Extension, HasTail;
    assert StemField(name, 1) == PLAIN_NAME;
    assert Padded([], 3) == Spaces(3);
  }

  // ---------------------------------------------------------------- ten uses can collide

  const FIRST_NAME: Name := [97, 97, 97, 97, 97, 98, 98, 98, 98]
  const SECOND_NAME: Name := [97, 97, 97, 97, 97, 99, 99, 99, 99]

  function TenOfEach(): (names: seq<Name>)
    ensures |names| == 20
  {
    seq(20, i => if i < 10 then FIRST_NAME else SECOND_NAME)
  }

  lemma NoDot(name: Name)
    requires DOT !in name
    ensures DotIndex(name) == |name|
  {
    assert forall i :: 0 <= i < |name| ==> name[i] in name;
  }

  lemma SampleName(name: Name)
    requires |name| == 9 && DOT !in name
    ensures HasTail(name) && Stem(name) == name[..8] && Extension(name) == []
    ensures Padded(Stem(name), 8) == name[..8]
  {
    NoDot(name);
    assert name[..8] + Spaces(0) == name[..8];
  }

  lemma {:induction false} UsesOfTen(i: nat)
    requires i <= 20
    ensures var names := TenOfEach();
      && Uses(names[..i], CounterKey(FIRST_NAME)) == Min(i, 10)
      && Uses(names[..i], CounterKey(SECOND_NAME)) == i - Min(i, 10)
    decreases i
  {
    KeysDiffer();
    hide HasTail, CounterKey;
    var names := TenOfEach();
    if i > 0 {
      assert names[..i][..i - 1] == names[..i - 1];
      UsesOfTen(i - 1);
    }
  }

  lemma SampleRemains(name: Name)
    requires |name| == 9 && DOT !in name && 97 <= name[5]
    ensures |Remains(name, 1)| == 6 && Remains(name, 1)[5] == name[5]
  {
    SampleName(name);
    hide HasTail, Stem, Extension;
    assert Remains(name, 1) == Lower(name[..8][..6]);
  }

  lemma KeysDiffer()
    ensures HasTail(FIRST_NAME) && HasTail(SECOND_NAME) && CounterKey(FIRST_NAME) != CounterKey(SECOND_NAME)
  {
    hide HasTail, Stem, Extension, CounterKey, Remains;
    SampleName(FIRST_NAME);
    SampleName(SECOND_NAME);
    KeyIsRemains(FIRST_NAME, SECOND_NAME);
    SampleRemains(FIRST_NAME);
    SampleRemains(SECOND_NAME);
  }

  /** The tenth `aaaaabbbb` and the tenth `aaaaacccc` are both stored as `aaaaa~10`. */
  lemma TenthNamesCollide()
    ensures var names := TenOfEach();
      TailsFit(names) && names[9] != names[19] && ShortOf(names, 9) == ShortOf(names, 19)
  {
    hide CounterKey, HasTail, Uses, ShortName, TailNumber;
    var names := TenOfEach();
    KeysDiffer();
    forall i | 0 <= i < 20
      ensures TailNumber(names, i) < COUNTER_LIMIT && (i == 9 || i == 19 ==> TailNumber(names, i) == 10)
    {
      TailNumberIs(names, i);
      UsesOfTen(i);
    }
    TenthShortNames();
  }

  lemma TenthShortNames()
    ensures ShortName(FIRST_NAME, 10) == ShortName(SECOND_NAME, 10)
  {
    hide ShortName, Digits, Spaces;
    TenthShortName(FIRST_NAME);
    TenthShortName(SECOND_NAME);
    assert FIRST_NAME[..5] == SECOND_NAME[..5];
  }

  lemma TenthShortName(name: Name)
    requires |name| == 9 && DOT !in name
    ensures ShortName(name, 10) == name[..5] + [TILDE] + Digits(10) + Spaces(3)
  {
    hide HasTail, Stem, Extension, Digits, DotIndex;
    SampleName(name);
    assert name[..8][..5] == name[..5];
  }
}
