/**
 * The debugger's view of a commit bitmap: maximal runs of equal bits, printed as bursts.
 */
module CommitBitmap {
  import opened Bytes

  /** The bits from `first` to `last`, all of one value. */
  datatype Burst = Burst(first: int, last: int, value: nat)

  function Power(n: nat): nat
    ensures Power(n) >= 1
  {
    if n == 0 then 1 else 2 * Power(n - 1)
  }

  function Quotient(b: byte, power: nat): (q: nat)
    requires power > 0
  {
    b / power
  }

  /** The binary digit of a byte that stands for a power of two. */
  function Digit(b: byte, power: nat): (d: nat)
    requires power > 0
    ensures d <= 1
  {
    Quotient(b, power) % 2
  }

  /** Bit i of a buffer, least significant bit of each byte first. */
  function Bit(buff: seq<byte>, i: nat): (b: nat)
    requires i < 8 * |buff|
    ensures b <= 1
  {
    Digit(buff[i / 8], Power(i % 8))
  }

  /** Bits are taken from the least significant one up: each byte is the sum of its bits' values. */
  lemma ByteFromBits(buff: seq<byte>, k: nat)
    requires k < |buff|
    ensures buff[k]
      == Bit(buff, 8 * k) + 2 * Bit(buff, 8 * k + 1) + 4 * Bit(buff, 8 * k + 2) + 8 * Bit(buff, 8 * k + 3)
       + 16 * Bit(buff, 8 * k + 4) + 32 * Bit(buff, 8 * k + 5) + 64 * Bit(buff, 8 * k + 6) + 128 * Bit(buff, 8 * k + 7)
  {
    hide Power, Bit, Digit;
    Powers();
    BitInByte(buff, k, 0);
    BitInByte(buff, k, 1);
    BitInByte(buff, k, 2);
    BitInByte(buff, k, 3);
    BitInByte(buff, k, 4);
    BitInByte(buff, k, 5);
    BitInByte(buff, k, 6);
    BitInByte(buff, k, 7);
    ByteFromDigits(buff[k]);
  }

  lemma BitInByte(buff: seq<byte>, k: nat, i: nat)
    requires k < |buff| && i < 8
    ensures Bit(buff, 8 * k + i) == Digit(buff[k], Power(i))
  {
    hide Power, Digit;
    assert (8 * k + i) / 8 == k && (8 * k + i) % 8 == i;
  }

  lemma ByteFromDigits(b: byte)
    ensures b == Digit(b, 1) + 2 * Digit(b, 2) + 4 * Digit(b, 4) + 8 * Digit(b, 8)
      + 16 * Digit(b, 16) + 32 * Digit(b, 32) + 64 * Digit(b, 64) + 128 * Digit(b, 128)
  {
    hide Digit, Quotient;
    Ends(b);
    Halves(b, 2);
    Halves(b, 4);
    Halves(b, 8);
    Halves(b, 16);
    Halves(b, 32);
    Halves(b, 64);
    Halves(b, 128);
  }

  lemma Ends(b: byte)
    ensures Quotient(b, 1) == b && Quotient(b, 128) == Digit(b, 128)
  {
  }

  /** A quotient is twice the next one and the digit between them. */
  lemma Halves(b: byte, d: nat)
    requires d == 2 || d == 4 || d == 8 || d == 16 || d == 32 || d == 64 || d == 128
    ensures Quotient(b, d / 2) == 2 * Quotient(b, d) + Digit(b, d / 2)
  {
    if d == 2 {} else if d == 4 {} else if d == 8 {} else if d == 16 {} else if d == 32 {} else if d == 64 {} else {}
  }

  lemma Powers()
    ensures Power(0) == 1 && Power(1) == 2 && Power(2) == 4 && Power(3) == 8
    ensures Power(4) == 16 && Power(5) == 32 && Power(6) == 64 && Power(7) == 128
  {
    assert Power(2) == 4 && Power(4) == 16 && Power(6) == 64;
  }

  /** Every bit of the burst has its value. */
  ghost predicate IsRun(buff: seq<byte>, b: Burst) {
    0 <= b.first <= b.last < 8 * |buff| && forall i :: b.first <= i <= b.last ==> Bit(buff, i) == b.value
  }

  /** Runs that cover the first n bits in order, neighbours having opposite values. */
  ghost predicate Decomposes(bursts: seq<Burst>, buff: seq<byte>, n: nat) {
    && bursts != [] && bursts[0].first == 0 && bursts[|bursts| - 1].last == n - 1
    && (forall k :: 0 <= k < |bursts| ==> IsRun(buff, bursts[k]))
    && (forall k :: 0 <= k < |bursts| - 1 ==>
      bursts[k + 1].first == bursts[k].last + 1 && bursts[k + 1].value != bursts[k].value)
  }

  /** Runs followed by an unfinished one. */
  ghost predicate DecomposesSoFar(bursts: seq<Burst>, start: int, value: nat, buff: seq<byte>, n: nat) {
    if n == 0 then bursts == [] && start == 0 && 8 * |buff| > 0 && value == Bit(buff, 0)
    else Decomposes(bursts + [Burst(start, n - 1, value)], buff, n)
  }

  /**
   * Print the bursts of the first `bitCount` bits. Reading behind the buffer raises an error after
   * the bursts printed so far.
   */
  method DumpBursts(buff: seq<byte>, bitCount: nat) returns (bursts: seq<Burst>, raised: bool)
    ensures raised <==> buff == [] || bitCount > 8 * |buff|
    ensures !raised && bitCount > 0 ==> Decomposes(bursts, buff, bitCount)
    ensures !raised && bitCount == 0 ==> bursts == [Burst(0, -1, Bit(buff, 0))]
    ensures raised && buff == [] ==> bursts == []
    ensures raised && buff != [] ==> exists last :: Decomposes(bursts + [last], buff, 8 * |buff|)
  {
    bursts := [];
    if buff == [] {
      return bursts, true;
    }
    var burstStart, burstVal := 0, Bit(buff, 0);
    for i := 0 to bitCount
      invariant i <= 8 * |buff|
      invariant DecomposesSoFar(bursts, burstStart, burstVal, buff, i)
    {
      if i == 8 * |buff| {
        assert Decomposes(bursts + [Burst(burstStart, i - 1, burstVal)], buff, 8 * |buff|);
        return bursts, true;
      }
      var currBit := Bit(buff, i);
      OneMoreBit(bursts, burstStart, burstVal, buff, i);
      if currBit != burstVal {
        bursts := bursts + [Burst(burstStart, i - 1, burstVal)];
        burstStart := i;
        burstVal := currBit;
      }
    }
    bursts := bursts + [Burst(burstStart, bitCount - 1, burstVal)];
    raised := false;
  }

  lemma OneMoreBit(bursts: seq<Burst>, start: int, value: nat, buff: seq<byte>, n: nat)
    requires n < 8 * |buff| && DecomposesSoFar(bursts, start, value, buff, n)
    ensures Bit(buff, n) == value ==> DecomposesSoFar(bursts, start, value, buff, n + 1)
    ensures Bit(buff, n) != value ==>
      DecomposesSoFar(bursts + [Burst(start, n - 1, value)], n, Bit(buff, n), buff, n + 1)
  {
    hide Bit, Decomposes;
    if n > 0 {
      if Bit(buff, n) == value {
        LastGrows(bursts, Burst(start, n - 1, value), buff, n);
      } else {
        OneMoreRun(bursts + [Burst(start, n - 1, value)], buff, n);
      }
    } else {
      FirstBit(buff);
    }
  }

  lemma FirstBit(buff: seq<byte>)
    requires |buff| > 0
    ensures Decomposes([] + [Burst(0, 0, Bit(buff, 0))], buff, 1)
  {
    hide Bit;
  }

  /** The next bit has the last run's value. */
  lemma LastGrows(bursts: seq<Burst>, last: Burst, buff: seq<byte>, n: nat)
    requires n < 8 * |buff| && Decomposes(bursts + [last], buff, n) && Bit(buff, n) == last.value
    ensures Decomposes(bursts + [last.(last := n)], buff, n + 1)
  {
    hide Bit;
    var whole, longer := bursts + [last], bursts + [last.(last := n)];
    assert whole[|bursts|] == last && IsRun(buff, last);
    assert forall k :: 0 <= k < |bursts| ==> whole[k] == bursts[k] == longer[k];
  }

  /** The next bit has the other value. */
  lemma OneMoreRun(bursts: seq<Burst>, buff: seq<byte>, n: nat)
    requires n < 8 * |buff| && Decomposes(bursts, buff, n) && Bit(buff, n) != bursts[|bursts| - 1].value
    ensures Decomposes(bursts + [Burst(n, n, Bit(buff, n))], buff, n + 1)
  {
    hide Bit;
    var next := bursts + [Burst(n, n, Bit(buff, n))];
    assert forall k :: 0 <= k < |bursts| ==> next[k] == bursts[k];
  }

  // ---------------------------------------------------------------- the runs are the maximal ones

  /** The bits that bursts stand for. */
  function Expand(bursts: seq<Burst>): seq<nat>
    requires forall k :: 0 <= k < |bursts| ==> bursts[k].first <= bursts[k].last
  {
    if bursts == [] then []
    else
      var b := bursts[|bursts| - 1];
      Expand(bursts[..|bursts| - 1]) + seq(b.last - b.first + 1, _ => b.value)
  }

  /** Expanding the bursts gives back every bit. */
  lemma {:induction false} ExpandGivesBits(bursts: seq<Burst>, buff: seq<byte>, n: nat)
    requires Decomposes(bursts, buff, n) && n <= 8 * |buff|
    ensures Expand(bursts) == seq(n, i requires 0 <= i < n => Bit(buff, i))
    decreases |bursts|
  {
    hide Bit;
    var b, front := bursts[|bursts| - 1], bursts[..|bursts| - 1];
    assert IsRun(buff, b);
    if front == [] {
      assert Expand(front) == [];
    } else {
      assert Decomposes(front, buff, b.first);
      ExpandGivesBits(front, buff, b.first);
    }
  }

  /** Two decompositions of the same bits agree up to any of their positions. */
  lemma {:induction false} SameBurst(s: seq<Burst>, t: seq<Burst>, buff: seq<byte>, n: nat, k: nat)
    requires Decomposes(s, buff, n) && Decomposes(t, buff, n) && k < |s|
    ensures k < |t| && s[k] == t[k]
    decreases k
  {
    hide Bit;
    if k > 0 {
      SameBurst(s, t, buff, n, k - 1);
      FirstsAscend(s, buff, n, k - 1);
    }
    SameEnd(s, t, buff, n, k);
    SameEnd(t, s, buff, n, k);
  }

  /** Bursts start inside the bits. */
  lemma {:induction false} FirstsAscend(s: seq<Burst>, buff: seq<byte>, n: nat, k: nat)
    requires Decomposes(s, buff, n) && k < |s|
    ensures s[k].last <= n - 1 && (k < |s| - 1 ==> s[k].last < n - 1)
    decreases |s| - k
  {
    hide Bit;
    assert IsRun(buff, s[k]);
    if k < |s| - 1 {
      FirstsAscend(s, buff, n, k + 1);
      assert IsRun(buff, s[k + 1]);
    }
  }

  /** A burst that starts where another one does cannot end later: the other's successor differs. */
  lemma SameEnd(s: seq<Burst>, t: seq<Burst>, buff: seq<byte>, n: nat, k: nat)
    requires Decomposes(s, buff, n) && Decomposes(t, buff, n) && k < |s| && k < |t| && s[k].first == t[k].first
    ensures s[k].last <= t[k].last && s[k].value == t[k].value
  {
    hide Bit;
    assert IsRun(buff, s[k]) && IsRun(buff, t[k]);
    assert Bit(buff, s[k].first) == s[k].value == t[k].value;
    FirstsAscend(s, buff, n, k);
    if k < |t| - 1 {
      assert IsRun(buff, t[k + 1]);
      assert Bit(buff, t[k + 1].first) == t[k + 1].value;
    }
  }

  /** The decomposition is unique: the bursts are the maximal runs. */
  lemma BurstsAreUnique(s: seq<Burst>, t: seq<Burst>, buff: seq<byte>, n: nat)
    requires Decomposes(s, buff, n) && Decomposes(t, buff, n)
    ensures s == t
  {
    forall k | 0 <= k < |s|
      ensures k < |t| && s[k] == t[k]
    {
      SameBurst(s, t, buff, n, k);
    }
    SameBurst(t, s, buff, n, |t| - 1);
  }
}
