/** Bytes and the little-endian integers every on-disk structure is built from. */
module Bytes {

  type byte = x: int | 0 <= x < 256

  /** A 32-bit number. */
  type dword = x: int | 0 <= x < 0x1_0000_0000

  /** The number of values that fit in `width` bytes. */
  function Limit(width: nat): (r: nat)
    ensures r >= 1
  {
    if width == 0 then 1 else 256 * Limit(width - 1)
  }

  /** The low `width` bytes of `x`, least significant first. */
  function Le(width: nat, x: nat): (s: seq<byte>)
    ensures |s| == width
  {
    if width == 0 then [] else [x % 256] + Le(width - 1, x / 256)
  }

  function FromLe(s: seq<byte>): nat {
    if s == [] then 0 else s[0] + 256 * FromLe(s[1..])
  }

  function Zeros(n: nat): (s: seq<byte>)
    ensures |s| == n && forall i :: 0 <= i < n ==> s[i] == 0
  {
    seq(n, _ => 0)
  }

  /** A buffer with `bytes` written at an offset. */
  function Splice(buffer: seq<byte>, at: nat, bytes: seq<byte>): (s: seq<byte>)
    requires at + |bytes| <= |buffer|
    ensures |s| == |buffer|
  {
    buffer[..at] + bytes + buffer[at + |bytes|..]
  }

  /** An integer survives encoding exactly when it fits in the field. */
  lemma {:induction false} LeRoundTrip(width: nat, x: nat)
    ensures FromLe(Le(width, x)) < Limit(width)
    ensures FromLe(Le(width, x)) == x <==> x < Limit(width)
  {
    if width > 0 {
      LeRoundTrip(width - 1, x / 256);
      assert Le(width, x)[1..] == Le(width - 1, x / 256);
    }
  }

  /** The numbers of values of the usual field widths. */
  lemma Limits()
    ensures Limit(2) == 0x1_0000 && Limit(4) == 0x1_0000_0000 && Limit(8) == 0x1_0000_0000_0000_0000
  {
    assert Limit(1) == 256 && Limit(2) == 0x1_0000 && Limit(3) == 0x100_0000 && Limit(4) == 0x1_0000_0000;
    assert Limit(5) == 0x100_0000_0000 && Limit(6) == 0x1_0000_0000_0000 && Limit(7) == 0x100_0000_0000_0000;
  }

  // ---------------------------------------------------------------- fields of structures

  /** The integer in a field. */
  function Field(s: seq<byte>, at: nat, width: nat): nat
    requires at + width <= |s|
  {
    FromLe(s[at..at + width])
  }

  lemma FieldInside(s: seq<byte>, at: nat, width: nat, x: nat)
    requires at + width <= |s| && s[at..at + width] == Le(width, x) && x < Limit(width)
    ensures Field(s, at, width) == x
  {
    LeRoundTrip(width, x);
  }

  /** A field of a part of a sector. */
  lemma FieldOfPart(s: seq<byte>, before: seq<byte>, part: seq<byte>, after: seq<byte>, at: nat, width: nat)
    requires s == before + part + after && at + width <= |part|
    ensures Field(s, |before| + at, width) == Field(part, at, width)
  {
    assert s[|before| + at..|before| + at + width] == part[at..at + width];
  }
}
