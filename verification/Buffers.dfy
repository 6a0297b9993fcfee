/** Copying and filling parts of a buffer in place. */
module Buffers {
  import opened Bytes

  method CopyBytes(a: array<byte>, at: nat, bytes: seq<byte>)
    requires at + |bytes| <= a.Length
    modifies a
    ensures a[..] == Splice(old(a[..]), at, bytes)
  {
    for i := 0 to |bytes|
      invariant forall j :: 0 <= j < a.Length ==> a[j] == if at <= j < at + i then bytes[j - at] else old(a[j])
    {
      a[at + i] := bytes[i];
    }
  }

  function Filled(value: byte, count: nat): (s: seq<byte>)
    ensures |s| == count && forall i :: 0 <= i < count ==> s[i] == value
  {
    seq(count, _ => value)
  }

  method FillBytes(a: array<byte>, at: nat, value: byte, count: nat)
    requires at + count <= a.Length
    modifies a
    ensures a[..] == Splice(old(a[..]), at, Filled(value, count))
  {
    for i := 0 to count
      invariant forall j :: 0 <= j < a.Length ==> a[j] == if at <= j < at + i then value else old(a[j])
    {
      a[at + i] := value;
    }
  }
}
