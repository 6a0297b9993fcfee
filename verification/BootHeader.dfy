/**
 * The boot loader's check of the operating system's boot header, and the alterations it detects.
 */
module BootHeader {
  import opened Crc32

  // The header is seven 32-bit fields; the second one holds the checksum.
  const BOOT_HEADER_SIZE := 28
  const CRC_OFFSET := 4

  const ZERO_FIELD: seq<bv8> := [0, 0, 0, 0]

  /** The header with its checksum field replaced. */
  function WithCrc(header: seq<bv8>, field: seq<bv8>): (s: seq<bv8>)
    requires |header| == BOOT_HEADER_SIZE && |field| == 4
    ensures |s| == |header|
  {
    header[..CRC_OFFSET] + field + header[CRC_OFFSET + 4..]
  }

  function CrcField(header: seq<bv8>): (s: seq<bv8>)
    requires |header| == BOOT_HEADER_SIZE
    ensures |s| == 4
  {
    header[CRC_OFFSET..CRC_OFFSET + 4]
  }

  /** A header is valid if bytes 4 to 7 hold the CRC of the header with zeros in their place. */
  predicate HeaderVerifies(header: seq<bv8>)
    requires |header| == 28
  {
    W(Crc(header[..4] + [0, 0, 0, 0] + header[8..])) == Pack(header[4..8])
  }

  /** The loader's check, on a copy of the header whose checksum field is cleared. */
  method VerifyBootHeader(header: array<bv8>) returns (valid: bool)
    requires header.Length == BOOT_HEADER_SIZE
    ensures valid <==> HeaderVerifies(header[..])
  {
    hide Crc, Pack;
    var crcHeader := new bv8[BOOT_HEADER_SIZE];
    for i := 0 to BOOT_HEADER_SIZE
      invariant forall j :: 0 <= j < i ==> crcHeader[j] == header[j]
    {
      crcHeader[i] := header[i];
    }
    crcHeader[CRC_OFFSET], crcHeader[CRC_OFFSET + 1], crcHeader[CRC_OFFSET + 2], crcHeader[CRC_OFFSET + 3] :=
      0, 0, 0, 0;
    assert crcHeader[..BOOT_HEADER_SIZE] == WithCrc(header[..], ZERO_FIELD);
    var crc := ComputeCrc32(crcHeader, BOOT_HEADER_SIZE);
    valid := W(crc) == Pack(header[CRC_OFFSET..CRC_OFFSET + 4]);
  }

  /** Storing the CRC in the checksum field makes any header valid. */
  lemma SealedHeaderVerifies(header: seq<bv8>)
    requires |header| == BOOT_HEADER_SIZE
    ensures HeaderVerifies(WithCrc(header, Unpack(W(Crc(WithCrc(header, ZERO_FIELD))))))
  {
    hide Crc, Unpack, Pack;
    var crc := W(Crc(WithCrc(header, ZERO_FIELD)));
    var out := WithCrc(header, Unpack(crc));
    assert WithCrc(out, ZERO_FIELD) == WithCrc(header, ZERO_FIELD);
    assert CrcField(out) == Unpack(crc);
    UnpackRoundTrip(crc);
  }

  /**
   * A valid header altered only within four consecutive bytes, its checksum field aside or its
   * checksum field alone, is rejected unless nothing changed.
   */
  lemma TamperedHeaderIsRejected(header: seq<bv8>, altered: seq<bv8>, start: nat)
    requires |header| == |altered| == BOOT_HEADER_SIZE
    requires HeaderVerifies(header)
    requires DifferWithin(header, altered, start)
    requires start == 4 || CrcField(altered) == CrcField(header)
    ensures HeaderVerifies(altered) <==> altered == header
  {
    hide Crc, Pack;
    if HeaderVerifies(altered) {
      var f, g := WithCrc(header, ZERO_FIELD), WithCrc(altered, ZERO_FIELD);
      assert header == WithCrc(f, CrcField(header)) && altered == WithCrc(g, CrcField(altered));
      if start == CRC_OFFSET {
        assert f == g;
        PackIsInjective(CrcField(header), CrcField(altered));
      } else {
        assert DifferWithin(f, g, start);
        BurstChangesCrc(f, g, start);
      }
    }
  }
}
