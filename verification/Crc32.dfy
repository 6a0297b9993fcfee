/**
 * CRC-32 as the image creator and the boot loader compute it (section 3.2.9 of IEEE 802.3,
 * reflected, polynomial 0xEDB88320): the bit-by-bit definition, the table-driven loop that must
 * equal it, and the errors the checksum is certain to detect.
 */
module Crc32 {
  /** A 32-bit register. The wrapper keeps bit-level reasoning inside the lemmas that need it. */
  datatype Word = W(bits: bv32)

  const POLYNOMIAL: bv32 := 0xEDB88320
  const ONES := W(0xFFFF_FFFF)

  function Xor(a: Word, b: Word): Word {
    W(a.bits ^ b.bits)
  }

  function OfByte(b: bv8): Word {
    W(b as bv32)
  }

  // ---------------------------------------------------------------- bit-by-bit definition

  /** Shift one bit out of the register. */
  function BitStepBits(crc: bv32): bv32 {
    (crc >> 1) ^ (if crc & 1 == 1 then POLYNOMIAL else 0)
  }

  function BitStep(crc: Word): Word {
    W(BitStepBits(crc.bits))
  }

  function ByteStep(crc: Word): Word {
    BitStep(BitStep(BitStep(BitStep(BitStep(BitStep(BitStep(BitStep(crc))))))))
  }

  function Feed(crc: Word, b: bv8): Word {
    ByteStep(Xor(crc, OfByte(b)))
  }

  /** The register after `message` has been shifted in, starting from `crc`. */
  function Register(crc: Word, message: seq<bv8>): Word
    decreases |message|
  {
    if message == [] then crc else Register(Feed(crc, message[0]), message[1..])
  }

  /** The CRC-32 of a message. */
  function Crc(message: seq<bv8>): bv32 {
    Xor(Register(ONES, message), ONES).bits
  }

  // ---------------------------------------------------------------- laws of exclusive or

  lemma XorWithZero(a: Word)
    ensures Xor(a, W(0)) == a
  {
  }

  lemma XorIsCommutative(a: Word, b: Word)
    ensures Xor(a, b) == Xor(b, a)
  {
  }

  lemma XorIsAssociative(a: Word, b: Word, c: Word)
    ensures Xor(Xor(a, b), c) == Xor(a, Xor(b, c))
  {
  }

  lemma XorCancels(a: Word, b: Word, c: Word)
    requires Xor(a, c) == Xor(b, c)
    ensures a == b
  {
  }

  // ---------------------------------------------------------------- algebra of the register

  lemma ShiftIsLinear(a: bv32, b: bv32)
    ensures (a ^ b) >> 1 == (a >> 1) ^ (b >> 1)
    ensures (a ^ b) & 1 == (a & 1) ^ (b & 1)
  {
  }

  lemma CaretLaws(x: bv32, y: bv32, z: bv32)
    ensures (x ^ z) ^ (y ^ z) == x ^ y
    ensures (x ^ z) ^ y == (x ^ y) ^ z
    ensures x ^ (y ^ z) == (x ^ y) ^ z
  {
  }

  lemma ZeroIsNeutral(x: bv32)
    ensures x ^ 0 == x
  {
  }

  lemma LowBit(a: bv32)
    ensures a & 1 == 0 || a & 1 == 1
  {
  }

  lemma BitStepOfSum(a: bv32, b: bv32, sum: bv32)
    requires sum == a ^ b
    ensures BitStep(W(sum)) == Xor(BitStep(W(a)), BitStep(W(b)))
  {
    ShiftIsLinear(a, b);
    LowBit(a);
    LowBit(b);
    CaretLaws(a >> 1, b >> 1, POLYNOMIAL);
    ZeroIsNeutral(a >> 1);
    ZeroIsNeutral(b >> 1);
    ZeroIsNeutral((a >> 1) ^ (b >> 1));
    if a & 1 == 1 {
      if b & 1 == 1 {} else {}
    } else {
      if b & 1 == 1 {} else {}
    }
  }

  lemma BitStepIsLinear(a: Word, b: Word)
    ensures BitStep(Xor(a, b)) == Xor(BitStep(a), BitStep(b))
  {
    hide BitStep;
    BitStepOfSum(a.bits, b.bits, Xor(a, b).bits);
  }

  lemma ByteStepIsLinear(a: Word, b: Word)
    ensures ByteStep(Xor(a, b)) == Xor(ByteStep(a), ByteStep(b))
  {
    hide BitStep, Xor;
    var x, y := a, b;
    BitStepIsLinear(x, y); x, y := BitStep(x), BitStep(y);
    BitStepIsLinear(x, y); x, y := BitStep(x), BitStep(y);
    BitStepIsLinear(x, y); x, y := BitStep(x), BitStep(y);
    BitStepIsLinear(x, y); x, y := BitStep(x), BitStep(y);
    BitStepIsLinear(x, y); x, y := BitStep(x), BitStep(y);
    BitStepIsLinear(x, y); x, y := BitStep(x), BitStep(y);
    BitStepIsLinear(x, y); x, y := BitStep(x), BitStep(y);
    BitStepIsLinear(x, y);
  }

  /** The top bit of the next register tells which bit was shifted out. */
  lemma TopBit(x: bv32, y: bv32)
    ensures x >> 1 != (y >> 1) ^ POLYNOMIAL
    ensures x >> 1 == y >> 1 && x & 1 == y & 1 ==> x == y
    ensures (x >> 1) ^ POLYNOMIAL == (y >> 1) ^ POLYNOMIAL ==> x >> 1 == y >> 1
    ensures (x >> 1) ^ 0 == x >> 1
  {
  }

  lemma BitStepIsInjective(a: Word, b: Word)
    requires BitStep(a) == BitStep(b)
    ensures a == b
  {
    TopBit(a.bits, b.bits);
    TopBit(b.bits, a.bits);
    LowBit(a.bits);
    LowBit(b.bits);
  }

  lemma ByteStepIsInjective(a: Word, b: Word)
    requires ByteStep(a) == ByteStep(b)
    ensures a == b
  {
    hide BitStep;
    var a1, b1 := BitStep(a), BitStep(b);
    var a2, b2 := BitStep(a1), BitStep(b1);
    var a3, b3 := BitStep(a2), BitStep(b2);
    var a4, b4 := BitStep(a3), BitStep(b3);
    var a5, b5 := BitStep(a4), BitStep(b4);
    var a6, b6 := BitStep(a5), BitStep(b5);
    BitStepIsInjective(BitStep(a6), BitStep(b6));
    BitStepIsInjective(a6, b6);
    BitStepIsInjective(a5, b5);
    BitStepIsInjective(a4, b4);
    BitStepIsInjective(a3, b3);
    BitStepIsInjective(a2, b2);
    BitStepIsInjective(a1, b1);
    BitStepIsInjective(a, b);
  }

  lemma FeedIsInjective(a: Word, b: Word, m: bv8)
    requires Feed(a, m) == Feed(b, m)
    ensures a == b
  {
    hide ByteStep, Xor, OfByte;
    ByteStepIsInjective(Xor(a, OfByte(m)), Xor(b, OfByte(m)));
    XorCancels(a, b, OfByte(m));
  }

  /** The register moved up one byte. */
  function Shl8(w: Word): Word {
    W(w.bits << 8)
  }

  function Shl(w: Word, n: nat): Word
    requires n <= 8
  {
    match n
    case 0 => w
    case 1 => W(w.bits << 1)
    case 2 => W(w.bits << 2)
    case 3 => W(w.bits << 3)
    case 4 => W(w.bits << 4)
    case 5 => W(w.bits << 5)
    case 6 => W(w.bits << 6)
    case 7 => W(w.bits << 7)
    case _ => Shl8(w)
  }

  /** Whether the top byte of the register is clear, so that it can move up one byte. */
  predicate HasRoom(w: Word) {
    w.bits < 0x100_0000
  }

  lemma StepDown8(w: Word) requires HasRoom(w) ensures BitStep(Shl(w, 8)) == Shl(w, 7) {}
  lemma StepDown7(w: Word) requires HasRoom(w) ensures BitStep(Shl(w, 7)) == Shl(w, 6) {}
  lemma StepDown6(w: Word) requires HasRoom(w) ensures BitStep(Shl(w, 6)) == Shl(w, 5) {}
  lemma StepDown5(w: Word) requires HasRoom(w) ensures BitStep(Shl(w, 5)) == Shl(w, 4) {}
  lemma StepDown4(w: Word) requires HasRoom(w) ensures BitStep(Shl(w, 4)) == Shl(w, 3) {}
  lemma StepDown3(w: Word) requires HasRoom(w) ensures BitStep(Shl(w, 3)) == Shl(w, 2) {}
  lemma StepDown2(w: Word) requires HasRoom(w) ensures BitStep(Shl(w, 2)) == Shl(w, 1) {}
  lemma StepDown1(w: Word) requires HasRoom(w) ensures BitStep(Shl(w, 1)) == Shl(w, 0) {}

  /** A register whose low byte is clear only shifts. */
  lemma ByteStepShifts(w: Word)
    requires HasRoom(w)
    ensures ByteStep(Shl8(w)) == w
  {
    assert Shl(w, 8) == Shl8(w) && Shl(w, 0) == w;
    hide BitStep, Shl, Shl8, HasRoom;
    StepDown8(w);
    StepDown7(w);
    StepDown6(w);
    StepDown5(w);
    StepDown4(w);
    StepDown3(w);
    StepDown2(w);
    StepDown1(w);
  }

  // ---------------------------------------------------------------- the lookup table

  const ROW_0: seq<bv32> := [
    0x00000000, 0x77073096, 0xEE0E612C, 0x990951BA, 0x076DC419, 0x706AF48F, 0xE963A535, 0x9E6495A3,
    0x0EDB8832, 0x79DCB8A4, 0xE0D5E91E, 0x97D2D988, 0x09B64C2B, 0x7EB17CBD, 0xE7B82D07, 0x90BF1D91
  ]
  const ROW_1: seq<bv32> := [
    0x1DB71064, 0x6AB020F2, 0xF3B97148, 0x84BE41DE, 0x1ADAD47D, 0x6DDDE4EB, 0xF4D4B551, 0x83D385C7,
    0x136C9856, 0x646BA8C0, 0xFD62F97A, 0x8A65C9EC, 0x14015C4F, 0x63066CD9, 0xFA0F3D63, 0x8D080DF5
  ]
  const ROW_2: seq<bv32> := [
    0x3B6E20C8, 0x4C69105E, 0xD56041E4, 0xA2677172, 0x3C03E4D1, 0x4B04D447, 0xD20D85FD, 0xA50AB56B,
    0x35B5A8FA, 0x42B2986C, 0xDBBBC9D6, 0xACBCF940, 0x32D86CE3, 0x45DF5C75, 0xDCD60DCF, 0xABD13D59
  ]
  const ROW_3: seq<bv32> := [
    0x26D930AC, 0x51DE003A, 0xC8D75180, 0xBFD06116, 0x21B4F4B5, 0x56B3C423, 0xCFBA9599, 0xB8BDA50F,
    0x2802B89E, 0x5F058808, 0xC60CD9B2, 0xB10BE924, 0x2F6F7C87, 0x58684C11, 0xC1611DAB, 0xB6662D3D
  ]
  const ROW_4: seq<bv32> := [
    0x76DC4190, 0x01DB7106, 0x98D220BC, 0xEFD5102A, 0x71B18589, 0x06B6B51F, 0x9FBFE4A5, 0xE8B8D433,
    0x7807C9A2, 0x0F00F934, 0x9609A88E, 0xE10E9818, 0x7F6A0DBB, 0x086D3D2D, 0x91646C97, 0xE6635C01
  ]
  const ROW_5: seq<bv32> := [
    0x6B6B51F4, 0x1C6C6162, 0x856530D8, 0xF262004E, 0x6C0695ED, 0x1B01A57B, 0x8208F4C1, 0xF50FC457,
    0x65B0D9C6, 0x12B7E950, 0x8BBEB8EA, 0xFCB9887C, 0x62DD1DDF, 0x15DA2D49, 0x8CD37CF3, 0xFBD44C65
  ]
  const ROW_6: seq<bv32> := [
    0x4DB26158, 0x3AB551CE, 0xA3BC0074, 0xD4BB30E2, 0x4ADFA541, 0x3DD895D7, 0xA4D1C46D, 0xD3D6F4FB,
    0x4369E96A, 0x346ED9FC, 0xAD678846, 0xDA60B8D0, 0x44042D73, 0x33031DE5, 0xAA0A4C5F, 0xDD0D7CC9
  ]
  const ROW_7: seq<bv32> := [
    0x5005713C, 0x270241AA, 0xBE0B1010, 0xC90C2086, 0x5768B525, 0x206F85B3, 0xB966D409, 0xCE61E49F,
    0x5EDEF90E, 0x29D9C998, 0xB0D09822, 0xC7D7A8B4, 0x59B33D17, 0x2EB40D81, 0xB7BD5C3B, 0xC0BA6CAD
  ]
  const ROW_8: seq<bv32> := [
    0xEDB88320, 0x9ABFB3B6, 0x03B6E20C, 0x74B1D29A, 0xEAD54739, 0x9DD277AF, 0x04DB2615, 0x73DC1683,
    0xE3630B12, 0x94643B84, 0x0D6D6A3E, 0x7A6A5AA8, 0xE40ECF0B, 0x9309FF9D, 0x0A00AE27, 0x7D079EB1
  ]
  const ROW_9: seq<bv32> := [
    0xF00F9344, 0x8708A3D2, 0x1E01F268, 0x6906C2FE, 0xF762575D, 0x806567CB, 0x196C3671, 0x6E6B06E7,
    0xFED41B76, 0x89D32BE0, 0x10DA7A5A, 0x67DD4ACC, 0xF9B9DF6F, 0x8EBEEFF9, 0x17B7BE43, 0x60B08ED5
  ]
  const ROW_A: seq<bv32> := [
    0xD6D6A3E8, 0xA1D1937E, 0x38D8C2C4, 0x4FDFF252, 0xD1BB67F1, 0xA6BC5767, 0x3FB506DD, 0x48B2364B,
    0xD80D2BDA, 0xAF0A1B4C, 0x36034AF6, 0x41047A60, 0xDF60EFC3, 0xA867DF55, 0x316E8EEF, 0x4669BE79
  ]
  const ROW_B: seq<bv32> := [
    0xCB61B38C, 0xBC66831A, 0x256FD2A0, 0x5268E236, 0xCC0C7795, 0xBB0B4703, 0x220216B9, 0x5505262F,
    0xC5BA3BBE, 0xB2BD0B28, 0x2BB45A92, 0x5CB36A04, 0xC2D7FFA7, 0xB5D0CF31, 0x2CD99E8B, 0x5BDEAE1D
  ]
  const ROW_C: seq<bv32> := [
    0x9B64C2B0, 0xEC63F226, 0x756AA39C, 0x026D930A, 0x9C0906A9, 0xEB0E363F, 0x72076785, 0x05005713,
    0x95BF4A82, 0xE2B87A14, 0x7BB12BAE, 0x0CB61B38, 0x92D28E9B, 0xE5D5BE0D, 0x7CDCEFB7, 0x0BDBDF21
  ]
  const ROW_D: seq<bv32> := [
    0x86D3D2D4, 0xF1D4E242, 0x68DDB3F8, 0x1FDA836E, 0x81BE16CD, 0xF6B9265B, 0x6FB077E1, 0x18B74777,
    0x88085AE6, 0xFF0F6A70, 0x66063BCA, 0x11010B5C, 0x8F659EFF, 0xF862AE69, 0x616BFFD3, 0x166CCF45
  ]
  const ROW_E: seq<bv32> := [
    0xA00AE278, 0xD70DD2EE, 0x4E048354, 0x3903B3C2, 0xA7672661, 0xD06016F7, 0x4969474D, 0x3E6E77DB,
    0xAED16A4A, 0xD9D65ADC, 0x40DF0B66, 0x37D83BF0, 0xA9BCAE53, 0xDEBB9EC5, 0x47B2CF7F, 0x30B5FFE9
  ]
  const ROW_F: seq<bv32> := [
    0xBDBDF21C, 0xCABAC28A, 0x53B39330, 0x24B4A3A6, 0xBAD03605, 0xCDD70693, 0x54DE5729, 0x23D967BF,
    0xB3667A2E, 0xC4614AB8, 0x5D681B02, 0x2A6F2B94, 0xB40BBE37, 0xC30C8EA1, 0x5A05DF1B, 0x2D02EF8D
  ]

  /** The 256-entry lookup table, in rows of sixteen. */
  function TableRow(h: nat): (row: seq<bv32>)
    requires h < 16
    ensures |row| == 16
  {
    match h
    case 0 => ROW_0
    case 1 => ROW_1
    case 2 => ROW_2
    case 3 => ROW_3
    case 4 => ROW_4
    case 5 => ROW_5
    case 6 => ROW_6
    case 7 => ROW_7
    case 8 => ROW_8
    case 9 => ROW_9
    case 10 => ROW_A
    case 11 => ROW_B
    case 12 => ROW_C
    case 13 => ROW_D
    case 14 => ROW_E
    case _ => ROW_F
  }

  function TableEntry(i: bv8): Word {
    Nibbles(i);
    W(TableRow((i >> 4) as nat)[(i & 15) as nat])
  }

  lemma Nibbles(i: bv8)
    ensures (i >> 4) as nat < 16 && (i & 15) as nat < 16
  {
  }

  // The comparison of the table with the definition, in four parts.

  lemma Quarter0(i: bv8)
    requires 0 <= i < 64
    ensures TableEntry(i) == ByteStep(W(i as bv32))
  {
  }

  lemma Quarter1(i: bv8)
    requires 64 <= i < 128
    ensures TableEntry(i) == ByteStep(W(i as bv32))
  {
  }

  lemma Quarter2(i: bv8)
    requires 128 <= i < 192
    ensures TableEntry(i) == ByteStep(W(i as bv32))
  {
  }

  lemma Quarter3(i: bv8)
    requires 192 <= i
    ensures TableEntry(i) == ByteStep(W(i as bv32))
  {
  }

  /** All 256 constants are the eight-fold bit step of their index. */
  lemma TableIsByteStep(i: bv8)
    ensures TableEntry(i) == ByteStep(W(i as bv32))
  {
    hide TableEntry, ByteStep;
    if i < 64 { Quarter0(i); } else if i < 128 { Quarter1(i); } else if i < 192 { Quarter2(i); } else { Quarter3(i); }
  }

  /** The table index: the low byte of the register combined with the next byte. */
  function TableIndex(crc: Word, b: bv8): bv8 {
    ((crc.bits & 0xFF) as bv8) ^ b
  }

  /** One step of the loop: a shift and a table access. */
  function TableFeed(crc: Word, b: bv8): Word {
    Xor(W(crc.bits >> 8), TableEntry(TableIndex(crc, b)))
  }

  lemma SplitRegister(crc: Word, b: bv8)
    ensures HasRoom(W(crc.bits >> 8))
    ensures Xor(crc, OfByte(b)) == Xor(Shl8(W(crc.bits >> 8)), W(TableIndex(crc, b) as bv32))
  {
  }

  /** The table step of the loop is the bit-by-bit step of the definition. */
  lemma TableStep(crc: Word, b: bv8)
    ensures TableFeed(crc, b) == Feed(crc, b)
  {
    hide ByteStep, TableEntry, TableIndex, Xor, OfByte, HasRoom, Shl8;
    SplitRegister(crc, b);
    TableIsByteStep(TableIndex(crc, b));
    ByteStepShifts(W(crc.bits >> 8));
    ByteStepIsLinear(Shl8(W(crc.bits >> 8)), W(TableIndex(crc, b) as bv32));
  }

  // ---------------------------------------------------------------- the loop

  lemma {:induction false} RegisterAppend(crc: Word, s: seq<bv8>, t: seq<bv8>)
    ensures Register(crc, s + t) == Register(Register(crc, s), t)
    decreases |s|
  {
    hide Feed;
    if s == [] {
      assert s + t == t;
    } else {
      assert (s + t)[1..] == s[1..] + t;
      RegisterAppend(Feed(crc, s[0]), s[1..], t);
    }
  }

  lemma EmptyCrc()
    ensures Crc([]) == 0
  {
  }

  /** A null buffer or a zero length yields 0; every other call yields the bit-by-bit CRC. */
  method ComputeCrc32(data: array?<bv8>, length: nat) returns (crc: bv32)
    requires data != null ==> length <= data.Length
    ensures crc == if data == null then 0 else Crc(data[..length])
  {
    hide Feed, TableFeed, Xor;
    if length == 0 || data == null {
      EmptyCrc();
      assert data != null ==> data[..length] == [];
      return 0;
    }
    var register := ONES;
    for index := 0 to length
      invariant register == Register(ONES, data[..index])
    {
      assert data[..index + 1] == data[..index] + [data[index]];
      RegisterAppend(ONES, data[..index], [data[index]]);
      TableStep(register, data[index]);
      register := TableFeed(register, data[index]);
    }
    crc := Xor(register, ONES).bits;
  }

  // ---------------------------------------------------------------- detected errors

  lemma {:induction false} RegisterIsInjective(a: Word, b: Word, message: seq<bv8>)
    requires Register(a, message) == Register(b, message)
    ensures a == b
    decreases |message|
  {
    hide Feed;
    if message != [] {
      RegisterIsInjective(Feed(a, message[0]), Feed(b, message[0]), message[1..]);
      FeedIsInjective(a, b, message[0]);
    }
  }

  /** Shifting in a byte after a step is shifting it in, one byte up, before the step. */
  lemma Lookahead(x: Word, y: Word)
    requires HasRoom(y)
    ensures Xor(ByteStep(x), y) == ByteStep(Xor(x, Shl8(y)))
  {
    hide ByteStep, Xor, Shl8, HasRoom;
    ByteStepIsLinear(x, Shl8(y));
    ByteStepShifts(y);
  }

  /** Bytes as one little-endian register value. */
  function Pack(s: seq<bv8>): Word {
    if s == [] then W(0) else Xor(OfByte(s[0]), Shl8(Pack(s[1..])))
  }

  lemma ShortPackHasRoom(s: seq<bv8>)
    requires |s| <= 3
    ensures HasRoom(Pack(s))
  {
    PackIsBounded(s);
  }

  /** The first register value that does not fit in n bytes. */
  function Bound(n: nat): bv32
    requires n <= 3
  {
    match n case 0 => 1 case 1 => 0x100 case 2 => 0x1_0000 case _ => 0x100_0000
  }

  lemma {:induction false} PackIsBounded(s: seq<bv8>)
    requires |s| <= 3
    ensures Pack(s).bits < Bound(|s|)
  {
    hide Xor, Shl8, OfByte;
    if s != [] {
      PackIsBounded(s[1..]);
      PackStepIsBounded(s[0], Pack(s[1..]), |s|);
    }
  }

  lemma PackStepIsBounded(low: bv8, high: Word, n: nat)
    requires 0 < n <= 3 && high.bits < Bound(n - 1)
    ensures Xor(OfByte(low), Shl8(high)).bits < Bound(n)
  {
    PackBits(low, high.bits);
  }

  lemma PackBits(low: bv8, high: bv32)
    ensures high < 1 ==> (low as bv32) ^ (high << 8) < 0x100
    ensures high < 0x100 ==> (low as bv32) ^ (high << 8) < 0x1_0000
    ensures high < 0x1_0000 ==> (low as bv32) ^ (high << 8) < 0x100_0000
  {
  }

  /** The bytes of a word, least significant first. */
  function Unpack(w: Word): (s: seq<bv8>)
    ensures |s| == 4
  {
    [(w.bits & 0xFF) as bv8, ((w.bits >> 8) & 0xFF) as bv8,
     ((w.bits >> 16) & 0xFF) as bv8, ((w.bits >> 24) & 0xFF) as bv8]
  }

  lemma PackOfFour(a: bv8, b: bv8, c: bv8, d: bv8)
    ensures Pack([a, b, c, d])
      == Xor(OfByte(a), Shl8(Xor(OfByte(b), Shl8(Xor(OfByte(c), Shl8(Xor(OfByte(d), Shl8(W(0)))))))))
  {
    hide Xor, Shl8, OfByte;
    assert [a, b, c, d][1..] == [b, c, d] && [b, c, d][1..] == [c, d] && [c, d][1..] == [d] && [d][1..] == [];
    assert Pack([d]) == Xor(OfByte(d), Shl8(Pack([])));
    assert Pack([c, d]) == Xor(OfByte(c), Shl8(Pack([d])));
    assert Pack([b, c, d]) == Xor(OfByte(b), Shl8(Pack([c, d])));
  }

  lemma UnpackedBits(w: Word)
    ensures Xor(OfByte((w.bits & 0xFF) as bv8), Shl8(Xor(OfByte(((w.bits >> 8) & 0xFF) as bv8),
      Shl8(Xor(OfByte(((w.bits >> 16) & 0xFF) as bv8), Shl8(Xor(OfByte(((w.bits >> 24) & 0xFF) as bv8),
      Shl8(W(0))))))))) == w
  {
  }

  lemma UnpackRoundTrip(w: Word)
    ensures Pack(Unpack(w)) == w
  {
    hide Xor, Shl8, OfByte;
    var s := Unpack(w);
    PackOfFour(s[0], s[1], s[2], s[3]);
    UnpackedBits(w);
  }

  function ByteSteps(n: nat, w: Word): Word {
    if n == 0 then w else ByteSteps(n - 1, ByteStep(w))
  }

  /** Up to four bytes enter the register as one little-endian word. */
  lemma {:induction false} BytesEnterAsWord(crc: Word, s: seq<bv8>)
    requires |s| <= 4
    ensures Register(crc, s) == ByteSteps(|s|, Xor(crc, Pack(s)))
    decreases |s|
  {
    hide ByteStep, Xor, Shl8, OfByte, HasRoom;
    if s == [] {
      XorWithZero(crc);
    } else {
      var rest := Pack(s[1..]);
      ShortPackHasRoom(s[1..]);
      BytesEnterAsWord(Feed(crc, s[0]), s[1..]);
      Lookahead(Xor(crc, OfByte(s[0])), rest);
      XorIsAssociative(crc, OfByte(s[0]), Shl8(rest));
    }
  }

  lemma {:induction false} ByteStepsAreInjective(n: nat, a: Word, b: Word)
    requires ByteSteps(n, a) == ByteSteps(n, b)
    ensures a == b
  {
    hide ByteStep;
    if n > 0 {
      ByteStepsAreInjective(n - 1, ByteStep(a), ByteStep(b));
      ByteStepIsInjective(a, b);
    }
  }

  lemma PackIsInjective(s: seq<bv8>, t: seq<bv8>)
    requires |s| == |t| <= 4
    requires Pack(s) == Pack(t)
    ensures s == t
  {
    hide Xor, Shl8, OfByte, HasRoom;
    if s != [] {
      ShortPackHasRoom(s[1..]);
      ShortPackHasRoom(t[1..]);
      PackStepIsInjective(s[0], t[0], Pack(s[1..]), Pack(t[1..]));
      PackIsInjective(s[1..], t[1..]);
      assert s == [s[0]] + s[1..] && t == [t[0]] + t[1..];
    }
  }

  lemma PackStepIsInjective(a: bv8, b: bv8, x: Word, y: Word)
    requires HasRoom(x) && HasRoom(y)
    requires Xor(OfByte(a), Shl8(x)) == Xor(OfByte(b), Shl8(y))
    ensures a == b && x == y
  {
  }

  /** Two windows of at most four bytes that leave the same register are the same window. */
  lemma WindowIsInjective(crc: Word, s: seq<bv8>, t: seq<bv8>)
    requires |s| == |t| <= 4
    requires Register(crc, s) == Register(crc, t)
    ensures s == t
  {
    hide ByteSteps, Register, Xor, Pack;
    BytesEnterAsWord(crc, s);
    BytesEnterAsWord(crc, t);
    ByteStepsAreInjective(|s|, Xor(crc, Pack(s)), Xor(crc, Pack(t)));
    XorIsCommutative(crc, Pack(s));
    XorIsCommutative(crc, Pack(t));
    XorCancels(Pack(s), Pack(t), crc);
    PackIsInjective(s, t);
  }

  /** Whether two messages of one length agree everywhere except in four consecutive bytes. */
  ghost predicate DifferWithin(s: seq<bv8>, t: seq<bv8>, start: nat) {
    |s| == |t| && forall i :: 0 <= i < |s| && !(start <= i < start + 4) ==> s[i] == t[i]
  }

  /** A change confined to four consecutive bytes always changes the CRC. */
  lemma BurstChangesCrc(s: seq<bv8>, t: seq<bv8>, start: nat)
    requires DifferWithin(s, t, start)
    ensures Crc(s) == Crc(t) <==> s == t
  {
    hide Register, Xor;
    if Crc(s) == Crc(t) {
      assert Xor(Register(ONES, s), ONES) == Xor(Register(ONES, t), ONES);
      XorCancels(Register(ONES, s), Register(ONES, t), ONES);
      if start < |s| {
        var stop := if start + 4 <= |s| then start + 4 else |s|;
        var before, x, y, after := s[..start], s[start..stop], t[start..stop], s[stop..];
        assert before == t[..start] && after == t[stop..];
        assert s == before + (x + after) && t == before + (y + after);
        var crc := Register(ONES, before);
        RegisterAppend(ONES, before, x + after);
        RegisterAppend(ONES, before, y + after);
        RegisterAppend(crc, x, after);
        RegisterAppend(crc, y, after);
        RegisterIsInjective(Register(crc, x), Register(crc, y), after);
        WindowIsInjective(crc, x, y);
      } else {
        assert s == t;
      }
    }
  }

  // ---------------------------------------------------------------- the values of the standard

  lemma Fed1() ensures Feed(W(0xFFFF_FFFF), 0x31) == W(0x7C23_1048) {}
  lemma Fed2() ensures Feed(W(0x7C23_1048), 0x32) == W(0xB0AC_BB32) {}
  lemma Fed3() ensures Feed(W(0xB0AC_BB32), 0x33) == W(0x77B7_9C2D) {}
  lemma Fed4() ensures Feed(W(0x77B7_9C2D), 0x34) == W(0x641C_1F5C) {}
  lemma Fed5() ensures Feed(W(0x641C_1F5C), 0x35) == W(0x340A_C5E3) {}
  lemma Fed6() ensures Feed(W(0x340A_C5E3), 0x36) == W(0xF68D_2C9E) {}
  lemma Fed7() ensures Feed(W(0xF68D_2C9E), 0x37) == W(0xAFFC_9660) {}
  lemma Fed8() ensures Feed(W(0xAFFC_9660), 0x38) == W(0x651F_2550) {}
  lemma Fed9() ensures Feed(W(0x651F_2550), 0x39) == W(0x340B_C6D9) {}

  /** The check value of CRC-32: that of the digits 1 to 9. */
  lemma CheckValue()
    ensures Crc([0x31, 0x32, 0x33, 0x34, 0x35, 0x36, 0x37, 0x38, 0x39]) == 0xCBF4_3926
  {
    DigitsFed();
    Complement(0x340B_C6D9);
    hide Register, Xor;
  }

  lemma Complement(a: bv32)
    ensures Xor(W(a), ONES).bits == a ^ 0xFFFF_FFFF
  {
  }

  /** The i-th byte of a message takes the register one step further. */
  lemma OneFed(crc: Word, s: seq<bv8>, i: nat, next: Word)
    requires i < |s| && Feed(crc, s[i]) == next
    ensures Register(crc, s[i..]) == Register(next, s[i + 1..])
  {
    hide Feed;
    assert s[i..][1..] == s[i + 1..];
  }

  lemma DigitsFed()
    ensures Register(ONES, [0x31, 0x32, 0x33, 0x34, 0x35, 0x36, 0x37, 0x38, 0x39]) == W(0x340B_C6D9)
  {
    hide Feed, Register;
    Fed1(); Fed2(); Fed3(); Fed4(); Fed5(); Fed6(); Fed7(); Fed8(); Fed9();
    var s: seq<bv8> := [0x31, 0x32, 0x33, 0x34, 0x35, 0x36, 0x37, 0x38, 0x39];
    OneFed(W(0xFFFF_FFFF), s, 0, W(0x7C23_1048));
    OneFed(W(0x7C23_1048), s, 1, W(0xB0AC_BB32));
    OneFed(W(0xB0AC_BB32), s, 2, W(0x77B7_9C2D));
    OneFed(W(0x77B7_9C2D), s, 3, W(0x641C_1F5C));
    OneFed(W(0x641C_1F5C), s, 4, W(0x340A_C5E3));
    OneFed(W(0x340A_C5E3), s, 5, W(0xF68D_2C9E));
    OneFed(W(0xF68D_2C9E), s, 6, W(0xAFFC_9660));
    OneFed(W(0xAFFC_9660), s, 7, W(0x651F_2550));
    OneFed(W(0x651F_2550), s, 8, W(0x340B_C6D9));
    NothingFed(W(0x340B_C6D9));
    assert s[0..] == s && s[9..] == [];
  }

  lemma NothingFed(crc: Word)
    ensures Register(crc, []) == crc
  {
  }

  lemma ZeroFed() ensures Feed(W(0xFFFF_FFFF), 0) == W(0x2DFD_1072) {}

  /** A zero byte in front of a message changes the CRC: the register does not start at zero. */
  lemma LeadingZeroChangesCrc(m: seq<bv8>)
    ensures Crc([0] + m) != Crc(m)
  {
    hide Register, Feed, Xor;
    ZeroFed();
    OneFed(ONES, [0] + m, 0, W(0x2DFD_1072));
    assert ([0] + m)[0..] == [0] + m && ([0] + m)[1..] == m;
    if Crc([0] + m) == Crc(m) {
      XorCancels(Register(ONES, [0] + m), Register(ONES, m), ONES);
      RegisterIsInjective(Feed(ONES, 0), ONES, m);
      assert false;
    }
  }

  lemma FourSteps()
    ensures ByteSteps(4, W(0xFFFF_FFFF)) == W(0xDEBB_20E3)
  {
  }

  lemma CancelTwice(r: Word)
    ensures Xor(r, Xor(r, W(0xFFFF_FFFF))) == W(0xFFFF_FFFF)
  {
  }

  /** The residue of CRC-32: a message followed by its own CRC leaves one value in the register. */
  lemma Residue(m: seq<bv8>)
    ensures Register(W(0xFFFF_FFFF), m + Unpack(W(Crc(m)))) == W(0xDEBB_20E3)
  {
    hide Register, ByteSteps, ByteStep, Xor, Pack, Unpack;
    var r, tail := Register(ONES, m), Unpack(W(Crc(m)));
    RegisterAppend(ONES, m, tail);
    BytesEnterAsWord(r, tail);
    UnpackRoundTrip(W(Crc(m)));
    CancelTwice(r);
    FourSteps();
  }
}
