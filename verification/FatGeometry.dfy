/**
 * The shape of a FAT32 volume: cluster size, FAT size and cluster count, computed from the
 * length of the partition as the image creator computes them, and when the result is a volume
 * that really is FAT32 and can be addressed.
 */
module FatGeometry {

  const SECTOR_SIZE := 512
  const RESERVED_SECTORS := 32
  const NUMBER_OF_FATS := 2
  const DWORD_LIMIT := 0x1_0000_0000

  /** Values from here on are not cluster numbers (bad-cluster and end-of-chain marks). */
  const FAT32_BAD_CLUSTER := 0x0FFF_FFF7

  /** A volume with fewer clusters than this would be read as FAT16. */
  const FAT32_MIN_CLUSTERS := 65525

  // ---------------------------------------------------------------- cluster size

  datatype SizeRow = SizeRow(diskSize: nat, sectorsPerCluster: nat)

  const DISK_TABLE: seq<SizeRow> := [
    SizeRow(66600, 0), SizeRow(532480, 1), SizeRow(16777216, 8),
    SizeRow(33554432, 16), SizeRow(67108864, 32), SizeRow(0xFFFF_FFFF, 64)
  ]

  /** The sectors per cluster for a volume of `sectors` sectors; 0 means the volume is refused. */
  function SectorsPerCluster(sectors: nat): nat {
    if sectors <= 66600 then 0
    else if sectors <= 532480 then 1
    else if sectors <= 16777216 then 8
    else if sectors <= 33554432 then 16
    else if sectors <= 67108864 then 32
    else 64
  }

  /** Scan the table for the first row that covers the volume. */
  method FindSectorsPerCluster(lbaCount: nat) returns (spc: nat)
    ensures spc == SectorsPerCluster(lbaCount % DWORD_LIMIT)
  {
    var sectors := lbaCount % DWORD_LIMIT;
    spc := 0;
    for i := 0 to 6
      invariant spc == 0
      invariant forall j :: 0 <= j < i ==> DISK_TABLE[j].diskSize < sectors
    {
      if sectors <= DISK_TABLE[i].diskSize {
        spc := DISK_TABLE[i].sectorsPerCluster;
        assert i > 0 ==> DISK_TABLE[i - 1].diskSize < sectors;
        break;
      }
    }
  }

  /** Cluster sizes in bytes: 512 up to 260 MB, 4 KB up to 8 GB, then doubled with the length up to 32 KB. */
  lemma ClusterSizes(bytes: nat)
    ensures var spc := SectorsPerCluster(bytes / 512);
      var mega, giga := 0x10_0000, 0x4000_0000;
      bytes % 512 == 0 && 33 * mega <= bytes ==>
        512 * spc == if bytes <= 260 * mega then 0x200 else if bytes <= 8 * giga then 0x1000
        else if bytes <= 16 * giga then 0x2000 else if bytes <= 32 * giga then 0x4000 else 0x8000
    ensures bytes <= 32 * 0x10_0000 ==> SectorsPerCluster(bytes / 512) == 0
  {
  }

  // ---------------------------------------------------------------- single-precision arithmetic

  const TWO23: real := 8388608.0
  const TWO24: real := 16777216.0

  /** Round half to even. */
  function NearestInteger(x: real): real {
    var low := x.Floor;
    var rest := x - low as real;
    if rest < 0.5 || (rest == 0.5 && low % 2 == 0) then low as real else (low + 1) as real
  }

  /** Whether the number is zero or within the range whose rounding is modelled here. */
  predicate Representable(x: real) {
    x == 0.0 || x * TWO24 >= 1.0
  }

  /** A number rounded to the 24 significant bits of a `float`. */
  function ToFloat(x: real): real
    requires Representable(x)
    decreases x < 1.0, x < TWO23, if x < TWO23 then TWO23 - x else x
  {
    if x == 0.0 then 0.0
    else if x < 1.0 then ToFloat(x * TWO24) / TWO24
    else if x < TWO23 then ToFloat(2.0 * x) / 2.0
    else if x >= TWO24 then 2.0 * ToFloat(x / 2.0)
    else NearestInteger(x)
  }

  /** Rounding moves a number by at most one part in 2^24. */
  lemma {:induction false} ToFloatError(x: real)
    requires Representable(x)
    ensures x - x / TWO24 <= ToFloat(x) <= x + x / TWO24
    decreases x < 1.0, x < TWO23, if x < TWO23 then TWO23 - x else x
  {
    if x == 0.0 {
    } else if x < 1.0 {
      ToFloatError(x * TWO24);
    } else if x < TWO23 {
      ToFloatError(2.0 * x);
    } else if x >= TWO24 {
      ToFloatError(x / 2.0);
    }
  }

  /** Integers below 2^24 are represented exactly. */
  lemma {:induction false} ToFloatExact(n: nat)
    requires n < 16777216
    ensures ToFloat(n as real) == n as real
    decreases 16777216 - n
  {
    if 0 < n < 8388608 {
      ToFloatExact(2 * n);
      assert (2 * n) as real == 2.0 * (n as real);
    }
  }

  function Ceiling(x: real): int {
    -(-x).Floor
  }

  // ---------------------------------------------------------------- FAT size

  /** The cluster sizes the table hands out. */
  predicate IsClusterSize(spc: nat) {
    spc == 1 || spc == 8 || spc == 16 || spc == 32 || spc == 64
  }

  /** The sectors of data and FAT that one sector of each FAT accounts for. */
  function SectorsPerFatSector(spc: nat): nat {
    (256 * spc + NUMBER_OF_FATS) / 2
  }

  /** The numerator of the FAT size formula, in 32-bit arithmetic. */
  function FatSizeNumerator(sectors: nat, spc: nat): nat {
    (sectors - RESERVED_SECTORS + SectorsPerFatSector(spc) - 1) % DWORD_LIMIT
  }

  /** Division by one of the five divisors, as linear arithmetic. */
  lemma Divide(x: real, spc: nat)
    requires IsClusterSize(spc)
    ensures var d := SectorsPerFatSector(spc);
      129 <= d <= 8193 && (x / d as real) * d as real == x
    ensures x >= 0.0 ==> 0.0 <= x / 8193.0 <= x / SectorsPerFatSector(spc) as real
  {
    if spc == 1 {} else if spc == 8 {} else if spc == 16 {} else if spc == 32 {} else {}
  }

  lemma DivideMonotonic(x: real, y: real, spc: nat)
    requires IsClusterSize(spc) && x <= y
    ensures x / SectorsPerFatSector(spc) as real <= y / SectorsPerFatSector(spc) as real
  {
    if spc == 1 {} else if spc == 8 {} else if spc == 16 {} else if spc == 32 {} else {}
  }

  lemma QuotientIsRepresentable(numerator: nat, spc: nat)
    requires IsClusterSize(spc)
    ensures var d := SectorsPerFatSector(spc);
      ToFloat(d as real) == d as real && Representable(ToFloat(numerator as real) / (d as real))
  {
    ToFloatExact(SectorsPerFatSector(spc));
    ToFloatError(numerator as real);
    Divide(ToFloat(numerator as real), spc);
    if numerator == 0 {
      Divide(0.0, spc);
    }
  }

  /** The quotient as the code computes it: operands and result are rounded to `float`. */
  function FatSizeQuotient(numerator: nat, spc: nat): real
    requires IsClusterSize(spc)
  {
    QuotientIsRepresentable(numerator, spc);
    ToFloat(ToFloat(numerator as real) / ToFloat(SectorsPerFatSector(spc) as real))
  }

  /** The sectors of one FAT. */
  function FatSizeInSectors(sectors: nat, spc: nat): int
    requires IsClusterSize(spc)
  {
    Ceiling(FatSizeQuotient(FatSizeNumerator(sectors, spc), spc))
  }

  lemma QuotientError(numerator: nat, spc: nat)
    requires IsClusterSize(spc)
    ensures var q := numerator as real / SectorsPerFatSector(spc) as real;
      q - q / 8000000.0 <= FatSizeQuotient(numerator, spc) <= q + q / 8000000.0
  {
    var n, d := numerator as real, SectorsPerFatSector(spc) as real;
    var rounded := ToFloat(n);
    QuotientIsRepresentable(numerator, spc);
    ToFloatError(n);
    ToFloatError(rounded / d);
    ScaledDivide(n, spc);
    DivideMonotonic(n - n / TWO24, rounded, spc);
    DivideMonotonic(rounded, n + n / TWO24, spc);
    Divide(n, spc);
  }

  lemma ScaledDivide(x: real, spc: nat)
    requires IsClusterSize(spc)
    ensures var d := SectorsPerFatSector(spc) as real;
      (x - x / TWO24) / d == x / d - (x / d) / TWO24 && (x + x / TWO24) / d == x / d + (x / d) / TWO24
  {
    var d := SectorsPerFatSector(spc) as real;
    var q := x / d;
    if spc == 1 { assert d == 129.0; } else if spc == 8 { assert d == 1025.0; }
    else if spc == 16 { assert d == 2049.0; } else if spc == 32 { assert d == 4097.0; } else { assert d == 8193.0; }
  }

  /** Everything the volume needs to know about its size. */
  datatype Geometry = Geometry(sectorsPerCluster: nat, fatSize: int, clusters: int)

  /** The geometry of a partition, or nothing when the partition is refused. */
  function GeometryOf(sectors: nat): Geometry
    requires 66600 < sectors < DWORD_LIMIT
  {
    var spc := SectorsPerCluster(sectors);
    var fatSize := FatSizeInSectors(sectors, spc);
    Geometry(spc, fatSize, (sectors - (RESERVED_SECTORS + NUMBER_OF_FATS * fatSize)) / spc)
  }

  /** Whether every cluster has a FAT entry and the volume counts as FAT32, not FAT16. */
  predicate IsFat32(g: Geometry) {
    && FAT32_MIN_CLUSTERS <= g.clusters
    && g.clusters + 2 <= 128 * g.fatSize
    && g.clusters + 2 <= FAT32_BAD_CLUSTER
  }

  /** The numerator of an accepted volume, and a bound on the quotient. */
  lemma NumeratorBounds(sectors: nat, spc: nat)
    requires spc == SectorsPerCluster(sectors) && 66600 < sectors <= DWORD_LIMIT - 8161
    ensures var d := SectorsPerFatSector(spc);
      FatSizeNumerator(sectors, spc) == sectors - RESERVED_SECTORS + d - 1 < 560000 * d
  {
    Divisors();
    hide SectorsPerFatSector;
    if spc == 1 {} else if spc == 8 {} else if spc == 16 {} else if spc == 32 {} else {}
  }

  lemma FatSizeBounds(sectors: nat, spc: nat)
    requires spc == SectorsPerCluster(sectors) && 66600 < sectors <= DWORD_LIMIT - 8161
    ensures var d := SectorsPerFatSector(spc);
      sectors - RESERVED_SECTORS <= d * FatSizeInSectors(sectors, spc) <= sectors - RESERVED_SECTORS + 3 * d
  {
    var numerator, d := FatSizeNumerator(sectors, spc), SectorsPerFatSector(spc);
    NumeratorBounds(sectors, spc);
    QuotientError(numerator, spc);
    Divide(numerator as real, spc);
    var q := numerator as real / d as real;
    hide FatSizeNumerator, SectorsPerFatSector, FatSizeQuotient, SectorsPerCluster, Ceiling;
    CeilingBounds(numerator, d, q, FatSizeQuotient(numerator, spc));
  }

  lemma CeilingBounds(numerator: nat, d: nat, q: real, rounded: real)
    requires 129 <= d && numerator < 560000 * d
    requires q * d as real == numerator as real
    requires q - q / 8000000.0 <= rounded <= q + q / 8000000.0
    ensures numerator - d + 1 <= d * Ceiling(rounded) <= numerator + 2 * d
  {
    hide Ceiling;
    var size, dr, nr := Ceiling(rounded), d as real, numerator as real;
    assert 0.0 <= nr < 560000.0 * dr && dr >= 129.0;
    QuotientBelow(q, dr, nr);
    CeilingError(q, rounded);
    ProductBounds(q, size as real, dr, nr);
    RealProduct(d, size);
    ToIntegers(numerator, d, d * size);
  }

  lemma ToIntegers(numerator: nat, d: nat, product: int)
    requires d >= 129
    requires numerator as real - 0.07 * d as real <= product as real <= numerator as real + 1.07 * d as real
    ensures numerator - d + 1 <= product <= numerator + 2 * d
  {
  }

  lemma CeilingError(q: real, rounded: real)
    requires 0.0 <= q < 560000.0
    requires q - q / 8000000.0 <= rounded <= q + q / 8000000.0
    ensures q - 0.07 <= Ceiling(rounded) as real <= q + 1.07
  {
  }

  lemma QuotientBelow(q: real, d: real, product: real)
    requires d >= 129.0 && product == q * d && 0.0 <= product < 560000.0 * d
    ensures 0.0 <= q < 560000.0
  {
    if q < 0.0 {
      NegativeProduct(q, d);
    } else if q >= 560000.0 {
      LargeProduct(q, d);
    }
  }

  lemma LargeProduct(x: real, y: real)
    requires x >= 560000.0 && y >= 0.0
    ensures x * y >= 560000.0 * y
  {
    NonNegativeProduct(x - 560000.0, y);
    assert (x - 560000.0) * y == x * y - 560000.0 * y;
  }

  lemma NegativeProduct(x: real, y: real)
    requires x < 0.0 < y
    ensures x * y < 0.0
  {
  }

  lemma ProductBounds(q: real, s: real, d: real, product: real)
    requires q - 0.07 <= s <= q + 1.07 && 129.0 <= d && product == q * d
    ensures product - 0.07 * d <= d * s <= product + 1.07 * d
  {
    var above, below := s - q + 0.07, q + 1.07 - s;
    NonNegativeProduct(above, d);
    NonNegativeProduct(below, d);
    assert above * d == s * d - q * d + 0.07 * d;
    assert below * d == q * d + 1.07 * d - s * d;
  }

  lemma NonNegativeProduct(x: real, y: real)
    requires x >= 0.0 && y >= 0.0
    ensures x * y >= 0.0
  {
  }

  lemma RealProduct(a: int, b: int)
    ensures (a * b) as real == a as real * b as real
  {
  }

  /**
   * For every partition length the table accepts, the rounded size formula yields a real FAT32
   * volume exactly when the numerator does not overflow its 32 bits.
   */
  lemma GeometryIsFat32(sectors: nat)
    requires 66600 < sectors < DWORD_LIMIT
    ensures IsFat32(GeometryOf(sectors)) <==> sectors <= DWORD_LIMIT - 8161
  {
    hide ToFloat;
    var g := GeometryOf(sectors);
    if sectors <= DWORD_LIMIT - 8161 {
      FatSizeBounds(sectors, g.sectorsPerCluster);
      ClusterCountBounds(sectors, g);
    } else {
      var numerator := FatSizeNumerator(sectors, 64);
      QuotientError(numerator, 64);
      Divide(numerator as real, 64);
      assert g.fatSize <= 2;
    }
  }

  lemma Divisors()
    ensures SectorsPerFatSector(1) == 129 && SectorsPerFatSector(8) == 1025 && SectorsPerFatSector(16) == 2049
    ensures SectorsPerFatSector(32) == 4097 && SectorsPerFatSector(64) == 8193
  {
  }

  lemma ClusterCountBounds(sectors: nat, g: Geometry)
    requires 66600 < sectors <= DWORD_LIMIT - 8161
    requires g.sectorsPerCluster == SectorsPerCluster(sectors)
    requires var d := SectorsPerFatSector(g.sectorsPerCluster);
      sectors - RESERVED_SECTORS <= d * g.fatSize <= sectors - RESERVED_SECTORS + 3 * d
    requires g.clusters == (sectors - (RESERVED_SECTORS + NUMBER_OF_FATS * g.fatSize)) / g.sectorsPerCluster
    ensures IsFat32(g)
  {
    Divisors();
    hide SectorsPerFatSector;
    var data, f := sectors - (RESERVED_SECTORS + NUMBER_OF_FATS * g.fatSize), g.fatSize;
    if g.sectorsPerCluster == 1 {
      assert sectors - 32 <= 129 * f <= sectors - 32 + 387 && g.clusters == data;
    } else if g.sectorsPerCluster == 8 {
      assert sectors - 32 <= 1025 * f <= sectors - 32 + 3075 && g.clusters == data / 8;
    } else if g.sectorsPerCluster == 16 {
      assert sectors - 32 <= 2049 * f <= sectors - 32 + 6147 && g.clusters == data / 16;
    } else if g.sectorsPerCluster == 32 {
      assert sectors - 32 <= 4097 * f <= sectors - 32 + 12291 && g.clusters == data / 32;
    } else {
      assert sectors - 32 <= 8193 * f <= sectors - 32 + 24579 && g.clusters == data / 64;
    }
  }

  // ---------------------------------------------------------------- cluster addresses

  /** The offset of a cluster in the data area: 32-bit arithmetic. */
  function ClusterOffset(cluster: nat, clusterSize: nat): nat
    requires cluster >= 2
  {
    (cluster - 2) * clusterSize % DWORD_LIMIT
  }

  /** Different clusters have different addresses exactly when the data area is at most 4 GiB. */
  lemma ClusterOffsetsAreDistinct(clusters: nat, clusterSize: nat)
    requires clusterSize > 0 && DWORD_LIMIT % clusterSize == 0
    ensures (forall c, d :: 2 <= c < d < clusters + 2 ==>
      ClusterOffset(c, clusterSize) != ClusterOffset(d, clusterSize))
       <==> clusters * clusterSize <= DWORD_LIMIT
  {
    if clusters * clusterSize <= DWORD_LIMIT {
      forall c, d | 2 <= c < d < clusters + 2
        ensures ClusterOffset(c, clusterSize) != ClusterOffset(d, clusterSize)
      {
        OffsetWithoutWrap(c, clusters, clusterSize);
        OffsetWithoutWrap(d, clusters, clusterSize);
        assert (d - 2) * clusterSize - (c - 2) * clusterSize == (d - c) * clusterSize;
      }
    } else {
      var m := DWORD_LIMIT / clusterSize;
      assert m * clusterSize == DWORD_LIMIT;
      assert m < clusters;
      assert ClusterOffset(m + 2, clusterSize) == 0 == ClusterOffset(2, clusterSize);
    }
  }

  lemma OffsetWithoutWrap(cluster: nat, clusters: nat, clusterSize: nat)
    requires 2 <= cluster < clusters + 2 && clusterSize > 0
    requires clusters * clusterSize <= DWORD_LIMIT
    ensures ClusterOffset(cluster, clusterSize) == (cluster - 2) * clusterSize
    ensures (cluster - 2) * clusterSize + clusterSize <= clusters * clusterSize
  {
    var before, after := cluster - 2, clusters + 1 - cluster;
    Distribute(before, after + 1, clusterSize);
    Distribute(after, 1, clusterSize);
    assert before * clusterSize < DWORD_LIMIT;
  }

  lemma Distribute(a: nat, b: nat, size: nat)
    ensures (a + b) * size == a * size + b * size
    ensures a * size >= 0 && b * size >= 0
  {
  }
}
