/**
 * How many partitions a disk can have before its partition-array checksum goes wrong: the
 * checksum routine cuts the length of the array to 32 bits, and from 131072 partitions on the
 * checksum misses the end of the array.
 */
module GptLimits {
  import opened Bytes
  import opened GptLayout
  import opened GptDisk
  import opened GptReader
  import Crc32

  // ---------------------------------------------------------------- checksums of changed bytes

  function ValueOf(b: bv8): int {
    b as int
  }

  lemma ByteRoundTrip(x: int)
    requires 0 <= x < 256
    ensures ValueOf(x as bv8) == x
  {
  }

  lemma WordRoundTrip(w: bv32)
    ensures (w as int) as bv32 == w
  {
  }

  lemma BitsAreInjective(s: seq<byte>, t: seq<byte>)
    requires |s| == |t|
    ensures Bits(s) == Bits(t) <==> s == t
  {
    if Bits(s) == Bits(t) {
      forall i | 0 <= i < |s|
        ensures s[i] == t[i]
      {
        assert Bits(s)[i] == Bits(t)[i];
        ByteRoundTrip(s[i]);
        ByteRoundTrip(t[i]);
      }
    }
  }

  /** Bytes that differ only in four consecutive places have different checksums. */
  lemma WindowChangesChecksum(s: seq<byte>, t: seq<byte>, start: nat)
    requires |s| == |t| && forall i :: 0 <= i < |s| && !(start <= i < start + 4) ==> s[i] == t[i]
    ensures Checksum(s) == Checksum(t) <==> s == t
  {
    hide Crc32.Crc;
    assert Crc32.DifferWithin(Bits(s), Bits(t), start);
    Crc32.BurstChangesCrc(Bits(s), Bits(t), start);
    WordRoundTrip(Crc32.Crc(Bits(s)));
    WordRoundTrip(Crc32.Crc(Bits(t)));
    BitsAreInjective(s, t);
  }

  // ---------------------------------------------------------------- a disk for every list

  function Front<T>(s: seq<T>): seq<T>
    requires |s| > 0
  {
    s[..|s| - 1]
  }

  /** The table of a list of partitions. */
  function TableOf(partitions: seq<Partition>): (table: seq<byte>)
    ensures |table| == ENTRY_STRIDE * |partitions|
  {
    if partitions == [] then []
    else TableOf(Front(partitions)) + EntryBytes(partitions[|partitions| - 1]) + Zeros(ENTRY_STRIDE - ENTRY_SIZE)
  }

  lemma {:induction false} TableOfIsTable(partitions: seq<Partition>)
    ensures IsTable(TableOf(partitions), partitions)
  {
    if partitions != [] {
      hide EntryBytes;
      TableOfIsTable(Front(partitions));
      StrideAdded(TableOf(Front(partitions)), Front(partitions), partitions[|partitions| - 1]);
      assert Front(partitions) + [partitions[|partitions| - 1]] == partitions;
    }
  }

  lemma StrideAdded(table: seq<byte>, partitions: seq<Partition>, p: Partition)
    requires IsTable(table, partitions)
    ensures IsTable(table + EntryBytes(p) + Zeros(ENTRY_STRIDE - ENTRY_SIZE), partitions + [p])
  {
    hide EntryBytes;
    var table' := table + EntryBytes(p) + Zeros(ENTRY_STRIDE - ENTRY_SIZE);
    forall i | 0 <= i < |partitions| + 1
      ensures EntryAt(table', i) == EntryBytes((partitions + [p])[i])
    {
      if i < |partitions| {
        assert EntryAt(table', i) == EntryAt(table, i);
      }
    }
    forall b | 0 <= b < |table'| && b % ENTRY_STRIDE >= ENTRY_SIZE
      ensures table'[b] == 0
    {
      InLastStride(b, |partitions|);
    }
  }

  lemma InLastStride(b: nat, n: nat)
    ensures ENTRY_STRIDE * n <= b < ENTRY_STRIDE * n + ENTRY_SIZE ==> b % ENTRY_STRIDE < ENTRY_SIZE
  {
  }

  /** The file that the planned disk of a list becomes. */
  function DiskFile(requests: seq<Request>, diskId: Guid): seq<byte>
    requires Plannable(requests)
  {
    var l, table := LayoutOf(SizesOf(requests)), TableOf(Planned(requests));
    var h := FinalHeader(l, |requests|, diskId, table);
    FileOf(ProtectiveMbr(), HeaderBytes(h), table,
      HeaderBytes(h.(myLba := l.secondaryHeader, alternateLba := l.primaryHeader, crc := 0)), l)
  }

  lemma DiskFileIsOnDisk(requests: seq<Request>, diskId: Guid)
    requires Plannable(requests)
    ensures OnDisk(DiskFile(requests, diskId), LayoutOf(SizesOf(requests)), Planned(requests), diskId)
  {
    hide LayoutOf, IsTable, TableOf, HeaderBytes, ProtectiveMbr, FileOf, Placed, Checksum, Cut, AreasOk;
    var l, partitions := LayoutOf(SizesOf(requests)), Planned(requests);
    var table := TableOf(partitions);
    var h := FinalHeader(l, |requests|, diskId, table);
    TableOfIsTable(partitions);
    LayoutIsProper(SizesOf(requests));
    NumbersFit(requests);
    AreasAreApart(l, |requests|);
    WritesLand(ProtectiveMbr(), HeaderBytes(h), table,
      HeaderBytes(h.(myLba := l.secondaryHeader, alternateLba := l.primaryHeader, crc := 0)), l, |requests|);
    assert TableOnDisk(DiskFile(requests, diskId), l, partitions, diskId, table);
  }

  // ---------------------------------------------------------------- too many partitions

  /** Two lists that differ only in the first four bytes of the last identifier. */
  ghost predicate DifferInLastId(a: seq<Request>, b: seq<Request>) {
    && |a| == |b| > 0 && a != b && Front(a) == Front(b)
    && var p, q := a[|a| - 1], b[|b| - 1];
       p.kind == q.kind && p.lbaCount == q.lbaCount && p.name == q.name && p.id[4..] == q.id[4..]
  }

  lemma SamePlaces(a: seq<Request>, b: seq<Request>)
    requires DifferInLastId(a, b) && Plannable(a) && Plannable(b)
    ensures SizesOf(a) == SizesOf(b)
    ensures var n, p, q := |a|, Planned(a), Planned(b);
      && Front(p) == Front(q) && p[n - 1].kind == q[n - 1].kind && p[n - 1].extent == q[n - 1].extent
      && p[n - 1].name == q[n - 1].name && p[n - 1].id[4..] == q[n - 1].id[4..] && p[n - 1].id != q[n - 1].id
  {
    hide LayoutOf, FitsDisk;
    var n := |a|;
    assert forall i :: 0 <= i < n - 1 ==> a[i] == Front(a)[i] && b[i] == Front(b)[i];
    assert a == Front(a) + [a[n - 1]] && b == Front(b) + [b[n - 1]];
    assert SizesOf(a) == SizesOf(b);
    assert forall i :: 0 <= i < n - 1 ==> Planned(a)[i] == Planned(b)[i];
    assert Front(Planned(a)) == Front(Planned(b));
  }

  lemma EntriesDiffer(p: Partition, q: Partition)
    requires p.kind == q.kind && p.extent == q.extent && p.name == q.name && p.id[4..] == q.id[4..] && p.id != q.id
    ensures var s, t := EntryBytes(p), EntryBytes(q);
      s != t && s[..16] == t[..16] && s[20..] == t[20..]
  {
    hide Le, NameField;
    var s, t := EntryBytes(p), EntryBytes(q);
    assert s[16..32] == p.id && t[16..32] == q.id;
    assert s[20..32] == p.id[4..] && t[20..32] == q.id[4..];
    assert s[32..] == t[32..];
    assert s[20..] == s[20..32] + s[32..] && t[20..] == t[20..32] + t[32..];
  }

  /** A table is its strides but the last, and the last entry. */
  lemma LastStride(table: seq<byte>, partitions: seq<Partition>)
    requires IsTable(table, partitions) && partitions != []
    ensures var n := |partitions|;
      table[ENTRY_STRIDE * (n - 1)..ENTRY_STRIDE * (n - 1) + ENTRY_SIZE] == EntryBytes(partitions[n - 1])
  {
    hide EntryBytes;
    assert EntryAt(table, |partitions| - 1) == EntryBytes(partitions[|partitions| - 1]);
  }

  /** Tables that agree in all entries but the last agree before it, and behind it. */
  lemma TablesDiffer(s: seq<byte>, t: seq<byte>, p: seq<Partition>, q: seq<Partition>)
    requires IsTable(s, p) && IsTable(t, q) && |p| == |q| > 0 && Front(p) == Front(q)
    requires var u, v := EntryBytes(p[|p| - 1]), EntryBytes(q[|q| - 1]);
      u != v && u[..16] == v[..16] && u[20..] == v[20..]
    ensures var at := ENTRY_STRIDE * (|p| - 1) + 16;
      s != t && |s| == |t| && forall b :: 0 <= b < |s| && !(at <= b < at + 4) ==> s[b] == t[b]
  {
    hide EntryBytes;
    LastStride(s, p);
    LastStride(t, q);
    forall b | 0 <= b < |s| && !(ENTRY_STRIDE * (|p| - 1) + 16 <= b < ENTRY_STRIDE * (|p| - 1) + 20)
      ensures s[b] == t[b]
    {
      SameByte(s, t, p, q, b);
    }
  }

  lemma SameByte(s: seq<byte>, t: seq<byte>, p: seq<Partition>, q: seq<Partition>, b: nat)
    requires IsTable(s, p) && IsTable(t, q) && |p| == |q| > 0 && Front(p) == Front(q) && b < |s|
    requires var u, v := EntryBytes(p[|p| - 1]), EntryBytes(q[|q| - 1]); u[..16] == v[..16] && u[20..] == v[20..]
    requires !(ENTRY_STRIDE * (|p| - 1) + 16 <= b < ENTRY_STRIDE * (|p| - 1) + 20)
    ensures s[b] == t[b]
  {
    hide EntryBytes;
    var i, r := b / ENTRY_STRIDE, b % ENTRY_STRIDE;
    if r < ENTRY_SIZE {
      assert EntryAt(s, i) == EntryBytes(p[i]) && EntryAt(t, i) == EntryBytes(q[i]);
      assert s[b] == EntryAt(s, i)[r] && t[b] == EntryAt(t, i)[r];
      var u, v := EntryBytes(p[i]), EntryBytes(q[i]);
      if i < |p| - 1 {
        assert p[i] == Front(p)[i] && q[i] == Front(q)[i];
      } else if r < 16 {
        assert u[r] == u[..16][r] && v[r] == v[..16][r];
      } else {
        assert u[r] == u[20..][r - 20] && v[r] == v[20..][r - 20];
      }
    }
  }

  lemma CutBefore(n: nat)
    requires n >= MAX_PARTITIONS
    ensures ENTRY_STRIDE * n % CRC_LENGTH_LIMIT <= ENTRY_STRIDE * (n - 1)
  {
    CutLength(ENTRY_STRIDE * (n - MAX_PARTITIONS));
    assert ENTRY_STRIDE * n == CRC_LENGTH_LIMIT + ENTRY_STRIDE * (n - MAX_PARTITIONS);
  }

  lemma SameCut(s: seq<byte>, t: seq<byte>, from: nat)
    requires |s| == |t| && |s| % CRC_LENGTH_LIMIT <= from && forall b :: 0 <= b < |s| && b < from ==> s[b] == t[b]
    ensures Cut(s) == Cut(t)
  {
  }

  /** Tables that differ only in the last identifier look the same to the checksum routine, cut as they are. */
  lemma SameCutOtherChecksum(s: seq<byte>, t: seq<byte>, p: seq<Partition>, q: seq<Partition>)
    requires IsTable(s, p) && IsTable(t, q) && |p| == |q| >= MAX_PARTITIONS && Front(p) == Front(q)
    requires var u, v := p[|p| - 1], q[|q| - 1];
      && u.kind == v.kind && u.extent == v.extent && u.name == v.name
      && u.id[4..] == v.id[4..] && u.id != v.id
    ensures Cut(s) == Cut(t) && Checksum(s) != Checksum(t)
  {
    hide IsTable, EntryBytes, Checksum, Cut;
    var n := |p|;
    EntriesDiffer(p[n - 1], q[n - 1]);
    TablesDiffer(s, t, p, q);
    TableLength(s, p);
    CutBefore(n);
    SameCut(s, t, ENTRY_STRIDE * (n - 1) + 16);
    WindowChangesChecksum(s, t, ENTRY_STRIDE * (n - 1) + 16);
  }

  /**
   * From 131072 partitions on, of two disks whose lists differ only in the first four bytes of the
   * last partition's identifier at most one passes the reader's checks.
   */
  lemma NotBothVerify(a: seq<Request>, b: seq<Request>, idA: Guid, idB: Guid, fileA: seq<byte>, fileB: seq<byte>)
    requires MAX_PARTITIONS <= |a| < 0x1_0000_0000 && DifferInLastId(a, b) && Plannable(a) && Plannable(b)
    requires OnDisk(fileA, LayoutOf(SizesOf(a)), Planned(a), idA)
    requires OnDisk(fileB, LayoutOf(SizesOf(b)), Planned(b), idB)
    ensures !(HeaderChecks(fileA, 1) && HeaderChecks(fileB, 1))
  {
    hide LayoutOf, HeaderChecks, Placed, IsTable, EntryBytes, Checksum, Cut, Planned, FitsDisk;
    var p, q := Planned(a), Planned(b);
    var s: seq<byte> :| TableOnDisk(fileA, LayoutOf(SizesOf(a)), p, idA, s);
    var t: seq<byte> :| TableOnDisk(fileB, LayoutOf(SizesOf(b)), q, idB, t);
    ChecksDependOnArray(fileA, a, idA, s);
    ChecksDependOnArray(fileB, b, idB, t);
    SamePlaces(a, b);
    SameCutOtherChecksum(s, t, p, q);
  }

  // ---------------------------------------------------------------- the secondary header

  /** Partitions have only one table. */
  lemma TableIsUnique(s: seq<byte>, t: seq<byte>, partitions: seq<Partition>)
    requires IsTable(s, partitions) && IsTable(t, partitions)
    ensures s == t
  {
    hide EntryBytes;
    forall b | 0 <= b < |s|
      ensures s[b] == t[b]
    {
      var i, r := b / ENTRY_STRIDE, b % ENTRY_STRIDE;
      if r < ENTRY_SIZE {
        assert EntryAt(s, i) == EntryBytes(partitions[i]) && EntryAt(t, i) == EntryBytes(partitions[i]);
        assert s[b] == EntryAt(s, i)[r] && t[b] == EntryAt(t, i)[r];
      }
    }
  }

  /** Headers that differ only in the first four bytes of the disk's identifier. */
  lemma HeadersDiffer(h: Header, id: Guid)
    requires id != h.diskId && id[4..] == h.diskId[4..]
    ensures var s, t := HeaderSector(h), HeaderSector(h.(diskId := id));
      s != t && forall i :: 0 <= i < SECTOR_SIZE && !(56 <= i < 60) ==> s[i] == t[i]
  {
    var h' := h.(diskId := id);
    HeaderParts(h);
    HeaderParts(h');
    assert HeaderFront(h) == HeaderFront(h') && HeaderBack(h) == HeaderBack(h');
    hide HeaderSector, HeaderFront, HeaderBack;
    var s, t := HeaderSector(h), HeaderSector(h');
    assert s[56..72] == h.diskId && t[56..72] == id;
    forall i | 60 <= i < 72
      ensures s[i] == t[i]
    {
      assert s[i] == h.diskId[4..][i - 60] && t[i] == id[4..][i - 60];
    }
  }

  /**
   * Of two disks with the same partitions whose own identifiers differ only in the first four bytes
   * at most one has a secondary header that passes: its checksum was never stored.
   */
  lemma SecondariesNotBothVerify(requests: seq<Request>, idA: Guid, idB: Guid, fileA: seq<byte>, fileB: seq<byte>)
    requires Plannable(requests) && |requests| < 0x1_0000_0000 && idA != idB && idA[4..] == idB[4..]
    requires OnDisk(fileA, LayoutOf(SizesOf(requests)), Planned(requests), idA)
    requires OnDisk(fileB, LayoutOf(SizesOf(requests)), Planned(requests), idB)
    ensures var lba := LayoutOf(SizesOf(requests)).secondaryHeader;
      !(HeaderChecks(fileA, lba) && HeaderChecks(fileB, lba))
  {
    hide LayoutOf, HeaderChecks, AnnouncesAgain, Placed, IsTable, Checksum, Cut, Planned, FitsDisk, HeaderSector,
      Sector;
    var l, partitions := LayoutOf(SizesOf(requests)), Planned(requests);
    var s: seq<byte> :| TableOnDisk(fileA, l, partitions, idA, s);
    var t: seq<byte> :| TableOnDisk(fileB, l, partitions, idB, t);
    TableIsUnique(s, t, partitions);
    NumbersFit(requests);
    SecondSector(fileA, l, partitions, idA, s);
    SecondSector(fileB, l, partitions, idB, s);
    var h := FinalHeader(l, |requests|, idA, s).(myLba := l.secondaryHeader, alternateLba := 1, crc := 0);
    HeadersDiffer(h, idB);
    WindowChangesChecksum(HeaderSector(h), HeaderSector(h.(diskId := idB)), 56);
    SecondaryHeaderChecks(fileA, requests, idA);
    SecondaryHeaderChecks(fileB, requests, idB);
  }

  // ---------------------------------------------------------------- the exact limit

  /** Every disk of n partitions passes the reader's checks and announces what was planned. */
  ghost predicate AllVerify(n: nat) {
    forall requests: seq<Request>, diskId: Guid, file: seq<byte> ::
      |requests| == n && Plannable(requests) && NamesOk(requests)
      && OnDisk(file, LayoutOf(SizesOf(requests)), Planned(requests), diskId)
      ==> HeaderChecks(file, 1) && Announces(file, LayoutOf(SizesOf(requests)), diskId, Planned(requests))
  }

  /** n partitions of one sector; `id` is the identifier of the last one. */
  function OneSectorEach(n: nat, id: Guid): (requests: seq<Request>)
    ensures |requests| == n
  {
    seq(n, i requires 0 <= i < n => Request(Zeros(16), if i == n - 1 then id else Zeros(16), 1, []))
  }

  /** Whether a disk can have n partitions at all. */
  predicate CanHold(n: nat) {
    FitsDisk(seq(n, _ => 1))
  }

  lemma {:induction false} OneSectorPlaces(n: nat, k: nat)
    requires k <= n
    ensures SectorsBefore(seq(n, _ => 1), k) == 2 * k
  {
    if k > 0 {
      OneSectorPlaces(n, k - 1);
    }
  }

  /** That is the case for any number below some 277 million million, so also from 131072 on. */
  lemma CanHoldIs(n: nat)
    ensures CanHold(n) <==> (130 * n + 5) * SECTOR_SIZE < LBA_LIMIT
  {
    OneSectorPlaces(n, n);
    assert TableSectors(n) == 64 * n;
  }

  lemma OneSectorEachFits(n: nat, id: Guid)
    requires CanHold(n)
    ensures Plannable(OneSectorEach(n, id)) && NamesOk(OneSectorEach(n, id))
  {
    hide FitsDisk;
    assert SizesOf(OneSectorEach(n, id)) == seq(n, _ => 1);
  }

  /** A 32-bit count cannot announce 2^32 partitions. */
  lemma CountFits(s: seq<byte>, at: nat)
    requires at + 4 <= |s|
    ensures Field(s, at, 4) < 0x1_0000_0000
  {
    var f := s[at..at + 4];
    assert FromLe(f[1..][1..][1..][1..]) == 0;
    assert FromLe(f[1..][1..][1..]) < 0x100 && FromLe(f[1..][1..]) < 0x1_0000 && FromLe(f[1..]) < 0x100_0000;
  }

  /**
   * All disks of n partitions verify exactly when n is below 131072, for every number of
   * partitions that fits on a disk.
   */
  lemma ExactLimit(n: nat)
    requires CanHold(n)
    ensures AllVerify(n) <==> n < MAX_PARTITIONS
  {
    hide LayoutOf, HeaderChecks, Announces, OnDisk, FitsDisk, NamesOk, Planned, DiskFile;
    if n < MAX_PARTITIONS {
      forall requests: seq<Request>, diskId: Guid, file: seq<byte>
        | |requests| == n && Plannable(requests) && NamesOk(requests)
          && OnDisk(file, LayoutOf(SizesOf(requests)), Planned(requests), diskId)
        ensures HeaderChecks(file, 1) && Announces(file, LayoutOf(SizesOf(requests)), diskId, Planned(requests))
      {
        PrimaryHeaderVerifies(file, requests, diskId);
      }
    } else {
      Counterexample(n);
    }
  }

  lemma Counterexample(n: nat)
    requires CanHold(n) && n >= MAX_PARTITIONS
    ensures !AllVerify(n)
  {
    hide LayoutOf, HeaderChecks, OnDisk, FitsDisk, NamesOk, Planned, SizesOf, DiskFile, Sector, Field, EntryArray,
      ReadPartition;
    var idA, idB := Zeros(16), [1] + Zeros(15);
    var a, b := OneSectorEach(n, idA), OneSectorEach(n, idB);
    OneSectorEachFits(n, idA);
    OneSectorEachFits(n, idB);
    DiskFileIsOnDisk(a, idA);
    DiskFileIsOnDisk(b, idA);
    if n < 0x1_0000_0000 {
      assert idA[0] != idB[0] && idA[4..] == idB[4..];
      WitnessesDiffer(n, idA, idB);
      NotBothVerify(a, b, idA, idA, DiskFile(a, idA), DiskFile(b, idA));
    } else {
      CountFits(Sector(DiskFile(a, idA), 1), 80);
    }
  }

  lemma WitnessesDiffer(n: nat, idA: Guid, idB: Guid)
    requires n > 0 && idA != idB && idA[4..] == idB[4..]
    ensures DifferInLastId(OneSectorEach(n, idA), OneSectorEach(n, idB))
  {
    var a, b := OneSectorEach(n, idA), OneSectorEach(n, idB);
    assert a[n - 1].id == idA && b[n - 1].id == idB;
    assert Front(a) == Front(b);
  }
}
