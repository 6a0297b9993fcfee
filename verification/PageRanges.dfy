/**
 * What mapped ranges mean, address by address: ranges of 4 KiB pages are translated as asked;
 * ranges of gigabytes are not, except in one case, because of the index the original uses.
 */
module PageRanges {
  import opened Options
  import opened PageTables
  import opened Paging

  const PAGES := 0x10_0000_0000
  const GIGABYTES := 0x4_0000

  // ---------------------------------------------------------------- ranges of pages

  lemma PageOfAddress(va: nat, i: nat)
    ensures PageOf(Address(va, i)) == (PageOf(va) + i) % PAGES
  {
    var n := va / PAGE_SIZE;
    assert (va + i * PAGE_SIZE) / PAGE_SIZE == n + i;
    WrapPage(va + i * PAGE_SIZE);
    AddModulo(n, i);
  }

  lemma WrapPage(x: nat)
    ensures x % WORD_LIMIT / PAGE_SIZE % PAGES == x / PAGE_SIZE % PAGES
  {
    var q := x / WORD_LIMIT;
    assert x / PAGE_SIZE == x % WORD_LIMIT / PAGE_SIZE + q * 0x10_0000_0000_0000;
  }

  lemma AddModulo(n: nat, i: nat)
    ensures (n + i) % PAGES == (n % PAGES + i) % PAGES
  {
  }

  /** How far behind the start of a range an address lies, in pages, on the circle of all pages. */
  function PageDistance(va: nat, w: nat): nat {
    (PageOf(w) + PAGES - PageOf(va)) % PAGES
  }

  /** The i-th page of a range is the one at distance i. */
  lemma DistanceIs(va: nat, i: nat, w: nat)
    requires i < PAGES
    ensures PageOf(w) == PageOf(Address(va, i)) <==> PageDistance(va, w) == i
  {
    PageOfAddress(va, i);
    assert PageOf(w) < PAGES && PageOf(va) < PAGES;
  }

  /** A mapped range translates the addresses at distances below its length, and no others. */
  lemma {:induction false} MappedByDistance(before: Option<View>, pa: nat, va: nat, n: nat, w: nat)
    requires n <= PAGES
    ensures Mapped(before, pa, va, n, w)
      == if PageDistance(va, w) < n then Some(SystemView(pa + PageDistance(va, w) * PAGE_SIZE + w % PAGE_SIZE))
        else before
  {
    hide PageDistance, PageOf, Address;
    if n > 0 {
      DistanceIs(va, n - 1, w);
      MappedByDistance(before, pa, va, n - 1, w);
    }
  }

  /** Byte `offset` of the i-th page of a range. */
  function PageByte(va: nat, i: nat, offset: nat): nat {
    Address(va, i) + offset
  }

  ghost predicate OutsideRange(va: nat, n: nat, w: nat) {
    forall i: nat :: i < n ==> PageOf(Address(va, i)) != PageOf(w)
  }

  /**
   * After a range was mapped, byte `offset` of its i-th page is byte `offset` of the i-th physical
   * page, and an address outside the range is translated as before.
   */
  lemma RangeIsMapped(m: Memory, m': Memory, root: nat, pa: nat, va: nat, n: nat)
    requires MapsRange(m, m', root, pa, va, n) && va % PAGE_SIZE == 0 && n <= PAGES
    ensures forall i: nat, offset: nat :: i < n && offset < PAGE_SIZE ==>
      Translate(m', root, PageByte(va, i, offset)) == Some(SystemView(Frame(pa, i) + offset))
    ensures forall w: nat :: OutsideRange(va, n, w) ==> Translate(m', root, w) == Translate(m, root, w)
  {
    hide Translate, PageOf, Address, PageDistance;
    forall i: nat, offset: nat | i < n && offset < PAGE_SIZE
      ensures Translate(m', root, PageByte(va, i, offset)) == Some(SystemView(Frame(pa, i) + offset))
    {
      var w := PageByte(va, i, offset);
      InsidePage(va, i, offset);
      DistanceIs(va, i, w);
      MappedByDistance(Translate(m, root, w), pa, va, n, w);
    }
    forall w: nat | OutsideRange(va, n, w)
      ensures Translate(m', root, w) == Translate(m, root, w)
    {
      MappedByDistance(Translate(m, root, w), pa, va, n, w);
      var d := PageDistance(va, w);
      DistanceBelow(va, w);
      DistanceIs(va, d, w);
    }
  }

  lemma DistanceBelow(va: nat, w: nat)
    ensures PageDistance(va, w) < PAGES
  {
  }

  lemma InsidePage(va: nat, i: nat, offset: nat)
    requires va % PAGE_SIZE == 0 && offset < PAGE_SIZE
    ensures PageOf(Address(va, i) + offset) == PageOf(Address(va, i)) && (Address(va, i) + offset) % PAGE_SIZE == offset
  {
    AddressAligned(va, i);
    hide Address;
    var a := Address(va, i);
    assert (a + offset) / PAGE_SIZE == a / PAGE_SIZE;
  }

  lemma AddressAligned(va: nat, i: nat)
    requires va % PAGE_SIZE == 0
    ensures Address(va, i) % PAGE_SIZE == 0
  {
    var x := va + i * PAGE_SIZE;
    assert x % PAGE_SIZE == 0;
  }

  // ---------------------------------------------------------------- ranges of gigabytes

  /** The number of the gigabyte an address lies in. */
  function GigabyteOf(va: nat): nat {
    va / BASE_1GB % GIGABYTES
  }

  lemma GigabyteIndices(va: nat)
    ensures Index(va, 4) == GigabyteOf(va) / 512 && Index(va, 3) == GigabyteOf(va) % 512
  {
    IndicesOfNumber(va / BASE_1GB);
    NestedQuotient(va);
  }

  lemma NestedQuotient(va: nat)
    ensures va / 0x80_0000_0000 == va / BASE_1GB / 512
  {
  }

  lemma IndicesOfNumber(n: nat)
    ensures n % GIGABYTES / 512 == n / 512 % 512 && n % GIGABYTES % 512 == n % 512
  {
    var q, r := n / GIGABYTES, n % GIGABYTES;
    assert n == 512 * (512 * q + r / 512) + r % 512;
  }

  lemma GigabyteOfAddress(va: nat, i: nat)
    ensures GigabyteOf(GigabyteAddress(va, i)) == (GigabyteOf(va) + i) % GIGABYTES
  {
    var n := va / BASE_1GB;
    assert (va + i * BASE_1GB) / BASE_1GB == n + i;
    WrapGigabyte(va + i * BASE_1GB);
    AddGigabytes(n, i);
  }

  lemma WrapGigabyte(x: nat)
    ensures x % WORD_LIMIT / BASE_1GB % GIGABYTES == x / BASE_1GB % GIGABYTES
  {
    var q := x / WORD_LIMIT;
    assert x / BASE_1GB == x % WORD_LIMIT / BASE_1GB + q * 0x4_0000_0000;
  }

  lemma AddGigabytes(n: nat, i: nat)
    ensures (n + i) % GIGABYTES == (n % GIGABYTES + i) % GIGABYTES
  {
  }

  /** An aligned gigabyte has third-level index 0, so its write goes to entry 0. */
  lemma AlignedIndex(va: nat, i: nat)
    requires va % BASE_1GB == 0
    ensures Index(GigabyteAddress(va, i), 2) == 0
  {
    GigabyteAligned(va, i);
    AlignedHasIndexZero(GigabyteAddress(va, i));
  }

  lemma GigabyteAligned(va: nat, i: nat)
    requires va % BASE_1GB == 0
    ensures GigabyteAddress(va, i) % BASE_1GB == 0
  {
    var n := va / BASE_1GB + i;
    assert va + i * BASE_1GB == BASE_1GB * n;
    AlignedWrap(n);
  }

  lemma AlignedWrap(n: nat)
    ensures BASE_1GB * n % WORD_LIMIT % BASE_1GB == 0
  {
  }

  lemma AlignedHasIndexZero(a: nat)
    requires a % BASE_1GB == 0
    ensures Index(a, 2) == 0
  {
    assert a / 0x20_0000 == 512 * (a / BASE_1GB);
  }

  /** A write for the i-th gigabyte concerns the first gigabyte of its top-level entry. */
  lemma HitsFirst(va: nat, i: nat, w: nat)
    requires va % BASE_1GB == 0
    ensures HitsGigabyte(GigabyteAddress(va, i), w)
      <==> GigabyteOf(w) % 512 == 0 && GigabyteOf(w) / 512 == (GigabyteOf(va) + i) % GIGABYTES / 512
  {
    hide GigabyteOf, Index;
    AlignedIndex(va, i);
    GigabyteIndices(w);
    GigabyteIndices(GigabyteAddress(va, i));
    GigabyteOfAddress(va, i);
  }

  /** Gigabytes other than the first of a top-level entry are never touched. */
  lemma {:induction false} OthersUntouched(before: Option<View>, pa: nat, va: nat, n: nat, w: nat)
    requires va % BASE_1GB == 0 && GigabyteOf(w) % 512 != 0
    ensures GigabytesMapped(before, pa, va, n, w) == before
  {
    if n > 0 {
      hide GigabyteOf, HitsGigabyte, GigabyteAddress;
      HitsFirst(va, n - 1, w);
      OthersUntouched(before, pa, va, n - 1, w);
    }
  }

  function Least(a: nat, b: nat): nat {
    if a < b then a else b
  }

  /** Distances on the circle of gigabytes, from the first one of a top-level entry. */
  lemma SameTopEntry(g: nat, k: nat, i: nat)
    requires g < GIGABYTES && k <= i < k + GIGABYTES && (g + k) % GIGABYTES % 512 == 0
    ensures (g + i) % GIGABYTES / 512 == (g + k) % GIGABYTES / 512 <==> i < k + 512
  {
    var first, d := (g + k) % GIGABYTES, i - k;
    AddGigabytes(g + k, d);
    assert (g + i) % GIGABYTES == (first + d) % GIGABYTES;
  }

  /** The first gigabyte of a top-level entry ends up where the last write to that entry points. */
  lemma {:induction false} FirstIsOverwritten(before: Option<View>, pa: nat, va: nat, n: nat, k: nat, w: nat)
    requires va % BASE_1GB == 0 && k < n <= GIGABYTES
    requires GigabyteOf(w) % 512 == 0 && GigabyteOf(w) == (GigabyteOf(va) + k) % GIGABYTES
    ensures GigabytesMapped(before, pa, va, n, w)
      == Some(SystemView(GigabyteFrame(pa, Least(n - 1, k + 511)) + w % BASE_1GB))
    decreases n
  {
    GigabyteBelow(va);
    hide GigabyteOf, HitsGigabyte, GigabyteAddress;
    HitsFirst(va, n - 1, w);
    SameTopEntry(GigabyteOf(va), k, n - 1);
    if n - 1 > k {
      FirstIsOverwritten(before, pa, va, n - 1, k, w);
    }
  }

  lemma GigabyteBelow(va: nat)
    ensures GigabyteOf(va) < GIGABYTES
  {
  }

  /** Byte `offset` of the k-th gigabyte of a range. */
  function ByteOf(va: nat, k: nat, offset: nat): nat {
    GigabyteAddress(va, k) + offset
  }

  lemma InsideGigabyte(va: nat, k: nat, offset: nat)
    requires va % BASE_1GB == 0 && offset < BASE_1GB
    ensures GigabyteOf(ByteOf(va, k, offset)) == (GigabyteOf(va) + k) % GIGABYTES
    ensures ByteOf(va, k, offset) % BASE_1GB == offset
  {
    GigabyteOfAddress(va, k);
    GigabyteAligned(va, k);
    var a := GigabyteAddress(va, k);
    assert (a + offset) / BASE_1GB == a / BASE_1GB;
  }

  /** The k-th gigabyte is translated to the k-th physical gigabyte. */
  ghost predicate GigabyteIsMapped(m: Memory, root: nat, pa: nat, va: nat, k: nat) {
    forall offset: nat :: offset < BASE_1GB ==>
      Translate(m, root, ByteOf(va, k, offset)) == Some(SystemView(GigabyteFrame(pa, k) + offset))
  }

  /** Whether a gigabyte of the range is the first one below its top-level entry. */
  predicate IsFirst(va: nat, k: nat) {
    (GigabyteOf(va) + k) % GIGABYTES % 512 == 0
  }

  /**
   * The outcome for one gigabyte of an aligned range: if it is the first below its top-level
   * entry it is mapped as asked exactly when it is also the last of the range; if it is not,
   * exactly when it was mapped so before.
   */
  lemma GigabyteOutcome(m: Memory, m': Memory, root: nat, pa: nat, va: nat, n: nat, k: nat)
    requires MapsGigabytes(m, m', root, pa, va, n) && va % BASE_1GB == 0 && k < n <= GIGABYTES
    ensures GigabyteIsMapped(m', root, pa, va, k)
      <==> if IsFirst(va, k) then k == n - 1 else GigabyteIsMapped(m, root, pa, va, k)
  {
    hide Translate, GigabytesMapped, GigabyteOf, ByteOf;
    forall offset: nat | offset < BASE_1GB
      ensures var w := ByteOf(va, k, offset);
        Translate(m', root, w)
          == if IsFirst(va, k) then Some(SystemView(GigabyteFrame(pa, Least(n - 1, k + 511)) + offset))
             else Translate(m, root, w)
    {
      var w := ByteOf(va, k, offset);
      InsideGigabyte(va, k, offset);
      if IsFirst(va, k) {
        FirstIsOverwritten(Translate(m, root, w), pa, va, n, k, w);
      } else {
        OthersUntouched(Translate(m, root, w), pa, va, n, w);
      }
    }
    if IsFirst(va, k) && GigabyteIsMapped(m', root, pa, va, k) {
      assert Translate(m', root, ByteOf(va, k, 0)) == Some(SystemView(GigabyteFrame(pa, k) + 0));
    }
  }

  /**
   * On a range that is not translated yet, the gigabyte form maps the whole range exactly when the
   * range is empty, or is one gigabyte that is the first below its top-level entry.
   */
  lemma WholeRangeIsMapped(m: Memory, m': Memory, root: nat, pa: nat, va: nat, n: nat)
    requires MapsGigabytes(m, m', root, pa, va, n) && va % BASE_1GB == 0 && n <= GIGABYTES
    requires forall k: nat, offset: nat :: k < n && offset < BASE_1GB ==>
      Translate(m, root, ByteOf(va, k, offset)) == None
    ensures (forall k: nat :: k < n ==> GigabyteIsMapped(m', root, pa, va, k)) <==> n == 0 || (n == 1 && IsFirst(va, 0))
  {
    hide Translate, MapsGigabytes, ByteOf;
    forall k: nat | k < n
      ensures GigabyteIsMapped(m', root, pa, va, k) <==> IsFirst(va, k) && k == n - 1
    {
      GigabyteOutcome(m, m', root, pa, va, n, k);
      assert Translate(m, root, ByteOf(va, k, 0)) == None;
    }
    hide GigabyteIsMapped, IsFirst;
    if n > 1 {
      assert !GigabyteIsMapped(m', root, pa, va, 0);
    }
  }

  /** Two gigabytes mapped from address 0 on: the first is translated to the second's page, the second not at all. */
  lemma TwoGigabytesAreNotMapped(m: Memory, m': Memory, root: nat)
    requires MapsGigabytes(m, m', root, 0, 0, 2)
    requires Translate(m, root, BASE_1GB) == None
    ensures Translate(m', root, 0) == Some(SystemView(BASE_1GB)) && Translate(m', root, BASE_1GB) == None
  {
    hide Translate;
    FirstIsOverwritten(Translate(m, root, 0), 0, 0, 2, 0, 0);
    OthersUntouched(Translate(m, root, BASE_1GB), 0, 0, 2, BASE_1GB);
  }

  /** Both gigabytes from address 0 on share one second-level table. */
  lemma TopsOfTwo()
    ensures NewTops({[]}, 0, 2) == 1
  {
    var p, q := PrefixOf(GigabyteAddress(0, 0), 1), PrefixOf(GigabyteAddress(0, 1), 1);
    assert p == [0] && q == [0];
    assert Tops(0, 1) == {} + {p};
    assert Tops(0, 2) - {[]} == {[0]};
  }

  /**
   * The same as a run: on an empty top-level table, with all the pages it needs, the call for two
   * gigabytes reports success and leaves these two translations.
   */
  method MapTwoGigabytes() returns (mapper: PageMapper, ok: bool)
    ensures fresh(mapper) && mapper.Valid() && ok
    ensures mapper.Sees(0) == Some(SystemView(BASE_1GB)) && mapper.Sees(BASE_1GB) == None
  {
    hide Translate, Tree, MapsGigabytes, Tops, NewTops;
    var memory := new nat[1536](_ => 0);
    var answers := [Some(0x1000), Some(0x2000)];
    mapper := PagingInit(memory, answers);
    ghost var before := memory[..];
    assert mapper.tables.Keys == {[]};
    assert mapper.answers == [Some(0x2000)];
    TopsOfTwo();
    ghost var done;
    assert mapper.Sees(BASE_1GB) == None;
    ok, done := mapper.MapGigabytes(0, 0, 2);
    TwoGigabytesAreNotMapped(before, memory[..], mapper.root);
  }

  // ---------------------------------------------------------------- every table by exactly one path

  /** Where the processor gets when it follows indices down from the top-level table. */
  function Follow(m: Memory, root: nat, p: Prefix): Option<nat>
    decreases |p|
  {
    if p == [] then Some(root)
    else
      var above := Follow(m, root, p[..|p| - 1]);
      if above.None? then None
      else
        var e := Entry(m, above.value, p[|p| - 1]);
        if !IsPresent(e) || IsLarge(e) || |p| > 3 then None else Some(Base(e))
  }

  /** The tables of the tree are those that can be reached. */
  lemma {:induction false} TablesAreReached(m: Memory, root: nat, tables: Tables, p: Prefix)
    requires Tree(m, root, tables) && IsPrefix(p)
    ensures Follow(m, root, p) == if p in tables then Some(tables[p]) else None
    decreases |p|
  {
    hide Entry, IsPresent, IsLarge, Base, IsLeaf, IsGigabyte, IsPage;
    if p != [] {
      var above, i := p[..|p| - 1], p[|p| - 1];
      TablesAreReached(m, root, tables, above);
      assert above + [i] == p;
      if above in tables {
        StepDown(m, root, tables, above, i);
      }
    }
  }

  /** No table can be reached along two different paths. */
  lemma ReachedByOnePath(m: Memory, root: nat, tables: Tables, p: Prefix, q: Prefix)
    requires Tree(m, root, tables) && IsPrefix(p) && IsPrefix(q)
    requires Follow(m, root, p).Some?
    ensures Follow(m, root, p) == Follow(m, root, q) <==> p == q
  {
    TablesAreReached(m, root, tables, p);
    TablesAreReached(m, root, tables, q);
  }
}
