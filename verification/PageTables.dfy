/**
 * Four-level page tables in memory, and what an x86-64 processor makes of them: the translation of
 * an address (Intel SDM Volume 3A, section 4.5) and its access rights (section 4.6). The tables form
 * a tree: each is reached along exactly one path of indices, so writing one entry concerns only the
 * addresses below it.
 */
module PageTables {
  import opened Options

  const PAGE_SIZE := 0x1000
  const BASE_1GB := 0x4000_0000
  const BASE_4GB := 0x1_0000_0000
  const WORD_LIMIT := 0x1_0000_0000_0000_0000
  const PRESENT_WRITABLE := 0x3
  const LARGE_PAGE := 0x80
  const PHYSICAL_LIMIT := 0x10_0000_0000_0000

  /** Physical memory, as 64-bit words. */
  type Memory = seq<nat>

  /** The address of a page that a table can occupy. */
  predicate IsPage(length: nat, a: nat) {
    0 < a < BASE_4GB && a % PAGE_SIZE == 0 && a + PAGE_SIZE <= 8 * length
  }

  function Entry(m: Memory, a: nat, i: nat): nat {
    if a / 8 + i < |m| then m[a / 8 + i] else 0
  }

  function SetEntry(m: Memory, a: nat, i: nat, e: nat): (m': Memory)
    requires IsPage(|m|, a) && i < 512
    ensures |m'| == |m|
  {
    m[a / 8 + i := e]
  }

  function ZeroPage(m: Memory, a: nat): (m': Memory)
    requires IsPage(|m|, a)
    ensures |m'| == |m|
  {
    seq(|m|, w requires 0 <= w < |m| => if a / 8 <= w < a / 8 + 512 then 0 else m[w])
  }

  lemma EntryAfterSet(m: Memory, a: nat, i: nat, e: nat, b: nat, j: nat)
    requires IsPage(|m|, a) && i < 512 && IsPage(|m|, b) && j < 512
    ensures Entry(SetEntry(m, a, i, e), b, j) == if b == a && j == i then e else Entry(m, b, j)
  {
    PagesApart(a, b);
  }

  lemma EntryAfterZero(m: Memory, a: nat, b: nat, j: nat)
    requires IsPage(|m|, a) && IsPage(|m|, b) && j < 512
    ensures Entry(ZeroPage(m, a), b, j) == if b == a then 0 else Entry(m, b, j)
  {
    PagesApart(a, b);
  }

  lemma PagesApart(a: nat, b: nat)
    requires a % PAGE_SIZE == 0 && b % PAGE_SIZE == 0
    ensures a == b || a / 8 + 512 <= b / 8 || b / 8 + 512 <= a / 8
  {
    var x, y := a / PAGE_SIZE, b / PAGE_SIZE;
    assert a / 8 == 512 * x && b / 8 == 512 * y;
  }

  // ---------------------------------------------------------------- virtual addresses

  /** The nine bits of an address that index a table of the given level. */
  function Index(va: nat, level: nat): (i: nat)
    requires 1 <= level <= 4
    ensures i < 512
  {
    if level == 4 then va / 0x80_0000_0000 % 512
    else if level == 3 then va / 0x4000_0000 % 512
    else if level == 2 then va / 0x20_0000 % 512
    else va / 0x1000 % 512
  }

  type Prefix = seq<nat>

  /** The first `length` indices of an address, from the top level down. */
  function PrefixOf(va: nat, length: nat): (p: Prefix)
    requires length <= 3
    ensures |p| == length
  {
    if length == 0 then []
    else if length == 1 then [Index(va, 4)]
    else if length == 2 then [Index(va, 4), Index(va, 3)]
    else [Index(va, 4), Index(va, 3), Index(va, 2)]
  }

  /** The number of the page an address lies in; 48 bits of the address take part in translation. */
  function PageOf(va: nat): nat {
    va / PAGE_SIZE % 0x10_0000_0000
  }

  /** Two addresses lie in one page exactly when all four indices agree. */
  lemma SamePage(v: nat, w: nat)
    ensures PageOf(v) == PageOf(w) <==> PrefixOf(v, 3) == PrefixOf(w, 3) && Index(v, 1) == Index(w, 1)
  {
    hide Index, PageOf;
    PageParts(v);
    PageParts(w);
    DigitsAreUnique(Index(v, 4), Index(v, 3), Index(v, 2), Index(v, 1), Index(w, 4), Index(w, 3), Index(w, 2),
      Index(w, 1));
    PrefixParts(v, w);
  }

  lemma PrefixParts(v: nat, w: nat)
    ensures PrefixOf(v, 1) == PrefixOf(w, 1) <==> Index(v, 4) == Index(w, 4)
    ensures PrefixOf(v, 2) == PrefixOf(w, 2) <==> Index(v, 4) == Index(w, 4) && Index(v, 3) == Index(w, 3)
    ensures PrefixOf(v, 3) == PrefixOf(w, 3)
      <==> Index(v, 4) == Index(w, 4) && Index(v, 3) == Index(w, 3) && Index(v, 2) == Index(w, 2)
  {
    hide Index;
    assert PrefixOf(v, 1)[0] == Index(v, 4) && PrefixOf(w, 1)[0] == Index(w, 4);
    assert PrefixOf(v, 2)[0] == Index(v, 4) && PrefixOf(w, 2)[0] == Index(w, 4);
    assert PrefixOf(v, 2)[1] == Index(v, 3) && PrefixOf(w, 2)[1] == Index(w, 3);
    assert PrefixOf(v, 3)[0] == Index(v, 4) && PrefixOf(w, 3)[0] == Index(w, 4);
    assert PrefixOf(v, 3)[1] == Index(v, 3) && PrefixOf(w, 3)[1] == Index(w, 3);
    assert PrefixOf(v, 3)[2] == Index(v, 2) && PrefixOf(w, 3)[2] == Index(w, 2);
  }

  lemma DigitsAreUnique(a: nat, b: nat, c: nat, d: nat, a': nat, b': nat, c': nat, d': nat)
    requires b < 512 && c < 512 && d < 512 && b' < 512 && c' < 512 && d' < 512
    ensures 0x800_0000 * a + 0x4_0000 * b + 0x200 * c + d == 0x800_0000 * a' + 0x4_0000 * b' + 0x200 * c' + d'
      <==> a == a' && b == b' && c == c' && d == d'
  {
  }

  lemma PageParts(v: nat)
    ensures PageOf(v) == 0x800_0000 * Index(v, 4) + 0x4_0000 * Index(v, 3) + 0x200 * Index(v, 2) + Index(v, 1)
  {
    var n := v / 0x1000;
    ShiftedIndices(v);
    hide Index;
    SplitPage(n);
    SplitTable(n / 512);
    SplitDirectory(n / 512 / 512);
  }

  lemma ShiftedIndices(v: nat)
    ensures var n := v / 0x1000;
      && Index(v, 1) == n % 512 && Index(v, 2) == n / 512 % 512
      && Index(v, 3) == n / 512 / 512 % 512 && Index(v, 4) == n / 512 / 512 / 512 % 512
  {
  }

  lemma SplitPage(n: nat)
    ensures n % 0x10_0000_0000 == 512 * (n / 512 % 0x800_0000) + n % 512
  {
  }

  lemma SplitTable(n: nat)
    ensures n % 0x800_0000 == 512 * (n / 512 % 0x4_0000) + n % 512
  {
  }

  lemma SplitDirectory(n: nat)
    ensures n % 0x4_0000 == 512 * (n / 512 % 512) + n % 512
  {
  }

  // ---------------------------------------------------------------- the processor's view

  predicate IsPresent(e: nat) {
    e % 2 == 1
  }

  predicate IsLarge(e: nat) {
    e / 0x80 % 2 == 1
  }

  /** The page-aligned address in an entry. */
  function Base(e: nat): nat {
    e / 0x1000 * 0x1000 % 0x10_0000_0000_0000
  }

  /** What the entries on a path allow: writing, access in user mode, fetching instructions. */
  datatype Rights = Rights(writable: bool, user: bool, executable: bool)

  /** The rights one entry grants: bits 1, 2 and, inverted, 63. */
  function RightsOf(e: nat): Rights {
    Rights(e / 2 % 2 == 1, e / 4 % 2 == 1, e / 0x8000_0000_0000_0000 % 2 == 0)
  }

  /** Every level must grant a right. */
  function Both(a: Rights, b: Rights): Rights {
    Rights(a.writable && b.writable, a.user && b.user, a.executable && b.executable)
  }

  /** Whether neither bit 3 nor bit 4 of the last entry restricts caching. */
  predicate IsCached(e: nat) {
    e / 8 % 4 == 0
  }

  /** What an address is translated to. */
  datatype View = View(physical: nat, rights: Rights, cached: bool)

  /** The processor's walk from the top-level table. */
  function Translate(m: Memory, root: nat, va: nat): Option<View> {
    var e4 := Entry(m, root, va / 0x80_0000_0000 % 512);
    if !IsPresent(e4) then None
    else
      var e3, rights := Entry(m, Base(e4), va / 0x4000_0000 % 512), RightsOf(e4);
      if !IsPresent(e3) then None
      else if IsLarge(e3) then
        Some(View(Base(e3) / 0x4000_0000 * 0x4000_0000 + va % 0x4000_0000, Both(rights, RightsOf(e3)), IsCached(e3)))
      else
        var e2, rights := Entry(m, Base(e3), va / 0x20_0000 % 512), Both(rights, RightsOf(e3));
        if !IsPresent(e2) then None
        else if IsLarge(e2) then
          Some(View(Base(e2) / 0x20_0000 * 0x20_0000 + va % 0x20_0000, Both(rights, RightsOf(e2)), IsCached(e2)))
        else
          var e1, rights := Entry(m, Base(e2), va / 0x1000 % 512), Both(rights, RightsOf(e2));
          if !IsPresent(e1) then None
          else Some(View(Base(e1) + va % 0x1000, Both(rights, RightsOf(e1)), IsCached(e1)))
  }

  /** The rights of system pages: writable, executable, out of reach for user mode. */
  const SYSTEM_RIGHTS := Rights(true, false, true)

  /** A system page, cached as usual. */
  function SystemView(physical: nat): View {
    View(physical, SYSTEM_RIGHTS, true)
  }

  // ---------------------------------------------------------------- the tree of tables

  /** Where the table for each prefix lies; the empty prefix stands for the top-level table. */
  type Tables = map<Prefix, nat>

  /** An entry for a 4 KiB page. */
  predicate IsLeaf(e: nat) {
    e % PAGE_SIZE == PRESENT_WRITABLE && e < PHYSICAL_LIMIT
  }

  /** An entry for a 1 GiB page. */
  predicate IsGigabyte(e: nat) {
    e % BASE_1GB == LARGE_PAGE + PRESENT_WRITABLE && e < PHYSICAL_LIMIT
  }

  /** An entry is empty, or leads to a table of the tree, or maps a page. */
  predicate EntryOk(tables: Tables, p: Prefix, i: nat, e: nat) {
    if p + [i] in tables then e == tables[p + [i]] + PRESENT_WRITABLE
    else e == 0 || (|p| == 3 && IsLeaf(e)) || (|p| == 1 && IsGigabyte(e))
  }

  predicate IsPrefix(p: Prefix) {
    |p| <= 3 && forall i :: 0 <= i < |p| ==> p[i] < 512
  }

  ghost predicate Tree(m: Memory, root: nat, tables: Tables) {
    && [] in tables && tables[[]] == root
    && (forall p :: p in tables ==> IsPrefix(p) && IsPage(|m|, tables[p]))
    && (forall p :: p in tables && p != [] ==> p[..|p| - 1] in tables)
    && (forall p, i: nat :: p in tables && i < 512 ==> EntryOk(tables, p, i, Entry(m, tables[p], i)))
    && (forall p, q :: p in tables && q in tables && tables[p] == tables[q] ==> p == q)
  }

  /** What the tree says about an address: the walk reaches these entries and no others. */
  function TreeWalk(m: Memory, tables: Tables, va: nat): Option<View> {
    if PrefixOf(va, 1) !in tables then None
    else if PrefixOf(va, 2) !in tables then
      var e := Entry(m, tables[PrefixOf(va, 1)], Index(va, 3));
      if e == 0 then None else Some(SystemView(Base(e) + va % BASE_1GB))
    else if PrefixOf(va, 3) !in tables then None
    else
      var e := Entry(m, tables[PrefixOf(va, 3)], Index(va, 1));
      if e == 0 then None else Some(SystemView(Base(e) + va % PAGE_SIZE))
  }

  /** The address a table entry leads to. */
  lemma EntryLeads(a: nat, length: nat)
    requires IsPage(length, a)
    ensures var e := a + PRESENT_WRITABLE;
      IsPresent(e) && !IsLarge(e) && Base(e) == a && e != 0 && RightsOf(e) == SYSTEM_RIGHTS
  {
    LowBits(a / PAGE_SIZE, 0);
    SystemEntry(a / PAGE_SIZE, 0);
  }

  /** The rights in an entry whose low bits are 3, with or without the large-page bit. */
  lemma SystemEntry(q: nat, large: nat)
    requires q * PAGE_SIZE < PHYSICAL_LIMIT && large <= 1
    ensures var e := q * PAGE_SIZE + LARGE_PAGE * large + PRESENT_WRITABLE;
      RightsOf(e) == SYSTEM_RIGHTS && IsCached(e)
  {
    WithRest(2048 * q + 64 * large + 1, 2, 1);
    WithRest(1024 * q + 32 * large, 2, 1);
    WithRest(1024 * q + 32 * large, 4, 3);
    WithRest(512 * q + 16 * large, 2, 0);
    WithRest(512 * q + 16 * large, 8, 3);
    WithRest(128 * q + 4 * large, 4, 0);
  }

  /** What the processor reads from an address with the low bits that are written here. */
  lemma LowBits(q: nat, large: nat)
    requires q * PAGE_SIZE < PHYSICAL_LIMIT && large <= 1
    ensures var e := q * PAGE_SIZE + LARGE_PAGE * large + PRESENT_WRITABLE;
      IsPresent(e) && (IsLarge(e) <==> large == 1) && Base(e) == q * PAGE_SIZE
  {
    WithRest(q, PAGE_SIZE, LARGE_PAGE * large + PRESENT_WRITABLE);
    WithRest(32 * q + large, LARGE_PAGE, PRESENT_WRITABLE);
    WithRest(2048 * q + 64 * large + 1, 2, 1);
    WithRest(16 * q, 2, large);
  }

  lemma WithRest(q: nat, d: nat, r: nat)
    requires r < d
    ensures (q * d + r) / d == q && (q * d + r) % d == r
  {
    var x := q * d + r;
    Between(x / d - q, d, r - x % d);
  }

  /** A multiple of d that is closer to zero than d is zero. */
  lemma Between(k: int, d: nat, rest: int)
    requires d * k == rest && rest < d && 0 < rest + d
    ensures k == 0
  {
    if k >= 1 {
      assert d * k == d * (k - 1) + d;
      NotNegative(d, k - 1);
    } else if k <= -1 {
      assert d * k == -(d * (-1 - k)) - d;
      NotNegative(d, -1 - k);
    }
  }

  lemma NotNegative(a: nat, b: nat)
    ensures a * b >= 0
  {
  }

  lemma LeafEntry(e: nat)
    ensures IsLeaf(e) ==> IsPresent(e) && Base(e) == e - PRESENT_WRITABLE
    ensures IsGigabyte(e) ==>
      IsPresent(e) && IsLarge(e) && Base(e) / BASE_1GB * BASE_1GB == Base(e) == e - LARGE_PAGE - PRESENT_WRITABLE
  {
    hide IsPresent, IsLarge, Base;
    if IsLeaf(e) {
      LowBits(e / PAGE_SIZE, 0);
    } else if IsGigabyte(e) {
      LowBits(e / BASE_1GB * 0x4_0000, 1);
      WithRest(e / BASE_1GB, BASE_1GB, 0);
    }
  }

  /** Mapped pages have the rights of system pages. */
  lemma MappedEntry(e: nat)
    requires IsLeaf(e) || IsGigabyte(e)
    ensures RightsOf(e) == SYSTEM_RIGHTS && IsCached(e)
  {
    hide RightsOf, IsCached;
    if IsLeaf(e) {
      SystemEntry(e / PAGE_SIZE, 0);
    } else {
      SystemEntry(e / BASE_1GB * 0x4_0000, 1);
    }
  }

  /** The processor indexes its tables as the tree does. */
  lemma WalkIndices(va: nat)
    ensures Index(va, 4) == va / 0x80_0000_0000 % 512 && Index(va, 3) == va / 0x4000_0000 % 512
    ensures Index(va, 2) == va / 0x20_0000 % 512 && Index(va, 1) == va / 0x1000 % 512
  {
  }

  lemma PrefixSteps(va: nat)
    ensures PrefixOf(va, 0) == [] && PrefixOf(va, 1) == [] + [Index(va, 4)]
    ensures PrefixOf(va, 2) == PrefixOf(va, 1) + [Index(va, 3)]
    ensures PrefixOf(va, 3) == PrefixOf(va, 2) + [Index(va, 2)]
    ensures IsPrefix(PrefixOf(va, 1)) && IsPrefix(PrefixOf(va, 2)) && IsPrefix(PrefixOf(va, 3))
  {
  }

  /** On a tree the processor's walk is the tree's. */
  lemma WalkFollowsTree(m: Memory, root: nat, tables: Tables, va: nat)
    requires Tree(m, root, tables)
    ensures Translate(m, root, va) == TreeWalk(m, tables, va)
  {
    hide Index, Entry, IsLeaf, IsGigabyte, IsPresent, IsLarge, Base, RightsOf, IsCached, PrefixOf, IsPage, Tree;
    PrefixSteps(va);
    WalkIndices(va);
    TreeHasRoot(m, root, tables);
    StepDown(m, root, tables, [], Index(va, 4));
    if PrefixOf(va, 1) in tables {
      StepDown(m, root, tables, PrefixOf(va, 1), Index(va, 3));
      if PrefixOf(va, 2) in tables {
        StepDown(m, root, tables, PrefixOf(va, 2), Index(va, 2));
        if PrefixOf(va, 3) in tables {
          StepDown(m, root, tables, PrefixOf(va, 3), Index(va, 1));
        }
      }
    }
  }

  lemma TreeHasRoot(m: Memory, root: nat, tables: Tables)
    requires Tree(m, root, tables)
    ensures [] in tables && tables[[]] == root
  {
  }

  /** What an entry of a table in the tree looks like to the processor. */
  lemma StepDown(m: Memory, root: nat, tables: Tables, p: Prefix, i: nat)
    requires Tree(m, root, tables) && p in tables && i < 512
    ensures var e := Entry(m, tables[p], i);
      if p + [i] in tables then
        IsPresent(e) && !IsLarge(e) && Base(e) == tables[p + [i]] && |p| < 3 && RightsOf(e) == SYSTEM_RIGHTS
      else
        && (e != 0 ==> RightsOf(e) == SYSTEM_RIGHTS && IsCached(e))
        && (!IsPresent(e) <==> e == 0)
        && (e != 0 ==> |p| == 1 || |p| == 3)
        && (e != 0 && |p| == 1 ==> IsLarge(e) && Base(e) / BASE_1GB * BASE_1GB == Base(e))
  {
    hide Entry, IsLeaf, IsGigabyte, IsPresent, IsLarge, Base, RightsOf, IsCached, IsPage;
    var e := Entry(m, tables[p], i);
    assert EntryOk(tables, p, i, e);
    LeafEntry(e);
    ZeroEntry();
    if p + [i] in tables {
      EntryLeads(tables[p + [i]], |m|);
      assert IsPrefix(p + [i]);
    } else if e != 0 {
      MappedEntry(e);
    }
  }

  lemma ZeroEntry()
    ensures !IsPresent(0)
  {
  }

  // ---------------------------------------------------------------- adding a table

  /** Memory after a zeroed page was hung into an entry. */
  function Grown(m: Memory, table: nat, i: nat, a: nat): (m': Memory)
    requires IsPage(|m|, table) && i < 512 && IsPage(|m|, a)
    ensures |m'| == |m|
  {
    SetEntry(ZeroPage(m, a), table, i, a + PRESENT_WRITABLE)
  }

  lemma EntryAfterGrown(m: Memory, table: nat, i: nat, a: nat, b: nat, j: nat)
    requires IsPage(|m|, table) && i < 512 && IsPage(|m|, a) && IsPage(|m|, b) && j < 512
    ensures Entry(Grown(m, table, i, a), b, j)
      == if b == table && j == i then a + PRESENT_WRITABLE else if b == a then 0 else Entry(m, b, j)
  {
    EntryAfterSet(ZeroPage(m, a), table, i, a + PRESENT_WRITABLE, b, j);
    EntryAfterZero(m, a, b, j);
  }

  lemma Longer(p: Prefix, i: nat, q: Prefix, j: nat)
    ensures (p + [i])[..|p|] == p && |p + [i]| == |p| + 1
    ensures p + [i] == q + [j] <==> p == q && i == j
  {
    assert (p + [i])[|p|] == i && (q + [j])[|q|] == j;
    assert (p + [i])[..|p|] == p && (q + [j])[..|q|] == q;
  }

  /** Hanging a zeroed page into an empty entry keeps the tree. */
  lemma GrownTree(m: Memory, root: nat, tables: Tables, p: Prefix, i: nat, a: nat)
    requires Tree(m, root, tables) && p in tables && |p| < 3 && i < 512 && p + [i] !in tables
    requires IsPage(|m|, a) && forall q :: q in tables ==> tables[q] != a
    ensures Tree(Grown(m, tables[p], i, a), root, tables[p + [i] := a])
  {
    hide Grown, IsPage, IsLeaf, IsGigabyte, Entry;
    var m', tables' := Grown(m, tables[p], i, a), tables[p + [i] := a];
    Longer(p, i, p, i);
    forall q, j: nat | q in tables' && j < 512
      ensures EntryOk(tables', q, j, Entry(m', tables'[q], j))
    {
      EntryAfterGrown(m, tables[p], i, a, tables'[q], j);
      Longer(q, j, p, i);
      if q == p + [i] {
        assert q + [j] !in tables by {
          assert (q + [j])[..|q + [j]| - 1] == q;
        }
      } else {
        assert EntryOk(tables, q, j, Entry(m, tables[q], j));
      }
    }
  }

  /** A new, empty table translates nothing. */
  lemma GrownWalk(m: Memory, root: nat, tables: Tables, p: Prefix, i: nat, a: nat, va: nat)
    requires Tree(m, root, tables) && p in tables && |p| < 3 && i < 512 && p + [i] !in tables
    requires Entry(m, tables[p], i) == 0
    requires IsPage(|m|, a) && forall q :: q in tables ==> tables[q] != a
    ensures TreeWalk(Grown(m, tables[p], i, a), tables[p + [i] := a], va) == TreeWalk(m, tables, va)
  {
    hide Tree, Grown, IsPage, Entry, Index, PrefixOf, Base;
    TablesAreNot(m, root, tables, p, a);
    var m', tables' := Grown(m, tables[p], i, a), tables[p + [i] := a];
    PrefixSteps(va);
    Longer(PrefixOf(va, 0), Index(va, 4), p, i);
    Longer(PrefixOf(va, 1), Index(va, 3), p, i);
    Longer(PrefixOf(va, 2), Index(va, 2), p, i);
    ParentsIn(m, root, tables, va);
    if PrefixOf(va, 1) in tables' {
      EntryAfterGrown(m, tables[p], i, a, tables'[PrefixOf(va, 1)], Index(va, 3));
    }
    if PrefixOf(va, 3) in tables' {
      EntryAfterGrown(m, tables[p], i, a, tables'[PrefixOf(va, 3)], Index(va, 1));
    }
  }

  lemma TablesAreApart(m: Memory, root: nat, tables: Tables, p: Prefix)
    requires Tree(m, root, tables) && p in tables
    ensures forall q :: q in tables ==> IsPage(|m|, tables[q])
    ensures forall q :: q in tables && tables[q] == tables[p] ==> q == p
  {
  }

  lemma TablesAreNot(m: Memory, root: nat, tables: Tables, p: Prefix, a: nat)
    requires Tree(m, root, tables) && p in tables && forall q :: q in tables ==> tables[q] != a
    ensures forall q :: q in tables ==> IsPage(|m|, tables[q]) && tables[q] != a
    ensures forall q :: q in tables && tables[q] == tables[p] ==> q == p
  {
  }

  /** A table is in the tree only if those above it are. */
  lemma ParentsIn(m: Memory, root: nat, tables: Tables, va: nat)
    requires Tree(m, root, tables)
    ensures PrefixOf(va, 2) in tables ==> PrefixOf(va, 1) in tables
    ensures PrefixOf(va, 3) in tables ==> PrefixOf(va, 2) in tables
  {
    hide Index;
    PrefixSteps(va);
    Longer(PrefixOf(va, 1), Index(va, 3), [], 0);
    Longer(PrefixOf(va, 2), Index(va, 2), [], 0);
  }

  lemma LastLevel(m: Memory, root: nat, tables: Tables, p: Prefix, i: nat)
    requires Tree(m, root, tables) && |p| >= 3
    ensures p + [i] !in tables
  {
    assert !IsPrefix(p + [i]);
  }

  // ---------------------------------------------------------------- mapping a page

  /** Writing a page entry in a last-level table keeps the tree. */
  lemma LeafTree(m: Memory, root: nat, tables: Tables, va: nat, e: nat)
    requires Tree(m, root, tables) && PrefixOf(va, 3) in tables && IsLeaf(e)
    requires IsPage(|m|, tables[PrefixOf(va, 3)])
    ensures Tree(SetEntry(m, tables[PrefixOf(va, 3)], Index(va, 1), e), root, tables)
  {
    hide IsPage, IsLeaf, IsGigabyte, Entry, SetEntry, Index, PrefixOf;
    var p := PrefixOf(va, 3);
    var m' := SetEntry(m, tables[p], Index(va, 1), e);
    forall q, j: nat | q in tables && j < 512
      ensures EntryOk(tables, q, j, Entry(m', tables[q], j))
    {
      EntryAfterSet(m, tables[p], Index(va, 1), e, tables[q], j);
      assert EntryOk(tables, q, j, Entry(m, tables[q], j));
      LastLevel(m, root, tables, p, j);
    }
  }

  /** It changes the translation of that page and of no other address. */
  lemma LeafWalk(m: Memory, root: nat, tables: Tables, va: nat, pa: nat, w: nat)
    requires Tree(m, root, tables) && PrefixOf(va, 3) in tables && pa % PAGE_SIZE == 0 && pa < PHYSICAL_LIMIT
    requires IsPage(|m|, tables[PrefixOf(va, 3)])
    ensures var m' := SetEntry(m, tables[PrefixOf(va, 3)], Index(va, 1), pa + PRESENT_WRITABLE);
      TreeWalk(m', tables, w)
        == if PageOf(w) == PageOf(va) then Some(SystemView(pa + w % PAGE_SIZE)) else TreeWalk(m, tables, w)
  {
    hide Tree, IsPage, Entry, SetEntry, Index, PrefixOf, PageOf, Base, IsGigabyte;
    var p, e := PrefixOf(va, 3), pa + PRESENT_WRITABLE;
    TablesAreApart(m, root, tables, p);
    DifferentLength(w, va);
    SamePage(w, va);
    ParentsIn(m, root, tables, va);
    ParentsIn(m, root, tables, w);
    PrefixParts(va, w);
    if PrefixOf(w, 1) in tables {
      EntryAfterSet(m, tables[p], Index(va, 1), e, tables[PrefixOf(w, 1)], Index(w, 3));
    }
    if PrefixOf(w, 3) in tables {
      EntryAfterSet(m, tables[p], Index(va, 1), e, tables[PrefixOf(w, 3)], Index(w, 1));
    }
    LeafEntry(e);
    assert IsLeaf(e);
  }

  // ---------------------------------------------------------------- mapping a gigabyte

  /** The tree without the tables below a prefix. */
  function Without(tables: Tables, q: Prefix): Tables {
    map p | p in tables && !(q <= p) :: tables[p]
  }

  /** Writing a large-page entry in a second-level table cuts off the tables below it. */
  lemma GigabyteTree(m: Memory, root: nat, tables: Tables, p: Prefix, i: nat, e: nat)
    requires Tree(m, root, tables) && p in tables && |p| == 1 && i < 512 && IsGigabyte(e)
    requires IsPage(|m|, tables[p])
    ensures Tree(SetEntry(m, tables[p], i, e), root, Without(tables, p + [i]))
  {
    hide IsPage, IsLeaf, IsGigabyte, Entry, SetEntry;
    var m', cut := SetEntry(m, tables[p], i, e), p + [i];
    var tables' := Without(tables, cut);
    forall q, j: nat | q in tables' && j < 512
      ensures EntryOk(tables', q, j, Entry(m', tables'[q], j))
    {
      EntryAfterSet(m, tables[p], i, e, tables[q], j);
      assert EntryOk(tables, q, j, Entry(m, tables[q], j));
      Longer(q, j, p, i);
      CutBelow(cut, q, j);
    }
    forall q | q in tables' && q != []
      ensures q[..|q| - 1] in tables'
    {
      BelowParent(cut, q);
    }
  }

  lemma BelowParent(cut: Prefix, q: Prefix)
    requires q != []
    ensures cut <= q[..|q| - 1] ==> cut <= q
  {
  }

  /** A prefix is below the cut when its parent is, or when it is the cut itself. */
  lemma CutBelow(cut: Prefix, q: Prefix, j: nat)
    ensures cut <= q + [j] <==> cut <= q || cut == q + [j]
  {
    if cut <= q + [j] && |cut| <= |q| {
      assert cut == (q + [j])[..|cut|] == q[..|cut|];
    }
    if cut <= q {
      assert (q + [j])[..|cut|] == q[..|cut|];
    }
  }

  /** It changes the translation of the gigabyte below the entry, and of no other address. */
  lemma GigabyteWalk(m: Memory, root: nat, tables: Tables, va: nat, i: nat, pa: nat, w: nat)
    requires Tree(m, root, tables) && PrefixOf(va, 1) in tables && i < 512
    requires pa % BASE_1GB == 0 && pa < PHYSICAL_LIMIT
    requires IsPage(|m|, tables[PrefixOf(va, 1)])
    ensures var p := PrefixOf(va, 1);
      TreeWalk(SetEntry(m, tables[p], i, pa + LARGE_PAGE + PRESENT_WRITABLE), Without(tables, p + [i]), w)
      == if Index(w, 4) == Index(va, 4) && Index(w, 3) == i then Some(SystemView(pa + w % BASE_1GB))
        else TreeWalk(m, tables, w)
  {
    hide Tree, Without, IsPage, Entry, SetEntry, Index, PrefixOf, Base, IsLeaf;
    var p, e := PrefixOf(va, 1), pa + LARGE_PAGE + PRESENT_WRITABLE;
    ParentsIn(m, root, tables, w);
    TablesAreApart(m, root, tables, p);
    WithoutPrefixes(tables, va, i, w);
    PrefixParts(va, w);
    if PrefixOf(w, 1) in tables {
      EntryAfterSet(m, tables[p], i, e, tables[PrefixOf(w, 1)], Index(w, 3));
    }
    if PrefixOf(w, 3) in tables {
      EntryAfterSet(m, tables[p], i, e, tables[PrefixOf(w, 3)], Index(w, 1));
      DifferentLength(va, w);
    }
    LeafEntry(e);
    assert IsGigabyte(e);
  }

  lemma DifferentLength(va: nat, w: nat)
    ensures PrefixOf(va, 1) != PrefixOf(w, 3)
  {
  }

  /** Which tables above an address remain. */
  lemma WithoutPrefixes(tables: Tables, va: nat, i: nat, w: nat)
    ensures var tables', cut := Without(tables, PrefixOf(va, 1) + [i]), Index(w, 4) == Index(va, 4) && Index(w, 3) == i;
      && (PrefixOf(w, 1) in tables' <==> PrefixOf(w, 1) in tables)
      && (PrefixOf(w, 2) in tables' <==> PrefixOf(w, 2) in tables && !cut)
      && (PrefixOf(w, 3) in tables' <==> PrefixOf(w, 3) in tables && !cut)
      && (forall q :: q in tables' ==> q in tables && tables'[q] == tables[q])
  {
    hide Index;
    var p := PrefixOf(va, 1);
    PrefixSteps(va);
    PrefixSteps(w);
    Longer([], Index(va, 4), [], Index(w, 4));
    Longer(PrefixOf(w, 1), Index(w, 3), p, i);
    CutBelow(p + [i], [], Index(w, 4));
    CutBelow(p + [i], PrefixOf(w, 1), Index(w, 3));
    CutBelow(p + [i], PrefixOf(w, 2), Index(w, 2));
  }
}
