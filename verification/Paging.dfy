/**
 * The boot loader's page-table builder: it maps pages one by one, allocating tables on demand.
 * On success a range is translated as asked and every other address as before; when the firmware
 * refuses a page, exactly the pages before the failing one are mapped.
 */
module Paging {
  import opened Options
  import opened PageTables

  /** Page requests the firmware is going to grant or refuse, in order; then it refuses. */
  type Answers = seq<Option<nat>>

  /** Granted pages lie in memory and are used for nothing else. */
  ghost predicate AnswersOk(length: nat, tables: Tables, answers: Answers) {
    && (forall k :: 0 <= k < |answers| && answers[k].Some? ==> IsPage(length, answers[k].value))
    && (forall k, p :: 0 <= k < |answers| && answers[k].Some? && p in tables ==> tables[p] != answers[k].value)
    && (forall j, k :: 0 <= j < k < |answers| && answers[j].Some? ==> answers[j] != answers[k])
  }

  /** The first `n` requests will be granted. */
  predicate Grants(answers: Answers, n: nat) {
    n <= |answers| && forall k :: 0 <= k < n ==> answers[k].Some?
  }

  /** What is left after `n` requests. */
  function After(answers: Answers, n: nat): Answers {
    if n <= |answers| then answers[n..] else []
  }

  ghost function PagesOf(tables: Tables, answers: Answers): set<nat> {
    (set p | p in tables :: tables[p]) + (set k | 0 <= k < |answers| && answers[k].Some? :: answers[k].value)
  }

  /** Memory outside the given pages is as before. */
  ghost predicate KeepsOutside(m: Memory, m': Memory, pages: set<nat>) {
    && |m'| == |m|
    && forall w :: 0 <= w < |m| && (forall a :: a in pages ==> w < a / 8 || a / 8 + 512 <= w) ==> m'[w] == m[w]
  }

  /** Only the mapper's pages were written to, and it has no new ones. */
  ghost predicate Confined(m: Memory, m': Memory, pages: set<nat>, pages': set<nat>) {
    KeepsOutside(m, m', pages) && pages' <= pages
  }

  /** How many requests are granted before the first refusal. */
  function Granted(answers: Answers): nat {
    if answers == [] || answers[0].None? then 0 else 1 + Granted(answers[1..])
  }

  /** Whether a 1 GiB page already covers an address. */
  predicate InGigabyte(m: Memory, root: nat, va: nat) {
    var e4 := Entry(m, root, Index(va, 4));
    IsPresent(e4) && IsPresent(Entry(m, Base(e4), Index(va, 3))) && IsLarge(Entry(m, Base(e4), Index(va, 3)))
  }

  /** A zeroed page below 4 GiB, or nothing. */
  method AllocateZeroedPage(memory: array<nat>, answers: Answers) returns (page: Option<nat>, rest: Answers)
    requires forall k :: 0 <= k < |answers| && answers[k].Some? ==> IsPage(memory.Length, answers[k].value)
    modifies memory
    ensures rest == After(answers, 1)
    ensures page == if answers == [] then None else answers[0]
    ensures page.None? ==> memory[..] == old(memory[..])
    ensures page.Some? ==> IsPage(memory.Length, page.value) && memory[..] == ZeroPage(old(memory[..]), page.value)
  {
    if answers == [] {
      return None, [];
    }
    page, rest := answers[0], answers[1..];
    if page.Some? {
      var start := page.value / 8;
      for i := 0 to 512
        invariant forall w :: 0 <= w < memory.Length ==>
          memory[w] == if start <= w < start + i then 0 else old(memory[w])
      {
        memory[start + i] := 0;
      }
      assert memory[..] == ZeroPage(old(memory[..]), page.value);
    }
  }

  /** An empty top-level table on a page of its own, or nothing when the firmware refuses it. */
  method PagingInit(memory: array<nat>, answers: Answers) returns (mapper: PageMapper?)
    requires AnswersOk(memory.Length, map[], answers)
    modifies memory
    ensures mapper != null <==> Grants(answers, 1)
    ensures mapper == null ==> memory[..] == old(memory[..])
    ensures mapper != null ==>
      && fresh(mapper) && mapper.Valid() && mapper.memory == memory && mapper.answers == After(answers, 1)
      && mapper.root == answers[0].value && mapper.tables == map[[] := mapper.root]
      && IsPage(memory.Length, mapper.root) && memory[..] == ZeroPage(old(memory[..]), mapper.root)
      && forall va :: mapper.Sees(va) == None
  {
    var page, rest := AllocateZeroedPage(memory, answers);
    if page == None {
      return null;
    }
    forall i | 0 <= i < 512
      ensures Entry(memory[..], page.value, i) == 0
    {
      EntryAfterZero(old(memory[..]), page.value, page.value, i);
    }
    mapper := new PageMapper(memory, page.value, rest);
  }

  class PageMapper {
    const memory: array<nat>
    const root: nat
    var answers: Answers
    ghost var tables: Tables

    ghost predicate Valid()
      reads this, memory
    {
      Tree(memory[..], root, tables) && AnswersOk(memory.Length, tables, answers)
    }

    ghost function Now(): Moment
      reads this, memory
    {
      Moment(memory[..], tables, answers)
    }

    /** The pages the mapper may write to: its tables and what the firmware will grant. */
    ghost function Pages(): set<nat>
      reads this
    {
      PagesOf(tables, answers)
    }

    /** The translation of an address, with its access rights. */
    ghost function Sees(va: nat): Option<View>
      reads this, memory
    {
      Translate(memory[..], root, va)
    }

    /** An empty top-level table: nothing is translated. */
    constructor (memory: array<nat>, root: nat, answers: Answers)
      requires IsPage(memory.Length, root) && forall i :: 0 <= i < 512 ==> Entry(memory[..], root, i) == 0
      requires AnswersOk(memory.Length, map[[] := root], answers)
      ensures Valid() && this.memory == memory && this.root == root && this.answers == answers
      ensures tables == map[[] := root]
      ensures forall va :: Sees(va) == None
    {
      this.memory, this.root, this.answers, this.tables := memory, root, answers, map[[] := root];
    }

    /** The table an entry leads to; an empty entry gets a new table. */
    method NextTable(table: nat, index: nat, ghost p: Prefix) returns (next: Option<nat>)
      requires Valid() && p in tables && tables[p] == table && |p| < 3 && index < 512
      requires p + [index] !in tables ==> Entry(memory[..], table, index) == 0
      modifies this, memory
      ensures Valid()
      ensures p + [index] in old(tables) ==>
        answers == old(answers) && tables == old(tables) && next == Some(tables[p + [index]])
      ensures p + [index] !in old(tables) ==>
        answers == After(old(answers), 1) && (next.Some? <==> Grants(old(answers), 1))
      ensures next.None? ==> tables == old(tables)
      ensures next.Some? ==> tables == old(tables)[p + [index] := next.value]
      ensures Quiet(old(memory[..]), memory[..], root, old(Pages()), Pages())
    {
      hide Tree, AnswersOk, InGigabyte, ZeroPage, Translate, IsPage, PagesOf, Confined;
      ghost var before, asked := memory[..], answers;
      EntryHere(before, root, tables, p, index);
      AnswerTaken(memory.Length, tables, asked);
      SamePages(before, Pages());
      RestPages(before, tables, asked);
      if memory[table / 8 + index] == 0 {
        TableAdded(before, root, tables, p, index, asked);
        next, answers := AllocateZeroedPage(memory, answers);
        if next == None {
          return;
        }
        GrownOutside(before, tables, p, index, asked);
        memory[table / 8 + index] := next.value + PRESENT_WRITABLE;
        tables := tables[p + [index] := next.value];
        assert memory[..] == Grown(before, table, index, next.value);
      } else {
        next := Some(memory[table / 8 + index] - memory[table / 8 + index] % 4);
      }
    }

    /** Map one page. */
    method MapPage(pa: nat, va: nat) returns (ok: bool)
      requires Valid() && pa % PAGE_SIZE == 0 && pa < PHYSICAL_LIMIT
      requires !InGigabyte(memory[..], root, va)
      modifies this, memory
      ensures Valid()
      ensures ok <==> Grants(old(answers), Missing(old(tables), va))
      ensures ok ==>
        answers == After(old(answers), Missing(old(tables), va)) && tables.Keys == old(tables).Keys + Prefixes(va)
      ensures !ok ==> answers == After(old(answers), Granted(old(answers)) + 1)
      ensures !ok ==> old(tables).Keys <= tables.Keys <= old(tables).Keys + Prefixes(va)
      ensures if ok then MapsPage(old(memory[..]), memory[..], root, pa, va)
        else SameView(old(memory[..]), memory[..], root)
      ensures NoNewGigabytes(old(memory[..]), memory[..], root)
      ensures Confined(old(memory[..]), memory[..], old(Pages()), Pages())
    {
      hide Tree, AnswersOk, InGigabyte, Entry, Index, PrefixOf, Grants, Granted, After, IsPage, SameView, MapsPage,
        NoNewGigabytes, PagesOf, Confined, Quiet, Missing, Prefixes, TablesFound, TableRefused;
      ghost var start := Now();
      NoTableYet(start, root, va);
      LookUp(start, start, root, va, 0);
      var pdpTable := NextTable(root, Index(va, 4), []);
      ghost var first := Now();
      NextTableFound(start, start, first, root, va, 0, pdpTable);
      if pdpTable == None {
        RefusedParts(start, first, root, va);
        return false;
      }
      LookUp(start, first, root, va, 1);
      var pdTable := NextTable(pdpTable.value, Index(va, 3), PrefixOf(va, 1));
      ghost var second := Now();
      NextTableFound(start, first, second, root, va, 1, pdTable);
      if pdTable == None {
        RefusedParts(start, second, root, va);
        return false;
      }
      LookUp(start, second, root, va, 2);
      var ptTable := NextTable(pdTable.value, Index(va, 2), PrefixOf(va, 2));
      ghost var third := Now();
      NextTableFound(start, second, third, root, va, 2, ptTable);
      if ptTable == None {
        RefusedParts(start, third, root, va);
        return false;
      }
      PageAdded(start, third, root, va, pa);
      memory[ptTable.value / 8 + Index(va, 1)] := pa + PRESENT_WRITABLE;
      ok := true;
    }

    /** Map a range of pages. `done` pages are mapped, all of them unless the firmware refuses a table. */
    method MapPages(pa: nat, va: nat, numberOfPages: nat) returns (ok: bool, ghost done: nat)
      requires Valid() && pa % PAGE_SIZE == 0 && pa + numberOfPages * PAGE_SIZE <= PHYSICAL_LIMIT
      requires va < WORD_LIMIT
      requires forall i: nat :: i < numberOfPages ==> !InGigabyte(memory[..], root, Address(va, i))
      modifies this, memory
      ensures Valid()
      ensures done <= numberOfPages && (ok <==> done == numberOfPages)
      ensures ok <==> Affords(old(answers), old(tables).Keys, va, numberOfPages)
      ensures Affords(old(answers), old(tables).Keys, va, done)
      ensures !ok ==> !Affords(old(answers), old(tables).Keys, va, done + 1)
      ensures MapsRange(old(memory[..]), memory[..], root, pa, va, done)
      ensures Confined(old(memory[..]), memory[..], old(Pages()), Pages())
      ensures ok ==> tables.Keys == old(tables).Keys + Touched(va, numberOfPages)
      ensures ok ==> answers == After(old(answers), |Touched(va, numberOfPages) - old(tables).Keys|)
      ensures !ok ==> PartlyGrown(old(tables).Keys, tables.Keys, va, done)
      ensures !ok ==> answers == After(old(answers), Granted(old(answers)) + 1)
    {
      hide Translate, InGigabyte, Tree, AnswersOk, PageOf, Prefixes, Grants, Missing, After, Touched, Address, Frame,
        MapsPage, SameView, MapsRange, NoNewGigabytes, Affords, Granted, PagesOf, Confined, PartlyGrown, Wrap,
        RangeSoFar, RangeStopped;
      var pAddr, vAddr := pa, va;
      done := 0;
      ghost var start := Now();
      NoRangeYet(start, root, pa, va);
      for i := 0 to numberOfPages
        invariant Valid() && done == i
        invariant pAddr == Frame(pa, i) && vAddr == Address(va, i)
        invariant RangeSoFar(start, Now(), root, pa, va, i)
      {
        ghost var before := Now();
        NextPage(start, before, root, pa, va, i, numberOfPages);
        var mapped := MapPage(pAddr, vAddr);
        RangeStep(start, before, Now(), root, pa, va, i, mapped);
        if !mapped {
          StoppedParts(start, Now(), root, pa, va, i, numberOfPages);
          return false, i;
        }
        pAddr := pAddr + PAGE_SIZE;
        vAddr := Wrap(vAddr + PAGE_SIZE);
        done := i + 1;
      }
      RangeParts(start, Now(), root, pa, va, numberOfPages);
      ok := true;
    }

    /**
     * Map one gigabyte. The second-level table is indexed with the bits that belong to the third
     * level (bits 21 to 29), as the original does.
     */
    method MapGigabyte(pa: nat, va: nat) returns (ok: bool)
      requires Valid() && pa % BASE_1GB == 0 && pa < PHYSICAL_LIMIT
      modifies this, memory
      ensures Valid()
      ensures if ok then MapsGigabyte(old(memory[..]), memory[..], root, pa, va)
        else SameView(old(memory[..]), memory[..], root)
      ensures Confined(old(memory[..]), memory[..], old(Pages()), Pages())
      ensures ok <==> Grants(old(answers), MissingTop(old(tables), va))
      ensures if ok then CutAt(old(tables), tables, PrefixOf(va, 1), Index(va, 2)) else tables == old(tables)
      ensures answers == After(old(answers), MissingTop(old(tables), va))
    {
      hide Tree, AnswersOk, InGigabyte, Entry, Index, PrefixOf, Grants, IsPage, SameView, MapsGigabyte, NoNewGigabytes,
        PagesOf, Confined, Without, CutAt;
      ghost var m0, pages, known := memory[..], Pages(), tables;
      PrefixSteps(va);
      TopLevel(m0, root, tables, va);
      GrantsSteps(answers);
      var pdpTable := NextTable(root, Index(va, 4), []);
      if pdpTable == None {
        return false;
      }
      ghost var m1, pages1, grown := memory[..], Pages(), tables;
      GigabyteWritten(m1, root, tables, answers, va, pa);
      EntryOutside(m1, tables, PrefixOf(va, 1), Index(va, 2), pa + LARGE_PAGE + PRESENT_WRITABLE, answers);
      memory[pdpTable.value / 8 + Index(va, 2)] := pa + LARGE_PAGE + PRESENT_WRITABLE;
      tables := Without(tables, PrefixOf(va, 1) + [Index(va, 2)]);
      WithoutPages(memory[..], grown, PrefixOf(va, 1) + [Index(va, 2)], answers);
      ConfinedChain(m1, memory[..], memory[..], pages1, pages1, Pages());
      ConfinedChain(m0, m1, memory[..], pages, pages1, Pages());
      GigabyteAfterView(m0, m1, memory[..], root, pa, va);
      CutTables(known, grown, PrefixOf(va, 1), Index(va, 2));
      ok := true;
    }

    /** Map a range of gigabytes, one after the other. */
    method MapGigabytes(pa: nat, va: nat, sizeInGb: nat) returns (ok: bool, ghost done: nat)
      requires Valid() && pa % BASE_1GB == 0 && pa + sizeInGb * BASE_1GB <= PHYSICAL_LIMIT && va < WORD_LIMIT
      modifies this, memory
      ensures Valid()
      ensures done <= sizeInGb && (ok <==> done == sizeInGb)
      ensures ok <==> AffordsTops(old(answers), old(tables).Keys, va, sizeInGb)
      ensures AffordsTops(old(answers), old(tables).Keys, va, done)
      ensures !ok ==> !AffordsTops(old(answers), old(tables).Keys, va, done + 1)
      ensures MapsGigabytes(old(memory[..]), memory[..], root, pa, va, done)
      ensures Confined(old(memory[..]), memory[..], old(Pages()), Pages())
      ensures HasTops(tables.Keys, old(tables).Keys, va, done)
      ensures answers == After(old(answers), NewTops(old(tables).Keys, va, if ok then done else done + 1))
    {
      hide Tree, AnswersOk, Translate, MapsGigabytes, MapsGigabyte, SameView, GigabyteFrame, GigabyteAddress, Grants,
        After, Wrap, Tops, NewTops, HasTops, AffordsTops, TopsAccounted, CutAt, Without, GigabytesMapped, MissingTop,
        PagesOf, Confined, PrefixOf, Index;
      var pAddr, vAddr := pa, va;
      done := 0;
      ghost var start, keys, asked, pages := memory[..], tables.Keys, answers, Pages();
      SamePages(start, pages);
      NoGigabytes(start, root, pa, va);
      NoTops(va, keys, asked);
      for i := 0 to sizeInGb
        invariant Valid() && done == i
        invariant pAddr == GigabyteFrame(pa, i) && vAddr == GigabyteAddress(va, i)
        invariant MapsGigabytes(start, memory[..], root, pa, va, i)
        invariant TopsAccounted(asked, answers, keys, tables.Keys, va, i)
        invariant Confined(start, memory[..], pages, Pages())
      {
        NextGigabyte(pa, va, i, sizeInGb);
        OneMoreTop(asked, answers, keys, tables, va, i);
        ghost var before, pages1, known := memory[..], Pages(), tables;
        var mapped := MapGigabyte(pAddr, vAddr);
        ConfinedChain(start, before, memory[..], pages, pages1, Pages());
        GigabytesNext(start, before, memory[..], root, pa, va, i);
        if !mapped {
          FewerTops(asked, keys, va, i + 1, sizeInGb);
          return false, i;
        }
        TopsAfterCut(asked, answers, keys, known, tables, va, i);
        pAddr := pAddr + BASE_1GB;
        vAddr := Wrap(vAddr + BASE_1GB);
        done := i + 1;
      }
      TopsParts(asked, answers, keys, tables.Keys, va, sizeInGb);
      ok := true;
    }
  }

  /** A 1 GiB page in the tree. */
  predicate TreeGigabyte(m: Memory, tables: Tables, va: nat) {
    PrefixOf(va, 1) in tables && PrefixOf(va, 2) !in tables && Entry(m, tables[PrefixOf(va, 1)], Index(va, 3)) != 0
  }

  lemma GigabyteInTree(m: Memory, root: nat, tables: Tables, va: nat)
    requires Tree(m, root, tables)
    ensures InGigabyte(m, root, va) <==> TreeGigabyte(m, tables, va)
  {
    hide Index, Entry, IsPresent, IsLarge, Base, PrefixOf;
    PrefixSteps(va);
    StepDown(m, root, tables, [], Index(va, 4));
    if PrefixOf(va, 1) in tables {
      StepDown(m, root, tables, PrefixOf(va, 1), Index(va, 3));
    }
  }

  lemma GrownGigabytes(m: Memory, root: nat, tables: Tables, p: Prefix, i: nat, a: nat, va: nat)
    requires Tree(m, root, tables) && p in tables && |p| < 3 && i < 512 && p + [i] !in tables
    requires Entry(m, tables[p], i) == 0
    requires IsPage(|m|, tables[p]) && IsPage(|m|, a) && forall q :: q in tables ==> tables[q] != a
    ensures TreeGigabyte(Grown(m, tables[p], i, a), tables[p + [i] := a], va) == TreeGigabyte(m, tables, va)
  {
    hide Tree, Grown, IsPage, Entry, Index, PrefixOf;
    TablesAreNot(m, root, tables, p, a);
    PrefixSteps(va);
    Longer(PrefixOf(va, 0), Index(va, 4), p, i);
    Longer(PrefixOf(va, 1), Index(va, 3), p, i);
    ParentsIn(m, root, tables, va);
    if PrefixOf(va, 1) in tables[p + [i] := a] {
      EntryAfterGrown(m, tables[p], i, a, tables[p + [i] := a][PrefixOf(va, 1)], Index(va, 3));
    }
  }

  lemma SamePages(m: Memory, pages: set<nat>)
    ensures Confined(m, m, pages, pages)
  {
  }

  lemma ConfinedChain(m: Memory, m1: Memory, m2: Memory, pages: set<nat>, pages1: set<nat>, pages2: set<nat>)
    requires Confined(m, m1, pages, pages1) && Confined(m1, m2, pages1, pages2)
    ensures Confined(m, m2, pages, pages2)
  {
  }

  /** Hanging a granted page into a table writes to these two pages. */
  lemma GrownOutside(m: Memory, tables: Tables, p: Prefix, i: nat, answers: Answers)
    requires p in tables && i < 512 && IsPage(|m|, tables[p]) && answers != [] && answers[0].Some?
    requires IsPage(|m|, answers[0].value)
    ensures var a := answers[0].value;
      Confined(m, Grown(m, tables[p], i, a), PagesOf(tables, answers), PagesOf(tables[p + [i] := a], answers[1..]))
  {
    var pages := PagesOf(tables, answers);
    assert tables[p] in pages && answers[0].value in pages;
    forall k | 0 <= k < |answers| - 1 && answers[1..][k].Some?
      ensures answers[1..][k].value in pages
    {
      assert answers[1..][k] == answers[k + 1];
    }
  }

  lemma RestPages(m: Memory, tables: Tables, answers: Answers)
    ensures Confined(m, m, PagesOf(tables, answers), PagesOf(tables, After(answers, 1)))
  {
    var rest := After(answers, 1);
    forall k | 0 <= k < |rest| && rest[k].Some?
      ensures rest[k].value in PagesOf(tables, answers)
    {
      assert rest[k] == answers[k + 1];
    }
  }

  /** An entry written in a table of the tree stays in the mapper's pages. */
  lemma EntryOutside(m: Memory, tables: Tables, p: Prefix, i: nat, e: nat, answers: Answers)
    requires p in tables && i < 512 && IsPage(|m|, tables[p])
    ensures tables[p] / 8 + i < |m|
    ensures var pages := PagesOf(tables, answers); Confined(m, m[tables[p] / 8 + i := e], pages, pages)
  {
    assert tables[p] in PagesOf(tables, answers);
  }

  lemma AnswerTaken(length: nat, tables: Tables, answers: Answers)
    requires AnswersOk(length, tables, answers)
    ensures AnswersOk(length, tables, After(answers, 1))
    ensures answers != [] && answers[0].Some? ==> IsPage(length, answers[0].value)
  {
  }

  /** The granted page becomes an empty table; no translation changes. */
  lemma TableAdded(m: Memory, root: nat, tables: Tables, p: Prefix, i: nat, answers: Answers)
    requires Tree(m, root, tables) && AnswersOk(|m|, tables, answers)
    requires p in tables && |p| < 3 && i < 512 && p + [i] !in tables && Entry(m, tables[p], i) == 0
    requires IsPage(|m|, tables[p])
    ensures answers != [] && answers[0].Some? ==>
      var a := answers[0].value;
      && IsPage(|m|, a) && Tree(Grown(m, tables[p], i, a), root, tables[p + [i] := a])
      && AnswersOk(|m|, tables[p + [i] := a], answers[1..])
      && SameView(m, Grown(m, tables[p], i, a), root) && NoNewGigabytes(m, Grown(m, tables[p], i, a), root)
  {
    if answers != [] && answers[0].Some? {
      hide Tree, Translate, TreeWalk, InGigabyte, TreeGigabyte, Grown, IsPage;
      var a := answers[0].value;
      GrownTree(m, root, tables, p, i, a);
      forall va
        ensures Translate(Grown(m, tables[p], i, a), root, va) == Translate(m, root, va)
        ensures InGigabyte(Grown(m, tables[p], i, a), root, va) == InGigabyte(m, root, va)
      {
        GrownGigabytes(m, root, tables, p, i, a, va);
        GigabyteInTree(m, root, tables, va);
        GigabyteInTree(Grown(m, tables[p], i, a), root, tables[p + [i] := a], va);
        GrownWalk(m, root, tables, p, i, a, va);
        WalkFollowsTree(m, root, tables, va);
        WalkFollowsTree(Grown(m, tables[p], i, a), root, tables[p + [i] := a], va);
      }
    }
  }

  /** An entry as the code reads it: empty, or the table's address with two low bits set. */
  lemma EntryHere(m: Memory, root: nat, tables: Tables, p: Prefix, i: nat)
    requires Tree(m, root, tables) && p in tables && i < 512
    ensures IsPage(|m|, tables[p]) && tables[p] / 8 + i < |m| && Entry(m, tables[p], i) == m[tables[p] / 8 + i]
    ensures var e := Entry(m, tables[p], i);
      p + [i] in tables ==> e != 0 && e - e % 4 == tables[p + [i]] && tables[p + [i] := tables[p + [i]]] == tables
  {
    hide IsLeaf, IsGigabyte, IsPage, Entry;
    assert EntryOk(tables, p, i, Entry(m, tables[p], i));
    EntryInside(m, tables[p], i);
    if p + [i] in tables {
      EntryPointer(|m|, tables[p + [i]]);
      assert tables[p + [i] := tables[p + [i]]] == tables;
    }
  }

  lemma EntryInside(m: Memory, a: nat, i: nat)
    requires IsPage(|m|, a) && i < 512
    ensures a / 8 + i < |m| && Entry(m, a, i) == m[a / 8 + i]
  {
  }

  lemma EntryPointer(length: nat, a: nat)
    requires IsPage(length, a)
    ensures var e := a + PRESENT_WRITABLE; e - e % 4 == a
  {
    PageIsAligned(length, a);
    hide IsPage;
    TwoLowBits(a);
  }

  lemma PageIsAligned(length: nat, a: nat)
    requires IsPage(length, a)
    ensures a % 4 == 0
  {
    assert a == PAGE_SIZE * (a / PAGE_SIZE);
  }

  lemma TwoLowBits(a: nat)
    requires a % 4 == 0
    ensures (a + PRESENT_WRITABLE) - (a + PRESENT_WRITABLE) % 4 == a
  {
  }

  // ---------------------------------------------------------------- one page

  /** The prefixes of the tables above an address. */
  function Prefixes(va: nat): set<Prefix> {
    {PrefixOf(va, 1), PrefixOf(va, 2), PrefixOf(va, 3)}
  }

  /** How many tables above an address do not exist yet. */
  function Missing(tables: Tables, va: nat): nat {
    (if PrefixOf(va, 1) in tables then 0 else 1)
    + (if PrefixOf(va, 2) in tables then 0 else 1)
    + (if PrefixOf(va, 3) in tables then 0 else 1)
  }

  /** Outside 1 GiB pages, where there is no table the entry is empty. */
  lemma RoomForTables(m: Memory, root: nat, tables: Tables, va: nat)
    requires Tree(m, root, tables) && !InGigabyte(m, root, va)
    ensures [] in tables && tables[[]] == root
    ensures PrefixOf(va, 1) !in tables ==> Entry(m, root, Index(va, 4)) == 0
    ensures PrefixOf(va, 1) in tables && PrefixOf(va, 2) !in tables ==>
      Entry(m, tables[PrefixOf(va, 1)], Index(va, 3)) == 0
    ensures PrefixOf(va, 2) in tables && PrefixOf(va, 3) !in tables ==>
      Entry(m, tables[PrefixOf(va, 2)], Index(va, 2)) == 0
    ensures PrefixOf(va, 2) in tables ==> PrefixOf(va, 1) in tables
    ensures PrefixOf(va, 3) in tables ==> PrefixOf(va, 2) in tables
  {
    hide Index, Entry, InGigabyte, PrefixOf, IsPresent, IsLarge, Base;
    PrefixSteps(va);
    GigabyteInTree(m, root, tables, va);
    StepDown(m, root, tables, [], Index(va, 4));
    if PrefixOf(va, 2) in tables {
      StepDown(m, root, tables, PrefixOf(va, 2), Index(va, 2));
    }
    ParentsIn(m, root, tables, va);
  }

  lemma GrantsSteps(answers: Answers)
    ensures Grants(answers, 0)
    ensures forall n: nat :: n > 0 ==> (Grants(answers, n) <==> Grants(answers, 1) && Grants(After(answers, 1), n - 1))
    ensures forall n: nat :: n > 0 ==> After(answers, n) == After(After(answers, 1), n - 1)
    ensures After(answers, 0) == answers
    ensures Granted(answers) == if Grants(answers, 1) then 1 + Granted(After(answers, 1)) else 0
    ensures After(answers, Granted(answers) + 1)
      == if Grants(answers, 1) then After(After(answers, 1), Granted(After(answers, 1)) + 1) else After(answers, 1)
  {
    forall n: nat | n > 0
      ensures Grants(answers, n) <==> Grants(answers, 1) && Grants(After(answers, 1), n - 1)
    {
      if Grants(answers, 1) && Grants(After(answers, 1), n - 1) {
        forall k | 0 <= k < n
          ensures answers[k].Some?
        {
          if k > 0 {
            assert answers[k] == After(answers, 1)[k - 1];
          }
        }
      }
    }
  }

  /** The last write of a page mapping. */
  lemma LeafWritten(m: Memory, root: nat, tables: Tables, va: nat, pa: nat)
    requires Tree(m, root, tables) && PrefixOf(va, 3) in tables
    requires pa % PAGE_SIZE == 0 && pa < PHYSICAL_LIMIT
    ensures var a, e := tables[PrefixOf(va, 3)], pa + PRESENT_WRITABLE;
      && IsPage(|m|, a) && a / 8 + Index(va, 1) < |m|
      && var m' := m[a / 8 + Index(va, 1) := e];
      && Tree(m', root, tables)
      && MapsPage(m, m', root, pa, va) && NoNewGigabytes(m, m', root)
  {
    hide Tree, EntryOk, Translate, TreeWalk, InGigabyte, TreeGigabyte, Entry, Index, PrefixOf, PageOf, IsPage;
    var p, e := PrefixOf(va, 3), pa + PRESENT_WRITABLE;
    EntryHere(m, root, tables, p, Index(va, 1));
    LeafTree(m, root, tables, va, e);
    var m' := SetEntry(m, tables[p], Index(va, 1), e);
    forall w: nat
      ensures Translate(m', root, w) == if PageOf(w) == PageOf(va) then Some(SystemView(pa + w % PAGE_SIZE))
        else Translate(m, root, w)
      ensures InGigabyte(m', root, w) == InGigabyte(m, root, w)
    {
      LeafWalk(m, root, tables, va, pa, w);
      WalkFollowsTree(m, root, tables, w);
      WalkFollowsTree(m', root, tables, w);
      GigabyteInTree(m, root, tables, w);
      GigabyteInTree(m', root, tables, w);
      LeafGigabytes(m, root, tables, va, e, w);
    }
  }

  lemma LeafGigabytes(m: Memory, root: nat, tables: Tables, va: nat, e: nat, w: nat)
    requires Tree(m, root, tables) && PrefixOf(va, 3) in tables
    requires IsPage(|m|, tables[PrefixOf(va, 3)])
    ensures var m' := SetEntry(m, tables[PrefixOf(va, 3)], Index(va, 1), e);
      TreeGigabyte(m', tables, w) == TreeGigabyte(m, tables, w)
  {
    hide Tree, IsPage, Entry, SetEntry, Index, PrefixOf;
    TablesAreApart(m, root, tables, PrefixOf(va, 3));
    DifferentLength(w, va);
    if PrefixOf(w, 1) in tables {
      EntryAfterSet(m, tables[PrefixOf(va, 3)], Index(va, 1), e, tables[PrefixOf(w, 1)], Index(w, 3));
    }
  }

  // ---------------------------------------------------------------- ranges

  /** 64-bit addition. */
  function Wrap(x: nat): nat {
    x % WORD_LIMIT
  }

  /** The i-th page of a range; addresses wrap around at 64 bits. */
  function Address(va: nat, i: nat): nat {
    Wrap(va + i * PAGE_SIZE)
  }

  /** Where the i-th page of a physical range lies. */
  function Frame(pa: nat, i: nat): nat {
    pa + i * PAGE_SIZE
  }

  /** A translation after the first `n` pages of a range were mapped; a later page overrides an earlier one. */
  function Mapped(before: Option<View>, pa: nat, va: nat, n: nat, w: nat): Option<View> {
    if n == 0 then before
    else if PageOf(w) == PageOf(Address(va, n - 1)) then Some(SystemView(Frame(pa, n - 1) + w % PAGE_SIZE))
    else Mapped(before, pa, va, n - 1, w)
  }

  /** The page of `va` is now at `pa`; every other address is translated as before. */
  ghost predicate MapsPage(m: Memory, m': Memory, root: nat, pa: nat, va: nat) {
    forall w: nat :: Translate(m', root, w) == if PageOf(w) == PageOf(va) then Some(SystemView(pa + w % PAGE_SIZE))
      else Translate(m, root, w)
  }

  /** Every address is translated as before. */
  ghost predicate SameView(m: Memory, m': Memory, root: nat) {
    forall w: nat :: Translate(m', root, w) == Translate(m, root, w)
  }

  /** The first `n` pages of the range are mapped; every other address is translated as before. */
  ghost predicate MapsRange(m: Memory, m': Memory, root: nat, pa: nat, va: nat, n: nat) {
    forall w: nat :: Translate(m', root, w) == Mapped(Translate(m, root, w), pa, va, n, w)
  }

  ghost predicate NoNewGigabytes(m: Memory, m': Memory, root: nat) {
    forall w: nat :: InGigabyte(m', root, w) ==> InGigabyte(m, root, w)
  }

  /** A change that no translation shows: only the mapper's pages differ. */
  ghost predicate Quiet(m: Memory, m': Memory, root: nat, pages: set<nat>, pages': set<nat>) {
    SameView(m, m', root) && NoNewGigabytes(m, m', root) && Confined(m, m', pages, pages')
  }

  lemma QuietParts(m: Memory, m': Memory, root: nat, pages: set<nat>, pages': set<nat>, va: nat)
    requires Quiet(m, m', root, pages, pages')
    ensures SameView(m, m', root) && NoNewGigabytes(m, m', root) && Confined(m, m', pages, pages')
    ensures InGigabyte(m', root, va) ==> InGigabyte(m, root, va)
  {
    hide SameView, Confined, InGigabyte;
  }

  lemma QuietChain(m: Memory, m1: Memory, m2: Memory, root: nat, pages: set<nat>, pages1: set<nat>, pages2: set<nat>)
    requires Quiet(m, m1, root, pages, pages1) && Quiet(m1, m2, root, pages1, pages2)
    ensures Quiet(m, m2, root, pages, pages2)
  {
    hide Translate, InGigabyte, Confined;
    ConfinedChain(m, m1, m2, pages, pages1, pages2);
  }

  lemma QuietThenPage(m: Memory, m1: Memory, m2: Memory, root: nat, pages: set<nat>, pages1: set<nat>, pa: nat, va: nat)
    requires Quiet(m, m1, root, pages, pages1) && MapsPage(m1, m2, root, pa, va) && NoNewGigabytes(m1, m2, root)
    requires Confined(m1, m2, pages1, pages1)
    ensures MapsPage(m, m2, root, pa, va) && NoNewGigabytes(m, m2, root) && Confined(m, m2, pages, pages1)
  {
    hide Translate, InGigabyte, PageOf, Confined;
    ConfinedChain(m, m1, m2, pages, pages1, pages1);
  }

  /** Memory, tables and outstanding requests at one time. */
  datatype Moment = Moment(memory: Memory, tables: Tables, answers: Answers)

  ghost function PagesAt(t: Moment): set<nat> {
    PagesOf(t.tables, t.answers)
  }

  /** How many of the first n tables above an address do not exist yet. */
  function MissingTo(tables: Tables, va: nat, n: nat): nat
    requires n <= 3
  {
    if n == 0 then 0 else MissingTo(tables, va, n - 1) + if PrefixOf(va, n) in tables then 0 else 1
  }

  function PrefixesTo(va: nat, n: nat): set<Prefix>
    requires n <= 3
  {
    if n == 0 then {} else PrefixesTo(va, n - 1) + {PrefixOf(va, n)}
  }

  /** The first n tables above an address are there; no translation has changed since `start`. */
  ghost predicate TablesFound(start: Moment, now: Moment, root: nat, va: nat, n: nat)
    requires n <= 3
  {
    && Quiet(start.memory, now.memory, root, PagesAt(start), PagesAt(now))
    && Grants(start.answers, MissingTo(start.tables, va, n))
    && now.answers == After(start.answers, MissingTo(start.tables, va, n))
    && now.tables.Keys == start.tables.Keys + PrefixesTo(va, n)
    && (n > 0 ==> PrefixOf(va, n) in now.tables)
  }

  /** A table above an address was refused. */
  ghost predicate TableRefused(start: Moment, now: Moment, root: nat, va: nat) {
    && SameView(start.memory, now.memory, root) && NoNewGigabytes(start.memory, now.memory, root)
    && Confined(start.memory, now.memory, PagesAt(start), PagesAt(now))
    && !Grants(start.answers, Missing(start.tables, va))
    && now.answers == After(start.answers, Granted(start.answers) + 1)
    && start.tables.Keys <= now.tables.Keys <= start.tables.Keys + Prefixes(va)
  }

  lemma NoTableYet(start: Moment, root: nat, va: nat)
    ensures TablesFound(start, start, root, va, 0)
  {
    hide PagesOf, Translate, InGigabyte;
    SamePages(start.memory, PagesAt(start));
  }

  /** The next table may be looked up: where there is none the entry is empty. */
  lemma LookUp(start: Moment, now: Moment, root: nat, va: nat, n: nat)
    requires n < 3 && TablesFound(start, now, root, va, n)
    requires Tree(now.memory, root, now.tables) && !InGigabyte(start.memory, root, va)
    ensures PrefixOf(va, n) in now.tables && PrefixOf(va, n + 1) == PrefixOf(va, n) + [Index(va, 4 - n)]
    ensures n == 0 ==> now.tables[[]] == root && PrefixOf(va, 0) == []
    ensures PrefixOf(va, n + 1) !in now.tables ==> Entry(now.memory, now.tables[PrefixOf(va, n)], Index(va, 4 - n)) == 0
  {
    hide Tree, PagesAt, PrefixOf, Index, Entry, InGigabyte, Grants, After, MissingTo, PrefixesTo, Quiet;
    PrefixSteps(va);
    QuietParts(start.memory, now.memory, root, PagesAt(start), PagesAt(now), va);
    RoomForTables(now.memory, root, now.tables, va);
  }

  lemma PrefixAhead(va: nat, n: nat)
    requires n < 3
    ensures PrefixOf(va, n + 1) !in PrefixesTo(va, n)
  {
    hide PrefixOf;
    assert PrefixesTo(va, 0) == {};
    assert n >= 1 ==> PrefixesTo(va, 1) == {PrefixOf(va, 1)};
    assert n >= 2 ==> PrefixesTo(va, 2) == {PrefixOf(va, 1), PrefixOf(va, 2)};
    assert |PrefixOf(va, n + 1)| == n + 1 && |PrefixOf(va, 1)| == 1 && |PrefixOf(va, 2)| == 2;
  }

  /** All three tables. */
  lemma ThreeTables(tables: Tables, va: nat, n: nat)
    requires n <= 3
    ensures MissingTo(tables, va, 3) == Missing(tables, va) && PrefixesTo(va, 3) == Prefixes(va)
    ensures MissingTo(tables, va, n) <= Missing(tables, va) && PrefixesTo(va, n) <= Prefixes(va)
  {
    hide PrefixOf;
    assert MissingTo(tables, va, 0) == 0 && PrefixesTo(va, 0) == {};
    assert MissingTo(tables, va, 1) == if PrefixOf(va, 1) in tables then 0 else 1;
    assert PrefixesTo(va, 1) == {PrefixOf(va, 1)} && PrefixesTo(va, 2) == {PrefixOf(va, 1), PrefixOf(va, 2)};
  }

  /** One more table was there or is granted, or it is refused. */
  lemma NextTableFound(start: Moment, before: Moment, now: Moment, root: nat, va: nat, n: nat, next: Option<nat>)
    requires n < 3 && TablesFound(start, before, root, va, n)
    requires Quiet(before.memory, now.memory, root, PagesAt(before), PagesAt(now))
    requires var q := PrefixOf(va, n + 1);
      if q in before.tables then now.answers == before.answers && now.tables == before.tables && next.Some?
      else now.answers == After(before.answers, 1) && (next.Some? <==> Grants(before.answers, 1))
    requires now.tables == if next.Some? then before.tables[PrefixOf(va, n + 1) := next.value] else before.tables
    ensures if next.Some? then TablesFound(start, now, root, va, n + 1) else TableRefused(start, now, root, va)
  {
    hide PagesAt, PrefixOf, Grants, Granted, After, Quiet, Missing, Prefixes, SameView, NoNewGigabytes, Confined;
    var used := MissingTo(start.tables, va, n);
    QuietChain(start.memory, before.memory, now.memory, root, PagesAt(start), PagesAt(before), PagesAt(now));
    PrefixAhead(va, n);
    ThreeTables(start.tables, va, n);
    ThreeTables(start.tables, va, n + 1);
    GrantsMore(start.answers, used, 1);
    if next.None? {
      QuietParts(start.memory, now.memory, root, PagesAt(start), PagesAt(now), va);
      GrantedBehind(start.answers, used);
      NothingGranted(before.answers);
      GrantsFewer(start.answers, used + 1, Missing(start.tables, va));
    }
  }

  lemma NothingGranted(answers: Answers)
    ensures !Grants(answers, 1) ==> Granted(answers) == 0
  {
  }

  lemma AllTablesFound(start: Moment, now: Moment, root: nat, va: nat)
    requires TablesFound(start, now, root, va, 3)
    ensures Quiet(start.memory, now.memory, root, PagesAt(start), PagesAt(now)) && PrefixOf(va, 3) in now.tables
    ensures Grants(start.answers, Missing(start.tables, va))
    ensures now.answers == After(start.answers, Missing(start.tables, va))
    ensures now.tables.Keys == start.tables.Keys + Prefixes(va)
  {
    hide PagesAt, PrefixOf, Grants, After, Quiet, Missing, Prefixes;
    ThreeTables(start.tables, va, 3);
  }

  /** The entry of the page itself, written to the last table. */
  lemma PageAdded(start: Moment, now: Moment, root: nat, va: nat, pa: nat)
    requires TablesFound(start, now, root, va, 3) && Tree(now.memory, root, now.tables)
    requires pa % PAGE_SIZE == 0 && pa < PHYSICAL_LIMIT
    ensures Grants(start.answers, Missing(start.tables, va))
    ensures now.answers == After(start.answers, Missing(start.tables, va))
    ensures now.tables.Keys == start.tables.Keys + Prefixes(va) && PrefixOf(va, 3) in now.tables
    ensures var at := now.tables[PrefixOf(va, 3)] / 8 + Index(va, 1);
      && at < |now.memory|
      && var m' := now.memory[at := pa + PRESENT_WRITABLE];
      && Tree(m', root, now.tables) && MapsPage(start.memory, m', root, pa, va)
      && NoNewGigabytes(start.memory, m', root) && Confined(start.memory, m', PagesAt(start), PagesAt(now))
  {
    hide Tree, PrefixOf, Index, Grants, After, Quiet, Missing, Prefixes, MapsPage, NoNewGigabytes, Confined,
      TablesFound, IsPage, PagesOf;
    AllTablesFound(start, now, root, va);
    LeafWritten(now.memory, root, now.tables, va, pa);
    EntryOutside(now.memory, now.tables, PrefixOf(va, 3), Index(va, 1), pa + PRESENT_WRITABLE, now.answers);
    var m' := now.memory[now.tables[PrefixOf(va, 3)] / 8 + Index(va, 1) := pa + PRESENT_WRITABLE];
    QuietThenPage(start.memory, now.memory, m', root, PagesAt(start), PagesAt(now), pa, va);
  }

  lemma RefusedParts(start: Moment, now: Moment, root: nat, va: nat)
    requires TableRefused(start, now, root, va)
    ensures SameView(start.memory, now.memory, root) && NoNewGigabytes(start.memory, now.memory, root)
    ensures Confined(start.memory, now.memory, PagesAt(start), PagesAt(now))
    ensures !Grants(start.answers, Missing(start.tables, va))
    ensures now.answers == After(start.answers, Granted(start.answers) + 1)
    ensures start.tables.Keys <= now.tables.Keys <= start.tables.Keys + Prefixes(va)
  {
    hide PagesAt, PrefixOf, Grants, After, SameView, NoNewGigabytes, Confined, Missing, Prefixes;
  }

  lemma NothingMapped(m: Memory, root: nat, pa: nat, va: nat)
    ensures MapsRange(m, m, root, pa, va, 0) && NoNewGigabytes(m, m, root)
  {
  }

  lemma NotYetGigabyte(m: Memory, m': Memory, root: nat, va: nat)
    requires NoNewGigabytes(m, m', root) && !InGigabyte(m, root, va)
    ensures !InGigabyte(m', root, va)
  {
  }

  lemma RangeNext(m: Memory, m1: Memory, m2: Memory, root: nat, pa: nat, va: nat, i: nat)
    requires MapsRange(m, m1, root, pa, va, i) && NoNewGigabytes(m, m1, root) && NoNewGigabytes(m1, m2, root)
    ensures NoNewGigabytes(m, m2, root)
    ensures MapsPage(m1, m2, root, Frame(pa, i), Address(va, i)) ==> MapsRange(m, m2, root, pa, va, i + 1)
    ensures SameView(m1, m2, root) ==> MapsRange(m, m2, root, pa, va, i)
  {
    hide Translate, InGigabyte, PageOf;
  }

  /** The prefixes of all tables above the first `n` pages of a range. */
  function Touched(va: nat, n: nat): set<Prefix> {
    if n == 0 then {} else Touched(va, n - 1) + Prefixes(Address(va, n - 1))
  }

  /** Enough requests are granted for the tables that the first `n` pages of a range need. */
  ghost predicate Affords(answers: Answers, keys: set<Prefix>, va: nat, n: nat) {
    Grants(answers, |Touched(va, n) - keys|)
  }

  /** The tables of the first `n` pages, and some of those that the next page needs. */
  ghost predicate PartlyGrown(keys: set<Prefix>, keys': set<Prefix>, va: nat, n: nat) {
    keys + Touched(va, n) <= keys' <= keys + Touched(va, n + 1)
  }

  lemma GrownInPart(keys: set<Prefix>, known: set<Prefix>, keys': set<Prefix>, va: nat, n: nat)
    requires known == keys + Touched(va, n) && known <= keys' <= known + Prefixes(Address(va, n))
    ensures PartlyGrown(keys, keys', va, n)
  {
    hide Prefixes;
    assert Touched(va, n + 1) == Touched(va, n) + Prefixes(Address(va, n));
  }

  /** After `n` pages: the tables are those above them, one granted request for each new one. */
  ghost predicate Accounted(asked: Answers, answers: Answers, keys: set<Prefix>, keys': set<Prefix>, va: nat, n: nat) {
    var used := |Touched(va, n) - keys|;
    keys' == keys + Touched(va, n) && Grants(asked, used) && answers == After(asked, used)
  }

  lemma AccountedParts(asked: Answers, answers: Answers, keys: set<Prefix>, keys': set<Prefix>, va: nat, n: nat)
    requires Accounted(asked, answers, keys, keys', va, n)
    ensures var used := |Touched(va, n) - keys|;
      keys' == keys + Touched(va, n) && Affords(asked, keys, va, n) && answers == After(asked, used)
  {
  }

  lemma NothingTouched(va: nat, keys: set<Prefix>, answers: Answers)
    ensures Accounted(answers, answers, keys, keys, va, 0)
    ensures va < WORD_LIMIT ==> Address(va, 0) == va
    ensures forall pa :: Frame(pa, 0) == pa
  {
  }

  /** The tables one more page needs. */
  lemma OneMorePage(asked: Answers, answers: Answers, keys: set<Prefix>, tables: Tables, va: nat, i: nat)
    requires Accounted(asked, answers, keys, tables.Keys, va, i)
    ensures var missing := Missing(tables, Address(va, i));
      if Grants(answers, missing)
      then Accounted(asked, After(answers, missing), keys, tables.Keys + Prefixes(Address(va, i)), va, i + 1)
      else !Affords(asked, keys, va, i + 1)
    ensures tables.Keys == keys + Touched(va, i)
    ensures Affords(asked, keys, va, i)
    ensures After(answers, Granted(answers) + 1) == After(asked, Granted(asked) + 1)
  {
    hide Touched, Prefixes, Missing, Grants, After;
    var a := Address(va, i);
    NewTables(va, i, keys, tables);
    GrantsMore(asked, |Touched(va, i) - keys|, Missing(tables, a));
    GrantedBehind(asked, |Touched(va, i) - keys|);
  }

  /** Whoever can afford a range can afford the pages before its end. */
  lemma AffordsFewer(asked: Answers, keys: set<Prefix>, va: nat, m: nat, n: nat)
    requires m <= n
    ensures Affords(asked, keys, va, n) ==> Affords(asked, keys, va, m)
  {
    hide Grants, Touched;
    TouchedGrows(va, m, n);
    SubsetSize(Touched(va, m) - keys, Touched(va, n) - keys);
    GrantsFewer(asked, |Touched(va, m) - keys|, |Touched(va, n) - keys|);
  }

  /** Requests that were granted already do not move the first refusal. */
  lemma {:induction false} GrantedBehind(asked: Answers, used: nat)
    requires Grants(asked, used)
    ensures After(After(asked, used), Granted(After(asked, used)) + 1) == After(asked, Granted(asked) + 1)
    decreases used
  {
    GrantsSteps(asked);
    if used > 0 {
      GrantedBehind(After(asked, 1), used - 1);
    }
  }

  lemma NewTables(va: nat, i: nat, keys: set<Prefix>, tables: Tables)
    requires tables.Keys == keys + Touched(va, i)
    ensures tables.Keys + Prefixes(Address(va, i)) == keys + Touched(va, i + 1)
    ensures |Touched(va, i + 1) - keys| == |Touched(va, i) - keys| + Missing(tables, Address(va, i))
  {
    hide Prefixes, Missing;
    var a := Address(va, i);
    MissingIs(tables, a);
    NewMembers(Touched(va, i), Prefixes(a), keys);
    assert Touched(va, i + 1) == Touched(va, i) + Prefixes(a);
  }

  /** Members added to a set, beyond those known before. */
  lemma NewMembers<T>(before: set<T>, added: set<T>, known: set<T>)
    ensures |(before + added) - known| == |before - known| + |added - (known + before)|
    ensures known + before + added == known + (before + added)
  {
    assert (before + added) - known == (before - known) + (added - (known + before));
  }

  lemma GrantsFewer(answers: Answers, m: nat, n: nat)
    requires m <= n
    ensures Grants(answers, n) ==> Grants(answers, m)
  {
  }

  /** What has changed since `start` when `n` pages of a range are mapped. */
  ghost predicate RangeSoFar(start: Moment, now: Moment, root: nat, pa: nat, va: nat, n: nat) {
    && NoNewGigabytes(start.memory, now.memory, root) && MapsRange(start.memory, now.memory, root, pa, va, n)
    && Accounted(start.answers, now.answers, start.tables.Keys, now.tables.Keys, va, n)
    && Confined(start.memory, now.memory, PagesAt(start), PagesAt(now))
  }

  /** What has changed since `start` when a table was refused for page `n` of a range. */
  ghost predicate RangeStopped(start: Moment, now: Moment, root: nat, pa: nat, va: nat, n: nat) {
    && MapsRange(start.memory, now.memory, root, pa, va, n)
    && Affords(start.answers, start.tables.Keys, va, n) && !Affords(start.answers, start.tables.Keys, va, n + 1)
    && PartlyGrown(start.tables.Keys, now.tables.Keys, va, n)
    && now.answers == After(start.answers, Granted(start.answers) + 1)
    && Confined(start.memory, now.memory, PagesAt(start), PagesAt(now))
  }

  lemma NoRangeYet(start: Moment, root: nat, pa: nat, va: nat)
    ensures RangeSoFar(start, start, root, pa, va, 0) && Frame(pa, 0) == pa
    ensures va < WORD_LIMIT ==> Address(va, 0) == va
  {
    hide PagesOf, MapsRange, NoNewGigabytes, Confined, Accounted;
    SamePages(start.memory, PagesAt(start));
    NothingTouched(va, start.tables.Keys, start.answers);
    NothingMapped(start.memory, root, pa, va);
  }

  /** The next page of a range may be mapped. */
  lemma NextPage(start: Moment, now: Moment, root: nat, pa: nat, va: nat, i: nat, n: nat)
    requires RangeSoFar(start, now, root, pa, va, i) && !InGigabyte(start.memory, root, Address(va, i))
    requires i < n && pa % PAGE_SIZE == 0 && pa + n * PAGE_SIZE <= PHYSICAL_LIMIT
    ensures !InGigabyte(now.memory, root, Address(va, i))
    ensures Frame(pa, i) % PAGE_SIZE == 0 && Frame(pa, i) < PHYSICAL_LIMIT
    ensures Frame(pa, i + 1) == Frame(pa, i) + PAGE_SIZE && Address(va, i + 1) == Wrap(Address(va, i) + PAGE_SIZE)
  {
    hide PagesOf, MapsRange, NoNewGigabytes, Confined, Accounted, InGigabyte;
    NotYetGigabyte(start.memory, now.memory, root, Address(va, i));
    AddressNext(va, i);
    PhysicalNext(pa, i, n);
  }

  /** Mapping the next page, or being refused a table for it. */
  lemma RangeStep(start: Moment, before: Moment, now: Moment, root: nat, pa: nat, va: nat, i: nat, ok: bool)
    requires RangeSoFar(start, before, root, pa, va, i)
    requires var missing := Missing(before.tables, Address(va, i));
      && (ok <==> Grants(before.answers, missing))
      && now.answers == After(before.answers, if ok then missing else Granted(before.answers) + 1)
    requires if ok then now.tables.Keys == before.tables.Keys + Prefixes(Address(va, i))
      else before.tables.Keys <= now.tables.Keys <= before.tables.Keys + Prefixes(Address(va, i))
    requires if ok then MapsPage(before.memory, now.memory, root, Frame(pa, i), Address(va, i))
      else SameView(before.memory, now.memory, root)
    requires NoNewGigabytes(before.memory, now.memory, root)
    requires Confined(before.memory, now.memory, PagesAt(before), PagesAt(now))
    ensures if ok then RangeSoFar(start, now, root, pa, va, i + 1) else RangeStopped(start, now, root, pa, va, i)
  {
    hide PagesAt, MapsRange, NoNewGigabytes, Confined, Accounted, MapsPage, SameView, Missing, Grants, Granted, After,
      Prefixes, Address, Frame, Touched, Affords, PartlyGrown;
    OneMorePage(start.answers, before.answers, start.tables.Keys, before.tables, va, i);
    ConfinedChain(start.memory, before.memory, now.memory, PagesAt(start), PagesAt(before), PagesAt(now));
    RangeNext(start.memory, before.memory, now.memory, root, pa, va, i);
    if !ok {
      GrownInPart(start.tables.Keys, before.tables.Keys, now.tables.Keys, va, i);
    }
  }

  lemma StoppedParts(start: Moment, now: Moment, root: nat, pa: nat, va: nat, i: nat, n: nat)
    requires RangeStopped(start, now, root, pa, va, i) && i < n
    ensures MapsRange(start.memory, now.memory, root, pa, va, i)
    ensures Affords(start.answers, start.tables.Keys, va, i) && !Affords(start.answers, start.tables.Keys, va, i + 1)
    ensures !Affords(start.answers, start.tables.Keys, va, n)
    ensures PartlyGrown(start.tables.Keys, now.tables.Keys, va, i)
    ensures now.answers == After(start.answers, Granted(start.answers) + 1)
    ensures Confined(start.memory, now.memory, PagesAt(start), PagesAt(now))
  {
    hide PagesAt, MapsRange, Confined, Granted, After, Affords, PartlyGrown;
    AffordsFewer(start.answers, start.tables.Keys, va, i + 1, n);
  }

  lemma RangeParts(start: Moment, now: Moment, root: nat, pa: nat, va: nat, n: nat)
    requires RangeSoFar(start, now, root, pa, va, n)
    ensures MapsRange(start.memory, now.memory, root, pa, va, n) && Affords(start.answers, start.tables.Keys, va, n)
    ensures now.tables.Keys == start.tables.Keys + Touched(va, n)
    ensures now.answers == After(start.answers, |Touched(va, n) - start.tables.Keys|)
    ensures Confined(start.memory, now.memory, PagesAt(start), PagesAt(now))
  {
    hide PagesAt, MapsRange, NoNewGigabytes, Confined, Accounted, After, Affords, Touched;
    AccountedParts(start.answers, now.answers, start.tables.Keys, now.tables.Keys, va, n);
  }

  lemma PhysicalNext(pa: nat, i: nat, n: nat)
    requires i < n && pa % PAGE_SIZE == 0 && pa + n * PAGE_SIZE <= PHYSICAL_LIMIT
    ensures Frame(pa, i) % PAGE_SIZE == 0 && Frame(pa, i) < PHYSICAL_LIMIT
    ensures Frame(pa, i + 1) == Frame(pa, i) + PAGE_SIZE
  {
  }

  lemma AddressNext(va: nat, i: nat)
    ensures Address(va, i + 1) == Wrap(Address(va, i) + PAGE_SIZE)
  {
  }

  lemma MissingIs(tables: Tables, va: nat)
    ensures |Prefixes(va) - tables.Keys| == Missing(tables, va)
  {
    hide PrefixOf;
    var p1, p2, p3, keys := PrefixOf(va, 1), PrefixOf(va, 2), PrefixOf(va, 3), tables.Keys;
    PrefixesDiffer(va);
    ThreeApart(p1, p2, p3, keys);
    Single(p1, keys);
    Single(p2, keys);
    Single(p3, keys);
  }

  lemma PrefixesDiffer(va: nat)
    ensures PrefixOf(va, 1) != PrefixOf(va, 2) && PrefixOf(va, 1) != PrefixOf(va, 3)
    ensures PrefixOf(va, 2) != PrefixOf(va, 3)
  {
    hide PrefixOf;
    assert |PrefixOf(va, 1)| == 1 && |PrefixOf(va, 2)| == 2 && |PrefixOf(va, 3)| == 3;
  }

  lemma Single<T>(x: T, s: set<T>)
    ensures |{x} - s| == if x in s then 0 else 1
  {
    if x in s {
      assert {x} - s == {};
    } else {
      assert {x} - s == {x};
    }
  }

  lemma ThreeApart<T>(x: T, y: T, z: T, s: set<T>)
    requires x != y && x != z && y != z
    ensures |{x, y, z} - s| == |{x} - s| + |{y} - s| + |{z} - s|
  {
    AddOne(x, {y, z}, s);
    assert {x} + {y, z} == {x, y, z};
    AddOne(y, {z}, s);
    assert {y} + {z} == {y, z};
  }

  lemma AddOne<T>(x: T, t: set<T>, s: set<T>)
    requires x !in t
    ensures |({x} + t) - s| == |{x} - s| + |t - s|
  {
    if x in s {
      assert ({x} + t) - s == t - s;
      assert {x} - s == {};
    } else {
      assert ({x} + t) - s == {x} + (t - s);
      assert {x} - s == {x};
    }
  }

  lemma GrantsMore(asked: Answers, used: nat, missing: nat)
    requires Grants(asked, used)
    ensures Grants(After(asked, used), missing) <==> Grants(asked, used + missing)
    ensures After(After(asked, used), missing) == After(asked, used + missing)
  {
    if Grants(After(asked, used), missing) {
      forall k | 0 <= k < used + missing
        ensures asked[k].Some?
      {
        if k >= used {
          assert asked[k] == After(asked, used)[k - used];
        }
      }
    }
  }

  lemma {:induction false} TouchedGrows(va: nat, m: nat, n: nat)
    requires m <= n
    ensures Touched(va, m) <= Touched(va, n)
    decreases n
  {
    if m < n {
      TouchedGrows(va, m, n - 1);
    }
  }

  lemma SubsetSize<T>(s: set<T>, t: set<T>)
    requires s <= t
    ensures |s| <= |t|
  {
    assert t == s + (t - s);
  }

  // ---------------------------------------------------------------- gigabytes

  /**
   * The gigabyte whose top-level index is that of `va` and whose second-level index is the
   * third-level index of `va` is now at `pa`; every other address is translated as before.
   */
  ghost predicate MapsGigabyte(m: Memory, m': Memory, root: nat, pa: nat, va: nat) {
    forall w: nat :: Translate(m', root, w)
      == if HitsGigabyte(va, w) then Some(SystemView(pa + w % BASE_1GB)) else Translate(m, root, w)
  }

  predicate HitsGigabyte(va: nat, w: nat) {
    Index(w, 4) == Index(va, 4) && Index(w, 3) == Index(va, 2)
  }

  lemma TopLevel(m: Memory, root: nat, tables: Tables, va: nat)
    requires Tree(m, root, tables)
    ensures [] in tables && tables[[]] == root
    ensures PrefixOf(va, 1) !in tables ==> Entry(m, root, Index(va, 4)) == 0
  {
    hide Index, Entry, PrefixOf, IsPresent, IsLarge, Base;
    PrefixSteps(va);
    StepDown(m, root, tables, [], Index(va, 4));
  }

  lemma WithoutKeepsAnswers(length: nat, tables: Tables, q: Prefix, answers: Answers)
    requires AnswersOk(length, tables, answers)
    ensures AnswersOk(length, Without(tables, q), answers)
  {
  }

  /** The write of a gigabyte mapping. */
  lemma GigabyteWritten(m: Memory, root: nat, tables: Tables, answers: Answers, va: nat, pa: nat)
    requires Tree(m, root, tables) && PrefixOf(va, 1) in tables && AnswersOk(|m|, tables, answers)
    requires pa % BASE_1GB == 0 && pa < PHYSICAL_LIMIT
    ensures var a, i, e := tables[PrefixOf(va, 1)], Index(va, 2), pa + LARGE_PAGE + PRESENT_WRITABLE;
      && IsPage(|m|, a) && a / 8 + i < |m|
      && var m', tables' := m[a / 8 + i := e], Without(tables, PrefixOf(va, 1) + [i]);
      && Tree(m', root, tables') && AnswersOk(|m|, tables', answers)
      && MapsGigabyte(m, m', root, pa, va)
  {
    hide Tree, EntryOk, AnswersOk, Translate, TreeWalk, Entry, Index, PrefixOf, IsPage, Without;
    var p, i, e := PrefixOf(va, 1), Index(va, 2), pa + LARGE_PAGE + PRESENT_WRITABLE;
    EntryHere(m, root, tables, p, i);
    GigabyteEntry(pa);
    GigabyteTree(m, root, tables, p, i, e);
    WithoutKeepsAnswers(|m|, tables, p + [i], answers);
    var m', tables' := SetEntry(m, tables[p], i, e), Without(tables, p + [i]);
    forall w: nat
      ensures Translate(m', root, w)
        == if HitsGigabyte(va, w) then Some(SystemView(pa + w % BASE_1GB)) else Translate(m, root, w)
    {
      GigabyteWalk(m, root, tables, va, i, pa, w);
      WalkFollowsTree(m, root, tables, w);
      WalkFollowsTree(m', root, tables', w);
    }
  }

  lemma GigabyteEntry(pa: nat)
    requires pa % BASE_1GB == 0 && pa < PHYSICAL_LIMIT
    ensures IsGigabyte(pa + LARGE_PAGE + PRESENT_WRITABLE)
  {
  }

  lemma GigabyteAfterView(m: Memory, m1: Memory, m2: Memory, root: nat, pa: nat, va: nat)
    requires SameView(m, m1, root) && MapsGigabyte(m1, m2, root, pa, va)
    ensures MapsGigabyte(m, m2, root, pa, va)
  {
    hide Translate, HitsGigabyte;
  }

  function GigabyteFrame(pa: nat, i: nat): nat {
    pa + i * BASE_1GB
  }

  function GigabyteAddress(va: nat, i: nat): nat {
    Wrap(va + i * BASE_1GB)
  }

  /** A translation after the first `n` steps of a range of gigabytes. */
  function GigabytesMapped(before: Option<View>, pa: nat, va: nat, n: nat, w: nat): Option<View> {
    if n == 0 then before
    else if HitsGigabyte(GigabyteAddress(va, n - 1), w) then
      Some(SystemView(GigabyteFrame(pa, n - 1) + w % BASE_1GB))
    else GigabytesMapped(before, pa, va, n - 1, w)
  }

  ghost predicate MapsGigabytes(m: Memory, m': Memory, root: nat, pa: nat, va: nat, n: nat) {
    forall w: nat :: Translate(m', root, w) == GigabytesMapped(Translate(m, root, w), pa, va, n, w)
  }

  lemma NoGigabytes(m: Memory, root: nat, pa: nat, va: nat)
    ensures MapsGigabytes(m, m, root, pa, va, 0)
    ensures GigabyteFrame(pa, 0) == pa && (va < WORD_LIMIT ==> GigabyteAddress(va, 0) == va)
  {
  }

  lemma NextGigabyte(pa: nat, va: nat, i: nat, n: nat)
    requires i < n && pa % BASE_1GB == 0 && pa + n * BASE_1GB <= PHYSICAL_LIMIT
    ensures GigabyteFrame(pa, i) % BASE_1GB == 0 && GigabyteFrame(pa, i) < PHYSICAL_LIMIT
    ensures GigabyteFrame(pa, i + 1) == GigabyteFrame(pa, i) + BASE_1GB
    ensures GigabyteAddress(va, i + 1) == Wrap(GigabyteAddress(va, i) + BASE_1GB)
  {
  }

  lemma GigabytesNext(m: Memory, m1: Memory, m2: Memory, root: nat, pa: nat, va: nat, i: nat)
    requires MapsGigabytes(m, m1, root, pa, va, i)
    ensures MapsGigabyte(m1, m2, root, GigabyteFrame(pa, i), GigabyteAddress(va, i)) ==>
      MapsGigabytes(m, m2, root, pa, va, i + 1)
    ensures SameView(m1, m2, root) ==> MapsGigabytes(m, m2, root, pa, va, i)
  {
    hide Translate, HitsGigabyte;
  }

  /** One if the second-level table for an address is missing. */
  function MissingTop(tables: Tables, va: nat): nat {
    if PrefixOf(va, 1) in tables then 0 else 1
  }

  /**
   * The tables after an entry of the second-level table at p was overwritten: p is there, nothing
   * below the entry is.
   */
  ghost predicate CutAt(tables: Tables, tables': Tables, p: Prefix, i: nat) {
    && (forall q :: q in tables' <==> (q in tables || q == p) && !(p + [i] <= q))
    && (forall q :: q in tables && q in tables' ==> tables'[q] == tables[q])
  }

  lemma CutTables(tables: Tables, grown: Tables, p: Prefix, i: nat)
    requires p in grown && grown == tables[p := grown[p]] && (p in tables ==> grown[p] == tables[p])
    ensures CutAt(tables, Without(grown, p + [i]), p, i)
  {
    assert !(p + [i] <= p);
  }

  lemma WithoutPages(m: Memory, tables: Tables, q: Prefix, answers: Answers)
    ensures Confined(m, m, PagesOf(tables, answers), PagesOf(Without(tables, q), answers))
  {
  }

  /** The second-level tables that the first `n` gigabytes of a range need. */
  function Tops(va: nat, n: nat): set<Prefix> {
    if n == 0 then {} else Tops(va, n - 1) + {PrefixOf(GigabyteAddress(va, n - 1), 1)}
  }

  /** How many of them are not there yet. */
  ghost function NewTops(keys: set<Prefix>, va: nat, n: nat): nat {
    |Tops(va, n) - keys|
  }

  /** Enough requests are granted for the second-level tables of the first `n` gigabytes. */
  ghost predicate AffordsTops(answers: Answers, keys: set<Prefix>, va: nat, n: nat) {
    Grants(answers, NewTops(keys, va, n))
  }

  /** The second-level tables are those that were there and those of the first `n` gigabytes. */
  ghost predicate HasTops(keys': set<Prefix>, keys: set<Prefix>, va: nat, n: nat) {
    forall p :: |p| == 1 ==> (p in keys' <==> p in keys || p in Tops(va, n))
  }

  /** After `n` gigabytes: their second-level tables are there, one granted request for each new one. */
  ghost predicate TopsAccounted(asked: Answers, answers: Answers, keys: set<Prefix>, keys': set<Prefix>, va: nat,
    n: nat) {
    HasTops(keys', keys, va, n) && AffordsTops(asked, keys, va, n) && answers == After(asked, NewTops(keys, va, n))
  }

  lemma NoTops(va: nat, keys: set<Prefix>, answers: Answers)
    ensures TopsAccounted(answers, answers, keys, keys, va, 0)
  {
    assert Tops(va, 0) - keys == {};
  }

  lemma TopsParts(asked: Answers, answers: Answers, keys: set<Prefix>, keys': set<Prefix>, va: nat, n: nat)
    requires TopsAccounted(asked, answers, keys, keys', va, n)
    ensures HasTops(keys', keys, va, n) && AffordsTops(asked, keys, va, n)
    ensures answers == After(asked, NewTops(keys, va, n))
  {
  }

  /** The request that one more gigabyte needs. */
  lemma OneMoreTop(asked: Answers, answers: Answers, keys: set<Prefix>, tables: Tables, va: nat, i: nat)
    requires TopsAccounted(asked, answers, keys, tables.Keys, va, i)
    ensures var missing := MissingTop(tables, GigabyteAddress(va, i));
      && (Grants(answers, missing) <==> AffordsTops(asked, keys, va, i + 1))
      && After(answers, missing) == After(asked, NewTops(keys, va, i + 1))
    ensures HasTops(tables.Keys, keys, va, i) && AffordsTops(asked, keys, va, i)
  {
    hide Grants, After, GigabyteAddress, Tops, NewTops, MissingTop, HasTops;
    CountTops(keys, tables, va, i);
    GrantsMore(asked, NewTops(keys, va, i), MissingTop(tables, GigabyteAddress(va, i)));
  }

  lemma CountTops(keys: set<Prefix>, tables: Tables, va: nat, i: nat)
    requires HasTops(tables.Keys, keys, va, i)
    ensures NewTops(keys, va, i + 1) == NewTops(keys, va, i) + MissingTop(tables, GigabyteAddress(va, i))
  {
    hide GigabyteAddress, Index;
    var p, before := PrefixOf(GigabyteAddress(va, i), 1), Tops(va, i);
    assert |p| == 1;
    hide PrefixOf;
    Single(p, keys + before);
    NewMembers(before, {p}, keys);
    assert Tops(va, i + 1) == before + {p};
  }

  lemma TopsAfterCut(asked: Answers, answers: Answers, keys: set<Prefix>, tables: Tables, tables': Tables, va: nat,
    i: nat)
    requires HasTops(tables.Keys, keys, va, i) && AffordsTops(asked, keys, va, i + 1)
    requires CutAt(tables, tables', PrefixOf(GigabyteAddress(va, i), 1), Index(GigabyteAddress(va, i), 2))
    requires answers == After(asked, NewTops(keys, va, i + 1))
    ensures TopsAccounted(asked, answers, keys, tables'.Keys, va, i + 1)
  {
    hide Grants, After, GigabyteAddress, Index;
    var p, i2 := PrefixOf(GigabyteAddress(va, i), 1), Index(GigabyteAddress(va, i), 2);
    assert Tops(va, i + 1) == Tops(va, i) + {p};
    assert |p + [i2]| == 2;
    forall q: Prefix | |q| == 1
      ensures q in tables'.Keys <==> q in keys || q in Tops(va, i + 1)
    {
      assert !(p + [i2] <= q);
    }
  }

  /** Whoever can afford the tables of a range can afford those of its first gigabytes. */
  lemma FewerTops(asked: Answers, keys: set<Prefix>, va: nat, m: nat, n: nat)
    requires m <= n
    ensures AffordsTops(asked, keys, va, n) ==> AffordsTops(asked, keys, va, m)
  {
    hide Grants, Tops;
    TopsGrow(va, m, n);
    SubsetSize(Tops(va, m) - keys, Tops(va, n) - keys);
    GrantsFewer(asked, |Tops(va, m) - keys|, |Tops(va, n) - keys|);
  }

  lemma {:induction false} TopsGrow(va: nat, m: nat, n: nat)
    requires m <= n
    ensures Tops(va, m) <= Tops(va, n)
    decreases n
  {
    if m < n {
      TopsGrow(va, m, n - 1);
    }
  }
}
