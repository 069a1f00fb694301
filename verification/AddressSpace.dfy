/**
 What the page tables mean: a map from 20-bit page number to frame and rights, together with the
 4 MiB regions that have a page table.  The translation the processor performs, and what a
 translation lookaside buffer may remember of it, are defined on this meaning.
 */
module AddressSpace {
  import opened Machine

  const PAGE := 4096
  const ENTRIES := 1024       // entries of a directory and of a table
  const TABLES := 256         // page tables in the static pool

  /** A directory or table entry: the fields the kernel uses. */
  datatype Entry = Entry(present: bool, rw: bool, user: bool, frame: int)

  function PageOf(virt: Word): (v: int)
    ensures 0 <= v < 0x10_0000
  {
    virt / PAGE
  }

  /** Directory index of page `v`: the top 10 of its 20 bits. */
  function Dir(v: int): int {
    v / ENTRIES
  }

  predicate PresentFlag(flags: Word) { flags % 2 == 1 }
  predicate WriteFlag(flags: Word) { flags / 2 % 2 == 1 }
  predicate UserFlag(flags: Word) { flags / 4 % 2 == 1 }

  function EntryFor(phys: Word, flags: Word): Entry {
    Entry(PresentFlag(flags), WriteFlag(flags), UserFlag(flags), phys / PAGE)
  }

  /** `tables`: for each directory index with a page table, the entry's user bit; `pages`: the present pages. */
  datatype Space = Space(tables: map<int, bool>, pages: map<int, Entry>) {
    ghost predicate Valid() {
      && |tables| <= TABLES
      && (forall d :: d in tables ==> 0 <= d < ENTRIES)
      && (forall v :: v in pages ==> Dir(v) in tables && pages[v].present)
    }

    /** A new table is needed and the pool has none left. */
    predicate Exhausted(d: int) {
      d !in tables && |tables| == TABLES
    }

    function Map(virt: Word, phys: Word, flags: Word): Space {
      var v := PageOf(virt);
      if Exhausted(Dir(v)) then this
      else
        Space(if Dir(v) in tables then tables else tables[Dir(v) := UserFlag(flags)],
              if PresentFlag(flags) then pages[v := EntryFor(phys, flags)] else pages - {v})
    }

    function Unmap(virt: Word): Space {
      Space(tables, pages - {PageOf(virt)})
    }

    /** Where an address is translated to, 0 for a page that is not present. */
    function Physical(virt: Word): int {
      var v := PageOf(virt);
      if v in pages then pages[v].frame * PAGE + virt % PAGE else 0
    }

    /**
     The processor's translation of page `v`: rights are those of both levels, and every directory
     entry is writable.
     */
    function Walk(v: int): Option<Translation>
      requires v in pages ==> Dir(v) in tables
    {
      if v in pages then Some(Translation(pages[v].frame, pages[v].rw, pages[v].user && tables[Dir(v)])) else None
    }
  }

  datatype Translation = Translation(frame: int, rw: bool, user: bool)

  /** The regions that have a table are among the lowest four, and for the kernel only. */
  ghost predicate KernelTables(tables: map<int, bool>) {
    forall d :: d in tables ==> 0 <= d < 4 && !tables[d]
  }

  /** Exactly the first `n` pages are mapped, each to itself. */
  ghost predicate IdentityPages(pages: map<int, Entry>, n: int) {
    && (forall v :: v in pages <==> 0 <= v < n)
    && (forall v :: v in pages ==> pages[v] == Entry(true, true, false, v))
  }

  ghost predicate IsIdentity(s: Space, n: int) {
    KernelTables(s.tables) && IdentityPages(s.pages, n)
  }

  lemma {:induction false} SubsetSize<T>(xs: set<T>, ys: set<T>)
    requires xs <= ys
    ensures |xs| <= |ys|
  {
    if xs != {} {
      var x :| x in xs;
      SubsetSize(xs - {x}, ys - {x});
    }
  }

  lemma FewTables(tables: map<int, bool>)
    requires KernelTables(tables)
    ensures |tables| <= 4
  {
    forall d | d in tables.Keys ensures d in {0, 1, 2, 3} {
      assert 0 <= d < 4;
    }
    SubsetSize(tables.Keys, {0, 1, 2, 3});
  }

  lemma KernelEntry(virt: Word)
    requires virt < 0x100_0000
    ensures EntryFor(virt, 3) == Entry(true, true, false, PageOf(virt)) && !UserFlag(3) && PresentFlag(3)
    ensures 0 <= Dir(PageOf(virt)) < 4
  {
  }

  lemma IdentityStep(s: Space, virt: Word)
    requires virt < 0x100_0000 && virt % PAGE == 0 && IsIdentity(s, PageOf(virt))
    ensures IsIdentity(s.Map(virt, virt, 3), PageOf(virt) + 1)
  {
    var v, d, t := PageOf(virt), Dir(PageOf(virt)), s.Map(virt, virt, 3);
    FewTables(s.tables);
    KernelEntry(virt);
    assert t.tables == if d in s.tables then s.tables else s.tables[d := false];
    assert t.pages == s.pages[v := Entry(true, true, false, v)];
    OneTableMore(s.tables, d);
    OnePageMore(s.pages, v);
  }

  lemma OneTableMore(tables: map<int, bool>, d: int)
    requires KernelTables(tables) && 0 <= d < 4
    ensures KernelTables(tables[d := false])
  {
  }

  lemma OnePageMore(pages: map<int, Entry>, v: int)
    requires IdentityPages(pages, v) && 0 <= v
    ensures IdentityPages(pages[v := Entry(true, true, false, v)], v + 1)
  {
  }

  lemma NextPage(virt: Word)
    requires virt < 0x100_0000 && virt % PAGE == 0
    ensures virt + PAGE <= 0x100_0000 && (virt + PAGE) % PAGE == 0 && (virt + PAGE) / PAGE == PageOf(virt) + 1
  {
  }

  // ----- what mapping and unmapping do

  lemma OneRegionMore(tables: map<int, bool>, d: int, user: bool)
    requires d !in tables
    ensures |tables[d := user]| == |tables| + 1
  {
    assert tables[d := user].Keys == tables.Keys + {d};
  }

  lemma UnmapValid(s: Space, virt: Word)
    requires s.Valid()
    ensures s.Unmap(virt).Valid()
  {
  }

  lemma MapValid(s: Space, virt: Word, phys: Word, flags: Word)
    requires s.Valid()
    ensures s.Map(virt, phys, flags).Valid()
  {
    var d := Dir(PageOf(virt));
    if d !in s.tables && !s.Exhausted(d) {
      OneRegionMore(s.tables, d, UserFlag(flags));
    }
  }

  lemma StepValid(s: Space, virt: Word, phys: Word, flags: Word)
    requires s.Valid()
    ensures s.Map(virt, phys, flags).Valid() && s.Unmap(virt).Valid()
  {
    MapValid(s, virt, phys, flags);
    UnmapValid(s, virt);
  }

  /** Mapping a page never changes the translation of another one, and neither does unmapping. */
  lemma OnlyThatPage(s: Space, virt: Word, phys: Word, flags: Word, v: int)
    requires s.Valid() && v != PageOf(virt)
    ensures s.Map(virt, phys, flags).Valid() && s.Map(virt, phys, flags).Walk(v) == s.Walk(v)
    ensures s.Unmap(virt).Valid() && s.Unmap(virt).Walk(v) == s.Walk(v)
  {
    StepValid(s, virt, phys, flags);
  }

  /**
   A mapping takes effect exactly when its region has a table or the pool has one left; otherwise
   nothing changes.  A corollary of the definition of `Map`, which the tables are proved to follow.
   */
  lemma MapTakesEffect(s: Space, virt: Word, phys: Word, flags: Word)
    requires s.Valid() && PresentFlag(flags)
    ensures var v, t := PageOf(virt), s.Map(virt, phys, flags);
            (v in t.pages && t.pages[v] == EntryFor(phys, flags)) <==> !s.Exhausted(Dir(v))
    ensures s.Exhausted(Dir(PageOf(virt))) ==> s.Map(virt, phys, flags) == s
  {
  }

  /**
   What the processor makes of a mapping that takes effect, bit by bit of its flags: bit 0 present,
   bit 1 writable, bit 2 user, the last one only as far as the region allows it.
   */
  lemma MapWalk(s: Space, virt: Word, phys: Word, flags: Word)
    requires s.Valid() && !s.Exhausted(virt / 4096 / 1024)
    ensures s.Map(virt, phys, flags).Valid()
    ensures var d := virt / 0x40_0000;
            var user := flags / 4 % 2 == 1 && (d in s.tables ==> s.tables[d]);
            s.Map(virt, phys, flags).Walk(virt / 4096)
            == if flags % 2 == 0 then None else Some(Translation(phys / 4096, flags / 2 % 2 == 1, user))
  {
    MapValid(s, virt, phys, flags);
    assert virt / 4096 / 1024 == virt / 0x40_0000;
  }

  /** A mapping without the write bit is read-only, and one without the user bit is for the kernel. */
  lemma MapWithholds(s: Space, virt: Word, phys: Word, flags: Word)
    requires s.Valid() && !s.Exhausted(Dir(PageOf(virt))) && flags % 2 == 1
    ensures s.Map(virt, phys, flags).Valid()
    ensures match s.Map(virt, phys, flags).Walk(PageOf(virt))
            case Some(t) => (t.rw <==> flags / 2 % 2 == 1) && (flags / 4 % 2 == 0 ==> !t.user)
            case None => false
  {
    MapWalk(s, virt, phys, flags);
  }

  /** Every address of a mapped page is translated to its offset in the frame given, of an unmapped one to 0. */
  lemma PhysicalAfter(s: Space, virt: Word, phys: Word, flags: Word, a: Word)
    requires s.Valid() && a / 4096 == virt / 4096
    ensures flags % 2 == 1 && !s.Exhausted(Dir(PageOf(virt))) ==>
              s.Map(virt, phys, flags).Physical(a) == phys - phys % 4096 + a % 4096
    ensures s.Unmap(virt).Physical(a) == 0
  {
  }

  /** Unmapping a page that was not mapped before takes every page back to what it was. */
  lemma UnmapUndoesMap(s: Space, virt: Word, phys: Word, flags: Word)
    requires s.Valid() && PageOf(virt) !in s.pages
    ensures s.Map(virt, phys, flags).Unmap(virt).pages == s.pages
    ensures s.tables.Keys <= s.Map(virt, phys, flags).Unmap(virt).tables.Keys
    ensures forall d :: d in s.tables ==> s.Map(virt, phys, flags).Unmap(virt).tables[d] == s.tables[d]
  {
    PagesBack(s.pages, PageOf(virt), EntryFor(phys, flags));
  }

  lemma PagesBack(pages: map<int, Entry>, v: int, e: Entry)
    requires v !in pages
    ensures pages - {v} == pages && pages[v := e] - {v} == pages && pages - {v} - {v} == pages
  {
    assert pages - {v} == pages;
  }

  /**
   A corollary of `Map` and `Walk`: a page mapped with the user flag is reachable from user mode
   exactly when its region was new or had been created for user mode, because the directory entry
   keeps the right it was created with.
   */
  lemma UserReachable(s: Space, virt: Word, phys: Word, flags: Word)
    requires s.Valid() && PresentFlag(flags) && UserFlag(flags) && !s.Exhausted(Dir(PageOf(virt)))
    ensures s.Map(virt, phys, flags).Valid()
    ensures s.Map(virt, phys, flags).Walk(PageOf(virt)).Some?
    ensures s.Map(virt, phys, flags).Walk(PageOf(virt)).value.user
            <==> (Dir(PageOf(virt)) in s.tables ==> s.tables[Dir(PageOf(virt))])
  {
    StepValid(s, virt, phys, flags);
  }

  // ----- what boot closes to user mode

  /** The first 16 MiB have their tables, and the directory entries of these withhold the user right. */
  ghost predicate Closed(s: Space) {
    s.Valid() && forall d :: 0 <= d < 4 ==> d in s.tables && !s.tables[d]
  }

  /** The mapping `paging_init` leaves is closed. */
  lemma BootCloses(s: Space)
    requires s.Valid() && IsIdentity(s, 0x1000)
    ensures Closed(s)
  {
    forall d | 0 <= d < 4 ensures d in s.tables {
      assert d * ENTRIES in s.pages && Dir(d * ENTRIES) == d;
    }
  }

  lemma MapKeepsClosed(s: Space, virt: Word, phys: Word, flags: Word)
    requires Closed(s)
    ensures Closed(s.Map(virt, phys, flags))
  {
    MapValid(s, virt, phys, flags);
  }

  lemma UnmapKeepsClosed(s: Space, virt: Word)
    requires Closed(s)
    ensures Closed(s.Unmap(virt))
  {
    UnmapValid(s, virt);
  }

  lemma ClosedWalk(s: Space, v: int)
    requires Closed(s) && 0 <= v < 0x1000
    ensures s.Walk(v).Some? ==> !s.Walk(v).value.user
  {
    assert 0 <= Dir(v) < 4;
  }

  /**
   No mapping, whatever its flags, and no unmapping opens a region that is closed; and while it is
   closed, no page below 16 MiB can be reached from user mode.
   */
  lemma KernelRegionsStayClosed(s: Space, virt: Word, phys: Word, flags: Word, v: int)
    requires Closed(s) && 0 <= v < 0x1000
    ensures Closed(s.Map(virt, phys, flags)) && Closed(s.Unmap(virt))
    ensures s.Walk(v).Some? ==> !s.Walk(v).value.user
  {
    MapKeepsClosed(s, virt, phys, flags);
    UnmapKeepsClosed(s, virt);
    ClosedWalk(s, v);
  }

  /**
   It is virtual pages that are closed, not frames: right after boot, a user mapping above 16 MiB
   of the first frame of the heap is reachable from user mode.
   */
  lemma FramesAreNotClosed(s: Space)
    requires s.Valid() && IsIdentity(s, 0x1000)
    ensures s.Map(0x4000_0000, 0x40_0000, 7).Valid()
    ensures s.Map(0x4000_0000, 0x40_0000, 7).Walk(0x4_0000) == Some(Translation(0x400, true, true))
  {
    FewTables(s.tables);
    MapValid(s, 0x4000_0000, 0x40_0000, 7);
    assert PageOf(0x4000_0000) == 0x4_0000 && Dir(0x4_0000) == 0x100;
    assert EntryFor(0x40_0000, 7) == Entry(true, true, true, 0x400);
  }

  // ----- the pool used up

  /** The first pages of regions 0 to `n - 1` mapped one after the other, from nothing. */
  function Filled(n: nat): Space
    requires n <= TABLES
  {
    if n == 0 then Space(map[], map[]) else Filled(n - 1).Map((n - 1) * 0x40_0000, 0, 3)
  }

  lemma {:induction false} FilledRegions(n: nat)
    requires n <= TABLES
    ensures Filled(n).Valid() && |Filled(n).tables| == n
    ensures forall d :: d in Filled(n).tables ==> 0 <= d < n
  {
    if n > 0 {
      var s, virt := Filled(n - 1), (n - 1) * 0x40_0000;
      FilledRegions(n - 1);
      assert 0 <= virt < WORDS && Dir(PageOf(virt)) == n - 1;
      MapValid(s, virt, 0, 3);
      OneRegionMore(s.tables, n - 1, UserFlag(3));
    }
  }

  /** After one page in each of 256 regions, a mapping in any further region changes nothing. */
  lemma PoolRunsOut(virt: Word, phys: Word, flags: Word)
    requires virt / 0x40_0000 >= 256
    ensures |Filled(256).tables| == 256 && Filled(256).Exhausted(Dir(PageOf(virt)))
    ensures Filled(256).Map(virt, phys, flags) == Filled(256) && PageOf(virt) !in Filled(256).pages
    ensures !Filled(255).Exhausted(Dir(PageOf(virt)))
  {
    FilledRegions(256);
    FilledRegions(255);
  }
}
