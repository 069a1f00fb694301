/** The two-level page tables: a directory and a pool of tables handed out in order. */
module PageTables {
  import opened Machine
  import opened AddressSpace
  import Tlb

  const ABSENT := Entry(false, true, false, 0)

  // ----- what the entries of the directory and the pool mean

  /** Present directory entries name distinct tables, which are the first `next` of the pool. */
  ghost predicate Linked(dir: seq<Entry>, base: int, next: int) {
    && |dir| == ENTRIES && 0 <= next <= TABLES
    && (forall d :: 0 <= d < ENTRIES && dir[d].present ==> 0 <= dir[d].frame - base < next)
    && (forall d, e :: 0 <= d < e < ENTRIES && dir[d].present && dir[e].present ==> dir[d].frame != dir[e].frame)
  }

  /** Present directory entries do not restrict writing. */
  ghost predicate Writable(dir: seq<Entry>) {
    forall d :: 0 <= d < |dir| && dir[d].present ==> dir[d].rw
  }

  /** Index in the pool of the entry for page `v`. */
  function Slot(dir: seq<Entry>, base: int, v: int): int
    requires |dir| == ENTRIES && 0 <= v < 0x10_0000
  {
    (dir[Dir(v)].frame - base) * ENTRIES + v % ENTRIES
  }

  ghost predicate Mapped(dir: seq<Entry>, pool: seq<Entry>, base: int, v: int)
    requires |dir| == ENTRIES
  {
    && 0 <= v < 0x10_0000 && dir[Dir(v)].present
    && 0 <= Slot(dir, base, v) < |pool| && pool[Slot(dir, base, v)].present
  }

  ghost function Pages(dir: seq<Entry>, pool: seq<Entry>, base: int): map<int, Entry>
    requires |dir| == ENTRIES
  {
    map v | 0 <= v < 0x10_0000 && Mapped(dir, pool, base, v) :: pool[Slot(dir, base, v)]
  }

  ghost function Regions(dir: seq<Entry>): map<int, bool> {
    map d | 0 <= d < |dir| && dir[d].present :: dir[d].user
  }

  /** Setting the entry of one page changes that page only. */
  lemma SetEntry(dir: seq<Entry>, pool: seq<Entry>, base: int, next: int, v: int, e: Entry)
    requires Linked(dir, base, next) && |pool| == TABLES * ENTRIES
    requires 0 <= v < 0x10_0000 && dir[Dir(v)].present
    ensures 0 <= Slot(dir, base, v) < |pool|
    ensures Pages(dir, pool[Slot(dir, base, v) := e], base)
            == if e.present then Pages(dir, pool, base)[v := e] else Pages(dir, pool, base) - {v}
  {
    var pool' := pool[Slot(dir, base, v) := e];
    forall u | 0 <= u < 0x10_0000 && u != v && dir[Dir(u)].present
      ensures Mapped(dir, pool', base, u) == Mapped(dir, pool, base, u)
      ensures Mapped(dir, pool, base, u) ==> pool'[Slot(dir, base, u)] == pool[Slot(dir, base, u)]
    {
      SlotsApart(dir, base, next, u, v);
    }
    SlotsApart(dir, base, next, v, v);
    assert Mapped(dir, pool', base, v) == e.present;
  }

  /** Different pages have different slots. */
  lemma SlotsApart(dir: seq<Entry>, base: int, next: int, u: int, v: int)
    requires Linked(dir, base, next) && 0 <= u < 0x10_0000 && 0 <= v < 0x10_0000
    requires dir[Dir(u)].present && dir[Dir(v)].present
    ensures 0 <= Slot(dir, base, u) < TABLES * ENTRIES
    ensures Slot(dir, base, u) == Slot(dir, base, v) ==> u == v
  {
    if Slot(dir, base, u) == Slot(dir, base, v) {
      SamePlace(dir[Dir(u)].frame - base, u % ENTRIES, dir[Dir(v)].frame - base, v % ENTRIES);
    }
  }

  lemma SamePlace(t: int, i: int, t': int, i': int)
    requires 0 <= i < ENTRIES && 0 <= i' < ENTRIES && t * ENTRIES + i == t' * ENTRIES + i'
    ensures t == t' && i == i'
  {
  }

  /** `pool'` is `pool` with table `t` cleared. */
  ghost predicate Cleared(pool: seq<Entry>, pool': seq<Entry>, t: int) {
    && |pool'| == |pool|
    && forall k :: 0 <= k < |pool| ==> pool'[k] == if t * ENTRIES <= k < (t + 1) * ENTRIES then ABSENT else pool[k]
  }

  /** `dir'` is `dir` with table `next` linked at index `d`. */
  ghost predicate LinkedAt(dir: seq<Entry>, dir': seq<Entry>, d: int, frame: int) {
    && |dir'| == |dir| && 0 <= d < |dir| && !dir[d].present
    && dir'[d].present && dir'[d].rw && dir'[d].frame == frame
    && dir' == dir[d := dir'[d]]
  }

  /** Linking a cleared table adds its region and no page. */
  lemma AddTable(dir: seq<Entry>, dir': seq<Entry>, pool: seq<Entry>, pool': seq<Entry>, base: int, next: int, d: int)
    requires Linked(dir, base, next) && next < TABLES && |pool| == TABLES * ENTRIES
    requires LinkedAt(dir, dir', d, base + next) && Cleared(pool, pool', next)
    ensures Linked(dir', base, next + 1)
    ensures Regions(dir') == Regions(dir)[d := dir'[d].user] && |Regions(dir')| == |Regions(dir)| + 1
    ensures Pages(dir', pool', base) == Pages(dir, pool, base)
  {
    AddRegion(dir, dir', d, base + next);
    AddNoPage(dir, dir', pool, pool', base, next, d);
  }

  lemma AddRegion(dir: seq<Entry>, dir': seq<Entry>, d: int, frame: int)
    requires |dir| == ENTRIES && LinkedAt(dir, dir', d, frame)
    ensures Regions(dir') == Regions(dir)[d := dir'[d].user] && |Regions(dir')| == |Regions(dir)| + 1
  {
    assert Regions(dir').Keys == Regions(dir).Keys + {d};
  }

  lemma AddNoPage(dir: seq<Entry>, dir': seq<Entry>, pool: seq<Entry>, pool': seq<Entry>, base: int, next: int, d: int)
    requires Linked(dir, base, next) && next < TABLES && |pool| == TABLES * ENTRIES
    requires LinkedAt(dir, dir', d, base + next) && Cleared(pool, pool', next)
    ensures Pages(dir', pool', base) == Pages(dir, pool, base)
  {
    forall u | 0 <= u < 0x10_0000 ensures Mapped(dir', pool', base, u) == Mapped(dir, pool, base, u) {
      AddTablePage(dir, dir', pool, pool', base, next, d, u);
    }
    forall u | Mapped(dir, pool, base, u) ensures pool'[Slot(dir', base, u)] == pool[Slot(dir, base, u)] {
      AddTablePage(dir, dir', pool, pool', base, next, d, u);
    }
  }

  lemma AddTablePage(dir: seq<Entry>, dir': seq<Entry>, pool: seq<Entry>, pool': seq<Entry>, base: int, next: int,
                     d: int, u: int)
    requires Linked(dir, base, next) && next < TABLES && |pool| == TABLES * ENTRIES
    requires LinkedAt(dir, dir', d, base + next) && Cleared(pool, pool', next)
    requires 0 <= u < 0x10_0000
    ensures Mapped(dir', pool', base, u) == Mapped(dir, pool, base, u)
    ensures Mapped(dir, pool, base, u) ==> pool'[Slot(dir', base, u)] == pool[Slot(dir, base, u)]
  {
  }

  lemma NoPageWithoutTable(dir: seq<Entry>, pool: seq<Entry>, base: int, v: int)
    requires |dir| == ENTRIES && 0 <= v < 0x10_0000 && !dir[Dir(v)].present
    ensures Dir(v) !in Regions(dir) && Pages(dir, pool, base) - {v} == Pages(dir, pool, base)
  {
    assert v !in Pages(dir, pool, base);
  }

  lemma MeaningValid(dir: seq<Entry>, pool: seq<Entry>, base: int, next: int)
    requires Linked(dir, base, next) && next == |Regions(dir)|
    ensures Space(Regions(dir), Pages(dir, pool, base)).Valid()
  {
    forall v | v in Pages(dir, pool, base) ensures Dir(v) in Regions(dir) {
      assert Mapped(dir, pool, base, v);
    }
  }

  // ----- the operations

  class PageTables {
    const poolFrame: int               // frame of page_tables[0]; table t lies in frame poolFrame + t
    const directory: array<Entry>
    const pool: array<Entry>           // page_tables, one table after the other
    var nextTableIndex: int
    ghost var tlb: map<int, Translation>   // what the processor has cached

    ghost predicate Valid()
      reads this, directory, pool
    {
      && directory.Length == ENTRIES && pool.Length == TABLES * ENTRIES
      && 0 <= poolFrame && poolFrame + TABLES <= 0x10_0000
      && Linked(directory[..], poolFrame, nextTableIndex) && Writable(directory[..])
      && nextTableIndex == |Regions(directory[..])|
    }

    ghost function Contents(): Space
      reads this, directory, pool
      requires directory.Length == ENTRIES
    {
      Space(Regions(directory[..]), Pages(directory[..], pool[..], poolFrame))
    }

    /** The processor: the meaning of the tables, and what it has cached of it. */
    ghost function View(): Tlb.Cpu
      reads this, directory, pool
      requires directory.Length == ENTRIES
    {
      Tlb.Cpu(Contents(), tlb)
    }

    lemma ContentsValid()
      requires Valid()
      ensures Contents().Valid()
    {
      MeaningValid(directory[..], pool[..], poolFrame, nextTableIndex);
    }

    /** The directory page as the frame allocator hands it out, cleared as `paging_init` does. */
    constructor (poolFrame: int, page: array<Entry>, tables: array<Entry>)
      requires page.Length == ENTRIES && tables.Length == TABLES * ENTRIES && page != tables
      requires 0 <= poolFrame && poolFrame + TABLES <= 0x10_0000
      modifies page
      ensures this.poolFrame == poolFrame && directory == page && pool == tables
      ensures Valid() && Contents() == Space(map[], map[]) && tlb == map[]
    {
      this.poolFrame := poolFrame;
      directory := page;
      pool := tables;
      nextTableIndex := 0;
      tlb := map[];
      new;
      ClearDirectory();
      assert Regions(directory[..]) == map[];
    }

    method ClearDirectory()
      requires directory.Length == ENTRIES
      modifies directory
      ensures forall d :: 0 <= d < ENTRIES ==> directory[d] == ABSENT
    {
      for i := 0 to ENTRIES
        invariant forall d :: 0 <= d < i ==> directory[d] == ABSENT
      {
        directory[i] := ABSENT;
      }
    }

    /** Takes the next table of the pool and clears it; -1 when none is left. */
    method AllocPageTable() returns (t: int)
      requires pool.Length == TABLES * ENTRIES && 0 <= nextTableIndex <= TABLES
      modifies this`nextTableIndex, pool
      ensures t == if old(nextTableIndex) < TABLES then old(nextTableIndex) else -1
      ensures nextTableIndex == if t >= 0 then t + 1 else old(nextTableIndex)
      ensures if t >= 0 then Cleared(old(pool[..]), pool[..], t) else pool[..] == old(pool[..])
    {
      if nextTableIndex >= TABLES {
        return -1;
      }
      t := nextTableIndex;
      nextTableIndex := nextTableIndex + 1;
      for i := 0 to ENTRIES
        invariant nextTableIndex == t + 1
        invariant forall k :: 0 <= k < pool.Length ==>
                    pool[k] == if t * ENTRIES <= k < t * ENTRIES + i then ABSENT else old(pool[k])
      {
        pool[t * ENTRIES + i] := ABSENT;
      }
    }

    /** The table for directory index `d`, taken from the pool if there is none yet; -1 when the pool is exhausted. */
    method EnsureTable(d: int, flags: Word) returns (table: int)
      requires Valid() && 0 <= d < ENTRIES
      modifies this`nextTableIndex, directory, pool
      ensures Valid()
      ensures table == -1 <==> old(Contents()).Exhausted(d)
      ensures table == -1 ==> Contents() == old(Contents())
      ensures table != -1 ==> directory[d].present && table == directory[d].frame - poolFrame
      ensures table != -1 ==> Contents().pages == old(Contents()).pages
      ensures table != -1 ==>
                var t := old(Contents()).tables; Contents().tables == if d in t then t else t[d := UserFlag(flags)]
    {
      if directory[d].present {
        return directory[d].frame - poolFrame;
      }
      ghost var dir0, pool0 := directory[..], pool[..];
      table := AllocPageTable();
      if table < 0 {
        return;
      }
      directory[d] := Entry(true, true, UserFlag(flags), poolFrame + table);
      AddTable(dir0, directory[..], pool0, pool[..], poolFrame, table, d);
    }

    method MapPage(virt: Word, phys: Word, flags: Word)
      requires Valid()
      modifies this`nextTableIndex, directory, pool
      ensures Valid()
      ensures Contents() == old(Contents()).Map(virt, phys, flags)
      ensures old(Contents()).Valid() && View() == Tlb.Step(old(View()), Tlb.MapPage(virt, phys, flags))
    {
      ContentsValid();
      var d := virt / 0x40_0000;
      var i := virt / PAGE % ENTRIES;
      assert d == Dir(PageOf(virt));
      var table := EnsureTable(d, flags);
      if table == -1 {
        return;
      }
      SetPage(virt, table * ENTRIES + i, EntryFor(phys, flags));
    }

    /** Writes the table entry of the page of `virt`. */
    method SetPage(virt: Word, k: int, e: Entry)
      requires Valid() && directory[Dir(PageOf(virt))].present
      requires k == Slot(directory[..], poolFrame, PageOf(virt))
      modifies pool
      ensures Valid() && Contents().tables == old(Contents()).tables
      ensures Contents().pages
              == if e.present then old(Contents()).pages[PageOf(virt) := e] else old(Contents()).pages - {PageOf(virt)}
    {
      ghost var pool0 := pool[..];
      SetEntry(directory[..], pool0, poolFrame, nextTableIndex, PageOf(virt), e);
      pool[k] := e;
      assert pool[..] == pool0[k := e];
    }

    /** The loop of `paging_init`. */
    method MapIdentity()
      requires Valid() && IsIdentity(Contents(), 0)
      modifies this`nextTableIndex, directory, pool
      ensures Valid() && IsIdentity(Contents(), 0x1000)
    {
      var i := 0;
      while i < 0x100_0000
        invariant 0 <= i <= 0x100_0000 && i % PAGE == 0 && Valid()
        invariant IsIdentity(Contents(), i / PAGE)
      {
        IdentityStep(Contents(), i);
        NextPage(i);
        MapPage(i, i, 3);
        i := i + PAGE;
      }
    }

    /** Clears the entry and invalidates what the processor cached for the page. */
    method UnmapPage(virt: Word)
      requires Valid()
      modifies this`tlb, pool
      ensures Valid()
      ensures Contents() == old(Contents()).Unmap(virt)
      ensures tlb == if Dir(PageOf(virt)) in old(Contents()).tables then old(tlb) - {PageOf(virt)} else old(tlb)
      ensures old(Contents()).Valid() && View() == Tlb.Step(old(View()), Tlb.UnmapPage(virt))
    {
      ContentsValid();
      var d := virt / 0x40_0000;
      var i := virt / PAGE % ENTRIES;
      assert d == Dir(PageOf(virt));
      if !directory[d].present {
        NoPageWithoutTable(directory[..], pool[..], poolFrame, PageOf(virt));
        return;
      }
      var table := directory[d].frame - poolFrame;
      var k := table * ENTRIES + i;
      assert k == Slot(directory[..], poolFrame, PageOf(virt));
      SetPage(virt, k, pool[k].(present := false));
      tlb := tlb - {PageOf(virt)};
    }

    method GetPhysical(virt: Word) returns (phys: int)
      requires Valid()
      ensures var v, pages := PageOf(virt), Contents().pages;
              phys == if v in pages then pages[v].frame * PAGE + virt % PAGE else 0
      ensures phys == Contents().Physical(virt)
    {
      var d := virt / 0x40_0000;
      var i := virt / PAGE % ENTRIES;
      assert d == Dir(PageOf(virt));
      if !directory[d].present {
        return 0;
      }
      var table := directory[d].frame - poolFrame;
      assert Slot(directory[..], poolFrame, PageOf(virt)) == table * ENTRIES + i;
      if !pool[table * ENTRIES + i].present {
        return 0;
      }
      phys := pool[table * ENTRIES + i].frame * PAGE + virt % PAGE;
    }
  }

  /** `paging_init`: no directory without a frame for it; otherwise the first 16 MiB are mapped to themselves. */
  method PagingInit(poolFrame: int, page: array?<Entry>, tables: array<Entry>) returns (p: PageTables?)
    requires page != null ==> page.Length == ENTRIES && page != tables
    requires tables.Length == TABLES * ENTRIES
    requires 0 <= poolFrame && poolFrame + TABLES <= 0x10_0000
    modifies page, tables
    ensures p == null <==> page == null
    ensures p != null ==> fresh(p) && p.directory == page && p.pool == tables
    ensures p != null ==> p.Valid() && IsIdentity(p.Contents(), 0x1000) && p.tlb == map[]
  {
    if page == null {
      return null;
    }
    p := new PageTables(poolFrame, page, tables);
    p.MapIdentity();
  }
}
