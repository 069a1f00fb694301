/**
 The processor beside the page tables: it may cache the translation of any present page at any
 time and drop any cached translation at any time.  The kernel invalidates when it unmaps, and
 never when it maps.
 */
module Tlb {
  import opened Machine
  import opened AddressSpace

  datatype Cpu = Cpu(space: Space, tlb: map<int, Translation>)

  datatype Event =
    | MapPage(virt: Word, phys: Word, flags: Word)
    | UnmapPage(virt: Word)
    | Fill(v: int)
    | Evict(v: int)

  function Step(c: Cpu, e: Event): Cpu
    requires c.space.Valid()
  {
    match e
    case MapPage(virt, phys, flags) => c.(space := c.space.Map(virt, phys, flags))
    case UnmapPage(virt) =>
      Cpu(c.space.Unmap(virt), if Dir(PageOf(virt)) in c.space.tables then c.tlb - {PageOf(virt)} else c.tlb)
    case Fill(v) => if c.space.Walk(v).Some? then c.(tlb := c.tlb[v := c.space.Walk(v).value]) else c
    case Evict(v) => c.(tlb := c.tlb - {v})
  }

  /** Everything cached is what the page tables say. */
  ghost predicate Coherent(c: Cpu) {
    c.space.Valid() && forall v :: v in c.tlb ==> c.space.Walk(v) == Some(c.tlb[v])
  }

  /** The caller maps only a page that is not present, or maps it as it already is. */
  predicate Careful(s: Space, virt: Word, phys: Word, flags: Word) {
    var v := PageOf(virt);
    v in s.pages ==>
      && PresentFlag(flags)
      && s.pages[v].frame == phys / PAGE
      && s.pages[v].rw == WriteFlag(flags)
      && (s.pages[v].user == UserFlag(flags) || (Dir(v) in s.tables && !s.tables[Dir(v)]))
  }

  /** `paging_map_page` keeps every coherent cache coherent exactly when the caller is careful. */
  lemma MapCoherentIffCareful(s: Space, virt: Word, phys: Word, flags: Word)
    requires s.Valid()
    ensures (forall tlb :: Coherent(Cpu(s, tlb)) ==> Coherent(Step(Cpu(s, tlb), MapPage(virt, phys, flags))))
            <==> Careful(s, virt, phys, flags)
  {
    var v, t := PageOf(virt), s.Map(virt, phys, flags);
    StepValid(s, virt, phys, flags);
    if Careful(s, virt, phys, flags) {
      forall tlb | Coherent(Cpu(s, tlb)) ensures Coherent(Step(Cpu(s, tlb), MapPage(virt, phys, flags))) {
        CarefulStep(Cpu(s, tlb), MapPage(virt, phys, flags));
      }
    } else {
      var tlb := map[v := s.Walk(v).value];
      assert Coherent(Cpu(s, tlb));
      assert !Coherent(Step(Cpu(s, tlb), MapPage(virt, phys, flags)));
    }
  }

  lemma CarefulStep(c: Cpu, e: Event)
    requires Coherent(c)
    requires e.MapPage? ==> Careful(c.space, e.virt, e.phys, e.flags)
    ensures Coherent(Step(c, e))
  {
    if e.MapPage? || e.UnmapPage? {
      var phys, flags := if e.MapPage? then e.phys else 0, if e.MapPage? then e.flags else 0;
      StepValid(c.space, e.virt, phys, flags);
      forall v | v in c.tlb && v != PageOf(e.virt) ensures Step(c, e).space.Walk(v) == c.space.Walk(v) {
        OnlyThatPage(c.space, e.virt, phys, flags, v);
      }
    }
  }

  ghost predicate CarefulRun(c: Cpu, es: seq<Event>)
    requires c.space.Valid()
    decreases |es|
  {
    es != [] ==>
      && (es[0].MapPage? ==> Careful(c.space, es[0].virt, es[0].phys, es[0].flags))
      && Step(c, es[0]).space.Valid() && CarefulRun(Step(c, es[0]), es[1..])
  }

  function Run(c: Cpu, es: seq<Event>): (r: Cpu)
    requires c.space.Valid()
    ensures r.space.Valid()
    decreases |es|
  {
    if es == [] then c
    else
      StepKeepsValid(c, es[0]);
      Run(Step(c, es[0]), es[1..])
  }

  lemma StepKeepsValid(c: Cpu, e: Event)
    requires c.space.Valid()
    ensures Step(c, e).space.Valid()
  {
    match e {
      case MapPage(virt, phys, flags) => StepValid(c.space, virt, phys, flags);
      case UnmapPage(virt) => StepValid(c.space, virt, 0, 0);
      case Fill(v) =>
      case Evict(v) =>
    }
  }

  /** However the processor fills and drops its cache, a careful kernel never runs on a stale translation. */
  lemma {:induction false} RunCoherent(c: Cpu, es: seq<Event>)
    requires Coherent(c) && CarefulRun(c, es)
    ensures Run(c, es).space.Valid() && Coherent(Run(c, es))
    decreases |es|
  {
    if es != [] {
      CarefulStep(c, es[0]);
      RunCoherent(Step(c, es[0]), es[1..]);
    }
  }

  predicate Touches(e: Event, v: int) {
    (e.MapPage? || e.UnmapPage?) && PageOf(e.virt) == v
  }

  /** What is cached of page `v` is what the page tables say of it. */
  ghost predicate UpToDate(c: Cpu, v: int) {
    c.space.Valid() && (v in c.tlb ==> c.space.Walk(v) == Some(c.tlb[v]))
  }

  /** What happens to other pages, careful or not, changes nothing for this one. */
  lemma UntouchedStep(c: Cpu, e: Event, v: int)
    requires UpToDate(c, v) && !Touches(e, v)
    ensures UpToDate(Step(c, e), v) && Step(c, e).space.Walk(v) == c.space.Walk(v)
  {
    StepKeepsValid(c, e);
    match e {
      case MapPage(virt, phys, flags) => OnlyThatPage(c.space, virt, phys, flags, v);
      case UnmapPage(virt) => OnlyThatPage(c.space, virt, 0, 0, v);
      case Fill(_) =>
      case Evict(_) =>
    }
  }

  /** The tables say the same of an untouched page, whatever is cached. */
  lemma UntouchedWalk(c: Cpu, es: seq<Event>, v: int)
    requires c.space.Valid() && forall i :: 0 <= i < |es| ==> !Touches(es[i], v)
    ensures Run(c, es).space.Walk(v) == c.space.Walk(v)
  {
    Untouched(c.(tlb := map[]), es, v);
    SameSpace(c, c.(tlb := map[]), es);
  }

  lemma {:induction false} SameSpace(c: Cpu, d: Cpu, es: seq<Event>)
    requires c.space.Valid() && c.space == d.space
    ensures Run(c, es).space == Run(d, es).space
    decreases |es|
  {
    if es != [] {
      StepKeepsValid(c, es[0]);
      SameSpace(Step(c, es[0]), Step(d, es[0]), es[1..]);
    }
  }

  lemma {:induction false} Untouched(c: Cpu, es: seq<Event>, v: int)
    requires UpToDate(c, v) && forall i :: 0 <= i < |es| ==> !Touches(es[i], v)
    ensures UpToDate(Run(c, es), v) && Run(c, es).space.Walk(v) == c.space.Walk(v)
    decreases |es|
  {
    if es != [] {
      UntouchedStep(c, es[0], v);
      Untouched(Step(c, es[0]), es[1..], v);
    }
  }

  /** Mapping a page, carefully if it is cached, leaves what is cached of it up to date. */
  lemma MapUpToDate(c: Cpu, e: Event)
    requires e.MapPage? && UpToDate(c, PageOf(e.virt))
    requires PageOf(e.virt) in c.tlb ==> Careful(c.space, e.virt, e.phys, e.flags)
    ensures UpToDate(Step(c, e), PageOf(e.virt))
  {
    StepKeepsValid(c, e);
  }

  /**
   After a page has been mapped, and as long as it is not mapped or unmapped again, the processor
   translates it to the frame it was given, whether from its cache or from the tables.  Only the
   mapping of this page has to be careful, and only if the page is cached.
   */
  lemma LastMappingWins(c: Cpu, e: Event, es: seq<Event>)
    requires e.MapPage? && PresentFlag(e.flags) && UpToDate(c, PageOf(e.virt))
    requires !c.space.Exhausted(Dir(PageOf(e.virt)))
    requires PageOf(e.virt) in c.tlb ==> Careful(c.space, e.virt, e.phys, e.flags)
    requires forall i :: 0 <= i < |es| ==> !Touches(es[i], PageOf(e.virt))
    ensures var v, r := PageOf(e.virt), Run(Step(c, e), es);
            && r.space.Walk(v).Some? && r.space.Walk(v).value.frame == e.phys / PAGE
            && (v in r.tlb ==> r.tlb[v] == r.space.Walk(v).value)
  {
    MapUpToDate(c, e);
    Untouched(Step(c, e), es, PageOf(e.virt));
  }

  /** Neither the tables nor the cache translate page `v`. */
  ghost predicate Gone(c: Cpu, v: int) {
    c.space.Valid() && v !in c.space.pages && v !in c.tlb
  }

  lemma GoneStep(c: Cpu, e: Event, v: int)
    requires Gone(c, v) && (e.MapPage? ==> PageOf(e.virt) != v)
    ensures Gone(Step(c, e), v)
  {
    StepKeepsValid(c, e);
  }

  lemma {:induction false} GoneRun(c: Cpu, es: seq<Event>, v: int)
    requires Gone(c, v) && forall i :: 0 <= i < |es| && es[i].MapPage? ==> PageOf(es[i].virt) != v
    ensures Gone(Run(c, es), v)
    decreases |es|
  {
    if es != [] {
      GoneStep(c, es[0], v);
      GoneRun(Step(c, es[0]), es[1..], v);
    }
  }

  /** After a page has been unmapped, and as long as it is not mapped again, nothing translates it. */
  lemma UnmappedStaysGone(c: Cpu, e: Event, es: seq<Event>)
    requires e.UnmapPage? && UpToDate(c, PageOf(e.virt))
    requires forall i :: 0 <= i < |es| && es[i].MapPage? ==> PageOf(es[i].virt) != PageOf(e.virt)
    ensures var v, r := PageOf(e.virt), Run(Step(c, e), es); r.space.Walk(v).None? && v !in r.tlb
  {
    StepKeepsValid(c, e);
    GoneRun(Step(c, e), es, PageOf(e.virt));
  }

  /** A region keeps, over every run, the right its table was created with. */
  lemma {:induction false} RegionRightFixed(c: Cpu, es: seq<Event>, d: int)
    requires c.space.Valid() && d in c.space.tables
    ensures d in Run(c, es).space.tables && Run(c, es).space.tables[d] == c.space.tables[d]
    decreases |es|
  {
    if es != [] {
      StepKeepsValid(c, es[0]);
      RegionRightFixed(Step(c, es[0]), es[1..], d);
    }
  }

  /**
   Whether a page mapped for user mode is reachable from it is decided by the first mapping in its
   region, however long ago: the last mapping of the page has no say when the region is closed.
   */
  lemma FirstMappingDecides(c: Cpu, first: Event, before: seq<Event>, last: Event, after: seq<Event>)
    requires c.space.Valid() && first.MapPage? && last.MapPage?
    requires Dir(PageOf(first.virt)) == Dir(PageOf(last.virt)) && Dir(PageOf(first.virt)) !in c.space.tables
    requires !c.space.Exhausted(Dir(PageOf(first.virt))) && PresentFlag(last.flags) && UserFlag(last.flags)
    requires forall i :: 0 <= i < |after| ==> !Touches(after[i], PageOf(last.virt))
    ensures var s := Run(Step(Run(Step(c, first), before), last), after).space;
            match s.Walk(PageOf(last.virt))
            case Some(t) => t.user <==> UserFlag(first.flags)
            case None => false
  {
    var d, v := Dir(PageOf(first.virt)), PageOf(last.virt);
    var c1 := Step(c, first);
    StepKeepsValid(c, first);
    RegionRightFixed(c1, before, d);
    var c2 := Run(c1, before);
    StepKeepsValid(c2, last);
    UserReachable(c2.space, last.virt, last.phys, last.flags);
    UntouchedWalk(Step(c2, last), after, v);
  }

  /** No virtual page below 16 MiB can be reached from user mode, neither by the tables nor by what is cached. */
  ghost predicate Sealed(c: Cpu) {
    Closed(c.space) && forall v :: v in c.tlb && 0 <= v < 0x1000 ==> !c.tlb[v].user
  }

  lemma SealedStep(c: Cpu, e: Event)
    requires Sealed(c)
    ensures Sealed(Step(c, e))
  {
    match e {
      case MapPage(virt, phys, flags) => MapKeepsClosed(c.space, virt, phys, flags);
      case UnmapPage(virt) => UnmapKeepsClosed(c.space, virt);
      case Fill(v) => if 0 <= v < 0x1000 { ClosedWalk(c.space, v); }
      case Evict(v) =>
    }
  }

  lemma {:induction false} SealedRun(c: Cpu, es: seq<Event>)
    requires Sealed(c)
    ensures Sealed(Run(c, es))
    decreases |es|
  {
    if es != [] {
      SealedStep(c, es[0]);
      SealedRun(Step(c, es[0]), es[1..]);
    }
  }

  /**
   From boot on, whatever is mapped, unmapped, cached and dropped, with any flags and however
   carelessly, no virtual page below 16 MiB is ever reachable from user mode.
   */
  lemma BootStaysSealed(s: Space, es: seq<Event>, v: int)
    requires s.Valid() && IsIdentity(s, 0x1000) && 0 <= v < 0x1000
    ensures var r := Run(Cpu(s, map[]), es);
            && Closed(r.space)
            && (r.space.Walk(v).Some? ==> !r.space.Walk(v).value.user)
            && (v in r.tlb ==> !r.tlb[v].user)
  {
    BootCloses(s);
    SealedRun(Cpu(s, map[]), es);
    ClosedWalk(Run(Cpu(s, map[]), es).space, v);
  }
}
