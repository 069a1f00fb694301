/** The process table as values: what its rows and the heap must agree on, and what holds over whole runs. */
module ProcessRows {
  import opened Machine
  import opened HeapLayout
  import opened HeapTheory

  const MAX_PROCESSES := 64
  const KERNEL_STACK_SIZE := 4096
  const PROCESS_SIZE := 120      // sizeof(process_t)

  /** Where `process_create` puts the record and the stack, 0 for no room, and the layout it leaves. */
  function RecordAt(bs: seq<Block>): int {
    Malloc(bs, PROCESS_SIZE).1
  }

  function StackAt(bs: seq<Block>): int {
    Malloc(Malloc(bs, PROCESS_SIZE).0, KERNEL_STACK_SIZE).1
  }

  predicate NoRoom(bs: seq<Block>) {
    RecordAt(bs) == 0 || StackAt(bs) == 0
  }

  function Created(bs: seq<Block>): seq<Block> {
    Malloc(Malloc(bs, PROCESS_SIZE).0, KERNEL_STACK_SIZE).0
  }

  /** The layout after `process_terminate` has freed stack and record. */
  function Freed(bs: seq<Block>, ptr: int, kernelStack: int): seq<Block> {
    Free(if kernelStack == 0 then bs else Free(bs, kernelStack - KERNEL_STACK_SIZE), ptr)
  }

  lemma FreedInSteps(bs: seq<Block>, ptr: int, kernelStack: int, bs1: seq<Block>, bs2: seq<Block>)
    requires bs1 == if kernelStack == 0 then bs else Free(bs, kernelStack - KERNEL_STACK_SIZE)
    requires bs2 == Free(bs1, ptr)
    ensures bs2 == Freed(bs, ptr, kernelStack)
  {
  }

  /** Terminating a process right after creating it takes the heap back to the layout from before. */
  lemma TerminateUndoesCreate(bs: seq<Block>)
    requires WellFormed(bs) && !NoRoom(bs)
    ensures Freed(Created(bs), RecordAt(bs), StackAt(bs) + KERNEL_STACK_SIZE) == bs
  {
    CreatedOwns(bs, 0);
    MallocEffect(bs, PROCESS_SIZE);
    FreeUndoesMalloc(Malloc(bs, PROCESS_SIZE).0, KERNEL_STACK_SIZE);
    FreeUndoesMalloc(bs, PROCESS_SIZE);
  }

  // ----- the table as values

  /** What a table slot and the heap must agree on. */
  datatype Row = Row(pid: Word, ptr: Word, kernelStack: Word) {
    /** The heap addresses the process owns. */
    ghost function Pointers(): set<int> {
      if kernelStack == 0 then {ptr} else {ptr, kernelStack - KERNEL_STACK_SIZE}
    }

    /** Record and stack are allocated, apart from each other, and large enough. */
    ghost predicate Owns(sizes: map<int, int>) {
      && ptr in sizes && sizes[ptr] >= PROCESS_SIZE
      && (kernelStack != 0 ==>
            var p := kernelStack - KERNEL_STACK_SIZE;
            p != ptr && p in sizes && sizes[p] >= KERNEL_STACK_SIZE)
    }
  }

  ghost function Occupied(rows: seq<Option<Row>>): set<int> {
    set i | 0 <= i < |rows| && rows[i].Some?
  }

  ghost predicate Separate(r: Row, q: Row) {
    r.pid != q.pid && r.Pointers() !! q.Pointers()
  }

  /**
   Pids are distinct and below `nextPid`; no more slots are occupied than pids were given out;
   every process owns its blocks, and no block has two owners.
   */
  ghost predicate RowsOk(rows: seq<Option<Row>>, nextPid: int, sizes: map<int, int>) {
    && |rows| == MAX_PROCESSES && |Occupied(rows)| <= nextPid <= MAX_PROCESSES
    && (forall i :: 0 <= i < |rows| && rows[i].Some? ==> rows[i].value.pid < nextPid && rows[i].value.Owns(sizes))
    && AllSeparate(rows)
  }

  ghost predicate AllSeparate(rows: seq<Option<Row>>) {
    forall i, j :: 0 <= i < j < |rows| && rows[i].Some? && rows[j].Some? ==> Separate(rows[i].value, rows[j].value)
  }

  lemma StillSeparate(rows: seq<Option<Row>>, i: int, row: Row)
    requires AllSeparate(rows) && 0 <= i < |rows|
    requires forall j :: 0 <= j < |rows| && j != i && rows[j].Some? ==> Separate(rows[j].value, row)
    ensures AllSeparate(rows[i := Some(row)])
  {
    var rows' := rows[i := Some(row)];
    forall j, k | 0 <= j < k < |rows'| && rows'[j].Some? && rows'[k].Some?
      ensures Separate(rows'[j].value, rows'[k].value)
    {
      assert Separate(if j == i then rows'[k].value else rows'[j].value, if j == i then row else rows'[k].value);
    }
  }

  lemma OwnsMore(r: Row, sizes: map<int, int>, sizes': map<int, int>, gone: set<int>)
    requires sizes == sizes' - gone && r.Owns(sizes)
    ensures r.Owns(sizes') && r.Pointers() !! gone
  {
  }

  /** A new process with the next pid, in blocks that were not allocated, keeps the table. */
  lemma AddRow(rows: seq<Option<Row>>, nextPid: int, sizes: map<int, int>, sizes': map<int, int>, i: int, row: Row)
    requires RowsOk(rows, nextPid, sizes) && nextPid < MAX_PROCESSES && 0 <= i < |rows| && rows[i].None?
    requires row.pid == nextPid && row.Owns(sizes') && sizes == sizes' - row.Pointers()
    ensures RowsOk(rows[i := Some(row)], nextPid + 1, sizes')
  {
    OccupiedPut(rows, i, row);
    forall j | 0 <= j < |rows| && rows[j].Some? ensures rows[j].value.Owns(sizes') && Separate(rows[j].value, row) {
      OwnsMore(rows[j].value, sizes, sizes', row.Pointers());
    }
    StillSeparate(rows, i, row);
  }

  lemma OccupiedPut(rows: seq<Option<Row>>, i: int, row: Row)
    requires 0 <= i < |rows| && rows[i].None?
    ensures |Occupied(rows[i := Some(row)])| == |Occupied(rows)| + 1
  {
    assert Occupied(rows[i := Some(row)]) == Occupied(rows) + {i};
  }

  /** The table with the idle process alone. */
  lemma IdleRow(rows: seq<Option<Row>>, sizes: map<int, int>, ptr: Word)
    requires |rows| == MAX_PROCESSES && rows[0] == Some(Row(0, ptr, 0))
    requires forall i :: 0 < i < |rows| ==> rows[i].None?
    requires Row(0, ptr, 0).Owns(sizes)
    ensures RowsOk(rows, 1, sizes)
  {
    assert Occupied(rows) == {0};
  }

  /** A process leaves with its blocks. */
  lemma RemoveRow(rows: seq<Option<Row>>, nextPid: int, sizes: map<int, int>, i: int)
    requires RowsOk(rows, nextPid, sizes) && 0 <= i < |rows| && rows[i].Some?
    ensures RowsOk(rows[i := None], nextPid, sizes - rows[i].value.Pointers())
  {
    assert Occupied(rows[i := None]) == Occupied(rows) - {i};
    var gone := rows[i].value.Pointers();
    forall j | 0 <= j < |rows| && j != i && rows[j].Some? ensures rows[j].value.Owns(sizes - gone) {
      OwnsLess(rows[j].value, sizes, rows[i].value);
    }
  }

  lemma OwnsLess(r: Row, sizes: map<int, int>, q: Row)
    requires r.Owns(sizes) && (Separate(r, q) || Separate(q, r))
    ensures r.Owns(sizes - q.Pointers())
  {
    assert r.ptr in r.Pointers();
    assert r.kernelStack != 0 ==> r.kernelStack - KERNEL_STACK_SIZE in r.Pointers();
  }

  /** The first empty slot, or the number of slots. */
  function FirstEmpty(rows: seq<Option<Row>>): (i: nat)
    ensures i <= |rows| && (i < |rows| ==> rows[i].None?)
    ensures forall j :: 0 <= j < i ==> rows[j].Some?
  {
    if rows == [] || rows[0].None? then 0
    else
      assert forall j :: 1 <= j < |rows| ==> rows[j] == rows[1..][j - 1];
      1 + FirstEmpty(rows[1..])
  }

  /** By pigeonhole: while pids remain, some slot is empty. */
  lemma SlotRemains(rows: seq<Option<Row>>, nextPid: int, sizes: map<int, int>)
    requires RowsOk(rows, nextPid, sizes) && nextPid < MAX_PROCESSES
    ensures FirstEmpty(rows) < |rows|
  {
    if FirstEmpty(rows) == |rows| {
      AllSlots(Occupied(rows), MAX_PROCESSES);
      assert false;
    }
  }

  lemma {:induction false} AllSlots(slots: set<int>, n: nat)
    requires forall i :: 0 <= i < n ==> i in slots
    ensures |slots| >= n
  {
    if n > 0 {
      AllSlots(slots - {n - 1}, n - 1);
    }
  }

  lemma SizesRounded()
    ensures Round(PROCESS_SIZE) == PROCESS_SIZE && Round(KERNEL_STACK_SIZE) == KERNEL_STACK_SIZE
  {
  }

  /**
   Where a creation puts things, in bytes: the record in the lowest gap that holds 120, and then the
   stack in the lowest that holds 4096; it has no room exactly when one of the two gaps is missing.
   */
  lemma CreatedPlaces(bs: seq<Block>)
    requires WellFormed(bs)
    ensures WellFormed(Malloc(bs, 120).0)
    ensures var bs1 := Malloc(bs, 120).0;
            && (NoRoom(bs) <==> (!exists a :: Gap(bs, a, 120)) || !exists a :: Gap(bs1, a, 4096))
            && (!NoRoom(bs) ==> LowestGap(bs, RecordAt(bs) - 12, 120) && LowestGap(bs1, StackAt(bs) - 12, 4096))
  {
    SizesRounded();
    var bs1 := Malloc(bs, 120).0;
    MallocEffect(bs, 120);
    MallocComplete(bs, 120);
    MallocComplete(bs1, 4096);
  }

  ghost predicate LowestGap(bs: seq<Block>, a: int, s: int) {
    Gap(bs, a, s) && forall b :: Gap(bs, b, s) ==> a <= b
  }

  /** One allocation, of which the heap is sure to have the address in range. */
  lemma OneAdded(bs: seq<Block>, n: Word)
    requires WellFormed(bs) && Malloc(bs, n).1 != 0
    ensures WellFormed(Malloc(bs, n).0) && 0 < Malloc(bs, n).1 < WORDS - KERNEL_STACK_SIZE
    ensures var p, m := Malloc(bs, n).1, Sizes(Malloc(bs, n).0);
            p !in Sizes(bs) && p in m && m == Sizes(bs)[p := m[p]] && m[p] >= Round(n)
  {
    MallocSizes(bs, n);
    AllocatedInside(Malloc(bs, n).0, Malloc(bs, n).1);
  }

  /** With room for both, record and stack are two allocations that were not there before. */
  lemma CreatedOwns(bs: seq<Block>, pid: Word)
    requires WellFormed(bs) && !NoRoom(bs)
    ensures WellFormed(Created(bs)) && 0 < StackAt(bs) < WORDS - KERNEL_STACK_SIZE && 0 <= RecordAt(bs) < WORDS
    ensures var row := Row(pid, RecordAt(bs), StackAt(bs) + KERNEL_STACK_SIZE);
            row.Owns(Sizes(Created(bs))) && Sizes(bs) == Sizes(Created(bs)) - row.Pointers()
  {
    var bs1, p, q := Malloc(bs, PROCESS_SIZE).0, RecordAt(bs), StackAt(bs);
    SizesRounded();
    OneAdded(bs, PROCESS_SIZE);
    OneAdded(bs1, KERNEL_STACK_SIZE);
    TwoAdded(Sizes(bs), Sizes(bs1), Sizes(Created(bs)), Row(pid, p, q + KERNEL_STACK_SIZE), q);
  }

  lemma TwoAdded(m: map<int, int>, m1: map<int, int>, m2: map<int, int>, row: Row, q: int)
    requires row.ptr !in m && row.ptr in m1 && m1 == m[row.ptr := m1[row.ptr]] && m1[row.ptr] >= PROCESS_SIZE
    requires q !in m1 && q in m2 && m2 == m1[q := m2[q]] && m2[q] >= KERNEL_STACK_SIZE
    requires row.kernelStack == q + KERNEL_STACK_SIZE && q > 0
    ensures row.Owns(m2) && m == m2 - row.Pointers()
  {
    assert row.Pointers() == {row.ptr, q};
  }

  // ----- runs

  /** The heap layout, the table and the next pid. */
  datatype Procs = Procs(blocks: seq<Block>, rows: seq<Option<Row>>, nextPid: int) {
    ghost predicate Valid() {
      WellFormed(blocks) && RowsOk(rows, nextPid, Sizes(blocks))
    }

    /** `process_create`: nothing without a pid or without room, otherwise a row in the first empty slot. */
    ghost function Create(): Procs
      requires Valid()
    {
      if nextPid >= MAX_PROCESSES || NoRoom(blocks) then this
      else
        SlotRemains(rows, nextPid, Sizes(blocks));
        CreatedOwns(blocks, nextPid);
        var row := Row(nextPid, RecordAt(blocks), StackAt(blocks) + KERNEL_STACK_SIZE);
        Procs(Created(blocks), rows[FirstEmpty(rows) := Some(row)], nextPid + 1)
    }

    /** `process_terminate` of the process in slot `i`, or of null when the slot is empty. */
    ghost function Terminate(i: nat): Procs {
      if i >= |rows| || rows[i].None? then this
      else Procs(Freed(blocks, rows[i].value.ptr, rows[i].value.kernelStack), rows[i := None], nextPid)
    }

    /** What is allocated for others than the processes of the table. */
    ghost function Outside(): map<int, int> {
      Sizes(blocks) - AllPointers(rows)
    }
  }

  ghost function AllPointers(rows: seq<Option<Row>>): set<int> {
    set i, p | 0 <= i < |rows| && rows[i].Some? && p in rows[i].value.Pointers() :: p
  }

  lemma PointersPut(rows: seq<Option<Row>>, i: nat, row: Row)
    requires i < |rows| && rows[i].None?
    ensures AllPointers(rows[i := Some(row)]) == AllPointers(rows) + row.Pointers()
  {
    var rows' := rows[i := Some(row)];
    forall p | p in AllPointers(rows) ensures p in AllPointers(rows') {
      var j :| 0 <= j < |rows| && rows[j].Some? && p in rows[j].value.Pointers();
      assert rows'[j] == rows[j];
    }
    forall p | p in row.Pointers() ensures p in AllPointers(rows') {
      assert rows'[i].value == row;
    }
  }

  lemma PointersTaken(rows: seq<Option<Row>>, i: nat)
    requires i < |rows| && rows[i].Some?
    ensures AllPointers(rows) == AllPointers(rows[i := None]) + rows[i].value.Pointers()
  {
    PointersPut(rows[i := None], i, rows[i].value);
    assert rows[i := None][i := rows[i]] == rows;
  }

  lemma MinusBoth(m: map<int, int>, m': map<int, int>, a: set<int>, b: set<int>)
    requires m == m' - b
    ensures m - a == m' - (a + b)
  {
  }

  lemma FreedSizes(bs: seq<Block>, row: Row)
    requires WellFormed(bs) && row.Owns(Sizes(bs))
    ensures WellFormed(Freed(bs, row.ptr, row.kernelStack))
    ensures Sizes(Freed(bs, row.ptr, row.kernelStack)) == Sizes(bs) - row.Pointers()
  {
    var bs1 := if row.kernelStack == 0 then bs else Free(bs, row.kernelStack - KERNEL_STACK_SIZE);
    var bs2 := Free(bs1, row.ptr);
    FreeSizes(bs, row.kernelStack - KERNEL_STACK_SIZE);
    FreeSizes(bs1, row.ptr);
    FreedInSteps(bs, row.ptr, row.kernelStack, bs1, bs2);
    PointersGone(Sizes(bs), Sizes(bs1), Sizes(bs2), row);
  }

  lemma PointersGone(m: map<int, int>, m1: map<int, int>, m2: map<int, int>, row: Row)
    requires m1 == if row.kernelStack == 0 then m else m - {row.kernelStack - KERNEL_STACK_SIZE}
    requires m2 == m1 - {row.ptr}
    ensures m2 == m - row.Pointers()
  {
  }

  lemma CreateFails(s: Procs)
    requires s.Valid() && (s.nextPid >= MAX_PROCESSES || NoRoom(s.blocks))
    ensures s.Create() == s
  {
  }

  lemma CreateSucceeds(s: Procs, row: Row, t: Procs)
    requires s.Valid() && s.nextPid < MAX_PROCESSES && !NoRoom(s.blocks)
    requires row.pid == s.nextPid && row.ptr == RecordAt(s.blocks)
    requires row.kernelStack == StackAt(s.blocks) + KERNEL_STACK_SIZE
    requires FirstEmpty(s.rows) < |s.rows| && t.rows == s.rows[FirstEmpty(s.rows) := Some(row)]
    requires t.blocks == Created(s.blocks) && t.nextPid == s.nextPid + 1
    ensures t == s.Create()
  {
  }

  lemma CreateKeeps(s: Procs)
    requires s.Valid()
    ensures s.Create().Valid() && s.Create().Outside() == s.Outside()
  {
    if s.nextPid < MAX_PROCESSES && !NoRoom(s.blocks) {
      var t, i := s.Create(), FirstEmpty(s.rows);
      SlotRemains(s.rows, s.nextPid, Sizes(s.blocks));
      CreatedOwns(s.blocks, s.nextPid);
      var row := t.rows[i].value;
      AddRow(s.rows, s.nextPid, Sizes(s.blocks), Sizes(t.blocks), i, row);
      PointersPut(s.rows, i, row);
      MinusBoth(Sizes(s.blocks), Sizes(t.blocks), AllPointers(s.rows), row.Pointers());
    }
  }

  lemma CreateReady(s: Procs)
    requires s.Valid() && s.nextPid < MAX_PROCESSES && !NoRoom(s.blocks)
    ensures s.Create().Valid() && FirstEmpty(s.rows) < |s.rows| == MAX_PROCESSES
    ensures 0 < StackAt(s.blocks) < WORDS - KERNEL_STACK_SIZE && 0 <= RecordAt(s.blocks) < WORDS
  {
    CreateKeeps(s);
    CreatedOwns(s.blocks, s.nextPid);
    SlotRemains(s.rows, s.nextPid, Sizes(s.blocks));
  }

  lemma RowOwns(s: Procs, k: nat, ptr: Word, kernelStack: Word)
    requires s.Valid() && k < |s.rows| && s.rows[k].Some?
    requires ptr == s.rows[k].value.ptr && kernelStack == s.rows[k].value.kernelStack
    ensures Row(0, ptr, kernelStack).Owns(Sizes(s.blocks))
  {
    assert s.rows[k].value.Owns(Sizes(s.blocks));
  }

  lemma TerminateKeeps(s: Procs, i: nat)
    requires s.Valid()
    ensures s.Terminate(i).Valid() && s.Terminate(i).Outside() == s.Outside()
  {
    if i < |s.rows| && s.rows[i].Some? {
      var t, row := s.Terminate(i), s.rows[i].value;
      FreedSizes(s.blocks, row);
      RemoveRow(s.rows, s.nextPid, Sizes(s.blocks), i);
      PointersTaken(s.rows, i);
      MinusBoth(Sizes(t.blocks), Sizes(s.blocks), AllPointers(t.rows), row.Pointers());
    }
  }

  lemma TerminateIs(s: Procs, k: nat, ptr: Word, kernelStack: Word, t: Procs)
    requires s.Valid() && k < |s.rows| && s.rows[k].Some?
    requires ptr == s.rows[k].value.ptr && kernelStack == s.rows[k].value.kernelStack
    requires t.rows == s.rows[k := None] && t.nextPid == s.nextPid && t.blocks == Freed(s.blocks, ptr, kernelStack)
    ensures t == s.Terminate(k) && t.Valid()
  {
    TerminateKeeps(s, k);
  }

  /** The blocks of a row have the same sizes in both heaps. */
  ghost predicate SameBlocks(row: Row, sizes: map<int, int>, sizes': map<int, int>) {
    forall p :: p in row.Pointers() ==> p in sizes && p in sizes' && sizes[p] == sizes'[p]
  }

  /** The rows with pids below `pid` have the sizes they had. */
  ghost predicate Unmoved(s: Procs, pid: int, sizes: map<int, int>) {
    forall i :: 0 <= i < |s.rows| && s.rows[i].Some? && s.rows[i].value.pid < pid ==>
      SameBlocks(s.rows[i].value, Sizes(s.blocks), sizes)
  }

  lemma CreateUnmoved(s: Procs, pid: int, sizes: map<int, int>)
    requires s.Valid() && pid <= s.nextPid && Unmoved(s, pid, sizes)
    ensures Unmoved(s.Create(), pid, sizes)
  {
    if s.nextPid < MAX_PROCESSES && !NoRoom(s.blocks) {
      var t, k := s.Create(), FirstEmpty(s.rows);
      CreatedOwns(s.blocks, s.nextPid);
      SlotRemains(s.rows, s.nextPid, Sizes(s.blocks));
      var row := t.rows[k].value;
      forall i | 0 <= i < |t.rows| && t.rows[i].Some? && t.rows[i].value.pid < pid
        ensures SameBlocks(t.rows[i].value, Sizes(t.blocks), sizes)
      {
        assert i != k && t.rows[i] == s.rows[i];
        SameBlocksMore(s.rows[i].value, Sizes(s.blocks), Sizes(t.blocks), sizes, row.Pointers());
      }
    }
  }

  lemma SameBlocksMore(row: Row, m: map<int, int>, m': map<int, int>, sizes: map<int, int>, gone: set<int>)
    requires SameBlocks(row, m, sizes) && m == m' - gone
    ensures SameBlocks(row, m', sizes)
  {
    forall p | p in row.Pointers() ensures p in m' && p in sizes && m'[p] == sizes[p] {
      assert p in m;
    }
  }

  lemma SameBlocksLess(row: Row, m: map<int, int>, sizes: map<int, int>, gone: set<int>)
    requires SameBlocks(row, m, sizes) && row.Pointers() !! gone
    ensures SameBlocks(row, m - gone, sizes)
  {
  }

  lemma TerminateUnmoved(s: Procs, k: nat, pid: int, sizes: map<int, int>)
    requires s.Valid() && Unmoved(s, pid, sizes)
    ensures Unmoved(s.Terminate(k), pid, sizes)
  {
    if k < |s.rows| && s.rows[k].Some? {
      var t, row := s.Terminate(k), s.rows[k].value;
      FreedSizes(s.blocks, row);
      forall i | 0 <= i < |t.rows| && t.rows[i].Some? && t.rows[i].value.pid < pid
        ensures SameBlocks(t.rows[i].value, Sizes(t.blocks), sizes)
      {
        assert i != k && t.rows[i] == s.rows[i];
        assert Separate(s.rows[if i < k then i else k].value, s.rows[if i < k then k else i].value);
        SameBlocksLess(s.rows[i].value, Sizes(s.blocks), sizes, row.Pointers());
      }
    }
  }

  datatype Event = Creation | Termination(slot: nat)

  ghost function Step(s: Procs, e: Event): (t: Procs)
    requires s.Valid()
    ensures t.Valid()
  {
    match e
    case Creation => CreateKeeps(s); s.Create()
    case Termination(slot) => TerminateKeeps(s, slot); s.Terminate(slot)
  }

  ghost function Run(s: Procs, es: seq<Event>): (t: Procs)
    requires s.Valid()
    ensures t.Valid()
    decreases |es|
  {
    if es == [] then s else Run(Step(s, es[0]), es[1..])
  }

  /** Over every run, what others have allocated stays, and so do the blocks of the earlier processes. */
  lemma {:induction false} RunKeeps(s: Procs, es: seq<Event>, pid: int, sizes: map<int, int>)
    requires s.Valid() && pid <= s.nextPid && Unmoved(s, pid, sizes)
    ensures Run(s, es).Outside() == s.Outside() && Unmoved(Run(s, es), pid, sizes)
    decreases |es|
  {
    if es != [] {
      match es[0] {
        case Creation =>
          CreateKeeps(s);
          CreateUnmoved(s, pid, sizes);
        case Termination(slot) =>
          TerminateKeeps(s, slot);
          TerminateUnmoved(s, slot, pid, sizes);
      }
      RunKeeps(Step(s, es[0]), es[1..], pid, sizes);
    }
  }

  /**
   Over any sequence of creations and terminations, with no other client of the heap: when the
   table holds again what it held at the start, the heap has the layout it had at the start.
   */
  lemma NoLeak(s: Procs, es: seq<Event>)
    requires s.Valid() && Run(s, es).rows == s.rows
    ensures Run(s, es).blocks == s.blocks
  {
    var t := Run(s, es);
    AllUnmoved(s);
    RunKeeps(s, es, s.nextPid, Sizes(s.blocks));
    forall p | p in AllPointers(s.rows)
      ensures p in Sizes(s.blocks) && p in Sizes(t.blocks) && Sizes(s.blocks)[p] == Sizes(t.blocks)[p]
    {
      var i :| 0 <= i < |s.rows| && s.rows[i].Some? && p in s.rows[i].value.Pointers();
      assert SameBlocks(t.rows[i].value, Sizes(t.blocks), Sizes(s.blocks));
    }
    SameMaps(Sizes(s.blocks), Sizes(t.blocks), AllPointers(s.rows));
    SameSizesSameLayout(s.blocks, t.blocks);
  }

  lemma AllUnmoved(s: Procs)
    requires s.Valid()
    ensures Unmoved(s, s.nextPid, Sizes(s.blocks))
  {
    forall i | 0 <= i < |s.rows| && s.rows[i].Some?
      ensures SameBlocks(s.rows[i].value, Sizes(s.blocks), Sizes(s.blocks))
    {
      assert s.rows[i].value.Owns(Sizes(s.blocks));
    }
  }

  lemma SameMaps(m: map<int, int>, m': map<int, int>, ps: set<int>)
    requires m - ps == m' - ps && forall p :: p in ps ==> p in m && p in m' && m[p] == m'[p]
    ensures m == m'
  {
    forall p | p in m ensures p in m' && m'[p] == m[p] {
      assert p in ps || p in m - ps;
    }
    forall p | p in m' ensures p in m {
      assert p in ps || p in m' - ps;
    }
  }

  // ----- pids are used up

  /** How many creations of a run succeed. */
  ghost function Successes(s: Procs, es: seq<Event>): nat
    requires s.Valid()
    decreases |es|
  {
    if es == [] then 0 else (if Step(s, es[0]).nextPid > s.nextPid then 1 else 0) + Successes(Step(s, es[0]), es[1..])
  }

  /** In no run do more creations succeed than pids are left: 63 after `process_init`, whatever is terminated. */
  lemma {:induction false} CreationsBounded(s: Procs, es: seq<Event>)
    requires s.Valid()
    ensures Run(s, es).nextPid == s.nextPid + Successes(s, es) <= MAX_PROCESSES
    decreases |es|
  {
    if es != [] {
      CreationsBounded(Step(s, es[0]), es[1..]);
    }
  }

  /** Once the pids are used up, every creation fails, in every run and however many slots are empty. */
  lemma NoMoreProcesses(s: Procs, es: seq<Event>)
    requires s.Valid() && s.nextPid == MAX_PROCESSES
    ensures Run(s, es).nextPid == MAX_PROCESSES && Run(s, es).Create() == Run(s, es)
  {
    CreationsBounded(s, es);
    CreateFails(Run(s, es));
  }

  lemma FreedAgain(bs: seq<Block>, cs: seq<Block>, ptr: int, kernelStack: int)
    requires WellFormed(bs) && !NoRoom(bs) && cs == Created(bs)
    requires ptr == RecordAt(bs) && kernelStack == StackAt(bs) + KERNEL_STACK_SIZE
    ensures Freed(cs, ptr, kernelStack) == bs
  {
    TerminateUndoesCreate(bs);
  }

  lemma CreateThenTerminate(s: Procs, k: nat)
    requires s.Valid()
    ensures Run(s, [Creation, Termination(k)]) == s.Create().Terminate(k)
  {
    var t := Step(s, Creation);
    assert [Creation, Termination(k)][1..] == [Termination(k)] && [Termination(k)][1..] == [];
    assert Run(t, [Termination(k)]) == Run(Step(t, Termination(k)), []);
  }

  lemma CreatedFields(s: Procs, k: nat)
    requires s.Valid() && s.nextPid < MAX_PROCESSES && !NoRoom(s.blocks) && k == FirstEmpty(s.rows)
    ensures k < |s.rows| && s.rows[k].None? && s.Create().rows[k].Some?
    ensures var t, row := s.Create(), s.Create().rows[k].value;
            && t.rows == s.rows[k := Some(row)] && t.blocks == Created(s.blocks) && t.nextPid == s.nextPid + 1
            && row.ptr == RecordAt(s.blocks) && row.kernelStack == StackAt(s.blocks) + KERNEL_STACK_SIZE
  {
    CreateReady(s);
  }

  /** Terminating the process of a row whose blocks give the layout back takes the row out again. */
  lemma TakenOut(rows: seq<Option<Row>>, k: nat, t: Procs, blocks: seq<Block>)
    requires k < |rows| && rows[k].None? && k < |t.rows| && t.rows[k].Some? && t.rows == rows[k := t.rows[k]]
    requires Freed(t.blocks, t.rows[k].value.ptr, t.rows[k].value.kernelStack) == blocks
    ensures t.Terminate(k) == Procs(blocks, rows, t.nextPid)
  {
    assert t.rows[k := None] == rows;
  }

  /** A creation and the termination of what it created use up a pid and nothing else. */
  lemma PidSpent(s: Procs)
    requires s.Valid() && s.nextPid < MAX_PROCESSES && !NoRoom(s.blocks)
    ensures Run(s, [Creation, Termination(FirstEmpty(s.rows))]) == s.(nextPid := s.nextPid + 1)
  {
    var k := FirstEmpty(s.rows);
    CreatedFields(s, k);
    var row := s.Create().rows[k].value;
    FreedAgain(s.blocks, s.Create().blocks, row.ptr, row.kernelStack);
    TakenOut(s.rows, k, s.Create(), s.blocks);
    CreateThenTerminate(s, k);
  }

  lemma {:induction false} RunConcat(s: Procs, es: seq<Event>, fs: seq<Event>)
    requires s.Valid()
    ensures Run(s, es + fs) == Run(Run(s, es), fs)
    decreases |es|
  {
    if es == [] {
      assert es + fs == fs;
    } else {
      assert (es + fs)[1..] == es[1..] + fs;
      RunConcat(Step(s, es[0]), es[1..], fs);
    }
  }

  /** Pids can be used up with the table as it was: from any state with room for a process. */
  lemma {:induction false} PidsUsedUp(s: Procs) returns (es: seq<Event>)
    requires s.Valid() && !NoRoom(s.blocks)
    ensures Run(s, es) == s.(nextPid := MAX_PROCESSES)
    decreases MAX_PROCESSES - s.nextPid
  {
    if s.nextPid == MAX_PROCESSES {
      return [];
    }
    PidSpent(s);
    var pair := [Creation, Termination(FirstEmpty(s.rows))];
    es := PidsUsedUp(Run(s, pair));
    RunConcat(s, pair, es);
    es := pair + es;
  }

  // ----- after `process_init` on a fresh heap

  lemma {:induction false} FirstFitLast(bs: seq<Block>, b: Block, s: int)
    requires Fits(b, s) && forall i :: 0 <= i < |bs| ==> bs[i].used
    ensures FirstFit(bs + [b], s) == |bs|
  {
    if bs != [] {
      assert (bs + [b])[1..] == bs[1..] + [b];
      FirstFitLast(bs[1..], b, s);
    }
  }

  /** With every block live but the last, an allocation comes from the last. */
  lemma MallocLast(bs: seq<Block>, b: Block, n: Word)
    requires n != 0 && Fits(b, Round(n)) && forall i :: 0 <= i < |bs| ==> bs[i].used
    ensures Malloc(bs + [b], n) == (bs + Cut(b, Round(n)), b.addr + HEADER)
  {
    FirstFitLast(bs, b, Round(n));
    var all := bs + [b];
    assert all[..|bs|] == bs && all[|bs|] == b && all[|bs| + 1..] == [];
    assert Patch(all, |bs|, |bs| + 1, Cut(b, Round(n))) == bs + Cut(b, Round(n));
  }

  /** The state `process_init` leaves: one record allocated, the idle process in slot 0. */
  function Booted(): Procs {
    Procs(Malloc(INITIAL, PROCESS_SIZE).0,
          seq(MAX_PROCESSES, i => if i == 0 then Some(Row(0, HEAP_START + HEADER, 0)) else None), 1)
  }

  lemma BootedIs(blocks: seq<Block>, rows: seq<Option<Row>>, ptr: Word)
    requires blocks == Malloc(INITIAL, PROCESS_SIZE).0 && ptr == Malloc(INITIAL, PROCESS_SIZE).1
    requires |rows| == MAX_PROCESSES && rows[0] == Some(Row(0, ptr, 0)) && forall i :: 0 < i < |rows| ==> rows[i].None?
    ensures Procs(blocks, rows, 1) == Booted()
  {
    SizesRounded();
    assert INITIAL == [] + INITIAL;
    MallocLast([], INITIAL[0], PROCESS_SIZE);
    assert ptr == HEAP_START + HEADER;
    assert rows == Booted().rows;
  }

  lemma BootedValid()
    ensures Booted().Valid() && !NoRoom(Booted().blocks)
  {
    var b := Block(HEAP_START, HEAP_SIZE - HEADER, false);
    var b1 := Block(HEAP_START + 132, HEAP_SIZE - 12 - 132, false);
    var b2 := Block(HEAP_START + 264, HEAP_SIZE - 12 - 264, false);
    var used, used1 := Block(HEAP_START, 120, true), Block(HEAP_START + 132, 120, true);
    SizesRounded();
    InitialWellFormed();
    assert INITIAL == [] + [b];
    MallocLast([], b, PROCESS_SIZE);
    assert Booted().blocks == [used] + [b1];
    MallocLast([used], b1, PROCESS_SIZE);
    assert [used] + Cut(b1, PROCESS_SIZE) == [used, used1] + [b2];
    MallocLast([used, used1], b2, KERNEL_STACK_SIZE);
    OneAdded(INITIAL, PROCESS_SIZE);
    IdleRow(Booted().rows, Sizes(Booted().blocks), HEAP_START + HEADER);
  }

  lemma BootedSlots()
    ensures forall i :: 0 < i < MAX_PROCESSES ==> Booted().rows[i].None?
  {
  }

  /** So after boot 63 creations can be spent with 63 slots empty, and then no process is created again. */
  lemma SlotsWithoutPids() returns (es: seq<Event>)
    ensures Booted().Valid() && Run(Booted(), es) == Booted().(nextPid := MAX_PROCESSES)
    ensures Successes(Booted(), es) == 63
    ensures forall i :: 0 < i < MAX_PROCESSES ==> Run(Booted(), es).rows[i].None?
    ensures forall fs :: Run(Run(Booted(), es), fs).Create() == Run(Run(Booted(), es), fs)
  {
    var s := Booted();
    BootedValid();
    es := PidsUsedUp(s);
    CreationsBounded(s, es);
    var t := Run(s, es);
    assert t.rows == s.rows;
    BootedSlots();
    forall fs ensures Run(t, fs).Create() == Run(t, fs) {
      NoMoreProcesses(t, fs);
    }
  }
}
