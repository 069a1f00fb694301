/** The process table: records and stacks from the kernel heap, pids and slots. */
module Processes {
  import opened Machine
  import opened HeapLayout
  import opened HeapTheory
  import opened Heap
  import opened ProcessRows

  datatype State = Ready | Running | Blocked | Terminated

  /** A `process_t`, without its name, saved registers and time counters. */
  class Process {
    const ptr: Word              // address of the record in the heap
    var pid: Word
    var state: State
    var kernelStack: Word        // end of the stack; 0 when the process has none
    var next: Process?

    constructor (ptr: Word, pid: Word, state: State, kernelStack: Word)
      ensures this.ptr == ptr && this.pid == pid && this.state == state
      ensures this.kernelStack == kernelStack && next == null
    {
      this.ptr := ptr;
      this.pid := pid;
      this.state := state;
      this.kernelStack := kernelStack;
      next := null;
    }
  }

  // ----- the operations

  class ProcessTable {
    const table: array<Process?>
    const heap: KernelHeap
    var nextPid: Word
    var current: Process?

    ghost function RowAt(i: int): Option<Row>
      reads table, table[..]
      requires 0 <= i < table.Length
    {
      if table[i] == null then None else Some(Row(table[i].pid, table[i].ptr, table[i].kernelStack))
    }

    ghost function Rows(): seq<Option<Row>>
      reads table, table[..]
    {
      seq(table.Length, i requires 0 <= i < table.Length reads table, table[..] => RowAt(i))
    }

    ghost function View(): Procs
      reads this, table, table[..], heap
    {
      Procs(heap.blocks, Rows(), nextPid)
    }

    ghost predicate Valid()
      reads this, table, table[..], heap, heap.mem
    {
      heap.Valid() && View().Valid()
    }

    /** `process_init`, with `next_pid` still 0; it does not check that its allocation succeeds. */
    constructor (table: array<Process?>, heap: KernelHeap)
      requires table.Length == MAX_PROCESSES && heap.Valid() && Malloc(heap.blocks, PROCESS_SIZE).1 != 0
      modifies table, heap, heap.mem
      ensures this.table == table && this.heap == heap && Valid()
      ensures heap.blocks == Malloc(old(heap.blocks), PROCESS_SIZE).0
      ensures current != null && fresh(current) && current.pid == 0 && current.state == Running && nextPid == 1
      ensures current.ptr == Malloc(old(heap.blocks), PROCESS_SIZE).1
      ensures current.kernelStack == 0 && current.next == null
      ensures old(heap.blocks) == INITIAL ==> View() == Booted()
      ensures table[0] == current && forall i :: 0 < i < MAX_PROCESSES ==> table[i] == null
    {
      this.table := table;
      this.heap := heap;
      nextPid := 0;
      current := null;
      new;
      ClearTable();
      var ptr := AcquireIdle(heap);
      EnrolIdle(ptr);
      IdleRow(Rows(), Sizes(heap.blocks), ptr);
      if old(heap.blocks) == INITIAL {
        BootedIs(heap.blocks, Rows(), ptr);
      }
    }

    /** The idle process takes the first pid and slot 0 of the cleared table. */
    method EnrolIdle(ptr: Word)
      requires table.Length == MAX_PROCESSES && nextPid == 0
      requires forall i :: 0 <= i < MAX_PROCESSES ==> table[i] == null
      modifies this`current, this`nextPid, table
      ensures current != null && fresh(current) && current.pid == 0 && current.state == Running && nextPid == 1
      ensures current.ptr == ptr && current.kernelStack == 0 && current.next == null
      ensures table[0] == current && forall i :: 0 < i < MAX_PROCESSES ==> table[i] == null
      ensures |Rows()| == MAX_PROCESSES && Rows()[0] == Some(Row(0, ptr, 0))
      ensures forall i :: 0 < i < MAX_PROCESSES ==> Rows()[i].None?
    {
      current := new Process(ptr, nextPid, Running, 0);
      nextPid := nextPid + 1;
      table[0] := current;
    }

    method ClearTable()
      requires table.Length == MAX_PROCESSES
      modifies table
      ensures forall j :: 0 <= j < MAX_PROCESSES ==> table[j] == null
    {
      for i := 0 to MAX_PROCESSES
        invariant forall j :: 0 <= j < i ==> table[j] == null
      {
        table[i] := null;
      }
    }

    method Create() returns (proc: Process?)
      requires Valid()
      modifies this`nextPid, table, heap, heap.mem
      ensures Valid()
      ensures proc == null <==> old(nextPid) >= MAX_PROCESSES || NoRoom(old(heap.blocks))
      ensures proc == null ==>
                heap.blocks == old(heap.blocks) && table[..] == old(table[..]) && nextPid == old(nextPid)
      ensures proc != null ==>
                && fresh(proc) && proc.state == Ready && proc.next == null
                && proc.pid == old(nextPid) && nextPid == old(nextPid) + 1
                && heap.blocks == Created(old(heap.blocks))
                && proc.ptr == RecordAt(old(heap.blocks))
                && proc.kernelStack - KERNEL_STACK_SIZE == StackAt(old(heap.blocks))
      ensures proc != null ==> InsertedFirst(old(table[..]), table[..], proc)
      ensures View() == old(View()).Create()
    {
      ghost var was := View();
      if nextPid >= MAX_PROCESSES {
        CreateFails(was);
        return null;
      }
      var ptr, stack := Acquire(heap);
      if stack == 0 {
        CreateFails(was);
        return null;
      }
      CreateReady(was);
      assert Rows() == was.rows;
      ghost var row := Row(nextPid, ptr, stack + KERNEL_STACK_SIZE);
      proc := Enrol(ptr, stack, was.rows, row);
      CreateSucceeds(was, row, View());
    }

    /** The second half of `process_create`: fill in the record and give it a slot. */
    method Enrol(ptr: Word, stack: Word, ghost rows: seq<Option<Row>>, ghost row: Row) returns (proc: Process)
      requires rows == Rows() && |rows| == MAX_PROCESSES && FirstEmpty(rows) < |rows|
      requires nextPid < MAX_PROCESSES && stack < WORDS - KERNEL_STACK_SIZE
      requires row == Row(nextPid, ptr, stack + KERNEL_STACK_SIZE)
      modifies this`nextPid, table
      ensures Rows() == rows[FirstEmpty(rows) := Some(row)] && nextPid == old(nextPid) + 1
      ensures fresh(proc) && proc.state == Ready && proc.next == null
      ensures proc.pid == row.pid && proc.ptr == row.ptr && proc.kernelStack == row.kernelStack
      ensures InsertedFirst(old(table[..]), table[..], proc)
    {
      proc := new Process(ptr, nextPid, Ready, stack + KERNEL_STACK_SIZE);
      assert Rows() == rows;
      Place(proc);
      nextPid := nextPid + 1;
    }

    /** First empty slot, as the loop of `process_create` finds it. */
    method Place(p: Process)
      requires table.Length == MAX_PROCESSES && FirstEmpty(Rows()) < MAX_PROCESSES
      modifies table
      ensures InsertedFirst(old(table[..]), table[..], p)
      ensures Rows() == old(Rows())[FirstEmpty(old(Rows())) := Some(Row(p.pid, p.ptr, p.kernelStack))]
    {
      ghost var rows := Rows();
      var i := 0;
      while i < MAX_PROCESSES && table[i] != null
        invariant 0 <= i <= FirstEmpty(rows)
        invariant table[..] == old(table[..])
        invariant forall j :: 0 <= j < i ==> table[j] != null
      {
        assert rows[i].Some?;
        i := i + 1;
      }
      assert rows[i].None?;
      table[i] := p;
      assert table[..] == old(table[..])[i := p];
      assert Rows() == rows[i := Some(Row(p.pid, p.ptr, p.kernelStack))];
    }

    /** `proc` is null or in the table. */
    method Terminate(proc: Process?)
      requires Valid()
      requires proc != null ==> proc in table[..]
      modifies if proc == null then {} else {proc}, table, heap, heap.mem
      ensures Valid()
      ensures proc == null ==> heap.blocks == old(heap.blocks) && table[..] == old(table[..])
      ensures proc != null ==>
                && proc.state == Terminated && proc.pid == old(proc.pid)
                && heap.blocks == Freed(old(heap.blocks), proc.ptr, old(proc.kernelStack))
      ensures proc != null ==>
                exists i ::
                  && 0 <= i < MAX_PROCESSES && old(table[i]) == proc && table[..] == old(table[..])[i := null]
                  && View() == old(View()).Terminate(i)
    {
      if proc == null {
        return;
      }
      ghost var was := View();
      ghost var slot := RemoveFromTable(proc);
      var ptr, stack := proc.ptr, proc.kernelStack;
      RowOwns(was, slot, ptr, stack);
      GiveBack(heap, ptr, stack);
      assert heap.blocks == Freed(was.blocks, ptr, stack);
      TerminateIs(was, slot, ptr, stack, View());
    }

    /** The process is marked terminated and the first slot that holds it is emptied. */
    method RemoveFromTable(proc: Process) returns (ghost slot: int)
      requires table.Length == MAX_PROCESSES && proc in table[..]
      modifies proc`state, table
      ensures proc.state == Terminated
      ensures 0 <= slot < MAX_PROCESSES && old(table[slot]) == proc
      ensures table[..] == old(table[..])[slot := null]
      ensures Rows() == old(Rows())[slot := None]
    {
      ghost var rows := Rows();
      proc.state := Terminated;
      var i := 0;
      while table[i] != proc
        invariant 0 <= i < MAX_PROCESSES && proc in table[i..]
        invariant table[..] == old(table[..])
        decreases MAX_PROCESSES - i
      {
        i := i + 1;
      }
      table[i] := null;
      slot := i;
      assert Rows() == rows[i := None];
    }
  }

  /** `after` is `before` with `p` in the first empty slot. */
  ghost predicate InsertedFirst(before: seq<Process?>, after: seq<Process?>, p: Process) {
    exists i ::
      && 0 <= i < |before| && before[i] == null && after == before[i := p]
      && forall j :: 0 <= j < i ==> before[j] != null
  }

  /** The allocation of `process_init`. */
  method AcquireIdle(heap: KernelHeap) returns (ptr: Word)
    requires heap.Valid() && Malloc(heap.blocks, PROCESS_SIZE).1 != 0
    modifies heap, heap.mem
    ensures heap.Valid() && heap.blocks == Malloc(old(heap.blocks), PROCESS_SIZE).0
    ensures ptr == Malloc(old(heap.blocks), PROCESS_SIZE).1
    ensures Row(0, ptr, 0).Owns(Sizes(heap.blocks))
  {
    MallocSizes(heap.blocks, PROCESS_SIZE);
    ptr := heap.KMalloc(PROCESS_SIZE);
  }

  /** `kfree` of an allocated pointer. */
  method FreeAllocated(heap: KernelHeap, p: int)
    requires heap.Valid() && p in Sizes(heap.blocks)
    modifies heap, heap.mem
    ensures heap.Valid() && heap.blocks == Free(old(heap.blocks), p)
    ensures Sizes(heap.blocks) == Sizes(old(heap.blocks)) - {p}
  {
    AllocatedInside(heap.blocks, p);
    FreeSizes(heap.blocks, p);
    heap.KFree(p);
  }

  /** The allocations of `process_create`: record and stack, or neither. */
  method Acquire(heap: KernelHeap) returns (ptr: Word, stack: Word)
    requires heap.Valid()
    modifies heap, heap.mem
    ensures heap.Valid()
    ensures stack == 0 <==> NoRoom(old(heap.blocks))
    ensures stack == 0 ==> heap.blocks == old(heap.blocks)
    ensures stack != 0 ==> heap.blocks == Created(old(heap.blocks))
    ensures stack != 0 ==> ptr == RecordAt(old(heap.blocks)) && stack == StackAt(old(heap.blocks))
  {
    ghost var bs := heap.blocks;
    MallocEffect(bs, PROCESS_SIZE);
    ptr := heap.KMalloc(PROCESS_SIZE);
    if ptr == 0 {
      return 0, 0;
    }
    ghost var bs1 := heap.blocks;
    MallocEffect(bs1, KERNEL_STACK_SIZE);
    stack := heap.KMalloc(KERNEL_STACK_SIZE);
    if stack == 0 {
      MallocSizes(bs, PROCESS_SIZE);
      FreeUndoesMalloc(bs, PROCESS_SIZE);
      FreeAllocated(heap, ptr);
    }
  }

  /** The frees of `process_terminate`: the stack, if any, and then the record. */
  method GiveBack(heap: KernelHeap, ptr: Word, kernelStack: Word)
    requires heap.Valid() && Row(0, ptr, kernelStack).Owns(Sizes(heap.blocks))
    modifies heap, heap.mem
    ensures heap.Valid()
    ensures heap.blocks == Freed(old(heap.blocks), ptr, kernelStack)
    ensures Sizes(heap.blocks) == Sizes(old(heap.blocks)) - Row(0, ptr, kernelStack).Pointers()
  {
    ghost var bs := heap.blocks;
    if kernelStack != 0 {
      FreeAllocated(heap, kernelStack - KERNEL_STACK_SIZE);
    }
    ghost var bs1 := heap.blocks;
    FreeAllocated(heap, ptr);
    FreedInSteps(bs, ptr, kernelStack, bs1, heap.blocks);
    FreedSizes(bs, Row(0, ptr, kernelStack));
  }
}
