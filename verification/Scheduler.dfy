/** The scheduler: a linked ready queue, round robin, and the timer interrupt that drives it. */
module Scheduler {
  import opened Machine
  import opened Processes
  import opened RoundRobin

  class Scheduler {
    const procs: ProcessTable          // process_table and current_process
    var head: Process?
    var tail: Process?
    ghost var queue: seq<Process>

    /** The links from `head` to `tail` spell out `queue`, in which no process occurs twice. */
    ghost predicate Linked()
      reads this, queue
    {
      && head == (if queue == [] then null else queue[0])
      && tail == (if queue == [] then null else queue[|queue| - 1])
      && (forall i :: 0 <= i < |queue| - 1 ==> queue[i].next == queue[i + 1])
      && (tail != null ==> tail.next == null)
      && (forall i, j :: 0 <= i < j < |queue| ==> queue[i] != queue[j])
    }

    /** One process runs, and it is not queued; the queued ones are ready. */
    ghost predicate Running()
      reads this, procs, procs.current, queue
    {
      && Linked()
      && procs.current != null && procs.current.state == State.Running && procs.current !in queue
      && AllReady()
    }

    ghost predicate AllReady()
      reads this, queue
    {
      forall i :: 0 <= i < |queue| ==> queue[i].state == Ready
    }

    ghost function View(): Rotation<Process>
      reads this, procs
      requires procs.current != null
    {
      Rotation(procs.current, queue)
    }

    /** The processes that take turns are all different, which is what `ExactlyOnce` asks for. */
    lemma TurnsDiffer()
      requires Running()
      ensures forall i, j :: 0 <= i < j < |View().Ring()| ==> View().Ring()[i] != View().Ring()[j]
    {
      assert forall i :: 0 < i < |View().Ring()| ==> View().Ring()[i] == queue[i - 1];
    }

    constructor (procs: ProcessTable)
      ensures this.procs == procs && Linked() && queue == []
    {
      this.procs := procs;
      head := null;
      tail := null;
      queue := [];
    }

    /** A ready process that is added while another runs arrives in the rotation, whatever the clock says. */
    method Enqueue(proc: Process?)
      requires Linked()
      requires proc != null ==> proc !in queue
      modifies this, if proc == null then {} else {proc}`next, queue`next
      ensures Linked()
      ensures queue == if proc == null then old(queue) else old(queue) + [proc]
      ensures proc != null && old(Running()) && proc != procs.current && proc.state == Ready ==>
                Running() && forall t: Word :: Clock(t, View()) == Step(Clock(t, old(View())), Arrive(proc))
    {
      if proc == null {
        return;
      }
      proc.next := null;
      if head == null {
        head := proc;
        tail := proc;
      } else {
        tail.next := proc;
        tail := proc;
      }
      queue := queue + [proc];
    }

    method Dequeue() returns (proc: Process?)
      requires Linked()
      modifies this, queue`next
      ensures Linked()
      ensures if old(queue) == [] then proc == null && queue == []
              else proc == old(queue)[0] && queue == old(queue)[1..] && proc.next == null
    {
      if head == null {
        return null;
      }
      ghost var q := queue;
      assert |q| > 1 ==> q[0].next == q[1];
      proc := head;
      head := head.next;
      if head == null {
        tail := null;
      }
      proc.next := null;
      queue := queue[1..];
      assert forall i :: 0 <= i < |queue| ==> queue[i] == q[i + 1] && q[i + 1] != q[0];
    }

    /** The first process with pid 0 from slot `i` of the table on, or null. */
    ghost function Idle(i: nat): Process?
      reads procs, procs.table, procs.table[..]
      decreases procs.table.Length - i
    {
      if i >= procs.table.Length then null
      else if procs.table[i] != null && procs.table[i].pid == 0 then procs.table[i]
      else Idle(i + 1)
    }

    /** It is the first entry with pid 0, and null when there is none. */
    lemma {:induction false} IdleIsFirst(i: nat)
      ensures Idle(i) == null <==> forall j :: i <= j < procs.table.Length ==> !HasPidZero(j)
      ensures Idle(i) != null ==> exists j :: i <= j < procs.table.Length && procs.table[j] == Idle(i) && HasPidZero(j)
                                              && forall k :: i <= k < j ==> !HasPidZero(k)
      decreases procs.table.Length - i
    {
      if i < procs.table.Length && !HasPidZero(i) {
        IdleIsFirst(i + 1);
      }
    }

    ghost predicate HasPidZero(j: int)
      reads procs, procs.table, procs.table[..]
      requires 0 <= j < procs.table.Length
    {
      procs.table[j] != null && procs.table[j].pid == 0
    }

    method FindIdle() returns (idle: Process?)
      ensures idle == Idle(0)
      ensures idle != null ==> idle in procs.table[..]
    {
      var i := 0;
      while i < procs.table.Length
        invariant 0 <= i <= procs.table.Length
        invariant Idle(0) == Idle(i)
      {
        if procs.table[i] != null && procs.table[i].pid == 0 {
          return procs.table[i];
        }
        i := i + 1;
      }
      return null;
    }

    /** The first part of `schedule`: the running process is made ready and queued. */
    method Preempt(current: Process)
      requires Linked() && current !in queue
      modifies this, current`state, current`next, queue`next
      ensures Linked() && queue == old(queue) + [current] && current.state == Ready
      ensures old(AllReady()) ==> AllReady()
    {
      current.state := Ready;
      Enqueue(current);
    }

    /** Who runs next: the first of the queue, the idle process when it is empty, or else the current one. */
    ghost function First(): Process
      reads this, procs, procs.table, procs.table[..]
      requires procs.current != null
    {
      if queue != [] then queue[0] else if Idle(0) != null then Idle(0) else procs.current
    }

    /** The rest of `schedule`. */
    method Dispatch()
      requires Linked() && procs.current != null
      modifies this, procs`current, First()`state, queue`next
      ensures Linked() && queue == Rest(old(queue)) && procs.current == old(First())
      ensures procs.current.state
              == if old(queue) == [] && old(Idle(0)) == null then old(procs.current.state) else State.Running
      ensures old(AllReady()) && old(queue) != [] ==> AllReady() && procs.current !in queue
    {
      var idle := FindIdle();
      var next := Dequeue();
      if next == null {
        next := idle;
      }
      if next == null {
        return;
      }
      next.state := State.Running;
      procs.current := next;
    }

    /** The queue when the next process is chosen: a running process is in it, behind the others. */
    ghost function Candidates(): seq<Process>
      reads this, procs, procs.current
      requires procs.current != null
    {
      if procs.current.state == State.Running then queue + [procs.current] else queue
    }

    /** Who runs next: the first candidate, the idle process when there is none, or else the current one. */
    ghost function Upcoming(): Process
      reads this, procs, procs.current, procs.table, procs.table[..]
      requires procs.current != null
    {
      if Candidates() != [] then Candidates()[0] else if Idle(0) != null then Idle(0) else procs.current
    }

    /**
     With processes waiting the first of them runs next; with none, a running process goes on; and
     one that is not running gives way to an entry of the table with pid 0, if there is one.
     */
    lemma UpcomingChoice()
      requires procs.current != null
      ensures queue != [] ==> Upcoming() == queue[0]
      ensures queue == [] && procs.current.state == State.Running ==> Upcoming() == procs.current
      ensures queue == [] && procs.current.state != State.Running ==>
                if exists j :: 0 <= j < procs.table.Length && HasPidZero(j)
                then Upcoming().pid == 0 && Upcoming() in procs.table[..] else Upcoming() == procs.current
    {
      IdleIsFirst(0);
    }

    /** The processes whose state a call of `schedule` may change. */
    ghost function Switched(): set<Process>
      reads this, procs, procs.current, procs.table, procs.table[..]
    {
      if procs.current == null then {} else {procs.current, Upcoming()}
    }

    /**
     A running process is queued behind the others; then the first of the queue runs, or the idle
     process when there is none.  With no process to run, the current one stays.
     */
    method Schedule()
      requires Linked()
      requires procs.current != null && procs.current.state == State.Running ==> procs.current !in queue
      modifies this, procs`current, Switched()`state, Switched()`next, queue`next
      ensures Linked()
      ensures old(procs.current) == null ==> procs.current == null && queue == old(queue)
      ensures old(procs.current) != null ==>
                procs.current == old(Upcoming()) && queue == Rest(old(Candidates()))
      ensures old(procs.current) != null ==>
                procs.current.state
                == if old(Candidates()) == [] && old(Idle(0)) == null then old(procs.current.state) else State.Running
      ensures old(procs.current) != null && procs.current != old(procs.current) ==>
                old(procs.current).state
                == if old(procs.current.state) == State.Running then Ready else old(procs.current.state)
      ensures old(Running()) ==> Running() && View() == old(View()).Next()
    {
      if procs.current == null {
        return;
      }
      if procs.current.state == State.Running {
        Preempt(procs.current);
      }
      Dispatch();
    }
  }

  function Rest<T>(q: seq<T>): seq<T> {
    if q == [] then [] else q[1..]
  }

  class Timer {
    const scheduler: Scheduler
    var systemTicks: Word

    constructor (scheduler: Scheduler)
      ensures this.scheduler == scheduler && systemTicks == 0
    {
      this.scheduler := scheduler;
      systemTicks := 0;
    }

    ghost function View(): Clock<Process>
      reads this, scheduler, scheduler.procs
      requires scheduler.procs.current != null
    {
      Clock(systemTicks, scheduler.View())
    }

    method TimerCallback()
      requires scheduler.Running()
      modifies this, scheduler, scheduler.procs`current
      modifies scheduler.Switched()`state, scheduler.Switched()`next, scheduler.queue`next
      ensures scheduler.Running()
      ensures View() == old(View()).Tick()
      ensures systemTicks == Wrap(old(systemTicks) + 1)
    {
      systemTicks := Wrap(systemTicks + 1);
      assert scheduler.Running() && scheduler.View() == old(scheduler.View());
      if systemTicks % 10 == 0 {
        scheduler.Schedule();
      }
    }
  }
}
