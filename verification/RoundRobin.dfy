/** Round-robin scheduling as a rotation, and the timer that drives it. */
module RoundRobin {
  import opened Machine

  /** The process that runs, and those that wait, first one first. */
  datatype Rotation<T> = Rotation(current: T, queue: seq<T>) {
    function Ring(): seq<T> {
      [current] + queue
    }

    /** The running process goes to the back of the queue, and the first of the queue runs. */
    function Next(): Rotation<T> {
      var q := queue + [current];
      Rotation(q[0], q[1..])
    }

    function After(n: nat): Rotation<T>
      decreases n
    {
      if n == 0 then this else Next().After(n - 1)
    }
  }

  /** `i` calls of `schedule` rotate the ring by `i` places. */
  lemma {:induction false} RotatesBy<T>(s: Rotation<T>, i: nat)
    requires i <= |s.Ring()|
    ensures s.After(i).Ring() == s.Ring()[i..] + s.Ring()[..i]
  {
    if i > 0 {
      RotatesBy(s, i - 1);
      AfterNext(s, i - 1);
      NextRing(s.After(i - 1));
      TurnedOnce(s.Ring(), i);
    }
  }

  lemma NextRing<T>(r: Rotation<T>)
    ensures r.Next().Ring() == r.Ring()[1..] + [r.Ring()[0]]
  {
    assert r.queue == r.Ring()[1..];
  }

  lemma TurnedOnce<T>(ring: seq<T>, i: nat)
    requires 0 < i <= |ring|
    ensures var r := ring[i - 1..] + ring[..i - 1]; r[1..] + [r[0]] == ring[i..] + ring[..i]
  {
  }

  lemma {:induction false} AfterNext<T>(s: Rotation<T>, n: nat)
    ensures s.After(n).Next() == s.After(n + 1)
    decreases n
  {
    if n > 0 {
      AfterNext(s.Next(), n - 1);
    }
  }

  /**
   With `n` processes waiting and none leaving, each of the `n + 1` processes is current exactly
   once in any `n + 1` consecutive states, and then the order starts over.
   */
  lemma ExactlyOnce<T>(s: Rotation<T>, p: T)
    requires p in s.Ring() && forall i, j :: 0 <= i < j < |s.Ring()| ==> s.Ring()[i] != s.Ring()[j]
    ensures exists i :: 0 <= i < |s.Ring()| && s.After(i).current == p
                        && forall j :: 0 <= j < |s.Ring()| && s.After(j).current == p ==> j == i
    ensures s.After(|s.Ring()|) == s
  {
    var n := |s.Ring()|;
    forall i: nat | i < n ensures s.After(i).current == s.Ring()[i] {
      CurrentAfter(s, i);
    }
    var i :| 0 <= i < n && s.Ring()[i] == p;
    assert s.After(i).current == p;
    FullTurn(s);
  }

  lemma CurrentAfter<T>(s: Rotation<T>, i: nat)
    requires i < |s.Ring()|
    ensures s.After(i).current == s.Ring()[i]
  {
    RotatesBy(s, i);
    assert s.After(i).Ring()[0] == s.Ring()[i];
  }

  lemma FullTurn<T>(s: Rotation<T>)
    ensures s.After(|s.Ring()|) == s
  {
    var r := s.After(|s.Ring()|);
    RotatesBy(s, |s.Ring()|);
    assert r.Ring() == s.Ring();
    SameRing(r, s);
  }

  lemma SameRing<T>(r: Rotation<T>, s: Rotation<T>)
    requires r.Ring() == s.Ring()
    ensures r == s
  {
    assert r.current == r.Ring()[0] && r.queue == r.Ring()[1..];
    assert s.current == s.Ring()[0] && s.queue == s.Ring()[1..];
  }

  // ----- the timer

  const SLICE := 10     // ticks between calls of `schedule`

  datatype Clock<T> = Clock(ticks: Word, rotation: Rotation<T>) {
    /** `timer_callback`: count in 32 bits, and schedule at every multiple of ten. */
    function Tick(): Clock<T> {
      var t := Wrap(ticks + 1);
      Clock(t, if t % SLICE == 0 then rotation.Next() else rotation)
    }

    function Ticks(n: nat): Clock<T>
      decreases n
    {
      if n == 0 then this else Tick().Ticks(n - 1)
    }
  }

  /** Ticks until the next call of `schedule`: to the next multiple of ten, or to the wrap of the counter. */
  function UntilSwitch(t: Word): (d: nat)
    ensures 1 <= d <= SLICE
  {
    var d := SLICE - t % SLICE;
    if t + d < WORDS then d else WORDS - t
  }

  lemma OneTick<T>(s: Clock<T>)
    ensures UntilSwitch(s.ticks) == 1 ==> s.Tick().rotation == s.rotation.Next()
    ensures UntilSwitch(s.ticks) > 1 ==> s.Tick().rotation == s.rotation
    ensures UntilSwitch(s.ticks) > 1 ==> UntilSwitch(s.Tick().ticks) == UntilSwitch(s.ticks) - 1
  {
  }

  /** Nothing is rescheduled before the switch, and one rotation happens at it. */
  lemma {:induction false} SwitchAfter<T>(s: Clock<T>, d: nat)
    requires d <= UntilSwitch(s.ticks)
    ensures s.Ticks(d).rotation == if d < UntilSwitch(s.ticks) then s.rotation else s.rotation.Next()
    decreases d
  {
    if d > 0 {
      OneTick(s);
      if UntilSwitch(s.ticks) > 1 {
        SwitchAfter(s.Tick(), d - 1);
      }
    }
  }

  /** A slice is ten ticks, except the one in which the counter wraps: it is six. */
  lemma SliceLength(t: Word)
    requires t % SLICE == 0
    ensures UntilSwitch(t) == SLICE <==> t + SLICE < WORDS
    ensures t + SLICE >= WORDS ==> UntilSwitch(t) == 6
  {
  }

  lemma {:induction false} TicksAdd<T>(s: Clock<T>, m: nat, n: nat)
    ensures s.Ticks(m + n) == s.Ticks(m).Ticks(n)
    decreases m
  {
    if m > 0 {
      TicksAdd(s.Tick(), m - 1, n);
    }
  }

  lemma WrapStep(t: Word, n: nat)
    ensures Wrap(Wrap(t + 1) + n) == Wrap(t + (n + 1))
  {
  }

  /** The counter counts every tick, in 32 bits. */
  lemma {:induction false} TicksCounted<T>(s: Clock<T>, n: nat)
    ensures s.Ticks(n).ticks == Wrap(s.ticks + n)
    decreases n
  {
    if n > 0 {
      TicksCounted(s.Tick(), n - 1);
      WrapStep(s.ticks, n - 1);
    }
  }

  /** How often a 32-bit counter was a multiple of ten in the `n` ticks after it was 0. */
  function Tens(n: nat): nat {
    n / WORDS * 429496730 + n % WORDS / 10
  }

  lemma TensBelow(n: nat)
    requires n < WORDS
    ensures Tens(n) == n / 10
  {
  }

  lemma OneWrapMore(n: nat)
    ensures (n + WORDS) / WORDS == n / WORDS + 1 && (n + WORDS) % WORDS == n % WORDS
  {
  }

  lemma TensWrapped(n: nat)
    ensures Tens(n + WORDS) == Tens(n) + 429496730
  {
    OneWrapMore(n);
  }

  lemma NextTen(t: Word)
    requires t + 1 < WORDS
    ensures Tens(t + 1) == if (t + 1) % 10 == 0 then Tens(t) + 1 else Tens(t)
  {
    TensBelow(t);
    TensBelow(t + 1);
  }

  lemma WrapUp(t: Word)
    ensures Wrap(t + 1) == if t + 1 < WORDS then t + 1 else 0
  {
  }

  /** One tick less to go: the tens still to come, less the one that the tick reaches. */
  lemma TensStep(t: Word, n: nat, u: Word)
    requires u == Wrap(t + 1)
    ensures Tens(u + n) - Tens(u) == Tens(t + n + 1) - Tens(t) - (if u % 10 == 0 then 1 else 0)
  {
    WrapUp(t);
    if t + 1 < WORDS {
      NextTen(t);
      assert u + n == t + n + 1;
    } else {
      TensBelow(t);
      TensBelow(0);
      TensWrapped(n);
      assert t + n + 1 == n + WORDS;
    }
  }

  lemma {:induction false} TensGrow(t: Word, n: nat)
    ensures Tens(t + n) >= Tens(t)
    decreases n
  {
    if n > 0 {
      TensGrow(Wrap(t + 1), n - 1);
      TensStep(t, n - 1, Wrap(t + 1));
    }
  }

  /** After any number of ticks, the ring has turned once for every multiple of ten the counter has reached. */
  lemma {:induction false} TurnsInTicks<T>(s: Clock<T>, n: nat)
    ensures Tens(s.ticks + n) >= Tens(s.ticks)
    ensures s.Ticks(n).rotation == s.rotation.After(Tens(s.ticks + n) - Tens(s.ticks))
    decreases n
  {
    TensGrow(s.ticks, n);
    if n > 0 {
      var u := s.Tick();
      TurnsInTicks(u, n - 1);
      var k := Tens(u.ticks + (n - 1)) - Tens(u.ticks);
      TensStep(s.ticks, n - 1, u.ticks);
      TurnsMore(s, n, k, Tens(s.ticks + n) - Tens(s.ticks));
    }
  }

  lemma TurnsMore<T>(s: Clock<T>, n: nat, k: nat, m: nat)
    requires n > 0 && s.Tick().Ticks(n - 1).rotation == s.Tick().rotation.After(k)
    requires m == if s.Tick().ticks % 10 == 0 then k + 1 else k
    ensures s.Ticks(n).rotation == s.rotation.After(m)
  {
  }

  /** From any counter value, the process at queue position `k` runs after at most ten times `k + 1` ticks. */
  lemma {:induction false} BoundedWait<T>(s: Clock<T>, k: nat) returns (n: nat)
    requires k < |s.rotation.queue|
    ensures 1 <= n <= SLICE * (k + 1)
    ensures s.Ticks(n).rotation.current == s.rotation.queue[k]
    decreases k
  {
    n := UntilSwitch(s.ticks);
    SwitchAfter(s, n);
    if k > 0 {
      var m := BoundedWait(s.Ticks(n), k - 1);
      TicksAdd(s, n, m);
      n := n + m;
    }
  }

  // ----- arrivals

  /** A timer interrupt, or `enqueue_process` of a process. */
  datatype Event<T> = Tick | Arrive(proc: T)

  function Step<T>(s: Clock<T>, e: Event<T>): Clock<T> {
    match e
    case Tick => s.Tick()
    case Arrive(p) => s.(rotation := s.rotation.(queue := s.rotation.queue + [p]))
  }

  function Run<T>(s: Clock<T>, es: seq<Event<T>>): Clock<T>
    decreases |es|
  {
    if es == [] then s else Run(Step(s, es[0]), es[1..])
  }

  function TickCount<T>(es: seq<Event<T>>): nat {
    if es == [] then 0 else (if es[0].Tick? then 1 else 0) + TickCount(es[1..])
  }

  /** What one event does to the process at queue position `k`, and to the ticks it has left to wait. */
  lemma OneEvent<T>(s: Clock<T>, e: Event<T>, k: nat)
    requires k < |s.rotation.queue|
    ensures var t, d := Step(s, e), UntilSwitch(s.ticks);
            if e.Arrive? then
              k < |t.rotation.queue| && t.rotation.queue[k] == s.rotation.queue[k] && UntilSwitch(t.ticks) == d
            else if d > 1 then t.rotation == s.rotation && UntilSwitch(t.ticks) == d - 1
            else if k == 0 then t.rotation.current == s.rotation.queue[0]
            else k - 1 < |t.rotation.queue| && t.rotation.queue[k - 1] == s.rotation.queue[k]
  {
    OneTick(s);
  }

  lemma {:induction false} WaitAmongArrivals<T>(s: Clock<T>, es: seq<Event<T>>, k: nat) returns (n: nat)
    requires k < |s.rotation.queue| && TickCount(es) >= UntilSwitch(s.ticks) + SLICE * k
    ensures 1 <= n <= |es| && 1 <= TickCount(es[..n]) <= UntilSwitch(s.ticks) + SLICE * k
    ensures Run(s, es[..n]).rotation.current == s.rotation.queue[k]
    decreases |es|
  {
    var e, t := es[0], Step(s, es[0]);
    OneEvent(s, e, k);
    if e.Tick? && UntilSwitch(s.ticks) == 1 && k == 0 {
      n := 1;
    } else {
      n := WaitAmongArrivals(t, es[1..], if e.Tick? && UntilSwitch(s.ticks) == 1 then k - 1 else k);
      n := n + 1;
    }
    PrefixRun(s, es, n);
  }

  lemma PrefixRun<T>(s: Clock<T>, es: seq<Event<T>>, n: nat)
    requires 1 <= n <= |es|
    ensures Run(s, es[..n]) == Run(Step(s, es[0]), es[1..][..n - 1])
    ensures TickCount(es[..n]) == (if es[0].Tick? then 1 else 0) + TickCount(es[1..][..n - 1])
  {
    assert es[..n][1..] == es[1..][..n - 1];
  }

  /**
   Whatever arrives between the ticks, the process at queue position `k` runs after at most ten
   times `k + 1` of them: arrivals go behind it.
   */
  lemma BoundedWaitWithArrivals<T>(s: Clock<T>, es: seq<Event<T>>, k: nat) returns (n: nat)
    requires k < |s.rotation.queue| && TickCount(es) >= SLICE * (k + 1)
    ensures n <= |es| && 1 <= TickCount(es[..n]) <= SLICE * (k + 1)
    ensures Run(s, es[..n]).rotation.current == s.rotation.queue[k]
  {
    n := WaitAmongArrivals(s, es, k);
  }
}
