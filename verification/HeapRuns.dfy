/** What clients see of the heap over whole runs: a payload keeps what was stored in it until it is freed. */
module HeapRuns {
  import opened Machine
  import opened HeapLayout
  import opened HeapTheory
  import opened HeapWords

  /** The words of the heap, and the layout they store. */
  datatype Memory = Memory(words: seq<Word>, blocks: seq<Block>) {
    ghost predicate Valid() {
      WellFormed(blocks) && Stored(words, blocks)
    }
  }

  datatype Event =
    | Allocate(n: Word)
    | Give(p: int)                           // kfree(p)
    | Put(b: Block, k: nat, v: Word)         // a client stores v in word k of the block it holds

  /** `kfree` is defined for null and for payloads of blocks of the heap, used or already freed. */
  predicate Legal(bs: seq<Block>, p: int) {
    p == 0 || Find(bs, p - HEADER) < |bs|
  }

  /** One call or one store, as the heap promises it: `kmalloc` and `kfree` write no live payload. */
  ghost predicate Follows(m: Memory, e: Event, m': Memory) {
    && m'.Valid()
    && match e
       case Allocate(n) => m'.blocks == Malloc(m.blocks, n).0 && Kept(Live(m.blocks), m.words, m'.words)
       case Give(p) => Legal(m.blocks, p) && m'.blocks == Free(m.blocks, p) && Kept(Live(m.blocks), m.words, m'.words)
       case Put(b, k, v) =>
         && b in Live(m.blocks) && InPayload(b, k) && k < |m.words|
         && m' == m.(words := m.words[k := v])
  }

  lemma Allocated(m: Memory, n: Word, m': Memory)
    requires m'.Valid() && m'.blocks == Malloc(m.blocks, n).0 && Kept(Live(m.blocks), m.words, m'.words)
    ensures Follows(m, Allocate(n), m')
  {
  }

  /** `ms` are the states before, between and after the events. */
  ghost predicate Runs(ms: seq<Memory>, es: seq<Event>) {
    && |ms| == |es| + 1 && ms[0].Valid()
    && forall i :: 0 <= i < |es| ==> Follows(ms[i], es[i], ms[i + 1])
  }

  /** The value last stored in word `k`, or `v` if there was none. */
  function LastStored(v: Word, es: seq<Event>, k: int): Word {
    if es == [] then v
    else
      var e := es[|es| - 1];
      if e.Put? && e.k == k then e.v else LastStored(v, es[..|es| - 1], k)
  }

  /** A block stays live across every event but its own free. */
  lemma StaysLive(m: Memory, e: Event, m': Memory, b: Block)
    requires m.Valid() && Follows(m, e, m') && b in Live(m.blocks) && e != Give(b.addr + HEADER)
    ensures b in Live(m'.blocks)
  {
    match e {
      case Allocate(n) => MallocEffect(m.blocks, n);
      case Give(p) => FreeEffect(m.blocks, p);
      case Put(_, _, _) =>
    }
  }

  /** A word of a live payload changes only when it is stored to. */
  lemma WordAfter(m: Memory, e: Event, m': Memory, b: Block, k: int)
    requires m.Valid() && Follows(m, e, m') && b in Live(m.blocks) && InPayload(b, k)
    ensures 0 <= k < |m.words| && |m'.words| == |m.words|
    ensures m'.words[k] == if e.Put? && e.k == k then e.v else m.words[k]
  {
    PayloadApart(m.blocks, b, k, 0);
  }

  /**
   In every run of calls and stores, a block that is live at the start and not freed is live at the
   end, and each word of its payload holds what was last stored in it.
   */
  lemma {:induction false} PayloadPersists(ms: seq<Memory>, es: seq<Event>, b: Block, k: int)
    requires Runs(ms, es) && b in Live(ms[0].blocks) && InPayload(b, k)
    requires forall i :: 0 <= i < |es| ==> es[i] != Give(b.addr + HEADER)
    ensures b in Live(ms[|es|].blocks) && 0 <= k < |ms[0].words| == |ms[|es|].words|
    ensures ms[|es|].words[k] == LastStored(ms[0].words[k], es, k)
    decreases |es|
  {
    if es == [] {
      PayloadApart(ms[0].blocks, b, k, 0);
    } else {
      var n := |es| - 1;
      PayloadPersists(ms[..n + 1], es[..n], b, k);
      assert Follows(ms[n], es[n], ms[n + 1]);
      ValidAt(ms, es, n);
      StaysLive(ms[n], es[n], ms[n + 1], b);
      WordAfter(ms[n], es[n], ms[n + 1], b, k);
    }
  }

  lemma ValidAt(ms: seq<Memory>, es: seq<Event>, i: nat)
    requires Runs(ms, es) && i < |ms|
    ensures ms[i].Valid()
  {
    assert i > 0 ==> Follows(ms[i - 1], es[i - 1], ms[i]);
  }
}
