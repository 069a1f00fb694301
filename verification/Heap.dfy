/** The kernel heap: a first-fit allocator over the words it manages. */
module Heap {
  import opened Machine
  import opened HeapLayout
  import opened HeapWords
  import opened HeapTheory
  import HeapRuns

  class KernelHeap {
    const mem: array<Word>     // the memory at [HEAP_START, HEAP_END), one element per 32-bit word
    var heapStart: Word
    var heapUsed: Word
    ghost var blocks: seq<Block>

    /** The words of the heap store `blocks`, which tile it. */
    ghost predicate Linked()
      reads this, mem
    {
      heapStart == HEAP_START && Tiles(blocks) && Stored(mem[..], blocks)
    }

    ghost predicate Valid()
      reads this, mem
    {
      Linked() && Coalesced(blocks) && heapUsed == UsedBytes(blocks)
    }

    ghost function Memory(): HeapRuns.Memory
      reads this, mem
    {
      HeapRuns.Memory(mem[..], blocks)
    }

    /** `heap_init`, on memory of any contents. */
    constructor (memory: array<Word>)
      requires memory.Length == SLOTS
      modifies memory
      ensures mem == memory && Valid() && blocks == INITIAL
    {
      mem := memory;
      heapStart := HEAP_START;
      heapUsed := 0;
      blocks := INITIAL;
      new;
      mem[0] := HEAP_SIZE - HEADER;
      mem[1] := 0;
      mem[2] := 0;
      InitialWellFormed();
    }

    /** The fields of the header of block `i`. */
    lemma ReadHeader(i: nat)
      requires Linked() && i < |blocks|
      ensures 0 <= Slot(blocks[i].addr) && Slot(blocks[i].addr) + 3 + blocks[i].size / 4 <= mem.Length
      ensures blocks[i].size >= 0 && blocks[i].End() <= HEAP_END
      ensures mem[Slot(blocks[i].addr)] == blocks[i].size
      ensures mem[Slot(blocks[i].addr) + 1] == if blocks[i].used then 1 else 0
      ensures mem[Slot(blocks[i].addr) + 2] == Next(blocks, i)
      ensures Next(blocks, i) != 0 <==> i + 1 < |blocks|
    {
      HeaderInside(blocks, i);
      BlockAt(blocks, i);
      assert HeaderAt(mem[..], blocks, i);
    }

    /** The search loop of `kmalloc`: the first free block of at least `s` bytes, or null. */
    method Search(s: Word) returns (current: Word, ghost i: nat)
      requires Linked()
      ensures i == FirstFit(blocks, s)
      ensures current == var j := FirstFit(blocks, s); if j < |blocks| then blocks[j].addr else 0
      ensures current == 0 <==> FirstFit(blocks, s) == |blocks|
    {
      current := heapStart;
      i := 0;
      Shape(blocks);
      while current != 0
        invariant i <= |blocks| && current == Next(blocks, i - 1)
        invariant current == 0 <==> i == |blocks|
        invariant forall j :: 0 <= j < i ==> !Fits(blocks[j], s)
        decreases |blocks| - i
      {
        ReadHeader(i);
        var k := Slot(current);
        if mem[k + 1] == 0 && mem[k] >= s {
          break;
        }
        current := mem[k + 2];
        i := i + 1;
      }
    }

    method KMalloc(size: Word) returns (ptr: Word)
      requires Valid()
      modifies this, mem
      ensures Valid()
      ensures (blocks, ptr) == Malloc(old(blocks), size)
      ensures Kept(Live(old(blocks)), old(mem[..]), mem[..])
      ensures HeapRuns.Follows(old(Memory()), HeapRuns.Allocate(size), Memory())
    {
      ghost var was := Memory();
      if size == 0 {
        MallocFails(blocks, size);
        return 0;
      }
      var s := Wrap(size + 3);
      s := s - s % 4;
      ghost var i;
      var current;
      current, i := Search(s);
      if current == 0 {
        MallocFails(blocks, size);
        return 0;
      }
      ReadHeader(i);
      ptr := current + HEADER;
      Take(current, s, i);
      HeapRuns.Allocated(was, size, Memory());
    }

    /** The found branch of `kmalloc`: split if too large, mark used, count. */
    method Take(current: Word, s: Word, ghost i: nat)
      requires Valid() && s % 4 == 0
      requires i < |blocks| && current == blocks[i].addr && Fits(blocks[i], s)
      modifies this, mem
      ensures Valid()
      ensures blocks == Carve(old(blocks), i, s)
      ensures Kept(Live(old(blocks)), old(mem[..]), mem[..])
    {
      CarveValid(mem[..], blocks, i, s);
      SplitBlock(current, s, i);
      heapUsed := heapUsed + mem[Slot(current)];
      blocks := Carve(blocks, i, s);
    }

    /** Split if too large, and mark used. */
    method SplitBlock(current: Word, s: Word, ghost i: nat)
      requires WellFormed(blocks) && Stored(mem[..], blocks) && s % 4 == 0
      requires i < |blocks| && current == blocks[i].addr && Fits(blocks[i], s)
      modifies mem
      ensures mem[..] == CutWords(old(mem[..]), blocks, i, s)
      ensures 0 <= Slot(current) < mem.Length && mem[Slot(current)] == Granted(blocks[i], s)
    {
      ghost var w := mem[..];
      HeaderInside(blocks, i);
      assert HeaderAt(w, blocks, i);
      var k := Slot(current);
      if mem[k] > s + HEADER + 4 {
        var newBlock := current + HEADER + s;
        var rest := mem[k] - s - HEADER;
        CutWordsSplit(w, blocks, i, s, rest, newBlock);
        InsertHeader(k, Slot(newBlock), rest, s, newBlock);
      } else {
        CutWordsWhole(w, blocks, i, s);
      }
      ghost var w1 := mem[..];
      mem[k + 1] := 1;
      assert mem[..] == w1[k + 1 := 1];
    }

    /** The writes of a split. */
    method InsertHeader(k: int, n: int, rest: Word, s: Word, newBlock: Word)
      requires 0 <= k && k + 3 <= n && n + 3 <= mem.Length
      modifies mem
      ensures mem[..] == Inserted(old(mem[..]), k, n, rest, s, newBlock)
    {
      mem[n] := rest;
      mem[n + 1] := 0;
      mem[n + 2] := mem[k + 2];
      mem[k] := s;
      mem[k + 2] := newBlock;
    }

    /** `ptr` is null or the payload of a block of the heap, used or already freed. */
    method KFree(ptr: Word)
      requires Valid()
      requires HeapRuns.Legal(blocks, ptr)
      modifies this, mem
      ensures Valid()
      ensures blocks == Free(old(blocks), ptr)
      ensures Kept(Live(old(blocks)), old(mem[..]), mem[..])
      ensures HeapRuns.Follows(old(Memory()), HeapRuns.Give(ptr), Memory())
    {
      if ptr == 0 {
        return;
      }
      ghost var i := Find(blocks, ptr - HEADER);
      ReadHeader(i);
      var block: Word := ptr - HEADER;
      var k := Slot(block);
      if mem[k + 1] == 0 {
        return;
      }
      Give(block, i);
    }

    /** The used branch of `kfree`: mark free, count, merge with the next and with the previous block. */
    method Give(block: Word, ghost i: nat)
      requires Valid()
      requires i < |blocks| && block == blocks[i].addr && blocks[i].used
      modifies this, mem
      ensures Valid()
      ensures blocks == Release(old(blocks), i)
      ensures Kept(Live(old(blocks)), old(mem[..]), mem[..])
    {
      ghost var was, w := blocks, mem[..];
      ReleaseValid(w, blocks, i);
      MarkFree(block, i);
      ghost var w1 := mem[..];
      MergeNext(block, i);
      ghost var w2 := mem[..];
      ghost var p := MergePrevious(block, i);
      HeadersKeep(w, w1, w2, mem[..], was, i, p);
    }

    method MarkFree(block: Word, ghost i: nat)
      requires Linked() && heapUsed == UsedBytes(blocks)
      requires i < |blocks| && block == blocks[i].addr && blocks[i].used
      modifies this, mem
      ensures Linked() && blocks == Unuse(old(blocks), i)
      ensures heapUsed == UsedBytes(old(blocks)) - old(blocks)[i].size
      ensures SameOutsideHeader(old(mem[..]), mem[..], Slot(block))
    {
      ghost var w := mem[..];
      ReadHeader(i);
      UnuseTiles(blocks, i);
      UnuseStored(w, blocks, i);
      ReleaseUsed(blocks, i);
      var k := Slot(block);
      mem[k + 1] := 0;
      assert mem[..] == w[k + 1 := 0];
      ReleaseTiles(blocks, i);
      UsedBound(Release(blocks, i));
      heapUsed := heapUsed - mem[k];
      blocks := Unuse(blocks, i);
    }

    /** Merge with the next block if free. */
    method MergeNext(block: Word, ghost i: nat)
      requires Linked() && i < |blocks| && block == blocks[i].addr && !blocks[i].used
      modifies this`blocks, mem
      ensures Linked()
      ensures blocks == JoinNext(old(blocks), i)
      ensures SameOutsideHeader(old(mem[..]), mem[..], Slot(block))
    {
      ReadHeader(i);
      if i + 1 < |blocks| {
        ReadHeader(i + 1);
      }
      var next := mem[Slot(block) + 2];
      if next != 0 && mem[Slot(next) + 1] == 0 {
        Absorb(block, i);
      }
    }

    /** Merge with the previous block if free. */
    method MergePrevious(block: Word, ghost i: nat) returns (ghost p: nat)
      requires Linked() && i < |blocks| && block == blocks[i].addr && !blocks[i].used
      modifies this`blocks, mem
      ensures Linked()
      ensures blocks == JoinPrevious(old(blocks), i)
      ensures p == if i > 0 then i - 1 else 0
      ensures SameOutsideHeader(old(mem[..]), mem[..], Slot(old(blocks)[p].addr))
    {
      var current;
      current, p := Predecessor(block, i);
      if current != 0 {
        ReadHeader(p);
        if mem[Slot(current) + 1] == 0 {
          Absorb(current, p);
        }
      }
    }

    /** The block whose `next` is `block`, or null when `block` comes first. */
    method Predecessor(block: Word, ghost i: nat) returns (current: Word, ghost p: nat)
      requires Linked() && i < |blocks| && block == blocks[i].addr
      ensures p == if i > 0 then i - 1 else 0
      ensures current == if i > 0 then blocks[i - 1].addr else 0
      ensures current != 0 <==> i > 0
    {
      current := heapStart;
      p := 0;
      Shape(blocks);
      AllOrdered(blocks);
      while current != 0
        invariant p <= |blocks| && current == Next(blocks, p - 1)
        invariant current == 0 <==> p == |blocks|
        invariant i > 0 ==> p < i
        decreases |blocks| - p
      {
        ReadHeader(p);
        if mem[Slot(current) + 2] == block {
          break;
        }
        current := mem[Slot(current) + 2];
        p := p + 1;
      }
      if i == 0 {
        p := 0;
      }
    }

    /** The block `i` at address `p` takes over its successor: both are free. */
    method Absorb(p: Word, ghost i: nat)
      requires Linked() && i + 1 < |blocks| && !blocks[i].used && !blocks[i + 1].used
      requires p == blocks[i].addr
      modifies this`blocks, mem
      ensures Linked() && blocks == Join(old(blocks), i)
      ensures SameOutsideHeader(old(mem[..]), mem[..], Slot(p))
    {
      ghost var w := mem[..];
      ReadHeader(i);
      ReadHeader(i + 1);
      Apart(blocks, i, i + 1);
      HeaderInside(blocks, i);
      MergedTiles(blocks, i, i + 2);
      JoinStored(w, blocks, i);
      var k := Slot(p);
      var next := Slot(mem[k + 2]);
      mem[k] := mem[k] + HEADER + mem[next];
      mem[k + 2] := mem[next + 2];
      assert mem[..] == JoinWords(w, blocks, i);
      blocks := Join(blocks, i);
    }

    /** A client writes a word of a payload it holds: no header, and no other payload, changes. */
    method Store(b: Block, k: nat, v: Word)
      requires Valid() && b in Live(blocks) && InPayload(b, k)
      modifies this, mem
      ensures Valid() && blocks == old(blocks)
      ensures k < mem.Length && mem[..] == old(mem[..])[k := v]
      ensures Kept(Live(blocks) - {b}, old(mem[..]), mem[..])
      ensures HeapRuns.Follows(old(Memory()), HeapRuns.Put(b, k, v), Memory())
    {
      ghost var w := mem[..];
      PayloadApart(blocks, b, k, 0);
      StoreKeeps(w, blocks, b, k, v);
      mem[k] := v;
      assert mem[..] == w[k := v];
    }

    method HeapGetUsed() returns (r: Word)
      requires Valid()
      ensures r == UsedBytes(blocks)
    {
      r := heapUsed;
    }

    /** Free payload, plus the header of every block but one. */
    method HeapGetFree() returns (r: Word)
      requires Valid()
      ensures r == FreeBytes(blocks) + HEADER * (|blocks| - 1)
    {
      Conservation(blocks, HEAP_START, HEAP_END);
      Shape(blocks);
      r := HEAP_SIZE - heapUsed - HEADER;
    }
  }

  lemma UsedBound(bs: seq<Block>)
    requires Tiles(bs)
    ensures 0 <= UsedBytes(bs) <= HEAP_SIZE - HEADER * |bs|
  {
    Conservation(bs, HEAP_START, HEAP_END);
  }

  /** Everything the state must satisfy after the found branch of `kmalloc`. */
  lemma CarveValid(w: seq<Word>, bs: seq<Block>, i: nat, s: Word)
    requires WellFormed(bs) && Stored(w, bs) && i < |bs| && Fits(bs[i], s) && s % 4 == 0
    ensures WellFormed(Carve(bs, i, s))
    ensures Stored(CutWords(w, bs, i, s), Carve(bs, i, s))
    ensures Kept(Live(bs), w, CutWords(w, bs, i, s))
    ensures UsedBytes(Carve(bs, i, s)) == UsedBytes(bs) + Granted(bs[i], s) <= HEAP_SIZE
  {
    CarveWellFormed(bs, i, s);
    CarveUsed(bs, i, s);
    CarveStored(w, bs, i, s);
    CutKeeps(w, bs, i, s);
    UsedBound(Carve(bs, i, s));
  }

  /** Everything the state must satisfy while and after block `i` is freed. */
  lemma ReleaseValid(w: seq<Word>, bs: seq<Block>, i: nat)
    requires WellFormed(bs) && Stored(w, bs) && i < |bs| && bs[i].used
    ensures Tiles(Unuse(bs, i))
    ensures 0 <= Slot(bs[i].addr) && Slot(bs[i].addr) + 3 <= SLOTS
    ensures Stored(w[Slot(bs[i].addr) + 1 := 0], Unuse(bs, i))
    ensures Coalesced(Release(bs, i))
    ensures Release(bs, i) == JoinPrevious(JoinNext(Unuse(bs, i), i), i)
    ensures 0 <= UsedBytes(Release(bs, i)) == UsedBytes(bs) - bs[i].size
  {
    UnuseTiles(bs, i);
    UnuseStored(w, bs, i);
    ReleaseTiles(bs, i);
    ReleaseCoalesced(bs, i);
    StepsRelease(bs, i);
    ReleaseUsed(bs, i);
    UsedBound(Release(bs, i));
  }
}
