/**
 The kernel heap seen as a sequence of blocks, ascending by address.

 The allocator keeps its headers inside the memory it manages; `Heap` relates those words to
 the sequence here.  The results that make the allocator predictable are about this sequence:
 the layout is a function of the live blocks alone, so every claim about the order of frees,
 about undoing an allocation and about completeness reduces to a claim about a set.
 */
module HeapLayout {
  import opened Machine

  const HEAP_START := 0x0040_0000
  const HEAP_SIZE := 0x0040_0000
  const HEAP_END := HEAP_START + HEAP_SIZE
  const HEADER := 12

  datatype Block = Block(addr: int, size: int, used: bool) {
    /** The first address after the block. */
    function End(): int {
      addr + HEADER + size
    }
  }

  /** The blocks cover `[lo, hi)` in ascending order, without a gap or an overlap. */
  ghost predicate Spans(bs: seq<Block>, lo: int, hi: int) {
    if bs == [] then lo == hi
    else bs[0].addr == lo && bs[0].size >= 0 && bs[0].size % 4 == 0 && Spans(bs[1..], bs[0].End(), hi)
  }

  /** No two neighbours are both free. */
  ghost predicate Coalesced(bs: seq<Block>) {
    |bs| >= 2 ==> (bs[0].used || bs[1].used) && Coalesced(bs[1..])
  }

  ghost predicate Tiles(bs: seq<Block>) {
    Spans(bs, HEAP_START, HEAP_END)
  }

  ghost predicate WellFormed(bs: seq<Block>) {
    Tiles(bs) && Coalesced(bs)
  }

  const INITIAL: seq<Block> := [Block(HEAP_START, HEAP_SIZE - HEADER, false)]

  ghost function Live(bs: seq<Block>): set<Block> {
    set b | b in bs && b.used
  }

  // ----- the operations on layouts

  /** `(size + 3) & ~3` in 32 bits: wraps to 0 for the three largest sizes. */
  function Round(n: Word): (s: Word)
    ensures s % 4 == 0
  {
    var m := Wrap(n + 3);
    m - m % 4
  }

  /** `s` is the least multiple of 4 that holds `n` bytes, or 0 where that does not fit 32 bits. */
  predicate RoundedUp(n: Word, s: int) {
    s % 4 == 0 && if n <= 0xFFFF_FFFC then n <= s < n + 4 else s == 0
  }

  lemma RoundExact(n: Word, s: int)
    ensures RoundedUp(n, s) <==> s == Round(n)
  {
    RoundWrap(n);
    DownTo4(Wrap(n + 3));
    if RoundedUp(n, s) {
      Nearby(s, Round(n));
    }
  }

  lemma RoundWrap(n: Word)
    ensures Wrap(n + 3) == if n <= 0xFFFF_FFFC then n + 3 else n + 3 - WORDS
  {
  }

  lemma DownTo4(m: nat)
    ensures (m - m % 4) % 4 == 0 && m - 4 < m - m % 4 <= m
  {
  }

  lemma Nearby(s: int, t: int)
    requires s % 4 == 0 && t % 4 == 0
    ensures -4 < s - t < 4 ==> s == t
  {
  }

  predicate Fits(b: Block, s: int) {
    !b.used && b.size >= s
  }

  /** Index of the first free block of at least `s` bytes, or `|bs|`. */
  function FirstFit(bs: seq<Block>, s: int): (i: nat)
    ensures i <= |bs|
    ensures i < |bs| ==> Fits(bs[i], s)
    ensures forall j :: 0 <= j < i ==> !Fits(bs[j], s)
  {
    if bs == [] then 0
    else if Fits(bs[0], s) then 0
    else
      var i := 1 + FirstFit(bs[1..], s);
      assert forall j :: 1 <= j < |bs| ==> bs[j] == bs[1..][j - 1];
      i
  }

  /** What becomes of the free block `b` when `s` bytes are taken from it: split only if it is large enough. */
  function Cut(b: Block, s: int): seq<Block> {
    if b.size > s + HEADER + 4 then
      [Block(b.addr, s, true), Block(b.addr + HEADER + s, b.size - s - HEADER, false)]
    else
      [b.(used := true)]
  }

  /** Puts `mid` in the place of the blocks `[i, j)`. */
  function Patch(bs: seq<Block>, i: nat, j: nat, mid: seq<Block>): seq<Block>
    requires i <= j <= |bs|
  {
    bs[..i] + mid + bs[j..]
  }

  /** Takes `s` bytes from the free block `i`. */
  function Carve(bs: seq<Block>, i: nat, s: int): seq<Block>
    requires i < |bs|
  {
    Patch(bs, i, i + 1, Cut(bs[i], s))
  }

  /** The free block that covers the blocks `[lo, hi)`. */
  function Merged(bs: seq<Block>, lo: nat, hi: nat): Block
    requires lo < hi <= |bs|
  {
    Block(bs[lo].addr, bs[hi - 1].End() - bs[lo].addr - HEADER, false)
  }

  /** First of the blocks that are joined when block `i` is freed: its free predecessor or itself. */
  function First(bs: seq<Block>, i: nat): (lo: nat)
    requires i < |bs|
    ensures lo <= i
  {
    if i > 0 && !bs[i - 1].used then i - 1 else i
  }

  /** End of the blocks that are joined when block `i` is freed: past its free successor or itself. */
  function Last(bs: seq<Block>, i: nat): (hi: nat)
    requires i < |bs|
    ensures i < hi <= |bs|
  {
    if i + 1 < |bs| && !bs[i + 1].used then i + 2 else i + 1
  }

  /** Frees block `i`: it and its free neighbours become one free block. */
  function Release(bs: seq<Block>, i: nat): seq<Block>
    requires i < |bs|
  {
    Patch(bs, First(bs, i), Last(bs, i), [Merged(bs, First(bs, i), Last(bs, i))])
  }

  /** Index of the block at address `a`, or `|bs|`. */
  function Find(bs: seq<Block>, a: int): (i: nat)
    ensures i <= |bs|
    ensures i < |bs| ==> bs[i].addr == a
    ensures i == |bs| ==> forall j :: 0 <= j < |bs| ==> bs[j].addr != a
  {
    if bs == [] then 0
    else if bs[0].addr == a then 0
    else
      assert forall j :: 1 <= j < |bs| ==> bs[j] == bs[1..][j - 1];
      1 + Find(bs[1..], a)
  }

  /** What `kmalloc(n)` does to a layout, and the pointer it returns. */
  function Malloc(bs: seq<Block>, n: Word): (seq<Block>, int) {
    var i := FirstFit(bs, Round(n));
    if n == 0 || i == |bs| then (bs, 0) else (Carve(bs, i, Round(n)), bs[i].addr + HEADER)
  }

  /** What `kfree(p)` does to a layout: nothing unless `p` is the payload of a used block. */
  function Free(bs: seq<Block>, p: int): seq<Block> {
    var i := Find(bs, p - HEADER);
    if p == 0 || i == |bs| || !bs[i].used then bs else Release(bs, i)
  }

  // ----- order of addresses

  lemma {:induction false} SpansAt(bs: seq<Block>, lo: int, hi: int, i: nat)
    requires Spans(bs, lo, hi) && i < |bs|
    ensures lo <= bs[i].addr && bs[i].End() <= hi
    ensures bs[i].size >= 0 && bs[i].size % 4 == 0 && (bs[i].addr - lo) % 4 == 0
    ensures if i + 1 < |bs| then bs[i + 1].addr == bs[i].End() else hi == bs[i].End()
  {
    if i > 0 {
      SpansAt(bs[1..], bs[0].End(), hi, i - 1);
    } else {
      SpansUp(bs[1..], bs[0].End(), hi);
    }
  }

  lemma {:induction false} SpansUp(bs: seq<Block>, lo: int, hi: int)
    requires Spans(bs, lo, hi)
    ensures lo <= hi
  {
    if bs != [] {
      SpansUp(bs[1..], bs[0].End(), hi);
    }
  }

  lemma BlockAt(bs: seq<Block>, i: nat)
    requires Tiles(bs) && i < |bs|
    ensures HEAP_START <= bs[i].addr && bs[i].End() <= HEAP_END
    ensures bs[i].size >= 0 && bs[i].size % 4 == 0 && bs[i].addr % 4 == 0
    ensures if i + 1 < |bs| then bs[i + 1].addr == bs[i].End() else HEAP_END == bs[i].End()
  {
    SpansAt(bs, HEAP_START, HEAP_END, i);
  }

  /** The shape of a tiling, block by block. */
  lemma Shape(bs: seq<Block>)
    requires Tiles(bs)
    ensures |bs| > 0 && bs[0].addr == HEAP_START && bs[|bs| - 1].End() == HEAP_END
    ensures forall i :: 0 <= i < |bs| ==> bs[i].size >= 0 && bs[i].size % 4 == 0 && bs[i].addr % 4 == 0
    ensures forall i :: 0 <= i < |bs| ==> HEAP_START <= bs[i].addr && bs[i].End() <= HEAP_END
    ensures forall i :: 0 <= i < |bs| - 1 ==> bs[i].End() == bs[i + 1].addr
  {
    SpansAt(bs, HEAP_START, HEAP_END, |bs| - 1);
    forall i | 0 <= i < |bs|
      ensures bs[i].size >= 0 && bs[i].size % 4 == 0 && bs[i].addr % 4 == 0
      ensures HEAP_START <= bs[i].addr && bs[i].End() <= HEAP_END
      ensures if i < |bs| - 1 then bs[i].End() == bs[i + 1].addr else bs[i].End() == HEAP_END
    {
      SpansAt(bs, HEAP_START, HEAP_END, i);
    }
  }

  lemma {:induction false} Ordered(bs: seq<Block>, i: nat, j: nat)
    requires Tiles(bs) && i < j < |bs|
    ensures bs[i].End() <= bs[j].addr
    decreases j
  {
    SpansAt(bs, HEAP_START, HEAP_END, j - 1);
    if i + 1 < j {
      Ordered(bs, i, j - 1);
    }
  }

  lemma AllOrdered(bs: seq<Block>)
    requires Tiles(bs)
    ensures forall i, j :: 0 <= i < j < |bs| ==> bs[i].End() <= bs[j].addr
    ensures forall i, j :: 0 <= i < |bs| && 0 <= j < |bs| && bs[i].addr == bs[j].addr ==> i == j
  {
    Shape(bs);
    forall i, j | 0 <= i < j < |bs| ensures bs[i].End() <= bs[j].addr {
      Ordered(bs, i, j);
    }
  }

  /** Every address of the heap lies in some block. */
  lemma {:induction false} Covering(bs: seq<Block>, a: int, n: nat) returns (i: nat)
    requires Tiles(bs) && n < |bs| && HEAP_START <= a < bs[n].End()
    ensures i < |bs| && bs[i].addr <= a < bs[i].End()
  {
    if bs[n].addr <= a {
      i := n;
    } else {
      Shape(bs);
      i := Covering(bs, a, n - 1);
    }
  }

  // ----- the layout is a function of the live blocks

  /** Two well-formed layouts with the same live blocks are the same layout. */
  lemma Canonical(xs: seq<Block>, ys: seq<Block>)
    requires WellFormed(xs) && WellFormed(ys) && Live(xs) == Live(ys)
    ensures xs == ys
  {
    var n := if |xs| <= |ys| then |xs| else |ys|;
    SamePrefix(xs, ys, n);
    BlockAt(xs, n - 1);
    BlockAt(ys, n - 1);
    assert xs[n - 1] == xs[..n][n - 1] && ys[n - 1] == ys[..n][n - 1];
    if n < |ys| {
      BlockAt(ys, n);
    } else if n < |xs| {
      BlockAt(xs, n);
    }
  }

  lemma {:induction false} SamePrefix(xs: seq<Block>, ys: seq<Block>, n: nat)
    requires WellFormed(xs) && WellFormed(ys) && Live(xs) == Live(ys)
    requires n <= |xs| && n <= |ys|
    ensures xs[..n] == ys[..n]
  {
    if n > 0 {
      SamePrefix(xs, ys, n - 1);
      SameAddress(xs, ys, n - 1);
      SameBlock(xs, ys, n - 1);
      SameBlock(ys, xs, n - 1);
      PrefixMore(xs, ys, n - 1);
    }
  }

  /** Behind equal blocks, the next ones start at the same address. */
  lemma SameAddress(xs: seq<Block>, ys: seq<Block>, k: nat)
    requires Tiles(xs) && Tiles(ys) && k < |xs| && k < |ys| && xs[..k] == ys[..k]
    ensures xs[k].addr == ys[k].addr
  {
    if k > 0 {
      BlockAt(xs, k - 1);
      BlockAt(ys, k - 1);
      assert xs[k - 1] == xs[..k][k - 1] && ys[k - 1] == ys[..k][k - 1];
    }
  }

  lemma PrefixMore(xs: seq<Block>, ys: seq<Block>, k: nat)
    requires k < |xs| && k < |ys| && xs[..k] == ys[..k] && xs[k] == ys[k]
    ensures xs[..k + 1] == ys[..k + 1]
  {
    assert xs[..k + 1] == xs[..k] + [xs[k]] && ys[..k + 1] == ys[..k] + [ys[k]];
  }

  /** At equal addresses, a block of one layout is no larger than the other's. */
  lemma SameBlock(xs: seq<Block>, ys: seq<Block>, k: nat)
    requires WellFormed(xs) && WellFormed(ys) && Live(xs) == Live(ys)
    requires k < |xs| && k < |ys| && xs[k].addr == ys[k].addr
    ensures xs[k].size <= ys[k].size && (xs[k].used ==> ys[k].used)
  {
    AllOrdered(xs);
    SameUse(xs, ys, k);
    SameUse(ys, xs, k);
    if !ys[k].used && ys[k].size < xs[k].size {
      BlockAt(xs, k);
      LiveAfterFree(ys, k);
      assert ys[k + 1] in Live(xs);
      var j :| 0 <= j < |xs| && xs[j] == ys[k + 1];
      BlockAt(ys, k);
      BlockAt(xs, j);
      assert false;
    }
  }

  lemma SameUse(xs: seq<Block>, ys: seq<Block>, k: nat)
    requires WellFormed(xs) && WellFormed(ys) && Live(xs) == Live(ys)
    requires k < |xs| && k < |ys| && xs[k].addr == ys[k].addr
    ensures xs[k].used ==> xs[k] == ys[k]
  {
    AllOrdered(ys);
    assert xs[k].used ==> xs[k] in Live(ys);
  }

  /** What follows a free block inside the heap is a live block. */
  lemma LiveAfterFree(bs: seq<Block>, k: nat)
    requires WellFormed(bs) && k < |bs| && !bs[k].used && bs[k].End() < HEAP_END
    ensures k + 1 < |bs| && bs[k + 1] in Live(bs) && bs[k + 1].addr == bs[k].End()
  {
    BlockAt(bs, k);
    CoalescedAt(bs, k);
  }

  lemma {:induction false} CoalescedAt(bs: seq<Block>, k: nat)
    requires Coalesced(bs) && k + 1 < |bs|
    ensures bs[k].used || bs[k + 1].used
  {
    if k > 0 {
      CoalescedAt(bs[1..], k - 1);
    }
  }

  // ----- replacing the middle of a layout

  lemma LiveConcat(xs: seq<Block>, ys: seq<Block>)
    ensures Live(xs + ys) == Live(xs) + Live(ys)
  {
    forall b | b in Live(xs) + Live(ys) ensures b in xs + ys {
    }
  }

  lemma PatchLive(bs: seq<Block>, i: nat, j: nat, mid: seq<Block>)
    requires i <= j <= |bs|
    ensures Live(Patch(bs, i, j, mid)) == Live(bs[..i]) + Live(mid) + Live(bs[j..])
  {
    LiveConcat(bs[..i] + mid, bs[j..]);
    LiveConcat(bs[..i], mid);
  }

  lemma LiveAround(bs: seq<Block>, i: nat, j: nat)
    requires i <= j <= |bs|
    ensures Live(bs) == Live(bs[..i]) + Live(bs[i..j]) + Live(bs[j..])
  {
    PatchLive(bs, i, j, bs[i..j]);
    PatchSelf(bs, i, j);
  }

  lemma PatchSelf(bs: seq<Block>, i: nat, j: nat)
    requires i <= j <= |bs|
    ensures Patch(bs, i, j, bs[i..j]) == bs
  {
  }

  lemma {:induction false} SpansConcat(xs: seq<Block>, ys: seq<Block>, lo: int, m: int, hi: int)
    requires Spans(xs, lo, m) && Spans(ys, m, hi)
    ensures Spans(xs + ys, lo, hi)
  {
    if xs == [] {
      assert xs + ys == ys;
    } else {
      SpansConcat(xs[1..], ys, xs[0].End(), m, hi);
      assert (xs + ys)[1..] == xs[1..] + ys;
    }
  }

  lemma {:induction false} SpansSplit(bs: seq<Block>, i: nat, lo: int, hi: int)
    requires Spans(bs, lo, hi) && i <= |bs|
    ensures var m := if i < |bs| then bs[i].addr else hi; Spans(bs[..i], lo, m) && Spans(bs[i..], m, hi)
  {
    if i == 0 {
      assert bs[i..] == bs;
    } else {
      SpansSplit(bs[1..], i - 1, bs[0].End(), hi);
      assert bs[1..][..i - 1] == bs[..i][1..] && bs[1..][i - 1..] == bs[i..];
    }
  }

  /** A patch that covers the same addresses keeps the tiling. */
  lemma PatchTiles(bs: seq<Block>, i: nat, j: nat, mid: seq<Block>)
    requires Tiles(bs) && i < j <= |bs| && Spans(mid, bs[i].addr, bs[j - 1].End())
    ensures Tiles(Patch(bs, i, j, mid))
  {
    SpansSplit(bs, i, HEAP_START, HEAP_END);
    SpansSplit(bs, j, HEAP_START, HEAP_END);
    BlockAt(bs, j - 1);
    SpansConcat(bs[..i], mid, HEAP_START, bs[i].addr, bs[j - 1].End());
    SpansConcat(bs[..i] + mid, bs[j..], HEAP_START, bs[j - 1].End(), HEAP_END);
  }

  /** The last block of `xs` and the first of `ys` are not both free. */
  ghost predicate Seam(xs: seq<Block>, ys: seq<Block>) {
    xs != [] && ys != [] ==> xs[|xs| - 1].used || ys[0].used
  }

  lemma {:induction false} CoalescedConcat(xs: seq<Block>, ys: seq<Block>)
    ensures Coalesced(xs + ys) <==> Coalesced(xs) && Coalesced(ys) && Seam(xs, ys)
  {
    if xs == [] {
      assert xs + ys == ys;
    } else if |xs| == 1 {
      assert (xs + ys)[1..] == ys;
    } else {
      CoalescedConcat(xs[1..], ys);
      assert (xs + ys)[1..] == xs[1..] + ys;
    }
  }

  lemma CoalescedAround(bs: seq<Block>, i: nat, j: nat)
    requires Coalesced(bs) && i <= j <= |bs|
    ensures Coalesced(bs[..i]) && Coalesced(bs[j..])
  {
    CoalescedCut(bs, i);
    CoalescedCut(bs, j);
  }

  lemma CoalescedCut(bs: seq<Block>, i: nat)
    requires Coalesced(bs) && i <= |bs|
    ensures Coalesced(bs[..i]) && Coalesced(bs[i..])
  {
    assert bs[..i] + bs[i..] == bs;
    CoalescedConcat(bs[..i], bs[i..]);
  }

  lemma PatchCoalesced(bs: seq<Block>, i: nat, j: nat, mid: seq<Block>)
    requires Coalesced(bs) && i <= j <= |bs| && Coalesced(mid) && mid != []
    requires i > 0 ==> bs[i - 1].used || mid[0].used
    requires j < |bs| ==> bs[j].used || mid[|mid| - 1].used
    ensures Coalesced(Patch(bs, i, j, mid))
  {
    CoalescedAround(bs, i, j);
    CoalescedConcat(bs[..i], mid);
    CoalescedConcat(bs[..i] + mid, bs[j..]);
  }

  // ----- what the operations keep, and how they change the live blocks

  /** Size of the block that a request for `s` bytes gets out of the free block `b`. */
  function Granted(b: Block, s: int): int {
    if b.size > s + HEADER + 4 then s else b.size
  }

  lemma CutFacts(b: Block, s: int)
    requires Fits(b, s) && s >= 0 && s % 4 == 0 && b.size % 4 == 0
    ensures Spans(Cut(b, s), b.addr, b.End()) && Coalesced(Cut(b, s)) && Cut(b, s)[0].used
    ensures Live(Cut(b, s)) == {Block(b.addr, Granted(b, s), true)}
  {
    assert |Cut(b, s)| == 2 ==> Cut(b, s)[1..] == [Cut(b, s)[1]];
  }

  lemma CarveWellFormed(bs: seq<Block>, i: nat, s: int)
    requires WellFormed(bs) && i < |bs| && Fits(bs[i], s) && s >= 0 && s % 4 == 0
    ensures WellFormed(Carve(bs, i, s))
  {
    BlockAt(bs, i);
    CutFacts(bs[i], s);
    PatchTiles(bs, i, i + 1, Cut(bs[i], s));
    if i + 1 < |bs| {
      CoalescedAt(bs, i);
    }
    PatchCoalesced(bs, i, i + 1, Cut(bs[i], s));
  }

  lemma CarveLive(bs: seq<Block>, i: nat, s: int)
    requires WellFormed(bs) && i < |bs| && Fits(bs[i], s) && s >= 0 && s % 4 == 0
    ensures Live(Carve(bs, i, s)) == Live(bs) + {Block(bs[i].addr, Granted(bs[i], s), true)}
  {
    BlockAt(bs, i);
    CutFacts(bs[i], s);
    PatchLive(bs, i, i + 1, Cut(bs[i], s));
    LiveAround(bs, i, i + 1);
  }

  lemma ReleaseTiles(bs: seq<Block>, i: nat)
    requires Tiles(bs) && i < |bs|
    ensures Tiles(Release(bs, i))
  {
    MergedTiles(bs, First(bs, i), Last(bs, i));
  }

  lemma MergedExtent(bs: seq<Block>, lo: nat, hi: nat)
    requires Tiles(bs) && lo < hi <= |bs|
    ensures bs[hi - 1].End() - bs[lo].addr >= HEADER && (bs[hi - 1].End() - bs[lo].addr) % 4 == 0
  {
    BlockAt(bs, lo);
    BlockAt(bs, hi - 1);
    Aligned(bs[lo].addr, bs[hi - 1].addr, bs[hi - 1].size);
    if lo < hi - 1 {
      Ordered(bs, lo, hi - 1);
    }
  }

  lemma Aligned(a: int, b: int, size: int)
    requires a % 4 == 0 && b % 4 == 0 && size % 4 == 0
    ensures (b + HEADER + size - a) % 4 == 0
  {
  }

  lemma OneSpans(b: Block)
    requires b.size >= 0 && b.size % 4 == 0
    ensures Spans([b], b.addr, b.End())
  {
  }

  lemma MergedTiles(bs: seq<Block>, lo: nat, hi: nat)
    requires Tiles(bs) && lo < hi <= |bs|
    ensures Tiles(Patch(bs, lo, hi, [Merged(bs, lo, hi)]))
  {
    var m := Merged(bs, lo, hi);
    MergedExtent(bs, lo, hi);
    OneSpans(m);
    PatchTiles(bs, lo, hi, [m]);
  }

  /** What is joined ends at live blocks. */
  lemma FirstSeam(bs: seq<Block>, i: nat)
    requires Coalesced(bs) && i < |bs|
    ensures First(bs, i) > 0 ==> bs[First(bs, i) - 1].used
  {
    if i > 1 && !bs[i - 1].used {
      CoalescedAt(bs, i - 2);
    }
  }

  lemma LastSeam(bs: seq<Block>, i: nat)
    requires Coalesced(bs) && i < |bs|
    ensures Last(bs, i) < |bs| ==> bs[Last(bs, i)].used
  {
    if i + 2 < |bs| && !bs[i + 1].used {
      CoalescedAt(bs, i + 1);
    }
  }

  lemma ReleaseCoalesced(bs: seq<Block>, i: nat)
    requires Coalesced(bs) && i < |bs|
    ensures Coalesced(Release(bs, i))
  {
    FirstSeam(bs, i);
    LastSeam(bs, i);
    PatchCoalesced(bs, First(bs, i), Last(bs, i), [Merged(bs, First(bs, i), Last(bs, i))]);
  }

  /** Of the blocks that are joined, only the freed one was live. */
  lemma OthersFree(bs: seq<Block>, i: nat)
    requires i < |bs|
    ensures var joined, k := bs[First(bs, i)..Last(bs, i)], i - First(bs, i);
            && 0 <= k < |joined| && joined[k] == bs[i]
            && forall j :: 0 <= j < |joined| && j != k ==> !joined[j].used
  {
  }

  lemma ReleaseLive(bs: seq<Block>, i: nat)
    requires WellFormed(bs) && i < |bs| && bs[i].used
    ensures Live(Release(bs, i)) == Live(bs) - {bs[i]}
  {
    var lo, hi := First(bs, i), Last(bs, i);
    PatchLive(bs, lo, hi, [Merged(bs, lo, hi)]);
    LiveAround(bs, lo, hi);
    OthersFree(bs, i);
    OnlyLive(bs[lo..hi], i - lo);
    NoOther(bs, i, lo, hi);
    LiveWithout(Live(bs[..lo]), Live(bs[hi..]), bs[i]);
    assert Live([Merged(bs, lo, hi)]) == {};
  }

  lemma LiveWithout(l: set<Block>, r: set<Block>, b: Block)
    requires b !in l && b !in r
    ensures l + {} + r == l + {b} + r - {b}
  {
  }

  lemma OnlyLive(bs: seq<Block>, k: nat)
    requires k < |bs| && bs[k].used && forall j :: 0 <= j < |bs| && j != k ==> !bs[j].used
    ensures Live(bs) == {bs[k]}
  {
  }

  /** A block occurs once, and no other block has its address. */
  lemma NoOther(bs: seq<Block>, i: nat, lo: nat, hi: nat)
    requires Tiles(bs) && lo <= i < hi <= |bs|
    ensures bs[i] !in Live(bs[..lo]) && bs[i] !in Live(bs[hi..])
    ensures forall b :: b in bs && b.addr == bs[i].addr ==> b == bs[i]
  {
    AllOrdered(bs);
  }

  // ----- the steps in which `kfree` releases a block

  function Unuse(bs: seq<Block>, i: nat): seq<Block>
    requires i < |bs|
  {
    bs[i := bs[i].(used := false)]
  }

  /** Block `i` takes over its successor. */
  function Join(bs: seq<Block>, i: nat): seq<Block>
    requires i + 1 < |bs|
  {
    Patch(bs, i, i + 2, [Merged(bs, i, i + 2)])
  }

  function JoinNext(bs: seq<Block>, i: nat): seq<Block>
    requires i < |bs|
  {
    if i + 1 < |bs| && !bs[i + 1].used then Join(bs, i) else bs
  }

  function JoinPrevious(bs: seq<Block>, i: nat): seq<Block>
    requires i < |bs|
  {
    if i > 0 && !bs[i - 1].used then Join(bs, i - 1) else bs
  }

  lemma UnuseTiles(bs: seq<Block>, i: nat)
    requires Tiles(bs) && i < |bs|
    ensures Tiles(Unuse(bs, i))
  {
    BlockAt(bs, i);
    PatchTiles(bs, i, i + 1, [bs[i].(used := false)]);
    assert Unuse(bs, i) == Patch(bs, i, i + 1, [bs[i].(used := false)]);
  }

  lemma ReleaseAlone(bs: seq<Block>, i: nat)
    requires i < |bs| && First(bs, i) == i && Last(bs, i) == i + 1
    ensures JoinPrevious(JoinNext(Unuse(bs, i), i), i) == Release(bs, i)
  {
  }

  lemma ReleaseIntoNext(bs: seq<Block>, i: nat)
    requires i < |bs| && First(bs, i) == i && Last(bs, i) == i + 2
    ensures JoinPrevious(JoinNext(Unuse(bs, i), i), i) == Release(bs, i)
  {
    UnusedJoinsNext(bs, i);
  }

  lemma ReleaseIntoPrevious(bs: seq<Block>, i: nat)
    requires i < |bs| && First(bs, i) == i - 1 && Last(bs, i) == i + 1
    ensures JoinPrevious(JoinNext(Unuse(bs, i), i), i) == Release(bs, i)
  {
    assert JoinNext(Unuse(bs, i), i) == Unuse(bs, i);
    assert Join(Unuse(bs, i), i - 1) == Patch(bs, i - 1, i + 1, [Merged(bs, i - 1, i + 1)]);
  }

  lemma ReleaseIntoBoth(bs: seq<Block>, i: nat)
    requires i < |bs| && First(bs, i) == i - 1 && Last(bs, i) == i + 2
    ensures JoinPrevious(JoinNext(Unuse(bs, i), i), i) == Release(bs, i)
  {
    UnusedJoinsNext(bs, i);
    JoinsBefore(bs, i, JoinNext(Unuse(bs, i), i));
  }

  lemma UnusedJoinsNext(bs: seq<Block>, i: nat)
    requires i < |bs| && Last(bs, i) == i + 2
    ensures JoinNext(Unuse(bs, i), i) == Patch(bs, i, i + 2, [Merged(bs, i, i + 2)])
  {
  }

  lemma JoinsBefore(bs: seq<Block>, i: nat, cs: seq<Block>)
    requires 0 < i && i + 1 < |bs| && !bs[i - 1].used && cs == Patch(bs, i, i + 2, [Merged(bs, i, i + 2)])
    ensures i < |cs| && JoinPrevious(cs, i) == Patch(bs, i - 1, i + 2, [Merged(bs, i - 1, i + 2)])
  {
    assert cs[i - 1] == bs[i - 1] && cs[i] == Merged(bs, i, i + 2);
  }

  /** Merging first with the next block and then with the previous one releases the block. */
  lemma StepsRelease(bs: seq<Block>, i: nat)
    requires i < |bs|
    ensures JoinPrevious(JoinNext(Unuse(bs, i), i), i) == Release(bs, i)
  {
    if First(bs, i) == i {
      if Last(bs, i) == i + 1 {
        ReleaseAlone(bs, i);
      } else {
        ReleaseIntoNext(bs, i);
      }
    } else if Last(bs, i) == i + 1 {
      ReleaseIntoPrevious(bs, i);
    } else {
      ReleaseIntoBoth(bs, i);
    }
  }
}
