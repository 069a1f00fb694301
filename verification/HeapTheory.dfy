/** What `kmalloc` and `kfree` promise over whole runs, stated on heap layouts. */
module HeapTheory {
  import opened Machine
  import opened HeapLayout

  // ----- one call

  lemma MallocFails(bs: seq<Block>, n: Word)
    requires n == 0 || FirstFit(bs, Round(n)) == |bs|
    ensures Malloc(bs, n) == (bs, 0)
  {
  }

  /** A call either fails and changes nothing, or adds exactly one live block. */
  lemma MallocEffect(bs: seq<Block>, n: Word)
    requires WellFormed(bs)
    ensures WellFormed(Malloc(bs, n).0)
    ensures Malloc(bs, n).1 == 0 ==> Malloc(bs, n).0 == bs
    ensures Malloc(bs, n).1 != 0 ==>
              exists b: Block ::
                && b.used && b.addr + HEADER == Malloc(bs, n).1 && b !in Live(bs)
                && Live(Malloc(bs, n).0) == Live(bs) + {b}
                && Round(n) <= b.size <= Round(n) + HEADER + 4
  {
    var s := Round(n);
    var i := FirstFit(bs, s);
    if n != 0 && i < |bs| {
      CarveWellFormed(bs, i, s);
      CarveLive(bs, i, s);
      BlockAt(bs, i);
      AllOrdered(bs);
      var b := Block(bs[i].addr, Granted(bs[i], s), true);
      assert b !in Live(bs);
    }
  }

  /** Freeing removes exactly the live block whose payload starts at `p`, if there is one. */
  lemma FreeEffect(bs: seq<Block>, p: int)
    requires WellFormed(bs)
    ensures WellFormed(Free(bs, p))
    ensures Live(Free(bs, p)) == set b | b in Live(bs) && b.addr + HEADER != p
  {
    var i := Find(bs, p - HEADER);
    if i < |bs| {
      NoOther(bs, i, i, i + 1);
      BlockAt(bs, i);
    }
    if p != 0 && i < |bs| && bs[i].used {
      ReleaseLive(bs, i);
      ReleaseTiles(bs, i);
      ReleaseCoalesced(bs, i);
    }
  }

  // ----- the heap as a map from pointers to sizes

  function SizeOf(b: Block): map<int, int> {
    if b.used then map[b.addr + HEADER := b.size] else map[]
  }

  /** The allocated pointers, each with the size of its block. */
  function Sizes(bs: seq<Block>): map<int, int> {
    if bs == [] then map[] else SizeOf(bs[0]) + Sizes(bs[1..])
  }

  lemma Regroup(a: map<int, int>, b: map<int, int>, c: map<int, int>)
    ensures a + (b + c) == a + b + c
  {
  }

  lemma {:induction false} SizesConcat(xs: seq<Block>, ys: seq<Block>)
    ensures Sizes(xs + ys) == Sizes(xs) + Sizes(ys)
  {
    if xs == [] {
      assert xs + ys == ys;
    } else {
      assert (xs + ys)[1..] == xs[1..] + ys;
      SizesConcat(xs[1..], ys);
      Regroup(SizeOf(xs[0]), Sizes(xs[1..]), Sizes(ys));
    }
  }

  lemma PatchSizes(bs: seq<Block>, i: nat, j: nat, mid: seq<Block>)
    requires i <= j <= |bs|
    ensures Sizes(Patch(bs, i, j, mid)) == Sizes(bs[..i]) + Sizes(mid) + Sizes(bs[j..])
  {
    SizesConcat(bs[..i] + mid, bs[j..]);
    SizesConcat(bs[..i], mid);
  }

  /** Allocated blocks lie between the ends of the layout. */
  lemma {:induction false} SizesInside(bs: seq<Block>, lo: int, hi: int)
    requires Spans(bs, lo, hi)
    ensures lo <= hi
    ensures forall p :: p in Sizes(bs) ==> lo + HEADER <= p <= hi - Sizes(bs)[p] && Sizes(bs)[p] >= 0
  {
    if bs != [] {
      SizesInside(bs[1..], bs[0].End(), hi);
    }
  }

  /** What is allocated around a patch stays, and does not include the pointer of a block inside it. */
  lemma SizesAround(bs: seq<Block>, i: nat, lo: nat, hi: nat, mid: seq<Block>)
    returns (l: map<int, int>, r: map<int, int>)
    requires Tiles(bs) && lo <= i < hi <= |bs|
    ensures Sizes(bs) == l + Sizes(bs[lo..hi]) + r
    ensures Sizes(Patch(bs, lo, hi, mid)) == l + Sizes(mid) + r
    ensures bs[i].addr + HEADER !in l && bs[i].addr + HEADER !in r
  {
    l, r := Sizes(bs[..lo]), Sizes(bs[hi..]);
    PatchSizes(bs, lo, hi, mid);
    PatchSizes(bs, lo, hi, bs[lo..hi]);
    PatchSelf(bs, lo, hi);
    SpansSplit(bs, lo, HEAP_START, HEAP_END);
    SpansSplit(bs, hi, HEAP_START, HEAP_END);
    SizesInside(bs[..lo], HEAP_START, bs[lo].addr);
    SizesInside(bs[hi..], if hi < |bs| then bs[hi].addr else HEAP_END, HEAP_END);
    BlockAt(bs, i);
    if lo < i {
      Ordered(bs, lo, i);
      BlockAt(bs, lo);
    }
    if hi < |bs| {
      Ordered(bs, i, hi);
    }
  }

  /** A pointer between what is allocated before and behind it comes and goes alone. */
  lemma Middle(less: map<int, int>, more: map<int, int>, l: map<int, int>, r: map<int, int>, p: int, s: int)
    requires p !in l && p !in r && less == l + map[] + r && more == l + map[p := s] + r
    ensures more == less[p := s] && less == more - {p} && p !in less
  {
  }

  /** Putting `mid` in the place of a free block allocates what `mid` allocates at its address. */
  lemma PatchAllocates(bs: seq<Block>, i: nat, mid: seq<Block>, p: int, size: int)
    requires Tiles(bs) && i < |bs| && !bs[i].used && p == bs[i].addr + HEADER && Sizes(mid) == map[p := size]
    ensures p !in Sizes(bs) && Sizes(Patch(bs, i, i + 1, mid)) == Sizes(bs)[p := size]
  {
    var l, r := SizesAround(bs, i, i, i + 1, mid);
    assert bs[i..i + 1] == [bs[i]];
    FreeSizesOne(bs[i]);
    Middle(Sizes(bs), Sizes(Patch(bs, i, i + 1, mid)), l, r, p, size);
  }

  /** Putting a free block in the place of others frees the one that was allocated. */
  lemma PatchFrees(bs: seq<Block>, i: nat, lo: nat, hi: nat, m: Block, p: int, size: int)
    requires Tiles(bs) && lo <= i < hi <= |bs| && !m.used
    requires p == bs[i].addr + HEADER && Sizes(bs[lo..hi]) == map[p := size]
    ensures Sizes(Patch(bs, lo, hi, [m])) == Sizes(bs) - {p}
  {
    var l, r := SizesAround(bs, i, lo, hi, [m]);
    FreeSizesOne(m);
    Middle(Sizes(Patch(bs, lo, hi, [m])), Sizes(bs), l, r, p, size);
  }

  lemma CarveSizes(bs: seq<Block>, i: nat, s: int)
    requires Tiles(bs) && i < |bs| && Fits(bs[i], s)
    ensures var p := bs[i].addr + HEADER;
            p !in Sizes(bs) && Sizes(Carve(bs, i, s)) == Sizes(bs)[p := Granted(bs[i], s)]
  {
    CutSizes(bs[i], s);
    PatchAllocates(bs, i, Cut(bs[i], s), bs[i].addr + HEADER, Granted(bs[i], s));
  }

  lemma FreeSizesOne(b: Block)
    requires !b.used
    ensures Sizes([b]) == map[]
  {
  }

  lemma CutSizes(b: Block, s: int)
    requires Fits(b, s)
    ensures Sizes(Cut(b, s)) == map[b.addr + HEADER := Granted(b, s)]
  {
    SizesAmongFree(Cut(b, s), 0);
  }

  lemma ReleaseSizes(bs: seq<Block>, i: nat)
    requires Tiles(bs) && i < |bs| && bs[i].used
    ensures Sizes(Release(bs, i)) == Sizes(bs) - {bs[i].addr + HEADER}
  {
    var lo, hi := First(bs, i), Last(bs, i);
    OthersFree(bs, i);
    SizesAmongFree(bs[lo..hi], i - lo);
    PatchFrees(bs, i, lo, hi, Merged(bs, lo, hi), bs[i].addr + HEADER, bs[i].size);
  }

  /** `kmalloc` adds a pointer that was not allocated, with the rounded request and at most 16 bytes more. */
  lemma MallocSizes(bs: seq<Block>, n: Word)
    requires WellFormed(bs) && Malloc(bs, n).1 != 0
    ensures WellFormed(Malloc(bs, n).0)
    ensures var p, m := Malloc(bs, n).1, Sizes(Malloc(bs, n).0);
            p !in Sizes(bs) && p in m && m == Sizes(bs)[p := m[p]] && Round(n) <= m[p] <= Round(n) + HEADER + 4
  {
    MallocEffect(bs, n);
    CarveSizes(bs, FirstFit(bs, Round(n)), Round(n));
  }

  /** `kfree` removes its pointer and leaves every other allocation as it is. */
  lemma FreeSizes(bs: seq<Block>, p: int)
    requires WellFormed(bs)
    ensures WellFormed(Free(bs, p)) && Sizes(Free(bs, p)) == Sizes(bs) - {p}
  {
    FreeEffect(bs, p);
    var i := Find(bs, p - HEADER);
    if i < |bs| && bs[i].used {
      BlockAt(bs, i);
      ReleaseSizes(bs, i);
    } else {
      Unallocated(bs, p);
      assert Sizes(bs) - {p} == Sizes(bs);
    }
  }

  lemma Unallocated(bs: seq<Block>, p: int)
    requires Tiles(bs)
    requires var i := Find(bs, p - HEADER); i < |bs| ==> !bs[i].used
    ensures p !in Sizes(bs)
  {
    var i := Find(bs, p - HEADER);
    if i == |bs| {
      NotAllocated(bs, p);
    } else {
      CutSizes(bs[i], bs[i].size);
      PatchAllocates(bs, i, Cut(bs[i], bs[i].size), p, bs[i].size);
    }
  }

  lemma {:induction false} SizesAmongFree(bs: seq<Block>, k: nat)
    requires k < |bs| && bs[k].used && forall j :: 0 <= j < |bs| && j != k ==> !bs[j].used
    ensures Sizes(bs) == map[bs[k].addr + HEADER := bs[k].size]
  {
    if k == 0 {
      NothingAllocated(bs[1..]);
    } else {
      SizesAmongFree(bs[1..], k - 1);
    }
  }

  lemma {:induction false} NothingAllocated(bs: seq<Block>)
    requires forall j :: 0 <= j < |bs| ==> !bs[j].used
    ensures Sizes(bs) == map[]
  {
    if bs != [] {
      NothingAllocated(bs[1..]);
    }
  }

  lemma {:induction false} NotAllocated(bs: seq<Block>, p: int)
    requires Find(bs, p - HEADER) == |bs|
    ensures p !in Sizes(bs)
  {
    if bs != [] {
      NotAllocated(bs[1..], p);
    }
  }

  /** An allocated block lies inside the heap, and its pointer is one `kfree` accepts. */
  lemma AllocatedInside(bs: seq<Block>, p: int)
    requires WellFormed(bs) && p in Sizes(bs)
    ensures HEAP_START + HEADER <= p <= HEAP_END - Sizes(bs)[p] && Sizes(bs)[p] >= 0
    ensures Find(bs, p - HEADER) < |bs|
  {
    SizesInside(bs, HEAP_START, HEAP_END);
    if Find(bs, p - HEADER) == |bs| {
      NotAllocated(bs, p);
    }
  }

  /** A block is live exactly when its pointer is allocated with its size. */
  lemma {:induction false} SizesLive(bs: seq<Block>, lo: int, hi: int, b: Block)
    requires Spans(bs, lo, hi) && b.used
    ensures b in Live(bs) <==> b.addr + HEADER in Sizes(bs) && Sizes(bs)[b.addr + HEADER] == b.size
  {
    if bs != [] {
      SizesLive(bs[1..], bs[0].End(), hi, b);
      SizesInside(bs[1..], bs[0].End(), hi);
      assert b in bs <==> b == bs[0] || b in bs[1..];
    }
  }

  /** The allocated pointers and their sizes determine the whole layout. */
  lemma SameSizesSameLayout(xs: seq<Block>, ys: seq<Block>)
    requires WellFormed(xs) && WellFormed(ys) && Sizes(xs) == Sizes(ys)
    ensures xs == ys
  {
    forall b: Block | b.used ensures b in Live(xs) <==> b in Live(ys) {
      SizesLive(xs, HEAP_START, HEAP_END, b);
      SizesLive(ys, HEAP_START, HEAP_END, b);
    }
    Canonical(xs, ys);
  }

  // ----- order does not matter, and frees undo allocations

  /** Frees in either order reach the same layout. */
  lemma FreesCommute(bs: seq<Block>, p: int, q: int)
    requires WellFormed(bs)
    ensures Free(Free(bs, p), q) == Free(Free(bs, q), p)
  {
    FreeEffect(bs, p);
    FreeEffect(bs, q);
    FreeEffect(Free(bs, p), q);
    FreeEffect(Free(bs, q), p);
    Canonical(Free(Free(bs, p), q), Free(Free(bs, q), p));
  }

  function FreeAll(bs: seq<Block>, ps: seq<int>): seq<Block>
    decreases |ps|
  {
    if ps == [] then bs else FreeAll(Free(bs, ps[0]), ps[1..])
  }

  lemma {:induction false} FreeAllEffect(bs: seq<Block>, ps: seq<int>)
    requires WellFormed(bs)
    ensures WellFormed(FreeAll(bs, ps))
    ensures Live(FreeAll(bs, ps)) == set b | b in Live(bs) && b.addr + HEADER !in ps
    decreases |ps|
  {
    if ps != [] {
      var cs := Free(bs, ps[0]);
      FreeEffect(bs, ps[0]);
      FreeAllEffect(cs, ps[1..]);
      forall b | b in Live(bs) ensures b.addr + HEADER !in ps <==> b in Live(cs) && b.addr + HEADER !in ps[1..] {
        InHeadOrTail(ps, b.addr + HEADER);
      }
    }
  }

  lemma InHeadOrTail(ps: seq<int>, p: int)
    requires ps != []
    ensures p in ps <==> p == ps[0] || p in ps[1..]
  {
    assert ps == [ps[0]] + ps[1..];
  }

  /** The layout after a batch of frees depends on which pointers are freed, not on their order. */
  lemma FreeOrderIrrelevant(bs: seq<Block>, ps: seq<int>, qs: seq<int>)
    requires WellFormed(bs)
    requires forall p :: p in ps <==> p in qs
    ensures FreeAll(bs, ps) == FreeAll(bs, qs)
  {
    FreeAllEffect(bs, ps);
    FreeAllEffect(bs, qs);
    Canonical(FreeAll(bs, ps), FreeAll(bs, qs));
  }

  /** Once every live block has been freed, in any order, the heap is the single initial block again. */
  lemma FreeEverything(bs: seq<Block>, ps: seq<int>)
    requires WellFormed(bs)
    requires forall b :: b in Live(bs) ==> b.addr + HEADER in ps
    ensures FreeAll(bs, ps) == INITIAL
  {
    FreeAllEffect(bs, ps);
    InitialWellFormed();
    Canonical(FreeAll(bs, ps), INITIAL);
  }

  lemma InitialWellFormed()
    ensures WellFormed(INITIAL) && Live(INITIAL) == {}
  {
  }

  /** `kfree(kmalloc(n))` restores the layout, whether or not the block was split. */
  lemma FreeUndoesMalloc(bs: seq<Block>, n: Word)
    requires WellFormed(bs)
    ensures Free(Malloc(bs, n).0, Malloc(bs, n).1) == bs
  {
    var (cs, p) := Malloc(bs, n);
    MallocEffect(bs, n);
    if p != 0 {
      FreeEffect(cs, p);
      LiveAddress(bs, cs, p);
      Canonical(Free(cs, p), bs);
    }
  }

  /** A live block starts where no other live block starts. */
  lemma LiveAddress(bs: seq<Block>, cs: seq<Block>, p: int)
    requires WellFormed(cs)
    requires exists b: Block :: b.used && b.addr + HEADER == p && b !in Live(bs) && Live(cs) == Live(bs) + {b}
    ensures Live(bs) == set c | c in Live(cs) && c.addr + HEADER != p
  {
    var b: Block :| b.used && b.addr + HEADER == p && b !in Live(bs) && Live(cs) == Live(bs) + {b};
    AllOrdered(cs);
    assert b in Live(cs);
  }

  /** Live blocks do not overlap, headers included. */
  lemma LiveDisjoint(bs: seq<Block>, b: Block, c: Block)
    requires WellFormed(bs) && b in Live(bs) && c in Live(bs) && b != c
    ensures b.End() <= c.addr || c.End() <= b.addr
  {
    var i, j :| 0 <= i < |bs| && 0 <= j < |bs| && bs[i] == b && bs[j] == c;
    if i < j {
      Ordered(bs, i, j);
    } else {
      Ordered(bs, j, i);
    }
  }

  // ----- completeness

  /** `[a, a + HEADER + s)` lies in the heap and meets no live block, header included. */
  ghost predicate Gap(bs: seq<Block>, a: int, s: int) {
    && HEAP_START <= a && a + HEADER + s <= HEAP_END
    && forall b :: b in Live(bs) ==> b.End() <= a || a + HEADER + s <= b.addr
  }

  /** A gap lies inside one free block, because neighbouring free blocks have been joined. */
  lemma GapInBlock(bs: seq<Block>, a: int, s: int) returns (i: nat)
    requires WellFormed(bs) && s >= 0 && Gap(bs, a, s)
    ensures i < |bs| && Fits(bs[i], s) && bs[i].addr <= a
  {
    Shape(bs);
    i := Covering(bs, a, |bs| - 1);
    if a + HEADER + s > bs[i].End() {
      LiveAfterFree(bs, i);
      assert false;
    }
  }

  /**
   For a nonzero request, `kmalloc` fails exactly when no stretch of memory free of live blocks
   can hold a header and the rounded size, and otherwise it takes the lowest such stretch.
   */
  lemma MallocComplete(bs: seq<Block>, n: Word)
    requires WellFormed(bs) && n != 0
    ensures Malloc(bs, n).1 == 0 <==> !exists a :: Gap(bs, a, Round(n))
    ensures Malloc(bs, n).1 != 0 ==> Gap(bs, Malloc(bs, n).1 - HEADER, Round(n))
    ensures Malloc(bs, n).1 != 0 ==> forall a :: Gap(bs, a, Round(n)) ==> Malloc(bs, n).1 - HEADER <= a
  {
    var s := Round(n);
    var i := FirstFit(bs, s);
    AllOrdered(bs);
    forall a | Gap(bs, a, s) ensures i < |bs| && bs[i].addr <= a {
      var j := GapInBlock(bs, a, s);
      BlockAt(bs, j);
    }
    if i < |bs| {
      BlockAt(bs, i);
      assert Gap(bs, bs[i].addr, s);
    }
  }

  /** At a free block, the memory free of live blocks is the block. */
  lemma GapAtBlock(bs: seq<Block>, i: nat, s: int)
    requires WellFormed(bs) && i < |bs| && !bs[i].used && s >= 0
    ensures Gap(bs, bs[i].addr, s) <==> s <= bs[i].size
  {
    BlockAt(bs, i);
    if s <= bs[i].size {
      AllOrdered(bs);
    } else if bs[i].End() < HEAP_END {
      LiveAfterFree(bs, i);
      BlockAt(bs, i + 1);
    }
  }

  /** What a successful call grants: the rounded size, or the whole block when less than 20 bytes would be left. */
  lemma MallocGrants(bs: seq<Block>, n: Word) returns (b: Block)
    requires WellFormed(bs) && Malloc(bs, n).1 != 0
    ensures b.used && b.addr + HEADER == Malloc(bs, n).1 && b !in Live(bs)
    ensures Live(Malloc(bs, n).0) == Live(bs) + {b}
    ensures Gap(bs, b.addr, b.size) && b.size % 4 == 0
    ensures if Gap(bs, b.addr, Round(n) + 20) then b.size == Round(n)
            else Round(n) <= b.size && !Gap(bs, b.addr, b.size + 1)
  {
    var s := Round(n);
    var i := FirstFit(bs, s);
    BlockAt(bs, i);
    CarveLive(bs, i, s);
    b := Block(bs[i].addr, Granted(bs[i], s), true);
    NotYetLive(bs, i, b);
    GapAtBlock(bs, i, s + 20);
    GapAtBlock(bs, i, b.size);
    GapAtBlock(bs, i, b.size + 1);
    Nearby(bs[i].size, s + 20);
  }

  lemma NotYetLive(bs: seq<Block>, i: nat, b: Block)
    requires Tiles(bs) && i < |bs| && !bs[i].used && b.used && b.addr == bs[i].addr
    ensures b !in Live(bs)
  {
    AllOrdered(bs);
  }

  /**
   Every nonzero request, in terms of the bytes `s` it rounds up to: it fails exactly when no gap
   holds them; otherwise the block starts at the lowest gap that does, and is exactly as large if
   the gap has room for a header and 8 bytes more, and else as large as the gap.
   */
  lemma MallocExact(bs: seq<Block>, n: Word, s: int)
    requires WellFormed(bs) && n != 0 && RoundedUp(n, s)
    ensures Malloc(bs, n).1 == 0 <==> !exists a :: Gap(bs, a, s)
    ensures Malloc(bs, n).1 != 0 ==> Gap(bs, Malloc(bs, n).1 - HEADER, s)
    ensures Malloc(bs, n).1 != 0 ==> forall a :: Gap(bs, a, s) ==> Malloc(bs, n).1 - HEADER <= a
    ensures Malloc(bs, n).1 != 0 ==> exists b: Block :: GrantedFor(bs, n, s, b)
  {
    RoundExact(n, s);
    MallocComplete(bs, n);
    if Malloc(bs, n).1 != 0 {
      var b := MallocGrants(bs, n);
      GrantBounds(bs, b, s);
      assert GrantedFor(bs, n, s, b);
    }
  }

  /** `b` is what `kmalloc(n)` adds, at most 16 bytes larger than the rounded size `s`. */
  ghost predicate GrantedFor(bs: seq<Block>, n: Word, s: int, b: Block) {
    && b.used && b.addr + HEADER == Malloc(bs, n).1 && b !in Live(bs)
    && Live(Malloc(bs, n).0) == Live(bs) + {b}
    && s <= b.size <= s + 16 && (n <= 0xFFFF_FFFC ==> n <= b.size <= n + 3 + 16)
    && if Gap(bs, b.addr, s + 20) then b.size == s else Gap(bs, b.addr, b.size) && !Gap(bs, b.addr, b.size + 1)
  }

  lemma GrantBounds(bs: seq<Block>, b: Block, s: int)
    requires s >= 0 && s % 4 == 0 && b.size % 4 == 0 && s <= b.size && Gap(bs, b.addr, b.size)
    requires Gap(bs, b.addr, s + 20) ==> b.size == s
    ensures b.size <= s + 16
  {
    Nearby(b.size, s + 20);
  }

  /** `sizeof(fs_node_t)` bytes on the fresh heap get a block of exactly 172, with the next header right behind. */
  lemma NodeRequest()
    ensures Malloc(INITIAL, 172).1 == 0x40_000C
    ensures Malloc(INITIAL, 172).0
            == [Block(0x40_0000, 172, true), Block(0x40_00B8, 0x40_0000 - 12 - 172 - 12, false)]
  {
    RoundExact(172, 172);
  }

  /** The caller gets the bytes it asked for exactly when the rounding does not wrap. */
  lemma MallocSuffices(bs: seq<Block>, n: Word)
    requires WellFormed(bs) && Malloc(bs, n).1 != 0
    ensures (exists b :: b in Live(Malloc(bs, n).0) && b.addr + HEADER == Malloc(bs, n).1 && b.size >= n)
            <==> n <= 0xFFFF_FFFC
  {
    MallocEffect(bs, n);
    AllOrdered(Malloc(bs, n).0);
  }

  /** Requests whose rounding wraps succeed exactly when any block is free, however small. */
  lemma HugeRequest(bs: seq<Block>, n: Word)
    requires WellFormed(bs) && n > 0xFFFF_FFFC
    ensures Malloc(bs, n).1 != 0 <==> exists i :: 0 <= i < |bs| && !bs[i].used
  {
    assert Round(n) == 0;
    var i := FirstFit(bs, 0);
    if i < |bs| {
      BlockAt(bs, i);
    }
    forall j | 0 <= j < |bs| && !bs[j].used ensures i < |bs| {
      BlockAt(bs, j);
      assert Fits(bs[j], 0);
    }
  }

  /** The largest request succeeds on the fresh heap and gets a block of no bytes. */
  lemma HugeRequestSucceeds()
    ensures Malloc(INITIAL, 0xFFFF_FFFF).1 == HEAP_START + HEADER
    ensures Malloc(INITIAL, 0xFFFF_FFFF).0[0] == Block(HEAP_START, 0, true)
  {
    assert Round(0xFFFF_FFFF) == 0;
  }

  // ----- runs

  /**
   A `kfree` is meant for null or a payload of the heap, used or freed.  For any other pointer the
   code reads a header where there is none and may write to it; here `Free` is then the identity,
   so that runs with such calls say nothing about the code.  `HeapRuns` excludes them.
   */
  datatype Op = KMalloc(n: Word) | KFree(p: int)

  function Step(bs: seq<Block>, op: Op): seq<Block> {
    match op
    case KMalloc(n) => Malloc(bs, n).0
    case KFree(p) => Free(bs, p)
  }

  function Run(bs: seq<Block>, ops: seq<Op>): seq<Block>
    decreases |ops|
  {
    if ops == [] then bs else Run(Step(bs, ops[0]), ops[1..])
  }

  lemma {:induction false} RunWellFormed(bs: seq<Block>, ops: seq<Op>)
    requires WellFormed(bs)
    ensures WellFormed(Run(bs, ops))
    decreases |ops|
  {
    if ops != [] {
      match ops[0] {
        case KMalloc(n) => MallocEffect(bs, n);
        case KFree(p) => FreeEffect(bs, p);
      }
      RunWellFormed(Step(bs, ops[0]), ops[1..]);
    }
  }

  /** Two histories that leave the same blocks live leave the same heap. */
  lemma HistoryIrrelevant(ops: seq<Op>, ops': seq<Op>)
    requires Live(Run(INITIAL, ops)) == Live(Run(INITIAL, ops'))
    ensures Run(INITIAL, ops) == Run(INITIAL, ops')
  {
    InitialWellFormed();
    RunWellFormed(INITIAL, ops);
    RunWellFormed(INITIAL, ops');
    Canonical(Run(INITIAL, ops), Run(INITIAL, ops'));
  }

  // ----- accounting

  function UsedBytes(bs: seq<Block>): int {
    if bs == [] then 0 else (if bs[0].used then bs[0].size else 0) + UsedBytes(bs[1..])
  }

  function FreeBytes(bs: seq<Block>): int {
    if bs == [] then 0 else (if bs[0].used then 0 else bs[0].size) + FreeBytes(bs[1..])
  }

  lemma {:induction false} Conservation(bs: seq<Block>, lo: int, hi: int)
    requires Spans(bs, lo, hi)
    ensures UsedBytes(bs) + FreeBytes(bs) + HEADER * |bs| == hi - lo
    ensures UsedBytes(bs) >= 0 && FreeBytes(bs) >= 0
  {
    if bs != [] {
      Conservation(bs[1..], bs[0].End(), hi);
    }
  }

  lemma {:induction false} UsedConcat(xs: seq<Block>, ys: seq<Block>)
    ensures UsedBytes(xs + ys) == UsedBytes(xs) + UsedBytes(ys)
  {
    if xs == [] {
      assert xs + ys == ys;
    } else {
      UsedConcat(xs[1..], ys);
      assert (xs + ys)[1..] == xs[1..] + ys;
    }
  }

  lemma PatchUsed(bs: seq<Block>, i: nat, j: nat, mid: seq<Block>)
    requires i <= j <= |bs|
    ensures UsedBytes(Patch(bs, i, j, mid)) == UsedBytes(bs[..i]) + UsedBytes(mid) + UsedBytes(bs[j..])
  {
    UsedConcat(bs[..i] + mid, bs[j..]);
    UsedConcat(bs[..i], mid);
  }

  lemma UsedAround(bs: seq<Block>, i: nat, j: nat)
    requires i <= j <= |bs|
    ensures UsedBytes(bs) == UsedBytes(bs[..i]) + UsedBytes(bs[i..j]) + UsedBytes(bs[j..])
  {
    PatchUsed(bs, i, j, bs[i..j]);
    PatchSelf(bs, i, j);
  }

  lemma UsedTwo(a: Block, b: Block)
    ensures UsedBytes([a, b]) == UsedBytes([a]) + UsedBytes([b])
  {
    UsedConcat([a], [b]);
    assert [a] + [b] == [a, b];
  }

  lemma CarveUsed(bs: seq<Block>, i: nat, s: int)
    requires i < |bs| && Fits(bs[i], s)
    ensures UsedBytes(Carve(bs, i, s)) == UsedBytes(bs) + Granted(bs[i], s)
  {
    var mid := Cut(bs[i], s);
    if |mid| == 2 {
      UsedTwo(mid[0], mid[1]);
    }
    PatchUsed(bs, i, i + 1, mid);
    UsedAround(bs, i, i + 1);
  }

  lemma ReleaseUsed(bs: seq<Block>, i: nat)
    requires i < |bs| && bs[i].used
    ensures UsedBytes(Release(bs, i)) == UsedBytes(bs) - bs[i].size
  {
    var lo, hi := First(bs, i), Last(bs, i);
    PatchUsed(bs, lo, hi, [Merged(bs, lo, hi)]);
    UsedAround(bs, lo, hi);
    OthersFree(bs, i);
    UsedAmongFree(bs[lo..hi], i - lo);
  }

  lemma {:induction false} UsedAmongFree(bs: seq<Block>, k: nat)
    requires k < |bs| && forall j :: 0 <= j < |bs| && j != k ==> !bs[j].used
    requires bs[k].used
    ensures UsedBytes(bs) == bs[k].size
  {
    if k == 0 {
      NoneUsed(bs[1..]);
    } else {
      UsedAmongFree(bs[1..], k - 1);
    }
  }

  lemma {:induction false} NoneUsed(bs: seq<Block>)
    requires forall j :: 0 <= j < |bs| ==> !bs[j].used
    ensures UsedBytes(bs) == 0
  {
    if bs != [] {
      NoneUsed(bs[1..]);
    }
  }
}
