/** How a heap layout is stored in the words of the heap: three header words per block, then its payload. */
module HeapWords {
  import opened Machine
  import opened HeapLayout

  const SLOTS := HEAP_SIZE / 4

  /** Index of the word at address `a`. */
  function Slot(a: int): int {
    (a - HEAP_START) / 4
  }

  /** The `next` field of block `i`. */
  ghost function Next(bs: seq<Block>, i: int): int
    requires -1 <= i < |bs|
  {
    if i + 1 < |bs| then bs[i + 1].addr else 0
  }

  /** The words of the header of block `i` hold its size, its state and the address of its successor. */
  ghost predicate HeaderAt(w: seq<Word>, bs: seq<Block>, i: int)
    requires 0 <= i < |bs|
  {
    var k := Slot(bs[i].addr);
    && 0 <= k && k + 3 <= |w|
    && w[k] == bs[i].size
    && w[k + 1] == (if bs[i].used then 1 else 0)
    && w[k + 2] == Next(bs, i)
  }

  ghost predicate Stored(w: seq<Word>, bs: seq<Block>) {
    |w| == SLOTS && forall i :: 0 <= i < |bs| ==> HeaderAt(w, bs, i)
  }

  /** Word `k` belongs to the payload of `b`. */
  ghost predicate InPayload(b: Block, k: int) {
    b.addr + HEADER <= HEAP_START + 4 * k < b.End()
  }

  /** A header is word-aligned and lies inside the heap. */
  lemma HeaderInside(bs: seq<Block>, i: nat)
    requires Tiles(bs) && i < |bs|
    ensures HEAP_START + 4 * Slot(bs[i].addr) == bs[i].addr && bs[i].size >= 0
    ensures 0 <= Slot(bs[i].addr) && Slot(bs[i].addr) + 3 + bs[i].size / 4 == Slot(bs[i].End()) <= SLOTS
  {
    BlockAt(bs, i);
  }

  /** Two blocks do not overlap. */
  lemma Apart(bs: seq<Block>, i: nat, j: nat)
    requires Tiles(bs) && i < j < |bs|
    ensures Slot(bs[i].End()) <= Slot(bs[j].addr)
  {
    Ordered(bs, i, j);
    HeaderInside(bs, i);
    HeaderInside(bs, j);
  }

  /** A word of a live payload lies in no other block, header included. */
  lemma PayloadApart(bs: seq<Block>, b: Block, k: int, i: nat)
    requires Tiles(bs) && b in bs && InPayload(b, k) && i < |bs|
    ensures k < Slot(bs[i].addr) || Slot(bs[i].addr) + 3 <= k
    ensures b != bs[i] ==> k < Slot(bs[i].addr) || Slot(bs[i].End()) <= k
    ensures 0 <= k < SLOTS
  {
    var j :| 0 <= j < |bs| && bs[j] == b;
    BlockAt(bs, i);
    BlockAt(bs, j);
    AllOrdered(bs);
  }

  /** The header at slot `n` of what is left over, then size and link of the header at `k`. */
  function Inserted(w: seq<Word>, k: int, n: int, rest: Word, s: Word, newBlock: Word): seq<Word>
    requires 0 <= k && k + 3 <= n && n + 3 <= |w|
  {
    w[n := rest][n + 1 := 0][n + 2 := w[k + 2]][k := s][k + 2 := newBlock]
  }

  /** The words written by a split, in the order the allocator writes them. */
  ghost function CutWords(w: seq<Word>, bs: seq<Block>, i: nat, s: Word): seq<Word>
    requires WellFormed(bs) && Stored(w, bs) && i < |bs| && Fits(bs[i], s) && s % 4 == 0
  {
    BlockAt(bs, i);
    var b := bs[i];
    var k := Slot(b.addr);
    if b.size > s + HEADER + 4 then
      var n := Slot(b.addr + HEADER + s);
      Inserted(w, k, n, b.size - s - HEADER, s, b.addr + HEADER + s)[k + 1 := 1]
    else
      w[k + 1 := 1]
  }

  lemma CutWordsSplit(w: seq<Word>, bs: seq<Block>, i: nat, s: Word, rest: Word, next: Word)
    requires WellFormed(bs) && Stored(w, bs) && i < |bs| && Fits(bs[i], s) && s % 4 == 0
    requires bs[i].size > s + HEADER + 4 && rest == bs[i].size - s - HEADER && next == bs[i].addr + HEADER + s
    ensures var k, n := Slot(bs[i].addr), Slot(next);
            && 0 <= k && k + 3 <= n && n + 3 <= |w|
            && CutWords(w, bs, i, s) == Inserted(w, k, n, rest, s, next)[k + 1 := 1]
  {
    HeaderInside(bs, i);
  }

  lemma CutWordsWhole(w: seq<Word>, bs: seq<Block>, i: nat, s: Word)
    requires WellFormed(bs) && Stored(w, bs) && i < |bs| && Fits(bs[i], s) && s % 4 == 0
    requires bs[i].size <= s + HEADER + 4
    ensures var k := Slot(bs[i].addr); 0 <= k && k + 3 <= |w| && CutWords(w, bs, i, s) == w[k + 1 := 1]
  {
    HeaderInside(bs, i);
  }

  /** A split writes only inside the block that is split. */
  lemma CutInside(w: seq<Word>, bs: seq<Block>, i: nat, s: Word)
    requires WellFormed(bs) && Stored(w, bs) && i < |bs| && Fits(bs[i], s) && s % 4 == 0
    ensures |CutWords(w, bs, i, s)| == |w|
    ensures forall k :: 0 <= k < |w| && !(Slot(bs[i].addr) <= k < Slot(bs[i].End())) ==>
              CutWords(w, bs, i, s)[k] == w[k]
  {
    HeaderInside(bs, i);
  }

  /** A block's header is stored again wherever its words and its successor are the same. */
  lemma HeaderSame(w: seq<Word>, bs: seq<Block>, i: nat, w': seq<Word>, cs: seq<Block>, j: nat)
    requires i < |bs| && j < |cs| && HeaderAt(w, bs, i)
    requires cs[j] == bs[i] && Next(cs, j) == Next(bs, i)
    requires var k := Slot(bs[i].addr); |w'| == |w| && w'[k] == w[k] && w'[k + 1] == w[k + 1] && w'[k + 2] == w[k + 2]
    ensures HeaderAt(w', cs, j)
  {
  }

  /** The header words of a block, as values. */
  ghost predicate HeaderWords(w: seq<Word>, k: int, size: int, state: int, next: int) {
    0 <= k && k + 3 <= |w| && w[k] == size && w[k + 1] == state && w[k + 2] == next
  }

  /** What a split writes. */
  lemma SplitWords(w: seq<Word>, bs: seq<Block>, i: nat, s: Word)
    requires WellFormed(bs) && Stored(w, bs) && i < |bs| && Fits(bs[i], s) && s % 4 == 0
    requires bs[i].size > s + HEADER + 4
    ensures var b, w' := bs[i], CutWords(w, bs, i, s);
            && HeaderWords(w', Slot(b.addr), s, 1, b.addr + HEADER + s)
            && HeaderWords(w', Slot(b.addr + HEADER + s), b.size - s - HEADER, 0, Next(bs, i))
  {
    assert HeaderAt(w, bs, i);
    HeaderInside(bs, i);
  }

  /** What is written when the whole block is taken. */
  lemma WholeWords(w: seq<Word>, bs: seq<Block>, i: nat, s: Word)
    requires WellFormed(bs) && Stored(w, bs) && i < |bs| && Fits(bs[i], s) && s % 4 == 0
    requires bs[i].size <= s + HEADER + 4
    ensures HeaderWords(CutWords(w, bs, i, s), Slot(bs[i].addr), bs[i].size, 1, Next(bs, i))
  {
    assert HeaderAt(w, bs, i);
    HeaderInside(bs, i);
  }

  /** The blocks of a carved layout: `d` more than before. */
  lemma CarvedBlocks(bs: seq<Block>, i: nat, s: int, j: nat)
    requires i < |bs| && j < |Carve(bs, i, s)|
    ensures var cs, mid := Carve(bs, i, s), Cut(bs[i], s);
            var d := |mid| - 1;
            && |cs| == |bs| + d
            && cs[j] == if j < i then bs[j] else if j <= i + d then mid[j - i] else bs[j - d]
  {
  }

  lemma CarvedNext(bs: seq<Block>, i: nat, s: int, j: nat)
    requires i < |bs| && j < |Carve(bs, i, s)|
    ensures var cs, mid := Carve(bs, i, s), Cut(bs[i], s);
            var d := |mid| - 1;
            Next(cs, j) == if j < i then Next(bs, j) else if j < i + d then mid[1].addr else Next(bs, j - d)
  {
    CarvedBlocks(bs, i, s, j);
    if j + 1 < |Carve(bs, i, s)| {
      CarvedBlocks(bs, i, s, j + 1);
    }
  }

  lemma CarvedBefore(w: seq<Word>, bs: seq<Block>, i: nat, s: Word, j: nat)
    requires WellFormed(bs) && Stored(w, bs) && i < |bs| && Fits(bs[i], s) && s % 4 == 0 && j < i
    ensures HeaderAt(CutWords(w, bs, i, s), Carve(bs, i, s), j)
  {
    CutInside(w, bs, i, s);
    Apart(bs, j, i);
    HeaderInside(bs, j);
    CarvedBlocks(bs, i, s, j);
    CarvedNext(bs, i, s, j);
    HeaderSame(w, bs, j, CutWords(w, bs, i, s), Carve(bs, i, s), j);
  }

  lemma CarvedAfter(w: seq<Word>, bs: seq<Block>, i: nat, s: Word, j: nat)
    requires WellFormed(bs) && Stored(w, bs) && i < |bs| && Fits(bs[i], s) && s % 4 == 0 && i < j < |bs|
    ensures HeaderAt(CutWords(w, bs, i, s), Carve(bs, i, s), j + |Cut(bs[i], s)| - 1)
  {
    var d := |Cut(bs[i], s)| - 1;
    CutInside(w, bs, i, s);
    Apart(bs, i, j);
    HeaderInside(bs, j);
    CarvedBlocks(bs, i, s, j + d);
    CarvedNext(bs, i, s, j + d);
    HeaderSame(w, bs, j, CutWords(w, bs, i, s), Carve(bs, i, s), j + d);
  }

  /** The headers a split writes. */
  lemma CutHeaders(w: seq<Word>, bs: seq<Block>, i: nat, s: Word, j: nat)
    requires WellFormed(bs) && Stored(w, bs) && i < |bs| && Fits(bs[i], s) && s % 4 == 0
    requires i <= j <= i + |Cut(bs[i], s)| - 1
    ensures HeaderAt(CutWords(w, bs, i, s), Carve(bs, i, s), j)
  {
    CarvedBlocks(bs, i, s, j);
    CarvedNext(bs, i, s, j);
    if bs[i].size > s + HEADER + 4 {
      SplitWords(w, bs, i, s);
    } else {
      WholeWords(w, bs, i, s);
    }
  }

  lemma CarveStored(w: seq<Word>, bs: seq<Block>, i: nat, s: Word)
    requires WellFormed(bs) && Stored(w, bs) && i < |bs| && Fits(bs[i], s) && s % 4 == 0
    ensures Stored(CutWords(w, bs, i, s), Carve(bs, i, s))
  {
    CutInside(w, bs, i, s);
    var d := |Cut(bs[i], s)| - 1;
    forall j | 0 <= j < |Carve(bs, i, s)| ensures HeaderAt(CutWords(w, bs, i, s), Carve(bs, i, s), j) {
      if j < i {
        CarvedBefore(w, bs, i, s, j);
      } else if j > i + d {
        CarvedAfter(w, bs, i, s, j - d);
      } else {
        CutHeaders(w, bs, i, s, j);
      }
    }
  }

  /** The words written when block `i` absorbs its successor. */
  ghost function JoinWords(w: seq<Word>, bs: seq<Block>, i: nat): seq<Word>
    requires Tiles(bs) && Stored(w, bs) && i + 1 < |bs|
  {
    BlockAt(bs, i);
    BlockAt(bs, i + 1);
    assert HeaderAt(w, bs, i + 1);
    var k := Slot(bs[i].addr);
    w[k := bs[i].size + HEADER + bs[i + 1].size][k + 2 := Next(bs, i + 1)]
  }

  lemma JoinStored(w: seq<Word>, bs: seq<Block>, i: nat)
    requires Tiles(bs) && Stored(w, bs) && i + 1 < |bs| && !bs[i].used
    ensures Stored(JoinWords(w, bs, i), Join(bs, i))
  {
    var w', cs := JoinWords(w, bs, i), Join(bs, i);
    HeaderInside(bs, i);
    forall j | 0 <= j < |cs| ensures HeaderAt(w', cs, j) {
      if j < i {
        Apart(bs, j, i);
        HeaderInside(bs, j);
        HeaderSame(w, bs, j, w', cs, j);
      } else if j > i {
        Apart(bs, i, j + 1);
        HeaderInside(bs, j + 1);
        HeaderSame(w, bs, j + 1, w', cs, j);
      } else {
        assert HeaderAt(w, bs, i);
        BlockAt(bs, i);
      }
    }
  }

  lemma UnuseStored(w: seq<Word>, bs: seq<Block>, i: nat)
    requires Tiles(bs) && Stored(w, bs) && i < |bs|
    ensures 0 <= Slot(bs[i].addr) && Slot(bs[i].addr) + 3 <= SLOTS
    ensures Stored(w[Slot(bs[i].addr) + 1 := 0], Unuse(bs, i))
  {
    HeaderInside(bs, i);
    var w', cs := w[Slot(bs[i].addr) + 1 := 0], Unuse(bs, i);
    forall j | 0 <= j < |cs| ensures HeaderAt(w', cs, j) {
      assert HeaderAt(w, bs, j);
      HeaderInside(bs, j);
      if j < i {
        Apart(bs, j, i);
      } else if i < j {
        Apart(bs, i, j);
      }
    }
  }

  // ----- what the writes leave alone

  /** The words in the payloads of `live` are the same in `w` and `w'`. */
  ghost predicate Kept(live: set<Block>, w: seq<Word>, w': seq<Word>) {
    |w| == |w'| && forall b, k :: b in live && InPayload(b, k) && 0 <= k < |w| ==> w[k] == w'[k]
  }

  lemma CutKeeps(w: seq<Word>, bs: seq<Block>, i: nat, s: Word)
    requires WellFormed(bs) && Stored(w, bs) && i < |bs| && Fits(bs[i], s) && s % 4 == 0
    ensures Kept(Live(bs), w, CutWords(w, bs, i, s))
  {
    var w' := CutWords(w, bs, i, s);
    CutInside(w, bs, i, s);
    forall b, k | b in Live(bs) && InPayload(b, k) && 0 <= k < |w| ensures w[k] == w'[k] {
      PayloadApart(bs, b, k, i);
    }
  }

  /** `w` and `w'` differ in no word but those of the header at slot `k`. */
  ghost predicate SameOutsideHeader(w: seq<Word>, w': seq<Word>, k: int) {
    |w| == |w'| && forall j :: 0 <= j < |w| && !(k <= j < k + 3) ==> w[j] == w'[j]
  }

  /** Writes confined to headers keep every payload. */
  lemma HeaderKeeps(w: seq<Word>, w': seq<Word>, bs: seq<Block>, i: nat)
    requires Tiles(bs) && i < |bs| && SameOutsideHeader(w, w', Slot(bs[i].addr))
    ensures Kept(Live(bs), w, w')
  {
    forall b, k | b in Live(bs) && InPayload(b, k) && 0 <= k < |w| ensures w[k] == w'[k] {
      PayloadApart(bs, b, k, i);
    }
  }

  lemma HeadersKeep(w: seq<Word>, w1: seq<Word>, w2: seq<Word>, w3: seq<Word>, bs: seq<Block>, i: nat, p: nat)
    requires Tiles(bs) && i < |bs| && p < |bs|
    requires SameOutsideHeader(w, w1, Slot(bs[i].addr))
    requires SameOutsideHeader(w1, w2, Slot(bs[i].addr))
    requires SameOutsideHeader(w2, w3, Slot(bs[p].addr))
    ensures Kept(Live(bs), w, w3)
  {
    HeaderKeeps(w, w1, bs, i);
    HeaderKeeps(w1, w2, bs, i);
    HeaderKeeps(w2, w3, bs, p);
  }

  lemma StoreKeeps(w: seq<Word>, bs: seq<Block>, b: Block, k: nat, v: Word)
    requires Tiles(bs) && Stored(w, bs) && b in bs && InPayload(b, k)
    ensures k < |w| && Stored(w[k := v], bs)
    ensures Kept(Live(bs) - {b}, w, w[k := v])
  {
    PayloadApart(bs, b, k, 0);
    var w' := w[k := v];
    forall i | 0 <= i < |bs| ensures HeaderAt(w', bs, i) {
      PayloadApart(bs, b, k, i);
      assert HeaderAt(w, bs, i);
    }
    forall c, j | c in Live(bs) - {b} && InPayload(c, j) && 0 <= j < |w| ensures j != k {
      var i :| 0 <= i < |bs| && bs[i] == c;
      PayloadApart(bs, b, k, i);
      HeaderInside(bs, i);
      BlockAt(bs, i);
    }
  }
}
