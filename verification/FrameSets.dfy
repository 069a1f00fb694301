/** Physical memory as a set of used frames, and what holds over every run of allocations and frees. */
module FrameSets {
  import opened Machine

  const FRAME := 4096
  const BITMAP_BYTES := 128 * 1024

  /** The numbers `0 .. n - 1`. */
  function Below(n: nat): (s: set<int>)
    ensures |s| == n
    ensures forall f :: f in s <==> 0 <= f < n
  {
    if n == 0 then {} else Below(n - 1) + {n - 1}
  }

  /** The numbers below `n` that are not in `[lo, hi)`. */
  ghost function AllBut(n: nat, lo: nat, hi: nat): (s: set<int>)
    ensures forall f :: f in s <==> 0 <= f < n && !(lo <= f < hi)
  {
    if hi <= lo then Below(n) else AllBut(n, lo, hi - 1) - {hi - 1}
  }

  lemma AllButStep(n: nat, lo: nat, i: nat)
    requires lo <= i < n
    ensures i in AllBut(n, lo, i) && AllBut(n, lo, i + 1) == AllBut(n, lo, i) - {i}
  {
  }

  lemma AllButEnd(n: nat, lo: nat, i: nat)
    requires i >= n && i >= lo
    ensures AllBut(n, lo, i) == Below(if lo < n then lo else n)
  {
  }

  datatype Frames = Frames(total: int, used: set<int>) {
    ghost predicate Valid() {
      0 <= total < 0x10_0000 && forall f :: f in used ==> 0 <= f < total
    }

    /** The first free frame at or above `f`, or `total`. */
    function FirstFree(f: int): (r: int)
      requires 0 <= f <= total
      ensures f <= r <= total
      ensures r < total ==> r !in used
      ensures forall g :: f <= g < r ==> g in used
      decreases total - f
    {
      if f == total || f !in used then f else FirstFree(f + 1)
    }

    /** The frames after `pmm_alloc_page`, and the address it returns. */
    function Alloc(): (Frames, int)
      requires total >= 0
    {
      var f := FirstFree(0);
      if f == total then (this, 0) else (Frames(total, used + {f}), f * FRAME)
    }

    function Free(page: Word): Frames {
      Frames(total, used - {page / FRAME})
    }
  }

  /** First frame above the kernel and the bitmap, in 32-bit arithmetic. */
  function FreeStart(kernelEnd: Word): int {
    PageAlignUp(Wrap(PageAlignUp(kernelEnd) + BITMAP_BYTES)) / FRAME
  }

  /** The free memory starts right behind the bitmap, in 32-bit arithmetic. */
  lemma FreeStartExact(kernelEnd: Word)
    ensures FreeStart(kernelEnd) * 4096 == Wrap(PageAlignUp(kernelEnd) + 0x2_0000)
    ensures kernelEnd <= WORDS - BITMAP_BYTES - FRAME ==>
              FreeStart(kernelEnd) * 4096 == PageAlignUp(kernelEnd) + 0x2_0000
  {
    var k := PageAlignUp(kernelEnd);
    WrapAligned(k);
    AlignedStays(Wrap(k + BITMAP_BYTES));
  }

  lemma WrapAligned(k: Word)
    requires k % FRAME == 0
    ensures Wrap(k + BITMAP_BYTES) % FRAME == 0
    ensures k + BITMAP_BYTES < WORDS ==> Wrap(k + BITMAP_BYTES) == k + BITMAP_BYTES
  {
  }

  lemma AlignedStays(k: Word)
    requires k % FRAME == 0
    ensures PageAlignUp(k) == k && k / FRAME * FRAME == k
  {
  }

  /**
   Boot leaves kernel and bitmap, which starts at the page boundary above the kernel, out of reach
   exactly when the kernel ends 132 KiB below 4 GiB; and the same condition decides whether what
   is left out is as long as both.
   */
  lemma KernelReserved(kernelEnd: Word)
    ensures PageAlignUp(kernelEnd) >= kernelEnd && FreeStart(kernelEnd) * FRAME >= PageAlignUp(kernelEnd) + BITMAP_BYTES
            <==> kernelEnd <= WORDS - BITMAP_BYTES - FRAME
    ensures FreeStart(kernelEnd) * FRAME >= kernelEnd + BITMAP_BYTES <==> kernelEnd <= WORDS - BITMAP_BYTES - FRAME
  {
    FreeStartExact(kernelEnd);
    WrapOnce(PageAlignUp(kernelEnd));
  }

  lemma WrapOnce(k: Word)
    ensures Wrap(k + BITMAP_BYTES) == if k + BITMAP_BYTES < WORDS then k + BITMAP_BYTES else k + BITMAP_BYTES - WORDS
  {
  }

  /** A result of 0 means exhaustion exactly when frame 0 is not itself the free frame found. */
  lemma ZeroMeansExhausted(s: Frames)
    requires s.Valid()
    ensures s.Alloc().1 == 0 <==> (forall f :: 0 <= f < s.total ==> f in s.used) || (0 < s.total && 0 !in s.used)
  {
  }

  /** An allocation takes the lowest free frame `f`, and fails without effect when there is none below `total`. */
  lemma AllocLowest(s: Frames, f: int)
    requires s.Valid() && 0 <= f <= s.total && forall g :: 0 <= g < f ==> g in s.used
    ensures f < s.total && f !in s.used ==> s.Alloc() == (Frames(s.total, s.used + {f}), f * 4096)
    ensures f == s.total ==> s.Alloc() == (s, 0)
  {
  }

  /** A free gives back the frame that the address lies in, wherever in the frame it points, and no other. */
  lemma FreeEffect(s: Frames, page: Word, f: int)
    ensures f in s.Free(page).used <==> f in s.used && !(f * 4096 <= page < (f + 1) * 4096)
    ensures s.Free(page).total == s.total
  {
    assert page / FRAME == f <==> f * 4096 <= page < (f + 1) * 4096;
  }

  // ----- runs of one client that frees only what it holds

  datatype Client = Client(frames: Frames, held: set<int>)

  datatype Op = AllocPage | FreePage(f: int)

  function Step(c: Client, op: Op): Client
    requires c.frames.Valid()
    requires forall f :: f in c.held ==> 0 <= f < c.frames.total
  {
    match op
    case AllocPage =>
      var f := c.frames.FirstFree(0);
      if f == c.frames.total then c else Client(c.frames.Alloc().0, c.held + {f})
    case FreePage(f) =>
      if f in c.held then Client(c.frames.Free(f * FRAME), c.held - {f}) else c
  }

  /** The used frames are the reserved ones and the held ones, and no frame is both. */
  ghost predicate Accounted(c: Client, reserved: set<int>) {
    c.frames.Valid() && c.frames.used == reserved + c.held && reserved !! c.held
  }

  function Run(c: Client, ops: seq<Op>, ghost reserved: set<int>): (r: Client)
    requires Accounted(c, reserved)
    ensures Accounted(r, reserved)
    decreases |ops|
  {
    if ops == [] then c
    else
      StepAccounted(c, ops[0], reserved);
      Run(Step(c, ops[0]), ops[1..], reserved)
  }

  /** Every step keeps the account; an allocated frame was neither held nor reserved. */
  lemma StepAccounted(c: Client, op: Op, reserved: set<int>)
    requires Accounted(c, reserved)
    ensures Accounted(Step(c, op), reserved)
    ensures op.AllocPage? && Step(c, op) != c ==>
              exists f :: && f !in c.held && f !in reserved
                          && Step(c, op).held == c.held + {f} && c.frames.Alloc().1 == f * FRAME
  {
    var f := c.frames.FirstFree(0);
    if op.AllocPage? && f < c.frames.total {
      assert f !in c.frames.used && Step(c, op).held == c.held + {f};
    }
  }

  /** Over any run, a client holding nothing again has returned every frame that was not reserved. */
  lemma NothingLost(c: Client, ops: seq<Op>, reserved: set<int>)
    requires Accounted(c, reserved) && c.held == {}
    ensures Run(c, ops, reserved).held == {} ==> Run(c, ops, reserved).frames.used == c.frames.used
    ensures |Run(c, ops, reserved).frames.used| == |reserved| + |Run(c, ops, reserved).held|
  {
    var r := Run(c, ops, reserved);
    assert r.frames.used == reserved + r.held;
  }

  /** With frame 0 reserved at boot, a result of 0 means exhaustion at every point of every run. */
  lemma ZeroUnambiguous(c: Client, ops: seq<Op>, reserved: set<int>)
    requires Accounted(c, reserved) && 0 in reserved
    ensures var s := Run(c, ops, reserved).frames; s.Alloc().1 == 0 <==> forall f :: 0 <= f < s.total ==> f in s.used
  {
    ZeroMeansExhausted(Run(c, ops, reserved).frames);
  }
}
