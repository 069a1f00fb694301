/** The bitmap of the physical memory manager: one bit per frame in an array of 32-bit words. */
module FrameBitmap {
  import opened Machine
  import opened FrameSets

  const BITMAP_WORDS := BITMAP_BYTES / 4
  const BITS := BITMAP_WORDS * 32

  function Pow2(k: nat): nat
    ensures Pow2(k) > 0
  {
    if k == 0 then 1 else 2 * Pow2(k - 1)
  }

  /** Bit `k` of the binary expansion of `w`: `w & (1 << k)` is not zero. */
  predicate Bit(w: nat, k: nat) {
    if k == 0 then w % 2 == 1 else Bit(w / 2, k - 1)
  }

  /** `w | (1 << k)`. */
  function WithMask(w: Word, k: nat): (r: Word)
    requires k < 32
  {
    if Bit(w, k) then w
    else
      Pow2Of32();
      WithMaskFits(w, k, 32);
      w + Pow2(k)
  }

  /** `w & ~(1 << k)`. */
  function WithoutMask(w: Word, k: nat): (r: Word)
    requires k < 32
  {
    if Bit(w, k) then
      WithoutMaskBits(w, k, 0);
      w - Pow2(k)
    else w
  }

  lemma Pow2Of32()
    ensures Pow2(32) == WORDS
  {
    assert Pow2(8) == 0x100;
    assert Pow2(16) == 0x1_0000;
    assert Pow2(24) == 0x100_0000;
  }

  lemma {:induction false} WithMaskFits(w: nat, k: nat, n: nat)
    requires w < Pow2(n) && k < n && !Bit(w, k)
    ensures w + Pow2(k) < Pow2(n)
  {
    if k == 0 {
      EvenBelow(w, Pow2(n - 1));
    } else {
      Halves(w, Pow2(k - 1), Pow2(n - 1));
      WithMaskFits(w / 2, k - 1, n - 1);
    }
  }

  lemma EvenBelow(w: nat, q: nat)
    requires w < 2 * q && w % 2 == 0
    ensures w + 1 < 2 * q
  {
  }

  lemma Halves(w: nat, p: nat, q: nat)
    requires w < 2 * q
    ensures w / 2 < q
    ensures w / 2 + p < q ==> w + 2 * p < 2 * q
  {
  }

  lemma {:induction false} WithMaskBits(w: nat, k: nat, j: nat)
    requires !Bit(w, k)
    ensures Bit(w + Pow2(k), j) <==> j == k || Bit(w, j)
  {
    if k > 0 {
      assert (w + Pow2(k)) / 2 == w / 2 + Pow2(k - 1);
      if j > 0 {
        WithMaskBits(w / 2, k - 1, j - 1);
      }
    }
  }

  lemma {:induction false} WithoutMaskBits(w: nat, k: nat, j: nat)
    requires Bit(w, k)
    ensures w >= Pow2(k)
    ensures Bit(w - Pow2(k), j) <==> j != k && Bit(w, j)
  {
    if k > 0 {
      WithoutMaskBits(w / 2, k - 1, if j > 0 then j - 1 else 0);
      assert (w - Pow2(k)) / 2 == w / 2 - Pow2(k - 1);
    }
  }

  lemma {:induction false} AllOnes(n: nat, k: nat)
    requires k < n
    ensures Bit(Pow2(n) - 1, k)
  {
    if k > 0 {
      assert (Pow2(n) - 1) / 2 == Pow2(n - 1) - 1;
      AllOnes(n - 1, k - 1);
    }
  }

  ghost predicate Test(w: seq<Word>, f: int)
    requires 0 <= f < 32 * |w|
  {
    Bit(w[f / 32], f % 32)
  }

  /** Setting or clearing a bit of the bitmap changes that bit and no other, in its own word or elsewhere. */
  lemma OneBit(w: seq<Word>, f: int, g: int)
    requires 0 <= f < 32 * |w| && 0 <= g < 32 * |w|
    ensures Test(w[f / 32 := WithMask(w[f / 32], f % 32)], g) <==> g == f || Test(w, g)
    ensures Test(w[f / 32 := WithoutMask(w[f / 32], f % 32)], g) <==> g != f && Test(w, g)
  {
    if g / 32 == f / 32 {
      var x, k, j := w[f / 32], f % 32, g % 32;
      if Bit(x, k) {
        WithoutMaskBits(x, k, j);
      } else {
        WithMaskBits(x, k, j);
      }
    }
  }

  class FrameAllocator {
    const bitmap: array<Word>
    var totalMemory: Word
    var totalBlocks: int
    var usedBlocks: int

    /** The frames whose bit is set, below the end of memory. */
    ghost function Contents(): Frames
      reads this, bitmap
      requires bitmap.Length == BITMAP_WORDS && 0 <= totalBlocks <= BITS
    {
      Frames(totalBlocks, set f | 0 <= f < totalBlocks && Test(bitmap[..], f))
    }

    ghost predicate Valid()
      reads this, bitmap
    {
      && bitmap.Length == BITMAP_WORDS
      && totalBlocks == totalMemory / FRAME && 0 <= totalBlocks <= BITS
      && usedBlocks == |Contents().used|
      && forall f :: totalBlocks <= f < BITS ==> Test(bitmap[..], f)
    }

    method BitmapSet(f: int)
      requires bitmap.Length == BITMAP_WORDS && 0 <= f < BITS
      modifies bitmap
      ensures forall g :: 0 <= g < BITS ==> (Test(bitmap[..], g) <==> g == f || Test(old(bitmap[..]), g))
    {
      ghost var w := bitmap[..];
      var x := WithMask(bitmap[f / 32], f % 32);
      bitmap[f / 32] := x;
      assert bitmap[..] == w[f / 32 := x];
      forall g | 0 <= g < BITS ensures Test(bitmap[..], g) <==> g == f || Test(w, g) {
        OneBit(w, f, g);
      }
    }

    method BitmapClear(f: int)
      requires bitmap.Length == BITMAP_WORDS && 0 <= f < BITS
      modifies bitmap
      ensures forall g :: 0 <= g < BITS ==> (Test(bitmap[..], g) <==> g != f && Test(old(bitmap[..]), g))
    {
      ghost var w := bitmap[..];
      var x := WithoutMask(bitmap[f / 32], f % 32);
      bitmap[f / 32] := x;
      assert bitmap[..] == w[f / 32 := x];
      forall g | 0 <= g < BITS ensures Test(bitmap[..], g) <==> g != f && Test(w, g) {
        OneBit(w, f, g);
      }
    }

    method BitmapTest(f: int) returns (r: bool)
      requires bitmap.Length == BITMAP_WORDS && 0 <= f < BITS
      ensures r == Test(bitmap[..], f)
    {
      r := Bit(bitmap[f / 32], f % 32);
    }

    /** Marks a free frame used, and counts it. */
    method Take(f: int)
      requires Valid() && 0 <= f < totalBlocks && f !in Contents().used
      modifies this`usedBlocks, bitmap
      ensures Valid() && Contents() == Frames(totalBlocks, old(Contents()).used + {f})
    {
      ghost var used := Contents().used;
      BitmapSet(f);
      usedBlocks := usedBlocks + 1;
      assert Contents().used == used + {f};
    }

    /** Marks a used frame free, and counts it. */
    method Release(f: int)
      requires Valid() && 0 <= f < totalBlocks && f in Contents().used
      modifies this`usedBlocks, bitmap
      ensures Valid() && Contents() == Frames(totalBlocks, old(Contents()).used - {f})
    {
      ghost var used := Contents().used;
      BitmapClear(f);
      usedBlocks := usedBlocks - 1;
      assert Contents().used == used - {f};
    }

    /** -1 when every frame below `totalBlocks` is used. */
    method BitmapFindFree() returns (r: int)
      requires Valid()
      ensures r == var f := Contents().FirstFree(0); if f < totalBlocks then f else -1
    {
      var i := 0;
      while i < totalBlocks
        invariant 0 <= i <= totalBlocks
        invariant Contents().FirstFree(0) == Contents().FirstFree(i)
      {
        var taken := BitmapTest(i);
        if !taken {
          return i;
        }
        i := i + 1;
      }
      return -1;
    }

    method AllocPage() returns (page: Word)
      requires Valid()
      modifies this`usedBlocks, bitmap
      ensures Valid()
      ensures (Contents(), page) == old(Contents()).Alloc()
    {
      var f := BitmapFindFree();
      if f < 0 {
        return 0;
      }
      Take(f);
      page := f * FRAME;
    }

    /** Any address: beyond memory or already free, nothing happens. */
    method FreePage(page: Word)
      requires Valid()
      modifies this`usedBlocks, bitmap
      ensures Valid()
      ensures Contents() == old(Contents()).Free(page)
    {
      var f := page / FRAME;
      ghost var used := Contents().used;
      if f >= totalBlocks {
        assert used - {f} == used;
        return;
      }
      var taken := BitmapTest(f);
      if !taken {
        assert used - {f} == used;
        return;
      }
      Release(f);
    }

    method FillBitmap()
      requires bitmap.Length == BITMAP_WORDS
      modifies bitmap
      ensures forall f :: 0 <= f < BITS ==> Test(bitmap[..], f)
    {
      for i := 0 to BITMAP_WORDS
        invariant forall j :: 0 <= j < i ==> bitmap[j] == 0xFFFF_FFFF
      {
        bitmap[i] := 0xFFFF_FFFF;
      }
      forall f | 0 <= f < BITS ensures Test(bitmap[..], f) {
        Pow2Of32();
        AllOnes(32, f % 32);
      }
    }

    /** One round of the loop below. */
    method ReleaseNext(freeStart: int, i: int)
      requires Valid() && 0 <= freeStart <= i < totalBlocks
      requires Contents() == Frames(totalBlocks, AllBut(totalBlocks, freeStart, i))
      modifies this`usedBlocks, bitmap
      ensures Valid() && Contents() == Frames(totalBlocks, AllBut(totalBlocks, freeStart, i + 1))
    {
      AllButStep(totalBlocks, freeStart, i);
      Release(i);
    }

    /** Frees the frames from `freeStart` to the end of memory, one bit at a time. */
    method ClearFrom(freeStart: int)
      requires Valid() && 0 <= freeStart
      requires Contents() == Frames(totalBlocks, AllBut(totalBlocks, freeStart, freeStart))
      modifies this`usedBlocks, bitmap
      ensures Valid()
      ensures Contents().used == Below(if freeStart < totalBlocks then freeStart else totalBlocks)
    {
      var i := freeStart;
      while i < totalBlocks
        invariant freeStart <= i && (i <= totalBlocks || i == freeStart)
        invariant Valid()
        invariant Contents() == Frames(totalBlocks, AllBut(totalBlocks, freeStart, i))
      {
        ReleaseNext(freeStart, i);
        i := i + 1;
      }
      AllButEnd(totalBlocks, freeStart, i);
    }

    /** `pmm_init`: `hasMem` is the boot loader's flag; sizes are in KiB. */
    constructor (storage: array<Word>, hasMem: bool, memLower: Word, memUpper: Word, kernelEnd: Word)
      requires storage.Length == BITMAP_WORDS
      modifies storage
      ensures bitmap == storage && Valid()
      ensures totalMemory == if hasMem then Wrap((memLower + memUpper) * 1024) else 32 * 1024 * 1024
      ensures Contents().used == Below(if FreeStart(kernelEnd) < totalBlocks then FreeStart(kernelEnd) else totalBlocks)
      ensures forall f :: 0 <= f < totalBlocks ==>
                (f in Contents().used <==> f * 4096 < Wrap(PageAlignUp(kernelEnd) + 0x2_0000))
    {
      FreeStartExact(kernelEnd);
      bitmap := storage;
      totalMemory := if hasMem then Wrap((memLower + memUpper) * 1024) else 32 * 1024 * 1024;
      new;
      totalBlocks := totalMemory / FRAME;
      usedBlocks := totalBlocks;
      FillBitmap();
      assert Contents().used == Below(totalBlocks);
      assert Below(totalBlocks) == AllBut(totalBlocks, FreeStart(kernelEnd), FreeStart(kernelEnd));
      ClearFrom(FreeStart(kernelEnd));
    }
  }
}
