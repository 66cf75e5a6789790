/** The physical frame allocator: a bitmap of 32-bit words that lives in the RAM it manages. */
module Pmm {
  import opened Bits

  const PAGE_SIZE := 4096
  const FRAME_WORDS := 1024

  /** Frame f's bit in the bitmap that starts at word `base` of RAM. */
  predicate InUse(ram: seq<Word>, base: nat, f: nat) {
    base + f / 32 < |ram| && Bit(ram[base + f / 32], f % 32)
  }

  ghost function UsedSet(ram: seq<Word>, base: nat, total: nat): set<nat> {
    set f | 0 <= f < total && InUse(ram, base, f)
  }

  function BitmapBytes(total: nat): nat {
    if total % 8 != 0 then total / 8 + 1 else total / 8
  }

  /** The first frame that starts at or above the end of a bitmap placed at byte address `bitmap`. */
  function FirstFree(bitmap: nat, total: nat): nat {
    (bitmap + BitmapBytes(total) + PAGE_SIZE - 1) / PAGE_SIZE
  }

  /** Two memories agree on every frame from `low` on. */
  ghost predicate SameFrom(ram: seq<Word>, ram': seq<Word>, low: nat) {
    |ram'| == |ram| && forall k :: low * FRAME_WORDS <= k < |ram| ==> ram'[k] == ram[k]
  }

  /** Two memories agree on every frame below `low`. */
  ghost predicate SameBelow(ram: seq<Word>, ram': seq<Word>, low: nat) {
    |ram'| == |ram| && forall k :: 0 <= k < low * FRAME_WORDS && k < |ram| ==> ram'[k] == ram[k]
  }

  /** Words of the bitmap: those that hold the bit of some frame. */
  function BitmapWords(total: nat): nat { (total + 31) / 32 }

  predicate InBitmap(base: nat, total: nat, k: nat) { base <= k < base + BitmapWords(total) }

  /** Two memories agree on every word outside the bitmap. */
  ghost predicate OffBitmap(ram: seq<Word>, ram': seq<Word>, base: nat, total: nat) {
    |ram'| == |ram| && forall k: nat :: k < |ram| && !InBitmap(base, total, k) ==> ram'[k] == ram[k]
  }

  /** `bitmap[idx] |= 1 << off` adds exactly frame f. */
  lemma SetBitEffect(ram: seq<Word>, base: nat, f: nat)
    requires base + f / 32 < |ram|
    ensures Or(ram[base + f / 32], Pow2(f % 32)) < 0x1_0000_0000
    ensures var ram' := ram[base + f / 32 := Or(ram[base + f / 32], Pow2(f % 32))];
            forall g: nat :: InUse(ram', base, g) <==> InUse(ram, base, g) || g == f
  {
    var w, off := ram[base + f / 32], f % 32;
    SmallPow2(off);
    OrBelow(w, Pow2(off), 32);
    var ram' := ram[base + f / 32 := Or(w, Pow2(off))];
    forall g: nat ensures InUse(ram', base, g) <==> InUse(ram, base, g) || g == f {
      if g / 32 == f / 32 {
        OrBit(w, Pow2(off), g % 32);
        Pow2Bit(off, g % 32);
      }
    }
  }

  /** `bitmap[idx] &= ~(1 << off)` removes exactly frame f. */
  lemma ClearBitEffect(ram: seq<Word>, base: nat, f: nat)
    requires base + f / 32 < |ram|
    ensures Pow2(f % 32) <= 0xFFFF_FFFF
    ensures And(ram[base + f / 32], 0xFFFF_FFFF - Pow2(f % 32)) < 0x1_0000_0000
    ensures var ram' := ram[base + f / 32 := And(ram[base + f / 32], 0xFFFF_FFFF - Pow2(f % 32))];
            forall g: nat :: InUse(ram', base, g) <==> InUse(ram, base, g) && g != f
  {
    hide And, Bit, Pow2;
    var w, off := ram[base + f / 32], f % 32;
    SmallPow2(off);
    var mask := 0xFFFF_FFFF - Pow2(off);
    AndAtMost(w, mask);
    var ram' := ram[base + f / 32 := And(w, mask)];
    forall g: nat ensures InUse(ram', base, g) <==> InUse(ram, base, g) && g != f {
      if g / 32 == f / 32 {
        AndBit(w, mask, g % 32);
        NotBit(Pow2(off), 32, g % 32);
        Pow2Bit(off, g % 32);
      }
    }
  }

  lemma UsedSetAdd(ram: seq<Word>, bitmap: nat, total: nat, f: nat)
    requires bitmap % PAGE_SIZE == 0 && f < total && bitmap / 4 + f / 32 < |ram|
    ensures Or(ram[bitmap / 4 + f / 32], Pow2(f % 32)) < 0x1_0000_0000
    ensures var ram' := ram[bitmap / 4 + f / 32 := Or(ram[bitmap / 4 + f / 32], Pow2(f % 32))];
            && UsedSet(ram', bitmap / 4, total) == UsedSet(ram, bitmap / 4, total) + {f}
            && SameFrom(ram, ram', FirstFree(bitmap, total)) && OffBitmap(ram, ram', bitmap / 4, total)
  {
    SetBitEffect(ram, bitmap / 4, f);
    BitmapBelowFirstFree(bitmap, total, f);
  }

  lemma UsedSetRemove(ram: seq<Word>, bitmap: nat, total: nat, f: nat)
    requires bitmap % PAGE_SIZE == 0 && f < total && bitmap / 4 + f / 32 < |ram|
    ensures Pow2(f % 32) <= 0xFFFF_FFFF
    ensures And(ram[bitmap / 4 + f / 32], 0xFFFF_FFFF - Pow2(f % 32)) < 0x1_0000_0000
    ensures var ram' := ram[bitmap / 4 + f / 32 := And(ram[bitmap / 4 + f / 32], 0xFFFF_FFFF - Pow2(f % 32))];
            && UsedSet(ram', bitmap / 4, total) == UsedSet(ram, bitmap / 4, total) - {f}
            && SameFrom(ram, ram', FirstFree(bitmap, total)) && OffBitmap(ram, ram', bitmap / 4, total)
  {
    ClearBitEffect(ram, bitmap / 4, f);
    BitmapBelowFirstFree(bitmap, total, f);
  }

  /** The test `bitmap[idx] & (1 << off)` reads membership in the set of used frames. */
  lemma UsedSetTest(ram: seq<Word>, bitmap: nat, total: nat, f: nat)
    requires bitmap % PAGE_SIZE == 0 && f < total
    requires FirstFree(bitmap, total) * FRAME_WORDS <= |ram|
    ensures bitmap / 4 + f / 32 < |ram|
    ensures And(ram[bitmap / 4 + f / 32], Pow2(f % 32)) != 0 <==> f in UsedSet(ram, bitmap / 4, total)
  {
    BitmapBelowFirstFree(bitmap, total, f);
    TestBit(ram[bitmap / 4 + f / 32], f % 32);
  }

  lemma BitmapPlacement(kernelEnd: nat, total: nat)
    requires 0 < kernelEnd <= 0xFFFF_F000
    ensures var b := And(kernelEnd + PAGE_SIZE - 1, 0xFFFF_F000);
            && b == (kernelEnd + PAGE_SIZE - 1) / PAGE_SIZE * PAGE_SIZE
            && b % PAGE_SIZE == 0 && kernelEnd <= b < kernelEnd + PAGE_SIZE
            && b / 4 + BitmapBytes(total) / 4 <= FirstFree(b, total) * FRAME_WORDS
            && FirstFree(b, total) == (b + BitmapBytes(total) + PAGE_SIZE - 1) / PAGE_SIZE
  {
    hide And, BitmapBytes;
    var x := kernelEnd + PAGE_SIZE - 1;
    PageMasks(x);
    PageBase(x);
    PageBase(x - x % PAGE_SIZE + BitmapBytes(total) + PAGE_SIZE - 1);
  }

  /** Rounding down to a page. */
  lemma PageBase(x: nat)
    ensures x - x % PAGE_SIZE == x / PAGE_SIZE * PAGE_SIZE && (x - x % PAGE_SIZE) % PAGE_SIZE == 0
  {}

  lemma FirstFreeIs(bitmap: nat, total: nat)
    ensures FirstFree(bitmap, total) == (bitmap + BitmapBytes(total) + PAGE_SIZE - 1) / PAGE_SIZE
  {}

  lemma UsedSetBound(ram: seq<Word>, base: nat, total: nat)
    ensures forall f :: f in UsedSet(ram, base, total) ==> f < total
  {}

  lemma FirstFreePositive(bitmap: nat, total: nat)
    requires bitmap > 0
    ensures FirstFree(bitmap, total) > 0
    ensures FirstFree(bitmap, total) * PAGE_SIZE >= bitmap + BitmapBytes(total)
  {}

  /** What the two loops of `pmm_init` leave in the bitmap, and when that makes the count right. */
  lemma InitOutcome(before: seq<Word>, filled: seq<Word>, ram: seq<Word>, base: nat, total: nat, n: nat, low: nat)
    requires |filled| == |before| && base + n <= |filled| && low <= total
    requires forall k :: 0 <= k < |filled| ==>
               filled[k] == if base <= k < base + n then 0xFFFF_FFFF else before[k]
    requires forall g: nat :: InUse(ram, base, g) <==> InUse(filled, base, g) && !(low <= g < total)
    ensures forall f: nat :: f < total ==>
              (f in UsedSet(ram, base, total) <==> f < low && (f < 32 * n || InUse(before, base, f)))
    ensures (low == |UsedSet(ram, base, total)| && forall f: nat :: f < low ==> f in UsedSet(ram, base, total))
            <==> forall f :: 32 * n <= f < low ==> InUse(before, base, f)
  {
    FilledBits(before, filled, base, n);
    CountBelow(UsedSet(ram, base, total), low);
  }

  /** The fill stays inside the bitmap, so the two loops together do. */
  lemma FillStays(before: seq<Word>, filled: seq<Word>, ram: seq<Word>, base: nat, total: nat, n: nat, low: nat)
    requires |filled| == |before| && n <= BitmapWords(total) && base + n <= low * FRAME_WORDS
    requires forall k :: 0 <= k < |filled| ==>
               filled[k] == if base <= k < base + n then 0xFFFF_FFFF else before[k]
    requires OffBitmap(filled, ram, base, total) && SameFrom(filled, ram, low)
    ensures OffBitmap(before, ram, base, total) && SameFrom(before, ram, low)
  {}

  lemma SmallPow2(off: nat)
    requires off < 32
    ensures Pow2(off) < Pow2(32) && Pow2(32) == 0x1_0000_0000
  {
    Pow2Thirty2();
    Pow2Monotone(off, 31);
  }

  lemma HighestBit(off: nat)
    requires off < 32
    ensures Pow2(off) <= 0x8000_0000
  {
    Pow2Thirty2();
    Pow2Monotone(off, 31);
  }

  lemma AllOnes(k: nat)
    requires k < 32
    ensures Bit(0xFFFF_FFFF, k)
  {
    Pow2Thirty2();
    NotBit(0, 32, k);
    ZeroHasNoBits(k);
  }

  /** The bitmap ends inside the frames it reserves, whole words included. */
  lemma BitmapBelowFirstFree(bitmap: nat, total: nat, f: nat)
    requires bitmap % PAGE_SIZE == 0 && f < total
    ensures bitmap / 4 + f / 32 < FirstFree(bitmap, total) * FRAME_WORDS
  {
    assert 4 * (f / 32) < BitmapBytes(total);
    assert FirstFree(bitmap, total) * PAGE_SIZE >= bitmap + BitmapBytes(total);
  }

  /** Writes above the reserved frames cannot change the set of used frames. */
  lemma UsedSetFramed(ram: seq<Word>, ram': seq<Word>, bitmap: nat, total: nat)
    requires bitmap % PAGE_SIZE == 0
    requires SameBelow(ram, ram', FirstFree(bitmap, total))
    ensures UsedSet(ram', bitmap / 4, total) == UsedSet(ram, bitmap / 4, total)
  {
    forall f: nat | f < total
      ensures InUse(ram', bitmap / 4, f) <==> InUse(ram, bitmap / 4, f)
    {
      BitmapBelowFirstFree(bitmap, total, f);
    }
  }

  class FrameAllocator {
    /** Physical memory: word k is at byte address 4 * k. */
    var ram: seq<Word>
    /** Byte address of the bitmap. */
    var bitmap: nat
    var totalFrames: nat
    var usedFrames: int

    constructor (memory: seq<Word>)
      ensures ram == memory
    {
      ram, bitmap, totalFrames, usedFrames := memory, 0, 0, 0;
    }

    function Low(): nat
      reads this
    {
      FirstFree(bitmap, totalFrames)
    }

    ghost function Held(): set<nat>
      reads this
    {
      UsedSet(ram, bitmap / 4, totalFrames)
    }

    /** Placement of the bitmap, fixed once and for all by `Init`. */
    ghost predicate Placed()
      reads this
    {
      && bitmap % PAGE_SIZE == 0 && bitmap > 0
      && totalFrames < 0x10_0000 && totalFrames * FRAME_WORDS <= |ram|
      && Low() <= totalFrames
    }

    ghost predicate Valid()
      reads this
    {
      && Placed()
      && (forall f: nat :: f < Low() ==> f in Held())
      && usedFrames == |Held()|
    }

    /** Everything up to `Low()` comes out reserved, and the count right, exactly when the words that
        the rounded-down fill loop skips already had the bits of the reserved frames set. */
    method Init(totalMemKb: nat, kernelEnd: nat)
      requires totalMemKb < 0x40_0000 && 0 < kernelEnd <= 0xFFFF_F000
      requires totalMemKb * 256 <= |ram|
      requires FirstFree((kernelEnd + PAGE_SIZE - 1) / PAGE_SIZE * PAGE_SIZE, totalMemKb / 4) <= totalMemKb / 4
      modifies this
      ensures Placed() && totalFrames == totalMemKb / 4 && usedFrames == Low()
      ensures kernelEnd <= bitmap < kernelEnd + PAGE_SIZE
      ensures usedFrames == (bitmap + (totalFrames + 7) / 8 + 4095) / 4096
      ensures SameFrom(old(ram), ram, Low()) && OffBitmap(old(ram), ram, bitmap / 4, totalFrames)
      ensures forall f: nat :: f < totalFrames ==>
                (f in Held() <==>
                 f < Low() && (f < 32 * ((totalFrames + 7) / 8 / 4) || InUse(old(ram), bitmap / 4, f)))
      ensures Valid() <==>
              forall f :: 32 * ((totalFrames + 7) / 8 / 4) <= f < Low() ==> InUse(old(ram), bitmap / 4, f)
    {
      hide InUse, UsedSet, FirstFree, OffBitmap, SameFrom, BitmapBytes, BitmapWords;
      var bitmapBytes := Place(totalMemKb, kernelEnd);
      ghost var before := ram;
      MarkAllUsed(bitmapBytes / 4);
      ghost var filled := ram;
      var firstFree := (bitmap + bitmapBytes + PAGE_SIZE - 1) / PAGE_SIZE;
      FirstFreeIs(bitmap, totalFrames);
      ReleaseFrom(firstFree);
      usedFrames := firstFree;
      FillStays(before, filled, ram, bitmap / 4, totalFrames, bitmapBytes / 4, firstFree);
      InitOutcome(before, filled, ram, bitmap / 4, totalFrames, bitmapBytes / 4, firstFree);
    }

    /** Number of frames, size and place of the bitmap. */
    method Place(totalMemKb: nat, kernelEnd: nat) returns (bitmapBytes: nat)
      requires totalMemKb < 0x40_0000 && 0 < kernelEnd <= 0xFFFF_F000
      requires totalMemKb * 256 <= |ram|
      requires FirstFree((kernelEnd + PAGE_SIZE - 1) / PAGE_SIZE * PAGE_SIZE, totalMemKb / 4) <= totalMemKb / 4
      modifies this`totalFrames, this`bitmap
      ensures Placed() && totalFrames == totalMemKb / 4 && kernelEnd <= bitmap < kernelEnd + PAGE_SIZE
      ensures bitmapBytes == BitmapBytes(totalFrames) == (totalFrames + 7) / 8
      ensures bitmapBytes / 4 <= BitmapWords(totalFrames)
      ensures bitmap / 4 + bitmapBytes / 4 <= Low() * FRAME_WORDS <= |ram|
    {
      hide And, FirstFree;
      BitmapPlacement(kernelEnd, totalMemKb / 4);
      totalFrames := (totalMemKb * 1024) / PAGE_SIZE;
      bitmapBytes := totalFrames / 8;
      if totalFrames % 8 != 0 { bitmapBytes := bitmapBytes + 1; }
      bitmap := And(kernelEnd + PAGE_SIZE - 1, 0xFFFF_F000);
    }

    /** First loop of `pmm_init`: n words of ones. */
    method MarkAllUsed(n: nat)
      requires bitmap / 4 + n <= |ram|
      modifies this`ram
      ensures |ram| == |old(ram)|
      ensures forall k :: 0 <= k < |ram| ==>
                ram[k] == if bitmap / 4 <= k < bitmap / 4 + n then 0xFFFF_FFFF else old(ram)[k]
    {
      var i := 0;
      while i < n
        invariant 0 <= i <= n
        invariant |ram| == |old(ram)|
        invariant forall k :: 0 <= k < |ram| ==>
                    ram[k] == if bitmap / 4 <= k < bitmap / 4 + i then 0xFFFF_FFFF else old(ram)[k]
      {
        ram := ram[bitmap / 4 + i := 0xFFFF_FFFF];
        i := i + 1;
      }
    }

    /** Second loop of `pmm_init`: every frame from `firstFree` on becomes free. */
    method ReleaseFrom(firstFree: nat)
      requires Placed() && firstFree == Low()
      modifies this`ram
      ensures SameFrom(old(ram), ram, firstFree) && OffBitmap(old(ram), ram, bitmap / 4, totalFrames)
      ensures forall g: nat :: InUse(ram, bitmap / 4, g) <==>
                InUse(old(ram), bitmap / 4, g) && !(firstFree <= g < totalFrames)
    {
      hide And, Or, Pow2, Bit, FirstFree;
      var f := firstFree;
      while f < totalFrames
        invariant firstFree <= f <= totalFrames
        invariant SameFrom(old(ram), ram, firstFree) && OffBitmap(old(ram), ram, bitmap / 4, totalFrames)
        invariant forall g: nat :: InUse(ram, bitmap / 4, g) <==>
                    InUse(old(ram), bitmap / 4, g) && !(firstFree <= g < f)
      {
        BitmapBelowFirstFree(bitmap, totalFrames, f);
        ClearBitEffect(ram, bitmap / 4, f);
        ram := ram[bitmap / 4 + f / 32 := And(ram[bitmap / 4 + f / 32], 0xFFFF_FFFF - Pow2(f % 32))];
        f := f + 1;
      }
    }

    /** The lowest free frame, or 0 exactly when there is none. */
    method AllocFrame() returns (phys: nat)
      requires Valid()
      modifies this`ram, this`usedFrames
      ensures Valid()
      ensures phys == 0 <==> forall g: nat :: g < totalFrames ==> g in old(Held())
      ensures phys == 0 ==> ram == old(ram) && usedFrames == old(usedFrames)
      ensures phys != 0 ==>
                && phys % PAGE_SIZE == 0 && Low() <= phys / PAGE_SIZE < totalFrames
                && phys >= bitmap + BitmapBytes(totalFrames)
                && phys / PAGE_SIZE !in old(Held())
                && (forall g: nat :: g < phys / PAGE_SIZE ==> g in old(Held()))
                && Held() == old(Held()) + {phys / PAGE_SIZE}
                && usedFrames == old(usedFrames) + 1
      ensures |ram| == |old(ram)|
      ensures phys != 0 ==>
                var f := phys / PAGE_SIZE;
                forall k: nat :: k < |ram| ==>
                  ram[k] == if k == bitmap / 4 + f / 32 then Or(old(ram)[k], Pow2(f % 32)) else old(ram)[k]
      ensures SameFrom(old(ram), ram, Low()) && OffBitmap(old(ram), ram, bitmap / 4, totalFrames)
    {
      hide And, Or, Pow2, FirstFree, UsedSet, BitmapBytes;
      ghost var held := Held();
      var f := 0;
      while f < totalFrames
        invariant 0 <= f <= totalFrames
        invariant ram == old(ram) && usedFrames == old(usedFrames)
        invariant forall g: nat :: g < f ==> g in held
      {
        var idx := f / 32;
        var off := f % 32;
        UsedSetTest(ram, bitmap, totalFrames, f);
        if And(ram[bitmap / 4 + idx], Pow2(off)) == 0 {
          UsedSetAdd(ram, bitmap, totalFrames, f);
          FirstFreePositive(bitmap, totalFrames);
          assert f != 0;
          ram := ram[bitmap / 4 + idx := Or(ram[bitmap / 4 + idx], Pow2(off))];
          usedFrames := usedFrames + 1;
          phys := f * PAGE_SIZE;
          assert phys / PAGE_SIZE == f;
          return;
        }
        f := f + 1;
      }
      return 0;
    }

    /** Gives back the frame that contains `phys`. Nothing stops a caller from giving back a reserved frame, and
        exactly that breaks the invariant. */
    method FreeFrame(phys: nat)
      requires Valid()
      modifies this`ram, this`usedFrames
      ensures Placed() && usedFrames == |Held()|
      ensures Valid() <==> phys / PAGE_SIZE >= Low()
      ensures Held() == old(Held()) - {phys / PAGE_SIZE}
      ensures usedFrames == old(usedFrames) - (if phys / PAGE_SIZE in old(Held()) then 1 else 0)
      ensures |ram| == |old(ram)| && Pow2(phys / PAGE_SIZE % 32) <= 0x8000_0000
      ensures var f := phys / PAGE_SIZE;
              forall k: nat :: k < |ram| ==>
                ram[k] == if k == bitmap / 4 + f / 32 && f in old(Held())
                          then And(old(ram)[k], 0xFFFF_FFFF - Pow2(f % 32)) else old(ram)[k]
      ensures SameFrom(old(ram), ram, Low()) && OffBitmap(old(ram), ram, bitmap / 4, totalFrames)
    {
      hide And, Or, Pow2, FirstFree, UsedSet;
      var f := phys / PAGE_SIZE;
      HighestBit(f % 32);
      UsedSetBound(ram, bitmap / 4, totalFrames);
      if f >= totalFrames { return; }
      UsedSetTest(ram, bitmap, totalFrames, f);
      if And(ram[bitmap / 4 + f / 32], Pow2(f % 32)) != 0 {
        UsedSetRemove(ram, bitmap, totalFrames, f);
        ram := ram[bitmap / 4 + f / 32 := And(ram[bitmap / 4 + f / 32], 0xFFFF_FFFF - Pow2(f % 32))];
        usedFrames := usedFrames - 1;
      }
    }

    /** Free undoes alloc: the same frames are in use and the same count is reported. */
    method AllocThenFree()
      requires Valid()
      modifies this`ram, this`usedFrames
      ensures Valid() && Held() == old(Held()) && usedFrames == old(usedFrames)
      ensures OffBitmap(old(ram), ram, bitmap / 4, totalFrames)
    {
      var phys := AllocFrame();
      if phys != 0 {
        FreeFrame(phys);
        assert Held() == old(Held());
      }
    }
  }

  /** 160 KiB of cleared RAM under a kernel that ends at frame 34: the bitmap takes five bytes, of which the
      fill covers four, so the kernel's frames 32 and 33 and the bitmap's own frame 34 count as free while the
      reported count includes them. */
  method InitFails() returns (a: FrameAllocator)
    ensures fresh(a) && !a.Valid() && a.totalFrames == 40 && a.bitmap == 34 * PAGE_SIZE
    ensures a.Low() == 35 == a.usedFrames
    ensures forall f: nat :: f < a.totalFrames ==> (f in a.Held() <==> f < 32)
  {
    hide OffBitmap, SameFrom, BitmapBytes, FirstFree, InUse;
    InitNumbers();
    var memory: seq<Word> := seq(40 * FRAME_WORDS, _ => 0);
    a := new FrameAllocator(memory);
    a.Init(160, 34 * PAGE_SIZE);
    NothingInUse(memory, a.bitmap / 4);
    assert !InUse(memory, a.bitmap / 4, 32);
  }

  lemma InitNumbers()
    ensures BitmapBytes(40) == 5 && FirstFree(34 * PAGE_SIZE, 40) == 35
  {}

  lemma NothingInUse(ram: seq<Word>, base: nat)
    requires forall k :: 0 <= k < |ram| ==> ram[k] == 0
    ensures forall f: nat :: !InUse(ram, base, f)
  {
    forall f: nat ensures !InUse(ram, base, f) { ZeroHasNoBits(f % 32); }
  }

  lemma FilledBits(before: seq<Word>, filled: seq<Word>, base: nat, n: nat)
    requires |filled| == |before| && base + n <= |filled|
    requires forall k :: 0 <= k < |filled| ==>
               filled[k] == if base <= k < base + n then 0xFFFF_FFFF else before[k]
    ensures forall g: nat :: InUse(filled, base, g) <==> g < 32 * n || InUse(before, base, g)
  {
    forall g: nat ensures InUse(filled, base, g) <==> g < 32 * n || InUse(before, base, g) {
      if g < 32 * n { AllOnes(g % 32); }
    }
  }

  /** A set of naturals below n has n elements exactly when it is all of them. */
  lemma {:induction false} CountBelow(s: set<nat>, n: nat)
    requires forall f :: f in s ==> f < n
    ensures |s| <= n
    ensures |s| == n <==> forall f: nat :: f < n ==> f in s
  {
    if n == 0 {
      assert s == {};
    } else {
      CountBelow(s - {n - 1}, n - 1);
      if n - 1 !in s { assert s - {n - 1} == s; }
    }
  }
}
