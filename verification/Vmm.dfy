/** Page directories in the frames of the allocator. */
module Vmm {
  import opened Common
  import opened Bits
  import opened Pmm
  import opened Paging
  import opened Rights

  class PageMapper {
    const pmm: FrameAllocator
    /** Physical address of the kernel's directory, 0 before `Init`. */
    var kernelPd: nat
    /** Frames of the live directories. */
    ghost var dirs: set<nat>
    /** For every table frame, the directory slot that points at it. */
    ghost var owner: map<nat, Slot>

    constructor (allocator: FrameAllocator)
      requires allocator.Valid()
      ensures pmm == allocator && kernelPd == 0 && dirs == {} && owner == map[]
      ensures Valid()
    {
      pmm := allocator;
      kernelPd, dirs, owner := 0, {}, map[];
    }

    ghost predicate Valid()
      reads this, pmm
    {
      && pmm.Valid()
      && Inv(pmm.ram, dirs, owner)
      && (forall f :: f in dirs || f in owner ==> pmm.Low() <= f && f in pmm.Held())
    }

    ghost predicate KernelUp()
      reads this
    {
      kernelPd > 0 && kernelPd % PAGE_SIZE == 0 && kernelPd / PAGE_SIZE in dirs
    }

    /** What each live directory means. */
    ghost function AddressSpaces(): map<int, Space>
      reads this, pmm
    {
      Spaces(pmm.ram, dirs)
    }

    /** Frames in use that belong to no directory. */
    ghost function Foreign(): set<nat>
      reads this, pmm
    {
      pmm.Held() - dirs - owner.Keys
    }

    /** Only the given frames and the bitmap may differ from memory `ram`. */
    ghost predicate Changed(ram: seq<Word>, frames: set<nat>)
      reads pmm
    {
      ChangedOnly(ram, pmm.ram, pmm.bitmap / 4, pmm.totalFrames, frames)
    }

    /** Every word of the given frames, the bitmap apart, is as in memory `ram`. */
    ghost predicate Kept(ram: seq<Word>, frames: set<nat>)
      reads pmm
    {
      FramesKept(ram, pmm.ram, pmm.bitmap / 4, pmm.totalFrames, frames)
    }

    /** The frames in use that belong to no directory are these, with their words as in memory `ram`. */
    ghost predicate Undisturbed(ram: seq<Word>, foreign: set<nat>)
      reads this, pmm
    {
      Foreign() == foreign && Kept(ram, foreign)
    }

    // ----- words of physical frames

    /** `p[i]` for a page-aligned address p. */
    function Load(addr: nat, i: nat): Word
      requires addr / 4 + i < |pmm.ram|
      reads pmm
    {
      pmm.ram[addr / 4 + i]
    }

    /** `p[i] = w` for a page-aligned address p above the reserved frames. */
    method Store(addr: nat, i: nat, w: Word)
      requires pmm.Valid() && addr % PAGE_SIZE == 0 && i < 1024
      requires pmm.Low() <= addr / PAGE_SIZE < pmm.totalFrames
      modifies pmm`ram
      ensures pmm.Valid() && pmm.Held() == old(pmm.Held())
      ensures |pmm.ram| == |old(pmm.ram)|
      ensures forall f: nat, k: nat :: k < 1024 ==>
                Entry(pmm.ram, f, k) == if f == addr / PAGE_SIZE && k == i then w else Entry(old(pmm.ram), f, k)
      ensures Changed(old(pmm.ram), {addr / PAGE_SIZE})
    {
      hide FirstFree, UsedSet, ChangedOnly;
      ghost var f := addr / PAGE_SIZE;
      assert addr / 4 + i == f * FRAME_WORDS + i;
      assert pmm.Low() * FRAME_WORDS <= f * FRAME_WORDS && f * FRAME_WORDS + i < pmm.totalFrames * FRAME_WORDS;
      StoreEffect(pmm.ram, f, i, w);
      ChangedWord(pmm.ram, f, i, w, pmm.bitmap / 4, pmm.totalFrames);
      pmm.ram := pmm.ram[addr / 4 + i := w];
      UsedSetFramed(old(pmm.ram), pmm.ram, pmm.bitmap, pmm.totalFrames);
    }

    method ZeroFrame(addr: nat)
      requires pmm.Valid() && addr % PAGE_SIZE == 0
      requires pmm.Low() <= addr / PAGE_SIZE < pmm.totalFrames
      modifies pmm`ram
      ensures pmm.Valid() && pmm.Held() == old(pmm.Held())
      ensures |pmm.ram| == |old(pmm.ram)|
      ensures forall f: nat, k: nat :: k < 1024 ==>
                Entry(pmm.ram, f, k) == if f == addr / PAGE_SIZE then 0 else Entry(old(pmm.ram), f, k)
      ensures Changed(old(pmm.ram), {addr / PAGE_SIZE})
    {
      hide FirstFree, UsedSet, Entry, ChangedOnly;
      KeptSame(pmm.ram, pmm.bitmap / 4, pmm.totalFrames, {addr / PAGE_SIZE});
      var i := 0;
      while i < 1024
        invariant 0 <= i <= 1024
        invariant pmm.Valid() && pmm.Held() == old(pmm.Held())
        invariant |pmm.ram| == |old(pmm.ram)|
        invariant forall f: nat, k: nat :: k < 1024 ==>
                    Entry(pmm.ram, f, k) == if f == addr / PAGE_SIZE && k < i then 0 else Entry(old(pmm.ram), f, k)
        invariant Changed(old(pmm.ram), {addr / PAGE_SIZE})
      {
        ghost var ram1 := pmm.ram;
        Store(addr, i, 0);
        ChangedAgain(old(pmm.ram), ram1, {addr / PAGE_SIZE});
        i := i + 1;
      }
    }

    lemma ChangedAgain(ram0: seq<Word>, ram1: seq<Word>, frames: set<nat>)
      requires ChangedOnly(ram0, ram1, pmm.bitmap / 4, pmm.totalFrames, frames) && Changed(ram1, frames)
      ensures Changed(ram0, frames)
    {
      ChangedThen(ram0, ram1, pmm.ram, pmm.bitmap / 4, pmm.totalFrames, frames, frames);
      assert frames + frames == frames;
    }

    lemma KeptMore(ram0: seq<Word>, ram1: seq<Word>, frames: set<nat>, changed: set<nat>)
      requires FramesKept(ram0, ram1, pmm.bitmap / 4, pmm.totalFrames, frames)
      requires Changed(ram1, changed) && changed !! frames
      ensures Kept(ram0, frames)
    {
      hide FramesKept, ChangedOnly;
      KeptApart(ram1, pmm.ram, pmm.bitmap / 4, pmm.totalFrames, changed, frames);
      KeptThen(ram0, ram1, pmm.ram, pmm.bitmap / 4, pmm.totalFrames, frames);
    }

    /** Directories and tables lie behind the bitmap, so words kept there are entries kept. */
    lemma KeptEntries(ram0: seq<Word>, frames: set<nat>)
      requires pmm.Placed() && Kept(ram0, frames)
      ensures forall f: nat, k: nat :: f in frames && f >= pmm.Low() && k < 1024 ==>
                Entry(pmm.ram, f, k) == Entry(ram0, f, k)
    {
      assert pmm.bitmap / 4 + BitmapWords(pmm.totalFrames) <= pmm.Low() * FRAME_WORDS;
      forall f: nat, k: nat | f in frames && f >= pmm.Low() && k < 1024
        ensures Entry(pmm.ram, f, k) == Entry(ram0, f, k)
      {
        assert pmm.Low() * FRAME_WORDS <= f * FRAME_WORDS;
        assert (f * FRAME_WORDS + k) / FRAME_WORDS == f;
      }
    }

    lemma KeptFirst(ram0: seq<Word>, frames: set<nat>, changed: set<nat>)
      requires Changed(ram0, changed) && changed !! frames
      ensures Kept(ram0, frames)
    {
      hide FramesKept, ChangedOnly;
      KeptApart(ram0, pmm.ram, pmm.bitmap / 4, pmm.totalFrames, changed, frames);
    }

    lemma ChangedTwice(ram0: seq<Word>, ram1: seq<Word>, first: set<nat>, second: set<nat>)
      requires ChangedOnly(ram0, ram1, pmm.bitmap / 4, pmm.totalFrames, first) && Changed(ram1, second)
      ensures Changed(ram0, first + second)
    {
      ChangedThen(ram0, ram1, pmm.ram, pmm.bitmap / 4, pmm.totalFrames, first, second);
    }

    method CopyFrame(to: nat, from: nat)
      requires pmm.Valid() && to % PAGE_SIZE == 0 && from % PAGE_SIZE == 0 && to != from
      requires pmm.Low() <= to / PAGE_SIZE < pmm.totalFrames && from / PAGE_SIZE < pmm.totalFrames
      modifies pmm`ram
      ensures pmm.Valid() && pmm.Held() == old(pmm.Held())
      ensures |pmm.ram| == |old(pmm.ram)|
      ensures forall f: nat, k: nat :: k < 1024 ==>
                Entry(pmm.ram, f, k) ==
                if f == to / PAGE_SIZE then Entry(old(pmm.ram), from / PAGE_SIZE, k) else Entry(old(pmm.ram), f, k)
      ensures Changed(old(pmm.ram), {to / PAGE_SIZE})
    {
      hide FirstFree, UsedSet, Entry, ChangedOnly;
      KeptSame(pmm.ram, pmm.bitmap / 4, pmm.totalFrames, {to / PAGE_SIZE});
      var j := 0;
      while j < 1024
        invariant 0 <= j <= 1024
        invariant pmm.Valid() && pmm.Held() == old(pmm.Held())
        invariant |pmm.ram| == |old(pmm.ram)|
        invariant forall f: nat, k: nat :: k < 1024 ==>
                    Entry(pmm.ram, f, k) ==
                    if f == to / PAGE_SIZE && k < j then Entry(old(pmm.ram), from / PAGE_SIZE, k)
                    else Entry(old(pmm.ram), f, k)
        invariant Changed(old(pmm.ram), {to / PAGE_SIZE})
      {
        ghost var ram1 := pmm.ram;
        LoadIsEntry(from, j);
        Store(to, j, Load(from, j));
        ChangedAgain(old(pmm.ram), ram1, {to / PAGE_SIZE});
        j := j + 1;
      }
    }

    lemma LoadIsEntry(addr: nat, i: nat)
      requires pmm.Placed() && addr % PAGE_SIZE == 0 && addr / PAGE_SIZE < pmm.totalFrames && i < 1024
      ensures addr / 4 + i < |pmm.ram|
      ensures Load(addr, i) == Entry(pmm.ram, addr / PAGE_SIZE, i)
    {
      assert addr / 4 == addr / PAGE_SIZE * FRAME_WORDS;
    }

    /** The two ways the code looks at a directory slot. */
    lemma SlotIs(pd: nat, i: nat)
      requires pmm.Placed() && pd % PAGE_SIZE == 0 && pd / PAGE_SIZE < pmm.totalFrames && i < 1024
      ensures pd / 4 + i < |pmm.ram| && Load(pd, i) == Entry(pmm.ram, pd / PAGE_SIZE, i)
      ensures And(Load(pd, i), 1) == 0 <==> !HasTable(pmm.ram, pd / PAGE_SIZE, i)
      ensures And(Load(pd, i), 0xFFFF_F000) == TableOf(pmm.ram, pd / PAGE_SIZE, i) * PAGE_SIZE
    {
      hide Entry, And;
      LoadIsEntry(pd, i);
      PageMasks(Load(pd, i));
    }

    /** An allocation that may fail: it fails exactly when every frame is in use, and it disturbs no
        frame from `Low()` on. */
    method Alloc() returns (phys: nat)
      requires pmm.Valid()
      modifies pmm`ram, pmm`usedFrames
      ensures pmm.Valid()
      ensures |old(pmm.Held())| <= pmm.totalFrames
      ensures phys == 0 <==> |old(pmm.Held())| == pmm.totalFrames
      ensures phys == 0 ==> pmm.ram == old(pmm.ram) && pmm.usedFrames == old(pmm.usedFrames)
      ensures phys != 0 ==>
                && phys % PAGE_SIZE == 0 && pmm.Low() <= phys / PAGE_SIZE < pmm.totalFrames
                && phys < 0x1_0000_0000
                && phys / PAGE_SIZE !in old(pmm.Held())
                && pmm.Held() == old(pmm.Held()) + {phys / PAGE_SIZE}
      ensures |pmm.ram| == |old(pmm.ram)|
      ensures forall f: nat, k: nat :: f >= pmm.Low() ==> Entry(pmm.ram, f, k) == Entry(old(pmm.ram), f, k)
      ensures Changed(old(pmm.ram), {})
    {
      hide FirstFree, Entry, OffBitmap, ChangedOnly;
      UsedSetBound(pmm.ram, pmm.bitmap / 4, pmm.totalFrames);
      CountBelow(pmm.Held(), pmm.totalFrames);
      hide UsedSet;
      phys := pmm.AllocFrame();
      ChangedBitmap(old(pmm.ram), pmm.ram, pmm.bitmap / 4, pmm.totalFrames);
      EntriesFrom(old(pmm.ram), pmm.ram, pmm.Low());
    }

    method Free(phys: nat)
      requires pmm.Valid() && phys / PAGE_SIZE >= pmm.Low()
      modifies pmm`ram, pmm`usedFrames
      ensures pmm.Valid() && pmm.Held() == old(pmm.Held()) - {phys / PAGE_SIZE}
      ensures |pmm.ram| == |old(pmm.ram)|
      ensures forall f: nat, k: nat :: f >= pmm.Low() ==> Entry(pmm.ram, f, k) == Entry(old(pmm.ram), f, k)
      ensures Changed(old(pmm.ram), {})
    {
      hide FirstFree, Entry, UsedSet, OffBitmap, ChangedOnly;
      pmm.FreeFrame(phys);
      ChangedBitmap(old(pmm.ram), pmm.ram, pmm.bitmap / 4, pmm.totalFrames);
      EntriesFrom(old(pmm.ram), pmm.ram, pmm.Low());
    }

    // ----- the operations of vmm.c

    /** Identity-maps RAM. The first allocation is not checked, so one free frame is required; beyond
        that, the free frames bound how far the mapping reaches, and the frame count is exact. */
    method Init(memKb: nat)
      requires Valid() && dirs == {} && owner == map[]
      requires memKb * 1024 <= 0xFFFF_F000 && |pmm.Held()| < pmm.totalFrames
      modifies this, pmm`ram, pmm`usedFrames
      ensures Valid() && KernelUp() && dirs == {kernelPd / PAGE_SIZE}
      ensures var free := pmm.totalFrames - |old(pmm.Held())|;
              var reach := Min((memKb * 1024 + PAGE_SIZE - 1) / PAGE_SIZE, 1024 * (free - 1));
              && View(pmm.ram, kernelPd / PAGE_SIZE) == (map p: int | 0 <= p < reach :: Mapping(p, 3))
              && |pmm.Held()| == |old(pmm.Held())| + 1 + (reach + 1023) / 1024
      ensures forall i: nat :: i < 1024 && HasTable(pmm.ram, kernelPd / PAGE_SIZE, i) ==>
                Entry(pmm.ram, kernelPd / PAGE_SIZE, i) % 4096 == 3
      ensures Undisturbed(old(pmm.ram), old(pmm.Held()))
    {
      hide FirstFree, UsedSet, Entry, Inv, View, Spaces, Regions, Undisturbed, SlotsWritable, HasTable;
      ghost var ram0, held0 := pmm.ram, pmm.Held();
      ghost var free := pmm.totalFrames - |pmm.Held()|;
      ghost var cap := 1024 * (free - 1);
      var memSize := memKb * 1024;
      FirstDirectory();
      ghost var d := kernelPd / PAGE_SIZE;
      var addr: nat := 0;
      while addr < memSize
        invariant addr % PAGE_SIZE == 0 && addr < memSize + PAGE_SIZE
        invariant Valid() && KernelUp() && dirs == {d} && d == kernelPd / PAGE_SIZE
        invariant View(pmm.ram, d) == IdentityMap(Min(addr / PAGE_SIZE, cap))
        invariant Undisturbed(ram0, held0) && SlotsWritable(pmm.ram, d)
        invariant |pmm.Held()| == pmm.totalFrames - free + 1 + (Min(addr / PAGE_SIZE, cap) + 1023) / 1024
      {
        IdentityPage(addr, cap, free, ram0, held0);
        addr := addr + PAGE_SIZE;
      }
      WritableSlots(pmm.ram, d);
    }

    /** The kernel's directory, empty. */
    method FirstDirectory()
      requires Valid() && dirs == {} && owner == map[] && |pmm.Held()| < pmm.totalFrames
      modifies this, pmm`ram, pmm`usedFrames
      ensures Valid() && KernelUp() && dirs == {kernelPd / PAGE_SIZE}
      ensures View(pmm.ram, kernelPd / PAGE_SIZE) == IdentityMap(0)
      ensures |pmm.Held()| == |old(pmm.Held())| + 1
      ensures SlotsWritable(pmm.ram, kernelPd / PAGE_SIZE)
      ensures Undisturbed(old(pmm.ram), old(pmm.Held()))
    {
      hide FirstFree, UsedSet, Entry, Inv, View, IdentityMap, FramesKept, ChangedOnly;
      kernelPd := ZeroedFrame();
      ghost var d := kernelPd / PAGE_SIZE;
      dirs := {d};
      EmptyDirectory(pmm.ram, d);
      KeptFirst(old(pmm.ram), old(pmm.Held()), {d});
    }

    /** One turn of the identity loop. */
    method IdentityPage(addr: Word, ghost cap: nat, ghost free: nat, ghost ram1: seq<Word>, ghost held1: set<nat>)
      requires Valid() && KernelUp() && dirs == {kernelPd / PAGE_SIZE} && addr % PAGE_SIZE == 0
      requires free >= 1 && cap == 1024 * (free - 1) && Undisturbed(ram1, held1)
      requires SlotsWritable(pmm.ram, kernelPd / PAGE_SIZE)
      requires View(pmm.ram, kernelPd / PAGE_SIZE) == IdentityMap(Min(addr / PAGE_SIZE, cap))
      requires |pmm.Held()| == pmm.totalFrames - free + 1 + (Min(addr / PAGE_SIZE, cap) + 1023) / 1024
      modifies this`owner, pmm`ram, pmm`usedFrames
      ensures Valid()
      ensures View(pmm.ram, kernelPd / PAGE_SIZE) == IdentityMap(Min(addr / PAGE_SIZE + 1, cap))
      ensures |pmm.Held()| == pmm.totalFrames - free + 1 + (Min(addr / PAGE_SIZE + 1, cap) + 1023) / 1024
      ensures Undisturbed(ram1, held1) && SlotsWritable(pmm.ram, kernelPd / PAGE_SIZE)
    {
      hide FirstFree, UsedSet, Inv, View, Regions, IdentityMap, Undisturbed, SlotsWritable;
      IdentityTurn(addr / PAGE_SIZE, cap, free, |pmm.Held()|, pmm.totalFrames);
      IdentityEntry(addr, ram1, held1);
    }

    /** `vmm_map_page(kernel_pd, addr, addr, 0x03)`. */
    method IdentityEntry(addr: Word, ghost ram1: seq<Word>, ghost held1: set<nat>)
      requires Valid() && KernelUp() && dirs == {kernelPd / PAGE_SIZE} && addr % PAGE_SIZE == 0
      requires Undisturbed(ram1, held1) && SlotsWritable(pmm.ram, kernelPd / PAGE_SIZE)
      modifies this`owner, pmm`ram, pmm`usedFrames
      ensures Valid() && Undisturbed(ram1, held1) && SlotsWritable(pmm.ram, kernelPd / PAGE_SIZE)
      ensures var k := kernelPd / PAGE_SIZE;
              View(pmm.ram, k) == if Mappable(old(pmm.ram), old(pmm.Held()), pmm.totalFrames, k, addr / 0x40_0000)
                                  then View(old(pmm.ram), k)[addr / PAGE_SIZE := Mapping(addr / PAGE_SIZE, 3)]
                                  else View(old(pmm.ram), k)
      ensures |pmm.Held()| == |old(pmm.Held())| +
                (if addr / 0x40_0000 !in old(Regions(View(pmm.ram, kernelPd / PAGE_SIZE))) &&
                    |old(pmm.Held())| < pmm.totalFrames then 1 else 0)
    {
      hide FirstFree, UsedSet, Entry, Inv, View, Spaces, Regions, FramesKept, SlotsWritable, Mappable;
      hide And, Or, HasTable, TableOf;
      ghost var ram0 := pmm.ram;
      AlignedFlags(addr, 0x03);
      MapPage(kernelPd, addr, addr, 0x03);
      TableApart(kernelPd / PAGE_SIZE, addr / 0x40_0000);
      if pmm.ram != ram0 { StillWritable(ram0, pmm.ram, kernelPd / PAGE_SIZE, addr / 0x40_0000); }
      KeptThen(ram1, ram0, pmm.ram, pmm.bitmap / 4, pmm.totalFrames, held1);
      SingleSpace(ram0, pmm.ram, kernelPd / PAGE_SIZE);
    }

    /** Maps one page, allocating the table when the 4 MiB region has none yet. When that allocation
        fails the call does nothing at all. */
    method MapPage(pd: nat, virt: Word, phys: Word, flags: Word)
      requires Valid() && pd % PAGE_SIZE == 0 && pd / PAGE_SIZE in dirs
      modifies this`owner, pmm`ram, pmm`usedFrames
      ensures Valid() && |pmm.ram| == |old(pmm.ram)|
      ensures Mappable(old(pmm.ram), old(pmm.Held()), pmm.totalFrames, pd / PAGE_SIZE, virt / 0x40_0000) ==>
                AddressSpaces() == WithPage(old(AddressSpaces()), pd / PAGE_SIZE, virt / PAGE_SIZE,
                                            Mapping(phys / PAGE_SIZE, EntryFlags(phys, flags)))
      ensures Mappable(old(pmm.ram), old(pmm.Held()), pmm.totalFrames, pd / PAGE_SIZE, virt / 0x40_0000) ==>
                var d, i, j := pd / PAGE_SIZE, virt / 0x40_0000, virt / 0x1000 % 1024;
                var t, added := TableOf(pmm.ram, d, i), !HasTable(old(pmm.ram), d, i);
                && HasTable(pmm.ram, d, i) && (added ==> t !in old(pmm.Held()))
                && forall f: nat, k: nat :: f >= pmm.Low() && k < 1024 ==>
                     Entry(pmm.ram, f, k) ==
                     if f == t && k == j then Or(Or(phys, And(flags, 0xFFF)), 1)
                     else if f == t && added then 0
                     else if f == d && k == i && added then t * 4096 + flags % 4096 / 2 * 2 + 1
                     else Entry(old(pmm.ram), f, k)
      ensures !Mappable(old(pmm.ram), old(pmm.Held()), pmm.totalFrames, pd / PAGE_SIZE, virt / 0x40_0000) ==>
                pmm.ram == old(pmm.ram) && owner == old(owner) && AddressSpaces() == old(AddressSpaces())
      ensures Foreign() == old(Foreign()) && Kept(old(pmm.ram), old(Foreign()))
      ensures |pmm.Held()| == |old(pmm.Held())| +
                (if virt / 0x40_0000 !in old(Regions(View(pmm.ram, pd / PAGE_SIZE))) &&
                    |old(pmm.Held())| < pmm.totalFrames then 1 else 0)
    {
      hide And, Or, Pow2, FirstFree, UsedSet, Entry, Inv, View, Spaces, Regions, FramesKept, HasTable;
      PageIndex(virt);
      var pdIdx := virt / 0x40_0000;
      var ptIdx := And(virt / 0x1000, 0x3FF);
      ghost var d, ram0 := pd / PAGE_SIZE, pmm.ram;
      RegionHasTable(ram0, dirs, owner, d, pdIdx);
      ghost var m := Mapping(phys / PAGE_SIZE, EntryFlags(phys, flags));
      var mapped := MapEntry(pd, pdIdx, ptIdx, phys, flags);
      if mapped { SpacesUpdated(ram0, pmm.ram, dirs, d, View(ram0, d)[virt / PAGE_SIZE := m]); }
    }

    /** `vmm_map_page` on a split address. */
    method MapEntry(pd: nat, pdIdx: nat, ptIdx: nat, phys: Word, flags: Word) returns (mapped: bool)
      requires Valid() && pd % PAGE_SIZE == 0 && pd / PAGE_SIZE in dirs
      requires pdIdx < 1024 && ptIdx < 1024
      modifies this`owner, pmm`ram, pmm`usedFrames
      ensures Valid() && |pmm.ram| == |old(pmm.ram)|
      ensures mapped <==> HasTable(old(pmm.ram), pd / PAGE_SIZE, pdIdx) || |old(pmm.Held())| < pmm.totalFrames
      ensures mapped ==>
                && View(pmm.ram, pd / PAGE_SIZE)
                   == View(old(pmm.ram), pd / PAGE_SIZE)
                      [pdIdx * 1024 + ptIdx := Mapping(phys / PAGE_SIZE, EntryFlags(phys, flags))]
                && forall e :: e in dirs && e != pd / PAGE_SIZE ==> View(pmm.ram, e) == View(old(pmm.ram), e)
      ensures mapped ==>
                var d, t := pd / PAGE_SIZE, TableOf(pmm.ram, pd / PAGE_SIZE, pdIdx);
                var added := !HasTable(old(pmm.ram), d, pdIdx);
                && HasTable(pmm.ram, d, pdIdx) && (added ==> t !in old(pmm.Held()))
                && forall f: nat, k: nat :: f >= pmm.Low() && k < 1024 ==>
                     Entry(pmm.ram, f, k) ==
                     if f == t && k == ptIdx then Or(Or(phys, And(flags, 0xFFF)), 1)
                     else if f == t && added then 0
                     else if f == d && k == pdIdx && added then t * 4096 + flags % 4096 / 2 * 2 + 1
                     else Entry(old(pmm.ram), f, k)
      ensures !mapped ==> pmm.ram == old(pmm.ram) && owner == old(owner)
      ensures Foreign() == old(Foreign()) && Kept(old(pmm.ram), old(Foreign()))
      ensures |pmm.Held()| == |old(pmm.Held())| +
                (if !HasTable(old(pmm.ram), pd / PAGE_SIZE, pdIdx) && |old(pmm.Held())| < pmm.totalFrames then 1 else 0)
    {
      hide And, Or, Pow2, FirstFree, UsedSet, Entry, Inv, View, FramesKept, ChangedOnly, Load;
      hide EntryFlags, EntryValue, Decoded;
      DirectoryPlace(pd);
      ghost var d, ram0 := pd / PAGE_SIZE, pmm.ram;
      if HasTable(ram0, d, pdIdx) { TableHasOwner(ram0, dirs, owner, d, pdIdx); }
      mapped := TableFor(pd, pdIdx, flags);
      if !mapped { return; }
      SlotIs(pd, pdIdx);
      ghost var ram1 := pmm.ram;
      ghost var t, pde, pte := TableOf(ram1, d, pdIdx), Load(pd, pdIdx), EntryValue(phys, flags);
      EntryMeans(phys, flags);
      Store(And(Load(pd, pdIdx), 0xFFFF_F000), ptIdx, Or(Or(phys, And(flags, 0xFFF)), 1));
      KeptMore(ram0, ram1, old(Foreign()), {t});
      if HasTable(ram0, d, pdIdx) {
        MapInPlace(ram0, pmm.ram, dirs, owner, d, pdIdx, t, ptIdx, pte);
      } else {
        owner := owner[t := Slot(d, pdIdx)];
        MapNewTable(ram0, pmm.ram, dirs, old(owner), d, pdIdx, t, ptIdx, pde, pte);
      }
    }

    /** The first half of `vmm_map_page`: a slot without a table gets a zeroed one, if a frame is free. */
    method TableFor(pd: nat, i: nat, flags: Word) returns (ok: bool)
      requires Valid() && pd % PAGE_SIZE == 0 && pd / PAGE_SIZE in dirs && i < 1024
      modifies pmm`ram, pmm`usedFrames
      ensures pmm.Valid() && |pmm.ram| == |old(pmm.ram)|
      ensures ok <==> HasTable(old(pmm.ram), pd / PAGE_SIZE, i) || |old(pmm.Held())| < pmm.totalFrames
      ensures !ok ==> pmm.ram == old(pmm.ram) && pmm.usedFrames == old(pmm.usedFrames)
      ensures ok && HasTable(old(pmm.ram), pd / PAGE_SIZE, i) ==> pmm.ram == old(pmm.ram)
      ensures ok && !HasTable(old(pmm.ram), pd / PAGE_SIZE, i) ==>
                var d, t := pd / PAGE_SIZE, TableOf(pmm.ram, pd / PAGE_SIZE, i);
                && HasTable(pmm.ram, d, i) && pmm.Low() <= t < pmm.totalFrames && t !in old(pmm.Held())
                && pmm.Held() == old(pmm.Held()) + {t}
                && forall f: nat, k: nat :: f >= pmm.Low() && k < 1024 ==>
                     Entry(pmm.ram, f, k) ==
                     if f == t then 0
                     else if f == d && k == i then t * 4096 + flags % 4096 / 2 * 2 + 1
                     else Entry(old(pmm.ram), f, k)
      ensures Kept(old(pmm.ram), old(Foreign()))
    {
      hide And, Or, Pow2, FirstFree, UsedSet, Entry, Inv, FramesKept, ChangedOnly, PresentFlags, Load;
      KeptSame(pmm.ram, pmm.bitmap / 4, pmm.totalFrames, old(Foreign()));
      DirectoryPlace(pd);
      SlotIs(pd, i);
      if And(Load(pd, i), 1) == 0 {
        var table := NewTable(pd, i, flags);
        if table == 0 { return false; }
        EntryDecodes(table, PresentFlags(flags));
        SlotWord(table, flags);
        KeptFirst(old(pmm.ram), old(Foreign()), {table / PAGE_SIZE, pd / PAGE_SIZE});
      }
      ok := true;
    }

    /** Unmaps one page; a table that becomes empty goes back to the allocator. */
    method UnmapPage(pd: nat, virt: Word)
      requires Valid() && pd % PAGE_SIZE == 0 && pd / PAGE_SIZE in dirs
      modifies this`owner, pmm`ram, pmm`usedFrames
      ensures Valid() && |pmm.ram| == |old(pmm.ram)|
      ensures AddressSpaces() == WithoutPage(old(AddressSpaces()), pd / PAGE_SIZE, virt / PAGE_SIZE)
      ensures !HasTable(old(pmm.ram), pd / PAGE_SIZE, virt / 0x40_0000) ==> pmm.ram == old(pmm.ram)
      ensures HasTable(old(pmm.ram), pd / PAGE_SIZE, virt / 0x40_0000) ==>
                var d, i, j := pd / PAGE_SIZE, virt / 0x40_0000, virt / 0x1000 % 1024;
                var t := TableOf(old(pmm.ram), d, i);
                var last := forall k: nat :: k < 1024 && k != j ==> !Present(Entry(old(pmm.ram), t, k));
                && pmm.Held() == old(pmm.Held()) - (if last then {t} else {})
                && forall f: nat, k: nat :: f >= pmm.Low() && k < 1024 ==>
                     Entry(pmm.ram, f, k) ==
                     if (f == t && k == j) || (f == d && k == i && last) then 0 else Entry(old(pmm.ram), f, k)
      ensures Foreign() == old(Foreign()) && Kept(old(pmm.ram), old(Foreign()))
    {
      hide And, Or, Pow2, FirstFree, UsedSet, Entry, Inv, View, Spaces, Regions, NonEmpty, FramesKept;
      KeptSame(pmm.ram, pmm.bitmap / 4, pmm.totalFrames, Foreign());
      DirectoryPlace(pd);
      PageIndex(virt);
      var pdIdx := virt / 0x40_0000;
      var ptIdx := And(virt / 0x1000, 0x3FF);
      ghost var d, ram0 := pd / PAGE_SIZE, pmm.ram;
      SlotIs(pd, pdIdx);
      if And(Load(pd, pdIdx), 1) == 0 {
        NoTableNoPage(ram0, d, pdIdx, ptIdx);
        SpacesUpdated(ram0, ram0, dirs, d, View(ram0, d) - {virt / PAGE_SIZE});
        return;
      }
      UnmapEntry(pd, pdIdx, ptIdx);
      SpacesUpdated(ram0, pmm.ram, dirs, d, View(ram0, d) - {virt / PAGE_SIZE});
    }

    /** The part of `vmm_unmap_page` behind the test for a table. */
    method UnmapEntry(pd: nat, pdIdx: nat, ptIdx: nat)
      requires Valid() && pd % PAGE_SIZE == 0 && pd / PAGE_SIZE in dirs && pdIdx < 1024 && ptIdx < 1024
      requires HasTable(pmm.ram, pd / PAGE_SIZE, pdIdx)
      modifies this`owner, pmm`ram, pmm`usedFrames
      ensures Valid() && |pmm.ram| == |old(pmm.ram)|
      ensures var d := pd / PAGE_SIZE;
              View(pmm.ram, d) == View(old(pmm.ram), d) - {pdIdx * 1024 + ptIdx}
      ensures forall e :: e in dirs && e != pd / PAGE_SIZE ==> View(pmm.ram, e) == View(old(pmm.ram), e)
      ensures var d, t := pd / PAGE_SIZE, TableOf(old(pmm.ram), pd / PAGE_SIZE, pdIdx);
              var last := forall k: nat :: k < 1024 && k != ptIdx ==> !Present(Entry(old(pmm.ram), t, k));
              && pmm.Held() == old(pmm.Held()) - (if last then {t} else {})
              && forall f: nat, k: nat :: f >= pmm.Low() && k < 1024 ==>
                   Entry(pmm.ram, f, k) ==
                   if (f == t && k == ptIdx) || (f == d && k == pdIdx && last) then 0 else Entry(old(pmm.ram), f, k)
      ensures Foreign() == old(Foreign()) && Kept(old(pmm.ram), old(Foreign()))
    {
      hide And, FirstFree, UsedSet, Entry, Inv, View, NonEmpty, FramesKept, ChangedOnly;
      DirectoryPlace(pd);
      ghost var d, ram0 := pd / PAGE_SIZE, pmm.ram;
      SlotIs(pd, pdIdx);
      TableHasOwner(ram0, dirs, owner, d, pdIdx);
      ghost var t := TableOf(ram0, d, pdIdx);
      var ptPhys := And(Load(pd, pdIdx), 0xFFFF_F000);
      Store(ptPhys, ptIdx, 0);
      ghost var ram1 := pmm.ram;
      KeptFirst(ram0, Foreign(), {t});
      var empty := TableEmpty(ptPhys);
      LastEntry(ram0, ram1, t, ptIdx);
      if empty {
        DropTable(pd, pdIdx, ptPhys);
        KeptMore(ram0, ram1, old(Foreign()), {d});
        owner := owner - {t};
        DroppedTable(ram0, ram1, pmm.ram, pmm.Low(), dirs, old(owner), d, pdIdx, t, ptIdx);
      } else {
        UnmapInPlace(ram0, pmm.ram, dirs, owner, d, pdIdx, t, ptIdx);
      }
    }

    /** Gives a table back and clears the directory entry that points at it. */
    method DropTable(pd: nat, i: nat, table: nat)
      requires pmm.Valid() && pd % PAGE_SIZE == 0 && i < 1024
      requires pmm.Low() <= pd / PAGE_SIZE < pmm.totalFrames && table / PAGE_SIZE >= pmm.Low()
      modifies pmm`ram, pmm`usedFrames
      ensures pmm.Valid() && pmm.Held() == old(pmm.Held()) - {table / PAGE_SIZE}
      ensures |pmm.ram| == |old(pmm.ram)| && Changed(old(pmm.ram), {pd / PAGE_SIZE})
      ensures forall f: nat, k: nat :: f >= pmm.Low() && k < 1024 ==>
                Entry(pmm.ram, f, k) == if f == pd / PAGE_SIZE && k == i then 0 else Entry(old(pmm.ram), f, k)
    {
      hide FirstFree, UsedSet, Entry, ChangedOnly;
      Free(table);
      ghost var ram1 := pmm.ram;
      Store(pd, i, 0);
      ChangedTwice(old(pmm.ram), ram1, {}, {pd / PAGE_SIZE});
      assert {} + {pd / PAGE_SIZE} == {pd / PAGE_SIZE};
    }

    /** The scan at the end of `vmm_unmap_page`. */
    method TableEmpty(table: nat) returns (empty: bool)
      requires pmm.Valid() && table % PAGE_SIZE == 0 && table / PAGE_SIZE < pmm.totalFrames
      ensures empty <==> !NonEmpty(pmm.ram, table / PAGE_SIZE)
    {
      hide And, FirstFree, UsedSet, Entry;
      empty := true;
      var i := 0;
      while i < 1024
        invariant 0 <= i <= 1024
        invariant forall j: nat :: j < i ==> !Present(Entry(pmm.ram, table / PAGE_SIZE, j))
      {
        SlotIs(table, i);
        if And(Load(table, i), 1) != 0 {
          assert Present(Entry(pmm.ram, table / PAGE_SIZE, i));
          return false;
        }
        i := i + 1;
      }
    }

    /** A directory with the kernel's translations in freshly copied tables, or nothing at all. */
    method CreatePd() returns (pd: nat)
      requires Valid() && KernelUp()
      modifies this`dirs, this`owner, pmm`ram, pmm`usedFrames
      ensures Valid() && KernelUp() && |pmm.ram| == |old(pmm.ram)|
      ensures pd == 0 <==> pmm.totalFrames - |old(pmm.Held())|
                           < 1 + |Regions(View(old(pmm.ram), kernelPd / PAGE_SIZE))|
      ensures pd == 0 ==>
                && pmm.Held() == old(pmm.Held()) && pmm.usedFrames == old(pmm.usedFrames)
                && dirs == old(dirs) && owner == old(owner) && AddressSpaces() == old(AddressSpaces())
      ensures pd != 0 ==>
                && pd % PAGE_SIZE == 0 && dirs == old(dirs) + {pd / PAGE_SIZE}
                && OwnedBy(owner, pd / PAGE_SIZE) !! old(pmm.Held()) && pd / PAGE_SIZE !in old(pmm.Held())
                && AddressSpaces() ==
                   old(AddressSpaces())[pd / PAGE_SIZE := View(old(pmm.ram), kernelPd / PAGE_SIZE)]
                && SameSlotFlags(pmm.ram, pd / PAGE_SIZE, kernelPd / PAGE_SIZE)
      ensures Foreign() == old(Foreign()) && Kept(old(pmm.ram), old(pmm.Held()))
    {
      hide And, Or, Pow2, FirstFree, UsedSet, Entry, Inv, View, Spaces, Regions, FramesKept, ChangedOnly;
      KeptSame(pmm.ram, pmm.bitmap / 4, pmm.totalFrames, pmm.Held());
      hide Copying, TableSlots, TablesBelow, Building, HasTable, TableOf, OwnedBy;
      DirectoryPlace(kernelPd);
      ghost var kd, ram0, held0 := kernelPd / PAGE_SIZE, pmm.ram, pmm.Held();
      SlotsOfRegions(ram0, dirs, owner, kd);
      KernelTables();
      hide KernelPlaced, SameSlotFlags;
      pd := ZeroedFrame();
      if pd == 0 { return; }
      ghost var p, ram1 := pd / PAGE_SIZE, pmm.ram;
      KeptFirst(ram0, held0, {p});
      var ok;
      ghost var copies;
      ok, copies := CopyTables(pd, ram0, held0);
      KeptThen(ram0, ram1, pmm.ram, pmm.bitmap / 4, pmm.totalFrames, held0);
      if !ok { return 0; }
      CopyFits(ram0, held0, p, copies);
      Adopt(ram0, held0, p, copies);
    }

    lemma CopyFits(ram0: seq<Word>, held0: set<nat>, p: nat, copies: map<nat, Slot>)
      requires Copying(ram0, pmm.ram, kernelPd / PAGE_SIZE, p, 1024, copies)
      requires Building(ram0, pmm.ram, held0, pmm.Held(), pmm.Low(), pmm.totalFrames, p, copies)
      ensures pmm.totalFrames >= 1 + |held0| + |TableSlots(ram0, kernelPd / PAGE_SIZE, 1024)|
    {
      hide FirstFree, UsedSet, Entry, Copying, TableSlots, Building;
      BuildCount(ram0, pmm.ram, held0, pmm.Held(), pmm.Low(), pmm.totalFrames, kernelPd / PAGE_SIZE, p, 1024, copies);
      UsedSetSize(pmm.ram, pmm.bitmap / 4, pmm.totalFrames);
    }

    /** A finished copy joins the live directories. */
    ghost method Adopt(ram0: seq<Word>, held0: set<nat>, p: nat, copies: map<nat, Slot>)
      requires pmm.Valid() && KernelUp()
      requires Copying(ram0, pmm.ram, kernelPd / PAGE_SIZE, p, 1024, copies)
      requires Building(ram0, pmm.ram, held0, pmm.Held(), pmm.Low(), pmm.totalFrames, p, copies)
      requires Inv(ram0, dirs, owner) && forall f :: f in dirs || f in owner ==> pmm.Low() <= f && f in held0
      modifies this`dirs, this`owner
      ensures Valid() && dirs == old(dirs) + {p}
      ensures OwnedBy(owner, p) !! held0
      ensures AddressSpaces() == Spaces(ram0, old(dirs))[p := View(ram0, kernelPd / PAGE_SIZE)]
      ensures SameSlotFlags(pmm.ram, p, kernelPd / PAGE_SIZE)
      ensures Foreign() == held0 - old(dirs) - old(owner).Keys
    {
      hide FirstFree, UsedSet, Entry, Inv, View, Spaces, Copying, TableSlots, Building, HasTable, OwnedBy;
      ghost var kd := kernelPd / PAGE_SIZE;
      FinishCopy(ram0, pmm.ram, held0, pmm.Held(), pmm.Low(), pmm.totalFrames, dirs, owner, kd, p, copies);
      dirs, owner := dirs + {p}, owner + copies;
    }

    /** The copy loop of `vmm_create_pd` with its failure path. */
    method CopyTables(pd: nat, ghost ram0: seq<Word>, ghost held0: set<nat>)
      returns (ok: bool, ghost copies: map<nat, Slot>)
      requires pmm.Valid() && pd % PAGE_SIZE == 0 && pmm.Low() <= pd / PAGE_SIZE < pmm.totalFrames
      requires pmm.Held() == held0 + {pd / PAGE_SIZE} && pd / PAGE_SIZE !in held0
      requires forall f: nat, k: nat :: f >= pmm.Low() && k < 1024 ==>
                 Entry(pmm.ram, f, k) == if f == pd / PAGE_SIZE then 0 else Entry(ram0, f, k)
      requires KernelPlaced(ram0, held0)
      requires Inv(ram0, dirs, owner) && forall f :: f in dirs || f in owner ==> pmm.Low() <= f && f in held0
      modifies pmm`ram, pmm`usedFrames
      ensures |pmm.ram| == |old(pmm.ram)|
      ensures ok ==>
                && pmm.Valid()
                && Copying(ram0, pmm.ram, kernelPd / PAGE_SIZE, pd / PAGE_SIZE, 1024, copies)
                && Building(ram0, pmm.ram, held0, pmm.Held(), pmm.Low(), pmm.totalFrames, pd / PAGE_SIZE, copies)
      ensures !ok ==>
                && Valid() && pmm.Held() == held0 && AddressSpaces() == Spaces(ram0, dirs)
                && pmm.totalFrames < 1 + |held0| + |TableSlots(ram0, kernelPd / PAGE_SIZE, 1024)|
      ensures Kept(old(pmm.ram), held0)
    {
      hide And, FirstFree, UsedSet, Entry, Inv, View, Spaces, FramesKept, ChangedOnly;
      KeptSame(pmm.ram, pmm.bitmap / 4, pmm.totalFrames, held0);
      hide Copying, TableSlots, Building, HasTable, TableOf;
      ghost var kd, p := kernelPd / PAGE_SIZE, pd / PAGE_SIZE;
      copies := map[];
      CopyStart(ram0, pmm.ram, kd, p);
      BuildStart(ram0, pmm.ram, held0, pmm.Held(), pmm.Low(), pmm.totalFrames, p);
      ok := true;
      var i := 0;
      while i < 1024
        invariant 0 <= i <= 1024 && ok
        invariant pmm.Valid() && |pmm.ram| == |old(pmm.ram)|
        invariant Copying(ram0, pmm.ram, kd, p, i, copies)
        invariant Building(ram0, pmm.ram, held0, pmm.Held(), pmm.Low(), pmm.totalFrames, p, copies)
        invariant Kept(old(pmm.ram), held0)
      {
        ghost var ram1 := pmm.ram;
        ok, copies := CopySlot(pd, i, ram0, held0, copies);
        KeptThen(old(pmm.ram), ram1, pmm.ram, pmm.bitmap / 4, pmm.totalFrames, held0);
        if !ok {
          ghost var ram2 := pmm.ram;
          UndoCopy(pd, i, ram0, held0, copies);
          KeptMore(old(pmm.ram), ram2, held0, {});
          return;
        }
        i := i + 1;
      }
    }

    /** Allocate, then clear: how every directory and table comes into being. */
    method ZeroedFrame() returns (phys: nat)
      requires pmm.Valid()
      modifies pmm`ram, pmm`usedFrames
      ensures pmm.Valid() && |pmm.ram| == |old(pmm.ram)|
      ensures |old(pmm.Held())| <= pmm.totalFrames
      ensures phys == 0 <==> |old(pmm.Held())| == pmm.totalFrames
      ensures phys == 0 ==> pmm.ram == old(pmm.ram) && pmm.usedFrames == old(pmm.usedFrames)
      ensures phys != 0 ==>
                && phys % PAGE_SIZE == 0 && pmm.Low() <= phys / PAGE_SIZE < pmm.totalFrames
                && phys < 0x1_0000_0000
                && phys / PAGE_SIZE !in old(pmm.Held())
                && pmm.Held() == old(pmm.Held()) + {phys / PAGE_SIZE}
                && (forall f: nat, k: nat :: f >= pmm.Low() && k < 1024 ==>
                      Entry(pmm.ram, f, k) == if f == phys / PAGE_SIZE then 0 else Entry(old(pmm.ram), f, k))
      ensures phys != 0 ==> Changed(old(pmm.ram), {phys / PAGE_SIZE})
    {
      hide FirstFree, UsedSet, Entry, ChangedOnly;
      phys := Alloc();
      if phys == 0 { return; }
      ghost var ram1 := pmm.ram;
      ZeroFrame(phys);
      ChangedTwice(old(pmm.ram), ram1, {}, {phys / PAGE_SIZE});
      assert {} + {phys / PAGE_SIZE} == {phys / PAGE_SIZE};
    }

    /** The kernel's directory and tables are in frames the copy must not touch. */
    ghost predicate KernelPlaced(ram0: seq<Word>, held0: set<nat>)
      reads this, pmm
    {
      && kernelPd % PAGE_SIZE == 0 && kernelPd / PAGE_SIZE in held0
      && pmm.Low() <= kernelPd / PAGE_SIZE < pmm.totalFrames
      && forall i: nat :: i < 1024 && HasTable(ram0, kernelPd / PAGE_SIZE, i) ==>
           TableOf(ram0, kernelPd / PAGE_SIZE, i) in held0
           && pmm.Low() <= TableOf(ram0, kernelPd / PAGE_SIZE, i) < pmm.totalFrames
    }

    lemma KernelTables()
      requires Valid() && KernelUp()
      ensures KernelPlaced(pmm.ram, pmm.Held())
    {
      DirectoryPlace(kernelPd);
      forall i: nat | i < 1024 && HasTable(pmm.ram, kernelPd / PAGE_SIZE, i)
        ensures TableOf(pmm.ram, kernelPd / PAGE_SIZE, i) in owner
      {
        TableHasOwner(pmm.ram, dirs, owner, kernelPd / PAGE_SIZE, i);
      }
    }

    /** One turn of the copy loop. */
    method CopySlot(pd: nat, i: nat, ghost ram0: seq<Word>, ghost held0: set<nat>, ghost copies: map<nat, Slot>)
      returns (ok: bool, ghost copies': map<nat, Slot>)
      requires pmm.Valid() && pd % PAGE_SIZE == 0 && i < 1024
      requires Building(ram0, pmm.ram, held0, pmm.Held(), pmm.Low(), pmm.totalFrames, pd / PAGE_SIZE, copies)
      requires KernelPlaced(ram0, held0)
      requires Copying(ram0, pmm.ram, kernelPd / PAGE_SIZE, pd / PAGE_SIZE, i, copies)
      modifies pmm`ram, pmm`usedFrames
      ensures pmm.Valid() && |pmm.ram| == |old(pmm.ram)|
      ensures Building(ram0, pmm.ram, held0, pmm.Held(), pmm.Low(), pmm.totalFrames, pd / PAGE_SIZE, copies')
      ensures Copying(ram0, pmm.ram, kernelPd / PAGE_SIZE, pd / PAGE_SIZE, if ok then i + 1 else i, copies')
      ensures !ok ==> copies' == copies && |pmm.Held()| == pmm.totalFrames
                      && HasTable(ram0, kernelPd / PAGE_SIZE, i)
      ensures Kept(old(pmm.ram), held0)
    {
      hide And, Or, Pow2, FirstFree, UsedSet, Entry, Copying, HasTable, TableOf, FramesKept, ChangedOnly;
      KeptSame(pmm.ram, pmm.bitmap / 4, pmm.totalFrames, held0);
      ghost var kd, d, ram1, held1 := kernelPd / PAGE_SIZE, pd / PAGE_SIZE, pmm.ram, pmm.Held();
      assert Entry(ram1, kd, i) == Entry(ram0, kd, i);
      TableOfSame(ram0, ram1, kd, i);
      SlotIs(kernelPd, i);
      if And(Load(kernelPd, i), 1) == 0 {
        CopySkip(ram0, ram1, kd, d, i, copies);
        return true, copies;
      }
      assert forall k: nat :: k < 1024 ==> Entry(ram1, TableOf(ram0, kd, i), k) == Entry(ram0, TableOf(ram0, kd, i), k);
      assert d !in held0 && held0 <= held1;
      hide Building;
      BuildCount(ram0, ram1, held0, held1, pmm.Low(), pmm.totalFrames, kd, d, i, copies);
      copies' := copies;
      var pt := AttachCopy(pd, i);
      if pt == 0 { return false, copies; }
      ghost var t := pt / PAGE_SIZE;
      KeptFirst(ram1, held0, {t, d});
      copies' := copies[t := Slot(d, i)];
      BuildCopyStep(ram0, ram1, pmm.ram, held0, held1, pmm.Low(), pmm.totalFrames, kd, d, i, copies, t);
      BuildStep(ram0, ram1, pmm.ram, held0, held1, pmm.Low(), pmm.totalFrames, d, i, copies, t);
      ok := true;
    }

    /** The failure path of `vmm_create_pd`. */
    method UndoCopy(pd: nat, i: nat, ghost ram0: seq<Word>, ghost held0: set<nat>, ghost copies: map<nat, Slot>)
      requires pmm.Valid() && pd % PAGE_SIZE == 0 && i < 1024
      requires Building(ram0, pmm.ram, held0, pmm.Held(), pmm.Low(), pmm.totalFrames, pd / PAGE_SIZE, copies)
      requires Copying(ram0, pmm.ram, kernelPd / PAGE_SIZE, pd / PAGE_SIZE, i, copies)
      requires HasTable(ram0, kernelPd / PAGE_SIZE, i)
      requires Inv(ram0, dirs, owner) && forall f :: f in dirs || f in owner ==> pmm.Low() <= f && f in held0
      modifies pmm`ram, pmm`usedFrames
      ensures Valid() && pmm.Held() == held0 && AddressSpaces() == Spaces(ram0, dirs)
      ensures |pmm.ram| == |old(pmm.ram)|
      ensures |old(pmm.Held())| < 1 + |held0| + |TableSlots(ram0, kernelPd / PAGE_SIZE, 1024)|
      ensures Changed(old(pmm.ram), {})
    {
      hide And, FirstFree, UsedSet, Entry, Inv, View, Spaces, Copying, TableSlots, TablesBelow, HasTable, TableOf;
      hide ChangedOnly;
      ghost var ram1, p := pmm.ram, pd / PAGE_SIZE;
      MoreSlots(ram0, kernelPd / PAGE_SIZE, i, 1024);
      BuildCount(ram0, ram1, held0, pmm.Held(), pmm.Low(), pmm.totalFrames, kernelPd / PAGE_SIZE, p, i, copies);
      CopiesBelow(ram0, ram1, kernelPd / PAGE_SIZE, p, i, copies);
      FreeTables(pd, i);
      ghost var ram2 := pmm.ram;
      Free(pd);
      ChangedAgain(ram1, ram2, {});
      Framed(ram0, pmm.ram, dirs, owner);
      SpacesUnchanged(ram0, pmm.ram, dirs);
    }

    /** Allocates a frame, copies the kernel's table i into it and hangs it under slot i of pd. */
    method AttachCopy(pd: nat, i: nat) returns (pt: nat)
      requires pmm.Valid() && pd % PAGE_SIZE == 0 && kernelPd % PAGE_SIZE == 0 && i < 1024
      requires pd / PAGE_SIZE in pmm.Held() && pmm.Low() <= pd / PAGE_SIZE < pmm.totalFrames
      requires kernelPd / PAGE_SIZE in pmm.Held() && pmm.Low() <= kernelPd / PAGE_SIZE < pmm.totalFrames
      requires var t := TableOf(pmm.ram, kernelPd / PAGE_SIZE, i);
               t in pmm.Held() && pmm.Low() <= t < pmm.totalFrames
      modifies pmm`ram, pmm`usedFrames
      ensures pmm.Valid() && |pmm.ram| == |old(pmm.ram)|
      ensures pt == 0 ==> |old(pmm.Held())| == pmm.totalFrames && pmm.ram == old(pmm.ram)
      ensures pt != 0 ==>
                && pmm.Low() <= pt / PAGE_SIZE < pmm.totalFrames
                && pt / PAGE_SIZE !in old(pmm.Held())
                && pmm.Held() == old(pmm.Held()) + {pt / PAGE_SIZE}
                && Entry(pmm.ram, pd / PAGE_SIZE, i) / PAGE_SIZE == pt / PAGE_SIZE
                && Entry(pmm.ram, pd / PAGE_SIZE, i) % PAGE_SIZE
                   == Entry(old(pmm.ram), kernelPd / PAGE_SIZE, i) % PAGE_SIZE
                && (forall k: nat :: k < 1024 ==>
                      Entry(pmm.ram, pt / PAGE_SIZE, k)
                      == Entry(old(pmm.ram), TableOf(old(pmm.ram), kernelPd / PAGE_SIZE, i), k))
                && (forall f: nat, k: nat ::
                      f >= pmm.Low() && k < 1024 && f != pt / PAGE_SIZE && (f != pd / PAGE_SIZE || k != i) ==>
                      Entry(pmm.ram, f, k) == Entry(old(pmm.ram), f, k))
      ensures pt != 0 ==> Changed(old(pmm.ram), {pt / PAGE_SIZE, pd / PAGE_SIZE})
    {
      hide And, Or, Pow2, FirstFree, UsedSet, Entry, ChangedOnly;
      pt := Alloc();
      if pt == 0 { return; }
      ghost var ram1 := pmm.ram;
      LoadIsEntry(kernelPd, i);
      var entry := Load(kernelPd, i);
      PageMasks(entry);
      var from := And(entry, 0xFFFF_F000);
      assert from / PAGE_SIZE == TableOf(old(pmm.ram), kernelPd / PAGE_SIZE, i);
      CopyFrame(pt, from);
      ChangedTwice(old(pmm.ram), ram1, {}, {pt / PAGE_SIZE});
      assert {} + {pt / PAGE_SIZE} == {pt / PAGE_SIZE};
      OrFlags(pt, entry);
      ghost var ram2 := pmm.ram;
      Store(pd, i, Or(pt, And(entry, 0xFFF)));
      ChangedTwice(old(pmm.ram), ram2, {pt / PAGE_SIZE}, {pd / PAGE_SIZE});
      assert {pt / PAGE_SIZE} + {pd / PAGE_SIZE} == {pt / PAGE_SIZE, pd / PAGE_SIZE};
    }

    /** Frees the tables under slots 0..n: the failure path of `vmm_create_pd` and the loop of
        `vmm_destroy_pd`. */
    method FreeTables(pd: nat, n: nat)
      requires pmm.Valid() && pd % PAGE_SIZE == 0 && n <= 1024
      requires pmm.Low() <= pd / PAGE_SIZE < pmm.totalFrames
      requires forall t :: t in TablesBelow(pmm.ram, pd / PAGE_SIZE, n) ==> pmm.Low() <= t < pmm.totalFrames
      modifies pmm`ram, pmm`usedFrames
      ensures pmm.Valid() && |pmm.ram| == |old(pmm.ram)|
      ensures pmm.Held() == old(pmm.Held()) - TablesBelow(old(pmm.ram), pd / PAGE_SIZE, n)
      ensures forall f: nat, k: nat :: f >= pmm.Low() ==> Entry(pmm.ram, f, k) == Entry(old(pmm.ram), f, k)
      ensures Changed(old(pmm.ram), {})
    {
      hide And, FirstFree, UsedSet, Entry, TablesBelow, HasTable, TableOf, ChangedOnly;
      KeptSame(pmm.ram, pmm.bitmap / 4, pmm.totalFrames, {});
      ghost var d, ram0, held0 := pd / PAGE_SIZE, pmm.ram, pmm.Held();
      TablesBelowNone(ram0, d);
      var j := 0;
      while j < n
        invariant 0 <= j <= n
        invariant pmm.Valid() && |pmm.ram| == |ram0|
        invariant pmm.Held() == held0 - TablesBelow(ram0, d, j)
        invariant forall f: nat, k: nat :: f >= pmm.Low() ==> Entry(pmm.ram, f, k) == Entry(ram0, f, k)
        invariant Changed(ram0, {})
      {
        ghost var ram1 := pmm.ram;
        TablesBelowStep(ram0, d, j, n, held0);
        TableOfSame(ram0, pmm.ram, d, j);
        FreeTable(pd, j);
        ChangedAgain(ram0, ram1, {});
        j := j + 1;
      }
    }

    /** One turn: frees the table under slot j, if there is one. */
    method FreeTable(pd: nat, j: nat)
      requires pmm.Valid() && pd % PAGE_SIZE == 0 && j < 1024
      requires pmm.Low() <= pd / PAGE_SIZE < pmm.totalFrames
      requires HasTable(pmm.ram, pd / PAGE_SIZE, j) ==> TableOf(pmm.ram, pd / PAGE_SIZE, j) >= pmm.Low()
      modifies pmm`ram, pmm`usedFrames
      ensures pmm.Valid() && |pmm.ram| == |old(pmm.ram)|
      ensures pmm.Held() == old(pmm.Held()) -
                (if HasTable(old(pmm.ram), pd / PAGE_SIZE, j) then {TableOf(old(pmm.ram), pd / PAGE_SIZE, j)} else {})
      ensures forall f: nat, k: nat :: f >= pmm.Low() ==> Entry(pmm.ram, f, k) == Entry(old(pmm.ram), f, k)
      ensures Changed(old(pmm.ram), {})
    {
      hide And, FirstFree, UsedSet, Entry, ChangedOnly;
      KeptSame(pmm.ram, pmm.bitmap / 4, pmm.totalFrames, {});
      SlotIs(pd, j);
      if And(Load(pd, j), 1) != 0 {
        Free(And(Load(pd, j), 0xFFFF_F000));
      }
    }

    /** Gives back the directory and every table it owns, and nothing else. */
    method DestroyPd(pd: nat)
      requires Valid() && pd % PAGE_SIZE == 0 && pd / PAGE_SIZE in dirs
      modifies this`dirs, this`owner, pmm`ram, pmm`usedFrames
      ensures Valid() && |pmm.ram| == |old(pmm.ram)|
      ensures pmm.Held() == old(pmm.Held()) - old(OwnedBy(owner, pd / PAGE_SIZE))
      ensures pmm.usedFrames == old(pmm.usedFrames) - (1 + |Regions(old(AddressSpaces())[pd / PAGE_SIZE])|)
      ensures dirs == old(dirs) - {pd / PAGE_SIZE}
      ensures AddressSpaces() == old(AddressSpaces()) - {pd / PAGE_SIZE}
      ensures Foreign() == old(Foreign()) && Changed(old(pmm.ram), {})
    {
      hide And, FirstFree, UsedSet, Entry, Inv, View, Regions, Spaces, TablesBelow, OwnedBy, ChangedOnly;
      DirectoryPlace(pd);
      ghost var d, ram0, owned := pd / PAGE_SIZE, pmm.ram, OwnedBy(owner, pd / PAGE_SIZE);
      TablesAreOwned(ram0, dirs, owner, d);
      FramesOwned(ram0, dirs, owner, d);
      DropFrames(ram0, dirs, owner, pmm.Held(), d);
      SpacesUpdated(ram0, ram0, dirs, d, View(ram0, d));
      OwnedPlace(d);
      FreeTables(pd, 1024);
      ghost var ram1 := pmm.ram;
      Free(pd);
      ChangedAgain(ram0, ram1, {});
      DropDirectory(ram0, pmm.ram, dirs, owner, d);
      SpacesRemoved(ram0, pmm.ram, dirs, d);
      dirs, owner := dirs - {d}, owner - owned;
    }

    lemma OwnedPlace(d: nat)
      requires Valid() && d in dirs
      ensures forall t :: t in OwnedBy(owner, d) ==> pmm.Low() <= t < pmm.totalFrames
    {
      UsedSetBound(pmm.ram, pmm.bitmap / 4, pmm.totalFrames);
    }

    // ----- runs

    /** The state as a client run sees it. */
    ghost function Snap(c: Clients): Snapshot
      reads this, pmm
    {
      Snapshot(c, pmm.ram, pmm.Held(), Foreign(), AddressSpaces(), AllSlots(pmm.ram, dirs))
    }

    /** Clients know live directories and hold frames of their own. */
    ghost predicate Known(c: Clients)
      reads this, pmm
    {
      Handles(c.live, kernelPd, dirs) && Holdings(c.taken, pmm.Low(), Foreign())
    }

    /** One request, from the state it was made in to the present one. */
    ghost predicate Done(r: Request, s: Snapshot, e: Event, c: Clients)
      reads this, pmm
    {
      && Valid() && KernelUp() && Known(c)
      && Handled(r, s, e, Snap(c), pmm.bitmap / 4, pmm.totalFrames, kernelPd / PAGE_SIZE)
    }

    /** Runs any sequence of client requests: the directories' own, and frames taken from the allocator and given
        back by others in between. `trace` has the state before each request and the last one; each step is that
        of the plain machine, and a request is turned down exactly when `Refused` says so of that state. */
    method Run(requests: seq<Request>) returns (c: Clients, log: seq<Event>, ghost trace: seq<Snapshot>)
      requires Valid() && KernelUp()
      modifies this`dirs, this`owner, pmm`ram, pmm`usedFrames
      ensures Valid() && KernelUp() && Known(c)
      ensures Traced(requests, log, trace, pmm.bitmap / 4, pmm.totalFrames, kernelPd / PAGE_SIZE)
      ensures |trace| == |requests| + 1 && trace[0] == old(Snap(Clients([kernelPd], [])))
      ensures trace[|requests|] == Snap(c)
      ensures |log| == |requests| && AddressSpaces() == Replay(old(AddressSpaces()), kernelPd / PAGE_SIZE, log)
      ensures var slots := ReplaySlots(old(AllSlots(pmm.ram, dirs)), old(AddressSpaces()), kernelPd / PAGE_SIZE, log);
              && (forall d :: d in dirs ==> d in slots)
              && (forall d, i: nat :: d in dirs && i < 1024 ==> (i in slots[d] <==> HasTable(pmm.ram, d, i)))
              && (forall d, i: nat :: d in dirs && i < 1024 && HasTable(pmm.ram, d, i) ==>
                    Entry(pmm.ram, d, i) % 4096 == slots[d][i])
      ensures Foreign() == old(Foreign()) + FramesOf(c.taken) && old(Foreign()) !! FramesOf(c.taken)
      ensures Kept(old(pmm.ram), old(Foreign()))
    {
      hide FirstFree, UsedSet, Inv, View, Spaces, FramesKept, Handled, Traced, Beside, FramesOf, AllSlots, Entry;
      hide HasTable;
      c, log := Clients([kernelPd], []), [];
      trace := [Snap(c)];
      ghost var base, total, kernel := pmm.bitmap / 4, pmm.totalFrames, kernelPd / PAGE_SIZE;
      FirstTrace(requests, Snap(c), base, total, kernel);
      BesideAtFirst(Snap(c), base, total);
      var i := 0;
      while i < |requests|
        invariant 0 <= i <= |requests| && |trace| == i + 1 && trace[i] == Snap(c)
        invariant trace[0] == old(Snap(Clients([kernelPd], [])))
        invariant Valid() && KernelUp() && Known(c)
        invariant Traced(requests[..i], log, trace, base, total, kernel)
        invariant |log| == i && AddressSpaces() == Replay(trace[0].spaces, kernel, log)
        invariant AllSlots(pmm.ram, dirs) == ReplaySlots(trace[0].slots, trace[0].spaces, kernel, log)
        invariant Beside(old(pmm.ram), old(Foreign()), Snap(c), base, total)
      {
        ghost var before := Snap(c);
        var e;
        c, e := Serve(requests[i], c);
        StillBeside(old(pmm.ram), old(Foreign()), requests[i], before, e, Snap(c), base, total, kernel);
        ReplayMore(requests[i], before, e, Snap(c), trace[0], log, base, total, kernel);
        NextTrace(requests, i, log, trace, e, Snap(c), base, total, kernel);
        log, trace := log + [e], trace + [Snap(c)];
        i := i + 1;
      }
      assert requests[..i] == requests;
      BesideIs(old(pmm.ram), old(Foreign()), Snap(c), base, total);
      SlotsSpelled(pmm.ram, dirs, ReplaySlots(old(AllSlots(pmm.ram, dirs)), old(AddressSpaces()), kernel, log));
    }

    /** Whether a mapping request will be served: its region has a table, or a frame is free. */
    method CanMap(pd: nat, virt: Word) returns (ok: bool)
      requires Valid() && pd % PAGE_SIZE == 0 && pd / PAGE_SIZE in dirs
      ensures ok <==> Mappable(pmm.ram, pmm.Held(), pmm.totalFrames, pd / PAGE_SIZE, virt / 0x40_0000)
    {
      hide And, FirstFree, UsedSet, Entry, Inv, View, Regions;
      DirectoryPlace(pd);
      SlotIs(pd, virt / 0x40_0000);
      RegionHasTable(pmm.ram, dirs, owner, pd / PAGE_SIZE, virt / 0x40_0000);
      ok := And(Load(pd, virt / 0x40_0000), 1) != 0 || pmm.usedFrames < pmm.totalFrames;
    }

    lemma KnownHandle(c: Clients, h: nat)
      requires Valid() && Known(c) && h < |c.live|
      ensures c.live[h] % PAGE_SIZE == 0 && c.live[h] / PAGE_SIZE in dirs
    {}

    /** A request that is turned down before anything happens. */
    lemma Declined(r: Request, c: Clients)
      requires Valid() && KernelUp() && Known(c)
      requires Refused(r, Snap(c), pmm.totalFrames, kernelPd / PAGE_SIZE)
      ensures Done(r, Snap(c), Nothing, c)
    {
      hide FramesKept, Refused, Spaces, UsedSet, FirstFree, Inv;
      KeptSame(pmm.ram, pmm.bitmap / 4, pmm.totalFrames, Foreign());
      assert Foreign() * Foreign() == Foreign();
    }

    /** Serves one request; a request on an unknown directory or frame is a client error and is skipped. */
    method Serve(r: Request, c: Clients) returns (c': Clients, e: Event)
      requires Valid() && KernelUp() && Known(c)
      modifies this`dirs, this`owner, pmm`ram, pmm`usedFrames
      ensures Done(r, old(Snap(c)), e, c')
    {
      hide Valid, KernelUp, Known, Done;
      c', e := c, Nothing;
      match r {
        case Map(h, virt, phys, flags) => e := ServeMap(h, virt, phys, flags, c);
        case Unmap(h, virt) => e := ServeUnmap(h, virt, c);
        case Create => c', e := ServeCreate(c);
        case Destroy(h) => c', e := ServeDestroy(h, c);
        case Take => c', e := ServeTake(c);
        case Give(k) => c', e := ServeGive(k, c);
      }
    }

    method ServeMap(h: nat, virt: Word, phys: Word, flags: Word, c: Clients) returns (e: Event)
      requires Valid() && KernelUp() && Known(c)
      modifies this`owner, pmm`ram, pmm`usedFrames
      ensures Done(Map(h, virt, phys, flags), old(Snap(c)), e, c)
    {
      hide FirstFree, UsedSet, Inv, View, Spaces, Regions, WithPage, FramesKept, Handles, Mappable, Holdings;
      hide AllSlots, WithSlot, Entry, HasTable, TableOf;
      ghost var f := Foreign();
      assert f * f == f;
      if h >= |c.live| {
        Declined(Map(h, virt, phys, flags), c);
        return Nothing;
      }
      KnownHandle(c, h);
      SpacesAre(pmm.ram, dirs);
      var mappable := CanMap(c.live[h], virt);
      MapPage(c.live[h], virt, phys, flags);
      if mappable {
        MappedSlots(old(pmm.ram), c.live[h] / PAGE_SIZE, virt, phys, flags);
        e := Mapped(c.live[h] / PAGE_SIZE, virt / PAGE_SIZE, Mapping(phys / PAGE_SIZE, EntryFlags(phys, flags)), flags);
      } else {
        e := Nothing;
      }
    }

    /** The slots after a page has been mapped. */
    lemma MappedSlots(ram: seq<Word>, d: nat, virt: Word, phys: Word, flags: Word)
      requires Valid() && d in dirs
      requires var i, j := virt / 0x40_0000, virt / 0x1000 % 1024;
               var t, added := TableOf(pmm.ram, d, i), !HasTable(ram, d, i);
               && HasTable(pmm.ram, d, i)
               && forall f: nat, k: nat :: f >= pmm.Low() && k < 1024 ==>
                    Entry(pmm.ram, f, k) ==
                    if f == t && k == j then Or(Or(phys, And(flags, 0xFFF)), 1)
                    else if f == t && added then 0
                    else if f == d && k == i && added then t * 4096 + flags % 4096 / 2 * 2 + 1
                    else Entry(ram, f, k)
      ensures d in AllSlots(ram, dirs)
      ensures AllSlots(pmm.ram, dirs) == WithSlot(AllSlots(ram, dirs), d, virt / PAGE_SIZE / 1024, flags)
    {
      hide Or, And, Inv, View, FirstFree, UsedSet, Entry, HasTable, TableOf, AllSlots, WithSlot;
      var i := virt / 0x40_0000;
      TableHasOwner(pmm.ram, dirs, owner, d, i);
      MapSlots(ram, pmm.ram, dirs, d, i, TableOf(pmm.ram, d, i), flags);
    }

    /** An unmapping, with what it does to the slots. */
    method UnmapLive(pd: nat, virt: Word)
      requires Valid() && pd % PAGE_SIZE == 0 && pd / PAGE_SIZE in dirs
      modifies this`owner, pmm`ram, pmm`usedFrames
      ensures Valid() && AddressSpaces() == WithoutPage(old(AddressSpaces()), pd / PAGE_SIZE, virt / PAGE_SIZE)
      ensures pd / PAGE_SIZE in old(AllSlots(pmm.ram, dirs))
      ensures AllSlots(pmm.ram, dirs) ==
              OnlySlots(old(AllSlots(pmm.ram, dirs)), pd / PAGE_SIZE, Regions(View(pmm.ram, pd / PAGE_SIZE)))
      ensures Foreign() == old(Foreign()) && Kept(old(pmm.ram), old(Foreign()))
    {
      hide FirstFree, UsedSet, Inv, View, Spaces, WithoutPage, FramesKept;
      hide AllSlots, OnlySlots, Entry, HasTable, TableOf, Regions;
      TableApart(pd / PAGE_SIZE, virt / 0x40_0000);
      UnmapPage(pd, virt);
      UnmapSlots(old(pmm.ram), pmm.ram, dirs, owner, pd / PAGE_SIZE);
    }

    lemma TableApart(d: nat, i: nat)
      requires Valid() && d in dirs && i < 1024
      ensures HasTable(pmm.ram, d, i) ==> TableOf(pmm.ram, d, i) !in dirs
      ensures forall e :: e in dirs ==> e >= pmm.Low()
    {
      if HasTable(pmm.ram, d, i) { TableHasOwner(pmm.ram, dirs, owner, d, i); }
    }

    method ServeUnmap(h: nat, virt: Word, c: Clients) returns (e: Event)
      requires Valid() && KernelUp() && Known(c)
      modifies this`owner, pmm`ram, pmm`usedFrames
      ensures Done(Unmap(h, virt), old(Snap(c)), e, c)
    {
      hide FirstFree, UsedSet, Inv, View, Spaces, WithoutPage, FramesKept, Handles, Holdings;
      hide AllSlots, OnlySlots, Regions;
      ghost var f := Foreign();
      assert f * f == f;
      if h >= |c.live| {
        Declined(Unmap(h, virt), c);
        return Nothing;
      }
      KnownHandle(c, h);
      SpacesAre(pmm.ram, dirs);
      UnmapLive(c.live[h], virt);
      SpacesAre(pmm.ram, dirs);
      e := Unmapped(c.live[h] / PAGE_SIZE, virt / PAGE_SIZE);
    }

    method ServeCreate(c: Clients) returns (c': Clients, e: Event)
      requires Valid() && KernelUp() && Known(c)
      modifies this`dirs, this`owner, pmm`ram, pmm`usedFrames
      ensures Done(Create, old(Snap(c)), e, c')
    {
      hide FirstFree, UsedSet, Inv, View, Spaces, Regions, FramesKept, Handles, Holdings, OwnedBy, SameSlotFlags;
      hide AllSlots, Entry;
      ghost var f := Foreign();
      assert f * f == f;
      SpacesAre(pmm.ram, dirs);
      DirsHeld();
      c', e := c, Nothing;
      var pd := CreatePd();
      KeptEntries(old(pmm.ram), old(pmm.Held()));
      KeptFewer(old(pmm.ram), pmm.ram, pmm.bitmap / 4, pmm.totalFrames, old(pmm.Held()), f);
      AllSlotsSame(old(pmm.ram), pmm.ram, old(dirs));
      if pd != 0 {
        HandleAdded(c.live, kernelPd, old(dirs), pd);
        SpacesAre(pmm.ram, dirs);
        CopySlots(old(pmm.ram), pmm.ram, old(dirs), owner, kernelPd / PAGE_SIZE, pd / PAGE_SIZE);
        c', e := c.(live := c.live + [pd]), Created(pd / PAGE_SIZE);
      }
    }

    lemma DirsHeld()
      requires Valid()
      ensures forall d :: d in dirs ==> d in pmm.Held() && d >= pmm.Low()
    {}

    method ServeDestroy(h: nat, c: Clients) returns (c': Clients, e: Event)
      requires Valid() && KernelUp() && Known(c)
      modifies this`dirs, this`owner, pmm`ram, pmm`usedFrames
      ensures Done(Destroy(h), old(Snap(c)), e, c')
    {
      hide FirstFree, UsedSet, Inv, View, Spaces, Regions, FramesKept, ChangedOnly, Handles, Holdings, OwnedBy;
      hide AllSlots, Entry;
      ghost var f := Foreign();
      assert f * f == f;
      c', e := c, Nothing;
      if !(0 < h < |c.live|) {
        Declined(Destroy(h), c);
        return;
      }
      KnownHandle(c, h);
      HandleDropped(c.live, kernelPd, dirs, h);
      DestroyPd(c.live[h]);
      KeptFirst(old(pmm.ram), f, {});
      KeptFirst(old(pmm.ram), old(dirs), {});
      KeptEntries(old(pmm.ram), old(dirs));
      DropSlots(old(pmm.ram), pmm.ram, old(dirs), c.live[h] / PAGE_SIZE);
      c', e := c.(live := c.live[..h] + c.live[h + 1..]), Destroyed(c.live[h] / PAGE_SIZE);
    }

    /** Another owner takes a frame from the allocator. */
    method ServeTake(c: Clients) returns (c': Clients, e: Event)
      requires Valid() && KernelUp() && Known(c)
      modifies pmm`ram, pmm`usedFrames
      ensures Done(Take, old(Snap(c)), e, c')
    {
      hide FirstFree, UsedSet, Inv, View, Spaces, FramesKept, Handles, Holdings, Handled, AllSlots;
      ghost var f, s := Foreign(), Snap(c);
      var phys := TakeFrame();
      if phys == 0 {
        Declined(Take, c);
        c', e := c, Nothing;
      } else {
        HoldingAdded(c.taken, pmm.Low(), f, phys);
        c', e := c.(taken := c.taken + [phys]), Taken(phys / PAGE_SIZE);
        TakeHandled(s, phys, Snap(c'), pmm.bitmap / 4, pmm.totalFrames, kernelPd / PAGE_SIZE);
      }
    }

    method TakeFrame() returns (phys: nat)
      requires Valid()
      modifies pmm`ram, pmm`usedFrames
      ensures Valid() && AddressSpaces() == old(AddressSpaces())
      ensures AllSlots(pmm.ram, dirs) == old(AllSlots(pmm.ram, dirs))
      ensures phys == 0 <==> |old(pmm.Held())| >= pmm.totalFrames
      ensures phys == 0 ==> pmm.ram == old(pmm.ram) && pmm.usedFrames == old(pmm.usedFrames)
      ensures phys != 0 ==>
                && phys % PAGE_SIZE == 0 && pmm.Low() <= phys / PAGE_SIZE && phys / PAGE_SIZE !in old(pmm.Held())
                && pmm.Held() == old(pmm.Held()) + {phys / PAGE_SIZE}
                && Foreign() == old(Foreign()) + {phys / PAGE_SIZE}
      ensures Kept(old(pmm.ram), old(Foreign()))
    {
      hide FirstFree, UsedSet, Inv, View, Spaces, FramesKept, ChangedOnly, Entry, AllSlots;
      phys := Alloc();
      Untouched(old(pmm.ram), pmm.ram, pmm.Low(), dirs, owner);
      KeptFirst(old(pmm.ram), old(Foreign()), {});
    }

    /** It gives the frame back. */
    method ServeGive(k: nat, c: Clients) returns (c': Clients, e: Event)
      requires Valid() && KernelUp() && Known(c)
      modifies pmm`ram, pmm`usedFrames
      ensures Done(Give(k), old(Snap(c)), e, c')
    {
      hide FirstFree, UsedSet, Inv, View, Spaces, FramesKept, ChangedOnly, Handles, Entry, AllSlots;
      ghost var f := Foreign();
      c', e := c, Nothing;
      if k >= |c.taken| {
        Declined(Give(k), c);
        return;
      }
      var phys := c.taken[k];
      HoldingDropped(c.taken, pmm.Low(), f, k);
      hide Holdings;
      Free(phys);
      Untouched(old(pmm.ram), pmm.ram, pmm.Low(), dirs, owner);
      KeptFirst(old(pmm.ram), f * Foreign(), {});
      c', e := c.(taken := c.taken[..k] + c.taken[k + 1..]), Given(phys / PAGE_SIZE);
    }

    lemma DirectoryPlace(pd: nat)
      requires Valid() && pd % PAGE_SIZE == 0 && pd / PAGE_SIZE in dirs
      ensures pmm.Low() <= pd / PAGE_SIZE < pmm.totalFrames && pd / PAGE_SIZE in pmm.Held()
      ensures forall f :: f in dirs || f in owner ==> pmm.Low() <= f < pmm.totalFrames && f in pmm.Held()
      ensures forall t :: t in owner ==> t !in dirs
    {
      UsedSetBound(pmm.ram, pmm.bitmap / 4, pmm.totalFrames);
    }

    /** The allocating branch of `vmm_map_page`: a zeroed table hung under slot i. */
    method NewTable(pd: nat, i: nat, flags: Word) returns (table: nat)
      requires pmm.Valid() && pd % PAGE_SIZE == 0 && i < 1024
      requires pd / PAGE_SIZE in pmm.Held() && pmm.Low() <= pd / PAGE_SIZE < pmm.totalFrames
      modifies pmm`ram, pmm`usedFrames
      ensures pmm.Valid() && |pmm.ram| == |old(pmm.ram)|
      ensures |old(pmm.Held())| <= pmm.totalFrames
      ensures table == 0 <==> |old(pmm.Held())| == pmm.totalFrames
      ensures table == 0 ==> pmm.ram == old(pmm.ram) && pmm.usedFrames == old(pmm.usedFrames)
      ensures table != 0 ==>
                && table % PAGE_SIZE == 0 && pmm.Low() <= table / PAGE_SIZE < pmm.totalFrames
                && table / PAGE_SIZE !in old(pmm.Held())
                && pmm.Held() == old(pmm.Held()) + {table / PAGE_SIZE}
                && (forall f: nat, k: nat :: f >= pmm.Low() && k < 1024 ==>
                      Entry(pmm.ram, f, k) ==
                      if f == table / PAGE_SIZE then 0
                      else if f == pd / PAGE_SIZE && k == i then table + PresentFlags(flags)
                      else Entry(old(pmm.ram), f, k))
      ensures table != 0 ==> Changed(old(pmm.ram), {table / PAGE_SIZE, pd / PAGE_SIZE})
    {
      hide And, Or, Pow2, FirstFree, UsedSet, Entry, ChangedOnly;
      table := ZeroedFrame();
      if table == 0 { return; }
      EntryWord(table, flags);
      ghost var ram1 := pmm.ram;
      Store(pd, i, Or(Or(table, And(flags, 0xFFF)), 1));
      ChangedTwice(old(pmm.ram), ram1, {table / PAGE_SIZE}, {pd / PAGE_SIZE});
      assert {table / PAGE_SIZE} + {pd / PAGE_SIZE} == {table / PAGE_SIZE, pd / PAGE_SIZE};
    }
  }

  /** Directories and tables that no write touched. */
  lemma Untouched(ram: seq<Word>, ram': seq<Word>, low: nat, dirs: set<nat>, owner: map<nat, Slot>)
    requires Inv(ram, dirs, owner) && forall f :: f in dirs || f in owner ==> low <= f
    requires forall f: nat, k: nat :: f >= low ==> Entry(ram', f, k) == Entry(ram, f, k)
    ensures Inv(ram', dirs, owner) && Spaces(ram', dirs) == Spaces(ram, dirs)
    ensures AllSlots(ram', dirs) == AllSlots(ram, dirs)
  {
    hide Inv, View, Spaces, Entry, AllSlots;
    Framed(ram, ram', dirs, owner);
    AllSlotsSame(ram, ram', dirs);
    SpacesUnchanged(ram, ram', dirs);
  }

  /** The known directories are live, pairwise different, and start with the kernel's. */
  ghost predicate Handles(live: seq<nat>, kernelPd: nat, dirs: set<nat>) {
    && |live| > 0 && live[0] == kernelPd
    && (forall k :: 0 <= k < |live| ==> live[k] % PAGE_SIZE == 0 && live[k] / PAGE_SIZE in dirs)
    && (forall k, l :: 0 <= k < l < |live| ==> live[k] != live[l])
  }

  lemma HandleAdded(live: seq<nat>, kernelPd: nat, dirs: set<nat>, pd: nat)
    requires Handles(live, kernelPd, dirs) && pd % PAGE_SIZE == 0 && pd / PAGE_SIZE !in dirs
    ensures Handles(live + [pd], kernelPd, dirs + {pd / PAGE_SIZE})
  {}

  lemma HandleDropped(live: seq<nat>, kernelPd: nat, dirs: set<nat>, h: nat)
    requires Handles(live, kernelPd, dirs) && 0 < h < |live|
    ensures Handles(live[..h] + live[h + 1..], kernelPd, dirs - {live[h] / PAGE_SIZE})
    ensures kernelPd / PAGE_SIZE != live[h] / PAGE_SIZE
  {
    forall k | 0 <= k < |live| && k != h ensures live[k] / PAGE_SIZE != live[h] / PAGE_SIZE {
      assert live[k] != live[h];
    }
  }

  /** What `AllSlots` says of a directory's words. */
  lemma SlotsSpelled(ram: seq<Word>, dirs: set<nat>, slots: map<int, Slots>)
    requires slots == AllSlots(ram, dirs)
    ensures forall d :: d in dirs ==> d in slots
    ensures forall d, i: nat :: d in dirs && i < 1024 ==> (i in slots[d] <==> HasTable(ram, d, i))
    ensures forall d, i: nat :: d in dirs && i < 1024 && HasTable(ram, d, i) ==>
              Entry(ram, d, i) % 4096 == slots[d][i]
  {}

  lemma SpacesAre(ram: seq<Word>, dirs: set<nat>)
    ensures Spaces(ram, dirs).Keys == dirs
    ensures forall d :: d in dirs ==> Spaces(ram, dirs)[d] == View(ram, d)
  {
    hide View;
  }

  /** A client request: h is a position in the list of known directories, k one in that of frames taken. */
  datatype Request =
    | Map(h: nat, virt: Word, phys: Word, flags: Word)
    | Unmap(h: nat, virt: Word)
    | Create
    | Destroy(h: nat)
    | Take
    | Give(k: nat)

  /** What a request came to. */
  datatype Event =
    | Mapped(dir: int, page: int, mapping: Mapping, flags: Word)
    | Unmapped(dir: int, page: int)
    | Created(dir: int)
    | Destroyed(dir: int)
    | Taken(frame: nat)
    | Given(frame: nat)
    | Nothing

  /** Addresses of the directories clients know, the kernel's first, and of the frames other owners took. */
  datatype Clients = Clients(live: seq<nat>, taken: seq<nat>)

  /** Clients, memory, frames in use and to whom, all translations and the flags of all slots between two requests. */
  datatype Snapshot =
    Snapshot(clients: Clients, ram: seq<Word>, held: set<nat>, foreign: set<nat>,
             spaces: map<int, Space>, slots: map<int, Slots>)

  /** Frames taken are distinct, aligned, and belong to no directory. */
  ghost predicate Holdings(taken: seq<nat>, low: nat, foreign: set<nat>) {
    && (forall k :: 0 <= k < |taken| ==>
          taken[k] % PAGE_SIZE == 0 && taken[k] / PAGE_SIZE >= low && taken[k] / PAGE_SIZE in foreign)
    && (forall k, l :: 0 <= k < l < |taken| ==> taken[k] != taken[l])
  }

  ghost function FramesOf(taken: seq<nat>): set<nat> { set k | 0 <= k < |taken| :: taken[k] / PAGE_SIZE }

  lemma HoldingAdded(taken: seq<nat>, low: nat, foreign: set<nat>, phys: nat)
    requires Holdings(taken, low, foreign) && phys % PAGE_SIZE == 0 && phys / PAGE_SIZE >= low
    requires phys / PAGE_SIZE !in foreign
    ensures Holdings(taken + [phys], low, foreign + {phys / PAGE_SIZE})
  {}

  lemma HoldingDropped(taken: seq<nat>, low: nat, foreign: set<nat>, k: nat)
    requires Holdings(taken, low, foreign) && k < |taken|
    ensures Holdings(taken[..k] + taken[k + 1..], low, foreign - {taken[k] / PAGE_SIZE})
  {
    forall l | 0 <= l < |taken| && l != k ensures taken[l] / PAGE_SIZE != taken[k] / PAGE_SIZE {
      assert taken[l] != taken[k];
    }
  }

  /** When a request is turned down: an unknown directory or frame, or too few free frames. */
  ghost predicate Refused(r: Request, s: Snapshot, total: nat, kernel: nat) {
    var live := s.clients.live;
    match r
    case Map(h, virt, phys, flags) =>
      h >= |live| || !Mappable(s.ram, s.held, total, live[h] / PAGE_SIZE, virt / 0x40_0000)
    case Unmap(h, virt) => h >= |live|
    case Create => total - |s.held| < 1 + |Regions(View(s.ram, kernel))|
    case Destroy(h) => !(0 < h < |live|)
    case Take => |s.held| >= total
    case Give(k) => k >= |s.clients.taken|
  }

  /** The event of a request that was served. */
  ghost predicate Answers(r: Request, s: Snapshot, e: Event) {
    var live, taken := s.clients.live, s.clients.taken;
    match r
    case Map(h, virt, phys, flags) =>
      && h < |live|
      && e == Mapped(live[h] / PAGE_SIZE, virt / PAGE_SIZE, Mapping(phys / PAGE_SIZE, EntryFlags(phys, flags)), flags)
    case Unmap(h, virt) => h < |live| && e == Unmapped(live[h] / PAGE_SIZE, virt / PAGE_SIZE)
    case Create => e.Created? && e.dir !in s.held
    case Destroy(h) => h < |live| && e == Destroyed(live[h] / PAGE_SIZE)
    case Take => e.Taken? && e.frame !in s.held
    case Give(k) => k < |taken| && e == Given(taken[k] / PAGE_SIZE)
  }

  function ClientsAfter(r: Request, c: Clients, e: Event): Clients {
    match e
    case Created(d) => if d >= 0 then c.(live := c.live + [d * PAGE_SIZE]) else c
    case Destroyed(_) => if r.Destroy? && r.h < |c.live| then c.(live := c.live[..r.h] + c.live[r.h + 1..]) else c
    case Taken(f) => c.(taken := c.taken + [f * PAGE_SIZE])
    case Given(_) => if r.Give? && r.k < |c.taken| then c.(taken := c.taken[..r.k] + c.taken[r.k + 1..]) else c
    case _ => c
  }

  ghost function ForeignAfter(foreign: set<nat>, e: Event): set<nat> {
    match e
    case Taken(f) => foreign + {f}
    case Given(f) => foreign - {f}
    case _ => foreign
  }

  /** One request: turned down with no effect on what clients know, or served. All translations follow the
      event, other owners' frames come and go with it alone, and those that stay keep every word. */
  ghost predicate Handled(r: Request, s: Snapshot, e: Event, s': Snapshot, base: nat, total: nat, kernel: nat) {
    && (if Refused(r, s, total, kernel) then e == Nothing else Answers(r, s, e))
    && s'.clients == ClientsAfter(r, s.clients, e)
    && s'.spaces == After(s.spaces, kernel, e) && s'.slots == SlotsAfter(s.slots, s'.spaces, kernel, e)
    && s'.foreign == ForeignAfter(s.foreign, e)
    && FramesKept(s.ram, s'.ram, base, total, s.foreign * s'.foreign)
  }

  lemma TakeHandled(s: Snapshot, phys: nat, s': Snapshot, base: nat, total: nat, kernel: nat)
    requires phys % PAGE_SIZE == 0 && phys / PAGE_SIZE !in s.held && |s.held| < total
    requires s'.clients == s.clients.(taken := s.clients.taken + [phys])
    requires s'.spaces == s.spaces && s'.slots == s.slots
    requires s'.foreign == s.foreign + {phys / PAGE_SIZE} && FramesKept(s.ram, s'.ram, base, total, s.foreign)
    ensures Handled(Take, s, Taken(phys / PAGE_SIZE), s', base, total, kernel)
  {
    hide FramesKept;
    assert s.foreign * s'.foreign == s.foreign;
  }

  /** Every step of a run was handled. */
  ghost predicate Traced(requests: seq<Request>, log: seq<Event>, trace: seq<Snapshot>,
                         base: nat, total: nat, kernel: nat)
  {
    && |log| == |requests| && |trace| == |requests| + 1
    && forall k :: 0 <= k < |log| ==> Handled(requests[k], trace[k], log[k], trace[k + 1], base, total, kernel)
  }

  lemma FirstTrace(requests: seq<Request>, s: Snapshot, base: nat, total: nat, kernel: nat)
    ensures Traced(requests[..0], [], [s], base, total, kernel)
  {}

  lemma NextTrace(requests: seq<Request>, i: nat, log: seq<Event>, trace: seq<Snapshot>, e: Event, s: Snapshot,
                  base: nat, total: nat, kernel: nat)
    requires i < |requests| && |trace| == i + 1 && Traced(requests[..i], log, trace, base, total, kernel)
    requires Handled(requests[i], trace[i], e, s, base, total, kernel)
    ensures Traced(requests[..i + 1], log + [e], trace + [s], base, total, kernel)
  {
    hide Handled;
    var log', trace' := log + [e], trace + [s];
    forall k | 0 <= k < |log'|
      ensures Handled(requests[..i + 1][k], trace'[k], log'[k], trace'[k + 1], base, total, kernel)
    {
      if k < i {
        assert Handled(requests[..i][k], trace[k], log[k], trace[k + 1], base, total, kernel);
      }
    }
  }

  lemma ReplayMore(r: Request, s: Snapshot, e: Event, s': Snapshot, s0: Snapshot, log: seq<Event>,
                   base: nat, total: nat, kernel: nat)
    requires Handled(r, s, e, s', base, total, kernel) && s.spaces == Replay(s0.spaces, kernel, log)
    requires s.slots == ReplaySlots(s0.slots, s0.spaces, kernel, log)
    ensures s'.spaces == Replay(s0.spaces, kernel, log + [e])
    ensures s'.slots == ReplaySlots(s0.slots, s0.spaces, kernel, log + [e])
  {
    hide Refused, Answers, After, SlotsAfter, FramesKept;
    assert (log + [e])[..|log|] == log;
  }

  /** The frames that belonged to no directory at the start are still there with their words, and besides them
      exactly the frames taken and not given back. */
  ghost predicate Beside(ram0: seq<Word>, foreign0: set<nat>, s: Snapshot, base: nat, total: nat) {
    && s.foreign == foreign0 + FramesOf(s.clients.taken) && foreign0 !! FramesOf(s.clients.taken)
    && Holdings(s.clients.taken, 0, s.foreign) && s.foreign <= s.held
    && FramesKept(ram0, s.ram, base, total, foreign0)
  }

  lemma StillBeside(ram0: seq<Word>, foreign0: set<nat>, r: Request, s: Snapshot, e: Event, s': Snapshot,
                    base: nat, total: nat, kernel: nat)
    requires Beside(ram0, foreign0, s, base, total) && Handled(r, s, e, s', base, total, kernel)
    requires s'.foreign <= s'.held
    ensures Beside(ram0, foreign0, s', base, total)
  {
    hide Refused, After, FramesKept, Holdings, FramesOf;
    var taken := s.clients.taken;
    if e.Taken? {
      HoldingAdded(taken, 0, s.foreign, e.frame * PAGE_SIZE);
      FrameAdded(taken, e.frame);
    } else if e.Given? {
      HoldingDropped(taken, 0, s.foreign, r.k);
      FrameDropped(taken, 0, s.foreign, r.k);
    }
    assert foreign0 <= s.foreign * s'.foreign;
    KeptFewer(s.ram, s'.ram, base, total, s.foreign * s'.foreign, foreign0);
    KeptThen(ram0, s.ram, s'.ram, base, total, foreign0);
  }

  lemma BesideIs(ram0: seq<Word>, foreign0: set<nat>, s: Snapshot, base: nat, total: nat)
    requires Beside(ram0, foreign0, s, base, total)
    ensures s.foreign == foreign0 + FramesOf(s.clients.taken) && foreign0 !! FramesOf(s.clients.taken)
    ensures FramesKept(ram0, s.ram, base, total, foreign0)
  {}

  lemma FrameAdded(taken: seq<nat>, f: nat)
    ensures FramesOf(taken + [f * PAGE_SIZE]) == FramesOf(taken) + {f}
  {
    var more := taken + [f * PAGE_SIZE];
    assert more[|taken|] / PAGE_SIZE == f;
    forall x | x in FramesOf(taken) ensures x in FramesOf(more) {
      var k :| 0 <= k < |taken| && taken[k] / PAGE_SIZE == x;
      assert more[k] == taken[k];
    }
  }

  lemma FrameDropped(taken: seq<nat>, low: nat, foreign: set<nat>, k: nat)
    requires Holdings(taken, low, foreign) && k < |taken|
    ensures taken[k] / PAGE_SIZE in FramesOf(taken)
    ensures FramesOf(taken[..k] + taken[k + 1..]) == FramesOf(taken) - {taken[k] / PAGE_SIZE}
  {
    var fewer := taken[..k] + taken[k + 1..];
    forall x | x in FramesOf(taken) && x != taken[k] / PAGE_SIZE ensures x in FramesOf(fewer) {
      var l :| 0 <= l < |taken| && taken[l] / PAGE_SIZE == x;
      assert fewer[if l < k then l else l - 1] == taken[l];
    }
    forall l | 0 <= l < |fewer| ensures fewer[l] / PAGE_SIZE != taken[k] / PAGE_SIZE {
      assert fewer[l] == taken[if l < k then l else l + 1];
    }
    forall x | x in FramesOf(fewer) ensures x in FramesOf(taken) {
      var l :| 0 <= l < |fewer| && fewer[l] / PAGE_SIZE == x;
      assert fewer[l] == taken[if l < k then l else l + 1];
    }
  }

  lemma BesideAtFirst(s: Snapshot, base: nat, total: nat)
    requires s.clients.taken == [] && s.foreign <= s.held
    ensures Beside(s.ram, s.foreign, s, base, total)
  {
    KeptSame(s.ram, base, total, s.foreign);
  }

  /** The plain partial-map machine that page tables stand for. */
  ghost function After(spaces: map<int, Space>, kernel: int, e: Event): map<int, Space> {
    match e
    case Mapped(d, page, m, _) => if d in spaces then WithPage(spaces, d, page, m) else spaces
    case Unmapped(d, page) => if d in spaces then WithoutPage(spaces, d, page) else spaces
    case Created(d) => if kernel in spaces then spaces[d := spaces[kernel]] else spaces
    case Destroyed(d) => spaces - {d}
    case _ => spaces
  }

  ghost function Replay(spaces: map<int, Space>, kernel: int, log: seq<Event>): map<int, Space> {
    if log == [] then spaces
    else After(Replay(spaces, kernel, log[..|log| - 1]), kernel, log[|log| - 1])
  }

  /** What an event does to the flags of the slots; `spaces` are the translations after it. */
  ghost function SlotsAfter(slots: map<int, Slots>, spaces: map<int, Space>, kernel: int, e: Event): map<int, Slots> {
    match e
    case Mapped(d, page, _, flags) => if d in slots then WithSlot(slots, d, page / 1024, flags) else slots
    case Unmapped(d, _) => if d in slots && d in spaces then OnlySlots(slots, d, Regions(spaces[d])) else slots
    case Created(d) => if kernel in slots then slots[d := slots[kernel]] else slots
    case Destroyed(d) => slots - {d}
    case _ => slots
  }

  ghost function ReplaySlots(slots: map<int, Slots>, spaces: map<int, Space>, kernel: int,
                             log: seq<Event>): map<int, Slots>
  {
    if log == [] then slots
    else SlotsAfter(ReplaySlots(slots, spaces, kernel, log[..|log| - 1]), Replay(spaces, kernel, log), kernel,
                    log[|log| - 1])
  }

  /** The event leaves the table of this region in place; `spaces` are the translations after it. */
  ghost predicate KeepsTable(e: Event, spaces: map<int, Space>, d: int, region: int) {
    match e
    case Unmapped(d', _) => d' == d && d in spaces ==> region in Regions(spaces[d])
    case Created(d') => d' != d
    case Destroyed(d') => d' != d
    case _ => true
  }

  /** Over a run the flags of a slot are those of the mapping that gave the region its table, whatever later
      mappings in the region ask for, until the region is emptied or the directory goes. */
  lemma {:induction false} FirstMappingDecides(slots: map<int, Slots>, spaces: map<int, Space>, kernel: int,
                                               log: seq<Event>, i: nat, d: int, page: int, m: Mapping, flags: Word)
    requires i < |log| && log[i] == Mapped(d, page, m, flags)
    requires var before := ReplaySlots(slots, spaces, kernel, log[..i]);
             d in before && page / 1024 !in before[d]
    requires forall k :: i < k < |log| ==>
               KeepsTable(log[k], Replay(spaces, kernel, log[..k + 1]), d, page / 1024)
    ensures var after := ReplaySlots(slots, spaces, kernel, log);
            d in after && page / 1024 in after[d] && after[d][page / 1024] == flags % 4096 / 2 * 2 + 1
    decreases |log|
  {
    hide Replay, KeepsTable;
    var n := |log| - 1;
    assert log[..n][..i] == log[..i];
    if i < n {
      forall k | i < k < n
        ensures KeepsTable(log[..n][k], Replay(spaces, kernel, log[..n][..k + 1]), d, page / 1024)
      {
        assert log[..n][..k + 1] == log[..k + 1];
      }
      FirstMappingDecides(slots, spaces, kernel, log[..n], i, d, page, m, flags);
      assert log[..n + 1] == log;
      SlotStays(ReplaySlots(slots, spaces, kernel, log[..n]), Replay(spaces, kernel, log), kernel, log[n], d,
                page / 1024);
    }
  }

  lemma SlotStays(slots: map<int, Slots>, spaces: map<int, Space>, kernel: int, e: Event, d: int, region: int)
    requires d in slots && region in slots[d] && KeepsTable(e, spaces, d, region)
    ensures var after := SlotsAfter(slots, spaces, kernel, e);
            d in after && region in after[d] && after[d][region] == slots[d][region]
  {}

  ghost predicate Names(e: Event, d: int) {
    (e.Mapped? || e.Unmapped? || e.Created? || e.Destroyed?) && e.dir == d
  }

  /** Isolation over runs: a directory that no event names keeps its whole translation. */
  lemma {:induction false} UnnamedUnchanged(spaces: map<int, Space>, kernel: int, log: seq<Event>, d: int)
    requires d in spaces && forall e :: e in log ==> !Names(e, d)
    ensures d in Replay(spaces, kernel, log) && Replay(spaces, kernel, log)[d] == spaces[d]
  {
    if log != [] {
      UnnamedUnchanged(spaces, kernel, log[..|log| - 1], d);
      assert !Names(log[|log| - 1], d);
    }
  }

  /** What one page of one directory translates to after a run is decided by the last event on that page
      or on the directory as a whole. */
  lemma {:induction false} LastEventDecides(spaces: map<int, Space>, kernel: int, log: seq<Event>, i: nat,
                                            d: int, page: int)
    requires i < |log| && forall k :: i < k < |log| ==> !Touches(log[k], d, page)
    requires d in Replay(spaces, kernel, log[..i])
    ensures log[i].Mapped? && log[i].dir == d && log[i].page == page ==>
              var s := Replay(spaces, kernel, log); d in s && page in s[d] && s[d][page] == log[i].mapping
    ensures log[i] == Unmapped(d, page) ==>
              var s := Replay(spaces, kernel, log); d in s && page !in s[d]
    decreases |log|
  {
    var n := |log| - 1;
    if i < n {
      hide After;
      assert log[..n][..i] == log[..i];
      LastEventDecides(spaces, kernel, log[..n], i, d, page);
      assert !Touches(log[n], d, page);
      OtherEvent(Replay(spaces, kernel, log[..n]), kernel, log[n], d, page);
    }
  }

  lemma OtherEvent(spaces: map<int, Space>, kernel: int, e: Event, d: int, page: int)
    requires !Touches(e, d, page)
    ensures d in spaces ==>
              var s := After(spaces, kernel, e);
              d in s && (page in s[d] <==> page in spaces[d]) && (page in s[d] ==> s[d][page] == spaces[d][page])
  {}

  ghost predicate Touches(e: Event, d: int, page: int) {
    match e
    case Mapped(d', p, _, _) => d' == d && p == page
    case Unmapped(d', p) => d' == d && p == page
    case Created(d') => d' == d
    case Destroyed(d') => d' == d
    case _ => false
  }

  /** The same spaces with one page of one directory mapped. */
  ghost function WithPage(spaces: map<int, Space>, d: int, page: int, m: Mapping): map<int, Space>
    requires d in spaces
  {
    spaces[d := spaces[d][page := m]]
  }

  /** The same spaces with one page of one directory unmapped. */
  ghost function WithoutPage(spaces: map<int, Space>, d: int, page: int): map<int, Space>
    requires d in spaces
  {
    spaces[d := spaces[d] - {page}]
  }

  /** The table entry the code stores for a page. */
  function EntryValue(phys: Word, flags: Word): Word {
    AnyEntryWord(phys, flags);
    Or(Or(phys, And(flags, 0xFFF)), 1)
  }

  lemma EntryMeans(phys: Word, flags: Word)
    ensures EntryValue(phys, flags) == Or(Or(phys, And(flags, 0xFFF)), 1) && Present(EntryValue(phys, flags))
    ensures Decoded(EntryValue(phys, flags)) == Mapping(phys / PAGE_SIZE, EntryFlags(phys, flags))
  {
    hide Or, And, EntryFlags;
    AnyEntryWord(phys, flags);
    EntryDecodes(phys, EntryFlags(phys, flags));
  }

  /** Masking an entry recovers the aligned address and the flags it was made from. */
  lemma EntryDecodes(phys: Word, flags: nat)
    requires flags < PAGE_SIZE && flags % 2 == 1
    ensures var e := phys - phys % PAGE_SIZE + flags;
            e < 0x1_0000_0000 && Present(e) && Decoded(e) == Mapping(phys / PAGE_SIZE, flags)
  {
    assert phys - phys % PAGE_SIZE == phys / PAGE_SIZE * PAGE_SIZE;
  }

  /** The entry cleared, then the emptied table dropped. */
  lemma DroppedTable(ram0: seq<Word>, ram1: seq<Word>, ram2: seq<Word>, low: nat, dirs: set<nat>, owner: map<nat, Slot>,
                     d: nat, i: nat, t: nat, j: nat)
    requires Inv(ram0, dirs, owner) && d in dirs && i < 1024 && j < 1024 && t in owner && t !in dirs
    requires HasTable(ram0, d, i) && TableOf(ram0, d, i) == t && !NonEmpty(ram1, t)
    requires (forall f :: f in dirs || f in owner ==> f >= low) && forall f :: f in owner ==> f !in dirs
    requires forall f: nat, k: nat :: k < 1024 ==>
               Entry(ram1, f, k) == if f == t && k == j then 0 else Entry(ram0, f, k)
    requires forall f: nat, k: nat :: f >= low && k < 1024 ==>
               Entry(ram2, f, k) == if f == d && k == i then 0 else Entry(ram1, f, k)
    ensures Inv(ram2, dirs, owner - {t})
    ensures View(ram2, d) == View(ram0, d) - {i * 1024 + j}
    ensures forall e :: e in dirs && e != d ==> View(ram2, e) == View(ram0, e)
  {
    hide Inv, View, Entry, NonEmpty, HasTable, TableOf;
    EmptyBut(ram0, ram1, t, j);
    UnmapDropTable(ram0, ram2, dirs, owner, d, i, t, j);
  }

  lemma LastEntry(ram: seq<Word>, ram': seq<Word>, t: nat, j: nat)
    requires forall k: nat :: k < 1024 ==> Entry(ram', t, k) == if k == j then 0 else Entry(ram, t, k)
    ensures NonEmpty(ram', t) <==> exists k: nat :: k < 1024 && k != j && Present(Entry(ram, t, k))
  {
    if k: nat :| k < 1024 && k != j && Present(Entry(ram, t, k)) {
      assert Present(Entry(ram', t, k));
    }
  }

  lemma EmptyBut(ram: seq<Word>, ram': seq<Word>, t: nat, j: nat)
    requires forall k: nat :: k < 1024 ==> Entry(ram', t, k) == if k == j then 0 else Entry(ram, t, k)
    requires !NonEmpty(ram', t)
    ensures forall k: nat :: k < 1024 && k != j ==> !Present(Entry(ram, t, k))
  {
    forall k: nat | k < 1024 && k != j ensures !Present(Entry(ram, t, k)) {
      assert !Present(Entry(ram', t, k));
    }
  }

  /** `pt | (entry & 0xFFF)` keeps the new address and the old flags apart. */
  lemma OrFlags(phys: Word, entry: Word)
    requires phys % PAGE_SIZE == 0
    ensures var e := Or(phys, And(entry, 0xFFF));
            0 <= e < 0x1_0000_0000 && e / PAGE_SIZE == phys / PAGE_SIZE && e % PAGE_SIZE == entry % PAGE_SIZE
  {
    hide And, Or, Pow2;
    PageMasks(entry);
    Pow2Thirty2();
    OrLow(phys / PAGE_SIZE, 0, entry % PAGE_SIZE, 12);
    OrNone(entry % PAGE_SIZE);
    assert phys == phys / PAGE_SIZE * PAGE_SIZE;
  }

  /** The word of a fresh slot, written out. */
  lemma SlotWord(table: nat, flags: nat)
    requires table % PAGE_SIZE == 0
    ensures table + PresentFlags(flags) == table / PAGE_SIZE * 4096 + flags % 4096 / 2 * 2 + 1
  {}

  lemma TableOfSame(ram: seq<Word>, ram': seq<Word>, d: nat, i: nat)
    requires Entry(ram', d, i) == Entry(ram, d, i)
    ensures TableOf(ram', d, i) == TableOf(ram, d, i)
    ensures HasTable(ram', d, i) == HasTable(ram, d, i) == (Entry(ram, d, i) % 2 == 1)
  {}

  lemma TablesBelowNone(ram: seq<Word>, d: nat)
    ensures TablesBelow(ram, d, 0) == {}
  {}

  lemma TablesBelowStep(ram: seq<Word>, d: nat, j: nat, n: nat, held: set<nat>)
    requires j < n
    ensures HasTable(ram, d, j) ==> TableOf(ram, d, j) in TablesBelow(ram, d, n)
    ensures held - TablesBelow(ram, d, j + 1)
         == held - TablesBelow(ram, d, j) - (if HasTable(ram, d, j) then {TableOf(ram, d, j)} else {})
  {
    assert TablesBelow(ram, d, j + 1)
        == TablesBelow(ram, d, j) + (if HasTable(ram, d, j) then {TableOf(ram, d, j)} else {});
  }

  lemma UsedSetSize(ram: seq<Word>, base: nat, total: nat)
    ensures |UsedSet(ram, base, total)| <= total
  {
    CountBelow(UsedSet(ram, base, total), total);
  }

  lemma SingleSpace(ram: seq<Word>, ram': seq<Word>, d: nat)
    ensures d in Spaces(ram, {d}) && Spaces(ram, {d})[d] == View(ram, d)
    ensures d in Spaces(ram', {d}) && Spaces(ram', {d})[d] == View(ram', d)
  {}

  /** A page of region i can be mapped when the region already has one, or some frame is free. */
  ghost predicate Mappable(ram: seq<Word>, held: set<nat>, total: nat, d: nat, i: nat) {
    i in Regions(View(ram, d)) || |held| < total
  }

  /** The two index fields and the offset split an address: `virt >> 22` and `(virt >> 12) & 0x3FF`. */
  lemma PageIndex(virt: Word)
    ensures virt / 0x40_0000 < 1024
    ensures And(virt / 0x1000, 0x3FF) == virt / 0x1000 % 1024
    ensures virt / 0x40_0000 * 1024 + And(virt / 0x1000, 0x3FF) == virt / 0x1000
  {
    assert Pow2(10) == 1024;
    AndMask(virt / 0x1000, 10);
  }
}
