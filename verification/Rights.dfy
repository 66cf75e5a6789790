/** The flags of directory slots: what a whole 4 MiB region of a directory is allowed, whatever its page
    entries say. */
module Rights {
  import opened Bits
  import opened Paging

  /** For every slot with a table, the low twelve bits of its word. */
  type Slots = map<int, int>

  ghost function SlotsOf(ram: seq<Word>, d: nat): Slots {
    map i: int | 0 <= i < 1024 && HasTable(ram, d, i) :: Entry(ram, d, i) % 4096
  }

  ghost function AllSlots(ram: seq<Word>, dirs: set<nat>): map<int, Slots> {
    map d | d in dirs :: SlotsOf(ram, d)
  }

  /** A mapping sets the flags of a slot that has no table yet. */
  ghost function WithSlot(all: map<int, Slots>, d: int, i: int, flags: nat): map<int, Slots>
    requires d in all
  {
    var low := flags % 4096 / 2 * 2 + 1;
    if i in all[d] then all else all[d := all[d][i := low]]
  }

  /** A slot whose region has been emptied loses its table. */
  ghost function OnlySlots(all: map<int, Slots>, d: int, regions: set<int>): map<int, Slots>
    requires d in all
  {
    all[d := map i | i in all[d] && i in regions :: all[d][i]]
  }

  lemma SlotsSame(ram: seq<Word>, ram': seq<Word>, d: nat)
    requires forall k: nat :: k < 1024 ==> Entry(ram', d, k) == Entry(ram, d, k)
    ensures SlotsOf(ram', d) == SlotsOf(ram, d)
  {
    forall i: int | 0 <= i < 1024 ensures HasTable(ram', d, i) == HasTable(ram, d, i) {
      assert Entry(ram', d, i) == Entry(ram, d, i);
    }
  }

  lemma AllSlotsSame(ram: seq<Word>, ram': seq<Word>, dirs: set<nat>)
    requires forall f: nat, k: nat :: f in dirs && k < 1024 ==> Entry(ram', f, k) == Entry(ram, f, k)
    ensures AllSlots(ram', dirs) == AllSlots(ram, dirs)
  {
    hide Entry, SlotsOf;
    forall d | d in dirs ensures SlotsOf(ram', d) == SlotsOf(ram, d) {
      SlotsSame(ram, ram', d);
    }
  }

  /** One directory's slots changed, the others' words did not. */
  lemma OneChanged(ram: seq<Word>, ram': seq<Word>, dirs: set<nat>, d: nat, slots: Slots)
    requires d in dirs && SlotsOf(ram', d) == slots
    requires forall f: nat, k: nat :: f in dirs && f != d && k < 1024 ==> Entry(ram', f, k) == Entry(ram, f, k)
    ensures AllSlots(ram', dirs) == AllSlots(ram, dirs)[d := slots]
  {
    hide Entry, SlotsOf;
    forall e | e in dirs && e != d ensures SlotsOf(ram', e) == SlotsOf(ram, e) {
      SlotsSame(ram, ram', e);
    }
  }

  /** Mapping into a region with a table leaves every slot alone; the first mapping in a region fixes the flags
      of its slot. */
  lemma MapSlots(ram: seq<Word>, ram': seq<Word>, dirs: set<nat>, d: nat, i: nat, t: nat, flags: nat)
    requires d in dirs && i < 1024 && HasTable(ram', d, i)
    requires forall f: nat, k: nat :: f in dirs && k < 1024 ==>
               Entry(ram', f, k) ==
               if f == d && k == i && !HasTable(ram, d, i) then t * 4096 + flags % 4096 / 2 * 2 + 1
               else Entry(ram, f, k)
    ensures d in AllSlots(ram, dirs)
    ensures AllSlots(ram', dirs) == WithSlot(AllSlots(ram, dirs), d, i, flags)
  {
    hide Entry;
    if HasTable(ram, d, i) {
      AllSlotsSame(ram, ram', dirs);
    } else {
      var low := flags % 4096 / 2 * 2 + 1;
      var slots := SlotsOf(ram, d)[i := low];
      assert Entry(ram', d, i) % 4096 == low;
      forall k: int | 0 <= k < 1024
        ensures HasTable(ram', d, k) <==> k in slots
        ensures HasTable(ram', d, k) ==> Entry(ram', d, k) % 4096 == slots[k]
      {
        assert k != i ==> Entry(ram', d, k) == Entry(ram, d, k);
      }
      assert SlotsOf(ram', d) == slots;
      OneChanged(ram, ram', dirs, d, slots);
    }
  }

  /** After an unmapping the slots that are left are those of the regions still mapped, words unchanged. */
  lemma UnmapSlots(ram: seq<Word>, ram': seq<Word>, dirs: set<nat>, owner': map<nat, Slot>, d: nat)
    requires Inv(ram', dirs, owner') && d in dirs
    requires forall f: nat, k: nat :: f in dirs && f != d && k < 1024 ==> Entry(ram', f, k) == Entry(ram, f, k)
    requires forall k: nat :: k < 1024 ==> Entry(ram', d, k) == Entry(ram, d, k) || Entry(ram', d, k) == 0
    ensures d in AllSlots(ram, dirs)
    ensures AllSlots(ram', dirs) == OnlySlots(AllSlots(ram, dirs), d, Regions(View(ram', d)))
  {
    hide Entry, Inv, Regions, View;
    var all := AllSlots(ram, dirs);
    var slots := map i | i in all[d] && i in Regions(View(ram', d)) :: all[d][i];
    forall k: int | 0 <= k < 1024
      ensures HasTable(ram', d, k) <==> k in slots
      ensures HasTable(ram', d, k) ==> Entry(ram', d, k) % 4096 == slots[k]
    {
      RegionHasTable(ram', dirs, owner', d, k);
      assert Entry(ram', d, k) == Entry(ram, d, k) || Entry(ram', d, k) == 0;
    }
    assert SlotsOf(ram', d) == slots;
    OneChanged(ram, ram', dirs, d, slots);
  }

  /** A copied directory has the slots of the one it was copied from. */
  lemma CopySlots(ram: seq<Word>, ram': seq<Word>, dirs: set<nat>, owner': map<nat, Slot>, kd: nat, p: nat)
    requires kd in dirs && p !in dirs && Inv(ram', dirs + {p}, owner')
    requires forall f: nat, k: nat :: f in dirs && k < 1024 ==> Entry(ram', f, k) == Entry(ram, f, k)
    requires View(ram', p) == View(ram', kd) && SameSlotFlags(ram', p, kd)
    ensures kd in AllSlots(ram, dirs)
    ensures AllSlots(ram', dirs + {p}) == AllSlots(ram, dirs)[p := AllSlots(ram, dirs)[kd]]
  {
    hide Entry, Inv, Regions, View;
    forall k: int | 0 <= k < 1024 ensures HasTable(ram', p, k) <==> HasTable(ram', kd, k) {
      RegionHasTable(ram', dirs + {p}, owner', p, k);
      RegionHasTable(ram', dirs + {p}, owner', kd, k);
    }
    assert SlotsOf(ram', p) == SlotsOf(ram', kd);
    hide SlotsOf;
    forall d | d in dirs ensures SlotsOf(ram', d) == SlotsOf(ram, d) {
      SlotsSame(ram, ram', d);
    }
  }

  lemma DropSlots(ram: seq<Word>, ram': seq<Word>, dirs: set<nat>, d: nat)
    requires forall f: nat, k: nat :: f in dirs && k < 1024 ==> Entry(ram', f, k) == Entry(ram, f, k)
    ensures AllSlots(ram', dirs - {d}) == AllSlots(ram, dirs) - {d}
  {
    hide Entry, SlotsOf;
    forall e | e in dirs ensures SlotsOf(ram', e) == SlotsOf(ram, e) {
      SlotsSame(ram, ram', e);
    }
  }

  /** Every table hangs in a slot that is present, writable and for the kernel alone. */
  ghost predicate SlotsWritable(ram: seq<Word>, d: nat) {
    forall i: nat :: i < 1024 && HasTable(ram, d, i) ==> Entry(ram, d, i) % 4096 == 3
  }

  lemma WritableSlots(ram: seq<Word>, d: nat)
    requires SlotsWritable(ram, d)
    ensures forall i: nat :: i < 1024 && HasTable(ram, d, i) ==> Entry(ram, d, i) % 4096 == 3
  {}

  lemma StillWritable(ram: seq<Word>, ram': seq<Word>, d: nat, i: nat)
    requires SlotsWritable(ram, d) && i < 1024
    requires forall k: nat :: k < 1024 ==>
               Entry(ram', d, k) ==
               if k == i && !HasTable(ram, d, i) then TableOf(ram', d, i) * 4096 + 3 else Entry(ram, d, k)
    ensures SlotsWritable(ram', d)
  {
    hide Entry;
    forall k: nat | k < 1024 && HasTable(ram', d, k) ensures Entry(ram', d, k) % 4096 == 3 {
      assert k != i ==> Entry(ram', d, k) == Entry(ram, d, k);
    }
  }

  /** The slots of a live directory are its mapped regions. */
  lemma SlotsAreMapped(ram: seq<Word>, dirs: set<nat>, owner: map<nat, Slot>, d: nat)
    requires Inv(ram, dirs, owner) && d in dirs
    ensures d in AllSlots(ram, dirs) && AllSlots(ram, dirs)[d].Keys == Regions(View(ram, d))
  {
    hide Entry, Inv, View;
    SlotsOfRegions(ram, dirs, owner, d);
    assert SlotsOf(ram, d).Keys == TableSlots(ram, d, 1024);
  }
}
