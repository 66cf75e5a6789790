/** Two-level page tables as values: what a directory frame in RAM translates, and what each kind of
    table update does to every translation in the machine. */
module Paging {
  import opened Common
  import opened Bits
  import opened Pmm

  /** A page-table entry seen from outside: frame number and the twelve flag bits. */
  datatype Mapping = Mapping(frame: nat, flags: nat)

  /** The directory entry that points at a table. */
  datatype Slot = Slot(dir: nat, idx: nat)

  datatype Option<T> = None | Some(value: T)

  type Space = map<int, Mapping>

  const PAGES := 0x10_0000

  /** Word i of frame f. */
  function Entry(ram: seq<Word>, f: nat, i: nat): Word {
    if f * FRAME_WORDS + i < |ram| then ram[f * FRAME_WORDS + i] else 0
  }

  predicate Present(e: Word) { e % 2 == 1 }

  predicate HasTable(ram: seq<Word>, d: nat, i: nat) { Present(Entry(ram, d, i)) }

  function TableOf(ram: seq<Word>, d: nat, i: nat): nat { Entry(ram, d, i) / PAGE_SIZE }

  /** Translation of table slot j under directory slot i of d. */
  function Lookup(ram: seq<Word>, d: nat, i: nat, j: nat): Option<Mapping> {
    if HasTable(ram, d, i) && Present(Entry(ram, TableOf(ram, d, i), j))
    then Some(Decoded(Entry(ram, TableOf(ram, d, i), j)))
    else None
  }

  function Decoded(e: Word): Mapping { Mapping(e / PAGE_SIZE, e % PAGE_SIZE) }

  /** The partial map from 20-bit page numbers that directory d denotes. */
  ghost function View(ram: seq<Word>, d: nat): Space {
    map p: int | 0 <= p < PAGES && Lookup(ram, d, p / 1024, p % 1024).Some? ::
      Lookup(ram, d, p / 1024, p % 1024).value
  }

  ghost predicate NonEmpty(ram: seq<Word>, t: nat) {
    exists j :: 0 <= j < 1024 && Present(Entry(ram, t, j))
  }

  ghost predicate SameFrame(ram: seq<Word>, ram': seq<Word>, f: nat) {
    forall k: nat :: k < 1024 ==> Entry(ram', f, k) == Entry(ram, f, k)
  }

  /** `owner` names, for every table frame, the one directory slot that points at it. */
  ghost predicate Inv(ram: seq<Word>, dirs: set<nat>, owner: map<nat, Slot>) {
    && (forall t :: t in owner ==> t !in dirs)
    && (forall d, i: nat :: d in dirs && i < 1024 ==> Owned(ram, owner, d, i))
    && (forall t :: t in owner ==> Owns(ram, dirs, owner[t], t))
    && (forall t :: t in owner ==> NonEmpty(ram, t))
  }

  ghost predicate Owned(ram: seq<Word>, owner: map<nat, Slot>, d: nat, i: nat) {
    HasTable(ram, d, i) ==> TableOf(ram, d, i) in owner && owner[TableOf(ram, d, i)] == Slot(d, i)
  }

  ghost predicate Owns(ram: seq<Word>, dirs: set<nat>, s: Slot, t: nat) {
    s.dir in dirs && s.idx < 1024 && HasTable(ram, s.dir, s.idx) && TableOf(ram, s.dir, s.idx) == t
  }

  /** Every table of d hangs in a slot with the flags of the same slot of d'. */
  ghost predicate SameSlotFlags(ram: seq<Word>, d: nat, d': nat) {
    forall i: nat :: i < 1024 && HasTable(ram, d, i) ==>
      Entry(ram, d, i) % PAGE_SIZE == Entry(ram, d', i) % PAGE_SIZE
  }

  /** Every frame that belongs to directory d. */
  ghost function OwnedBy(owner: map<nat, Slot>, d: nat): set<nat> {
    {d} + set t | t in owner && owner[t].dir == d
  }

  /** The 4 MiB regions in which a space maps at least one page. */
  ghost function Regions(space: Space): set<int> {
    set p | p in space :: p / 1024
  }

  ghost function Spaces(ram: seq<Word>, dirs: set<nat>): map<int, Space> {
    map d | d in dirs :: View(ram, d)
  }

  lemma SpacesUpdated(ram: seq<Word>, ram': seq<Word>, dirs: set<nat>, d: nat, space: Space)
    requires d in dirs && View(ram', d) == space
    requires forall e :: e in dirs && e != d ==> View(ram', e) == View(ram, e)
    ensures d in Spaces(ram, dirs) && Spaces(ram, dirs)[d] == View(ram, d)
    ensures Spaces(ram', dirs) == Spaces(ram, dirs)[d := space]
  {
    hide View;
  }

  // ----- one word, one frame

  lemma StoreEffect(ram: seq<Word>, f: nat, i: nat, w: Word)
    requires f * FRAME_WORDS + i < |ram| && i < 1024
    ensures forall g: nat, k: nat {:trigger Entry(ram[f * FRAME_WORDS + i := w], g, k)} :: k < 1024 ==>
              Entry(ram[f * FRAME_WORDS + i := w], g, k) == if g == f && k == i then w else Entry(ram, g, k)
  {}

  // ----- words that stay

  /** Outside the given frames and the bitmap no word changed. */
  ghost predicate ChangedOnly(ram: seq<Word>, ram': seq<Word>, base: nat, total: nat, frames: set<nat>) {
    && |ram'| == |ram|
    && forall k: nat :: k < |ram| && k / FRAME_WORDS !in frames && !InBitmap(base, total, k) ==> ram'[k] == ram[k]
  }

  /** Inside the given frames, the bitmap apart, every word is as before. */
  ghost predicate FramesKept(ram: seq<Word>, ram': seq<Word>, base: nat, total: nat, frames: set<nat>) {
    && |ram'| == |ram|
    && forall k: nat :: k < |ram| && k / FRAME_WORDS in frames && !InBitmap(base, total, k) ==> ram'[k] == ram[k]
  }

  lemma KeptApart(ram: seq<Word>, ram': seq<Word>, base: nat, total: nat, changed: set<nat>, frames: set<nat>)
    requires ChangedOnly(ram, ram', base, total, changed) && changed !! frames
    ensures FramesKept(ram, ram', base, total, frames)
  {}

  lemma KeptSame(ram: seq<Word>, base: nat, total: nat, frames: set<nat>)
    ensures FramesKept(ram, ram, base, total, frames) && ChangedOnly(ram, ram, base, total, frames)
  {}

  lemma KeptThen(a: seq<Word>, b: seq<Word>, c: seq<Word>, base: nat, total: nat, frames: set<nat>)
    requires FramesKept(a, b, base, total, frames) && FramesKept(b, c, base, total, frames)
    ensures FramesKept(a, c, base, total, frames)
  {}

  lemma KeptFewer(ram: seq<Word>, ram': seq<Word>, base: nat, total: nat, frames: set<nat>, fewer: set<nat>)
    requires FramesKept(ram, ram', base, total, frames) && fewer <= frames
    ensures FramesKept(ram, ram', base, total, fewer)
  {}

  lemma ChangedThen(a: seq<Word>, b: seq<Word>, c: seq<Word>, base: nat, total: nat, s: set<nat>, t: set<nat>)
    requires ChangedOnly(a, b, base, total, s) && ChangedOnly(b, c, base, total, t)
    ensures ChangedOnly(a, c, base, total, s + t)
  {}

  lemma ChangedBitmap(ram: seq<Word>, ram': seq<Word>, base: nat, total: nat)
    requires OffBitmap(ram, ram', base, total)
    ensures ChangedOnly(ram, ram', base, total, {})
  {}

  lemma ChangedWord(ram: seq<Word>, f: nat, i: nat, w: Word, base: nat, total: nat)
    requires f * FRAME_WORDS + i < |ram| && i < FRAME_WORDS
    ensures ChangedOnly(ram, ram[f * FRAME_WORDS + i := w], base, total, {f})
  {
    assert (f * FRAME_WORDS + i) / FRAME_WORDS == f;
  }

  lemma EntriesFrom(ram: seq<Word>, ram': seq<Word>, low: nat)
    requires SameFrom(ram, ram', low)
    ensures forall f: nat, k: nat :: f >= low ==> Entry(ram', f, k) == Entry(ram, f, k)
  {
    forall f: nat, k: nat | f >= low ensures Entry(ram', f, k) == Entry(ram, f, k) {
      assert f * FRAME_WORDS >= low * FRAME_WORDS;
    }
  }

  lemma LookupFramed(ram: seq<Word>, ram': seq<Word>, d: nat, i: nat, j: nat)
    requires i < 1024 && j < 1024
    requires SameFrame(ram, ram', d)
    requires HasTable(ram, d, i) ==> SameFrame(ram, ram', TableOf(ram, d, i))
    ensures Lookup(ram', d, i, j) == Lookup(ram, d, i, j)
  {}

  // ----- views from lookups

  lemma ViewsEqual(ram: seq<Word>, d: nat, ram': seq<Word>, d': nat)
    requires forall i: nat, j: nat :: i < 1024 && j < 1024 ==> Lookup(ram', d', i, j) == Lookup(ram, d, i, j)
    ensures View(ram', d') == View(ram, d)
  {
    forall p: nat | p < PAGES
      ensures Lookup(ram', d', p / 1024, p % 1024) == Lookup(ram, d, p / 1024, p % 1024)
    {}
  }

  lemma ViewMapped(ram: seq<Word>, ram': seq<Word>, d: nat, i: nat, j: nat, m: Mapping)
    requires i < 1024 && j < 1024
    requires forall k: nat, l: nat :: k < 1024 && l < 1024 ==>
               Lookup(ram', d, k, l) == if k == i && l == j then Some(m) else Lookup(ram, d, k, l)
    ensures View(ram', d) == View(ram, d)[i * 1024 + j := m]
  {
    forall p: nat | p < PAGES
      ensures Lookup(ram', d, p / 1024, p % 1024)
           == if p == i * 1024 + j then Some(m) else Lookup(ram, d, p / 1024, p % 1024)
    {}
  }

  lemma ViewUnmapped(ram: seq<Word>, ram': seq<Word>, d: nat, i: nat, j: nat)
    requires i < 1024 && j < 1024
    requires forall k: nat, l: nat :: k < 1024 && l < 1024 ==>
               Lookup(ram', d, k, l) == if k == i && l == j then None else Lookup(ram, d, k, l)
    ensures View(ram', d) == View(ram, d) - {i * 1024 + j}
  {
    forall p: nat | p < PAGES
      ensures Lookup(ram', d, p / 1024, p % 1024)
           == if p == i * 1024 + j then None else Lookup(ram, d, p / 1024, p % 1024)
    {}
  }

  // ----- what the canonical form says

  /** No present directory entry points at an empty table, so a region is mapped iff it has a table. */
  lemma RegionHasTable(ram: seq<Word>, dirs: set<nat>, owner: map<nat, Slot>, d: nat, i: nat)
    requires Inv(ram, dirs, owner) && d in dirs && i < 1024
    ensures i in Regions(View(ram, d)) <==> HasTable(ram, d, i)
  {
    assert Owned(ram, owner, d, i);
    if HasTable(ram, d, i) {
      var t := TableOf(ram, d, i);
      assert NonEmpty(ram, t);
      var j: nat :| j < 1024 && Present(Entry(ram, t, j));
      var p := i * 1024 + j;
      assert p / 1024 == i && p % 1024 == j;
      assert p in View(ram, d);
    }
  }

  lemma TableHasOwner(ram: seq<Word>, dirs: set<nat>, owner: map<nat, Slot>, d: nat, i: nat)
    requires Inv(ram, dirs, owner) && d in dirs && i < 1024 && HasTable(ram, d, i)
    ensures TableOf(ram, d, i) in owner && TableOf(ram, d, i) !in dirs
    ensures owner[TableOf(ram, d, i)] == Slot(d, i)
  {
    assert Owned(ram, owner, d, i);
  }

  /** Tables of distinct slots, of the same or of different directories, are distinct frames. */
  lemma TablesDistinct(ram: seq<Word>, dirs: set<nat>, owner: map<nat, Slot>, d: nat, i: nat, d': nat, i': nat)
    requires Inv(ram, dirs, owner) && d in dirs && d' in dirs && i < 1024 && i' < 1024
    requires HasTable(ram, d, i) && HasTable(ram, d', i') && TableOf(ram, d, i) == TableOf(ram, d', i')
    ensures d == d' && i == i'
  {
    assert Owned(ram, owner, d, i) && Owned(ram, owner, d', i');
  }

  /** Exact frame count: one directory frame and one table frame for each mapped 4 MiB region. */
  lemma FramesOwned(ram: seq<Word>, dirs: set<nat>, owner: map<nat, Slot>, d: nat)
    requires Inv(ram, dirs, owner) && d in dirs
    ensures |OwnedBy(owner, d)| == 1 + |Regions(View(ram, d))|
  {
    var tables := set t | t in owner && owner[t].dir == d;
    SlotsAreRegions(ram, dirs, owner, d, tables);
    TablesInjective(ram, dirs, owner, d, tables);
    ImageSize(tables, owner);
    assert OwnedBy(owner, d) == {d} + tables;
    assert d !in tables;
  }

  lemma SlotsAreRegions(ram: seq<Word>, dirs: set<nat>, owner: map<nat, Slot>, d: nat, tables: set<nat>)
    requires Inv(ram, dirs, owner) && d in dirs
    requires tables == set t | t in owner && owner[t].dir == d
    ensures (set t | t in tables :: owner[t].idx) == Regions(View(ram, d))
  {
    forall i: nat
      ensures i in (set t | t in tables :: owner[t].idx) <==> i in Regions(View(ram, d))
    {
      if t :| t in tables && owner[t].idx == i {
        assert Owns(ram, dirs, owner[t], t);
        RegionHasTable(ram, dirs, owner, d, i);
      }
      if i in Regions(View(ram, d)) {
        RegionBound(ram, d, i);
        RegionHasTable(ram, dirs, owner, d, i);
        var t := TableOf(ram, d, i);
        assert Owned(ram, owner, d, i);
        assert t in tables && owner[t].idx == i;
      }
    }
  }

  lemma TablesInjective(ram: seq<Word>, dirs: set<nat>, owner: map<nat, Slot>, d: nat, tables: set<nat>)
    requires Inv(ram, dirs, owner) && d in dirs
    requires tables == set t | t in owner && owner[t].dir == d
    ensures forall t, t' :: t in tables && t' in tables && owner[t].idx == owner[t'].idx ==> t == t'
  {
    forall t, t' | t in tables && t' in tables && owner[t].idx == owner[t'].idx ensures t == t' {
      assert Owns(ram, dirs, owner[t], t) && Owns(ram, dirs, owner[t'], t');
    }
  }

  lemma RegionBound(ram: seq<Word>, d: nat, i: nat)
    requires i in Regions(View(ram, d))
    ensures i < 1024
  {}

  lemma {:induction false} ImageSize(s: set<nat>, owner: map<nat, Slot>)
    requires s <= owner.Keys
    requires forall t, t' :: t in s && t' in s && owner[t].idx == owner[t'].idx ==> t == t'
    ensures |set t | t in s :: owner[t].idx| == |s|
  {
    var image := set t | t in s :: owner[t].idx;
    if s == {} {
      assert image == {};
    } else {
      var x :| x in s;
      var rest := s - {x};
      ImageSize(rest, owner);
      var image' := set t | t in rest :: owner[t].idx;
      assert image == image' + {owner[x].idx};
      assert owner[x].idx !in image';
    }
  }

  /** Directories share no frame. */
  lemma OwnedDisjoint(ram: seq<Word>, dirs: set<nat>, owner: map<nat, Slot>, d: nat, d': nat)
    requires Inv(ram, dirs, owner) && d in dirs && d' in dirs && d != d'
    ensures OwnedBy(owner, d) !! OwnedBy(owner, d')
  {}

  // ----- the updates

  /** Memory that agrees on every owned frame keeps the invariant and all translations. */
  lemma Framed(ram: seq<Word>, ram': seq<Word>, dirs: set<nat>, owner: map<nat, Slot>)
    requires Inv(ram, dirs, owner)
    requires forall f: nat, k: nat :: (f in dirs || f in owner) && k < 1024 ==> Entry(ram', f, k) == Entry(ram, f, k)
    ensures Inv(ram', dirs, owner)
    ensures forall d :: d in dirs ==> View(ram', d) == View(ram, d)
  {
    forall d | d in dirs ensures View(ram', d) == View(ram, d) {
      ViewFramed(ram, ram', dirs, owner, d);
    }
    forall t | t in owner ensures NonEmpty(ram', t) {
      NonEmptyFramed(ram, ram', t);
    }
    forall t | t in owner ensures Owns(ram', dirs, owner[t], t) {
      assert Owns(ram, dirs, owner[t], t);
    }
    forall d, i: nat | d in dirs && i < 1024 ensures Owned(ram', owner, d, i) {
      assert Owned(ram, owner, d, i);
      assert Entry(ram', d, i) == Entry(ram, d, i);
    }
  }

  lemma NonEmptyFramed(ram: seq<Word>, ram': seq<Word>, t: nat)
    requires SameFrame(ram, ram', t) && NonEmpty(ram, t)
    ensures NonEmpty(ram', t)
  {
    var j: nat :| j < 1024 && Present(Entry(ram, t, j));
    assert Present(Entry(ram', t, j));
  }

  lemma ViewFramed(ram: seq<Word>, ram': seq<Word>, dirs: set<nat>, owner: map<nat, Slot>, d: nat)
    requires Inv(ram, dirs, owner) && d in dirs
    requires SameFrame(ram, ram', d)
    requires forall t: nat, k: nat :: t in owner && owner[t].dir == d && k < 1024 ==>
               Entry(ram', t, k) == Entry(ram, t, k)
    ensures View(ram', d) == View(ram, d)
  {
    forall i: nat, j: nat | i < 1024 && j < 1024 ensures Lookup(ram', d, i, j) == Lookup(ram, d, i, j) {
      assert Owned(ram, owner, d, i);
      LookupFramed(ram, ram', d, i, j);
    }
    ViewsEqual(ram, d, ram', d);
  }

  /** Writing a present entry into an existing table maps that one page of that one directory. */
  lemma MapInPlace(ram: seq<Word>, ram': seq<Word>, dirs: set<nat>, owner: map<nat, Slot>,
                   d: nat, i: nat, t: nat, j: nat, pte: Word)
    requires Inv(ram, dirs, owner) && d in dirs && i < 1024 && j < 1024 && Present(pte)
    requires HasTable(ram, d, i) && TableOf(ram, d, i) == t
    requires forall f: nat, k: nat :: k < 1024 ==>
               Entry(ram', f, k) == if f == t && k == j then pte else Entry(ram, f, k)
    ensures Inv(ram', dirs, owner)
    ensures View(ram', d) == View(ram, d)[i * 1024 + j := Decoded(pte)]
    ensures forall e :: e in dirs && e != d ==> View(ram', e) == View(ram, e)
  {
    assert Owned(ram, owner, d, i);
    TableRewritten(ram, ram', dirs, owner, d, i, t);
    forall u | u in owner ensures NonEmpty(ram', u) {
      if u == t { assert Present(Entry(ram', t, j)); } else { NonEmptyFramed(ram, ram', u); }
    }
    forall k: nat, l: nat | k < 1024 && l < 1024
      ensures Lookup(ram', d, k, l) == if k == i && l == j then Some(Decoded(pte)) else Lookup(ram, d, k, l)
    {
      assert Owned(ram, owner, d, k);
      if k != i { LookupFramed(ram, ram', d, k, l); }
    }
    ViewMapped(ram, ram', d, i, j, Decoded(pte));
  }

  /** Clearing an entry of a table that stays non-empty unmaps that one page. */
  lemma UnmapInPlace(ram: seq<Word>, ram': seq<Word>, dirs: set<nat>, owner: map<nat, Slot>,
                     d: nat, i: nat, t: nat, j: nat)
    requires Inv(ram, dirs, owner) && d in dirs && i < 1024 && j < 1024
    requires HasTable(ram, d, i) && TableOf(ram, d, i) == t
    requires forall f: nat, k: nat :: k < 1024 ==>
               Entry(ram', f, k) == if f == t && k == j then 0 else Entry(ram, f, k)
    requires NonEmpty(ram', t)
    ensures Inv(ram', dirs, owner)
    ensures View(ram', d) == View(ram, d) - {i * 1024 + j}
    ensures forall e :: e in dirs && e != d ==> View(ram', e) == View(ram, e)
  {
    assert Owned(ram, owner, d, i);
    TableRewritten(ram, ram', dirs, owner, d, i, t);
    forall u | u in owner ensures NonEmpty(ram', u) {
      if u != t { NonEmptyFramed(ram, ram', u); }
    }
    forall k: nat, l: nat | k < 1024 && l < 1024
      ensures Lookup(ram', d, k, l) == if k == i && l == j then None else Lookup(ram, d, k, l)
    {
      assert Owned(ram, owner, d, k);
      if k != i { LookupFramed(ram, ram', d, k, l); }
    }
    ViewUnmapped(ram, ram', d, i, j);
  }

  /** Changing the words of one table leaves the ownership relation and all other directories alone. */
  lemma TableRewritten(ram: seq<Word>, ram': seq<Word>, dirs: set<nat>, owner: map<nat, Slot>,
                       d: nat, i: nat, t: nat)
    requires Inv(ram, dirs, owner) && t in owner && owner[t] == Slot(d, i)
    requires forall f: nat, k: nat :: f != t && k < 1024 ==> Entry(ram', f, k) == Entry(ram, f, k)
    ensures forall e, k: nat :: e in dirs && k < 1024 ==> Entry(ram', e, k) == Entry(ram, e, k)
    ensures forall e, k: nat :: e in dirs && k < 1024 ==> Owned(ram', owner, e, k)
    ensures forall u :: u in owner ==> Owns(ram', dirs, owner[u], u)
    ensures forall e :: e in dirs && e != d ==> View(ram', e) == View(ram, e)
  {
    forall u | u in owner ensures Owns(ram', dirs, owner[u], u) {
      assert Owns(ram, dirs, owner[u], u);
    }
    forall e, k: nat | e in dirs && k < 1024 ensures Owned(ram', owner, e, k) {
      assert Owned(ram, owner, e, k);
      assert Entry(ram', e, k) == Entry(ram, e, k);
    }
    forall e | e in dirs && e != d ensures View(ram', e) == View(ram, e) {
      ViewFramed(ram, ram', dirs, owner, e);
    }
  }

  /** Hanging a fresh one-entry table under an empty slot maps that one page. */
  lemma MapNewTable(ram: seq<Word>, ram': seq<Word>, dirs: set<nat>, owner: map<nat, Slot>,
                    d: nat, i: nat, t: nat, j: nat, pde: Word, pte: Word)
    requires Inv(ram, dirs, owner) && d in dirs && i < 1024 && j < 1024
    requires Present(pde) && pde / PAGE_SIZE == t && Present(pte)
    requires !HasTable(ram, d, i) && t !in dirs && t !in owner
    requires forall f: nat, k: nat :: ((f in dirs && f != d) || f in owner) && k < 1024 ==>
               Entry(ram', f, k) == Entry(ram, f, k)
    requires forall k: nat :: k < 1024 ==> Entry(ram', d, k) == if k == i then pde else Entry(ram, d, k)
    requires forall k: nat :: k < 1024 ==> Entry(ram', t, k) == if k == j then pte else 0
    ensures Inv(ram', dirs, owner[t := Slot(d, i)])
    ensures View(ram', d) == View(ram, d)[i * 1024 + j := Decoded(pte)]
    ensures forall e :: e in dirs && e != d ==> View(ram', e) == View(ram, e)
  {
    var owner' := owner[t := Slot(d, i)];
    forall u | u in owner' ensures Owns(ram', dirs, owner'[u], u) && NonEmpty(ram', u) {
      if u == t {
        assert Present(Entry(ram', t, j));
      } else {
        assert Owns(ram, dirs, owner[u], u);
        NonEmptyFramed(ram, ram', u);
      }
    }
    forall e, k: nat | e in dirs && k < 1024 ensures Owned(ram', owner', e, k) {
      assert Owned(ram, owner, e, k);
      assert e != d ==> Entry(ram', e, k) == Entry(ram, e, k);
    }
    forall e | e in dirs && e != d ensures View(ram', e) == View(ram, e) {
      ViewFramed(ram, ram', dirs, owner, e);
    }
    forall k: nat, l: nat | k < 1024 && l < 1024
      ensures Lookup(ram', d, k, l) == if k == i && l == j then Some(Decoded(pte)) else Lookup(ram, d, k, l)
    {
      assert Owned(ram, owner, d, k);
    }
    ViewMapped(ram, ram', d, i, j, Decoded(pte));
  }

  /** Dropping a table whose only present entry was j unmaps that one page. */
  lemma UnmapDropTable(ram: seq<Word>, ram': seq<Word>, dirs: set<nat>, owner: map<nat, Slot>,
                       d: nat, i: nat, t: nat, j: nat)
    requires Inv(ram, dirs, owner) && d in dirs && i < 1024 && j < 1024
    requires HasTable(ram, d, i) && TableOf(ram, d, i) == t
    requires forall k: nat :: k < 1024 && k != j ==> !Present(Entry(ram, t, k))
    requires forall f: nat, k: nat :: ((f in dirs && f != d) || (f in owner && f != t)) && k < 1024 ==>
               Entry(ram', f, k) == Entry(ram, f, k)
    requires forall k: nat :: k < 1024 ==> Entry(ram', d, k) == if k == i then 0 else Entry(ram, d, k)
    ensures Inv(ram', dirs, owner - {t})
    ensures View(ram', d) == View(ram, d) - {i * 1024 + j}
    ensures forall e :: e in dirs && e != d ==> View(ram', e) == View(ram, e)
  {
    var owner' := owner - {t};
    assert Owned(ram, owner, d, i);
    forall u | u in owner' ensures Owns(ram', dirs, owner'[u], u) && NonEmpty(ram', u) {
      assert Owns(ram, dirs, owner[u], u);
      NonEmptyFramed(ram, ram', u);
    }
    forall e, k: nat | e in dirs && k < 1024 ensures Owned(ram', owner', e, k) {
      assert Owned(ram, owner, e, k);
      assert e != d ==> Entry(ram', e, k) == Entry(ram, e, k);
    }
    forall e | e in dirs && e != d ensures View(ram', e) == View(ram, e) {
      ViewFramed(ram, ram', dirs, owner, e);
    }
    forall k: nat, l: nat | k < 1024 && l < 1024
      ensures Lookup(ram', d, k, l) == if k == i && l == j then None else Lookup(ram, d, k, l)
    {
      assert Owned(ram, owner, d, k);
      if k != i && HasTable(ram, d, k) {
        assert Entry(ram', TableOf(ram, d, k), l) == Entry(ram, TableOf(ram, d, k), l);
      }
    }
    ViewUnmapped(ram, ram', d, i, j);
  }

  /** Forgetting a directory and its tables. */
  lemma DropDirectory(ram: seq<Word>, ram': seq<Word>, dirs: set<nat>, owner: map<nat, Slot>, d: nat)
    requires Inv(ram, dirs, owner) && d in dirs
    requires forall f: nat, k: nat :: ((f in dirs && f != d) || (f in owner && owner[f].dir != d)) && k < 1024 ==>
               Entry(ram', f, k) == Entry(ram, f, k)
    ensures Inv(ram', dirs - {d}, owner - OwnedBy(owner, d))
    ensures forall e :: e in dirs && e != d ==> View(ram', e) == View(ram, e)
  {
    var owner' := owner - OwnedBy(owner, d);
    forall u | u in owner' ensures Owns(ram', dirs - {d}, owner'[u], u) && NonEmpty(ram', u) {
      assert Owns(ram, dirs, owner[u], u);
      NonEmptyFramed(ram, ram', u);
    }
    forall e, k: nat | e in dirs - {d} && k < 1024 ensures Owned(ram', owner', e, k) {
      assert Owned(ram, owner, e, k);
      assert Entry(ram', e, k) == Entry(ram, e, k);
    }
    forall e | e in dirs && e != d ensures View(ram', e) == View(ram, e) {
      ViewFramed(ram, ram', dirs, owner, e);
    }
  }

  /** The frames `vmm_destroy_pd` walks over are the tables the directory owns. */
  lemma TablesAreOwned(ram: seq<Word>, dirs: set<nat>, owner: map<nat, Slot>, d: nat)
    requires Inv(ram, dirs, owner) && d in dirs
    ensures TablesBelow(ram, d, 1024) == OwnedBy(owner, d) - {d}
  {
    forall i: nat | i < 1024 && HasTable(ram, d, i) ensures TableOf(ram, d, i) in OwnedBy(owner, d) - {d} {
      assert Owned(ram, owner, d, i);
    }
    forall t | t in OwnedBy(owner, d) - {d} ensures t in TablesBelow(ram, d, 1024) {
      assert Owns(ram, dirs, owner[t], t);
    }
  }

  ghost function TablesBelow(ram: seq<Word>, d: nat, n: nat): set<nat> {
    set i: nat | i < n && HasTable(ram, d, i) :: TableOf(ram, d, i)
  }

  // ----- copying the kernel directory

  /** Directory slots 0..n of kd are copied into pd, each table into a frame of its own. */
  ghost predicate Copying(ram0: seq<Word>, ram: seq<Word>, kd: nat, pd: nat, n: nat, copies: map<nat, Slot>) {
    && (forall k: nat :: k < n && HasTable(ram0, kd, k) ==> Copied(ram0, ram, kd, pd, copies, k))
    && (forall k: nat :: k < 1024 && (k >= n || !HasTable(ram0, kd, k)) ==> Entry(ram, pd, k) == 0)
    && (forall t :: t in copies ==> CopyOf(ram0, ram, kd, pd, n, copies[t], t))
    && |copies| == |TableSlots(ram0, kd, n)|
  }

  ghost predicate Copied(ram0: seq<Word>, ram: seq<Word>, kd: nat, pd: nat, copies: map<nat, Slot>, k: nat) {
    && HasTable(ram, pd, k)
    && TableOf(ram, pd, k) in copies && copies[TableOf(ram, pd, k)] == Slot(pd, k)
    && Entry(ram, pd, k) % PAGE_SIZE == Entry(ram0, kd, k) % PAGE_SIZE
    && forall j: nat :: j < 1024 ==> Entry(ram, TableOf(ram, pd, k), j) == Entry(ram0, TableOf(ram0, kd, k), j)
  }

  ghost predicate CopyOf(ram0: seq<Word>, ram: seq<Word>, kd: nat, pd: nat, n: nat, s: Slot, t: nat) {
    s.dir == pd && s.idx < n && HasTable(ram0, kd, s.idx) && TableOf(ram, pd, s.idx) == t
  }

  ghost function TableSlots(ram: seq<Word>, d: nat, n: nat): set<nat> {
    set k: nat | k < n && HasTable(ram, d, k)
  }

  lemma CopyStep(ram0: seq<Word>, ram: seq<Word>, ram': seq<Word>, kd: nat, pd: nat, n: nat,
                 copies: map<nat, Slot>, t: nat, e: Word)
    requires Copying(ram0, ram, kd, pd, n, copies) && n < 1024 && HasTable(ram0, kd, n)
    requires t !in copies && t != pd && pd !in copies
    requires e / PAGE_SIZE == t && e % PAGE_SIZE == Entry(ram0, kd, n) % PAGE_SIZE
    requires forall k: nat :: k < 1024 ==> Entry(ram', pd, k) == if k == n then e else Entry(ram, pd, k)
    requires forall u: nat, j: nat :: u in copies && j < 1024 ==> Entry(ram', u, j) == Entry(ram, u, j)
    requires forall j: nat :: j < 1024 ==> Entry(ram', t, j) == Entry(ram0, TableOf(ram0, kd, n), j)
    ensures Copying(ram0, ram', kd, pd, n + 1, copies[t := Slot(pd, n)])
  {
    hide Copied, CopyOf, Entry, HasTable, TableOf;
    var copies', next := copies[t := Slot(pd, n)], n + 1;
    forall k: nat | k < next && HasTable(ram0, kd, k) ensures Copied(ram0, ram', kd, pd, copies', k) {
      if k < n {
        CopiedKept(ram0, ram, ram', kd, pd, n, copies, t, k);
      } else {
        CopiedNow(ram0, ram', kd, pd, n, copies', t, e);
      }
    }
    forall u | u in copies' ensures CopyOf(ram0, ram', kd, pd, next, copies'[u], u) {
      if u != t {
        assert CopyOf(ram0, ram, kd, pd, n, copies[u], u);
        CopyOfKept(ram0, ram, ram', kd, pd, n, copies[u], u);
      } else {
        CopyOfNow(ram0, ram', kd, pd, n, t, e);
      }
    }
    assert TableSlots(ram0, kd, n + 1) == TableSlots(ram0, kd, n) + {n};
  }

  lemma CopiedNow(ram0: seq<Word>, ram: seq<Word>, kd: nat, pd: nat, n: nat, copies: map<nat, Slot>, t: nat, e: Word)
    requires HasTable(ram0, kd, n) && t in copies && copies[t] == Slot(pd, n)
    requires e / PAGE_SIZE == t && e % PAGE_SIZE == Entry(ram0, kd, n) % PAGE_SIZE && Entry(ram, pd, n) == e
    requires forall j: nat :: j < 1024 ==> Entry(ram, t, j) == Entry(ram0, TableOf(ram0, kd, n), j)
    ensures Copied(ram0, ram, kd, pd, copies, n)
  {
    SamePresence(e, Entry(ram0, kd, n));
  }

  lemma CopyOfKept(ram0: seq<Word>, ram: seq<Word>, ram': seq<Word>, kd: nat, pd: nat, n: nat, s: Slot, u: nat)
    requires CopyOf(ram0, ram, kd, pd, n, s, u) && forall k: nat :: k < n ==> Entry(ram', pd, k) == Entry(ram, pd, k)
    ensures CopyOf(ram0, ram', kd, pd, n + 1, s, u)
  {}

  lemma CopyOfNow(ram0: seq<Word>, ram: seq<Word>, kd: nat, pd: nat, n: nat, t: nat, e: Word)
    requires HasTable(ram0, kd, n) && e / PAGE_SIZE == t && Entry(ram, pd, n) == e
    ensures CopyOf(ram0, ram, kd, pd, n + 1, Slot(pd, n), t)
  {}

  lemma SamePresence(e: Word, e': Word)
    requires e % PAGE_SIZE == e' % PAGE_SIZE
    ensures Present(e) == Present(e')
  {
    assert e % 2 == (e % PAGE_SIZE) % 2 && e' % 2 == (e' % PAGE_SIZE) % 2;
  }

  lemma CopiedKept(ram0: seq<Word>, ram: seq<Word>, ram': seq<Word>, kd: nat, pd: nat, n: nat,
                   copies: map<nat, Slot>, t: nat, k: nat)
    requires Copied(ram0, ram, kd, pd, copies, k) && k < 1024 && t !in copies
    requires Entry(ram', pd, k) == Entry(ram, pd, k)
    requires forall u: nat, j: nat :: u in copies && j < 1024 ==> Entry(ram', u, j) == Entry(ram, u, j)
    ensures Copied(ram0, ram', kd, pd, copies[t := Slot(pd, n)], k)
  {}

  lemma CopyStart(ram0: seq<Word>, ram: seq<Word>, kd: nat, pd: nat)
    requires forall k: nat :: k < 1024 ==> Entry(ram, pd, k) == 0
    ensures Copying(ram0, ram, kd, pd, 0, map[])
  {
    assert TableSlots(ram0, kd, 0) == {};
  }

  lemma CopySkip(ram0: seq<Word>, ram: seq<Word>, kd: nat, pd: nat, n: nat, copies: map<nat, Slot>)
    requires Copying(ram0, ram, kd, pd, n, copies) && n < 1024 && !HasTable(ram0, kd, n)
    ensures Copying(ram0, ram, kd, pd, n + 1, copies)
  {
    forall t | t in copies ensures CopyOf(ram0, ram, kd, pd, n + 1, copies[t], t) {
      assert CopyOf(ram0, ram, kd, pd, n, copies[t], t);
    }
    assert TableSlots(ram0, kd, n + 1) == TableSlots(ram0, kd, n);
  }

  /** A finished copy is a new directory with the kernel's translation, in frames nobody else owns. */
  lemma AddDirectory(ram0: seq<Word>, ram: seq<Word>, dirs: set<nat>, owner: map<nat, Slot>,
                     kd: nat, pd: nat, copies: map<nat, Slot>)
    requires Inv(ram0, dirs, owner) && kd in dirs
    requires Copying(ram0, ram, kd, pd, 1024, copies)
    requires forall f: nat, k: nat :: (f in dirs || f in owner) && k < 1024 ==> Entry(ram, f, k) == Entry(ram0, f, k)
    requires pd !in dirs && pd !in owner && pd !in copies
    requires copies.Keys !! dirs && copies.Keys !! owner.Keys
    ensures Inv(ram, dirs + {pd}, owner + copies)
    ensures View(ram, pd) == View(ram0, kd)
    ensures forall e :: e in dirs ==> View(ram, e) == View(ram0, e)
  {
    hide View, TableSlots, Copying;
    Framed(ram0, ram, dirs, owner);
    CopiedView(ram0, ram, kd, pd, copies);
    CopiedTables(ram0, ram, dirs, owner, kd, pd, copies);
    JoinDirectory(ram, dirs, owner, pd, copies);
  }

  lemma JoinDirectory(ram: seq<Word>, dirs: set<nat>, owner: map<nat, Slot>, pd: nat, copies: map<nat, Slot>)
    requires Inv(ram, dirs, owner)
    requires forall i: nat :: i < 1024 ==> Owned(ram, copies, pd, i)
    requires forall t :: t in copies ==> Owns(ram, {pd}, copies[t], t) && NonEmpty(ram, t)
    requires pd !in dirs && pd !in owner && pd !in copies
    requires copies.Keys !! dirs && copies.Keys !! owner.Keys
    ensures Inv(ram, dirs + {pd}, owner + copies)
  {
    hide NonEmpty, Entry;
    var dirs', owner' := dirs + {pd}, owner + copies;
    forall d, i: nat | d in dirs' && i < 1024 ensures Owned(ram, owner', d, i) {
      if d == pd { assert Owned(ram, copies, pd, i); } else { assert Owned(ram, owner, d, i); }
    }
    forall t | t in owner' ensures Owns(ram, dirs', owner'[t], t) {
      if t in copies { assert Owns(ram, {pd}, copies[t], t); } else { assert Owns(ram, dirs, owner[t], t); }
    }
  }

  lemma CopiedTables(ram0: seq<Word>, ram: seq<Word>, dirs: set<nat>, owner: map<nat, Slot>,
                     kd: nat, pd: nat, copies: map<nat, Slot>)
    requires Inv(ram0, dirs, owner) && kd in dirs
    requires Copying(ram0, ram, kd, pd, 1024, copies)
    ensures forall t :: t in copies ==> Owns(ram, {pd}, copies[t], t) && NonEmpty(ram, t)
    ensures forall i: nat :: i < 1024 ==> Owned(ram, copies, pd, i)
  {
    forall i: nat | i < 1024 ensures Owned(ram, copies, pd, i) {
      if HasTable(ram0, kd, i) { assert Copied(ram0, ram, kd, pd, copies, i); }
    }
    forall t | t in copies ensures Owns(ram, {pd}, copies[t], t) && NonEmpty(ram, t) {
      var i := copies[t].idx;
      assert CopyOf(ram0, ram, kd, pd, 1024, copies[t], t);
      assert Copied(ram0, ram, kd, pd, copies, i);
      assert Owned(ram0, owner, kd, i);
      assert NonEmpty(ram0, TableOf(ram0, kd, i));
      var j: nat :| j < 1024 && Present(Entry(ram0, TableOf(ram0, kd, i), j));
      assert Present(Entry(ram, t, j));
    }
  }

  lemma CopiedView(ram0: seq<Word>, ram: seq<Word>, kd: nat, pd: nat, copies: map<nat, Slot>)
    requires Copying(ram0, ram, kd, pd, 1024, copies)
    ensures View(ram, pd) == View(ram0, kd)
  {
    forall i: nat, j: nat | i < 1024 && j < 1024 ensures Lookup(ram, pd, i, j) == Lookup(ram0, kd, i, j) {
      if HasTable(ram0, kd, i) { assert Copied(ram0, ram, kd, pd, copies, i); }
    }
    ViewsEqual(ram0, kd, ram, pd);
  }

  /** The tables to copy are as many as the mapped regions. */
  lemma SlotsOfRegions(ram: seq<Word>, dirs: set<nat>, owner: map<nat, Slot>, d: nat)
    requires Inv(ram, dirs, owner) && d in dirs
    ensures TableSlots(ram, d, 1024) == Regions(View(ram, d))
  {
    forall i: nat ensures i in TableSlots(ram, d, 1024) <==> i in Regions(View(ram, d)) {
      if i < 1024 {
        RegionHasTable(ram, dirs, owner, d, i);
      } else if i in Regions(View(ram, d)) {
        RegionBound(ram, d, i);
      }
    }
  }

  lemma MoreSlots(ram: seq<Word>, d: nat, i: nat, n: nat)
    requires i < n && HasTable(ram, d, i)
    ensures |TableSlots(ram, d, i)| < |TableSlots(ram, d, n)|
  {
    SubsetCount(TableSlots(ram, d, i) + {i}, TableSlots(ram, d, n));
  }

  /** A finished or interrupted copy points at exactly its own table frames. */
  lemma CopiesBelow(ram0: seq<Word>, ram: seq<Word>, kd: nat, pd: nat, n: nat, copies: map<nat, Slot>)
    requires Copying(ram0, ram, kd, pd, n, copies) && n <= 1024
    ensures TablesBelow(ram, pd, n) == copies.Keys
  {
    forall i: nat | i < n && HasTable(ram, pd, i) ensures TableOf(ram, pd, i) in copies {
      assert HasTable(ram0, kd, i);
      assert Copied(ram0, ram, kd, pd, copies, i);
    }
    forall t | t in copies ensures t in TablesBelow(ram, pd, n) {
      assert CopyOf(ram0, ram, kd, pd, n, copies[t], t);
      assert Copied(ram0, ram, kd, pd, copies, copies[t].idx);
    }
  }

  lemma NoTableNoPage(ram: seq<Word>, d: nat, i: nat, j: nat)
    requires i < 1024 && j < 1024 && !HasTable(ram, d, i)
    ensures i * 1024 + j !in View(ram, d)
  {}

  lemma SpacesUnchanged(ram: seq<Word>, ram': seq<Word>, dirs: set<nat>)
    requires forall e :: e in dirs ==> View(ram', e) == View(ram, e)
    ensures Spaces(ram', dirs) == Spaces(ram, dirs)
  {
    hide View;
  }

  lemma SpacesAdded(ram: seq<Word>, ram': seq<Word>, dirs: set<nat>, d: nat, space: Space)
    requires d !in dirs && View(ram', d) == space
    requires forall e :: e in dirs ==> View(ram', e) == View(ram, e)
    ensures Spaces(ram', dirs + {d}) == Spaces(ram, dirs)[d := space]
  {
    hide View;
  }

  lemma SpacesRemoved(ram: seq<Word>, ram': seq<Word>, dirs: set<nat>, d: nat)
    requires forall e :: e in dirs && e != d ==> View(ram', e) == View(ram, e)
    ensures Spaces(ram', dirs - {d}) == Spaces(ram, dirs) - {d}
  {
    hide View;
  }

  // ----- a copy in progress: frames held so far, and what has not been touched

  ghost predicate Building(ram0: seq<Word>, ram: seq<Word>, held0: set<nat>, held: set<nat>, low: nat, total: nat,
                           p: nat, copies: map<nat, Slot>) {
    && held == held0 + {p} + copies.Keys
    && p !in held0 && p !in copies && copies.Keys !! held0
    && (forall f :: f == p || f in copies ==> low <= f < total)
    && (forall f: nat, k: nat :: f in held0 && f >= low && k < 1024 ==> Entry(ram, f, k) == Entry(ram0, f, k))
  }

  lemma BuildStart(ram0: seq<Word>, ram: seq<Word>, held0: set<nat>, held: set<nat>, low: nat, total: nat, p: nat)
    requires held == held0 + {p} && p !in held0 && low <= p < total
    requires forall f: nat, k: nat :: f in held0 && f >= low && k < 1024 ==> Entry(ram, f, k) == Entry(ram0, f, k)
    ensures Building(ram0, ram, held0, held, low, total, p, map[])
  {}

  lemma BuildStep(ram0: seq<Word>, ram: seq<Word>, ram': seq<Word>, held0: set<nat>, held: set<nat>,
                  low: nat, total: nat, p: nat, i: nat, copies: map<nat, Slot>, t: nat)
    requires Building(ram0, ram, held0, held, low, total, p, copies)
    requires t !in held && low <= t < total
    requires forall f: nat, k: nat :: f >= low && k < 1024 && f != t && (f != p || k != i) ==>
               Entry(ram', f, k) == Entry(ram, f, k)
    ensures Building(ram0, ram', held0, held + {t}, low, total, p, copies[t := Slot(p, i)])
  {}

  lemma BuildCount(ram0: seq<Word>, ram: seq<Word>, held0: set<nat>, held: set<nat>, low: nat, total: nat,
                   kd: nat, p: nat, n: nat, copies: map<nat, Slot>)
    requires Building(ram0, ram, held0, held, low, total, p, copies)
    requires Copying(ram0, ram, kd, p, n, copies)
    ensures |held| == |held0| + 1 + |TableSlots(ram0, kd, n)|
    ensures p in held && low <= p < total
    ensures held - copies.Keys - {p} == held0
  {}

  lemma BuildCopyStep(ram0: seq<Word>, ram: seq<Word>, ram': seq<Word>, held0: set<nat>, held: set<nat>,
                      low: nat, total: nat, kd: nat, p: nat, i: nat, copies: map<nat, Slot>, t: nat)
    requires Building(ram0, ram, held0, held, low, total, p, copies)
    requires Copying(ram0, ram, kd, p, i, copies) && i < 1024 && HasTable(ram0, kd, i)
    requires t !in held && low <= t < total
    requires Entry(ram', p, i) / PAGE_SIZE == t
    requires Entry(ram', p, i) % PAGE_SIZE == Entry(ram0, kd, i) % PAGE_SIZE
    requires forall j: nat :: j < 1024 ==> Entry(ram', t, j) == Entry(ram0, TableOf(ram0, kd, i), j)
    requires forall f: nat, k: nat :: f >= low && k < 1024 && f != t && (f != p || k != i) ==>
               Entry(ram', f, k) == Entry(ram, f, k)
    ensures Copying(ram0, ram', kd, p, i + 1, copies[t := Slot(p, i)])
  {
    hide Entry, Copying, HasTable, TableOf;
    CopyStep(ram0, ram, ram', kd, p, i, copies, t, Entry(ram', p, i));
  }

  /** What a finished copy adds to the machine. */
  lemma FinishCopy(ram0: seq<Word>, ram: seq<Word>, held0: set<nat>, held: set<nat>, low: nat, total: nat,
                   dirs: set<nat>, owner: map<nat, Slot>, kd: nat, p: nat, copies: map<nat, Slot>)
    requires Building(ram0, ram, held0, held, low, total, p, copies)
    requires Copying(ram0, ram, kd, p, 1024, copies)
    requires Inv(ram0, dirs, owner) && kd in dirs
    requires forall f :: f in dirs || f in owner ==> low <= f && f in held0
    ensures Inv(ram, dirs + {p}, owner + copies)
    ensures forall f :: f in dirs + {p} || f in owner + copies ==> low <= f && f in held
    ensures p !in dirs
    ensures Spaces(ram, dirs + {p}) == Spaces(ram0, dirs)[p := View(ram0, kd)]
    ensures held - (dirs + {p}) - (owner + copies).Keys == held0 - dirs - owner.Keys
    ensures OwnedBy(owner + copies, p) !! held0
    ensures SameSlotFlags(ram, p, kd)
  {
    hide View, Spaces, Inv, Copying, Entry, HasTable, OwnedBy;
    NewDirectoryFrames(ram0, dirs, owner, held0, p, copies);
    CopiedFlags(ram0, ram, kd, p, copies);
    assert forall f: nat, k: nat :: (f in dirs || f in owner) && k < 1024 ==> Entry(ram, f, k) == Entry(ram0, f, k);
    hide Building;
    AddDirectory(ram0, ram, dirs, owner, kd, p, copies);
    SpacesAdded(ram0, ram, dirs, p, View(ram0, kd));
  }

  lemma CopiedFlags(ram0: seq<Word>, ram: seq<Word>, kd: nat, p: nat, copies: map<nat, Slot>)
    requires Copying(ram0, ram, kd, p, 1024, copies)
    ensures forall i: nat :: i < 1024 && HasTable(ram, p, i) ==>
              Entry(ram, p, i) % PAGE_SIZE == Entry(ram0, kd, i) % PAGE_SIZE
  {
    forall i: nat | i < 1024 && HasTable(ram, p, i)
      ensures Entry(ram, p, i) % PAGE_SIZE == Entry(ram0, kd, i) % PAGE_SIZE
    {
      assert HasTable(ram0, kd, i);
      assert Copied(ram0, ram, kd, p, copies, i);
    }
  }

  lemma NewDirectoryFrames(ram: seq<Word>, dirs: set<nat>, owner: map<nat, Slot>, held0: set<nat>,
                           p: nat, copies: map<nat, Slot>)
    requires Inv(ram, dirs, owner)
    requires p !in held0 && p !in copies && copies.Keys !! held0
    requires forall f :: f in dirs || f in owner ==> f in held0
    ensures var held := held0 + {p} + copies.Keys;
            held - (dirs + {p}) - (owner + copies).Keys == held0 - dirs - owner.Keys
    ensures OwnedBy(owner + copies, p) !! held0
  {
    forall t | t in OwnedBy(owner + copies, p) && t != p ensures t !in held0 {}
  }

  lemma DropFrames(ram: seq<Word>, dirs: set<nat>, owner: map<nat, Slot>, held: set<nat>, d: nat)
    requires Inv(ram, dirs, owner) && d in dirs
    requires forall f :: f in dirs || f in owner ==> f in held
    ensures var held' := held - OwnedBy(owner, d);
            && held' - (dirs - {d}) - (owner - OwnedBy(owner, d)).Keys == held - dirs - owner.Keys
            && |held'| == |held| - |OwnedBy(owner, d)|
            && (forall f :: f in dirs - {d} || f in owner - OwnedBy(owner, d) ==> f in held')
    ensures held - (OwnedBy(owner, d) - {d}) - {d} == held - OwnedBy(owner, d)
    ensures d in OwnedBy(owner, d)
  {
    assert dirs !! owner.Keys;
    hide Inv;
    StayingFrames(dirs, owner, held, d);
    assert OwnedBy(owner, d) <= held;
    hide OwnedBy;
    CountLess(held, OwnedBy(owner, d));
  }

  lemma StayingFrames(dirs: set<nat>, owner: map<nat, Slot>, held: set<nat>, d: nat)
    requires dirs !! owner.Keys && d in dirs && forall f :: f in dirs || f in owner ==> f in held
    ensures var held' := held - OwnedBy(owner, d);
            && held' - (dirs - {d}) - (owner - OwnedBy(owner, d)).Keys == held - dirs - owner.Keys
            && (forall f :: f in dirs - {d} || f in owner - OwnedBy(owner, d) ==> f in held')
  {}

  // ----- identity mapping

  /** Pages 0..m mapped to the frames of the same number, present and writable. */
  ghost function IdentityMap(m: nat): Space {
    map p: int | 0 <= p < m :: Mapping(p, 3)
  }

  lemma IdentityRegion(m: nat, i: nat)
    ensures i in Regions(IdentityMap(m)) <==> i * 1024 < m
  {
    if i * 1024 < m { assert i * 1024 in IdentityMap(m); }
  }

  lemma EmptyDirectory(ram: seq<Word>, d: nat)
    requires forall k: nat :: k < 1024 ==> Entry(ram, d, k) == 0
    ensures Inv(ram, {d}, map[]) && View(ram, d) == IdentityMap(0)
  {}

  /** One turn of the identity loop on page p: pages below `cap` are mapped, later ones find neither a
      table nor a free frame. */
  lemma IdentityTurn(p: nat, cap: nat, free: nat, used: nat, total: nat)
    requires cap == 1024 * (free - 1) && free >= 1
    requires used + free == total + 1 + (Min(p, cap) + 1023) / 1024
    ensures p < cap ==> (p / 1024 in Regions(IdentityMap(p)) || used < total)
    ensures p >= cap ==> p / 1024 !in Regions(IdentityMap(cap)) && used >= total
    ensures p < cap ==> IdentityMap(p)[p := Mapping(p, 3)] == IdentityMap(p + 1)
    ensures p < cap ==>
              (p + 1 + 1023) / 1024 == (p + 1023) / 1024 + (if p / 1024 in Regions(IdentityMap(p)) then 0 else 1)
  {
    IdentityRegion(p, p / 1024);
    IdentityRegion(cap, p / 1024);
  }
}
