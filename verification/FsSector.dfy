/** The node table is 832 bytes long but goes through one 512-byte sector, into memory that holds whatever the
    stack held: what a real save and boot gives back, for every such memory. */
module FsSector {
  import opened Common
  import opened FsCodec
  import opened FsLinks
  import opened FsState
  import opened FileSystem
  import opened FsDisk
  import opened FsLoad
  import opened FsRestore
  import opened FsBoot
  import opened FsStands

  /** Layout of disk_entry_t under a 32-bit ABI: where each field ends. */
  const NAME_END := 32
  const TYPE_END := 36
  const USED_END := 40
  const PARENT_END := 44
  const SIZE_END := 48
  const ENTRY_BYTES := 52

  /** Whether the bytes of entry i up to `end` lie in the sector. */
  predicate Stored(i: nat, end: nat) { ENTRY_BYTES * i + end <= SECTOR_SIZE }

  /** Entry i as it reads back into memory that held `junk`. */
  function ReadBack(e: Entry, junk: Entry, i: nat): Entry {
    Entry(if Stored(i, NAME_END) then e.name else junk.name,
          if Stored(i, TYPE_END) then e.isDir else junk.isDir,
          if Stored(i, USED_END) then e.used else junk.used,
          if Stored(i, PARENT_END) then e.parent else junk.parent,
          if Stored(i, SIZE_END) then e.size else junk.size,
          if Stored(i, ENTRY_BYTES) then e.sector else junk.sector)
  }

  /** The table read back from its sector into memory that held `junk`. */
  function ThroughSector(table: seq<Entry>, junk: seq<Entry>): (r: seq<Entry>)
    requires |junk| == |table|
    ensures |r| == |table|
  {
    seq(|table|, i requires 0 <= i < |table| => ReadBack(table[i], junk[i], i))
  }

  /** Whole entries, then one that lacks its size and data sector, then none. */
  const WHOLE := 9
  const KEPT := 10

  /** Entries 0 to 8 come back whole, entry 9 all but for its size and data sector, and of the others every
      byte is what the memory held. */
  lemma WhatComesBack(table: seq<Entry>, junk: seq<Entry>, i: nat)
    requires |table| == |junk| && i < |table|
    ensures ThroughSector(table, junk)[i] ==
            if i < 9 then table[i]
            else if i < 10 then table[i].(size := junk[i].size, sector := junk[i].sector)
            else junk[i]
  {}

  /** No entry that the sector does not reach looks used. */
  ghost predicate NoneUsed(junk: seq<Entry>)
    requires |junk| == MAX_DISK_NODES
  {
    forall i :: KEPT <= i < MAX_DISK_NODES ==> !junk[i].used
  }

  /** The content the loader takes for entry 9, from the size and sector the memory held. */
  function NinthData(isDir: bool, junk: Entry, sectors: Sectors): seq<Byte> {
    ContentOf(junk.(isDir := isDir), sectors)
  }

  // ----- reading back exactly what was saved

  /** The memory happens to complete the table: entry 9's content is the saved one, and behind it the memory
      says what was cut off, or nothing where nothing was. */
  ghost predicate JunkFits(rs: seq<Rec>, junk: seq<Entry>, sectors: Sectors)
    requires |junk| == MAX_DISK_NODES
  {
    && (|rs| >= KEPT ==> NinthData(rs[KEPT - 1].isDir, junk[KEPT - 1], sectors) == rs[KEPT - 1].data)
    && (forall i :: KEPT <= i < MAX_DISK_NODES ==>
          if i < |rs| then junk[i].used && RecordOf(junk[i], sectors) == rs[i] else !junk[i].used)
  }

  /** For every memory: to the loader the table says what was saved exactly when the memory fits. */
  lemma ReadsBackIff(table: seq<Entry>, sectors: Sectors, rs: seq<Rec>, junk: seq<Entry>)
    requires Recorded(table, sectors, rs) && RecsOk(rs) && |junk| == MAX_DISK_NODES
    ensures ReadsAs(ThroughSector(table, junk), sectors, rs) <==> JunkFits(rs, junk, sectors)
  {
    RecordedReads(table, sectors, rs);
    var back := ThroughSector(table, junk);
    forall i | 0 <= i < |table|
      ensures i < WHOLE ==> back[i] == table[i]
      ensures i >= KEPT ==> back[i] == junk[i]
      ensures i == WHOLE ==> back[i] == table[i].(size := junk[i].size, sector := junk[i].sector)
    {
      WhatComesBack(table, junk, i);
    }
    hide Recorded, RecsOk, ReadBack, ThroughSector;
    if |rs| >= KEPT { NinthReads(table[WHOLE], junk[WHOLE], sectors, rs[WHOLE]); }
    hide ContentOf, RecordOf, NinthData;
    assert |rs| < KEPT ==> !back[WHOLE].used;
  }

  lemma NinthReads(e: Entry, junk: Entry, sectors: Sectors, r: Rec)
    requires RecordOf(e, sectors) == r
    ensures var back := e.(size := junk.size, sector := junk.sector);
            RecordOf(back, sectors) == r.(data := NinthData(r.isDir, junk, sectors))
  {}

  // ----- what comes back when nothing behind the sector looks used

  /** The records that get through: ten of them, the tenth with the content the memory names. */
  function Kept(rs: seq<Rec>, junk: seq<Entry>, sectors: Sectors): seq<Rec>
    requires |junk| == MAX_DISK_NODES
  {
    var cut := Take(rs, KEPT);
    if |cut| == KEPT
    then cut[WHOLE := cut[WHOLE].(data := NinthData(cut[WHOLE].isDir, junk[WHOLE], sectors))]
    else cut
  }

  lemma KeptReads(table: seq<Entry>, sectors: Sectors, rs: seq<Rec>, junk: seq<Entry>)
    requires Recorded(table, sectors, rs) && RecsOk(rs) && |junk| == MAX_DISK_NODES && NoneUsed(junk)
    ensures ReadsAs(ThroughSector(table, junk), sectors, Kept(rs, junk, sectors))
  {
    RecordedReads(table, sectors, rs);
    var back, kept := ThroughSector(table, junk), Kept(rs, junk, sectors);
    hide Recorded, RecsOk, NinthData, ThroughSector;
    forall i | 0 <= i < |back|
      ensures if i < |kept| then back[i].used && RecordOf(back[i], sectors) == kept[i] else !back[i].used
    {
      WhatComesBack(table, junk, i);
      if i == WHOLE && |rs| >= KEPT { NinthReads(table[i], junk[i], sectors, rs[i]); }
      hide RecordOf;
    }
  }

  lemma KeptSaved(rs: seq<Rec>, junk: seq<Entry>, sectors: Sectors)
    requires SavedOk(rs) && |junk| == MAX_DISK_NODES
    requires |rs| >= KEPT && !rs[WHOLE].isDir ==> Reads(junk[WHOLE].(used := true, isDir := false), sectors)
    ensures SavedOk(Kept(rs, junk, sectors))
  {
    var kept := Kept(rs, junk, sectors);
    forall i | 0 <= i < |kept| ensures RecOk(kept, i) && (i > 0 ==> 0 <= kept[i].parent) { assert RecOk(rs, i); }
  }

  // ----- the same as trees

  /** The k-th node of t in preorder with other content. */
  function SetAt(t: Tree, k: nat, data: seq<Byte>): (r: Tree)
    ensures Size(r) == Size(t)
  {
    if k == 0 then Node(t.name, t.isDir, data, t.kids) else Node(t.name, t.isDir, t.data, SetAllAt(t.kids, k - 1, data))
  }

  function SetAllAt(ts: seq<Tree>, k: nat, data: seq<Byte>): (r: seq<Tree>)
    ensures SizeAll(r) == SizeAll(ts)
  {
    if ts == [] then []
    else if k < Size(ts[0]) then [SetAt(ts[0], k, data)] + ts[1..]
    else [ts[0]] + SetAllAt(ts[1..], k - Size(ts[0]), data)
  }

  lemma {:induction false} FlatSet(t: Tree, k: nat, data: seq<Byte>, parent: int, base: nat)
    requires k < Size(t)
    ensures var rs := Flat(t, parent, base); Flat(SetAt(t, k, data), parent, base) == rs[k := rs[k].(data := data)]
    decreases t, 0
  {
    if k > 0 { FlatSetAll(t.kids, k - 1, data, base, base + 1); }
  }

  lemma {:induction false} FlatSetAll(ts: seq<Tree>, k: nat, data: seq<Byte>, parent: int, base: nat)
    requires k < SizeAll(ts)
    ensures var rs := FlatAll(ts, parent, base);
            FlatAll(SetAllAt(ts, k, data), parent, base) == rs[k := rs[k].(data := data)]
    decreases ts, 1
  {
    hide Flat, FlatAll, SetAt, SetAllAt, Size, SizeAll;
    SetAllOpen(ts, k, data);
    var t, rest := ts[0], ts[1..];
    var n := Size(t);
    assert ts == [t] + rest;
    FlatAllCons(t, rest, parent, base);
    var x, y := Flat(t, parent, base), FlatAll(rest, parent, base + n);
    if k < n {
      FlatSet(t, k, data, parent, base);
      FlatAllCons(SetAt(t, k, data), rest, parent, base);
      SetIn(x, y, k, x[k].(data := data));
    } else {
      FlatSetAll(rest, k - n, data, parent, base + n);
      FlatAllCons(t, SetAllAt(rest, k - n, data), parent, base);
      SetIn(x, y, k, y[k - n].(data := data));
    }
  }

  lemma SetAllOpen(ts: seq<Tree>, k: nat, data: seq<Byte>)
    requires k < SizeAll(ts)
    ensures ts != [] && SizeAll(ts) == Size(ts[0]) + SizeAll(ts[1..])
    ensures SetAllAt(ts, k, data) ==
            if k < Size(ts[0]) then [SetAt(ts[0], k, data)] + ts[1..]
            else [ts[0]] + SetAllAt(ts[1..], k - Size(ts[0]), data)
  {}

  lemma SetIn(x: seq<Rec>, y: seq<Rec>, k: nat, r: Rec)
    requires k < |x| + |y|
    ensures (x + y)[k := r] == if k < |x| then x[k := r] + y else x + y[k - |x| := r]
  {}

  lemma {:induction false} SetNothing(t: Tree, k: nat, data: seq<Byte>, parent: int, base: nat)
    requires k < Size(t) && Flat(t, parent, base)[k].data == data
    ensures SetAt(t, k, data) == t
    decreases t, 0
  {
    if k > 0 { SetAllNothing(t.kids, k - 1, data, base, base + 1); }
  }

  lemma {:induction false} SetAllNothing(ts: seq<Tree>, k: nat, data: seq<Byte>, parent: int, base: nat)
    requires k < SizeAll(ts) && FlatAll(ts, parent, base)[k].data == data
    ensures SetAllAt(ts, k, data) == ts
    decreases ts, 1
  {
    var n := Size(ts[0]);
    if k < n {
      SetNothing(ts[0], k, data, parent, base);
    } else {
      SetAllNothing(ts[1..], k - n, data, parent, base + n);
    }
  }

  /** What entry 9 comes back with, for a tree of at least ten nodes. */
  ghost function TenthData(t: Tree, junk: seq<Entry>, sectors: Sectors): seq<Byte>
    requires Size(t) >= KEPT && |junk| == MAX_DISK_NODES
  {
    NinthData(Flat(t, -1, 0)[WHOLE].isDir, junk[WHOLE], sectors)
  }

  /** The tree that comes back, before the mirroring. */
  ghost function SectorTree(t: Tree, junk: seq<Entry>, sectors: Sectors): Tree
    requires |junk| == MAX_DISK_NODES
  {
    if Size(t) < KEPT then t else SetAt(Trunc(t, KEPT), WHOLE, TenthData(t, junk, sectors))
  }

  /** The tree reaches no further than the sector, and the content of a tenth node comes back right. */
  ghost predicate FitsSector(t: Tree, junk: seq<Entry>, sectors: Sectors)
    requires |junk| == MAX_DISK_NODES
  {
    Size(t) < KEPT || (Size(t) == KEPT && TenthData(t, junk, sectors) == Flat(t, -1, 0)[WHOLE].data)
  }

  /** The records that get through are the preorder of the tree that comes back. */
  lemma KeptFlat(t: Tree, junk: seq<Entry>, sectors: Sectors)
    requires |junk| == MAX_DISK_NODES
    ensures Kept(Encode(t, -1, []), junk, sectors) == Flat(SectorTree(t, junk, sectors), -1, 0)
  {
    EncodedFirst(t);
    FlatTrunc(t, KEPT, -1, 0);
    hide Encode, NinthData;
    if Size(t) >= KEPT { FlatSet(Trunc(t, KEPT), WHOLE, TenthData(t, junk, sectors), -1, 0); }
    hide Flat, Trunc, SetAt;
  }

  lemma FlatDecodes(t: Tree)
    ensures Decode(Flat(t, -1, 0), 0) == Mirror(t)
  {
    var rs := Flat(t, -1, 0);
    assert rs[0..0 + Size(t)] == rs;
    DecodeFlat(rs, 0, t, -1);
  }

  lemma SectorTreeIff(t: Tree, junk: seq<Entry>, sectors: Sectors)
    requires |junk| == MAX_DISK_NODES
    ensures Decode(Kept(Encode(t, -1, []), junk, sectors), 0) == Mirror(SectorTree(t, junk, sectors))
    ensures Mirror(SectorTree(t, junk, sectors)) == Mirror(t) <==> FitsSector(t, junk, sectors)
  {
    KeptFlat(t, junk, sectors);
    FlatDecodes(SectorTree(t, junk, sectors));
    MirrorTwice(t);
    MirrorTwice(SectorTree(t, junk, sectors));
    SameTreeIff(t, junk, sectors);
    hide SectorTree, Decode, Kept, Encode, Mirror, FitsSector;
  }

  lemma SameTreeIff(t: Tree, junk: seq<Entry>, sectors: Sectors)
    requires |junk| == MAX_DISK_NODES
    ensures SectorTree(t, junk, sectors) == t <==> FitsSector(t, junk, sectors)
  {
    hide NinthData;
    if Size(t) == KEPT {
      TruncWhole(t, KEPT);
      FlatSet(t, WHOLE, TenthData(t, junk, sectors), -1, 0);
      if FitsSector(t, junk, sectors) { SetNothing(t, WHOLE, TenthData(t, junk, sectors), -1, 0); }
      hide SetAt, Trunc, Flat;
    }
  }

  // ----- the first nine entries, for every memory

  /** Node i has the saved name, kind and content, and hangs under its saved parent. */
  ghost predicate NodeBack(nodes: Nodes, bufs: Bufs, rs: seq<Rec>, na: seq<nat>, i: nat)
    requires i < |rs| <= |na|
  {
    && na[i] in nodes && nodes[na[i]].name == rs[i].name && nodes[na[i]].isDir == rs[i].isDir
    && Content(nodes[na[i]], bufs) == rs[i].data
    && nodes[na[i]].parent == if i > 0 && 0 <= rs[i].parent < |na| then na[rs[i].parent] else 0
  }

  /** kmalloc answered for record i: its node, its parent's and the buffer for its content. */
  ghost predicate GrantedAt(rs: seq<Rec>, na: seq<nat>, da: seq<nat>, i: nat)
    requires i < |rs| <= |na| == |da|
  {
    && na[i] != 0 && (rs[i].data != [] ==> da[i] != 0)
    && (i > 0 && 0 <= rs[i].parent < |na| ==> na[rs[i].parent] != 0)
  }

  ghost predicate FirstNine(nodes: Nodes, bufs: Bufs, rs: seq<Rec>, na: seq<nat>, da: seq<nat>)
    requires |rs| <= |na| == |da|
  {
    forall i :: 0 <= i < WHOLE && i < |rs| && GrantedAt(rs, na, da, i) ==> NodeBack(nodes, bufs, rs, na, i)
  }

  /** What the loader is given for one of the first nine entries. */
  lemma NineThrough(table: seq<Entry>, sectors: Sectors, rs: seq<Rec>, junk: seq<Entry>, na: seq<nat>, da: seq<nat>,
                    i: nat)
    requires Recorded(table, sectors, rs) && RecsOk(rs) && |junk| == |na| == |da| == MAX_DISK_NODES
    requires i < WHOLE && i < |rs| && GrantedAt(rs, na, da, i)
    ensures var back := ThroughSector(table, junk);
            && |back| == MAX_DISK_NODES && Masked(back, na)[i] == na[i]
            && (0 <= rs[i].parent < |na| ==> Masked(back, na)[rs[i].parent] == na[rs[i].parent])
            && Through(back, sectors, na, da)[i] == rs[i]
  {
    RecordedReads(table, sectors, rs);
    WhatComesBack(table, junk, i);
    assert RecOk(rs, i);
    if rs[i].parent >= 0 { WhatComesBack(table, junk, rs[i].parent); }
    hide Recorded, RecsOk, ThroughSector, ReadBack, RecordOf, ContentOf;
  }

  /** Each of the first nine nodes comes back whatever the memory held, as far as kmalloc answers. */
  lemma NodeComesBack(table: seq<Entry>, sectors: Sectors, rs: seq<Rec>, junk: seq<Entry>, na: seq<nat>,
                      da: seq<nat>, i: nat)
    requires Recorded(table, sectors, rs) && RecsOk(rs) && |junk| == |table| == MAX_DISK_NODES && i < WHOLE && i < |rs|
    requires Offers(na, da) && Readable(ThroughSector(table, junk), sectors, na, da) && GrantedAt(rs, na, da, i)
    ensures var back := ThroughSector(table, junk);
            var s := Restored(back, sectors, na, da, MAX_DISK_NODES);
            NodeBack(LinkedUp(s.nodes, back, Masked(back, na), MAX_DISK_NODES), s.bufs, rs, na, i)
  {
    var back := ThroughSector(table, junk);
    var m, s := Masked(back, na), Restored(back, sectors, na, da, MAX_DISK_NODES);
    var through, nodes := Through(back, sectors, na, da), LinkedUp(s.nodes, back, m, MAX_DISK_NODES);
    NineThrough(table, sectors, rs, junk, na, da, i);
    BootFinished(back, sectors, na, da);
    assert RecOk(rs, i);
    hide Recorded, RecsOk, ThroughSector, Readable, Through, Masked, Restored, LinkedUp, Finished, HeadSlot, Offers;
    NodeAt(nodes, s.bufs, through, m, da, i);
  }

  // ----- how many nodes a boot makes

  function CountUsed(es: seq<Entry>): (n: nat)
    ensures n <= |es|
  {
    if es == [] then 0 else (if es[0].used then 1 else 0) + CountUsed(es[1..])
  }

  lemma {:induction false} CountConcat(a: seq<Entry>, b: seq<Entry>)
    ensures CountUsed(a + b) == CountUsed(a) + CountUsed(b)
  {
    if a == [] {
      assert a + b == b;
    } else {
      assert (a + b)[1..] == a[1..] + b;
      CountConcat(a[1..], b);
    }
  }

  lemma {:induction false} CountFirst(es: seq<Entry>, k: nat)
    requires k <= |es| && forall i :: 0 <= i < |es| ==> (es[i].used <==> i < k)
    ensures CountUsed(es) == k
  {
    if es != [] { CountFirst(es[1..], if k > 0 then k - 1 else 0); }
  }

  /** One node for every used entry. */
  lemma {:induction false} UsedMasked(table: seq<Entry>, na: seq<nat>)
    requires |table| <= |na| && forall i :: 0 <= i < |table| && table[i].used ==> na[i] != 0
    ensures NonNull(Masked(table, na)) == CountUsed(table)
  {
    if table != [] {
      UsedMasked(table[1..], na[1..]);
      assert Masked(table, na)[1..] == Masked(table[1..], na[1..]);
    }
  }

  /** Used entries behind the sector. */
  function Behind(junk: seq<Entry>): (n: nat)
    requires |junk| == MAX_DISK_NODES
    ensures n <= MAX_DISK_NODES - KEPT
  {
    CountUsed(junk[KEPT..])
  }

  lemma NoneBehind(junk: seq<Entry>)
    requires |junk| == MAX_DISK_NODES
    ensures Behind(junk) == 0 <==> NoneUsed(junk)
  {
    var rest := junk[KEPT..];
    assert forall i :: 0 <= i < |rest| ==> rest[i] == junk[KEPT + i];
    if NoneUsed(junk) { CountFirst(rest, 0); }
    if !NoneUsed(junk) {
      var i :| KEPT <= i < MAX_DISK_NODES && junk[i].used;
      assert rest[i - KEPT].used;
      SomeUsed(rest, i - KEPT);
    }
  }

  lemma {:induction false} SomeUsed(es: seq<Entry>, i: nat)
    requires i < |es| && es[i].used
    ensures CountUsed(es) > 0
  {
    if i > 0 { SomeUsed(es[1..], i - 1); }
  }

  /** Used entries of the table read back: the first ten of those saved, and those of the memory behind. */
  lemma BackCount(table: seq<Entry>, sectors: Sectors, t: Tree, junk: seq<Entry>)
    requires Recorded(table, sectors, Encode(t, -1, [])) && |junk| == |table| == MAX_DISK_NODES
    ensures CountUsed(ThroughSector(table, junk)) == Min(KEPT, Size(t)) + Behind(junk)
  {
    var back, rs := ThroughSector(table, junk), Encode(t, -1, []);
    EncodedFirst(t);
    hide Encode, Flat;
    assert |Flat(t, -1, 0)| == Size(t);
    forall i | 0 <= i < |table|
      ensures i < KEPT ==> (back[i].used <==> i < |rs|)
      ensures i >= KEPT ==> back[i] == junk[i]
    {
      WhatComesBack(table, junk, i);
      if i < |rs| { assert EntryFor(table[i], sectors, rs[i], i); }
    }
    assert back == back[..KEPT] + back[KEPT..] && back[KEPT..] == junk[KEPT..];
    CountConcat(back[..KEPT], back[KEPT..]);
    CountFirst(back[..KEPT], Min(KEPT, |rs|));
  }

  // ----- booting over the real sector

  /** Nothing behind the sector looks used: the boot gives the sector's tree. */
  lemma NoneUsedBoots(table: seq<Entry>, sectors: Sectors, t: Tree, junk: seq<Entry>, na: seq<nat>, da: seq<nat>)
    requires Recorded(table, sectors, Encode(t, -1, [])) && SavedOk(Encode(t, -1, []))
    requires |junk| == |table| == MAX_DISK_NODES && NoneUsed(junk) && Granted(na, da, Size(t))
    requires Readable(ThroughSector(table, junk), sectors, na, da)
    ensures var back := ThroughSector(table, junk);
            && Grounded(Through(back, sectors, na, da), Masked(back, na))
            && Unfold(Through(back, sectors, na, da), 0, MAX_DISK_NODES) == Mirror(SectorTree(t, junk, sectors))
  {
    var rs := Encode(t, -1, []);
    EncodedFirst(t);
    assert |Kept(rs, junk, sectors)| <= |rs| <= Size(t);
    NinthReadable(table, sectors, rs, junk, na, da);
    hide Encode, Recorded, RecsOk, Kept, ThroughSector, Readable, NoneUsed, SectorTree, Decode, Through, Grounded, Flat;
    KeptReads(table, sectors, rs, junk);
    KeptSaved(rs, junk, sectors);
    SavedBoots(ThroughSector(table, junk), sectors, Kept(rs, junk, sectors), na, da);
    SectorTreeIff(t, junk, sectors);
  }

  lemma NinthReadable(table: seq<Entry>, sectors: Sectors, rs: seq<Rec>, junk: seq<Entry>, na: seq<nat>, da: seq<nat>)
    requires Recorded(table, sectors, rs) && |junk| == |table| == MAX_DISK_NODES && Granted(na, da, |rs|)
    requires Readable(ThroughSector(table, junk), sectors, na, da)
    ensures |rs| >= KEPT && !rs[WHOLE].isDir ==> Reads(junk[WHOLE].(used := true, isDir := false), sectors)
  {
    if |rs| >= KEPT {
      WhatComesBack(table, junk, WHOLE);
      assert EntryFor(table[WHOLE], sectors, rs[WHOLE], WHOLE);
      assert Reads(ThroughSector(table, junk)[WHOLE], sectors);
    }
  }

  /** The memory fits: the boot gives all that was recorded. */
  lemma FittingBoots(table: seq<Entry>, sectors: Sectors, t: Tree, junk: seq<Entry>, na: seq<nat>, da: seq<nat>)
    requires Recorded(table, sectors, Encode(t, -1, [])) && SavedOk(Encode(t, -1, []))
    requires |junk| == |table| == |na| == |da| == MAX_DISK_NODES
    requires Granted(na, da, Size(t)) && JunkFits(Encode(t, -1, []), junk, sectors)
    ensures var back := ThroughSector(table, junk);
            && Grounded(Through(back, sectors, na, da), Masked(back, na))
            && Unfold(Through(back, sectors, na, da), 0, MAX_DISK_NODES) == Mirror(Trunc(t, MAX_DISK_NODES))
  {
    var rs := Encode(t, -1, []);
    EncodedFirst(t);
    assert |rs| <= Size(t);
    hide Encode, Recorded, RecsOk, ThroughSector, JunkFits, Decode, Through, Grounded, Unfold, Flat;
    ReadsBackIff(table, sectors, rs, junk);
    SavedBoots(ThroughSector(table, junk), sectors, rs, na, da);
    LoadAfterSave(t);
  }

  lemma SectorIsFs(table: seq<Entry>, sectors: Sectors, rs: seq<Rec>, junk: seq<Entry>)
    requires Recorded(table, sectors, rs) && SavedOk(rs) && |junk| == |table| == MAX_DISK_NODES
    ensures IsFs(ThroughSector(table, junk))
  {
    WhatComesBack(table, junk, 0);
    assert EntryFor(table[0], sectors, rs[0], 0);
  }

  /** Whether the records that came through hang together and, unfolded from the first, spell the tree. */
  ghost predicate SpelledBy(back: seq<Entry>, sectors: Sectors, na: seq<nat>, da: seq<nat>, w: Tree)
    requires |back| == |na| == |da| == MAX_DISK_NODES
  {
    && Grounded(Through(back, sectors, na, da), Masked(back, na))
    && Unfold(Through(back, sectors, na, da), 0, MAX_DISK_NODES) == w
  }

  /** What a boot gives of a saved tree, from a table that came through one sector into memory holding `junk`:
      the first nine nodes; the tree exactly when the table read back spells it, and then exactly as many
      entries behind the sector look used as the tree has nodes there; and what that comes to when nothing
      behind the sector looks used, when the memory fits, and for trees of at most ten or more than sixteen
      nodes. */
  ghost predicate CameBack(fs: FileTree, t: Tree, back: seq<Entry>, junk: seq<Entry>, sectors: Sectors,
                           na: seq<nat>, da: seq<nat>)
    requires |junk| == |back| == |na| == |da| == MAX_DISK_NODES && |Encode(t, -1, [])| <= MAX_DISK_NODES
    reads fs
  {
    && FirstNine(fs.nodes, fs.bufs, Encode(t, -1, []), na, da)
    && (StandsFor(fs, Mirror(t)) <==> SpelledBy(back, sectors, na, da, Mirror(t)))
    && (StandsFor(fs, Mirror(t)) && Granted(na, da, MAX_DISK_NODES) ==> Behind(junk) == Size(t) - Min(KEPT, Size(t)))
    && (NoneUsed(junk) && Granted(na, da, Size(t)) ==> CameCut(fs, t, junk, sectors))
    && (JunkFits(Encode(t, -1, []), junk, sectors) && Granted(na, da, Size(t)) ==>
          Whole(fs, Mirror(Trunc(t, MAX_DISK_NODES))))
    && (Granted(na, da, MAX_DISK_NODES) && (Size(t) <= KEPT || Size(t) > MAX_DISK_NODES) ==>
          (StandsFor(fs, Mirror(t)) <==> NoneUsed(junk) && FitsSector(t, junk, sectors)))
  }

  ghost predicate CameCut(fs: FileTree, t: Tree, junk: seq<Entry>, sectors: Sectors)
    requires |junk| == MAX_DISK_NODES
    reads fs
  {
    && Whole(fs, Mirror(SectorTree(t, junk, sectors)))
    && (StandsFor(fs, Mirror(t)) <==> FitsSector(t, junk, sectors))
  }

  ghost predicate Whole(fs: FileTree, w: Tree)
    reads fs
  {
    fs.Valid() && fs.Whole() == w
  }

  /** fs_init over the real sector, after a tree was saved. */
  method BootFromSector(disk: Disk, na: seq<nat>, da: seq<nat>, junk: seq<Entry>, ghost t: Tree) returns (fs: FileTree)
    requires Recorded(disk.table, disk.sectors, Encode(t, -1, [])) && SavedOk(Encode(t, -1, []))
    requires Offers(na, da) && |junk| == |disk.table| == MAX_DISK_NODES
    requires Readable(ThroughSector(disk.table, junk), disk.sectors, na, da)
    ensures fresh(fs) && |na| == |da| == MAX_DISK_NODES && |Encode(t, -1, [])| <= MAX_DISK_NODES
    ensures CameBack(fs, t, ThroughSector(disk.table, junk), junk, disk.sectors, na, da)
  {
    ReadableLength(ThroughSector(disk.table, junk), disk.sectors, na, da);
    hide Recorded, Offers, Encode, TreeOk, RecsOk, SavedOk, Readable, ThroughSector, CameBack, Booted;
    SectorIsFs(disk.table, disk.sectors, Encode(t, -1, []), junk);
    EncodedFirst(t);
    var memory := new Disk();
    memory.table, memory.sectors := ThroughSector(disk.table, junk), disk.sectors;
    fs := new FileTree();
    Init(memory, fs, na, da);
    BootedBack(fs, disk.table, disk.sectors, t, junk, na, da);
  }

  lemma BootedBack(fs: FileTree, table: seq<Entry>, sectors: Sectors, t: Tree, junk: seq<Entry>, na: seq<nat>,
                   da: seq<nat>)
    requires Recorded(table, sectors, Encode(t, -1, [])) && SavedOk(Encode(t, -1, []))
    requires Offers(na, da) && |na| == |da| == |junk| == |table| == MAX_DISK_NODES
    requires Readable(ThroughSector(table, junk), sectors, na, da)
    requires Booted(fs, ThroughSector(table, junk), sectors, na, da)
    ensures |Encode(t, -1, [])| <= MAX_DISK_NODES
    ensures CameBack(fs, t, ThroughSector(table, junk), junk, sectors, na, da)
  {
    EncodedFirst(t);
    hide Recorded, Offers, Encode, TreeOk, Granted, Readable, ThroughSector, NoneUsed, JunkFits, FitsSector, StandsFor;
    hide SectorTree, Through, RecsOk, Restored, LinkedUp, Mirror, Masked, Booted, Grounded, Unfold, Size;
    var back := ThroughSector(table, junk);
    NineBack(fs, table, sectors, t, junk, na, da);
    BootedIff(fs, back, sectors, na, da, Mirror(t));
    if NoneUsed(junk) && Granted(na, da, Size(t)) {
      NoneUsedBoots(table, sectors, t, junk, na, da);
      BootedTree(fs, back, sectors, na, da);
      SectorTreeIff(t, junk, sectors);
    }
    if JunkFits(Encode(t, -1, []), junk, sectors) && Granted(na, da, Size(t)) {
      FittingBoots(table, sectors, t, junk, na, da);
      BootedTree(fs, back, sectors, na, da);
    }
    if Granted(na, da, MAX_DISK_NODES) {
      CountBack(fs, table, sectors, t, junk, na, da);
      FewOrMany(fs, table, sectors, t, junk, na, da);
    }
  }

  lemma BootedIff(fs: FileTree, back: seq<Entry>, sectors: Sectors, na: seq<nat>, da: seq<nat>, w: Tree)
    requires |back| == |na| == |da| == MAX_DISK_NODES && Booted(fs, back, sectors, na, da)
    ensures StandsFor(fs, w) <==> SpelledBy(back, sectors, na, da, w)
  {
    hide Stands, Grounded, Unfold, Through, Masked, Restored, LinkedUp;
  }

  lemma NineBack(fs: FileTree, table: seq<Entry>, sectors: Sectors, t: Tree, junk: seq<Entry>, na: seq<nat>,
                 da: seq<nat>)
    requires Recorded(table, sectors, Encode(t, -1, [])) && SavedOk(Encode(t, -1, []))
    requires Offers(na, da) && |na| == |da| == |junk| == |table| == MAX_DISK_NODES
    requires Readable(ThroughSector(table, junk), sectors, na, da)
    requires Booted(fs, ThroughSector(table, junk), sectors, na, da)
    ensures |Encode(t, -1, [])| <= |na| && FirstNine(fs.nodes, fs.bufs, Encode(t, -1, []), na, da)
  {
    EncodedFirst(t);
    hide Recorded, Offers, Encode, ThroughSector, RecsOk, Restored, LinkedUp, Masked, NodeBack, Readable, Spells;
    hide GrantedAt;
    var rs := Encode(t, -1, []);
    forall i | 0 <= i < WHOLE && i < |rs| && GrantedAt(rs, na, da, i) ensures NodeBack(fs.nodes, fs.bufs, rs, na, i) {
      NodeComesBack(table, sectors, rs, junk, na, da, i);
    }
  }

  /** A tree that comes back has as many nodes as entries of the table read back look used. */
  lemma CountBack(fs: FileTree, table: seq<Entry>, sectors: Sectors, t: Tree, junk: seq<Entry>, na: seq<nat>,
                  da: seq<nat>)
    requires Recorded(table, sectors, Encode(t, -1, [])) && Offers(na, da) && |junk| == |table| == MAX_DISK_NODES
    requires Granted(na, da, MAX_DISK_NODES) && Readable(ThroughSector(table, junk), sectors, na, da)
    requires |na| == |da| == MAX_DISK_NODES && Booted(fs, ThroughSector(table, junk), sectors, na, da)
    ensures StandsFor(fs, Mirror(t)) ==> Behind(junk) == Size(t) - Min(KEPT, Size(t))
  {
    var back := ThroughSector(table, junk);
    BackCount(table, sectors, t, junk);
    MirrorTwice(t);
    UsedMasked(back, na);
    BootFinished(back, sectors, na, da);
    hide Recorded, Encode, ThroughSector, Readable, Offers, Granted, Through, Masked, Restored, LinkedUp, Finished;
    hide Spells;
    LoadedCount(fs.nodes, fs.bufs, Through(back, sectors, na, da), Masked(back, na), da);
    if StandsFor(fs, Mirror(t)) { StandsByCount(fs.nodes, fs.bufs, fs.root, fs.currentDir, Mirror(t)); }
    hide Stands, Mirror, Size, NonNull, CountUsed;
  }

  lemma FewOrMany(fs: FileTree, table: seq<Entry>, sectors: Sectors, t: Tree, junk: seq<Entry>, na: seq<nat>,
                  da: seq<nat>)
    requires Recorded(table, sectors, Encode(t, -1, [])) && SavedOk(Encode(t, -1, []))
    requires Offers(na, da) && |na| == |da| == |junk| == |table| == MAX_DISK_NODES && Granted(na, da, MAX_DISK_NODES)
    requires Readable(ThroughSector(table, junk), sectors, na, da)
    requires Booted(fs, ThroughSector(table, junk), sectors, na, da)
    ensures Size(t) <= KEPT || Size(t) > MAX_DISK_NODES ==>
              (StandsFor(fs, Mirror(t)) <==> NoneUsed(junk) && FitsSector(t, junk, sectors))
  {
    hide Recorded, Offers, Encode, TreeOk, Granted, Readable, ThroughSector, NoneUsed, FitsSector, StandsFor;
    hide SectorTree, Through, RecsOk, Mirror, Masked, Booted, Grounded, Unfold, Size, Behind;
    CountBack(fs, table, sectors, t, junk, na, da);
    NoneBehind(junk);
    GrantedLess(na, da, Size(t));
    if NoneUsed(junk) {
      NoneUsedBoots(table, sectors, t, junk, na, da);
      BootedIff(fs, ThroughSector(table, junk), sectors, na, da, Mirror(t));
      SectorTreeIff(t, junk, sectors);
    }
  }

  lemma GrantedLess(na: seq<nat>, da: seq<nat>, n: nat)
    requires Granted(na, da, MAX_DISK_NODES) && |na| == |da| == MAX_DISK_NODES
    ensures Granted(na, da, n)
  {}

  /** Memory and disk for which the loader stays inside its sector buffer: no used file entry in what the sector
      does not reach claims more than a sector, unless kmalloc refuses its node or its buffer. */
  ghost predicate SafeMemory(t: Tree, junk: seq<Entry>, sectors: Sectors, na: seq<nat>, da: seq<nat>)
    requires |junk| == |na| == |da| == MAX_DISK_NODES
  {
    && (forall i :: KEPT <= i < MAX_DISK_NODES && na[i] != 0 && da[i] != 0 ==> Reads(junk[i], sectors))
    && (Size(t) >= KEPT && !Flat(t, -1, 0)[WHOLE].isDir && na[WHOLE] != 0 && da[WHOLE] != 0 ==>
          Reads(junk[WHOLE].(used := true, isDir := false), sectors))
  }

  lemma SafeReads(table: seq<Entry>, sectors0: Sectors, sectors: Sectors, t: Tree, junk: seq<Entry>,
                  na: seq<nat>, da: seq<nat>)
    requires Recorded(table, sectors, Encode(t, -1, [])) && SavedOk(Encode(t, -1, []))
    requires |junk| == |table| == |na| == |da| == MAX_DISK_NODES
    requires SafeMemory(t, junk, sectors0, na, da) && DataSectorsOnly(sectors0, sectors)
    ensures Readable(ThroughSector(table, junk), sectors, na, da)
  {
    var rs, back := Encode(t, -1, []), ThroughSector(table, junk);
    EncodedFirst(t);
    RecordedReads(table, sectors, rs);
    hide Encode, Recorded, RecsOk, ThroughSector, Flat;
    forall i | 0 <= i < |back| && na[i] != 0 && da[i] != 0 ensures Reads(back[i], sectors) {
      WhatComesBack(table, junk, i);
      if i >= KEPT { assert Reads(junk[i], sectors0); }
      if i == WHOLE && |rs| >= KEPT { assert RecordOf(table[i], sectors) == rs[i]; }
      hide RecordOf;
    }
  }

  /** Save, power off and boot over the real sector, for every memory that keeps the loader inside its buffer and
      any answers of kmalloc. */
  method SaveAndBootSector(disk: Disk, fs: FileTree, na: seq<nat>, da: seq<nat>, junk: seq<Entry>)
    returns (fs': FileTree)
    requires fs.Valid() && Offers(na, da) && |na| == |da| == |junk| == MAX_DISK_NODES
    requires SafeMemory(fs.Whole(), junk, disk.sectors, na, da)
    modifies disk
    ensures fresh(fs') && |Encode(fs.Whole(), -1, [])| <= MAX_DISK_NODES && |disk.table| == MAX_DISK_NODES
    ensures CameBack(fs', fs.Whole(), ThroughSector(disk.table, junk), junk, disk.sectors, na, da)
  {
    hide Recorded, Offers, Encode, TreeOk, RecsOk, Readable, ThroughSector, CameBack, SafeMemory, DataSectorsOnly;
    hide SavedOk;
    hide TreeOf;
    ghost var sectors0, t := disk.sectors, fs.Whole();
    disk.SaveToDisk(fs);
    WholeSaved(fs.nodes, fs.bufs, fs.kids, fs.rank, fs.root, fs.currentDir);
    RecordedLength(disk.table, disk.sectors, Encode(t, -1, []));
    SafeReads(disk.table, sectors0, disk.sectors, t, junk, na, da);
    fs' := BootFromSector(disk, na, da, junk, t);
  }

  // ----- inputs at which it fails

  /** A chain of n directories below the root, with a one-byte file at the bottom. */
  function Chain(n: nat): Tree {
    if n == 0 then Node("f", false, [7], []) else Node("root", true, [], [Chain(n - 1)])
  }

  const ZERO := Entry("", false, false, 0, 0, 0)

  /** Ten nodes with data in the tenth lose it in zeroed memory. */
  lemma TenNodesLoseData(sectors: Sectors)
    ensures Size(Chain(9)) == 10 && !FitsSector(Chain(9), seq(MAX_DISK_NODES, _ => ZERO), sectors)
  {
    ChainSize(9);
    ChainLast(9, -1, 0);
  }

  /** A lone root fits every sector, and still does not come back from memory in which a later entry looks used. */
  lemma LoneRootMayFail(junk: seq<Entry>, sectors: Sectors)
    requires |junk| == MAX_DISK_NODES && junk[KEPT].used
    ensures FitsSector(Node("root", true, [], []), junk, sectors) && !NoneUsed(junk)
    ensures !JunkFits([Rec("root", true, -1, [])], junk, sectors)
  {}

  lemma {:induction false} ChainSize(n: nat)
    ensures Size(Chain(n)) == n + 1
  {
    if n > 0 {
      ChainSize(n - 1);
      var ks := Chain(n).kids;
      assert ks[1..] == [] && SizeAll(ks) == Size(ks[0]) + SizeAll(ks[1..]);
    }
  }

  lemma {:induction false} ChainLast(n: nat, parent: int, base: nat)
    ensures Size(Chain(n)) == n + 1 && Flat(Chain(n), parent, base)[n].data == [7]
  {
    ChainSize(n);
    if n > 0 { ChainLast(n - 1, base, base + 1); assert Chain(n).kids[1..] == []; }
  }
}
