/** The two loops of fs_init as functions of the table, whatever the table holds, and what they come to. */
module FsRestore {
  import opened Common
  import opened FsCodec
  import opened FsLinks
  import opened FsState
  import opened FsDisk
  import opened FsLoad

  // ----- what an entry says to the loader

  /** A file's content is a prefix of one whole sector, so a copy of it stays inside the sector buffer. */
  ghost predicate Reads(e: Entry, sectors: Sectors) {
    e.used && !e.isDir && e.size > 0 ==>
      e.size <= SECTOR_SIZE && e.sector in sectors && |sectors[e.sector]| == SECTOR_SIZE
  }

  /** The copy loop runs for the entries that get a node and a buffer. */
  ghost predicate Readable(table: seq<Entry>, sectors: Sectors, na: seq<nat>, da: seq<nat>) {
    && |table| == |na| == |da| == MAX_DISK_NODES
    && forall i :: 0 <= i < |table| && na[i] != 0 && da[i] != 0 ==> Reads(table[i], sectors)
  }

  /** The bytes the loader takes for an entry. */
  function ContentOf(e: Entry, sectors: Sectors): seq<Byte> {
    if !e.isDir && 0 < e.size && e.sector in sectors && e.size <= |sectors[e.sector]|
    then sectors[e.sector][..e.size] else []
  }

  function RecordOf(e: Entry, sectors: Sectors): Rec {
    Rec(Clip(e.name), e.isDir, e.parent, ContentOf(e, sectors))
  }

  function Records(table: seq<Entry>, sectors: Sectors): (r: seq<Rec>)
    ensures |r| == |table|
  {
    seq(|table|, i requires 0 <= i < |table| => RecordOf(table[i], sectors))
  }

  /** nodes_map: kmalloc's answers for the used entries. */
  function Masked(table: seq<Entry>, na: seq<nat>): (m: seq<nat>)
    requires |table| <= |na|
    ensures |m| == |table|
  {
    seq(|table|, i requires 0 <= i < |table| => if table[i].used then na[i] else 0)
  }

  // ----- the loops

  /** Nodes and buffers created so far. */
  datatype Loaded = Loaded(nodes: Nodes, bufs: Bufs)

  /** One turn of the first loop. */
  function RestoreEntry(s: Loaded, e: Entry, sectors: Sectors, answer: nat, dataAnswer: nat): Loaded {
    if !e.used || answer == 0 then s
    else
      var data := if !e.isDir && e.size > 0 then dataAnswer else 0;
      Loaded(s.nodes[answer := FsNode(Clip(e.name), e.isDir, data, if data != 0 then e.size else 0, 0, 0, 0)],
             if data != 0 then s.bufs[data := ContentOf(e, sectors)] else s.bufs)
  }

  function Restored(table: seq<Entry>, sectors: Sectors, na: seq<nat>, da: seq<nat>, i: nat): Loaded
    requires i <= |table| <= |na| && |table| <= |da|
  {
    if i == 0 then Loaded(map[], map[])
    else RestoreEntry(Restored(table, sectors, na, da, i - 1), table[i - 1], sectors, na[i - 1], da[i - 1])
  }

  predicate LinksUp(table: seq<Entry>, m: seq<nat>, i: nat)
    requires i < |table| == |m|
  {
    m[i] != 0 && 0 <= table[i].parent < |m| && m[table[i].parent] != 0
  }

  /** One turn of the second loop. */
  function LinkEntry(nodes: Nodes, table: seq<Entry>, m: seq<nat>, i: nat): Nodes
    requires i < |table| == |m|
  {
    if LinksUp(table, m, i) then Prepended(nodes, m[table[i].parent], m[i]) else nodes
  }

  function LinkedUp(nodes: Nodes, table: seq<Entry>, m: seq<nat>, i: nat): Nodes
    requires i <= |table| == |m|
  {
    if i <= 1 then nodes else LinkEntry(LinkedUp(nodes, table, m, i - 1), table, m, i - 1)
  }

  // ----- what is allocated

  lemma MaskedOffers(table: seq<Entry>, na: seq<nat>, da: seq<nat>)
    requires |table| == MAX_DISK_NODES && Offers(na, da)
    ensures Offers(Masked(table, na), da)
  {
    var m := Masked(table, na);
    assert forall i :: 0 <= i < |m| && m[i] != 0 ==> m[i] == na[i];
  }

  lemma {:induction false} NodeFrom(table: seq<Entry>, sectors: Sectors, na: seq<nat>, da: seq<nat>, i: nat, x: nat)
    returns (j: nat)
    requires i <= |table| <= |na| && |table| <= |da| && x in Restored(table, sectors, na, da, i).nodes
    ensures j < i && x == na[j] == Masked(table, na)[j] != 0
  {
    if x in Restored(table, sectors, na, da, i - 1).nodes {
      j := NodeFrom(table, sectors, na, da, i - 1, x);
    } else {
      j := i - 1;
    }
  }

  lemma {:induction false} BufFrom(table: seq<Entry>, sectors: Sectors, na: seq<nat>, da: seq<nat>, i: nat, b: nat)
    returns (j: nat)
    requires i <= |table| <= |na| && |table| <= |da| && b in Restored(table, sectors, na, da, i).bufs
    ensures j < i && b == da[j] != 0
  {
    if b in Restored(table, sectors, na, da, i - 1).bufs {
      j := BufFrom(table, sectors, na, da, i - 1, b);
    } else {
      j := i - 1;
    }
  }

  /** The next answers are still free. */
  lemma NextFresh(table: seq<Entry>, sectors: Sectors, na: seq<nat>, da: seq<nat>, i: nat)
    requires |table| == MAX_DISK_NODES && Offers(na, da) && i < |table|
    ensures var s := Restored(table, sectors, na, da, i);
            && (na[i] != 0 ==> na[i] !in s.nodes && na[i] !in s.bufs)
            && (da[i] != 0 ==> da[i] !in s.nodes && da[i] !in s.bufs && da[i] != na[i])
  {
    var s := Restored(table, sectors, na, da, i);
    forall x | x in s.nodes ensures x != 0 && (na[i] != 0 ==> x != na[i]) && (da[i] != 0 ==> x != da[i]) {
      var j := NodeFrom(table, sectors, na, da, i, x);
    }
    forall b | b in s.bufs ensures b != 0 && (na[i] != 0 ==> b != na[i]) && (da[i] != 0 ==> b != da[i]) {
      var j := BufFrom(table, sectors, na, da, i, b);
    }
  }

  lemma {:induction false} MadeIn(table: seq<Entry>, sectors: Sectors, na: seq<nat>, da: seq<nat>, i: nat, j: nat)
    requires j < i <= |table| <= |na| && |table| <= |da| && Masked(table, na)[j] != 0
    ensures na[j] in Restored(table, sectors, na, da, i).nodes
  {
    if j < i - 1 { MadeIn(table, sectors, na, da, i - 1, j); }
  }

  /** Exactly one node for every used entry kmalloc granted. */
  lemma NodesMade(table: seq<Entry>, sectors: Sectors, na: seq<nat>, da: seq<nat>)
    requires |table| <= |na| && |table| <= |da|
    ensures var m := Masked(table, na);
            forall x :: x in Restored(table, sectors, na, da, |table|).nodes <==> x != 0 && x in m
  {
    var m, s := Masked(table, na), Restored(table, sectors, na, da, |table|);
    forall x | x in s.nodes ensures x != 0 && x in m {
      var j := NodeFrom(table, sectors, na, da, |table|, x);
    }
    forall x | x != 0 && x in m ensures x in s.nodes {
      var j :| 0 <= j < |m| && m[j] == x;
      MadeIn(table, sectors, na, da, |table|, j);
    }
  }

  lemma {:induction false} LinkedKeys(nodes: Nodes, table: seq<Entry>, m: seq<nat>, i: nat)
    requires i <= |table| == |m|
    ensures LinkedUp(nodes, table, m, i).Keys == nodes.Keys
    ensures forall x :: x in nodes ==>
              var n, n' := nodes[x], LinkedUp(nodes, table, m, i)[x];
              n'.name == n.name && n'.isDir == n.isDir && n'.data == n.data && n'.size == n.size
  {
    if i > 1 { LinkedKeys(nodes, table, m, i - 1); }
  }

  // ----- the loops establish the loading invariant

  /** The records that come through: those of the used entries, as far as kmalloc granted memory. */
  function Through(table: seq<Entry>, sectors: Sectors, na: seq<nat>, da: seq<nat>): (r: seq<Rec>)
    requires |table| <= |na| && |table| <= |da|
    ensures |r| == |table|
  {
    Survivors(Records(table, sectors), Masked(table, na), da)
  }

  /** Whatever the table says, the records that come through are sound. */
  lemma ThroughSound(table: seq<Entry>, sectors: Sectors, na: seq<nat>, da: seq<nat>)
    requires Readable(table, sectors, na, da) && Offers(na, da)
    ensures Sound(Through(table, sectors, na, da), Masked(table, na), da) && Offers(Masked(table, na), da)
  {
    MaskedOffers(table, na, da);
    var rs, m := Through(table, sectors, na, da), Masked(table, na);
    forall j | 0 <= j < |rs| ensures SoundAt(rs, m, da, j) {
      if na[j] != 0 && da[j] != 0 { assert Reads(table[j], sectors); }
    }
  }

  lemma EntryThrough(table: seq<Entry>, sectors: Sectors, na: seq<nat>, da: seq<nat>, i: nat, s: Loaded)
    requires |table| <= |na| && |table| <= |da| && i < |table|
    requires na[i] != 0 && da[i] != 0 ==> Reads(table[i], sectors)
    ensures var m, r := Masked(table, na), Through(table, sectors, na, da)[i];
            var s' := RestoreEntry(s, table[i], sectors, na[i], da[i]);
            && (m[i] == 0 ==> s' == s)
            && (m[i] != 0 ==> s' == Loaded(s.nodes[m[i] := LoadedNode(r, da[i])], LoadedBufs(s.bufs, r, da[i])))
  {}

  lemma {:induction false} RestoredLoading(table: seq<Entry>, sectors: Sectors, na: seq<nat>, da: seq<nat>, i: nat)
    requires Readable(table, sectors, na, da) && Offers(na, da) && i <= |table|
    ensures var s := Restored(table, sectors, na, da, i);
            Loading(s.nodes, s.bufs, Through(table, sectors, na, da), Masked(table, na), da, i, 1)
    decreases i
  {
    var rs, m := Through(table, sectors, na, da), Masked(table, na);
    if i > 0 {
      RestoredLoading(table, sectors, na, da, i - 1);
      var s := Restored(table, sectors, na, da, i - 1);
      ThroughSound(table, sectors, na, da);
      EntryThrough(table, sectors, na, da, i - 1, s);
      hide Offers, Sound, Loading, Through, Masked, Reads;
      LoadMade(s.nodes, s.bufs, rs, m, da, i - 1);
    }
  }

  lemma LinkThrough(table: seq<Entry>, sectors: Sectors, na: seq<nat>, da: seq<nat>, i: nat)
    requires |table| == |na| == |da| == MAX_DISK_NODES && 0 < i < |table|
    ensures var m, p := Masked(table, na), Through(table, sectors, na, da)[i].parent;
            if LinksUp(table, m, i) then p == table[i].parent && m[p] == Slot(m, p) else p < 0
  {}

  lemma {:induction false} LinkedLoading(table: seq<Entry>, sectors: Sectors, na: seq<nat>, da: seq<nat>,
                                         nodes: Nodes, bufs: Bufs, i: nat)
    requires Readable(table, sectors, na, da) && Offers(na, da) && 1 <= i <= |table|
    requires Loading(nodes, bufs, Through(table, sectors, na, da), Masked(table, na), da, MAX_DISK_NODES, 1)
    ensures Loading(LinkedUp(nodes, table, Masked(table, na), i), bufs,
                    Through(table, sectors, na, da), Masked(table, na), da, MAX_DISK_NODES, i)
    decreases i
  {
    var rs, m := Through(table, sectors, na, da), Masked(table, na);
    ThroughSound(table, sectors, na, da);
    hide Readable, Loading, Sound, Through, Masked;
    if i > 1 {
      LinkedLoading(table, sectors, na, da, nodes, bufs, i - 1);
      var nodes1 := LinkedUp(nodes, table, m, i - 1);
      LinkThrough(table, sectors, na, da, i - 1);
      if LinksUp(table, m, i - 1) {
        LinkMade(nodes1, bufs, rs, m, da, i - 1);
      } else {
        LinkSkipped(nodes1, bufs, rs, m, da, i - 1);
      }
    }
  }

  /** The nodes and buffers fs_init ends with, for any table. */
  lemma BootFinished(table: seq<Entry>, sectors: Sectors, na: seq<nat>, da: seq<nat>)
    requires Readable(table, sectors, na, da) && Offers(na, da)
    ensures var s, m := Restored(table, sectors, na, da, MAX_DISK_NODES), Masked(table, na);
            Finished(LinkedUp(s.nodes, table, m, MAX_DISK_NODES), s.bufs, Through(table, sectors, na, da), m, da)
  {
    var s := Restored(table, sectors, na, da, MAX_DISK_NODES);
    ThroughSound(table, sectors, na, da);
    RestoredLoading(table, sectors, na, da, MAX_DISK_NODES);
    LinkedLoading(table, sectors, na, da, s.nodes, s.bufs, MAX_DISK_NODES);
    hide Readable, Loading, Sound, Through, Masked, Restored, LinkedUp, Offers;
  }
}
