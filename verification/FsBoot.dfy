/** fs_init: rebuilding the file system from the disk, and what a save followed by a boot gives back. */
module FsBoot {
  import opened FsCodec
  import opened FsLinks
  import opened FsState
  import opened FileSystem
  import opened FsDisk
  import opened FsLoad
  import opened FsRestore
  import opened FsStands

  /** The test fs_init makes before it trusts the table. */
  predicate IsFs(table: seq<Entry>) {
    table != [] && table[0].used && table[0].name == "root"
  }

  /** One turn of the first loop, for a used entry. */
  method RestoreNode(fs: FileTree, sectors: Sectors, e: Entry, answer: nat, dataAnswer: nat) returns (p: nat)
    requires e.used && fs.Grantable(answer)
    requires dataAnswer != 0 ==> fs.Grantable(dataAnswer) && dataAnswer != answer
    requires answer != 0 && dataAnswer != 0 ==> Reads(e, sectors)
    modifies fs`nodes, fs`bufs
    ensures p == answer
    ensures Loaded(fs.nodes, fs.bufs) == RestoreEntry(old(Loaded(fs.nodes, fs.bufs)), e, sectors, answer, dataAnswer)
  {
    p := fs.CreateNode(e.name, e.isDir, answer);
    if p == 0 { return; }
    if !e.isDir && e.size > 0 {
      fs.nodes := fs.nodes[p := fs.nodes[p].(size := e.size)];
      fs.nodes := fs.nodes[p := fs.nodes[p].(data := dataAnswer)];
      if dataAnswer != 0 {
        fs.FillBuf(dataAnswer, sectors[e.sector], e.size);
      } else {
        fs.nodes := fs.nodes[p := fs.nodes[p].(size := 0)];
      }
    }
  }

  /** The first loop. */
  method RestoreNodes(fs: FileTree, table: seq<Entry>, sectors: Sectors, na: seq<nat>, da: seq<nat>,
                      nodesMap: array<nat>)
    requires fs.nodes == map[] && fs.bufs == map[] && Offers(na, da) && Readable(table, sectors, na, da)
    requires nodesMap.Length == MAX_DISK_NODES && forall j :: 0 <= j < MAX_DISK_NODES ==> nodesMap[j] == 0
    modifies fs`nodes, fs`bufs, nodesMap
    ensures |table| == |na| == |da| == MAX_DISK_NODES
    ensures Loaded(fs.nodes, fs.bufs) == Restored(table, sectors, na, da, MAX_DISK_NODES)
    ensures nodesMap[..] == Masked(table, na)
  {
    hide RestoreEntry, Reads;
    var i := 0;
    while i < MAX_DISK_NODES
      invariant 0 <= i <= MAX_DISK_NODES
      invariant Loaded(fs.nodes, fs.bufs) == Restored(table, sectors, na, da, i)
      invariant forall j :: 0 <= j < MAX_DISK_NODES ==> nodesMap[j] == if j < i then Masked(table, na)[j] else 0
    {
      if table[i].used {
        NextFresh(table, sectors, na, da, i);
        nodesMap[i] := RestoreNode(fs, sectors, table[i], na[i], da[i]);
      } else {
        UnusedEntry(table[i], sectors, na[i], da[i], Loaded(fs.nodes, fs.bufs));
      }
      i := i + 1;
    }
    assert nodesMap[..] == Masked(table, na);
  }

  lemma UnusedEntry(e: Entry, sectors: Sectors, answer: nat, dataAnswer: nat, s: Loaded)
    requires !e.used
    ensures RestoreEntry(s, e, sectors, answer, dataAnswer) == s
  {}

  /** The second loop: each node is prepended to the children of its recorded parent. */
  method LinkNodes(fs: FileTree, table: seq<Entry>, nodesMap: array<nat>)
    requires |table| == nodesMap.Length == MAX_DISK_NODES
    requires forall i :: 0 <= i < |table| && !table[i].used ==> nodesMap[i] == 0
    requires forall i :: 0 <= i < |table| && nodesMap[i] != 0 ==> nodesMap[i] in fs.nodes
    modifies fs`nodes
    ensures fs.nodes == LinkedUp(old(fs.nodes), table, nodesMap[..], MAX_DISK_NODES)
  {
    hide Prepended;
    ghost var m := nodesMap[..];
    var i := 1;
    while i < MAX_DISK_NODES
      invariant 1 <= i <= MAX_DISK_NODES
      invariant fs.nodes == LinkedUp(old(fs.nodes), table, m, i)
    {
      LinkedKeys(old(fs.nodes), table, m, i);
      if table[i].used && nodesMap[i] != 0 {
        var p := table[i].parent;
        if 0 <= p < MAX_DISK_NODES && nodesMap[p] != 0 { LinkOne(fs, nodesMap[p], nodesMap[i]); }
      }
      i := i + 1;
    }
  }

  method LinkOne(fs: FileTree, parentNode: nat, childNode: nat)
    requires parentNode in fs.nodes && childNode in fs.nodes
    modifies fs`nodes
    ensures fs.nodes == Prepended(old(fs.nodes), parentNode, childNode)
  {
    fs.nodes := fs.nodes[childNode := fs.nodes[childNode].(parent := parentNode)];
    fs.nodes := fs.nodes[childNode := fs.nodes[childNode].(next := fs.nodes[parentNode].children)];
    fs.nodes := fs.nodes[parentNode := fs.nodes[parentNode].(children := childNode)];
  }

  /** The linked nodes of a file system are a valid state with this tree. */
  ghost predicate StandsFor(fs: FileTree, w: Tree)
    reads fs
  {
    Stands(fs.nodes, fs.bufs, fs.root, fs.currentDir, w)
  }

  /** Nodes made from these records stand for a tree exactly when every record that came through hangs under
      the first, and then for the records unfolded, which are the decoded ones when recorded parents come
      earlier. */
  ghost predicate Spells(nodes: Nodes, bufs: Bufs, kids: Kids, rank: Rank, rs: seq<Rec>, m: seq<nat>)
    requires |rs| == |m| > 0
  {
    && (Settled(rs) && m[0] != 0 ==>
          Links(nodes, kids, rank) && m[0] in nodes && TreeOf(nodes, bufs, kids, rank, m[0]) == Unfold(rs, 0, |rs|))
    && (Grounded(rs, m) ==>
          TreeOk(nodes, bufs, kids, rank, m[0], m[0]) && TreeOf(nodes, bufs, kids, rank, m[0]) == Unfold(rs, 0, |rs|))
    && (forall w :: Stands(nodes, bufs, m[0], m[0], w) <==> Grounded(rs, m) && Unfold(rs, 0, |rs|) == w)
    && (RecsOk(rs) ==> Settled(rs) && Unfold(rs, 0, |rs|) == Decode(rs, 0))
  }

  /** Memory after booting from a table with these answers of kmalloc: the two loops' result, whatever the
      table, and what that stands for. */
  ghost predicate Booted(fs: FileTree, table: seq<Entry>, sectors: Sectors, na: seq<nat>, da: seq<nat>)
    requires |table| == |na| == |da| == MAX_DISK_NODES
    reads fs
  {
    var m, rs := Masked(table, na), Through(table, sectors, na, da);
    && fs.root == m[0] && fs.currentDir == m[0]
    && fs.nodes == LinkedUp(Restored(table, sectors, na, da, MAX_DISK_NODES).nodes, table, m, MAX_DISK_NODES)
    && fs.bufs == Restored(table, sectors, na, da, MAX_DISK_NODES).bufs
    && Spells(fs.nodes, fs.bufs, fs.kids, fs.rank, rs, m)
  }

  /** The second loop hangs node j under node p: neither entry is unused, kmalloc had memory for both, and the
      first entry hangs under nobody. */
  predicate Hangs(table: seq<Entry>, na: seq<nat>, j: nat, p: int) {
    && 0 < j < |table| <= |na| && table[j].used && na[j] != 0 && table[j].parent == p
    && 0 <= p < |table| && table[p].used && na[p] != 0
  }

  /** `a` is the node that was hung last among the children of p below hi, NULL when there is none. */
  ghost predicate LastHung(table: seq<Entry>, na: seq<nat>, p: int, hi: nat, a: nat) {
    if a == 0 then forall j: nat :: j < hi ==> !Hangs(table, na, j, p)
    else exists j: nat :: j < hi && Hangs(table, na, j, p) && a == na[j]
                          && forall k: nat :: j < k < hi ==> !Hangs(table, na, k, p)
  }

  /** Field by field, the node an entry boots into, whatever the rest of the table says. */
  lemma BootedNode(table: seq<Entry>, sectors: Sectors, na: seq<nat>, da: seq<nat>, nodes: Nodes, bufs: Bufs, i: nat)
    requires Readable(table, sectors, na, da) && Offers(na, da) && i < |table| && table[i].used && na[i] != 0
    requires var s := Restored(table, sectors, na, da, 16);
             nodes == LinkedUp(s.nodes, table, Masked(table, na), 16) && bufs == s.bufs
    ensures na[i] in nodes
    ensures var n, e := nodes[na[i]], table[i];
            && n.name == (if |e.name| <= 31 then e.name else e.name[..31]) && n.isDir == e.isDir
            && (if !e.isDir && e.size > 0 && da[i] != 0
                then n.data == da[i] && n.size == e.size && e.sector in sectors && |sectors[e.sector]| == 512
                     && e.size <= 512 && da[i] in bufs && bufs[da[i]] == sectors[e.sector][..e.size]
                else n.data == 0 == n.size)
            && n.parent == (if Hangs(table, na, i, e.parent) then na[e.parent] else 0)
            && LastHung(table, na, i, 16, n.children)
            && (if Hangs(table, na, i, e.parent) then LastHung(table, na, e.parent, i, n.next) else n.next == 0)
  {
    hide Finished, Restored, LinkedUp, Offers, Through, Masked, Readable, Hangs, LastHung, NodeFor;
    NodeCame(table, sectors, na, da, nodes, bufs, i);
    EntryCame(table, sectors, na, da, i);
    LinksCame(table, sectors, na, da, i);
  }

  /** The node of entry i, by its record. */
  lemma NodeCame(table: seq<Entry>, sectors: Sectors, na: seq<nat>, da: seq<nat>, nodes: Nodes, bufs: Bufs, i: nat)
    requires Readable(table, sectors, na, da) && Offers(na, da) && i < |table| && table[i].used && na[i] != 0
    requires var s := Restored(table, sectors, na, da, 16);
             nodes == LinkedUp(s.nodes, table, Masked(table, na), 16) && bufs == s.bufs
    ensures var rs, m := Through(table, sectors, na, da), Masked(table, na);
            && na[i] in nodes && nodes[na[i]] == NodeFor(rs, m, da, i, |rs|)
            && nodes[na[i]].name == rs[i].name && nodes[na[i]].isDir == rs[i].isDir
            && nodes[na[i]].size == |rs[i].data| && nodes[na[i]].data == (if rs[i].data == [] then 0 else da[i])
            && (rs[i].data != [] ==> da[i] in bufs && bufs[da[i]] == rs[i].data)
  {
    hide Restored, LinkedUp;
    var rs, m := Through(table, sectors, na, da), Masked(table, na);
    BootFinished(table, sectors, na, da);
    assert m[i] == na[i];
    hide Offers, Through, Masked, Readable;
    NodeAt(nodes, bufs, rs, m, da, i);
    assert HasNode(rs, m, da, |rs|, nodes, bufs, i);
  }

  lemma LinksCame(table: seq<Entry>, sectors: Sectors, na: seq<nat>, da: seq<nat>, i: nat)
    requires Readable(table, sectors, na, da) && i < |table| && table[i].used && na[i] != 0
    ensures |Through(table, sectors, na, da)| == |table| == |na|
    ensures var n := NodeFor(Through(table, sectors, na, da), Masked(table, na), da, i, |table|);
            && n.parent == (if Hangs(table, na, i, table[i].parent) then na[table[i].parent] else 0)
            && LastHung(table, na, i, 16, n.children)
            && (if Hangs(table, na, i, table[i].parent) then LastHung(table, na, table[i].parent, i, n.next)
                else n.next == 0)
  {
    hide Through, Masked, Readable, Hangs, LastHung, HeadSlot;
    ReadableLength(table, sectors, na, da);
    var rs, m := Through(table, sectors, na, da), Masked(table, na);
    EntryCame(table, sectors, na, da, i);
    HeadHung(table, sectors, na, da, i, |rs|);
    if rs[i].parent >= 0 { HeadHung(table, sectors, na, da, rs[i].parent, i); }
  }

  /** What came through of one entry. */
  lemma EntryCame(table: seq<Entry>, sectors: Sectors, na: seq<nat>, da: seq<nat>, i: nat)
    requires Readable(table, sectors, na, da) && i < |table|
    ensures var r, e, m := Through(table, sectors, na, da)[i], table[i], Masked(table, na);
            && |m| == |table| == |Through(table, sectors, na, da)| == 16
            && (e.used && na[i] != 0 ==> m[i] == na[i])
            && (r.parent >= 0 <==> Hangs(table, na, i, e.parent))
            && (r.parent >= 0 ==> r.parent == e.parent < 16 && m[e.parent] == na[e.parent])
            && (e.used && na[i] != 0 ==>
                  && r.name == (if |e.name| <= 31 then e.name else e.name[..31]) && r.isDir == e.isDir
                  && (if !e.isDir && e.size > 0 && da[i] != 0
                      then e.sector in sectors && |sectors[e.sector]| == 512 && e.size <= 512
                           && r.data == sectors[e.sector][..e.size] && r.data != []
                      else r.data == []))
  {
    if table[i].used && na[i] != 0 && da[i] != 0 { assert Reads(table[i], sectors); }
  }

  /** The head of a chain of children is the node hung last. */
  lemma {:induction false} HeadHung(table: seq<Entry>, sectors: Sectors, na: seq<nat>, da: seq<nat>, p: nat, hi: nat)
    requires Readable(table, sectors, na, da) && p < |table| && hi <= |table|
    ensures |Through(table, sectors, na, da)| == |table|
    ensures LastHung(table, na, p, hi, HeadSlot(Through(table, sectors, na, da), Masked(table, na), p, hi))
    decreases hi
  {
    hide Through, Masked, Readable, LastHung, Hangs, HeadSlot;
    ReadableLength(table, sectors, na, da);
    var rs, m := Through(table, sectors, na, da), Masked(table, na);
    ParentCame(table, sectors, na, da, if hi > 0 then hi - 1 else p, p);
    HeadOpen(rs, m, p, hi);
    if hi <= 1 {
      NoneHung(table, na, p, hi);
    } else {
      HeadHung(table, sectors, na, da, p, hi - 1);
      OneMoreHung(table, na, p, hi, HeadSlot(rs, m, p, hi - 1));
    }
  }

  lemma HeadOpen(rs: seq<Rec>, m: seq<nat>, p: nat, hi: nat)
    requires hi <= |rs| == |m|
    ensures hi <= 1 ==> HeadSlot(rs, m, p, hi) == 0
    ensures hi > 1 ==>
              HeadSlot(rs, m, p, hi) == if rs[hi - 1].parent == p then m[hi - 1] else HeadSlot(rs, m, p, hi - 1)
  {}

  lemma NoneHung(table: seq<Entry>, na: seq<nat>, p: int, hi: nat)
    requires hi <= 1
    ensures LastHung(table, na, p, hi, 0)
  {}

  lemma OneMoreHung(table: seq<Entry>, na: seq<nat>, p: int, hi: nat, a: nat)
    requires 1 < hi <= |table| <= |na| && LastHung(table, na, p, hi - 1, a)
    ensures LastHung(table, na, p, hi, if Hangs(table, na, hi - 1, p) then na[hi - 1] else a)
  {}

  /** A record came through with this parent exactly when the second loop hangs its node there. */
  lemma ParentCame(table: seq<Entry>, sectors: Sectors, na: seq<nat>, da: seq<nat>, j: nat, p: nat)
    requires Readable(table, sectors, na, da) && j < |table|
    ensures |Through(table, sectors, na, da)| == |Masked(table, na)| == |table| == |na| == 16
    ensures Through(table, sectors, na, da)[j].parent == p <==> Hangs(table, na, j, p)
    ensures Hangs(table, na, j, p) ==> Masked(table, na)[j] == na[j]
  {
    EntryCame(table, sectors, na, da, j);
  }

  /** fs_init at boot, when no node exists yet. */
  method Init(disk: Disk, fs: FileTree, na: seq<nat>, da: seq<nat>)
    requires fs.nodes == map[] && fs.bufs == map[] && Offers(na, da) && |na| == |da| == MAX_DISK_NODES
    requires |disk.table| == MAX_DISK_NODES && (IsFs(disk.table) ==> Readable(disk.table, disk.sectors, na, da))
    modifies fs
    ensures disk.table[0].used && disk.table[0].name == "root" ==> Booted(fs, disk.table, disk.sectors, na, da)
    ensures !(disk.table[0].used && disk.table[0].name == "root") ==>
              && fs.root == na[0] && fs.currentDir == na[0]
              && (na[0] != 0 ==> fs.Valid() && fs.Whole() == Node("root", true, [], []))
  {
    hide Readable, Offers, Booted, TreeOk, TreeOf;
    var table := disk.table;
    if table[0].used && table[0].name == "root" {
      Restore(disk, fs, na, da);
    } else {
      var p := fs.CreateNode("root", true, na[0]);
      fs.root := p;
      fs.currentDir := fs.root;
      if p != 0 {
        fs.kids, fs.rank := map[p := []], map[p := 0];
        NewRoot(p);
      }
    }
  }

  method Restore(disk: Disk, fs: FileTree, na: seq<nat>, da: seq<nat>)
    requires fs.nodes == map[] && fs.bufs == map[] && Offers(na, da)
    requires Readable(disk.table, disk.sectors, na, da)
    modifies fs
    ensures |disk.table| == |na| == |da| == MAX_DISK_NODES && Booted(fs, disk.table, disk.sectors, na, da)
  {
    hide Offers, Settled, KidsFor, RankFor, Spells, Finished, Through, LinkedUp, Restored, Masked;
    var nodesMap := new nat[MAX_DISK_NODES];
    var i := 0;
    while i < MAX_DISK_NODES
      invariant i <= MAX_DISK_NODES && forall j :: 0 <= j < i ==> nodesMap[j] == 0
      invariant fs.nodes == map[] && fs.bufs == map[]
    {
      nodesMap[i] := 0;
      i := i + 1;
    }
    RestoreNodes(fs, disk.table, disk.sectors, na, da, nodesMap);
    fs.root := nodesMap[0];
    fs.currentDir := fs.root;
    MapFits(disk.table, disk.sectors, na, da);
    LinkNodes(fs, disk.table, nodesMap);
    ghost var rs, m := Through(disk.table, disk.sectors, na, da), Masked(disk.table, na);
    if Settled(rs) { fs.kids, fs.rank := KidsFor(rs, m, fs.nodes), RankFor(rs, m, fs.nodes); }
    BootFinished(disk.table, disk.sectors, na, da);
    FinishedSpells(fs.nodes, fs.bufs, fs.kids, fs.rank, rs, m, da);
  }

  /** nodes_map names nodes of used entries only. */
  lemma MapFits(table: seq<Entry>, sectors: Sectors, na: seq<nat>, da: seq<nat>)
    requires |table| == |na| == |da| == MAX_DISK_NODES
    ensures var m := Masked(table, na);
            && |m| == MAX_DISK_NODES
            && (forall i :: 0 <= i < |table| && !table[i].used ==> m[i] == 0)
            && (forall i :: 0 <= i < |table| && m[i] != 0 ==>
                  m[i] in Restored(table, sectors, na, da, MAX_DISK_NODES).nodes)
  {
    hide Restored;
    NodesMade(table, sectors, na, da);
  }

  lemma FinishedSpells(nodes: Nodes, bufs: Bufs, kids: Kids, rank: Rank, rs: seq<Rec>, m: seq<nat>, da: seq<nat>)
    requires Finished(nodes, bufs, rs, m, da) && |rs| == |m| > 0
    requires Settled(rs) ==> kids == KidsFor(rs, m, nodes) && rank == RankFor(rs, m, nodes)
    ensures Spells(nodes, bufs, kids, rank, rs, m)
  {
    hide Finished, KidsFor, RankFor, TreeOk, TreeOf, Links, Settled, Grounded, Unfold, Decode, RecsOk, Stands;
    if Settled(rs) && m[0] != 0 { SettledTree(nodes, bufs, rs, m, da); }
    if Grounded(rs, m) { GroundedTreeIs(nodes, bufs, rs, m, da); }
    forall w ensures Stands(nodes, bufs, m[0], m[0], w) <==> Grounded(rs, m) && Unfold(rs, 0, |rs|) == w {
      StandsIff(nodes, bufs, rs, m, da, w);
    }
    if RecsOk(rs) { DecodesTo(rs); }
  }

  lemma SettledTree(nodes: Nodes, bufs: Bufs, rs: seq<Rec>, m: seq<nat>, da: seq<nat>)
    requires Finished(nodes, bufs, rs, m, da) && Settled(rs) && |m| == |rs| > 0 && m[0] != 0
    ensures Links(nodes, KidsFor(rs, m, nodes), RankFor(rs, m, nodes)) && m[0] in nodes
    ensures TreeOf(nodes, bufs, KidsFor(rs, m, nodes), RankFor(rs, m, nodes), m[0]) == Unfold(rs, 0, |rs|)
  {
    hide Finished, Settled, KidsFor, RankFor;
    LoadedLinks(nodes, bufs, rs, m, da);
    NodeAt(nodes, bufs, rs, m, da, 0);
    LoadedTree(nodes, bufs, rs, m, da, 0, |rs|);
  }

  lemma NewRoot(p: nat)
    requires p != 0
    ensures TreeOk(map[p := Fresh("root", true)], map[], map[p := []], map[p := 0], p, p)
    ensures TreeOf(map[p := Fresh("root", true)], map[], map[p := []], map[p := 0], p) == Node("root", true, [], [])
  {
    var nodes, kids, rank := map[p := Fresh("root", true)], map[p := []], map[p := 0];
    assert KidsOk(nodes, kids, rank, p);
  }

  // ----- tables that say what was saved

  /** To the loader the table says exactly rs: an entry for each record, the others unused. */
  ghost predicate ReadsAs(table: seq<Entry>, sectors: Sectors, rs: seq<Rec>) {
    && |table| == MAX_DISK_NODES && |rs| <= MAX_DISK_NODES
    && (forall i :: 0 <= i < |rs| ==> table[i].used && RecordOf(table[i], sectors) == rs[i])
    && (forall i :: |rs| <= i < |table| ==> !table[i].used)
  }

  /** The table a save leaves says what was saved, and every copy from it stays inside its buffer. */
  lemma RecordedReads(table: seq<Entry>, sectors: Sectors, rs: seq<Rec>)
    requires Recorded(table, sectors, rs) && RecsOk(rs)
    ensures ReadsAs(table, sectors, rs) && forall i :: 0 <= i < |table| ==> Reads(table[i], sectors)
  {
    forall i | 0 <= i < |rs|
      ensures table[i].used && RecordOf(table[i], sectors) == rs[i] && Reads(table[i], sectors)
    {
      assert RecOk(rs, i);
      RecordedEntry(table[i], sectors, rs[i], i);
    }
    hide RecordOf, RecsOk;
    forall i | 0 <= i < |table| ensures Reads(table[i], sectors) {}
  }

  lemma RecordedEntry(e: Entry, sectors: Sectors, r: Rec, i: nat)
    requires EntryFor(e, sectors, r, i) && |r.name| < MAX_NAME_LEN
    ensures e.used && RecordOf(e, sectors) == r && Reads(e, sectors)
  {
    if r.data != [] { assert Padded(r.data)[..|r.data|] == r.data; }
  }

  /** Trailing records without a parent add nothing to the tree. */
  lemma {:induction false} DecodePrefix(rs: seq<Rec>, n: nat, i: nat)
    requires i < n <= |rs| && forall j :: n <= j < |rs| ==> rs[j].parent == -1
    ensures Decode(rs, i) == Decode(rs[..n], i)
    decreases n - i, |rs| + 1
  {
    NoKidsAbove(rs, i, n, |rs|);
    KidsPrefix(rs, n, i, n);
  }

  lemma {:induction false} KidsPrefix(rs: seq<Rec>, n: nat, p: nat, hi: nat)
    requires p < n && hi <= n <= |rs| && forall j :: n <= j < |rs| ==> rs[j].parent == -1
    ensures KidsBelow(rs, p, hi) == KidsBelow(rs[..n], p, hi)
    decreases n - p, hi
  {
    hide Decode, KidsBelow;
    KidsOpen(rs, p, hi);
    KidsOpen(rs[..n], p, hi);
    if hi > p + 1 {
      KidsPrefix(rs, n, p, hi - 1);
      if rs[hi - 1].parent == p { DecodePrefix(rs, n, hi - 1); }
    }
  }

  lemma KidsOpen(rs: seq<Rec>, p: nat, hi: nat)
    requires p < |rs| && hi <= |rs|
    ensures hi <= p + 1 ==> KidsBelow(rs, p, hi) == []
    ensures hi > p + 1 ==>
              KidsBelow(rs, p, hi)
              == (if rs[hi - 1].parent == p then [Decode(rs, hi - 1)] else []) + KidsBelow(rs, p, hi - 1)
  {}

  /** A table that says rs comes through as rs without what kmalloc refused. */
  lemma ReadsThrough(table: seq<Entry>, sectors: Sectors, rs: seq<Rec>, na: seq<nat>, da: seq<nat>)
    requires ReadsAs(table, sectors, rs) && RecsOk(rs) && |na| == |da| == MAX_DISK_NODES
    ensures var through := Through(table, sectors, na, da);
            && through[..|rs|] == Survivors(rs, na, da)
            && forall j :: |rs| <= j < |through| ==> through[j].parent == -1
  {
    var through := Through(table, sectors, na, da);
    forall i | 0 <= i < |rs| ensures through[i] == Survivors(rs, na, da)[i] {
      assert RecOk(rs, i);
      hide RecordOf;
    }
  }

  /** The tree such a table boots into. */
  lemma SavedBoots(table: seq<Entry>, sectors: Sectors, rs: seq<Rec>, na: seq<nat>, da: seq<nat>)
    requires ReadsAs(table, sectors, rs) && SavedOk(rs) && |na| == |da| == MAX_DISK_NODES
    ensures IsFs(table) && RecsOk(Through(table, sectors, na, da))
    ensures Decode(Through(table, sectors, na, da), 0) == Decode(Survivors(rs, na, da), 0)
    ensures Granted(na, da, |rs|) ==>
              && Grounded(Through(table, sectors, na, da), Masked(table, na))
              && Unfold(Through(table, sectors, na, da), 0, MAX_DISK_NODES) == Decode(rs, 0)
  {
    ReadsThrough(table, sectors, rs, na, da);
    DecodePrefix(Through(table, sectors, na, da), |rs|, 0);
    ThroughOk(table, sectors, rs, na, da);
    SavedIsFs(table, sectors, rs);
    hide Decode, RecsOk, Survivors, RecordOf, Unfold, Grounded;
    if Granted(na, da, |rs|) {
      AllSurvive(rs, na, da);
      ThroughGrounded(table, sectors, rs, na, da);
      DecodesTo(Through(table, sectors, na, da));
    }
  }

  lemma SavedIsFs(table: seq<Entry>, sectors: Sectors, rs: seq<Rec>)
    requires ReadsAs(table, sectors, rs) && SavedOk(rs)
    ensures IsFs(table)
  {
    assert RecordOf(table[0], sectors) == rs[0];
  }

  lemma ThroughOk(table: seq<Entry>, sectors: Sectors, rs: seq<Rec>, na: seq<nat>, da: seq<nat>)
    requires ReadsAs(table, sectors, rs) && RecsOk(rs) && |na| == |da| == MAX_DISK_NODES
    ensures RecsOk(Through(table, sectors, na, da))
  {
    var through := Through(table, sectors, na, da);
    ReadsThrough(table, sectors, rs, na, da);
    forall i | 0 <= i < |through| ensures RecOk(through, i) {
      if i < |rs| {
        assert RecOk(rs, i);
        assert through[i] == through[..|rs|][i];
        assert rs[i].parent >= 0 ==> through[rs[i].parent] == through[..|rs|][rs[i].parent];
      } else {
        ClipFits(table[i].name);
      }
    }
  }

  lemma ClipFits(name: string)
    ensures |Clip(name)| < MAX_NAME_LEN
  {}

  lemma ThroughGrounded(table: seq<Entry>, sectors: Sectors, rs: seq<Rec>, na: seq<nat>, da: seq<nat>)
    requires ReadsAs(table, sectors, rs) && SavedOk(rs) && |na| == |da| == MAX_DISK_NODES && Granted(na, da, |rs|)
    requires RecsOk(Through(table, sectors, na, da)) && Through(table, sectors, na, da)[..|rs|] == rs
    ensures Grounded(Through(table, sectors, na, da), Masked(table, na))
  {
    var through, m := Through(table, sectors, na, da), Masked(table, na);
    hide RecordOf, Survivors, Records;
    assert |rs| > 0 && table[0].used;
    assert through[0] == through[..|rs|][0];
    forall j | 0 < j < |through| && m[j] != 0 ensures HangsAt(through, j) {
      assert j < |rs|;
      assert through[j] == through[..|rs|][j];
      assert RecOk(through, j);
      EarlierEnds(through, j, |through| - 1);
    }
  }

  // ----- save, power off, boot

  lemma RecordedLength(table: seq<Entry>, sectors: Sectors, rs: seq<Rec>)
    requires Recorded(table, sectors, rs)
    ensures |table| == MAX_DISK_NODES
  {}

  /** What a table that records a tree boots into. */
  lemma RecordedBoots(table: seq<Entry>, sectors: Sectors, t: Tree, na: seq<nat>, da: seq<nat>)
    requires Recorded(table, sectors, Encode(t, -1, [])) && SavedOk(Encode(t, -1, []))
    requires Offers(na, da) && Granted(na, da, Size(t))
    ensures Readable(table, sectors, na, da) && IsFs(table)
    ensures Grounded(Through(table, sectors, na, da), Masked(table, na))
    ensures Unfold(Through(table, sectors, na, da), 0, MAX_DISK_NODES) == Mirror(Trunc(t, MAX_DISK_NODES))
  {
    var rs := Encode(t, -1, []);
    RecordedLength(table, sectors, rs);
    hide Recorded, Encode, Decode, RecsOk, ReadsAs, Through, IsFs, Unfold, Size, Grounded, Reads, Flat;
    RecordedReads(table, sectors, rs);
    EncodedFirst(t);
    SavedBoots(table, sectors, rs, na, da);
    LoadAfterSave(t);
  }

  /** A saved tree comes back with every sibling list reversed, cut to its first sixteen nodes. */
  method SaveAndBoot(disk: Disk, fs: FileTree, na: seq<nat>, da: seq<nat>) returns (fs': FileTree)
    requires fs.Valid() && Offers(na, da) && Granted(na, da, Size(fs.Whole()))
    modifies disk
    ensures fresh(fs') && fs'.Valid() && fs'.Whole() == Mirror(Trunc(fs.Whole(), 16))
  {
    hide Recorded, Offers, Encode, TreeOf, TreeOk, SavedOk, Through, Unfold, Booted, Size, Grounded, Granted;
    hide Trunc, Mirror;
    hide Readable;
    disk.SaveToDisk(fs);
    WholeSaved(fs.nodes, fs.bufs, fs.kids, fs.rank, fs.root, fs.currentDir);
    RecordedBoots(disk.table, disk.sectors, fs.Whole(), na, da);
    ReadableLength(disk.table, disk.sectors, na, da);
    fs' := new FileTree();
    Init(disk, fs', na, da);
    BootedTree(fs', disk.table, disk.sectors, na, da);
  }

  lemma ReadableLength(table: seq<Entry>, sectors: Sectors, na: seq<nat>, da: seq<nat>)
    requires Readable(table, sectors, na, da)
    ensures |table| == |na| == |da| == MAX_DISK_NODES
  {}

  lemma BootedTree(fs: FileTree, table: seq<Entry>, sectors: Sectors, na: seq<nat>, da: seq<nat>)
    requires |table| == |na| == |da| == MAX_DISK_NODES && Booted(fs, table, sectors, na, da)
    requires Grounded(Through(table, sectors, na, da), Masked(table, na))
    ensures fs.Valid() && fs.Whole() == Unfold(Through(table, sectors, na, da), 0, MAX_DISK_NODES)
  {}

  /** Two rounds give back a tree of at most sixteen nodes as it was. */
  method TwoRounds(disk: Disk, fs: FileTree, na: seq<nat>, da: seq<nat>) returns (fs': FileTree)
    requires fs.Valid() && Offers(na, da) && Granted(na, da, Size(fs.Whole()))
    requires Size(fs.Whole()) <= MAX_DISK_NODES
    modifies disk
    ensures fs'.Valid() && fs'.Whole() == fs.Whole()
  {
    hide Offers, Encode, Decode, TreeOf, TreeOk, Granted, Mirror, Trunc, Size;
    ghost var t := fs.Whole();
    TruncWhole(t, MAX_DISK_NODES);
    MirrorTwice(t);
    TruncWhole(Mirror(t), MAX_DISK_NODES);
    fs' := SaveAndBoot(disk, fs, na, da);
    fs' := SaveAndBoot(disk, fs', na, da);
  }
}
