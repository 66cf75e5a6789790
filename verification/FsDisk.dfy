/** Saving the directory tree: the node table and the data sectors on the disk. */
module FsDisk {
  import opened Common
  import opened FsCodec
  import opened FsLinks
  import opened FsState
  import opened FileSystem

  type Sectors = map<nat, seq<Byte>>

  /** disk_entry_t */
  datatype Entry = Entry(name: string, isDir: bool, used: bool, parent: int, size: nat, sector: nat)

  /** Content filled up with zeros to a whole sector. */
  function Padded(data: seq<Byte>): seq<Byte>
    requires |data| <= SECTOR_SIZE
  {
    data + seq(SECTOR_SIZE - |data|, _ => 0)
  }

  /** Entry i of the table, with its data sector, stands for record r. */
  ghost predicate EntryFor(e: Entry, sectors: Sectors, r: Rec, i: nat) {
    && e.used && e.name == r.name && e.isDir == r.isDir && e.parent == r.parent && e.size == |r.data|
    && |r.data| <= SECTOR_SIZE && (r.isDir ==> r.data == [])
    && if r.data == [] then e.sector == 0
       else e.sector == DATA_START_SECTOR + i && e.sector in sectors && sectors[e.sector] == Padded(r.data)
  }

  /** The table holds exactly the records rs, the other entries are unused. */
  ghost predicate Recorded(table: seq<Entry>, sectors: Sectors, rs: seq<Rec>) {
    && |table| == MAX_DISK_NODES && |rs| <= MAX_DISK_NODES
    && (forall i :: 0 <= i < |rs| ==> EntryFor(table[i], sectors, rs[i], i))
    && (forall i :: |rs| <= i < |table| ==> !table[i].used)
  }

  /** Two files never share a data sector, and none uses the table's sector. */
  lemma SectorsDistinct(table: seq<Entry>, sectors: Sectors, rs: seq<Rec>, i: nat, j: nat)
    requires Recorded(table, sectors, rs) && i < j < |rs| && rs[i].data != [] && rs[j].data != []
    ensures table[i].sector != table[j].sector
    ensures table[i].sector != FS_START_SECTOR && table[j].sector != FS_START_SECTOR
  {
    assert EntryFor(table[i], sectors, rs[i], i) && EntryFor(table[j], sectors, rs[j], j);
  }

  /** Only the sectors set aside for file data were written, with whole sectors. */
  ghost predicate DataSectorsOnly(s: Sectors, s': Sectors) {
    && (forall k :: k in s ==> k in s')
    && (forall k :: k in s' && !(k in s && s'[k] == s[k]) ==>
          DATA_START_SECTOR <= k < DATA_START_SECTOR + MAX_DISK_NODES && |s'[k]| == SECTOR_SIZE)
  }

  ghost function RecOf(node: FsNode, bufs: Bufs, parent: int): Rec {
    Rec(node.name, node.isDir, parent, Content(node, bufs))
  }

  lemma ContentFits(nodes: Nodes, bufs: Bufs, x: nat)
    requires DataOk(nodes, bufs) && x in nodes
    ensures var n, c := nodes[x], Content(nodes[x], bufs);
            && n.size == |c| <= SECTOR_SIZE && (n.isDir ==> c == [])
            && (n.data in bufs <==> n.data != 0) && (n.data in bufs ==> c == bufs[n.data])
            && (n.data == 0 <==> c == [])
  {
    assert DataAt(nodes[x], bufs);
  }

  /** One more entry behind those in use. */
  lemma OneMore(table: seq<Entry>, sectors: Sectors, rs: seq<Rec>, e: Entry, sectors': Sectors, r: Rec)
    requires Recorded(table, sectors, rs) && |rs| < MAX_DISK_NODES
    requires EntryFor(e, sectors', r, |rs|)
    requires sectors' == sectors || (r.data != [] && sectors' == sectors[DATA_START_SECTOR + |rs| := Padded(r.data)])
    ensures Recorded(table[|rs| := e], sectors', rs + [r])
  {
    var rs', table' := rs + [r], table[|rs| := e];
    forall i | 0 <= i < |rs'| ensures EntryFor(table'[i], sectors', rs'[i], i) {
      if i < |rs| { assert EntryFor(table[i], sectors, rs[i], i); }
    }
  }

  lemma EncodeTree(nodes: Nodes, bufs: Bufs, kids: Kids, rank: Rank, p: nat, parent: int, rs: seq<Rec>)
    requires Links(nodes, kids, rank) && p in nodes && |rs| < MAX_DISK_NODES
    ensures Encode(TreeOf(nodes, bufs, kids, rank, p), parent, rs)
         == EncodeAll(TreesFrom(nodes, bufs, kids, rank, p, 0), |rs|, rs + [RecOf(nodes[p], bufs, parent)])
  {
    hide Links, Content;
  }

  /** The chain of p at child k: what is left to encode. */
  lemma EncodeNext(nodes: Nodes, bufs: Bufs, kids: Kids, rank: Rank, p: nat, k: nat, parent: int, rs: seq<Rec>)
    requires Links(nodes, kids, rank) && p in nodes && k < |kids[p]|
    ensures var c := kids[p][k];
            && c != 0 && c in nodes && nodes[c].next == AddrAt(kids[p], k + 1)
            && Sub(nodes, rank, c) < Sub(nodes, rank, p)
            && EncodeAll(TreesFrom(nodes, bufs, kids, rank, p, k), parent, rs)
            == EncodeAll(TreesFrom(nodes, bufs, kids, rank, p, k + 1), parent,
                         Encode(TreeOf(nodes, bufs, kids, rank, c), parent, rs))
  {
    KidUnder(nodes, kids, rank, p, k);
    SubShrinks(nodes, kids, rank, p, k);
    var ts := TreesFrom(nodes, bufs, kids, rank, p, k);
    assert ts[0] == TreeOf(nodes, bufs, kids, rank, kids[p][k]);
    assert ts[1..] == TreesFrom(nodes, bufs, kids, rank, p, k + 1);
    hide Links, Sub, Under, TreeOf, TreesFrom, Encode;
  }

  lemma ChainStart(nodes: Nodes, kids: Kids, rank: Rank, p: nat)
    requires Links(nodes, kids, rank) && p in nodes
    ensures p in kids && nodes[p].children == AddrAt(kids[p], 0) && (kids[p] != [] ==> kids[p][0] != 0) && p != 0
  {
    assert KidsOk(nodes, kids, rank, p);
    if kids[p] != [] { KidUnder(nodes, kids, rank, p, 0); }
  }

  lemma EncodeDone(nodes: Nodes, bufs: Bufs, kids: Kids, rank: Rank, p: nat, parent: int, rs: seq<Rec>)
    requires Links(nodes, kids, rank) && p in nodes
    ensures EncodeAll(TreesFrom(nodes, bufs, kids, rank, p, |kids[p]|), parent, rs) == rs
  {}

  class Disk {
    var sectors: Sectors
    /** The node table at FS_START_SECTOR. */
    var table: seq<Entry>

    constructor ()
      ensures sectors == map[] && |table| == MAX_DISK_NODES && forall i :: 0 <= i < |table| ==> !table[i].used
    {
      sectors, table := map[], seq(MAX_DISK_NODES, _ => Entry("", false, false, -1, 0, 0));
    }

    /** The zero-filled sector buffer with a file's first bytes, written out. */
    method WriteData(sector: nat, data: seq<Byte>)
      requires |data| <= SECTOR_SIZE
      modifies this`sectors
      ensures sectors == old(sectors)[sector := Padded(data)]
    {
      var buffer := new Byte[SECTOR_SIZE];
      var i := 0;
      while i < SECTOR_SIZE
        invariant i <= SECTOR_SIZE && forall j :: 0 <= j < i ==> buffer[j] == 0
        invariant sectors == old(sectors)
      {
        buffer[i] := 0;
        i := i + 1;
      }
      i := 0;
      while i < |data|
        invariant i <= |data| && sectors == old(sectors)
        invariant forall j :: 0 <= j < i ==> buffer[j] == data[j]
        invariant forall j :: i <= j < SECTOR_SIZE ==> buffer[j] == 0
      {
        buffer[i] := data[i];
        i := i + 1;
      }
      assert buffer[..] == Padded(data);
      sectors := sectors[sector := buffer[..]];
    }

    /** Fills the entry of one node and writes its data sector. */
    method RecordNode(nodes: Nodes, bufs: Bufs, node: nat, entries: array<Entry>, parentIndex: int, my: nat,
                      ghost rs: seq<Rec>)
      requires DataOk(nodes, bufs) && node in nodes
      requires my == |rs| < MAX_DISK_NODES && Recorded(entries[..], sectors, rs)
      modifies entries, this`sectors
      ensures Recorded(entries[..], sectors, rs + [RecOf(nodes[node], bufs, parentIndex)])
      ensures DataSectorsOnly(old(sectors), sectors)
    {
      hide DataOk, Recorded, Content;
      ContentFits(nodes, bufs, node);
      ghost var t0 := entries[..];
      ghost var r := RecOf(nodes[node], bufs, parentIndex);
      assert |t0| == MAX_DISK_NODES by { TableLength(t0, sectors, rs); }
      var n := nodes[node];
      var e := entries[my].(used := true, name := n.name, isDir := n.isDir, parent := parentIndex, size := n.size);
      if !n.isDir && n.size > 0 && n.data != 0 {
        e := e.(sector := DATA_START_SECTOR + my);
        var count := if n.size > SECTOR_SIZE then SECTOR_SIZE else n.size;
        WriteData(e.sector, bufs[n.data][..count]);
        assert bufs[n.data][..count] == r.data;
      } else {
        e := e.(sector := 0);
      }
      entries[my] := e;
      assert entries[..] == t0[my := e];
      OneMore(t0, old(sectors), rs, e, sectors, r);
    }

    /** Records the subtree of `node` in preorder, while there is room. */
    method SerializeNode(nodes: Nodes, bufs: Bufs, ghost kids: Kids, ghost rank: Rank, node: nat,
                         entries: array<Entry>, parentIndex: int, currentIdx: nat, ghost rs: seq<Rec>)
      returns (idx: nat, ghost rs': seq<Rec>)
      requires Links(nodes, kids, rank) && DataOk(nodes, bufs) && (node != 0 ==> node in nodes)
      requires currentIdx == |rs| && Recorded(entries[..], sectors, rs)
      modifies entries, this`sectors
      ensures rs' == if node == 0 then rs else Encode(TreeOf(nodes, bufs, kids, rank, node), parentIndex, rs)
      ensures idx == |rs'| && Recorded(entries[..], sectors, rs')
      ensures DataSectorsOnly(old(sectors), sectors)
      decreases Sub(nodes, rank, node)
    {
      hide Links, DataOk, Recorded, Encode, EncodeAll, TreeOf, TreesFrom, Sub, RecOf, DataSectorsOnly;
      SectorsSame(sectors);
      idx, rs' := currentIdx, rs;
      if node == 0 || idx >= MAX_DISK_NODES {
        if node != 0 { EncodeFull(TreeOf(nodes, bufs, kids, rank, node), parentIndex, rs); }
        return;
      }
      var my := idx;
      idx := idx + 1;
      RecordNode(nodes, bufs, node, entries, parentIndex, my, rs);
      rs' := rs + [RecOf(nodes[node], bufs, parentIndex)];
      EncodeTree(nodes, bufs, kids, rank, node, parentIndex, rs);
      ChainStart(nodes, kids, rank, node);
      var child := nodes[node].children;
      ghost var k := 0;
      while child != 0
        invariant k <= |kids[node]| && child == AddrAt(kids[node], k)
        invariant child == 0 <==> k == |kids[node]|
        invariant EncodeAll(TreesFrom(nodes, bufs, kids, rank, node, k), my, rs')
               == Encode(TreeOf(nodes, bufs, kids, rank, node), parentIndex, rs)
        invariant idx == |rs'| && Recorded(entries[..], sectors, rs')
        invariant DataSectorsOnly(old(sectors), sectors)
        decreases |kids[node]| - k
      {
        EncodeNext(nodes, bufs, kids, rank, node, k, my, rs');
        if k + 1 < |kids[node]| { EncodeNext(nodes, bufs, kids, rank, node, k + 1, my, rs'); }
        label L:
        idx, rs' := SerializeNode(nodes, bufs, kids, rank, child, entries, my, idx, rs');
        SectorsChain(old(sectors), old@L(sectors), sectors);
        child := nodes[child].next;
        k := k + 1;
      }
      EncodeDone(nodes, bufs, kids, rank, node, my, rs');
    }

    /** fs_save_to_disk */
    method SaveToDisk(fs: FileTree)
      requires fs.Valid()
      modifies this
      ensures Recorded(table, sectors, Encode(fs.Whole(), -1, []))
      ensures var rs := Encode(fs.Whole(), -1, []);
              && |table| == 16 && |rs| <= 16
              && (forall i :: 0 <= i < 16 ==> table[i].used == (i < |rs|))
              && (forall i :: 0 <= i < |rs| ==>
                    && table[i].name == rs[i].name && table[i].isDir == rs[i].isDir
                    && table[i].parent == rs[i].parent && table[i].size == |rs[i].data| <= 512)
              && (forall i :: 0 <= i < |rs| && rs[i].data == [] ==> table[i].sector == 0)
              && (forall i :: 0 <= i < |rs| && rs[i].data != [] ==>
                    && table[i].sector == 101 + i && table[i].sector in sectors
                    && |sectors[table[i].sector]| == 512 && sectors[table[i].sector][..|rs[i].data|] == rs[i].data
                    && forall k :: |rs[i].data| <= k < 512 ==> sectors[table[i].sector][k] == 0)
      ensures DataSectorsOnly(old(sectors), sectors)
    {
      hide Links, DataOk, Recorded, Encode, TreeOf, DataSectorsOnly, Rooted, NodesOk;
      var entries := new Entry[MAX_DISK_NODES];
      var i := 0;
      while i < MAX_DISK_NODES
        invariant i <= MAX_DISK_NODES && forall j :: 0 <= j < i ==> !entries[j].used
        invariant sectors == old(sectors)
      {
        entries[i] := entries[i].(used := false, parent := -1, size := 0, sector := 0);
        i := i + 1;
      }
      BlankTable(entries[..], sectors);
      InTree(fs.nodes, fs.bufs, fs.kids, fs.rank, fs.root, fs.currentDir);
      ghost var rs;
      i, rs := SerializeNode(fs.nodes, fs.bufs, fs.kids, fs.rank, fs.root, entries, -1, 0, []);
      table := entries[..];
      RecordedSpelled(table, sectors, rs);
    }
  }

  /** What `Recorded` says, entry by entry. */
  lemma RecordedSpelled(table: seq<Entry>, sectors: Sectors, rs: seq<Rec>)
    requires Recorded(table, sectors, rs)
    ensures |table| == 16 && |rs| <= 16
    ensures forall i :: 0 <= i < 16 ==> table[i].used == (i < |rs|)
    ensures forall i :: 0 <= i < |rs| ==>
              && table[i].name == rs[i].name && table[i].isDir == rs[i].isDir
              && table[i].parent == rs[i].parent && table[i].size == |rs[i].data| <= 512
    ensures forall i :: 0 <= i < |rs| && rs[i].data == [] ==> table[i].sector == 0
    ensures forall i :: 0 <= i < |rs| && rs[i].data != [] ==>
              && table[i].sector == 101 + i && table[i].sector in sectors
              && |sectors[table[i].sector]| == 512 && sectors[table[i].sector][..|rs[i].data|] == rs[i].data
              && forall k :: |rs[i].data| <= k < 512 ==> sectors[table[i].sector][k] == 0
  {
    forall i | 0 <= i < |rs| ensures EntryFor(table[i], sectors, rs[i], i) {}
  }

  lemma TableLength(table: seq<Entry>, sectors: Sectors, rs: seq<Rec>)
    requires Recorded(table, sectors, rs)
    ensures |table| == MAX_DISK_NODES
  {}

  lemma BlankTable(table: seq<Entry>, sectors: Sectors)
    requires |table| == MAX_DISK_NODES && forall i :: 0 <= i < |table| ==> !table[i].used
    ensures Recorded(table, sectors, [])
  {}

  lemma SectorsSame(s: Sectors)
    ensures DataSectorsOnly(s, s)
  {}

  lemma SectorsChain(a: Sectors, b: Sectors, c: Sectors)
    requires DataSectorsOnly(a, b) && DataSectorsOnly(b, c)
    ensures DataSectorsOnly(a, c)
  {}

  lemma EncodeFull(t: Tree, parent: int, rs: seq<Rec>)
    requires |rs| >= MAX_DISK_NODES
    ensures Encode(t, parent, rs) == rs
  {}
}
