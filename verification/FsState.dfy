/** The state invariant of the file system and the effect of each relinking step on it. */
module FsState {
  import opened Common
  import opened FsCodec
  import opened FsLinks

  type Bufs = map<nat, seq<Byte>>

  /** A node's data pointer and size agree with its buffer; only files have one. */
  ghost predicate DataAt(n: FsNode, bufs: Bufs) {
    if n.data == 0 then n.size == 0
    else n.data in bufs && |bufs[n.data]| == n.size && 0 < n.size <= SECTOR_SIZE && !n.isDir
  }

  ghost predicate OwnedBuf(nodes: Nodes, b: nat) { exists c :: c in nodes && nodes[c].data == b }

  ghost predicate DataUnique(nodes: Nodes) {
    forall c, d :: c in nodes && d in nodes && nodes[c].data != 0 && nodes[c].data == nodes[d].data ==> c == d
  }

  /** Every buffer belongs to exactly one node. */
  ghost predicate DataOk(nodes: Nodes, bufs: Bufs) {
    && 0 !in bufs && nodes.Keys !! bufs.Keys && DataUnique(nodes)
    && (forall c :: c in nodes ==> DataAt(nodes[c], bufs))
    && (forall b :: b in bufs ==> OwnedBuf(nodes, b))
  }

  /** Only directories have children, and names fit their field. */
  ghost predicate NodesOk(nodes: Nodes, kids: Kids) {
    forall p :: p in nodes ==> p in kids && |nodes[p].name| < MAX_NAME_LEN && (kids[p] != [] ==> nodes[p].isDir)
  }

  ghost predicate RootOk(nodes: Nodes, root: nat) {
    root in nodes && nodes[root].isDir && nodes[root].name == "root"
  }

  ghost predicate TreeOk(nodes: Nodes, bufs: Bufs, kids: Kids, rank: Rank, root: nat, dir: nat) {
    && Links(nodes, kids, rank) && Rooted(nodes, kids, root) && RootOk(nodes, root)
    && DataOk(nodes, bufs) && NodesOk(nodes, kids)
    && dir in nodes && nodes[dir].isDir
  }

  // ----- a new first child

  function Clip(name: string): string {
    if |name| < MAX_NAME_LEN then name else name[..MAX_NAME_LEN - 1]
  }

  function Fresh(name: string, isDir: bool): FsNode { FsNode(Clip(name), isDir, 0, 0, 0, 0, 0) }

  ghost predicate Loose(n: FsNode) {
    n.data == 0 && n.size == 0 && n.parent == 0 && n.children == 0 && n.next == 0
  }

  /** A new node c linked as first child of d. */
  function Adopted(nodes: Nodes, d: nat, c: nat, node: FsNode): Nodes {
    if d in nodes then Prepended(nodes[c := node], d, c) else nodes
  }

  function KidsWith(kids: Kids, d: nat, c: nat): Kids {
    if d in kids then kids[c := []][d := [c] + kids[d]] else kids
  }

  function RankWith(rank: Rank, d: nat, c: nat): Rank {
    if d in rank then rank[c := rank[d] + 1] else rank
  }

  lemma AdoptedOk(nodes: Nodes, bufs: Bufs, kids: Kids, rank: Rank, root: nat, d: nat, c: nat, node: FsNode)
    requires TreeOk(nodes, bufs, kids, rank, root, d) && c != 0 && c !in nodes && c !in bufs
    requires Loose(node) && |node.name| < MAX_NAME_LEN
    ensures TreeOk(Adopted(nodes, d, c, node), bufs, KidsWith(kids, d, c), RankWith(rank, d, c), root, d)
  {
    AdoptedKeys(nodes, kids, rank, d, c, node);
    AdoptedLinks(nodes, kids, rank, d, c, node);
    AdoptedRooted(nodes, kids, root, d, c, node);
    AdoptedData(nodes, bufs, d, c, node);
    AdoptedNodes(nodes, kids, d, c, node);
    AdoptedRoot(nodes, root, d, c, node);
    hide Links, Rooted, DataOk, NodesOk, RootOk, KidsWith, RankWith;
  }

  lemma AdoptedKeys(nodes: Nodes, kids: Kids, rank: Rank, d: nat, c: nat, node: FsNode)
    requires Links(nodes, kids, rank)
    ensures kids.Keys == nodes.Keys && rank.Keys == nodes.Keys
  {}

  lemma AdoptedRoot(nodes: Nodes, root: nat, d: nat, c: nat, node: FsNode)
    requires RootOk(nodes, root) && c !in nodes
    ensures RootOk(Adopted(nodes, d, c, node), root)
  {}

  lemma AdoptedLinks(nodes: Nodes, kids: Kids, rank: Rank, d: nat, c: nat, node: FsNode)
    requires Links(nodes, kids, rank) && d in nodes && c !in nodes && c != 0 && Loose(node)
    ensures Links(Adopted(nodes, d, c, node), KidsWith(kids, d, c), RankWith(rank, d, c))
  {
    AddLoose(nodes, kids, rank, c, node, rank[d] + 1);
    LinkFirst(nodes[c := node], kids[c := []], rank[c := rank[d] + 1], d, c);
  }

  lemma AdoptedNodes(nodes: Nodes, kids: Kids, d: nat, c: nat, node: FsNode)
    requires NodesOk(nodes, kids) && d in nodes && nodes[d].isDir && c !in nodes && |node.name| < MAX_NAME_LEN
    ensures NodesOk(Adopted(nodes, d, c, node), KidsWith(kids, d, c))
  {}

  lemma AdoptedRooted(nodes: Nodes, kids: Kids, root: nat, d: nat, c: nat, node: FsNode)
    requires Rooted(nodes, kids, root) && d in nodes && d in kids && c !in nodes && c !in kids
    ensures Rooted(Adopted(nodes, d, c, node), KidsWith(kids, d, c), root)
  {
    var nodes', kids' := Adopted(nodes, d, c, node), KidsWith(kids, d, c);
    forall x | x in nodes' && x != root ensures Hangs(nodes', kids', x) {
      if x != c { assert Hangs(nodes, kids, x); } else { assert kids'[d][0] == c; }
    }
  }

  lemma AdoptedData(nodes: Nodes, bufs: Bufs, d: nat, c: nat, node: FsNode)
    requires DataOk(nodes, bufs) && d in nodes && c !in nodes && c !in bufs && Loose(node)
    ensures DataOk(Adopted(nodes, d, c, node), bufs)
  {
    var nodes' := Adopted(nodes, d, c, node);
    forall b | b in bufs ensures OwnedBuf(nodes', b) {
      assert OwnedBuf(nodes, b);
      var x :| x in nodes && nodes[x].data == b;
      assert nodes'[x].data == b;
    }
  }

  // ----- the data of one file

  /** File f with data pointer p and size n. */
  function WithData(nodes: Nodes, f: nat, p: nat, n: nat): Nodes {
    if f in nodes then nodes[f := nodes[f].(data := p, size := n)] else nodes
  }

  lemma WithDataTree(nodes: Nodes, kids: Kids, rank: Rank, root: nat, f: nat, p: nat, n: nat)
    requires Links(nodes, kids, rank) && Rooted(nodes, kids, root) && RootOk(nodes, root) && NodesOk(nodes, kids)
    ensures var nodes' := WithData(nodes, f, p, n);
            Links(nodes', kids, rank) && Rooted(nodes', kids, root) && RootOk(nodes', root) && NodesOk(nodes', kids)
  {
    hide Links, Rooted;
    WithDataLinks(nodes, kids, rank, f, p, n);
    WithDataRooted(nodes, kids, root, f, p, n);
  }

  lemma WithDataRooted(nodes: Nodes, kids: Kids, root: nat, f: nat, p: nat, n: nat)
    requires Rooted(nodes, kids, root)
    ensures Rooted(WithData(nodes, f, p, n), kids, root)
  {
    var nodes' := WithData(nodes, f, p, n);
    forall x | x in nodes' && x != root ensures Hangs(nodes', kids, x) { assert Hangs(nodes, kids, x); }
  }

  lemma WithDataLinks(nodes: Nodes, kids: Kids, rank: Rank, f: nat, p: nat, n: nat)
    requires Links(nodes, kids, rank)
    ensures Links(WithData(nodes, f, p, n), kids, rank)
  {
    var nodes' := WithData(nodes, f, p, n);
    forall q | q in nodes' ensures KidsOk(nodes', kids, rank, q) {
      assert KidsOk(nodes, kids, rank, q);
      forall i | 0 <= i < |kids[q]| ensures KidAt(nodes', kids, rank, q, i) {
        assert KidAt(nodes, kids, rank, q, i);
      }
    }
  }

  /** The file's buffer goes. */
  lemma DataCleared(nodes: Nodes, bufs: Bufs, f: nat)
    requires DataOk(nodes, bufs) && f in nodes
    ensures DataOk(WithData(nodes, f, 0, 0), bufs - {nodes[f].data})
  {
    var nodes', bufs' := WithData(nodes, f, 0, 0), bufs - {nodes[f].data};
    forall b | b in bufs' ensures OwnedBuf(nodes', b) {
      assert OwnedBuf(nodes, b);
      var x :| x in nodes && nodes[x].data == b;
      assert nodes'[x].data == b;
    }
    forall c | c in nodes' ensures DataAt(nodes'[c], bufs') { assert DataAt(nodes[c], bufs); }
  }

  /** A file without a buffer gets a fresh one. */
  lemma DataSet(nodes: Nodes, bufs: Bufs, f: nat, p: nat, bytes: seq<Byte>)
    requires DataOk(nodes, bufs) && f in nodes && nodes[f].data == 0 && !nodes[f].isDir
    requires p != 0 && p !in nodes && p !in bufs && 0 < |bytes| <= SECTOR_SIZE
    ensures DataOk(WithData(nodes, f, p, |bytes|), bufs[p := bytes])
  {
    var nodes', bufs' := WithData(nodes, f, p, |bytes|), bufs[p := bytes];
    forall b | b in bufs' ensures OwnedBuf(nodes', b) {
      if b == p {
        assert nodes'[f].data == b;
      } else {
        assert OwnedBuf(nodes, b);
        var x :| x in nodes && nodes[x].data == b;
        assert nodes'[x].data == b;
      }
    }
    forall c | c in nodes ensures c != f ==> nodes[c].data != p && DataAt(nodes'[c], bufs') {
      assert DataAt(nodes[c], bufs);
    }
    assert DataAt(nodes'[f], bufs');
  }

  /** Replacing the content of file f. */
  lemma WriteOk(nodes: Nodes, bufs: Bufs, kids: Kids, rank: Rank, root: nat, d: nat, f: nat, p: nat, bytes: seq<Byte>)
    requires TreeOk(nodes, bufs, kids, rank, root, d) && f in nodes && !nodes[f].isDir
    requires p != 0 ==> p !in nodes && p !in bufs - {nodes[f].data} && 0 < |bytes| <= SECTOR_SIZE
    requires p == 0 ==> bytes == []
    ensures TreeOk(WithData(nodes, f, p, |bytes|), Refilled(nodes, bufs, f, p, bytes), kids, rank, root, d)
  {
    hide Links, Rooted, DataOk, NodesOk, RootOk, Refilled;
    WithDataTree(nodes, kids, rank, root, f, p, |bytes|);
    WriteData(nodes, bufs, f, p, bytes);
  }

  lemma WriteData(nodes: Nodes, bufs: Bufs, f: nat, p: nat, bytes: seq<Byte>)
    requires DataOk(nodes, bufs) && f in nodes && !nodes[f].isDir
    requires p != 0 ==> p !in nodes && p !in bufs - {nodes[f].data} && 0 < |bytes| <= SECTOR_SIZE
    requires p == 0 ==> bytes == []
    ensures DataOk(WithData(nodes, f, p, |bytes|), Refilled(nodes, bufs, f, p, bytes))
  {
    hide DataOk;
    DataCleared(nodes, bufs, f);
    if p != 0 {
      var n1 := WithData(nodes, f, 0, 0);
      DataSet(n1, bufs - {nodes[f].data}, f, p, bytes);
      assert WithData(n1, f, p, |bytes|) == WithData(nodes, f, p, |bytes|);
    }
  }

  function Refilled(nodes: Nodes, bufs: Bufs, f: nat, p: nat, bytes: seq<Byte>): Bufs {
    if f !in nodes then bufs
    else if p == 0 then bufs - {nodes[f].data}
    else (bufs - {nodes[f].data})[p := bytes]
  }

  /** What a write means: the file holds the bytes, and every other node keeps its content. */
  lemma WriteContents(nodes: Nodes, bufs: Bufs, f: nat, p: nat, bytes: seq<Byte>)
    requires DataOk(nodes, bufs) && f in nodes
    requires p != 0 ==> p !in nodes && p !in bufs - {nodes[f].data}
    requires p == 0 ==> bytes == []
    ensures var nodes', bufs' := WithData(nodes, f, p, |bytes|), Refilled(nodes, bufs, f, p, bytes);
            && Content(nodes'[f], bufs') == bytes && nodes'[f].data == p && nodes'[f].size == |bytes|
            && (p != 0 ==> p in bufs' && bufs'[p] == bytes)
            && forall x :: x in nodes && x != f ==>
                 nodes'[x] == nodes[x] && Content(nodes'[x], bufs') == Content(nodes[x], bufs)
  {
    var nodes', bufs' := WithData(nodes, f, p, |bytes|), Refilled(nodes, bufs, f, p, bytes);
    forall x | x in nodes && x != f ensures Content(nodes'[x], bufs') == Content(nodes[x], bufs) {
      assert DataAt(nodes[x], bufs) && DataAt(nodes[f], bufs);
    }
  }

  // ----- taking a subtree out

  /** Nodes left when child k of d goes with everything below it. */
  ghost function Pruned(nodes: Nodes, kids: Kids, rank: Rank, d: nat, k: nat): Nodes
    requires d in kids && k < |kids[d]|
  {
    Patched(nodes, Before(kids[d], k), d, AddrAt(kids[d], k + 1)) - Sub(nodes, rank, kids[d][k])
  }

  function KidsCut(kids: Kids, d: nat, k: nat): Kids
    requires d in kids && k < |kids[d]|
  {
    kids[d := kids[d][..k] + kids[d][k + 1..]]
  }

  ghost function PrunedKids(nodes: Nodes, kids: Kids, rank: Rank, d: nat, k: nat): Kids
    requires d in kids && k < |kids[d]|
  {
    KidsCut(kids, d, k) - Sub(nodes, rank, kids[d][k])
  }

  /** Buffers of the nodes in s. */
  ghost function DataOf(nodes: Nodes, s: set<nat>): set<nat> {
    set x | x in s && x in nodes && nodes[x].data != 0 :: nodes[x].data
  }

  /** A directory is never below one of its own children: the in-use guard of fs_rm cannot fire. */
  lemma NotAboveItself(nodes: Nodes, kids: Kids, rank: Rank, d: nat, k: nat)
    requires Links(nodes, kids, rank) && d in nodes && k < |kids[d]|
    ensures !Under(nodes, rank, d, kids[d][k])
  {
    KidUnder(nodes, kids, rank, d, k);
    if Under(nodes, rank, d, kids[d][k]) { UnderRank(nodes, rank, d, kids[d][k]); }
  }

  /** A child of p is below c only if it is c or p is below c. */
  lemma KidBelow(nodes: Nodes, kids: Kids, rank: Rank, p: nat, i: nat, c: nat)
    requires Links(nodes, kids, rank) && p in nodes && i < |kids[p]|
    ensures Under(nodes, rank, kids[p][i], c) ==> kids[p][i] == c || Under(nodes, rank, p, c)
  {
    KidUnder(nodes, kids, rank, p, i);
  }

  lemma PrunedLinks(nodes: Nodes, kids: Kids, rank: Rank, d: nat, k: nat)
    requires Links(nodes, kids, rank) && d in nodes && k < |kids[d]|
    ensures Links(Pruned(nodes, kids, rank, d, k), PrunedKids(nodes, kids, rank, d, k),
                  rank - Sub(nodes, rank, kids[d][k]))
  {
    var gone := Sub(nodes, rank, kids[d][k]);
    var nodes1 := Patched(nodes, Before(kids[d], k), d, AddrAt(kids[d], k + 1));
    var kids1 := KidsCut(kids, d, k);
    UnlinkAt(nodes, kids, rank, d, k);
    forall p, i | p in nodes1 && p !in gone && 0 <= i < |kids1[p]| ensures kids1[p][i] !in gone {
      StaysOut(nodes, kids, rank, d, k, p, i);
    }
    hide Links, Sub;
    DropNodes(nodes1, kids1, rank, gone);
  }

  lemma StaysOut(nodes: Nodes, kids: Kids, rank: Rank, d: nat, k: nat, p: nat, i: nat)
    requires Links(nodes, kids, rank) && d in nodes && k < |kids[d]|
    requires p in nodes && !Under(nodes, rank, p, kids[d][k]) && i < |KidsCut(kids, d, k)[p]|
    ensures !Under(nodes, rank, KidsCut(kids, d, k)[p][i], kids[d][k])
  {
    var c := kids[d][k];
    KidUnder(nodes, kids, rank, d, k);
    var j := if p == d && i >= k then i + 1 else i;
    CutKid(kids, d, k, p, i, j);
    KidUnder(nodes, kids, rank, p, j);
    KidBelow(nodes, kids, rank, p, j, c);
    assert KidsOk(nodes, kids, rank, d);
    hide Links, Under, KidsCut;
  }

  lemma CutKid(kids: Kids, d: nat, k: nat, p: nat, i: nat, j: nat)
    requires d in kids && k < |kids[d]| && p in kids && i < |KidsCut(kids, d, k)[p]|
    requires j == if p == d && i >= k then i + 1 else i
    ensures j < |kids[p]| && KidsCut(kids, d, k)[p][i] == kids[p][j] && (p == d ==> j != k)
  {}

  lemma PatchedSame(nodes: Nodes, prev: nat, d: nat, to: nat)
    ensures Patched(nodes, prev, d, to).Keys == nodes.Keys
    ensures forall x :: x in nodes ==>
              var n, n' := nodes[x], Patched(nodes, prev, d, to)[x];
              && n'.name == n.name && n'.isDir == n.isDir && n'.data == n.data
              && n'.size == n.size && n'.parent == n.parent
  {}

  lemma PrunedKeys(nodes: Nodes, kids: Kids, rank: Rank, d: nat, k: nat)
    requires Links(nodes, kids, rank) && d in nodes && k < |kids[d]|
    ensures var gone := Sub(nodes, rank, kids[d][k]);
            var nodes' := Pruned(nodes, kids, rank, d, k);
            && nodes'.Keys == nodes.Keys - gone
            && PrunedKids(nodes, kids, rank, d, k).Keys == nodes.Keys - gone
            && forall x :: x in nodes && x !in gone ==>
                 var n, n' := nodes[x], nodes'[x];
                 && n'.name == n.name && n'.isDir == n.isDir && n'.data == n.data
                 && n'.size == n.size && n'.parent == n.parent
  {
    PatchedSame(nodes, Before(kids[d], k), d, AddrAt(kids[d], k + 1));
    hide Patched, Before, AddrAt, Sub;
  }

  lemma PrunedRooted(nodes: Nodes, kids: Kids, rank: Rank, root: nat, d: nat, k: nat)
    requires Links(nodes, kids, rank) && Rooted(nodes, kids, root) && d in nodes && k < |kids[d]|
    ensures Rooted(Pruned(nodes, kids, rank, d, k), PrunedKids(nodes, kids, rank, d, k), root)
  {
    var nodes', kids' := Pruned(nodes, kids, rank, d, k), PrunedKids(nodes, kids, rank, d, k);
    PrunedKeys(nodes, kids, rank, d, k);
    KidUnder(nodes, kids, rank, d, k);
    assert !Under(nodes, rank, root, kids[d][k]);
    hide Pruned, PrunedKids;
    forall x | x in nodes' && x != root ensures Hangs(nodes', kids', x) {
      StillHangs(nodes, kids, rank, root, d, k, x);
    }
  }

  lemma StillHangs(nodes: Nodes, kids: Kids, rank: Rank, root: nat, d: nat, k: nat, x: nat)
    requires Links(nodes, kids, rank) && Rooted(nodes, kids, root) && d in nodes && k < |kids[d]|
    requires x in nodes && x != root && x !in Sub(nodes, rank, kids[d][k])
    ensures Hangs(Pruned(nodes, kids, rank, d, k), PrunedKids(nodes, kids, rank, d, k), x)
  {
    var q := nodes[x].parent;
    assert Hangs(nodes, kids, x);
    var i :| 0 <= i < |kids[q]| && kids[q][i] == x;
    KidUnder(nodes, kids, rank, q, i);
    assert Under(nodes, rank, x, x);
    assert q !in Sub(nodes, rank, kids[d][k]) by { KidBelowUp(nodes, rank, x, kids[d][k]); }
    PrunedKeys(nodes, kids, rank, d, k);
    hide Pruned, Links, Under, Sub, Rooted;
    CutKeeps(kids, d, k, q, i);
  }

  lemma KidBelowUp(nodes: Nodes, rank: Rank, x: nat, c: nat)
    requires x in nodes && x in rank && nodes[x].parent in rank && rank[nodes[x].parent] < rank[x]
    requires !Under(nodes, rank, x, c)
    ensures !Under(nodes, rank, nodes[x].parent, c)
  {}

  lemma CutKeeps(kids: Kids, d: nat, k: nat, q: nat, i: nat)
    requires d in kids && k < |kids[d]| && q in kids && i < |kids[q]| && (q == d ==> i != k)
    ensures kids[q][i] in KidsCut(kids, d, k)[q]
  {
    var list := KidsCut(kids, d, k)[q];
    if q == d {
      if i < k { assert list[i] == kids[q][i]; } else { assert list[i - 1] == kids[q][i]; }
    }
  }

  lemma PrunedNodes(nodes: Nodes, kids: Kids, rank: Rank, d: nat, k: nat)
    requires Links(nodes, kids, rank) && NodesOk(nodes, kids) && d in nodes && k < |kids[d]|
    ensures NodesOk(Pruned(nodes, kids, rank, d, k), PrunedKids(nodes, kids, rank, d, k))
  {
    PrunedKeys(nodes, kids, rank, d, k);
    var nodes', kids' := Pruned(nodes, kids, rank, d, k), PrunedKids(nodes, kids, rank, d, k);
    hide Pruned, Links, Sub;
    forall p | p in nodes' ensures kids'[p] != [] ==> nodes'[p].isDir {
      assert kids'[p] != [] ==> kids[p] != [];
    }
  }

  lemma PrunedData(nodes: Nodes, bufs: Bufs, kids: Kids, rank: Rank, d: nat, k: nat)
    requires Links(nodes, kids, rank) && DataOk(nodes, bufs) && d in nodes && k < |kids[d]|
    ensures DataOk(Pruned(nodes, kids, rank, d, k), bufs - DataOf(nodes, Sub(nodes, rank, kids[d][k])))
  {
    PrunedKeys(nodes, kids, rank, d, k);
    var gone, nodes' := Sub(nodes, rank, kids[d][k]), Pruned(nodes, kids, rank, d, k);
    hide Pruned, Links, Sub;
    KeptData(nodes, bufs, nodes', gone);
  }

  lemma KeptData(nodes: Nodes, bufs: Bufs, nodes': Nodes, gone: set<nat>)
    requires DataOk(nodes, bufs) && nodes'.Keys == nodes.Keys - gone
    requires forall x :: x in nodes && x !in gone ==>
               nodes'[x].data == nodes[x].data && nodes'[x].size == nodes[x].size && nodes'[x].isDir == nodes[x].isDir
    ensures DataOk(nodes', bufs - DataOf(nodes, gone))
  {
    var bufs' := bufs - DataOf(nodes, gone);
    forall b | b in bufs' ensures OwnedBuf(nodes', b) {
      assert OwnedBuf(nodes, b);
      var x :| x in nodes && nodes[x].data == b;
      assert x !in gone;
      assert nodes'[x].data == b;
    }
    forall x | x in nodes' ensures DataAt(nodes'[x], bufs') {
      assert DataAt(nodes[x], bufs);
    }
  }

  lemma PrunedRoot(nodes: Nodes, kids: Kids, rank: Rank, root: nat, d: nat, k: nat)
    requires Links(nodes, kids, rank) && RootOk(nodes, root) && nodes[root].parent == 0
    requires d in nodes && nodes[d].isDir && k < |kids[d]|
    ensures RootOk(Pruned(nodes, kids, rank, d, k), root)
    ensures d in Pruned(nodes, kids, rank, d, k) && Pruned(nodes, kids, rank, d, k)[d].isDir
  {
    PrunedKeys(nodes, kids, rank, d, k);
    KidUnder(nodes, kids, rank, d, k);
    assert !Under(nodes, rank, root, kids[d][k]);
    NotAboveItself(nodes, kids, rank, d, k);
    hide Pruned, PrunedKids, Links, Under;
  }

  /** Taking out child k of the current directory keeps the invariant. */
  lemma PrunedOk(nodes: Nodes, bufs: Bufs, kids: Kids, rank: Rank, root: nat, d: nat, k: nat)
    requires TreeOk(nodes, bufs, kids, rank, root, d) && k < |kids[d]|
    ensures var gone := Sub(nodes, rank, kids[d][k]);
            TreeOk(Pruned(nodes, kids, rank, d, k), bufs - DataOf(nodes, gone), PrunedKids(nodes, kids, rank, d, k),
                   rank - gone, root, d)
  {
    PrunedLinks(nodes, kids, rank, d, k);
    PrunedRooted(nodes, kids, rank, root, d, k);
    PrunedNodes(nodes, kids, rank, d, k);
    PrunedData(nodes, bufs, kids, rank, d, k);
    PrunedRoot(nodes, kids, rank, root, d, k);
    hide Pruned, PrunedKids, Links, Rooted, RootOk, NodesOk, DataOk, Sub;
  }

  // ----- freeing a subtree

  /** Nodes at or below one of the first k children of p. */
  ghost function Freed(nodes: Nodes, kids: Kids, rank: Rank, p: nat, k: nat): set<nat>
    requires p in kids && k <= |kids[p]|
    decreases k
  {
    if k == 0 then {} else Freed(nodes, kids, rank, p, k - 1) + Sub(nodes, rank, kids[p][k - 1])
  }

  lemma {:induction false} FreedIn(nodes: Nodes, kids: Kids, rank: Rank, p: nat, k: nat, x: nat) returns (i: nat)
    requires p in kids && k <= |kids[p]| && x in Freed(nodes, kids, rank, p, k)
    ensures i < k && x in Sub(nodes, rank, kids[p][i])
  {
    if x in Sub(nodes, rank, kids[p][k - 1]) { i := k - 1; } else { i := FreedIn(nodes, kids, rank, p, k - 1, x); }
  }

  lemma {:induction false} FreedHas(nodes: Nodes, kids: Kids, rank: Rank, p: nat, k: nat, i: nat)
    requires p in kids && i < k <= |kids[p]|
    ensures Sub(nodes, rank, kids[p][i]) <= Freed(nodes, kids, rank, p, k)
  {
    if i < k - 1 { FreedHas(nodes, kids, rank, p, k - 1, i); }
  }

  /** The next child's subtree has not been touched by freeing the ones before it. */
  lemma NextUntouched(nodes: Nodes, kids: Kids, rank: Rank, p: nat, k: nat)
    requires Links(nodes, kids, rank) && p in nodes && k < |kids[p]|
    ensures Sub(nodes, rank, kids[p][k]) !! Freed(nodes, kids, rank, p, k)
    ensures Sub(nodes, rank, kids[p][k]) < Sub(nodes, rank, p)
  {
    SubShrinks(nodes, kids, rank, p, k);
    forall x | x in Sub(nodes, rank, kids[p][k]) ensures x !in Freed(nodes, kids, rank, p, k) {
      if x in Freed(nodes, kids, rank, p, k) {
        var i := FreedIn(nodes, kids, rank, p, k, x);
        SiblingsDisjoint(nodes, kids, rank, p, i, k, x);
      }
    }
  }

  /** All children freed: the node itself is what is left of its subtree. */
  lemma AllFreed(nodes: Nodes, kids: Kids, rank: Rank, root: nat, p: nat)
    requires Links(nodes, kids, rank) && Rooted(nodes, kids, root) && p in nodes
    ensures Sub(nodes, rank, p) == Freed(nodes, kids, rank, p, |kids[p]|) + {p}
    ensures p !in Freed(nodes, kids, rank, p, |kids[p]|)
  {
    var f := Freed(nodes, kids, rank, p, |kids[p]|);
    forall x | x in Sub(nodes, rank, p) && x != p ensures x in f {
      BelowSomeKid(nodes, kids, rank, root, p, x);
    }
    forall x | x in f ensures x in Sub(nodes, rank, p) && x != p {
      var i := FreedIn(nodes, kids, rank, p, |kids[p]|, x);
      SubShrinks(nodes, kids, rank, p, i);
      NotAboveItself(nodes, kids, rank, p, i);
    }
  }

  lemma BelowSomeKid(nodes: Nodes, kids: Kids, rank: Rank, root: nat, p: nat, x: nat)
    requires Links(nodes, kids, rank) && Rooted(nodes, kids, root) && p in nodes
    requires x in Sub(nodes, rank, p) && x != p
    ensures x in Freed(nodes, kids, rank, p, |kids[p]|)
  {
    forall y | y in nodes && y != p && Under(nodes, rank, y, p) ensures Hangs(nodes, kids, y) {}
    var i := UnderViaKid(nodes, kids, rank, p, x);
    FreedHas(nodes, kids, rank, p, |kids[p]|, i);
  }

  /** The nodes of s stand as in the snapshot, and their buffers are held. */
  ghost predicate Intact(nodes: Nodes, bufs: Bufs, n0: Nodes, s: set<nat>) {
    && (forall x :: x in s ==> x in nodes && x in n0 && nodes[x] == n0[x])
    && DataOf(n0, s) <= bufs.Keys
  }

  lemma IntactSub(nodes: Nodes, bufs: Bufs, n0: Nodes, s: set<nat>, freed: set<nat>, t: set<nat>)
    requires Intact(nodes, bufs, n0, s) && DataUnique(n0) && t <= s && t !! freed
    ensures Intact(nodes - freed, bufs - DataOf(n0, freed), n0, t)
  {
    forall b | b in DataOf(n0, t) ensures b in bufs - DataOf(n0, freed) {
      var x :| x in t && x in n0 && n0[x].data == b && b != 0;
      assert b in DataOf(n0, s);
    }
  }

  lemma DataOfUnion(n0: Nodes, s: set<nat>, t: set<nat>)
    ensures DataOf(n0, s + t) == DataOf(n0, s) + DataOf(n0, t)
  {}

  lemma DataOfOne(n0: Nodes, x: nat)
    requires x in n0
    ensures DataOf(n0, {x}) == if n0[x].data == 0 then {} else {n0[x].data}
  {}
}
