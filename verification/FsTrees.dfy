/** What the in-place operations of the file system mean for the directory tree as a value. */
module FsTrees {
  import opened Common
  import opened FsCodec
  import opened FsLinks
  import opened FsState
  import opened FileSystem

  /** Node x is as before: same label, content and children. */
  ghost predicate Same(nodes: Nodes, bufs: Bufs, kids: Kids, nodes': Nodes, bufs': Bufs, kids': Kids, x: nat) {
    && x in nodes && x in nodes' && x in kids && x in kids' && kids'[x] == kids[x]
    && nodes'[x].name == nodes[x].name && nodes'[x].isDir == nodes[x].isDir
    && Content(nodes'[x], bufs') == Content(nodes[x], bufs)
  }

  lemma KidTrees(nodes: Nodes, bufs: Bufs, kids: Kids, rank: Rank, p: nat)
    requires Links(nodes, kids, rank) && p in nodes
    ensures p in kids && |TreeOf(nodes, bufs, kids, rank, p).kids| == |kids[p]|
    ensures forall j :: 0 <= j < |kids[p]| ==>
              && kids[p][j] in nodes
              && TreeOf(nodes, bufs, kids, rank, p).kids[j] == TreeOf(nodes, bufs, kids, rank, kids[p][j])
  {
    forall j | 0 <= j < |kids[p]|
      ensures kids[p][j] in nodes
      ensures TreesFrom(nodes, bufs, kids, rank, p, 0)[j] == TreeOf(nodes, bufs, kids, rank, kids[p][j])
    {
      KidTreeFrom(nodes, bufs, kids, rank, p, 0, j);
    }
  }

  lemma {:induction false} KidTreeFrom(nodes: Nodes, bufs: Bufs, kids: Kids, rank: Rank, p: nat, i: nat, j: nat)
    requires Links(nodes, kids, rank) && p in nodes && i <= j < |kids[p]|
    ensures kids[p][j] in nodes
    ensures TreesFrom(nodes, bufs, kids, rank, p, i)[j - i] == TreeOf(nodes, bufs, kids, rank, kids[p][j])
    decreases j - i
  {
    KidUnder(nodes, kids, rank, p, j);
    if i < j { KidTreeFrom(nodes, bufs, kids, rank, p, i + 1, j); }
    hide Links, TreeOf, Under;
  }

  /** Equal labels and equal trees below make equal trees. */
  lemma TreeFromParts(nodes: Nodes, bufs: Bufs, kids: Kids, rank: Rank, p: nat, t: Tree)
    requires Links(nodes, kids, rank) && p in nodes
    requires t.name == nodes[p].name && t.isDir == nodes[p].isDir && t.data == Content(nodes[p], bufs)
    requires |t.kids| == |kids[p]|
    requires forall j :: 0 <= j < |kids[p]| ==>
               kids[p][j] in nodes && t.kids[j] == TreeOf(nodes, bufs, kids, rank, kids[p][j])
    ensures TreeOf(nodes, bufs, kids, rank, p) == t
  {
    KidTrees(nodes, bufs, kids, rank, p);
    hide Links, Content, TreesFrom;
    assert TreeOf(nodes, bufs, kids, rank, p).kids == t.kids;
  }

  /** A subtree whose nodes are all as before is the same tree. */
  lemma {:induction false} TreeSame(nodes: Nodes, bufs: Bufs, kids: Kids, rank: Rank,
                                    nodes': Nodes, bufs': Bufs, kids': Kids, rank': Rank, p: nat)
    requires Links(nodes, kids, rank) && Links(nodes', kids', rank') && p in nodes
    requires forall x :: x in Sub(nodes, rank, p) ==> Same(nodes, bufs, kids, nodes', bufs', kids', x)
    ensures p in nodes' && TreeOf(nodes', bufs', kids', rank', p) == TreeOf(nodes, bufs, kids, rank, p)
    decreases Sub(nodes, rank, p)
  {
    assert p in Sub(nodes, rank, p);
    forall j | 0 <= j < |kids[p]|
      ensures kids[p][j] in nodes && kids[p][j] in nodes'
      ensures TreeOf(nodes', bufs', kids', rank', kids[p][j]) == TreeOf(nodes, bufs, kids, rank, kids[p][j])
    {
      KidUnder(nodes, kids, rank, p, j);
      SubShrinks(nodes, kids, rank, p, j);
      TreeSame(nodes, bufs, kids, rank, nodes', bufs', kids', rank', kids[p][j]);
    }
    KidTrees(nodes, bufs, kids, rank, p);
    hide Links, Sub, Under, Content, TreesFrom;
    TreeFromParts(nodes', bufs', kids', rank', p, TreeOf(nodes, bufs, kids, rank, p));
  }

  // ----- paths

  /** The node reached from p by taking child path[0], then child path[1], and so on; 0 when there is none. */
  ghost function Follow(kids: Kids, p: nat, path: seq<nat>): nat
    decreases path
  {
    if path == [] then p
    else if p in kids && path[0] < |kids[p]| then Follow(kids, kids[p][path[0]], path[1..])
    else 0
  }

  lemma {:induction false} FollowOn(kids: Kids, p: nat, path: seq<nat>, i: nat)
    requires var q := Follow(kids, p, path); q in kids && i < |kids[q]| && 0 !in kids
    ensures Follow(kids, p, path + [i]) == kids[Follow(kids, p, path)][i]
    decreases path
  {
    if path == [] {
      assert (path + [i])[1..] == [];
    } else {
      assert (path + [i])[1..] == path[1..] + [i];
      FollowOn(kids, kids[p][path[0]], path[1..], i);
    }
  }

  /** Every node is reached from the root. */
  lemma {:induction false} PathTo(nodes: Nodes, kids: Kids, rank: Rank, root: nat, x: nat) returns (path: seq<nat>)
    requires Links(nodes, kids, rank) && Rooted(nodes, kids, root) && x in nodes
    ensures Follow(kids, root, path) == x
    decreases rank[x]
  {
    if x == root { return []; }
    assert Hangs(nodes, kids, x);
    var q := nodes[x].parent;
    var i :| 0 <= i < |kids[q]| && kids[q][i] == x;
    KidUnder(nodes, kids, rank, q, i);
    path := PathTo(nodes, kids, rank, root, q);
    hide Links, Rooted, Under;
    FollowOn(kids, root, path, i);
    path := path + [i];
  }

  lemma {:induction false} FollowUnder(nodes: Nodes, kids: Kids, rank: Rank, p: nat, path: seq<nat>)
    requires Links(nodes, kids, rank) && p in nodes && Follow(kids, p, path) in nodes
    ensures Under(nodes, rank, Follow(kids, p, path), p)
    decreases path
  {
    if path != [] {
      KidUnder(nodes, kids, rank, p, path[0]);
      FollowUnder(nodes, kids, rank, kids[p][path[0]], path[1..]);
      UnderTrans(nodes, rank, Follow(kids, p, path), kids[p][path[0]], p);
    }
  }

  /** The subtree of t at a path, and t with another tree there. */
  function SubtreeAt(t: Tree, path: seq<nat>): Tree
    decreases path
  {
    if path != [] && path[0] < |t.kids| then SubtreeAt(t.kids[path[0]], path[1..]) else t
  }

  function ReplaceAt(t: Tree, path: seq<nat>, s: Tree): Tree
    decreases path
  {
    if path == [] then s
    else if path[0] < |t.kids| then t.(kids := t.kids[path[0] := ReplaceAt(t.kids[path[0]], path[1..], s)])
    else t
  }

  /** When only the subtree of d changed, the tree from p changed exactly there. */
  lemma {:induction false} OnlyAt(nodes: Nodes, bufs: Bufs, kids: Kids, rank: Rank,
                                  nodes': Nodes, bufs': Bufs, kids': Kids, rank': Rank, p: nat, path: seq<nat>, d: nat)
    requires Links(nodes, kids, rank) && Links(nodes', kids', rank') && p in nodes && d in nodes && d in nodes'
    requires Follow(kids, p, path) == d
    requires forall x :: x in Sub(nodes, rank, p) && x !in Sub(nodes, rank, d) ==>
               Same(nodes, bufs, kids, nodes', bufs', kids', x)
    ensures p in nodes'
    ensures SubtreeAt(TreeOf(nodes, bufs, kids, rank, p), path) == TreeOf(nodes, bufs, kids, rank, d)
    ensures TreeOf(nodes', bufs', kids', rank', p)
         == ReplaceAt(TreeOf(nodes, bufs, kids, rank, p), path, TreeOf(nodes', bufs', kids', rank', d))
    decreases path
  {
    if path != [] {
      var i := path[0];
      var c := kids[p][i];
      KidUnder(nodes, kids, rank, p, i);
      AboveChanged(nodes, kids, rank, p, path, d);
      forall x | x in Sub(nodes, rank, c) ensures x in Sub(nodes, rank, p) { UnderTrans(nodes, rank, x, c, p); }
      OnlyAt(nodes, bufs, kids, rank, nodes', bufs', kids', rank', c, path[1..], d);
      forall j | 0 <= j < |kids[p]| && j != i
        ensures kids[p][j] in nodes && kids[p][j] in nodes'
        ensures TreeOf(nodes', bufs', kids', rank', kids[p][j]) == TreeOf(nodes, bufs, kids, rank, kids[p][j])
      {
        SiblingKept(nodes, bufs, kids, rank, nodes', bufs', kids', rank', p, i, j, d);
      }
      hide Sub, Under;
      KidTrees(nodes, bufs, kids, rank, p);
      hide Links, Content, TreesFrom, SubtreeAt;
      var t := TreeOf(nodes, bufs, kids, rank, p);
      var r := t.(kids := t.kids[i := TreeOf(nodes', bufs', kids', rank', c)]);
      hide Follow;
      TreeFromParts(nodes', bufs', kids', rank', p, r);
    }
  }

  /** A strict ancestor of d is outside the subtree of d, which is below the child on the path. */
  lemma AboveChanged(nodes: Nodes, kids: Kids, rank: Rank, p: nat, path: seq<nat>, d: nat)
    requires Links(nodes, kids, rank) && p in nodes && d in nodes && path != [] && Follow(kids, p, path) == d
    ensures path[0] < |kids[p]| && Under(nodes, rank, d, kids[p][path[0]])
    ensures p in Sub(nodes, rank, p) && p !in Sub(nodes, rank, d)
  {
    var c := kids[p][path[0]];
    KidUnder(nodes, kids, rank, p, path[0]);
    FollowUnder(nodes, kids, rank, c, path[1..]);
    UnderRank(nodes, rank, d, c);
    if Under(nodes, rank, p, d) { UnderRank(nodes, rank, p, d); }
  }

  lemma SiblingKept(nodes: Nodes, bufs: Bufs, kids: Kids, rank: Rank,
                    nodes': Nodes, bufs': Bufs, kids': Kids, rank': Rank, p: nat, i: nat, j: nat, d: nat)
    requires Links(nodes, kids, rank) && Links(nodes', kids', rank') && p in nodes && i < |kids[p]| && j < |kids[p]|
    requires i != j
    requires Under(nodes, rank, d, kids[p][i])
    requires forall x :: x in Sub(nodes, rank, p) && x !in Sub(nodes, rank, d) ==>
               Same(nodes, bufs, kids, nodes', bufs', kids', x)
    ensures kids[p][j] in nodes && kids[p][j] in nodes'
    ensures TreeOf(nodes', bufs', kids', rank', kids[p][j]) == TreeOf(nodes, bufs, kids, rank, kids[p][j])
  {
    var s := kids[p][j];
    KidUnder(nodes, kids, rank, p, j);
    forall x | x in Sub(nodes, rank, s) ensures Same(nodes, bufs, kids, nodes', bufs', kids', x) {
      UnderTrans(nodes, rank, x, s, p);
      if Under(nodes, rank, x, d) {
        UnderTrans(nodes, rank, x, d, kids[p][i]);
        SiblingsDisjoint(nodes, kids, rank, p, i, j, x);
      }
    }
    hide Same, Under;
    TreeSame(nodes, bufs, kids, rank, nodes', bufs', kids', rank', s);
  }

  // ----- the operations as operations on trees

  function Parts(t: Tree, kids: seq<Tree>): Tree { Node(t.name, t.isDir, t.data, kids) }

  /** The tree changed at the given path only, from t to t'. */
  ghost predicate ChangedAt(whole: Tree, whole': Tree, path: seq<nat>, t: Tree, t': Tree) {
    SubtreeAt(whole, path) == t && whole' == ReplaceAt(whole, path, t')
  }

  /** Everything but d and what is below it as before: the whole tree changed at the path to d. */
  lemma ChangedBelow(nodes: Nodes, bufs: Bufs, kids: Kids, rank: Rank,
                     nodes': Nodes, bufs': Bufs, kids': Kids, rank': Rank, root: nat, d: nat, path: seq<nat>)
    requires TreeOk(nodes, bufs, kids, rank, root, d) && TreeOk(nodes', bufs', kids', rank', root, d)
    requires forall x :: x in nodes && x !in Sub(nodes, rank, d) ==> Same(nodes, bufs, kids, nodes', bufs', kids', x)
    requires Follow(kids, root, path) == d
    ensures Follow(kids', root, path) == d
    ensures ChangedAt(TreeOf(nodes, bufs, kids, rank, root), TreeOf(nodes', bufs', kids', rank', root), path,
                      TreeOf(nodes, bufs, kids, rank, d), TreeOf(nodes', bufs', kids', rank', d))
  {
    assert forall x :: x in Sub(nodes, rank, root) ==> x in nodes;
    hide Links, Rooted, RootOk, DataOk, NodesOk, Same, Sub;
    OnlyAt(nodes, bufs, kids, rank, nodes', bufs', kids', rank', root, path, d);
    PathKept(nodes, bufs, kids, rank, nodes', bufs', kids', root, path, d);
  }

  /** The path to d goes through nodes outside its subtree only. */
  lemma {:induction false} PathKept(nodes: Nodes, bufs: Bufs, kids: Kids, rank: Rank, nodes': Nodes, bufs': Bufs,
                                    kids': Kids,
                                    p: nat, path: seq<nat>, d: nat)
    requires Links(nodes, kids, rank) && p in nodes && d in nodes && Follow(kids, p, path) == d
    requires forall x :: x in Sub(nodes, rank, p) && x !in Sub(nodes, rank, d) ==>
               Same(nodes, bufs, kids, nodes', bufs', kids', x)
    ensures Follow(kids', p, path) == d
    decreases path
  {
    if path != [] {
      var c := kids[p][path[0]];
      KidUnder(nodes, kids, rank, p, path[0]);
      AboveChanged(nodes, kids, rank, p, path, d);
      forall x | x in Sub(nodes, rank, c) ensures x in Sub(nodes, rank, p) { UnderTrans(nodes, rank, x, c, p); }
      PathKept(nodes, bufs, kids, rank, nodes', bufs', kids', c, path[1..], d);
    }
  }

  /** A child of d whose subtree is as before. */
  lemma ChildKept(nodes: Nodes, bufs: Bufs, kids: Kids, rank: Rank,
                  nodes': Nodes, bufs': Bufs, kids': Kids, rank': Rank, d: nat, j: nat, but: set<nat>)
    requires Links(nodes, kids, rank) && Links(nodes', kids', rank') && d in nodes && j < |kids[d]|
    requires forall x :: x in nodes && x != d && x !in but ==> Same(nodes, bufs, kids, nodes', bufs', kids', x)
    requires but !! Sub(nodes, rank, kids[d][j])
    ensures kids[d][j] in nodes && kids[d][j] in nodes'
    ensures TreeOf(nodes', bufs', kids', rank', kids[d][j]) == TreeOf(nodes, bufs, kids, rank, kids[d][j])
  {
    KidUnder(nodes, kids, rank, d, j);
    NotAboveItself(nodes, kids, rank, d, j);
    forall x | x in Sub(nodes, rank, kids[d][j]) ensures Same(nodes, bufs, kids, nodes', bufs', kids', x) {
      assert x != d;
    }
    hide Same, Under;
    TreeSame(nodes, bufs, kids, rank, nodes', bufs', kids', rank', kids[d][j]);
  }

  /** fs_mkdir and fs_create_file: the current directory gets one more child, in front. */
  lemma GrownTree(nodes: Nodes, bufs: Bufs, kids: Kids, rank: Rank, nodes': Nodes, kids': Kids, rank': Rank,
                  root: nat, d: nat, c: nat, name: string, isDir: bool, path: seq<nat>)
    requires TreeOk(nodes, bufs, kids, rank, root, d) && TreeOk(nodes', bufs, kids', rank', root, d)
    requires Grown(nodes, nodes', kids, kids', d, c, Fresh(name, isDir))
    requires Follow(kids, root, path) == d
    ensures Follow(kids', root, path) == d
    ensures var t := TreeOf(nodes, bufs, kids, rank, d);
            ChangedAt(TreeOf(nodes, bufs, kids, rank, root), TreeOf(nodes', bufs, kids', rank', root), path,
                      t, Parts(t, [Node(Clip(name), isDir, [], [])] + t.kids))
  {
    OthersSame(nodes, bufs, kids, rank, nodes', kids', d, c, Fresh(name, isDir));
    assert d in Sub(nodes, rank, d);
    hide Same, Grown, Sub, Under, Rooted, DataOk, NodesOk, RootOk;
    ChangedBelow(nodes, bufs, kids, rank, nodes', bufs, kids', rank', root, d, path);
    hide Links, ChangedAt, SubtreeAt, ReplaceAt, Follow;
    GrownHere(nodes, bufs, kids, rank, nodes', kids', rank', root, d, c, name, isDir);
  }

  lemma OthersSame(nodes: Nodes, bufs: Bufs, kids: Kids, rank: Rank, nodes': Nodes, kids': Kids, d: nat, c: nat,
                   node: FsNode)
    requires Links(nodes, kids, rank) && Grown(nodes, nodes', kids, kids', d, c, node)
    ensures forall x :: x in nodes && x != d ==> Same(nodes, bufs, kids, nodes', bufs, kids', x)
    ensures d in nodes' && c in nodes' && kids'[d] == [c] + kids[d] && kids'[c] == []
    ensures nodes'[d].name == nodes[d].name && nodes'[d].isDir == nodes[d].isDir && nodes'[d].data == nodes[d].data
    ensures nodes'[c].name == node.name && nodes'[c].isDir == node.isDir && nodes'[c].data == node.data
  {}

  lemma GrownHere(nodes: Nodes, bufs: Bufs, kids: Kids, rank: Rank, nodes': Nodes, kids': Kids, rank': Rank,
                  root: nat, d: nat, c: nat, name: string, isDir: bool)
    requires TreeOk(nodes, bufs, kids, rank, root, d) && TreeOk(nodes', bufs, kids', rank', root, d)
    requires Grown(nodes, nodes', kids, kids', d, c, Fresh(name, isDir))
    ensures var t := TreeOf(nodes, bufs, kids, rank, d);
            TreeOf(nodes', bufs, kids', rank', d) == Parts(t, [Node(Clip(name), isDir, [], [])] + t.kids)
  {
    OthersSame(nodes, bufs, kids, rank, nodes', kids', d, c, Fresh(name, isDir));
    assert 0 !in bufs;
    hide Grown, Rooted, DataOk, NodesOk, RootOk, Same, Links, TreeOf;
    var t, leaf := TreeOf(nodes, bufs, kids, rank, d), Node(Clip(name), isDir, [], []);
    NewLeaf(nodes', bufs, kids', rank', c, leaf);
    OldChildren(nodes, bufs, kids, rank, nodes', kids', rank', d, c);
    WithFirst(nodes, nodes', bufs, kids, rank, kids', rank', d, c, leaf);
  }

  lemma OldChildren(nodes: Nodes, bufs: Bufs, kids: Kids, rank: Rank, nodes': Nodes, kids': Kids, rank': Rank,
                    d: nat, c: nat)
    requires Links(nodes, kids, rank) && Links(nodes', kids', rank') && d in nodes
    requires forall x :: x in nodes && x != d ==> Same(nodes, bufs, kids, nodes', bufs, kids', x)
    ensures |TreeOf(nodes, bufs, kids, rank, d).kids| == |kids[d]|
    ensures forall j :: 0 <= j < |kids[d]| ==>
              kids[d][j] in nodes'
              && TreeOf(nodes, bufs, kids, rank, d).kids[j] == TreeOf(nodes', bufs, kids', rank', kids[d][j])
  {
    KidTrees(nodes, bufs, kids, rank, d);
    hide Links, Same, TreeOf, Sub, Under;
    forall j | 0 <= j < |kids[d]|
      ensures kids[d][j] in nodes'
      ensures TreeOf(nodes, bufs, kids, rank, d).kids[j] == TreeOf(nodes', bufs, kids', rank', kids[d][j])
    {
      ChildKept(nodes, bufs, kids, rank, nodes', bufs, kids', rank', d, j, {});
    }
  }

  lemma WithFirst(nodes: Nodes, nodes': Nodes, bufs: Bufs, kids: Kids, rank: Rank, kids': Kids, rank': Rank, d: nat,
                  c: nat, leaf: Tree)
    requires Links(nodes, kids, rank) && Links(nodes', kids', rank') && d in nodes && d in nodes' && c in nodes'
    requires kids'[d] == [c] + kids[d] && TreeOf(nodes', bufs, kids', rank', c) == leaf
    requires nodes'[d].name == nodes[d].name && nodes'[d].isDir == nodes[d].isDir && nodes'[d].data == nodes[d].data
    requires |TreeOf(nodes, bufs, kids, rank, d).kids| == |kids[d]|
    requires forall j :: 0 <= j < |kids[d]| ==>
               kids[d][j] in nodes'
               && TreeOf(nodes, bufs, kids, rank, d).kids[j] == TreeOf(nodes', bufs, kids', rank', kids[d][j])
    ensures var t := TreeOf(nodes, bufs, kids, rank, d);
            TreeOf(nodes', bufs, kids', rank', d) == Parts(t, [leaf] + t.kids)
  {
    var t := TreeOf(nodes, bufs, kids, rank, d);
    var ts := [leaf] + t.kids;
    hide TreesFrom, Links;
    forall j | 0 <= j < |kids'[d]|
      ensures kids'[d][j] in nodes' && ts[j] == TreeOf(nodes', bufs, kids', rank', kids'[d][j])
    {
      if j > 0 { assert kids'[d][j] == kids[d][j - 1] && ts[j] == t.kids[j - 1]; }
    }
    TreeFromParts(nodes', bufs, kids', rank', d, Parts(t, ts));
  }

  lemma NewLeaf(nodes: Nodes, bufs: Bufs, kids: Kids, rank: Rank, c: nat, leaf: Tree)
    requires Links(nodes, kids, rank) && c in nodes && kids[c] == [] && leaf.kids == [] && leaf.data == []
    requires leaf.name == nodes[c].name && leaf.isDir == nodes[c].isDir && nodes[c].data !in bufs
    ensures TreeOf(nodes, bufs, kids, rank, c) == leaf
  {
    TreeFromParts(nodes, bufs, kids, rank, c, leaf);
  }

  /** fs_write_file: one file of the current directory has new content. */
  lemma WroteTree(nodes: Nodes, bufs: Bufs, kids: Kids, rank: Rank, nodes': Nodes, bufs': Bufs,
                  root: nat, d: nat, k: nat, p: nat, bytes: seq<Byte>, path: seq<nat>)
    requires TreeOk(nodes, bufs, kids, rank, root, d) && TreeOk(nodes', bufs', kids, rank, root, d)
    requires k < |KidsAt(kids, d)|
    requires var f := KidsAt(kids, d)[k];
             f in nodes && !nodes[f].isDir && Wrote(nodes, bufs, nodes', bufs', f, p, bytes)
    requires Follow(kids, root, path) == d
    ensures var t := TreeOf(nodes, bufs, kids, rank, d);
            && k < |t.kids| && t.kids[k].kids == []
            && ChangedAt(TreeOf(nodes, bufs, kids, rank, root), TreeOf(nodes', bufs', kids, rank, root), path,
                         t, Parts(t, t.kids[k := Node(t.kids[k].name, false, bytes, [])]))
  {
    var f := KidsAt(kids, d)[k];
    WroteSame(nodes, bufs, kids, rank, nodes', bufs', f, p, bytes);
    KidUnder(nodes, kids, rank, d, k);
    assert f in Sub(nodes, rank, d);
    WroteHere(nodes, bufs, kids, rank, nodes', bufs', root, d, k, p, bytes);
    hide Same, Wrote, Sub, Under, Rooted, DataOk, NodesOk, RootOk;
    ChangedBelow(nodes, bufs, kids, rank, nodes', bufs', kids, rank, root, d, path);
    hide Links, ChangedAt, SubtreeAt, ReplaceAt, Follow;
  }

  lemma WroteSame(nodes: Nodes, bufs: Bufs, kids: Kids, rank: Rank, nodes': Nodes, bufs': Bufs, f: nat, p: nat,
                  bytes: seq<Byte>)
    requires Links(nodes, kids, rank) && NodesOk(nodes, kids) && Wrote(nodes, bufs, nodes', bufs', f, p, bytes)
    ensures forall x :: x in nodes && x != f ==> Same(nodes, bufs, kids, nodes', bufs', kids, x)
    ensures f in nodes' && nodes'[f].name == nodes[f].name && nodes'[f].isDir == nodes[f].isDir
    ensures Content(nodes'[f], bufs') == bytes && (!nodes[f].isDir ==> kids[f] == [])
  {
    hide Content, Refilled;
  }

  lemma WroteHere(nodes: Nodes, bufs: Bufs, kids: Kids, rank: Rank, nodes': Nodes, bufs': Bufs,
                  root: nat, d: nat, k: nat, p: nat, bytes: seq<Byte>)
    requires TreeOk(nodes, bufs, kids, rank, root, d) && TreeOk(nodes', bufs', kids, rank, root, d)
    requires k < |KidsAt(kids, d)|
    requires var f := KidsAt(kids, d)[k];
             f in nodes && !nodes[f].isDir && Wrote(nodes, bufs, nodes', bufs', f, p, bytes)
    ensures var t := TreeOf(nodes, bufs, kids, rank, d);
            && k < |t.kids| && t.kids[k].kids == []
            && TreeOf(nodes', bufs', kids, rank, d) == Parts(t, t.kids[k := Node(t.kids[k].name, false, bytes, [])])
  {
    var f := KidsAt(kids, d)[k];
    WroteSame(nodes, bufs, kids, rank, nodes', bufs', f, p, bytes);
    KidUnder(nodes, kids, rank, d, k);
    KidTrees(nodes, bufs, kids, rank, d);
    KidTrees(nodes, bufs, kids, rank, f);
    hide Wrote, Rooted, DataOk, NodesOk, RootOk, TreesFrom, Content;
    var t := TreeOf(nodes, bufs, kids, rank, d);
    var file := Node(nodes[f].name, false, bytes, []);
    TreeFromParts(nodes', bufs', kids, rank, f, file);
    forall j | 0 <= j < |kids[d]| && j != k
      ensures kids[d][j] in nodes' && t.kids[j] == TreeOf(nodes', bufs', kids, rank, kids[d][j])
    {
      WroteSibling(nodes, kids, rank, d, j, k);
      ChildKept(nodes, bufs, kids, rank, nodes', bufs', kids, rank, d, j, {f});
    }
    assert t.kids[k].name == nodes[f].name;
    DirectoryKept(nodes, bufs, kids, rank, nodes', bufs', d, k);
    hide Links, Same, Sub, Under;
    TreeFromParts(nodes', bufs', kids, rank, d, Parts(t, t.kids[k := file]));
  }

  lemma WroteSibling(nodes: Nodes, kids: Kids, rank: Rank, d: nat, j: nat, k: nat)
    requires Links(nodes, kids, rank) && d in nodes && j < |kids[d]| && k < |kids[d]| && j != k
    ensures {kids[d][k]} !! Sub(nodes, rank, kids[d][j])
  {
    KidUnder(nodes, kids, rank, d, k);
    SiblingsDisjoint(nodes, kids, rank, d, k, j, kids[d][k]);
  }

  lemma DirectoryKept(nodes: Nodes, bufs: Bufs, kids: Kids, rank: Rank, nodes': Nodes, bufs': Bufs, d: nat, k: nat)
    requires Links(nodes, kids, rank) && d in nodes && k < |kids[d]|
    requires forall x :: x in nodes && x != kids[d][k] ==> Same(nodes, bufs, kids, nodes', bufs', kids, x)
    ensures Same(nodes, bufs, kids, nodes', bufs', kids, d)
  {
    KidUnder(nodes, kids, rank, d, k);
  }

  /** fs_rm: one child of the current directory is gone with everything below it. */
  lemma CutTree(nodes: Nodes, bufs: Bufs, kids: Kids, rank: Rank, nodes': Nodes, bufs': Bufs, kids': Kids, rank': Rank,
                root: nat, d: nat, k: nat, path: seq<nat>)
    requires TreeOk(nodes, bufs, kids, rank, root, d) && TreeOk(nodes', bufs', kids', rank', root, d)
    requires Cut(nodes, bufs, kids, d, k, rank, nodes', bufs', kids')
    requires Follow(kids, root, path) == d
    ensures Follow(kids', root, path) == d
    ensures var t := TreeOf(nodes, bufs, kids, rank, d);
            && k < |t.kids|
            && ChangedAt(TreeOf(nodes, bufs, kids, rank, root), TreeOf(nodes', bufs', kids', rank', root), path,
                         t, Parts(t, t.kids[..k] + t.kids[k + 1..]))
  {
    CutSame(nodes, bufs, kids, rank, nodes', bufs', kids', d, k);
    KidUnder(nodes, kids, rank, d, k);
    SubShrinks(nodes, kids, rank, d, k);
    assert d in Sub(nodes, rank, d);
    CutHere(nodes, bufs, kids, rank, nodes', bufs', kids', rank', root, d, k);
    hide Same, Cut, Sub, Under, Rooted, DataOk, NodesOk, RootOk;
    ChangedBelow(nodes, bufs, kids, rank, nodes', bufs', kids', rank', root, d, path);
    hide Links, ChangedAt, SubtreeAt, ReplaceAt, Follow;
  }

  lemma CutSame(nodes: Nodes, bufs: Bufs, kids: Kids, rank: Rank, nodes': Nodes, bufs': Bufs, kids': Kids, d: nat,
                k: nat)
    requires Links(nodes, kids, rank) && DataOk(nodes, bufs) && d in nodes
    requires Cut(nodes, bufs, kids, d, k, rank, nodes', bufs', kids')
    ensures forall x :: x in nodes && x != d && x !in Sub(nodes, rank, kids[d][k]) ==>
              Same(nodes, bufs, kids, nodes', bufs', kids', x)
    ensures d in nodes' && d in kids' && kids'[d] == kids[d][..k] + kids[d][k + 1..]
    ensures nodes'[d].name == nodes[d].name && nodes'[d].isDir == nodes[d].isDir
    ensures Content(nodes'[d], bufs') == Content(nodes[d], bufs)
  {
    PrunedKeys(nodes, kids, rank, d, k);
    NotAboveItself(nodes, kids, rank, d, k);
    var gone := Sub(nodes, rank, kids[d][k]);
    assert kids' == KidsCut(kids, d, k) - gone;
    assert d !in gone;
    hide Pruned, PrunedKids, Links, Sub, Under;
    forall x | x in nodes && x !in gone ensures Content(nodes'[x], bufs') == Content(nodes[x], bufs) {
      KeptContent(nodes, bufs, nodes', gone, x);
    }
    hide DataOk, Content, DataOf;
  }

  lemma KeptContent(nodes: Nodes, bufs: Bufs, nodes': Nodes, gone: set<nat>, x: nat)
    requires DataOk(nodes, bufs) && x in nodes && x !in gone && x in nodes' && nodes'[x].data == nodes[x].data
    ensures Content(nodes'[x], bufs - DataOf(nodes, gone)) == Content(nodes[x], bufs)
  {
    assert DataAt(nodes[x], bufs);
    assert nodes[x].data in bufs ==> nodes[x].data !in DataOf(nodes, gone);
  }

  lemma CutHere(nodes: Nodes, bufs: Bufs, kids: Kids, rank: Rank, nodes': Nodes, bufs': Bufs, kids': Kids, rank': Rank,
                root: nat, d: nat, k: nat)
    requires TreeOk(nodes, bufs, kids, rank, root, d) && TreeOk(nodes', bufs', kids', rank', root, d)
    requires Cut(nodes, bufs, kids, d, k, rank, nodes', bufs', kids')
    ensures var t := TreeOf(nodes, bufs, kids, rank, d);
            k < |t.kids| && TreeOf(nodes', bufs', kids', rank', d) == Parts(t, t.kids[..k] + t.kids[k + 1..])
  {
    CutSame(nodes, bufs, kids, rank, nodes', bufs', kids', d, k);
    KidTrees(nodes, bufs, kids, rank, d);
    hide Cut, Rooted, DataOk, NodesOk, RootOk, TreesFrom, Content, Same, Sub, Under;
    var t := TreeOf(nodes, bufs, kids, rank, d);
    var ts := t.kids[..k] + t.kids[k + 1..];
    forall j | 0 <= j < |kids'[d]|
      ensures kids'[d][j] in nodes' && ts[j] == TreeOf(nodes', bufs', kids', rank', kids'[d][j])
    {
      CutChild(nodes, bufs, kids, rank, nodes', bufs', kids', rank', d, k, j, t, ts);
    }
    hide Links;
    TreeFromParts(nodes', bufs', kids', rank', d, Parts(t, ts));
  }

  lemma CutChild(nodes: Nodes, bufs: Bufs, kids: Kids, rank: Rank, nodes': Nodes, bufs': Bufs, kids': Kids, rank': Rank,
                 d: nat, k: nat, j: nat, t: Tree, ts: seq<Tree>)
    requires Links(nodes, kids, rank) && Links(nodes', kids', rank') && d in nodes && k < |kids[d]|
    requires forall x :: x in nodes && x != d && x !in Sub(nodes, rank, kids[d][k]) ==>
               Same(nodes, bufs, kids, nodes', bufs', kids', x)
    requires d in nodes' && d in kids' && kids'[d] == kids[d][..k] + kids[d][k + 1..] && j < |kids'[d]|
    requires |t.kids| == |kids[d]| && ts == t.kids[..k] + t.kids[k + 1..]
    requires t == TreeOf(nodes, bufs, kids, rank, d)
    ensures kids'[d][j] in nodes' && ts[j] == TreeOf(nodes', bufs', kids', rank', kids'[d][j])
  {
    hide Sub, Under, Same;
    var i := if j < k then j else j + 1;
    assert kids'[d][j] == kids[d][i] && ts[j] == t.kids[i];
    KidTrees(nodes, bufs, kids, rank, d);
    CutSibling(nodes, kids, rank, d, i, k);
    hide TreeOf, TreesFrom;
    ChildKept(nodes, bufs, kids, rank, nodes', bufs', kids', rank', d, i, Sub(nodes, rank, kids[d][k]));
  }

  lemma CutSibling(nodes: Nodes, kids: Kids, rank: Rank, d: nat, i: nat, k: nat)
    requires Links(nodes, kids, rank) && d in nodes && i < |kids[d]| && k < |kids[d]| && i != k
    ensures Sub(nodes, rank, kids[d][k]) !! Sub(nodes, rank, kids[d][i])
  {
    forall x | x in Sub(nodes, rank, kids[d][k]) ensures x !in Sub(nodes, rank, kids[d][i]) {
      SiblingsDisjoint(nodes, kids, rank, d, k, i, x);
    }
  }
}
