/** What linked nodes in memory stand for: one tree or none, and for the nodes a boot makes exactly when. */
module FsStands {
  import opened Common
  import opened FsCodec
  import opened FsLinks
  import opened FsState
  import opened FsLoad
  import opened FsTrees

  // ----- one node for every used entry

  /** The tree of a valid state has as many nodes as are allocated. */
  lemma TreeCountsNodes(nodes: Nodes, bufs: Bufs, kids: Kids, rank: Rank, root: nat, dir: nat)
    requires TreeOk(nodes, bufs, kids, rank, root, dir)
    ensures Size(TreeOf(nodes, bufs, kids, rank, root)) == |nodes|
  {
    hide DataOk, NodesOk, RootOk;
    SubtreeCounts(nodes, bufs, kids, rank, root, root);
    forall x | x in nodes ensures x in Sub(nodes, rank, root) { UnderRoot(nodes, kids, rank, root, x); }
    assert Sub(nodes, rank, root) == nodes.Keys;
  }

  lemma {:induction false} UnderRoot(nodes: Nodes, kids: Kids, rank: Rank, root: nat, x: nat)
    requires Links(nodes, kids, rank) && Rooted(nodes, kids, root) && x in nodes
    ensures Under(nodes, rank, x, root)
    decreases rank[x]
  {
    if x != root {
      assert Hangs(nodes, kids, x);
      var q := nodes[x].parent;
      var i :| 0 <= i < |kids[q]| && kids[q][i] == x;
      KidUnder(nodes, kids, rank, q, i);
      UnderRoot(nodes, kids, rank, root, q);
    }
  }

  /** Nodes at or below p, and at or below its first i children. */
  ghost function CountUnder(nodes: Nodes, rank: Rank, p: nat): nat { |Sub(nodes, rank, p)| }

  ghost function CountFirst(nodes: Nodes, kids: Kids, rank: Rank, p: nat, i: nat): nat
    requires p in kids && i <= |kids[p]|
  {
    |Freed(nodes, kids, rank, p, i)|
  }

  lemma CountsAdd(nodes: Nodes, kids: Kids, rank: Rank, root: nat, p: nat)
    requires Links(nodes, kids, rank) && Rooted(nodes, kids, root) && p in nodes
    ensures p in kids && CountFirst(nodes, kids, rank, p, 0) == 0
    ensures CountUnder(nodes, rank, p) == CountFirst(nodes, kids, rank, p, |kids[p]|) + 1
  {
    AllFreed(nodes, kids, rank, root, p);
    hide Links, Rooted, Sub;
  }

  lemma NextCount(nodes: Nodes, kids: Kids, rank: Rank, p: nat, i: nat)
    requires Links(nodes, kids, rank) && p in nodes && i < |kids[p]|
    ensures kids[p][i] in nodes && CountUnder(nodes, rank, kids[p][i]) < CountUnder(nodes, rank, p)
    ensures CountFirst(nodes, kids, rank, p, i + 1)
         == CountFirst(nodes, kids, rank, p, i) + CountUnder(nodes, rank, kids[p][i])
  {
    KidUnder(nodes, kids, rank, p, i);
    NextUntouched(nodes, kids, rank, p, i);
    ProperSubsetCount(Sub(nodes, rank, kids[p][i]), Sub(nodes, rank, p));
    hide Links, Sub, Under;
  }

  lemma {:induction false} SubtreeCounts(nodes: Nodes, bufs: Bufs, kids: Kids, rank: Rank, root: nat, p: nat)
    requires Links(nodes, kids, rank) && Rooted(nodes, kids, root) && p in nodes
    ensures Size(TreeOf(nodes, bufs, kids, rank, p)) == CountUnder(nodes, rank, p)
    decreases CountUnder(nodes, rank, p), |kids[p]| + 1
  {
    CountsAdd(nodes, kids, rank, root, p);
    hide Links, Rooted, CountUnder, CountFirst, TreeOf, TreesFrom;
    ForestCounts(nodes, bufs, kids, rank, root, p, 0);
    OneTree(nodes, bufs, kids, rank, p);
  }

  /** The trees of the children from position i on have as many nodes as their subtrees. */
  lemma {:induction false} ForestCounts(nodes: Nodes, bufs: Bufs, kids: Kids, rank: Rank, root: nat, p: nat, i: nat)
    requires Links(nodes, kids, rank) && Rooted(nodes, kids, root) && p in nodes && p in kids && i <= |kids[p]|
    ensures SizeAll(TreesFrom(nodes, bufs, kids, rank, p, i)) + CountFirst(nodes, kids, rank, p, i)
         == CountFirst(nodes, kids, rank, p, |kids[p]|)
    decreases CountUnder(nodes, rank, p), |kids[p]| - i
  {
    hide Links, Rooted, CountUnder, CountFirst, TreeOf, TreesFrom;
    if i < |kids[p]| {
      NextCount(nodes, kids, rank, p, i);
      ForestCounts(nodes, bufs, kids, rank, root, p, i + 1);
      SubtreeCounts(nodes, bufs, kids, rank, root, kids[p][i]);
      FirstTree(nodes, bufs, kids, rank, p, i);
    } else {
      NoTreesLeft(nodes, bufs, kids, rank, p);
    }
  }

  lemma OneTree(nodes: Nodes, bufs: Bufs, kids: Kids, rank: Rank, p: nat)
    requires Links(nodes, kids, rank) && p in nodes
    ensures Size(TreeOf(nodes, bufs, kids, rank, p)) == 1 + SizeAll(TreesFrom(nodes, bufs, kids, rank, p, 0))
  {
    hide Links, Content, Sub;
  }

  lemma NoTreesLeft(nodes: Nodes, bufs: Bufs, kids: Kids, rank: Rank, p: nat)
    requires Links(nodes, kids, rank) && p in nodes
    ensures SizeAll(TreesFrom(nodes, bufs, kids, rank, p, |kids[p]|)) == 0
  {}

  lemma FirstTree(nodes: Nodes, bufs: Bufs, kids: Kids, rank: Rank, p: nat, i: nat)
    requires Links(nodes, kids, rank) && p in nodes && i < |kids[p]| && kids[p][i] in nodes
    ensures SizeAll(TreesFrom(nodes, bufs, kids, rank, p, i))
         == Size(TreeOf(nodes, bufs, kids, rank, kids[p][i])) + SizeAll(TreesFrom(nodes, bufs, kids, rank, p, i + 1))
  {
    var ts := TreesFrom(nodes, bufs, kids, rank, p, i);
    assert ts[0] == TreeOf(nodes, bufs, kids, rank, kids[p][i]);
    assert ts[1..] == TreesFrom(nodes, bufs, kids, rank, p, i + 1);
    hide Links, TreeOf, TreesFrom, Sub, Under;
  }

  // ----- what linked nodes stand for

  ghost predicate StandsAs(nodes: Nodes, bufs: Bufs, kids: Kids, rank: Rank, root: nat, dir: nat, w: Tree) {
    TreeOk(nodes, bufs, kids, rank, root, dir) && TreeOf(nodes, bufs, kids, rank, root) == w
  }

  /** The linked nodes are a valid state with this tree. */
  ghost predicate Stands(nodes: Nodes, bufs: Bufs, root: nat, dir: nat, w: Tree) {
    exists kids: Kids, rank: Rank :: StandsAs(nodes, bufs, kids, rank, root, dir, w)
  }

  /** The links determine the child lists. */
  lemma {:induction false} SameChain(nodes: Nodes, kids: Kids, rank: Rank, kids': Kids, rank': Rank, p: nat, i: nat)
    requires Links(nodes, kids, rank) && Links(nodes, kids', rank') && p in nodes && i <= |kids[p]|
    ensures i <= |kids'[p]| && kids[p][..i] == kids'[p][..i]
    decreases i
  {
    if i > 0 {
      SameChain(nodes, kids, rank, kids', rank', p, i - 1);
      KidUnder(nodes, kids, rank, p, i - 1);
      assert KidsOk(nodes, kids, rank, p) && KidsOk(nodes, kids', rank', p);
      if i > 1 {
        KidUnder(nodes, kids, rank, p, i - 2);
        KidUnder(nodes, kids', rank', p, i - 2);
        assert kids[p][..i - 1][i - 2] == kids'[p][..i - 1][i - 2];
      }
      hide Links, KidAt, Under;
      assert kids[p][..i] == kids[p][..i - 1] + [kids[p][i - 1]];
      assert kids'[p][..i] == kids'[p][..i - 1] + [kids'[p][i - 1]];
    }
  }

  lemma KidsUnique(nodes: Nodes, kids: Kids, rank: Rank, kids': Kids, rank': Rank)
    requires Links(nodes, kids, rank) && Links(nodes, kids', rank')
    ensures kids == kids'
  {
    forall p | p in nodes ensures kids[p] == kids'[p] {
      SameChain(nodes, kids, rank, kids', rank', p, |kids[p]|);
      SameChain(nodes, kids', rank', kids, rank, p, |kids'[p]|);
      assert kids[p] == kids[p][..|kids[p]|];
    }
  }

  lemma TreeUnique(nodes: Nodes, bufs: Bufs, kids: Kids, rank: Rank, kids': Kids, rank': Rank, p: nat)
    requires Links(nodes, kids, rank) && Links(nodes, kids', rank') && p in nodes
    ensures TreeOf(nodes, bufs, kids', rank', p) == TreeOf(nodes, bufs, kids, rank, p)
  {
    KidsUnique(nodes, kids, rank, kids', rank');
    assert forall x :: x in Sub(nodes, rank, p) ==> Same(nodes, bufs, kids, nodes, bufs, kids', x);
    hide Links, Sub, Same;
    TreeSame(nodes, bufs, kids, rank, nodes, bufs, kids', rank', p);
  }

  /** A valid state stands for its own tree and no other. */
  lemma StandsOnlyFor(nodes: Nodes, bufs: Bufs, kids: Kids, rank: Rank, root: nat, dir: nat, w: Tree)
    requires TreeOk(nodes, bufs, kids, rank, root, dir)
    ensures Stands(nodes, bufs, root, dir, w) <==> TreeOf(nodes, bufs, kids, rank, root) == w
  {
    hide DataOk, NodesOk, Rooted;
    if Stands(nodes, bufs, root, dir, w) {
      var kids', rank' :| StandsAs(nodes, bufs, kids', rank', root, dir, w);
      TreeUnique(nodes, bufs, kids, rank, kids', rank', root);
    }
    if TreeOf(nodes, bufs, kids, rank, root) == w {
      assert StandsAs(nodes, bufs, kids, rank, root, dir, w);
    }
  }

  /** A state stands for trees with as many nodes as it has only. */
  lemma StandsByCount(nodes: Nodes, bufs: Bufs, root: nat, dir: nat, w: Tree)
    requires Stands(nodes, bufs, root, dir, w)
    ensures Size(w) == |nodes|
  {
    var kids, rank :| StandsAs(nodes, bufs, kids, rank, root, dir, w);
    TreeCountsNodes(nodes, bufs, kids, rank, root, dir);
  }

  // ----- the nodes a boot makes

  /** Nodes with a smaller rank. */
  ghost function Lower(nodes: Nodes, rank: Rank, x: nat): set<nat> {
    set y | y in nodes && y in rank && x in rank && rank[y] < rank[x]
  }

  /** How many entries have a node. */
  function NonNull(m: seq<nat>): (n: nat)
    ensures n <= |m|
  {
    if m == [] then 0 else (if m[0] != 0 then 1 else 0) + NonNull(m[1..])
  }

  ghost function NodeSet(m: seq<nat>): set<nat> { set x | x in m && x != 0 }

  lemma {:induction false} NodeSetCount(m: seq<nat>)
    requires forall i, j :: 0 <= i < j < |m| && m[i] != 0 ==> m[i] != m[j]
    ensures |NodeSet(m)| == NonNull(m)
  {
    if m != [] {
      NodeSetCount(m[1..]);
      NodeSetCons(m[0], m[1..]);
      assert m == [m[0]] + m[1..];
      hide NodeSet;
    }
  }

  lemma NodeSetCons(x: nat, m: seq<nat>)
    ensures x != 0 ==> NodeSet([x] + m) == NodeSet(m) + {x} && (x !in m ==> |NodeSet([x] + m)| == |NodeSet(m)| + 1)
    ensures x == 0 ==> NodeSet([x] + m) == NodeSet(m)
  {
    if x != 0 {
      assert NodeSet([x] + m) == NodeSet(m) + {x};
    } else {
      assert NodeSet([x] + m) == NodeSet(m);
    }
  }

  /** There are as many nodes as entries that have one. */
  lemma LoadedCount(nodes: Nodes, bufs: Bufs, rs: seq<Rec>, m: seq<nat>, da: seq<nat>)
    requires Finished(nodes, bufs, rs, m, da)
    ensures |nodes| == NonNull(m)
  {
    forall x | x in nodes ensures x in NodeSet(m) { var j := SomeNode(nodes, bufs, rs, m, da, x); }
    forall x | x in NodeSet(m) ensures x in nodes {
      var j :| 0 <= j < |m| && m[j] == x;
      NodeAt(nodes, bufs, rs, m, da, j);
    }
    assert nodes.Keys == NodeSet(m);
    NodeSetCount(m);
  }

  lemma ParentRank(nodes: Nodes, bufs: Bufs, rs: seq<Rec>, m: seq<nat>, da: seq<nat>, kids: Kids, rank: Rank, j: nat)
    requires Finished(nodes, bufs, rs, m, da) && Links(nodes, kids, rank) && Rooted(nodes, kids, m[0])
    requires j < |rs| && m[j] != 0 && (j > 0 || rs[j].parent >= 0)
    ensures j > 0 && 0 <= rs[j].parent < |rs| && m[rs[j].parent] in kids && m[j] in kids[m[rs[j].parent]]
    ensures m[rs[j].parent] != 0 && m[rs[j].parent] in rank && m[j] in rank && rank[m[rs[j].parent]] < rank[m[j]]
  {
    assert SoundAt(rs, m, da, j);
    NodeAt(nodes, bufs, rs, m, da, j);
    NodeAt(nodes, bufs, rs, m, da, 0);
    hide Finished, HeadSlot;
    assert Hangs(nodes, kids, m[j]);
    var q := nodes[m[j]].parent;
    var i :| 0 <= i < |kids[q]| && kids[q][i] == m[j];
    KidUnder(nodes, kids, rank, q, i);
  }

  lemma {:induction false} EndsByRank(nodes: Nodes, bufs: Bufs, rs: seq<Rec>, m: seq<nat>, da: seq<nat>,
                                      kids: Kids, rank: Rank, j: nat, fuel: nat)
    requires Finished(nodes, bufs, rs, m, da) && Links(nodes, kids, rank) && Rooted(nodes, kids, m[0])
    requires j < |rs| && m[j] != 0 && |Lower(nodes, rank, m[j])| <= fuel
    ensures Ends(rs, j, fuel)
    decreases fuel
  {
    if rs[j].parent >= 0 {
      ParentRank(nodes, bufs, rs, m, da, kids, rank, j);
      var x, y := m[rs[j].parent], m[j];
      assert x in Lower(nodes, rank, y) && x !in Lower(nodes, rank, x);
      ProperSubsetCount(Lower(nodes, rank, x), Lower(nodes, rank, y));
      EndsByRank(nodes, bufs, rs, m, da, kids, rank, rs[j].parent, fuel - 1);
    }
  }

  /** Nodes that stand for a tree hang under the root, every one of them. */
  lemma StandsGrounded(nodes: Nodes, bufs: Bufs, rs: seq<Rec>, m: seq<nat>, da: seq<nat>, kids: Kids, rank: Rank,
                       dir: nat)
    requires Finished(nodes, bufs, rs, m, da) && TreeOk(nodes, bufs, kids, rank, m[0], dir)
    ensures Grounded(rs, m)
  {
    assert |rs| == |m| > 0 && m[0] != 0;
    hide Finished, Links, Rooted, DataOk, NodesOk;
    NodeData(nodes, bufs, rs, m, da, 0);
    forall j | 0 < j < |rs| && m[j] != 0 ensures HangsAt(rs, j) {
      StandsHangs(nodes, bufs, rs, m, da, kids, rank, dir, j);
    }
  }

  lemma StandsHangs(nodes: Nodes, bufs: Bufs, rs: seq<Rec>, m: seq<nat>, da: seq<nat>, kids: Kids, rank: Rank,
                    dir: nat, j: nat)
    requires Finished(nodes, bufs, rs, m, da) && TreeOk(nodes, bufs, kids, rank, m[0], dir)
    requires 0 < j < |rs| && m[j] != 0
    ensures HangsAt(rs, j)
  {
    ParentRank(nodes, bufs, rs, m, da, kids, rank, j);
    NodeData(nodes, bufs, rs, m, da, rs[j].parent);
    NodeAt(nodes, bufs, rs, m, da, j);
    LoadedCount(nodes, bufs, rs, m, da);
    assert |m| == |rs|;
    hide Finished, Links, Rooted, DataOk;
    assert m[j] !in Lower(nodes, rank, m[j]);
    ProperSubsetCount(Lower(nodes, rank, m[j]), nodes.Keys);
    assert |nodes.Keys| == |nodes|;
    EndsByRank(nodes, bufs, rs, m, da, kids, rank, j, |rs| - 1);
  }

  /** Exactly when the nodes a boot makes stand for a tree, whatever the records say: every record that is
      there hangs under the first, and unfolded from there the records spell the tree. */
  lemma StandsIff(nodes: Nodes, bufs: Bufs, rs: seq<Rec>, m: seq<nat>, da: seq<nat>, w: Tree)
    requires Finished(nodes, bufs, rs, m, da)
    ensures |rs| > 0 && |m| > 0 && (Stands(nodes, bufs, m[0], m[0], w) <==> Grounded(rs, m) && Unfold(rs, 0, |rs|) == w)
  {
    assert |rs| == |m| > 0;
    hide Finished, Grounded, Settled, Unfold, TreeOf, TreeOk, KidsFor, RankFor;
    if Stands(nodes, bufs, m[0], m[0], w) {
      var kids, rank :| StandsAs(nodes, bufs, kids, rank, m[0], m[0], w);
      StandsGrounded(nodes, bufs, rs, m, da, kids, rank, m[0]);
    }
    if Grounded(rs, m) {
      GroundedTreeIs(nodes, bufs, rs, m, da);
      StandsOnlyFor(nodes, bufs, KidsFor(rs, m, nodes), RankFor(rs, m, nodes), m[0], m[0], w);
    }
  }

  lemma GroundedTreeIs(nodes: Nodes, bufs: Bufs, rs: seq<Rec>, m: seq<nat>, da: seq<nat>)
    requires Finished(nodes, bufs, rs, m, da) && Grounded(rs, m)
    ensures Settled(rs)
    ensures TreeOk(nodes, bufs, KidsFor(rs, m, nodes), RankFor(rs, m, nodes), m[0], m[0])
    ensures TreeOf(nodes, bufs, KidsFor(rs, m, nodes), RankFor(rs, m, nodes), m[0]) == Unfold(rs, 0, |rs|)
  {
    GroundedOk(nodes, bufs, rs, m, da);
    hide Finished, Settled, Rooted, DataOk, NodesOk, KidsFor, RankFor;
    LoadedTree(nodes, bufs, rs, m, da, 0, |rs|);
  }
}
