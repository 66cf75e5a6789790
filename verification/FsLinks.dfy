/** The node graph of the file system: first-child / next-sibling / parent links as a tree. */
module FsLinks {
  import opened Common
  import opened FsCodec

  /** Pointers are addresses, 0 is NULL. */
  datatype FsNode = FsNode(name: string, isDir: bool, data: nat, size: nat, parent: nat, children: nat, next: nat)

  type Nodes = map<nat, FsNode>
  type Kids = map<nat, seq<nat>>
  type Rank = map<nat, nat>

  /** The child chain of p visits exactly kids[p], and each child points back. */
  ghost predicate KidsOk(nodes: Nodes, kids: Kids, rank: Rank, p: nat) {
    && p in nodes && p in kids && p in rank
    && nodes[p].children == AddrAt(kids[p], 0) && Distinct(kids[p])
    && forall i :: 0 <= i < |kids[p]| ==> KidAt(nodes, kids, rank, p, i)
  }

  ghost predicate KidAt(nodes: Nodes, kids: Kids, rank: Rank, p: nat, i: nat)
    requires p in kids && i < |kids[p]| && p in rank
  {
    var c := kids[p][i];
    && c in nodes && c in rank && nodes[c].parent == p
    && nodes[c].next == AddrAt(kids[p], i + 1) && rank[p] < rank[c]
  }

  ghost predicate Links(nodes: Nodes, kids: Kids, rank: Rank) {
    && kids.Keys == nodes.Keys && rank.Keys == nodes.Keys && 0 !in nodes
    && forall p :: p in nodes ==> KidsOk(nodes, kids, rank, p)
  }

  /** Every node but the root hangs under its parent. */
  ghost predicate Rooted(nodes: Nodes, kids: Kids, root: nat) {
    && root in nodes && nodes[root].parent == 0
    && forall c :: c in nodes && c != root ==> Hangs(nodes, kids, c)
  }

  ghost predicate Hangs(nodes: Nodes, kids: Kids, c: nat) {
    c in nodes && nodes[c].parent in kids && c in kids[nodes[c].parent]
  }

  /** x is a or lies below a. */
  ghost predicate Under(nodes: Nodes, rank: Rank, x: nat, a: nat)
    decreases if x in rank then rank[x] else 0
  {
    x == a ||
    (x in nodes && x in rank && nodes[x].parent in rank && rank[nodes[x].parent] < rank[x]
     && Under(nodes, rank, nodes[x].parent, a))
  }

  ghost function Sub(nodes: Nodes, rank: Rank, a: nat): set<nat> {
    set x | x in nodes && Under(nodes, rank, x, a)
  }

  // ----- the subtree relation

  lemma {:induction false} UnderRank(nodes: Nodes, rank: Rank, x: nat, a: nat)
    requires Under(nodes, rank, x, a) && x in rank && a in rank
    ensures rank[a] <= rank[x] && (rank[a] == rank[x] ==> x == a)
    decreases rank[x]
  {
    if x != a { UnderRank(nodes, rank, nodes[x].parent, a); }
  }

  lemma KidUnder(nodes: Nodes, kids: Kids, rank: Rank, p: nat, i: nat)
    requires Links(nodes, kids, rank) && p in nodes && i < |kids[p]|
    ensures var c := kids[p][i]; c in nodes && c != 0 && nodes[c].parent == p && rank[p] < rank[c]
    ensures nodes[kids[p][i]].next == AddrAt(kids[p], i + 1)
    ensures Under(nodes, rank, kids[p][i], p)
  {
    assert KidsOk(nodes, kids, rank, p);
    assert KidAt(nodes, kids, rank, p, i);
  }

  lemma {:induction false} UnderTrans(nodes: Nodes, rank: Rank, x: nat, b: nat, a: nat)
    requires Under(nodes, rank, x, b) && Under(nodes, rank, b, a)
    ensures Under(nodes, rank, x, a)
    decreases if x in rank then rank[x] else 0
  {
    if x != b && x != a { UnderTrans(nodes, rank, nodes[x].parent, b, a); }
  }

  /** Sibling subtrees are disjoint. */
  lemma {:induction false} SiblingsDisjoint(nodes: Nodes, kids: Kids, rank: Rank, p: nat, i: nat, j: nat, x: nat)
    requires Links(nodes, kids, rank) && p in nodes && i < |kids[p]| && j < |kids[p]| && i != j
    requires Under(nodes, rank, x, kids[p][i]) && x in nodes
    ensures !Under(nodes, rank, x, kids[p][j])
    decreases rank[x]
  {
    var b, c := kids[p][i], kids[p][j];
    KidUnder(nodes, kids, rank, p, i);
    KidUnder(nodes, kids, rank, p, j);
    assert KidsOk(nodes, kids, rank, p);
    assert b != c;
    if Under(nodes, rank, x, c) {
      if x == b {
        UnderRank(nodes, rank, p, c);
      } else if x == c {
        UnderRank(nodes, rank, p, b);
      } else {
        SiblingsDisjoint(nodes, kids, rank, p, i, j, nodes[x].parent);
      }
    }
  }

  /** Below p there is p itself and what is below one of its children. */
  lemma {:induction false} UnderViaKid(nodes: Nodes, kids: Kids, rank: Rank, p: nat, x: nat) returns (i: nat)
    requires Links(nodes, kids, rank) && p in nodes && x in nodes && x != p
    requires Under(nodes, rank, x, p)
    requires forall y :: y in nodes && y != p && Under(nodes, rank, y, p) ==> Hangs(nodes, kids, y)
    ensures i < |kids[p]| && Under(nodes, rank, x, kids[p][i])
    decreases rank[x]
  {
    var q := nodes[x].parent;
    assert Hangs(nodes, kids, x);
    if q == p {
      i :| i < |kids[p]| && kids[p][i] == x;
    } else {
      i := UnderViaKid(nodes, kids, rank, p, q);
    }
  }

  /** The subtree of a child is strictly smaller. */
  lemma SubShrinks(nodes: Nodes, kids: Kids, rank: Rank, p: nat, i: nat)
    requires Links(nodes, kids, rank) && p in nodes && i < |kids[p]|
    ensures Sub(nodes, rank, kids[p][i]) < Sub(nodes, rank, p)
  {
    var c := kids[p][i];
    KidUnder(nodes, kids, rank, p, i);
    forall x | x in Sub(nodes, rank, c) ensures x in Sub(nodes, rank, p) && x != p {
      UnderTrans(nodes, rank, x, c, p);
      UnderRank(nodes, rank, x, c);
    }
    assert p in Sub(nodes, rank, p) && p !in Sub(nodes, rank, c);
  }

  // ----- the tree the graph stands for

  ghost function Content(node: FsNode, bufs: map<nat, seq<Byte>>): seq<Byte> {
    if node.data in bufs then bufs[node.data] else []
  }

  ghost function TreeOf(nodes: Nodes, bufs: map<nat, seq<Byte>>, kids: Kids, rank: Rank, p: nat): Tree
    requires Links(nodes, kids, rank) && p in nodes
    decreases Sub(nodes, rank, p), |kids[p]| + 1
  {
    Node(nodes[p].name, nodes[p].isDir, Content(nodes[p], bufs), TreesFrom(nodes, bufs, kids, rank, p, 0))
  }

  /** Trees of the children of p from position i on. */
  ghost function TreesFrom(nodes: Nodes, bufs: map<nat, seq<Byte>>, kids: Kids, rank: Rank, p: nat,
                           i: nat): (ts: seq<Tree>)
    requires Links(nodes, kids, rank) && p in nodes && i <= |kids[p]|
    ensures |ts| == |kids[p]| - i
    decreases Sub(nodes, rank, p), |kids[p]| - i
  {
    if i == |kids[p]| then []
    else
      KidUnder(nodes, kids, rank, p, i);
      SubShrinks(nodes, kids, rank, p, i);
      [TreeOf(nodes, bufs, kids, rank, kids[p][i])] + TreesFrom(nodes, bufs, kids, rank, p, i + 1)
  }

  // ----- relinking

  /** Node c linked as first child of d, one field after the other. */
  function Prepended(nodes: Nodes, d: nat, c: nat): Nodes {
    if d in nodes && c in nodes then
      var n1 := nodes[c := nodes[c].(parent := d)];
      var n2 := n1[c := n1[c].(next := n1[d].children)];
      n2[d := n2[d].(children := c)]
    else nodes
  }

  /** A loose node c is linked as first child of d. */
  lemma LinkFirst(nodes: Nodes, kids: Kids, rank: Rank, d: nat, c: nat)
    requires Links(nodes, kids, rank) && d in nodes && c in nodes && c != d
    requires nodes[c].parent == 0 && rank[d] < rank[c]
    ensures Links(Prepended(nodes, d, c), kids[d := [c] + kids[d]], rank)
  {
    PrependedIs(nodes, d, c);
    var nodes' := nodes[c := nodes[c].(parent := d, next := nodes[d].children)][d := nodes[d].(children := c)];
    var kids' := kids[d := [c] + kids[d]];
    assert KidsOk(nodes, kids, rank, d);
    forall p | p in nodes' ensures KidsOk(nodes', kids', rank, p) {
      LinkFirstAt(nodes, nodes', kids, rank, d, c, p);
    }
  }

  lemma PrependedIs(nodes: Nodes, d: nat, c: nat)
    requires d in nodes && c in nodes && c != d
    ensures Prepended(nodes, d, c)
         == nodes[c := nodes[c].(parent := d, next := nodes[d].children)][d := nodes[d].(children := c)]
  {}

  lemma LinkFirstAt(nodes: Nodes, nodes': Nodes, kids: Kids, rank: Rank, d: nat, c: nat, p: nat)
    requires Links(nodes, kids, rank) && d in nodes && c in nodes && c != d && p in nodes
    requires nodes[c].parent == 0 && rank[d] < rank[c]
    requires nodes' == nodes[c := nodes[c].(parent := d, next := nodes[d].children)][d := nodes[d].(children := c)]
    ensures KidsOk(nodes', kids[d := [c] + kids[d]], rank, p)
  {
    var kids' := kids[d := [c] + kids[d]];
    assert KidsOk(nodes, kids, rank, p) && KidsOk(nodes, kids, rank, d);
    forall i | 0 <= i < |kids[p]| ensures kids[p][i] != c {
      assert KidAt(nodes, kids, rank, p, i);
    }
    forall i | 0 <= i < |kids'[p]| ensures KidAt(nodes', kids', rank, p, i) {
      if p != d {
        assert KidAt(nodes, kids, rank, p, i);
      } else if i > 0 {
        assert KidAt(nodes, kids, rank, d, i - 1);
      }
    }
  }

  /** A fresh node without links. */
  lemma AddLoose(nodes: Nodes, kids: Kids, rank: Rank, c: nat, node: FsNode, r: nat)
    requires Links(nodes, kids, rank) && c !in nodes && c != 0
    requires node.parent == 0 && node.children == 0
    ensures Links(nodes[c := node], kids[c := []], rank[c := r])
  {
    var nodes', kids', rank' := nodes[c := node], kids[c := []], rank[c := r];
    forall p | p in nodes' ensures KidsOk(nodes', kids', rank', p) {
      if p != c {
        assert KidsOk(nodes, kids, rank, p);
        forall i | 0 <= i < |kids'[p]| ensures KidAt(nodes', kids', rank', p, i) {
          assert KidAt(nodes, kids, rank, p, i);
        }
      }
    }
  }

  /** The chain of d with what followed child `prev` replaced, or its head when `prev` is NULL. */
  function Patched(nodes: Nodes, prev: nat, d: nat, to: nat): Nodes {
    if prev in nodes then nodes[prev := nodes[prev].(next := to)]
    else if d in nodes then nodes[d := nodes[d].(children := to)]
    else nodes
  }

  function Before(list: seq<nat>, k: nat): nat { if 0 < k <= |list| then list[k - 1] else 0 }

  /** Child k of d is taken out of the chain. */
  lemma UnlinkAt(nodes: Nodes, kids: Kids, rank: Rank, d: nat, k: nat)
    requires Links(nodes, kids, rank) && d in nodes && k < |kids[d]|
    ensures Links(Patched(nodes, Before(kids[d], k), d, AddrAt(kids[d], k + 1)),
                  kids[d := kids[d][..k] + kids[d][k + 1..]], rank)
  {
    if k > 0 { KidUnder(nodes, kids, rank, d, k - 1); }
    var nodes' := Patched(nodes, Before(kids[d], k), d, AddrAt(kids[d], k + 1));
    var kids' := kids[d := kids[d][..k] + kids[d][k + 1..]];
    forall p | p in nodes' ensures KidsOk(nodes', kids', rank, p) {
      if p == d { UnlinkHere(nodes, kids, rank, d, k); } else { UnlinkElsewhere(nodes, kids, rank, d, k, p); }
    }
  }

  lemma UnlinkHere(nodes: Nodes, kids: Kids, rank: Rank, d: nat, k: nat)
    requires Links(nodes, kids, rank) && d in nodes && k < |kids[d]|
    ensures KidsOk(Patched(nodes, Before(kids[d], k), d, AddrAt(kids[d], k + 1)),
                   kids[d := kids[d][..k] + kids[d][k + 1..]], rank, d)
  {
    var nodes' := Patched(nodes, Before(kids[d], k), d, AddrAt(kids[d], k + 1));
    if k > 0 { KidUnder(nodes, kids, rank, d, k - 1); }
    var list := kids[d][..k] + kids[d][k + 1..];
    var kids' := kids[d := list];
    assert KidsOk(nodes, kids, rank, d);
    assert forall j :: 0 <= j < k ==> list[j] == kids[d][j];
    assert forall j :: k <= j < |list| ==> list[j] == kids[d][j + 1];
    forall j | 0 <= j < |list| ensures KidAt(nodes', kids', rank, d, j) {
      assert KidAt(nodes, kids, rank, d, if j < k then j else j + 1);
      assert j != k - 1 && k > 0 ==> list[j] != kids[d][k - 1];
    }
  }

  lemma UnlinkElsewhere(nodes: Nodes, kids: Kids, rank: Rank, d: nat, k: nat, p: nat)
    requires Links(nodes, kids, rank) && d in nodes && k < |kids[d]| && p in nodes && p != d
    ensures KidsOk(Patched(nodes, Before(kids[d], k), d, AddrAt(kids[d], k + 1)),
                   kids[d := kids[d][..k] + kids[d][k + 1..]], rank, p)
  {
    var nodes' := Patched(nodes, Before(kids[d], k), d, AddrAt(kids[d], k + 1));
    if k > 0 { KidUnder(nodes, kids, rank, d, k - 1); }
    var kids' := kids[d := kids[d][..k] + kids[d][k + 1..]];
    assert KidsOk(nodes, kids, rank, p);
    forall i | 0 <= i < |kids'[p]| ensures KidAt(nodes', kids', rank, p, i) {
      assert KidAt(nodes, kids, rank, p, i);
    }
  }

  /** Dropping a set of nodes that no remaining chain enters. */
  lemma DropNodes(nodes: Nodes, kids: Kids, rank: Rank, gone: set<nat>)
    requires Links(nodes, kids, rank)
    requires forall p, i :: p in nodes && p !in gone && 0 <= i < |kids[p]| ==> kids[p][i] !in gone
    ensures Links(nodes - gone, kids - gone, rank - gone)
  {
    var nodes', kids', rank' := nodes - gone, kids - gone, rank - gone;
    forall p | p in nodes' ensures KidsOk(nodes', kids', rank', p) {
      assert KidsOk(nodes, kids, rank, p);
      forall i | 0 <= i < |kids'[p]| ensures KidAt(nodes', kids', rank', p, i) {
        assert KidAt(nodes, kids, rank, p, i);
      }
    }
  }
}
