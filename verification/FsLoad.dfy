/** Rebuilding the tree from the node table: what the two loading loops make of any records. */
module FsLoad {
  import opened Common
  import opened FsCodec
  import opened FsLinks
  import opened FsState

  /** kmalloc's answers while loading: na[i] for node i, da[i] for its data; 0 is NULL. */
  ghost predicate Offers(na: seq<nat>, da: seq<nat>) {
    && |na| == |da| == MAX_DISK_NODES
    && (forall i, j :: 0 <= i < j < |na| && na[i] != 0 ==> na[i] != na[j])
    && (forall i, j :: 0 <= i < j < |da| && da[i] != 0 ==> da[i] != da[j])
    && (forall i, j :: 0 <= i < |na| && 0 <= j < |da| && na[i] != 0 ==> na[i] != da[j])
  }

  /** What the records come to when kmalloc answers so: a missing node is nobody's child and has no
      children, and a file whose buffer is missing is empty. */
  function Survivor(r: Rec, na: seq<nat>, da: seq<nat>, i: nat): Rec
    requires i < |na| && i < |da|
  {
    Rec(r.name, r.isDir,
        if i > 0 && na[i] != 0 && 0 <= r.parent < |na| && na[r.parent] != 0 then r.parent else -1,
        if na[i] != 0 && da[i] != 0 then r.data else [])
  }

  function Survivors(rs: seq<Rec>, na: seq<nat>, da: seq<nat>): (r: seq<Rec>)
    requires |rs| <= |na| && |rs| <= |da|
    ensures |r| == |rs|
  {
    seq(|rs|, i requires 0 <= i < |rs| => Survivor(rs[i], na, da, i))
  }

  /** Nothing was refused to the first n entries. */
  ghost predicate Granted(na: seq<nat>, da: seq<nat>, n: nat) {
    forall i :: 0 <= i < n && i < |na| && i < |da| ==> na[i] != 0 && da[i] != 0
  }

  lemma AllSurvive(rs: seq<Rec>, na: seq<nat>, da: seq<nat>)
    requires RecsOk(rs) && |na| == |da| == MAX_DISK_NODES && Granted(na, da, |rs|)
    ensures Survivors(rs, na, da) == rs
  {
    var r := Survivors(rs, na, da);
    forall i | 0 <= i < |r| ensures r[i] == rs[i] { assert RecOk(rs, i); }
  }

  function Slot(m: seq<nat>, i: nat): nat { if i < |m| then m[i] else 0 }

  function Slots(m: seq<nat>, idxs: seq<nat>): (r: seq<nat>)
    ensures |r| == |idxs|
  {
    seq(|idxs|, t requires 0 <= t < |idxs| => Slot(m, idxs[t]))
  }

  // ----- records as a forest

  /** Names and contents fit. */
  predicate Small(r: Rec) {
    |r.name| < MAX_NAME_LEN && |r.data| <= SECTOR_SIZE && (r.isDir ==> r.data == [])
  }

  /** Records as they come through, whatever they were: whoever has a parent is there, is not the first, and
      the parent is there too; whoever has content has a buffer. */
  ghost predicate Sound(rs: seq<Rec>, m: seq<nat>, da: seq<nat>) {
    && 0 < |rs| == |m| == |da| && (forall i, j :: 0 <= i < j < |m| && m[i] != 0 ==> m[i] != m[j])
    && forall j :: 0 <= j < |rs| ==> SoundAt(rs, m, da, j)
  }

  ghost predicate SoundAt(rs: seq<Rec>, m: seq<nat>, da: seq<nat>, j: nat)
    requires j < |rs| == |m| == |da|
  {
    && Small(rs[j]) && (rs[j].data != [] ==> da[j] != 0)
    && (rs[j].parent >= 0 ==> j > 0 && m[j] != 0 && rs[j].parent < |m| && m[rs[j].parent] != 0)
  }

  /** Indices below hi of the records under p, the latest first. */
  function ChildIdx(rs: seq<Rec>, p: nat, hi: nat): (r: seq<nat>)
    requires hi <= |rs|
    ensures forall t :: 0 <= t < |r| ==> 0 < r[t] < hi && rs[r[t]].parent == p
    decreases hi
  {
    if hi <= 1 then [] else (if rs[hi - 1].parent == p then [hi - 1] else []) + ChildIdx(rs, p, hi - 1)
  }

  /** The tree under record p as far as `fuel` steps down. */
  function Unfold(rs: seq<Rec>, p: nat, fuel: nat): Tree
    requires p < |rs|
    decreases fuel, 0
  {
    Node(rs[p].name, rs[p].isDir, rs[p].data, if fuel == 0 then [] else UnfoldBelow(rs, p, |rs|, fuel - 1))
  }

  function UnfoldBelow(rs: seq<Rec>, p: nat, hi: nat, fuel: nat): (ts: seq<Tree>)
    requires hi <= |rs|
    ensures |ts| == |ChildIdx(rs, p, hi)|
    decreases fuel, hi
  {
    if hi <= 1 then []
    else (if rs[hi - 1].parent == p then [Unfold(rs, hi - 1, fuel)] else []) + UnfoldBelow(rs, p, hi - 1, fuel)
  }

  /** The way up from record j ends within `fuel` steps. */
  predicate Ends(rs: seq<Rec>, j: nat, fuel: nat)
    decreases fuel
  {
    j >= |rs| || rs[j].parent < 0 || (fuel > 0 && Ends(rs, rs[j].parent, fuel - 1))
  }

  function Height(rs: seq<Rec>, j: nat, fuel: nat): (h: nat)
    ensures h <= fuel
    decreases fuel
  {
    if j >= |rs| || rs[j].parent < 0 || fuel == 0 then 0 else 1 + Height(rs, rs[j].parent, fuel - 1)
  }

  /** No way up goes round in a circle. */
  ghost predicate Settled(rs: seq<Rec>) {
    |rs| > 0 && forall j :: 0 <= j < |rs| ==> Settles(rs, j)
  }

  predicate Settles(rs: seq<Rec>, j: nat) { |rs| > 0 && Ends(rs, j, |rs| - 1) }

  /** A root directory under which every record that is there hangs, by a way up through directories. */
  ghost predicate Grounded(rs: seq<Rec>, m: seq<nat>) {
    && 0 < |rs| == |m| && m[0] != 0 && rs[0].isDir && rs[0].name == "root"
    && forall j :: 0 < j < |rs| && m[j] != 0 ==> HangsAt(rs, j)
  }

  ghost predicate HangsAt(rs: seq<Rec>, j: nat)
    requires j < |rs|
  {
    0 <= rs[j].parent < |rs| && rs[rs[j].parent].isDir && Settles(rs, j)
  }

  lemma GroundedSettled(rs: seq<Rec>, m: seq<nat>, da: seq<nat>)
    requires Grounded(rs, m) && Sound(rs, m, da)
    ensures Settled(rs)
  {
    forall j | 0 <= j < |rs| ensures Settles(rs, j) {
      assert SoundAt(rs, m, da, j);
      if rs[j].parent >= 0 { assert HangsAt(rs, j); }
    }
  }

  lemma {:induction false} MoreFuel(rs: seq<Rec>, j: nat, fuel: nat, more: nat)
    requires Ends(rs, j, fuel) && fuel <= more
    ensures Ends(rs, j, more) && Height(rs, j, more) == Height(rs, j, fuel)
    decreases fuel
  {
    if j < |rs| && rs[j].parent >= 0 { MoreFuel(rs, rs[j].parent, fuel - 1, more - 1); }
  }

  /** A parent is one step nearer to the end. */
  lemma ParentLower(rs: seq<Rec>, j: nat)
    requires Settled(rs) && j < |rs| && 0 <= rs[j].parent < |rs|
    ensures Height(rs, j, |rs| - 1) == Height(rs, rs[j].parent, |rs| - 1) + 1
  {
    assert Settles(rs, j);
    MoreFuel(rs, rs[j].parent, |rs| - 2, |rs| - 1);
  }

  // ----- records whose parents come earlier

  /** Records of the right shape: short names, a parent with a smaller index that is a directory. */
  ghost predicate RecOk(rs: seq<Rec>, i: nat)
    requires i < |rs|
  {
    Small(rs[i]) && (rs[i].parent == -1 || (0 <= rs[i].parent < i && rs[rs[i].parent].isDir))
  }

  ghost predicate RecsOk(rs: seq<Rec>) {
    0 < |rs| <= MAX_DISK_NODES && rs[0].parent == -1 && forall i :: 0 <= i < |rs| ==> RecOk(rs, i)
  }

  /** The table of a saved tree: a directory called root, everybody else under a recorded parent. */
  ghost predicate SavedOk(rs: seq<Rec>) {
    && RecsOk(rs) && rs[0].isDir && rs[0].name == "root"
    && forall j :: 0 < j < |rs| ==> 0 <= rs[j].parent
  }

  lemma {:induction false} EarlierEnds(rs: seq<Rec>, j: nat, fuel: nat)
    requires RecsOk(rs) && j <= fuel
    ensures Ends(rs, j, fuel)
    decreases fuel
  {
    if j < |rs| {
      assert RecOk(rs, j);
      if rs[j].parent >= 0 { EarlierEnds(rs, rs[j].parent, fuel - 1); }
    }
  }

  /** Such records unfold to what they decode to. */
  lemma DecodesTo(rs: seq<Rec>)
    requires RecsOk(rs)
    ensures Settled(rs) && Unfold(rs, 0, |rs|) == Decode(rs, 0)
  {
    forall j | 0 <= j < |rs| ensures Settles(rs, j) { EarlierEnds(rs, j, |rs| - 1); }
    UnfoldDecodes(rs, 0, |rs|);
  }

  lemma {:induction false} UnfoldDecodes(rs: seq<Rec>, p: nat, fuel: nat)
    requires RecsOk(rs) && p < |rs| && p + fuel >= |rs|
    ensures Unfold(rs, p, fuel) == Decode(rs, p)
    decreases |rs| - p, |rs| + 1
  {
    hide RecsOk;
    UnfoldBelowDecodes(rs, p, |rs|, fuel - 1);
  }

  lemma {:induction false} UnfoldBelowDecodes(rs: seq<Rec>, p: nat, hi: nat, fuel: nat)
    requires RecsOk(rs) && p < |rs| && hi <= |rs| && p + fuel + 1 >= |rs|
    ensures UnfoldBelow(rs, p, hi, fuel) == KidsBelow(rs, p, hi)
    decreases |rs| - p, hi
  {
    hide Decode, Unfold;
    if hi > 1 {
      UnfoldBelowDecodes(rs, p, hi - 1, fuel);
      assert RecOk(rs, hi - 1);
      hide RecsOk;
      if rs[hi - 1].parent == p { UnfoldDecodes(rs, hi - 1, fuel); }
    }
  }

  // ----- the loops' result, node by node

  function ParentSlot(rs: seq<Rec>, m: seq<nat>, j: nat, linked: nat): nat
    requires j < |rs|
  {
    if j < linked && rs[j].parent >= 0 then Slot(m, rs[j].parent) else 0
  }

  /** First child of record p once the records below `linked` are linked. */
  function HeadSlot(rs: seq<Rec>, m: seq<nat>, p: nat, linked: nat): nat
    requires linked <= |rs|
  {
    AddrAt(Slots(m, ChildIdx(rs, p, linked)), 0)
  }

  /** The sibling of record j: who was first under its parent before it. */
  function NextSlot(rs: seq<Rec>, m: seq<nat>, j: nat, linked: nat): nat
    requires j < |rs|
  {
    if j < linked && rs[j].parent >= 0 then HeadSlot(rs, m, rs[j].parent, j) else 0
  }

  function NodeFor(rs: seq<Rec>, m: seq<nat>, da: seq<nat>, j: nat, linked: nat): FsNode
    requires j < |rs| && linked <= |rs|
  {
    FsNode(rs[j].name, rs[j].isDir, if rs[j].data == [] then 0 else Slot(da, j), |rs[j].data|,
           ParentSlot(rs, m, j, linked), HeadSlot(rs, m, j, linked), NextSlot(rs, m, j, linked))
  }

  ghost predicate HasNode(rs: seq<Rec>, m: seq<nat>, da: seq<nat>, linked: nat, nodes: Nodes, bufs: Bufs, j: nat)
    requires j < |rs| && linked <= |rs|
  {
    Slot(m, j) != 0 ==>
      && Slot(m, j) in nodes && nodes[Slot(m, j)] == NodeFor(rs, m, da, j, linked)
      && (rs[j].data != [] ==> Slot(da, j) in bufs && bufs[Slot(da, j)] == rs[j].data)
  }

  ghost predicate NodeOf(m: seq<nat>, made: nat, x: nat) { exists j: nat :: j < made && Slot(m, j) == x }

  ghost predicate BufOf(rs: seq<Rec>, m: seq<nat>, da: seq<nat>, made: nat, b: nat) {
    exists j: nat :: j < made && j < |rs| && rs[j].data != [] && Slot(m, j) != 0 && Slot(da, j) == b
  }

  /** Entries below `made` have their nodes, those below `linked` hang under their parents, and there is
      nothing else. */
  ghost predicate Loading(nodes: Nodes, bufs: Bufs, rs: seq<Rec>, m: seq<nat>, da: seq<nat>, made: nat, linked: nat) {
    && made <= |rs| && linked <= |rs|
    && (forall x :: x in nodes ==> x != 0 && NodeOf(m, made, x))
    && (forall b :: b in bufs ==> BufOf(rs, m, da, made, b))
    && (forall j: nat :: j < made ==> HasNode(rs, m, da, linked, nodes, bufs, j))
  }

  // ----- first loop: one more node

  /** The node that loading entry r creates. */
  function LoadedNode(r: Rec, data: nat): FsNode {
    FsNode(r.name, r.isDir, if r.data == [] then 0 else data, |r.data|, 0, 0, 0)
  }

  function LoadedBufs(bufs: Bufs, r: Rec, data: nat): Bufs {
    if r.data == [] then bufs else bufs[data := r.data]
  }

  lemma LoadMade(nodes: Nodes, bufs: Bufs, rs: seq<Rec>, m: seq<nat>, da: seq<nat>, i: nat)
    requires Loading(nodes, bufs, rs, m, da, i, 1) && Sound(rs, m, da) && Offers(m, da) && i < |rs|
    ensures m[i] == 0 ==> Loading(nodes, bufs, rs, m, da, i + 1, 1)
    ensures m[i] != 0 ==>
              Loading(nodes[m[i] := LoadedNode(rs[i], da[i])], LoadedBufs(bufs, rs[i], da[i]), rs, m, da, i + 1, 1)
  {
    assert |rs| == |m| == |da| && rs[0].parent < 0 && (rs[i].data != [] ==> da[i] != 0) by {
      assert SoundAt(rs, m, da, 0) && SoundAt(rs, m, da, i);
    }
    hide Sound;
    var nodes', bufs' := nodes, bufs;
    if m[i] != 0 { nodes', bufs' := nodes[m[i] := LoadedNode(rs[i], da[i])], LoadedBufs(bufs, rs[i], da[i]); }
    forall x | x in nodes' ensures x != 0 && NodeOf(m, i + 1, x) {
      if x in nodes { MoreNodes(m, i, x); } else { assert Slot(m, i) == x; }
    }
    forall b | b in bufs' ensures BufOf(rs, m, da, i + 1, b) {
      if b in bufs { MoreBufs(rs, m, da, i, b); } else { assert Slot(m, i) != 0 && Slot(da, i) == b; }
    }
    forall j: nat | j < i + 1 ensures HasNode(rs, m, da, 1, nodes', bufs', j) {
      if j < i { assert HasNode(rs, m, da, 1, nodes, bufs, j); } else { NodeForNew(rs, m, da, i); }
      hide NodeFor;
    }
  }

  lemma NodeForNew(rs: seq<Rec>, m: seq<nat>, da: seq<nat>, i: nat)
    requires i < |rs| == |da| && rs[0].parent < 0
    ensures NodeFor(rs, m, da, i, 1) == LoadedNode(rs[i], da[i])
  {}

  lemma MoreNodes(m: seq<nat>, made: nat, x: nat)
    requires NodeOf(m, made, x)
    ensures NodeOf(m, made + 1, x)
  {}

  lemma MoreBufs(rs: seq<Rec>, m: seq<nat>, da: seq<nat>, made: nat, b: nat)
    requires BufOf(rs, m, da, made, b)
    ensures BufOf(rs, m, da, made + 1, b)
  {}

  // ----- second loop: one more link

  /** Entry i stays loose: it is missing, or its parent is. */
  lemma LinkSkipped(nodes: Nodes, bufs: Bufs, rs: seq<Rec>, m: seq<nat>, da: seq<nat>, i: nat)
    requires Loading(nodes, bufs, rs, m, da, |rs|, i) && 0 < i < |rs| && rs[i].parent < 0
    ensures Loading(nodes, bufs, rs, m, da, |rs|, i + 1)
  {
    var linked := i + 1;
    forall j: nat | j < |rs| ensures HasNode(rs, m, da, linked, nodes, bufs, j) {
      assert HasNode(rs, m, da, i, nodes, bufs, j);
    }
  }

  /** Entry i is prepended to its parent's children, itself if need be. */
  lemma LinkMade(nodes: Nodes, bufs: Bufs, rs: seq<Rec>, m: seq<nat>, da: seq<nat>, i: nat)
    requires Loading(nodes, bufs, rs, m, da, |rs|, i) && Sound(rs, m, da) && 0 < i < |rs| && rs[i].parent >= 0
    ensures Loading(Prepended(nodes, Slot(m, rs[i].parent), m[i]), bufs, rs, m, da, |rs|, i + 1)
  {
    var p := rs[i].parent;
    assert SoundAt(rs, m, da, i);
    var d, c := Slot(m, p), m[i];
    assert HasNode(rs, m, da, i, nodes, bufs, p) && HasNode(rs, m, da, i, nodes, bufs, i);
    var nodes', linked := Prepended(nodes, d, c), i + 1;
    assert nodes'.Keys == nodes.Keys;
    forall j: nat | j < |rs| ensures HasNode(rs, m, da, linked, nodes', bufs, j) {
      assert HasNode(rs, m, da, i, nodes, bufs, j);
      NodeForLinked(rs, m, da, i, j);
      hide NodeFor, Sound, Loading, SoundAt;
      OneSlot(m, i, j);
      OneSlot(m, p, j);
    }
  }

  lemma OneSlot(m: seq<nat>, i: nat, j: nat)
    requires forall i, j :: 0 <= i < j < |m| && m[i] != 0 ==> m[i] != m[j]
    ensures Slot(m, i) == Slot(m, j) != 0 ==> i == j
  {}

  /** What one more link changes: parent and sibling of entry i, and the first child of its parent. */
  lemma NodeForLinked(rs: seq<Rec>, m: seq<nat>, da: seq<nat>, i: nat, j: nat)
    requires 0 < i < |rs| && j < |rs| && 0 <= rs[i].parent < |rs|
    ensures NodeFor(rs, m, da, j, i + 1) ==
            var n := NodeFor(rs, m, da, j, i);
            var p := rs[i].parent;
            var n1 := if j == i then n.(parent := Slot(m, p), next := NodeFor(rs, m, da, p, i).children) else n;
            if j == p then n1.(children := Slot(m, i)) else n1
  {}

  // ----- what the loops' result stands for

  /** The record whose node is x. */
  function IndexOf(m: seq<nat>, x: nat): (j: nat)
    ensures j <= |m| && (x in m ==> j < |m| && m[j] == x)
  {
    if m == [] || m[0] == x then 0 else 1 + IndexOf(m[1..], x)
  }

  function KidsFor(rs: seq<Rec>, m: seq<nat>, nodes: Nodes): Kids {
    map x | x in nodes :: Slots(m, ChildIdx(rs, IndexOf(m, x), |rs|))
  }

  function RankFor(rs: seq<Rec>, m: seq<nat>, nodes: Nodes): Rank
    requires |rs| > 0
  {
    map x | x in nodes :: Height(rs, IndexOf(m, x), |rs| - 1)
  }

  /** After both loops. */
  ghost predicate Finished(nodes: Nodes, bufs: Bufs, rs: seq<Rec>, m: seq<nat>, da: seq<nat>) {
    Loading(nodes, bufs, rs, m, da, |rs|, |rs|) && Sound(rs, m, da) && Offers(m, da)
  }

  lemma NodeAt(nodes: Nodes, bufs: Bufs, rs: seq<Rec>, m: seq<nat>, da: seq<nat>, j: nat)
    requires Finished(nodes, bufs, rs, m, da) && j < |rs| && m[j] != 0
    ensures |m| == |rs| && m[j] in nodes && IndexOf(m, m[j]) == j && nodes[m[j]] == NodeFor(rs, m, da, j, |rs|)
    ensures Content(nodes[m[j]], bufs) == rs[j].data
  {
    assert HasNode(rs, m, da, |rs|, nodes, bufs, j);
    NoBufAtZero(nodes, bufs, rs, m, da);
    assert m[IndexOf(m, m[j])] == m[j];
    hide Finished, IndexOf;
  }

  lemma NoBufAtZero(nodes: Nodes, bufs: Bufs, rs: seq<Rec>, m: seq<nat>, da: seq<nat>)
    requires Finished(nodes, bufs, rs, m, da)
    ensures 0 !in bufs
  {
    SomeData(rs, m, da);
  }

  lemma SomeData(rs: seq<Rec>, m: seq<nat>, da: seq<nat>)
    requires Sound(rs, m, da)
    ensures !BufOf(rs, m, da, |rs|, 0)
  {
    forall j: nat | j < |rs| && rs[j].data != [] ensures Slot(da, j) != 0 { assert SoundAt(rs, m, da, j); }
  }

  lemma SomeNode(nodes: Nodes, bufs: Bufs, rs: seq<Rec>, m: seq<nat>, da: seq<nat>, x: nat) returns (j: nat)
    requires Finished(nodes, bufs, rs, m, da) && x in nodes
    ensures j < |rs| && m[j] == x != 0 && IndexOf(m, x) == j
  {
    assert NodeOf(m, |rs|, x);
    j :| j < |rs| && Slot(m, j) == x;
  }

  /** The indices behind position t are those found before it. */
  lemma {:induction false} ChildrenBehind(rs: seq<Rec>, p: nat, hi: nat, t: nat)
    requires hi <= |rs| && t < |ChildIdx(rs, p, hi)|
    ensures ChildIdx(rs, p, hi)[t + 1..] == ChildIdx(rs, p, ChildIdx(rs, p, hi)[t])
    decreases hi
  {
    hide ChildIdx;
    ChildOpen(rs, p, hi);
    var rest := ChildIdx(rs, p, hi - 1);
    assert [] + rest == rest;
    if rs[hi - 1].parent == p {
      ConsBehind(hi - 1, rest, t);
      if t > 0 { ChildrenBehind(rs, p, hi - 1, t - 1); }
    } else {
      ChildrenBehind(rs, p, hi - 1, t);
    }
  }

  lemma ChildOpen(rs: seq<Rec>, p: nat, hi: nat)
    requires hi <= |rs|
    ensures hi <= 1 ==> ChildIdx(rs, p, hi) == []
    ensures hi > 1 ==>
              ChildIdx(rs, p, hi) == (if rs[hi - 1].parent == p then [hi - 1] else []) + ChildIdx(rs, p, hi - 1)
  {}

  lemma ConsBehind(x: nat, rest: seq<nat>, t: nat)
    requires t <= |rest|
    ensures ([x] + rest)[t + 1..] == rest[t..] && ([x] + rest)[t] == if t == 0 then x else rest[t - 1]
    ensures rest[0..] == rest
  {}

  lemma {:induction false} ChildrenDescend(rs: seq<Rec>, p: nat, hi: nat, s: nat, t: nat)
    requires hi <= |rs| && s < t < |ChildIdx(rs, p, hi)|
    ensures ChildIdx(rs, p, hi)[s] > ChildIdx(rs, p, hi)[t]
  {
    ChildrenBehind(rs, p, hi, s);
    assert ChildIdx(rs, p, hi)[s + 1..][t - s - 1] == ChildIdx(rs, p, hi)[t];
  }

  lemma {:induction false} ChildFound(rs: seq<Rec>, p: nat, hi: nat, j: nat)
    requires 0 < j < hi <= |rs| && rs[j].parent == p
    ensures j in ChildIdx(rs, p, hi)
    decreases hi
  {
    if j < hi - 1 { ChildFound(rs, p, hi - 1, j); }
  }

  /** When no way up goes round in a circle the nodes are a forest. */
  lemma LoadedLinks(nodes: Nodes, bufs: Bufs, rs: seq<Rec>, m: seq<nat>, da: seq<nat>)
    requires Finished(nodes, bufs, rs, m, da) && Settled(rs)
    ensures Links(nodes, KidsFor(rs, m, nodes), RankFor(rs, m, nodes))
  {
    var kids, rank := KidsFor(rs, m, nodes), RankFor(rs, m, nodes);
    hide Finished, Settled;
    forall x | x in nodes ensures x != 0 && KidsOk(nodes, kids, rank, x) {
      var p := SomeNode(nodes, bufs, rs, m, da, x);
      LoadedKids(nodes, bufs, rs, m, da, p);
      hide KidsOk, KidsFor, RankFor;
    }
  }

  lemma MapsAt(nodes: Nodes, bufs: Bufs, rs: seq<Rec>, m: seq<nat>, da: seq<nat>, p: nat)
    requires Finished(nodes, bufs, rs, m, da) && p < |rs| && m[p] != 0
    ensures var kids, rank := KidsFor(rs, m, nodes), RankFor(rs, m, nodes);
            && |m| == |rs| && m[p] in nodes && m[p] in kids && m[p] in rank
            && kids[m[p]] == Slots(m, ChildIdx(rs, p, |rs|)) && rank[m[p]] == Height(rs, p, |rs| - 1)
  {
    NodeAt(nodes, bufs, rs, m, da, p);
    hide Finished, ChildIdx, Height;
  }

  lemma LoadedKids(nodes: Nodes, bufs: Bufs, rs: seq<Rec>, m: seq<nat>, da: seq<nat>, p: nat)
    requires Finished(nodes, bufs, rs, m, da) && Settled(rs) && p < |rs| && m[p] != 0
    ensures KidsOk(nodes, KidsFor(rs, m, nodes), RankFor(rs, m, nodes), m[p])
  {
    hide Finished, Settled, Sound, Loading, KidAt, KidsFor, RankFor, ChildIdx, Height;
    var kids, rank := KidsFor(rs, m, nodes), RankFor(rs, m, nodes);
    var idxs := ChildIdx(rs, p, |rs|);
    NodeAt(nodes, bufs, rs, m, da, p);
    MapsAt(nodes, bufs, rs, m, da, p);
    forall t | 0 <= t < |idxs| ensures KidAt(nodes, kids, rank, m[p], t) {
      LoadedKid(nodes, bufs, rs, m, da, p, t);
    }
    forall s, t | 0 <= s < t < |idxs| ensures Slots(m, idxs)[s] != Slots(m, idxs)[t] {
      ChildrenDescend(rs, p, |rs|, s, t);
      ApartSlots(nodes, bufs, rs, m, da, idxs[s], idxs[t]);
    }
  }

  lemma ApartSlots(nodes: Nodes, bufs: Bufs, rs: seq<Rec>, m: seq<nat>, da: seq<nat>, i: nat, j: nat)
    requires Finished(nodes, bufs, rs, m, da) && i < |rs| && j < |rs| && i != j && rs[i].parent >= 0
    ensures Slot(m, i) != Slot(m, j)
  {
    assert SoundAt(rs, m, da, i);
    OneSlot(m, i, j);
  }

  lemma LoadedKid(nodes: Nodes, bufs: Bufs, rs: seq<Rec>, m: seq<nat>, da: seq<nat>, p: nat, t: nat)
    requires Finished(nodes, bufs, rs, m, da) && Settled(rs) && p < |rs| && m[p] != 0 && t < |ChildIdx(rs, p, |rs|)|
    ensures var kids, rank := KidsFor(rs, m, nodes), RankFor(rs, m, nodes);
            && m[p] in kids && m[p] in rank && t < |kids[m[p]]| && KidAt(nodes, kids, rank, m[p], t)
  {
    hide Finished, Settled, Sound, Loading, ChildIdx, Height, KidsFor, RankFor;
    var idxs := ChildIdx(rs, p, |rs|);
    var j := idxs[t];
    NextChild(nodes, rs, m, da, bufs, p, j);
    NodeAt(nodes, bufs, rs, m, da, j);
    MapsAt(nodes, bufs, rs, m, da, p);
    MapsAt(nodes, bufs, rs, m, da, j);
    ChildrenBehind(rs, p, |rs|, t);
    SlotsBehind(m, idxs, t);
  }

  lemma SlotsBehind(m: seq<nat>, idxs: seq<nat>, t: nat)
    requires t < |idxs|
    ensures AddrAt(Slots(m, idxs[t + 1..]), 0) == AddrAt(Slots(m, idxs), t + 1)
  {}

  /** The tree under a node is the records unfolded. */
  lemma {:induction false} LoadedTree(nodes: Nodes, bufs: Bufs, rs: seq<Rec>, m: seq<nat>, da: seq<nat>, p: nat,
                                      fuel: nat)
    requires Finished(nodes, bufs, rs, m, da) && Settled(rs) && p < |rs| && m[p] != 0
    requires Height(rs, p, |rs| - 1) + fuel >= |rs|
    requires Links(nodes, KidsFor(rs, m, nodes), RankFor(rs, m, nodes)) && m[p] in nodes
    ensures TreeOf(nodes, bufs, KidsFor(rs, m, nodes), RankFor(rs, m, nodes), m[p]) == Unfold(rs, p, fuel)
    decreases fuel, 0
  {
    hide Finished, Settled, Sound, Loading, Links, KidsFor, RankFor, TreesFrom, UnfoldBelow, ChildIdx, Content;
    hide HeadSlot, Height;
    NodeAt(nodes, bufs, rs, m, da, p);
    MapsAt(nodes, bufs, rs, m, da, p);
    assert ChildIdx(rs, p, |rs|)[0..] == ChildIdx(rs, p, |rs|);
    LoadedTrees(nodes, bufs, rs, m, da, p, 0, |rs|, fuel - 1);
  }

  lemma {:induction false} LoadedTrees(nodes: Nodes, bufs: Bufs, rs: seq<Rec>, m: seq<nat>, da: seq<nat>,
                                       p: nat, t: nat, hi: nat, fuel: nat)
    requires Finished(nodes, bufs, rs, m, da) && Settled(rs) && p < |rs| && m[p] != 0 && hi <= |rs|
    requires Height(rs, p, |rs| - 1) + fuel + 1 >= |rs|
    requires t <= |ChildIdx(rs, p, |rs|)| && ChildIdx(rs, p, |rs|)[t..] == ChildIdx(rs, p, hi)
    requires Links(nodes, KidsFor(rs, m, nodes), RankFor(rs, m, nodes)) && m[p] in nodes
    requires KidsFor(rs, m, nodes)[m[p]] == Slots(m, ChildIdx(rs, p, |rs|))
    ensures TreesFrom(nodes, bufs, KidsFor(rs, m, nodes), RankFor(rs, m, nodes), m[p], t)
         == UnfoldBelow(rs, p, hi, fuel)
    decreases fuel, hi
  {
    hide Finished, Settled, Sound, Loading, Links, KidsFor, RankFor, TreeOf, Unfold, Height, TreesFrom, NodeFor;
    NodeAt(nodes, bufs, rs, m, da, p);
    var idxs := ChildIdx(rs, p, |rs|);
    if hi <= 1 {
      NoMore(nodes, bufs, KidsFor(rs, m, nodes), RankFor(rs, m, nodes), m[p]);
    } else if rs[hi - 1].parent == p {
      assert idxs[t] == idxs[t..][0] == hi - 1 && idxs[t + 1..] == idxs[t..][1..];
      NextChild(nodes, rs, m, da, bufs, p, hi - 1);
      NodeAt(nodes, bufs, rs, m, da, hi - 1);
      hide ChildIdx;
      LoadedTree(nodes, bufs, rs, m, da, hi - 1, fuel);
      LoadedTrees(nodes, bufs, rs, m, da, p, t + 1, hi - 1, fuel);
      OneMore(nodes, bufs, KidsFor(rs, m, nodes), RankFor(rs, m, nodes), m[p], t);
    } else {
      LoadedTrees(nodes, bufs, rs, m, da, p, t, hi - 1, fuel);
    }
  }

  lemma NoMore(nodes: Nodes, bufs: Bufs, kids: Kids, rank: Rank, x: nat)
    requires Links(nodes, kids, rank) && x in nodes
    ensures TreesFrom(nodes, bufs, kids, rank, x, |kids[x]|) == []
  {}

  lemma OneMore(nodes: Nodes, bufs: Bufs, kids: Kids, rank: Rank, x: nat, t: nat)
    requires Links(nodes, kids, rank) && x in nodes && t < |kids[x]|
    ensures kids[x][t] in nodes
    ensures TreesFrom(nodes, bufs, kids, rank, x, t)
         == [TreeOf(nodes, bufs, kids, rank, kids[x][t])] + TreesFrom(nodes, bufs, kids, rank, x, t + 1)
  {
    KidUnder(nodes, kids, rank, x, t);
    hide Links, TreeOf;
  }

  lemma NextChild(nodes: Nodes, rs: seq<Rec>, m: seq<nat>, da: seq<nat>, bufs: Bufs, p: nat, j: nat)
    requires Finished(nodes, bufs, rs, m, da) && Settled(rs) && j < |rs| && rs[j].parent == p
    ensures |m| == |rs| && m[j] != 0 && p < |rs| && Height(rs, j, |rs| - 1) == Height(rs, p, |rs| - 1) + 1
  {
    assert SoundAt(rs, m, da, j);
    ParentLower(rs, j);
  }

  // ----- the invariant after loading

  lemma LoadedData(nodes: Nodes, bufs: Bufs, rs: seq<Rec>, m: seq<nat>, da: seq<nat>)
    requires Finished(nodes, bufs, rs, m, da)
    ensures DataOk(nodes, bufs)
  {
    hide Finished;
    BuffersOwned(nodes, bufs, rs, m, da);
    forall x | x in nodes ensures DataAt(nodes[x], bufs) && x !in bufs {
      var j := SomeNode(nodes, bufs, rs, m, da, x);
      NodeData(nodes, bufs, rs, m, da, j);
    }
    forall x, y | x in nodes && y in nodes && nodes[x].data != 0 && nodes[x].data == nodes[y].data ensures x == y {
      var i := SomeNode(nodes, bufs, rs, m, da, x);
      var j := SomeNode(nodes, bufs, rs, m, da, y);
      OneBuffer(nodes, bufs, rs, m, da, i, j);
    }
    hide DataAt, OwnedBuf;
  }

  lemma BuffersOwned(nodes: Nodes, bufs: Bufs, rs: seq<Rec>, m: seq<nat>, da: seq<nat>)
    requires Finished(nodes, bufs, rs, m, da)
    ensures 0 !in bufs && forall b :: b in bufs ==> OwnedBuf(nodes, b)
  {
    SomeData(rs, m, da);
    forall b | b in bufs ensures OwnedBuf(nodes, b) {
      assert BufOf(rs, m, da, |rs|, b);
      var j: nat :| j < |rs| && rs[j].data != [] && Slot(m, j) != 0 && Slot(da, j) == b;
      NodeAt(nodes, bufs, rs, m, da, j);
    }
  }

  lemma NodeData(nodes: Nodes, bufs: Bufs, rs: seq<Rec>, m: seq<nat>, da: seq<nat>, j: nat)
    requires Finished(nodes, bufs, rs, m, da) && j < |rs| && m[j] != 0
    ensures m[j] in nodes && DataAt(nodes[m[j]], bufs) && m[j] !in bufs
    ensures |nodes[m[j]].name| < MAX_NAME_LEN && nodes[m[j]].name == rs[j].name && nodes[m[j]].isDir == rs[j].isDir
  {
    NodeAt(nodes, bufs, rs, m, da, j);
    assert SoundAt(rs, m, da, j) && HasNode(rs, m, da, |rs|, nodes, bufs, j);
    hide HeadSlot;
    forall b | b in bufs ensures b != m[j] {
      assert BufOf(rs, m, da, |rs|, b);
      var i: nat :| i < |rs| && rs[i].data != [] && Slot(m, i) != 0 && Slot(da, i) == b;
    }
  }

  lemma OneBuffer(nodes: Nodes, bufs: Bufs, rs: seq<Rec>, m: seq<nat>, da: seq<nat>, i: nat, j: nat)
    requires Finished(nodes, bufs, rs, m, da) && i < |rs| && j < |rs| && m[i] != 0 && m[j] != 0
    requires m[i] in nodes && m[j] in nodes && nodes[m[i]].data == nodes[m[j]].data != 0
    ensures i == j
  {
    NodeAt(nodes, bufs, rs, m, da, i);
    NodeAt(nodes, bufs, rs, m, da, j);
    hide HeadSlot;
  }

  /** When every node that is there hangs under the root, the whole invariant holds. */
  lemma GroundedOk(nodes: Nodes, bufs: Bufs, rs: seq<Rec>, m: seq<nat>, da: seq<nat>)
    requires Finished(nodes, bufs, rs, m, da) && Grounded(rs, m)
    ensures Settled(rs) && TreeOk(nodes, bufs, KidsFor(rs, m, nodes), RankFor(rs, m, nodes), m[0], m[0])
  {
    assert Settled(rs) by { GroundedSettled(rs, m, da); }
    hide Finished, Settled, Links, DataOk, KidsFor, RankFor;
    LoadedData(nodes, bufs, rs, m, da);
    LoadedLinks(nodes, bufs, rs, m, da);
    NodeData(nodes, bufs, rs, m, da, 0);
    GroundedTree(nodes, bufs, rs, m, da);
    hide Rooted, NodesOk;
  }

  lemma GroundedTree(nodes: Nodes, bufs: Bufs, rs: seq<Rec>, m: seq<nat>, da: seq<nat>)
    requires Finished(nodes, bufs, rs, m, da) && Grounded(rs, m)
    ensures Rooted(nodes, KidsFor(rs, m, nodes), m[0]) && NodesOk(nodes, KidsFor(rs, m, nodes))
  {
    assert |rs| == |m| && m[0] != 0;
    hide Finished, Grounded, KidsFor, Hangs;
    RootAlone(nodes, bufs, rs, m, da);
    forall x | x in nodes && x != m[0] ensures Hangs(nodes, KidsFor(rs, m, nodes), x) {
      HangsOrRoot(nodes, bufs, rs, m, da, x);
    }
    forall x | x in nodes
      ensures x in KidsFor(rs, m, nodes) && |nodes[x].name| < MAX_NAME_LEN
      ensures KidsFor(rs, m, nodes)[x] != [] ==> nodes[x].isDir
    {
      GroundedNode(nodes, bufs, rs, m, da, x);
    }
  }

  lemma HangsOrRoot(nodes: Nodes, bufs: Bufs, rs: seq<Rec>, m: seq<nat>, da: seq<nat>, x: nat)
    requires Finished(nodes, bufs, rs, m, da) && Grounded(rs, m) && x in nodes && x != m[0]
    ensures Hangs(nodes, KidsFor(rs, m, nodes), x)
  {
    hide Finished, Grounded, KidsFor, Hangs;
    var j := SomeNode(nodes, bufs, rs, m, da, x);
    GroundedHangs(nodes, bufs, rs, m, da, j);
  }

  lemma GroundedNode(nodes: Nodes, bufs: Bufs, rs: seq<Rec>, m: seq<nat>, da: seq<nat>, x: nat)
    requires Finished(nodes, bufs, rs, m, da) && Grounded(rs, m) && x in nodes
    ensures x in KidsFor(rs, m, nodes) && |nodes[x].name| < MAX_NAME_LEN
    ensures KidsFor(rs, m, nodes)[x] != [] ==> nodes[x].isDir
  {
    hide Finished, Grounded, KidsFor;
    var j := SomeNode(nodes, bufs, rs, m, da, x);
    NodeData(nodes, bufs, rs, m, da, j);
    DirIfKids(nodes, bufs, rs, m, da, j);
  }

  lemma RootAlone(nodes: Nodes, bufs: Bufs, rs: seq<Rec>, m: seq<nat>, da: seq<nat>)
    requires Finished(nodes, bufs, rs, m, da) && m[0] != 0
    ensures m[0] in nodes && nodes[m[0]].parent == 0
  {
    NodeAt(nodes, bufs, rs, m, da, 0);
    assert SoundAt(rs, m, da, 0);
    hide HeadSlot;
  }

  lemma GroundedHangs(nodes: Nodes, bufs: Bufs, rs: seq<Rec>, m: seq<nat>, da: seq<nat>, j: nat)
    requires Finished(nodes, bufs, rs, m, da) && Grounded(rs, m) && 0 < j < |rs| && m[j] != 0
    ensures Hangs(nodes, KidsFor(rs, m, nodes), m[j])
  {
    hide Finished, Grounded, KidsFor, ChildIdx, RankFor, HeadSlot, Height;
    GroundedParent(nodes, bufs, rs, m, da, j);
    var p := rs[j].parent;
    NodeAt(nodes, bufs, rs, m, da, j);
    MapsAt(nodes, bufs, rs, m, da, p);
    ChildFound(rs, p, |rs|, j);
    SlotIn(m, ChildIdx(rs, p, |rs|), j);
  }

  lemma GroundedParent(nodes: Nodes, bufs: Bufs, rs: seq<Rec>, m: seq<nat>, da: seq<nat>, j: nat)
    requires Finished(nodes, bufs, rs, m, da) && Grounded(rs, m) && 0 < j < |rs| && m[j] != 0
    ensures |rs| == |m| && 0 <= rs[j].parent < |rs| && m[rs[j].parent] != 0
  {
    assert HangsAt(rs, j) && SoundAt(rs, m, da, j);
    hide Small, Settles;
  }

  lemma SlotIn(m: seq<nat>, idxs: seq<nat>, j: nat)
    requires j in idxs && j < |m|
    ensures m[j] in Slots(m, idxs)
  {
    var t :| 0 <= t < |idxs| && idxs[t] == j;
    assert Slots(m, idxs)[t] == m[j];
  }

  lemma DirIfKids(nodes: Nodes, bufs: Bufs, rs: seq<Rec>, m: seq<nat>, da: seq<nat>, p: nat)
    requires Finished(nodes, bufs, rs, m, da) && Grounded(rs, m) && p < |rs| && m[p] != 0
    ensures m[p] in KidsFor(rs, m, nodes) && (KidsFor(rs, m, nodes)[m[p]] != [] ==> rs[p].isDir)
  {
    MapsAt(nodes, bufs, rs, m, da, p);
    var idxs := ChildIdx(rs, p, |rs|);
    if idxs != [] {
      assert SoundAt(rs, m, da, idxs[0]);
      assert HangsAt(rs, idxs[0]);
    }
  }

  // ----- the records of a saved tree

  /** Names and contents fit, and only directories have children. */
  ghost predicate Shaped(t: Tree) {
    && |t.name| < MAX_NAME_LEN && |t.data| <= SECTOR_SIZE && (t.isDir ==> t.data == [])
    && (t.kids != [] ==> t.isDir) && ShapedAll(t.kids)
  }

  ghost predicate ShapedAll(ts: seq<Tree>) {
    ts == [] || (Shaped(ts[0]) && ShapedAll(ts[1..]))
  }

  lemma {:induction false} TreeShaped(nodes: Nodes, bufs: Bufs, kids: Kids, rank: Rank, p: nat)
    requires Links(nodes, kids, rank) && DataOk(nodes, bufs) && NodesOk(nodes, kids) && p in nodes
    ensures Shaped(TreeOf(nodes, bufs, kids, rank, p))
    decreases Sub(nodes, rank, p), |kids[p]| + 1
  {
    assert DataAt(nodes[p], bufs);
    var ts := TreesFrom(nodes, bufs, kids, rank, p, 0);
    TreesShaped(nodes, bufs, kids, rank, p, 0);
    hide Links, DataOk, Sub, TreesFrom, ShapedAll;
    assert ts != [] ==> kids[p] != [];
  }

  lemma {:induction false} TreesShaped(nodes: Nodes, bufs: Bufs, kids: Kids, rank: Rank, p: nat, i: nat)
    requires Links(nodes, kids, rank) && DataOk(nodes, bufs) && NodesOk(nodes, kids) && p in nodes && i <= |kids[p]|
    ensures ShapedAll(TreesFrom(nodes, bufs, kids, rank, p, i))
    decreases Sub(nodes, rank, p), |kids[p]| - i
  {
    if i < |kids[p]| {
      KidUnder(nodes, kids, rank, p, i);
      SubShrinks(nodes, kids, rank, p, i);
      TreesShaped(nodes, bufs, kids, rank, p, i + 1);
      var c := kids[p][i];
      hide Links, DataOk, NodesOk, TreeOf, Shaped, Under;
      TreeShaped(nodes, bufs, kids, rank, c);
      var ts := TreesFrom(nodes, bufs, kids, rank, p, i);
      assert ts[0] == TreeOf(nodes, bufs, kids, rank, c) && ts[1..] == TreesFrom(nodes, bufs, kids, rank, p, i + 1);
    }
  }

  /** In the preorder of a well-shaped tree every parent is a directory. */
  lemma {:induction false} FlatShaped(t: Tree, parent: int, base: nat, j: nat)
    requires Shaped(t) && j < Size(t)
    ensures Small(Flat(t, parent, base)[j])
    ensures j > 0 ==> var q := Flat(t, parent, base)[j].parent - base; 0 <= q < j && Flat(t, parent, base)[q].isDir
    decreases t, 0
  {
    if j > 0 {
      FlatAllShaped(t.kids, base, base + 1, j - 1);
      var rs := FlatAll(t.kids, base, base + 1);
      var q := rs[j - 1].parent - base;
      if q > 0 { assert Flat(t, parent, base)[q] == rs[q - 1]; }
    }
  }

  lemma {:induction false} FlatAllShaped(ts: seq<Tree>, p: nat, base: nat, j: nat)
    requires ShapedAll(ts) && j < SizeAll(ts) && p < base
    ensures Small(FlatAll(ts, p, base)[j])
    ensures var q := FlatAll(ts, p, base)[j].parent - base;
            q == p - base || (0 <= q < j && FlatAll(ts, p, base)[q].isDir)
    decreases ts, 1
  {
    var n := Size(ts[0]);
    var first, rest := Flat(ts[0], p, base), FlatAll(ts[1..], p, base + n);
    assert FlatAll(ts, p, base) == first + rest;
    if j < n {
      FlatShaped(ts[0], p, base, j);
    } else {
      FlatAllShaped(ts[1..], p, base + n, j - n);
      var q := rest[j - n].parent - base;
      if q >= n { assert (first + rest)[q] == rest[q - n]; }
    }
  }

  /** What the encoder writes for the tree of a valid state can be loaded. */
  lemma EncodedOk(t: Tree)
    requires Shaped(t) && t.isDir && t.name == "root"
    ensures SavedOk(Encode(t, -1, []))
  {
    hide Shaped, Flat, Encode, RecOk;
    var rs := Encode(t, -1, []);
    EncodedFirst(t);
    forall i | 0 <= i < |rs| ensures RecOk(rs, i) && (i > 0 ==> 0 <= rs[i].parent) { EncodedAt(t, i); }
  }

  /** The records are the first in preorder, the root's first of all. */
  lemma EncodedFirst(t: Tree)
    ensures var rs := Encode(t, -1, []);
            && rs == Take(Flat(t, -1, 0), MAX_DISK_NODES) && 0 < |rs| <= MAX_DISK_NODES
            && rs[0] == Rec(t.name, t.isDir, -1, t.data)
  {
    hide Encode;
    EncodeIsPrefix(t, -1, []);
    assert [] + Flat(t, -1, 0) == Flat(t, -1, 0);
  }

  lemma EncodedAt(t: Tree, i: nat)
    requires Shaped(t) && i < |Encode(t, -1, [])|
    ensures RecOk(Encode(t, -1, []), i) && (i > 0 ==> 0 <= Encode(t, -1, [])[i].parent)
  {
    hide Shaped, Flat, Encode;
    EncodedFirst(t);
    FlatShaped(t, -1, 0, i);
  }

  lemma WholeSaved(nodes: Nodes, bufs: Bufs, kids: Kids, rank: Rank, root: nat, dir: nat)
    requires TreeOk(nodes, bufs, kids, rank, root, dir)
    ensures SavedOk(Encode(TreeOf(nodes, bufs, kids, rank, root), -1, []))
  {
    TreeShaped(nodes, bufs, kids, rank, root);
    hide Links, DataOk, NodesOk, Rooted, Shaped, TreesFrom, Encode, SavedOk;
    EncodedOk(TreeOf(nodes, bufs, kids, rank, root));
  }
}
