/** The directory tree and the table it is saved as: preorder encoder with a cap, decoder, round trip. */
module FsCodec {
  import opened Common

  const MAX_NAME_LEN := 32
  const FS_START_SECTOR := 100
  const DATA_START_SECTOR := 101
  const MAX_DISK_NODES := 16
  const SECTOR_SIZE := 512

  /** A directory or file; sibling order is list order. */
  datatype Tree = Node(name: string, isDir: bool, data: seq<Byte>, kids: seq<Tree>)

  /** One recorded node: what its table entry says, with the content its data sector carries. */
  datatype Rec = Rec(name: string, isDir: bool, parent: int, data: seq<Byte>)

  function Size(t: Tree): (n: nat)
    ensures n >= 1
  {
    1 + SizeAll(t.kids)
  }

  function SizeAll(ts: seq<Tree>): nat {
    if ts == [] then 0 else Size(ts[0]) + SizeAll(ts[1..])
  }

  /** All nodes in preorder, each with the index of its parent; the root of t is at index `base`. */
  function Flat(t: Tree, parent: int, base: nat): (rs: seq<Rec>)
    ensures |rs| == Size(t) && rs[0] == Rec(t.name, t.isDir, parent, t.data)
  {
    [Rec(t.name, t.isDir, parent, t.data)] + FlatAll(t.kids, base, base + 1)
  }

  function FlatAll(ts: seq<Tree>, parent: int, base: nat): (rs: seq<Rec>)
    ensures |rs| == SizeAll(ts)
  {
    if ts == [] then [] else Flat(ts[0], parent, base) + FlatAll(ts[1..], parent, base + Size(ts[0]))
  }

  // ----- serialize_node

  /** `serialize_node` on the records so far: nothing once the table is full, else this node and then its
      children in list order. */
  function Encode(t: Tree, parent: int, rs: seq<Rec>): (r: seq<Rec>)
    ensures rs <= r
  {
    if |rs| >= MAX_DISK_NODES then rs
    else EncodeAll(t.kids, |rs|, rs + [Rec(t.name, t.isDir, parent, t.data)])
  }

  function EncodeAll(ts: seq<Tree>, parent: int, rs: seq<Rec>): (r: seq<Rec>)
    ensures rs <= r
  {
    if ts == [] then rs else EncodeAll(ts[1..], parent, Encode(ts[0], parent, rs))
  }

  function Take(rs: seq<Rec>, n: nat): seq<Rec> { if |rs| <= n then rs else rs[..n] }

  /** The encoder records exactly the nodes that come first in preorder, as many as fit. */
  lemma {:induction false} EncodeIsPrefix(t: Tree, parent: int, rs: seq<Rec>)
    requires |rs| <= MAX_DISK_NODES
    ensures Encode(t, parent, rs) == Take(rs + Flat(t, parent, |rs|), MAX_DISK_NODES)
    decreases t, 0
  {
    if |rs| < MAX_DISK_NODES {
      var rs1 := rs + [Rec(t.name, t.isDir, parent, t.data)];
      EncodeAllIsPrefix(t.kids, |rs|, rs1);
      assert rs1 + FlatAll(t.kids, |rs|, |rs1|) == rs + Flat(t, parent, |rs|);
    }
  }

  lemma {:induction false} EncodeAllIsPrefix(ts: seq<Tree>, parent: int, rs: seq<Rec>)
    requires |rs| <= MAX_DISK_NODES
    ensures EncodeAll(ts, parent, rs) == Take(rs + FlatAll(ts, parent, |rs|), MAX_DISK_NODES)
    decreases ts, 1
  {
    if ts == [] {
      assert rs + FlatAll(ts, parent, |rs|) == rs;
    } else {
      var first, rest := Flat(ts[0], parent, |rs|), FlatAll(ts[1..], parent, |rs| + Size(ts[0]));
      assert FlatAll(ts, parent, |rs|) == first + rest;
      assert EncodeAll(ts, parent, rs) == EncodeAll(ts[1..], parent, Encode(ts[0], parent, rs));
      hide Flat, FlatAll, Encode, EncodeAll, Size, SizeAll;
      EncodeIsPrefix(ts[0], parent, rs);
      var rs1 := Encode(ts[0], parent, rs);
      EncodeAllIsPrefix(ts[1..], parent, rs1);
      assert rs + (first + rest) == (rs + first) + rest;
      if |rs + first| > MAX_DISK_NODES {
        TakePrefix(rs + first, rest, MAX_DISK_NODES);
        TakePrefix(rs1, FlatAll(ts[1..], parent, |rs1|), MAX_DISK_NODES);
      }
    }
  }

  lemma TakePrefix(x: seq<Rec>, y: seq<Rec>, n: nat)
    requires |x| >= n
    ensures Take(x + y, n) == x[..n]
  {}

  // ----- the loading loop

  /** The tree under record i: children are linked by prepending in index order, so a later record comes
      earlier in its sibling list. */
  function Decode(rs: seq<Rec>, i: nat): Tree
    requires i < |rs|
    decreases |rs| - i, |rs| + 1
  {
    Node(rs[i].name, rs[i].isDir, rs[i].data, KidsBelow(rs, i, |rs|))
  }

  /** Children of record p among the records before `hi`. */
  function KidsBelow(rs: seq<Rec>, p: nat, hi: nat): seq<Tree>
    requires p < |rs| && hi <= |rs|
    decreases |rs| - p, hi
  {
    if hi <= p + 1 then []
    else (if rs[hi - 1].parent == p then [Decode(rs, hi - 1)] else []) + KidsBelow(rs, p, hi - 1)
  }

  function Mirror(t: Tree): Tree {
    Node(t.name, t.isDir, t.data, MirrorAll(t.kids))
  }

  /** The mirror image lists the children the other way round, each mirrored itself, and keeps the node. */
  lemma {:induction false} MirrorAt(t: Tree, i: nat)
    requires i < |t.kids|
    ensures var m := Mirror(t);
            && m.name == t.name && m.isDir == t.isDir && m.data == t.data && |m.kids| == |t.kids|
            && m.kids[i] == Mirror(t.kids[|t.kids| - 1 - i])
  {
    MirrorAllAt(t.kids, i);
  }

  lemma {:induction false} MirrorAllAt(ts: seq<Tree>, i: nat)
    requires i < |ts|
    ensures |MirrorAll(ts)| == |ts| && MirrorAll(ts)[i] == Mirror(ts[|ts| - 1 - i])
  {
    if |ts| == 1 {
      assert MirrorAll(ts[1..]) == [];
    } else {
      MirrorAllAt(ts[1..], if i < |ts| - 1 then i else 0);
    }
  }

  function MirrorAll(ts: seq<Tree>): seq<Tree> {
    if ts == [] then [] else MirrorAll(ts[1..]) + [Mirror(ts[0])]
  }

  /** Parents come before their children in the records, and inside the same subtree. */
  lemma {:induction false} FlatParents(t: Tree, parent: int, base: nat, j: nat)
    requires 0 < j < Size(t)
    ensures base <= Flat(t, parent, base)[j].parent < base + j
    decreases t, 0
  {
    FlatAllParents(t.kids, base, base + 1, j - 1);
  }

  lemma {:induction false} FlatAllParents(ts: seq<Tree>, parent: int, base: nat, j: nat)
    requires j < SizeAll(ts)
    ensures var q := FlatAll(ts, parent, base)[j].parent; q == parent || base <= q < base + j
    decreases ts, 1
  {
    if j < Size(ts[0]) {
      if j > 0 { FlatParents(ts[0], parent, base, j); }
    } else {
      FlatAllParents(ts[1..], parent, base + Size(ts[0]), j - Size(ts[0]));
    }
  }

  /** Records from `lo` on that are not children of p add nothing. */
  lemma {:induction false} NoKidsAbove(rs: seq<Rec>, p: nat, lo: nat, hi: nat)
    requires p < |rs| && p < lo <= hi <= |rs|
    requires forall j :: lo <= j < hi ==> rs[j].parent != p
    ensures KidsBelow(rs, p, hi) == KidsBelow(rs, p, lo)
    decreases hi
  {
    if lo < hi { NoKidsAbove(rs, p, lo, hi - 1); }
  }

  /** A block of records that is the preorder of t, with no child of it recorded elsewhere, decodes to the
      mirror of t. */
  lemma {:induction false} DecodeFlat(rs: seq<Rec>, lo: nat, t: Tree, parent: int)
    requires lo + Size(t) <= |rs| && rs[lo..lo + Size(t)] == Flat(t, parent, lo)
    requires forall j :: lo + Size(t) <= j < |rs| ==> !(lo <= rs[j].parent < lo + Size(t))
    ensures Decode(rs, lo) == Mirror(t)
    decreases t, 0
  {
    var hi := lo + Size(t);
    assert rs[lo] == Flat(t, parent, lo)[0];
    NoKidsAbove(rs, lo, hi, |rs|);
    SliceParts(rs, lo, [Rec(t.name, t.isDir, parent, t.data)], FlatAll(t.kids, lo, lo + 1));
    DecodeFlatAll(rs, lo + 1, t.kids, lo);
    assert MirrorAll(t.kids) + [] == MirrorAll(t.kids);
  }

  lemma {:induction false} DecodeFlatAll(rs: seq<Rec>, lo: nat, ts: seq<Tree>, p: nat)
    requires p < lo && lo + SizeAll(ts) <= |rs| && rs[lo..lo + SizeAll(ts)] == FlatAll(ts, p, lo)
    requires forall j :: lo + SizeAll(ts) <= j < |rs| ==> !(lo <= rs[j].parent < lo + SizeAll(ts))
    ensures KidsBelow(rs, p, lo + SizeAll(ts)) == MirrorAll(ts) + KidsBelow(rs, p, lo)
    decreases ts, 1
  {
    hide Flat, FlatAll, Decode, KidsBelow, MirrorAll, Mirror, SizeAll, Size;
    if ts == [] {
      EmptyForest(KidsBelow(rs, p, lo));
    } else {
      ForestStep(rs, lo, ts, p);
      var mid := lo + Size(ts[0]);
      DecodeFlatAll(rs, mid, ts[1..], p);
      DecodeFlat(rs, lo, ts[0], p);
      FirstChild(rs, p, lo, mid);
      Regroup(MirrorAll(ts[1..]), [Mirror(ts[0])], KidsBelow(rs, p, lo));
    }
  }

  lemma EmptyForest(ks: seq<Tree>)
    ensures SizeAll([]) == 0 && MirrorAll([]) + ks == ks
  {}

  lemma Regroup(x: seq<Tree>, y: seq<Tree>, z: seq<Tree>)
    ensures x + y + z == x + (y + z)
  {}

  /** The block of a forest is the block of its first tree and that of the rest, closed separately. */
  lemma ForestStep(rs: seq<Rec>, lo: nat, ts: seq<Tree>, p: nat)
    requires p < lo && ts != [] && lo + SizeAll(ts) <= |rs| && rs[lo..lo + SizeAll(ts)] == FlatAll(ts, p, lo)
    requires forall j :: lo + SizeAll(ts) <= j < |rs| ==> !(lo <= rs[j].parent < lo + SizeAll(ts))
    ensures var mid := lo + Size(ts[0]);
            && lo < mid && SizeAll(ts) == Size(ts[0]) + SizeAll(ts[1..]) && mid + SizeAll(ts[1..]) <= |rs|
            && rs[lo..mid] == Flat(ts[0], p, lo)
            && rs[mid..mid + SizeAll(ts[1..])] == FlatAll(ts[1..], p, mid)
            && rs[lo].parent == p
            && (forall j :: lo < j < mid ==> rs[j].parent != p)
            && (forall j :: mid <= j < |rs| ==> !(lo <= rs[j].parent < mid))
            && (forall j :: mid + SizeAll(ts[1..]) <= j < |rs| ==> !(mid <= rs[j].parent < mid + SizeAll(ts[1..])))
    ensures MirrorAll(ts) == MirrorAll(ts[1..]) + [Mirror(ts[0])]
  {
    BlockParents(rs, lo, ts, p);
    SliceParts(rs, lo, Flat(ts[0], p, lo), FlatAll(ts[1..], p, lo + Size(ts[0])));
    hide Flat, FlatAll, Mirror;
  }

  /** Among the records lo..mid only the first is a child of p. */
  lemma FirstChild(rs: seq<Rec>, p: nat, lo: nat, mid: nat)
    requires p < lo < mid <= |rs| && rs[lo].parent == p
    requires forall j :: lo < j < mid ==> rs[j].parent != p
    ensures KidsBelow(rs, p, mid) == [Decode(rs, lo)] + KidsBelow(rs, p, lo)
  {
    NoKidsAbove(rs, p, lo + 1, mid);
  }

  lemma SliceParts(rs: seq<Rec>, lo: nat, a: seq<Rec>, b: seq<Rec>)
    requires lo + |a| + |b| <= |rs| && rs[lo..lo + |a| + |b|] == a + b
    ensures rs[lo..lo + |a|] == a && rs[lo + |a|..lo + |a| + |b|] == b
  {
    assert rs[lo..lo + |a|] == rs[lo..lo + |a| + |b|][..|a|];
    assert rs[lo + |a|..lo + |a| + |b|] == rs[lo..lo + |a| + |b|][|a|..];
  }

  /** In the block of a forest under p, the first tree's records and the others' do not mix. */
  lemma BlockParents(rs: seq<Rec>, lo: nat, ts: seq<Tree>, p: nat)
    requires p < lo && ts != [] && lo + SizeAll(ts) <= |rs| && rs[lo..lo + SizeAll(ts)] == FlatAll(ts, p, lo)
    ensures rs[lo].parent == p
    ensures forall j :: lo < j < lo + Size(ts[0]) ==> lo <= rs[j].parent < j
    ensures forall j :: lo + Size(ts[0]) <= j < lo + SizeAll(ts) ==>
              rs[j].parent == p || lo + Size(ts[0]) <= rs[j].parent < j
  {
    var n := Size(ts[0]);
    forall j | lo < j < lo + n ensures lo <= rs[j].parent < j {
      FlatParents(ts[0], p, lo, j - lo);
      assert rs[j] == rs[lo..lo + SizeAll(ts)][j - lo];
    }
    forall j | lo + n <= j < lo + SizeAll(ts) ensures rs[j].parent == p || lo + n <= rs[j].parent < j {
      FlatAllParents(ts[1..], p, lo + n, j - lo - n);
      assert rs[j] == rs[lo..lo + SizeAll(ts)][j - lo];
    }
    assert rs[lo] == rs[lo..lo + SizeAll(ts)][0];
  }

  // ----- the tree that fits

  /** The first n nodes of t in preorder, as a tree. */
  function Trunc(t: Tree, n: nat): (r: Tree)
    requires n > 0
    ensures Size(r) == Min(n, Size(t))
  {
    Node(t.name, t.isDir, t.data, TruncAll(t.kids, n - 1))
  }

  function TruncAll(ts: seq<Tree>, n: nat): (rs: seq<Tree>)
    ensures SizeAll(rs) == Min(n, SizeAll(ts))
  {
    if n == 0 || ts == [] then []
    else [Trunc(ts[0], n)] + TruncAll(ts[1..], n - Min(n, Size(ts[0])))
  }

  lemma {:induction false} FlatTrunc(t: Tree, n: nat, parent: int, base: nat)
    requires n > 0
    ensures Flat(Trunc(t, n), parent, base) == Take(Flat(t, parent, base), n)
    decreases t, 0
  {
    FlatTruncAll(t.kids, n - 1, base, base + 1);
  }

  lemma {:induction false} FlatTruncAll(ts: seq<Tree>, n: nat, parent: int, base: nat)
    ensures FlatAll(TruncAll(ts, n), parent, base) == Take(FlatAll(ts, parent, base), n)
    decreases ts, 1
  {
    hide Flat, FlatAll, Trunc, TruncAll, Take, Size;
    TruncOpen(ts, n);
    NoForest(parent, base);
    if n == 0 || ts == [] {
      TakeNone(FlatAll(ts, parent, base), n);
    } else {
      var t, rest := ts[0], ts[1..];
      var left := n - Min(n, Size(t));
      FlatTrunc(t, n, parent, base);
      FlatTruncAll(rest, left, parent, base + Size(t));
      FlatAllCons(t, rest, parent, base);
      FlatAllCons(Trunc(t, n), TruncAll(rest, left), parent, base);
      TakeBoth(Flat(t, parent, base), FlatAll(rest, parent, base + Size(t)), n);
      assert ts == [t] + rest;
      TruncOpen(rest, left);
      if left == 0 {
        NoForest(parent, base + Size(Trunc(t, n)));
        TakeNone(FlatAll(rest, parent, base + Size(t)), left);
      }
    }
  }

  lemma TruncOpen(ts: seq<Tree>, n: nat)
    ensures n == 0 || ts == [] ==> TruncAll(ts, n) == []
    ensures n > 0 && ts != [] ==>
              TruncAll(ts, n) == [Trunc(ts[0], n)] + TruncAll(ts[1..], n - Min(n, Size(ts[0])))
  {}

  lemma TakeNone(rs: seq<Rec>, n: nat)
    ensures n == 0 || rs == [] ==> Take(rs, n) == []
  {}

  lemma FlatAllCons(t: Tree, ts: seq<Tree>, parent: int, base: nat)
    ensures FlatAll([t] + ts, parent, base) == Flat(t, parent, base) + FlatAll(ts, parent, base + Size(t))
  {
    assert ([t] + ts)[1..] == ts;
  }

  lemma NoForest(parent: int, base: nat)
    ensures FlatAll([], parent, base) == []
  {}

  lemma TakeBoth(x: seq<Rec>, y: seq<Rec>, n: nat)
    ensures Take(x + y, n) == if |x| <= n then x + Take(y, n - |x|) else Take(x, n)
    ensures |x| <= n ==> Take(x, n) == x
  {}

  lemma {:induction false} TruncWhole(t: Tree, n: nat)
    requires n >= Size(t)
    ensures Trunc(t, n) == t
    decreases t, 0
  {
    TruncAllWhole(t.kids, n - 1);
  }

  lemma {:induction false} TruncAllWhole(ts: seq<Tree>, n: nat)
    requires n >= SizeAll(ts)
    ensures TruncAll(ts, n) == ts
    decreases ts, 1
  {
    if ts != [] && n > 0 {
      TruncWhole(ts[0], n);
      TruncAllWhole(ts[1..], n - Size(ts[0]));
    }
  }

  // ----- main results

  /** Recorded nodes other than the root have a recorded parent with a smaller index. */
  lemma ParentsRecorded(t: Tree, j: nat)
    requires 0 < j < |Encode(t, -1, [])|
    ensures Encode(t, -1, [])[0].parent == -1 && 0 <= Encode(t, -1, [])[j].parent < j
  {
    EncodeIsPrefix(t, -1, []);
    assert [] + Flat(t, -1, 0) == Flat(t, -1, 0);
    FlatParents(t, -1, 0, j);
  }

  /** Loading what was saved gives the mirror of the first sixteen nodes, for a tree of any size. */
  lemma LoadAfterSave(t: Tree)
    ensures Decode(Encode(t, -1, []), 0) == Mirror(Trunc(t, MAX_DISK_NODES))
  {
    EncodeIsPrefix(t, -1, []);
    assert [] + Flat(t, -1, 0) == Flat(t, -1, 0);
    FlatTrunc(t, MAX_DISK_NODES, -1, 0);
    var cut := Trunc(t, MAX_DISK_NODES);
    var rs := Encode(t, -1, []);
    assert rs == Flat(cut, -1, 0);
    assert rs[0..0 + Size(cut)] == rs;
    DecodeFlat(rs, 0, cut, -1);
  }

  lemma {:induction false} MirrorTwice(t: Tree)
    ensures Mirror(Mirror(t)) == t && Size(Mirror(t)) == Size(t)
    decreases t, 0
  {
    MirrorAllTwice(t.kids);
  }

  lemma {:induction false} MirrorAllTwice(ts: seq<Tree>)
    ensures MirrorAll(MirrorAll(ts)) == ts && SizeAll(MirrorAll(ts)) == SizeAll(ts)
    decreases ts, 1
  {
    if ts != [] {
      MirrorTwice(ts[0]);
      MirrorAllTwice(ts[1..]);
      MirrorConcat(MirrorAll(ts[1..]), [Mirror(ts[0])]);
      assert [Mirror(ts[0])][1..] == [];
      assert MirrorAll([Mirror(ts[0])]) == [ts[0]];
    }
  }

  lemma {:induction false} MirrorConcat(xs: seq<Tree>, ys: seq<Tree>)
    ensures MirrorAll(xs + ys) == MirrorAll(ys) + MirrorAll(xs)
    ensures SizeAll(xs + ys) == SizeAll(xs) + SizeAll(ys)
  {
    if xs == [] {
      assert xs + ys == ys;
    } else {
      assert (xs + ys)[1..] == xs[1..] + ys;
      MirrorConcat(xs[1..], ys);
    }
  }

  /** For trees that fit, a load after a save reverses every sibling list, and two rounds are the identity. */
  lemma TwoRoundsIdentity(t: Tree)
    requires Size(t) <= MAX_DISK_NODES
    ensures Decode(Encode(t, -1, []), 0) == Mirror(t)
    ensures Decode(Encode(Decode(Encode(t, -1, []), 0), -1, []), 0) == t
  {
    LoadAfterSave(t);
    TruncWhole(t, MAX_DISK_NODES);
    MirrorTwice(t);
    LoadAfterSave(Mirror(t));
    TruncWhole(Mirror(t), MAX_DISK_NODES);
  }
}
