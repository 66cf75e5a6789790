/** The in-memory file system of fs.c: nodes and data buffers on the heap, linked in place. */
module FileSystem {
  import opened Common
  import opened FsCodec
  import opened FsLinks
  import opened FsState

  datatype Kind = Anything | Directories | Files

  /** The `content` argument of fs_write_file. */
  datatype Text = Null | Text(bytes: seq<Byte>)

  datatype RmResult = RootRefused | NotFound | InUse | Removed

  predicate Matches(nodes: Nodes, x: nat, name: string, kind: Kind) {
    && x in nodes && name == nodes[x].name
    && (kind == Directories ==> nodes[x].isDir) && (kind == Files ==> !nodes[x].isDir)
  }

  /** Position of the first match in a child list, its length when there is none. */
  ghost function FirstMatch(nodes: Nodes, list: seq<nat>, name: string, kind: Kind): (k: nat)
    ensures k <= |list|
    ensures forall i :: 0 <= i < k ==> !Matches(nodes, list[i], name, kind)
    ensures k < |list| ==> Matches(nodes, list[k], name, kind)
  {
    if list == [] || Matches(nodes, list[0], name, kind) then 0
    else 1 + FirstMatch(nodes, list[1..], name, kind)
  }

  /** What is found has the name asked for, whole, and the kind; whatever comes before it has another name or
      is of the other kind. */
  lemma FoundByName(nodes: Nodes, list: seq<nat>, name: string, kind: Kind)
    requires forall x :: x in list ==> x in nodes
    ensures var k := FirstMatch(nodes, list, name, kind);
            && (k < |list| ==>
                  && nodes[list[k]].name == name
                  && (kind == Directories ==> nodes[list[k]].isDir) && (kind == Files ==> !nodes[list[k]].isDir))
            && forall i :: 0 <= i < k && nodes[list[i]].name == name ==>
                 (kind == Directories && !nodes[list[i]].isDir) || (kind == Files && nodes[list[i]].isDir)
  {
    var k := FirstMatch(nodes, list, name, kind);
    forall i | 0 <= i < k && nodes[list[i]].name == name
      ensures (kind == Directories && !nodes[list[i]].isDir) || (kind == Files && nodes[list[i]].isDir)
    {
      assert !Matches(nodes, list[i], name, kind);
    }
  }

  lemma FirstMatchIs(nodes: Nodes, list: seq<nat>, name: string, kind: Kind, k: nat)
    requires k <= |list| && forall i :: 0 <= i < k ==> !Matches(nodes, list[i], name, kind)
    requires k < |list| ==> Matches(nodes, list[k], name, kind)
    ensures FirstMatch(nodes, list, name, kind) == k
  {
  }

  /** The node a lookup in a child list finds, NULL when there is none. */
  ghost function Lookup(nodes: Nodes, list: seq<nat>, name: string, kind: Kind): nat {
    AddrAt(list, FirstMatch(nodes, list, name, kind))
  }

  ghost function KidsAt(kids: Kids, d: nat): seq<nat> { if d in kids then kids[d] else [] }

  ghost function ParentOf(nodes: Nodes, x: nat): nat { if x in nodes then nodes[x].parent else 0 }

  /** A leaf was added in front of the children of d, and nothing else changed. */
  ghost predicate Grown(nodes: Nodes, nodes': Nodes, kids: Kids, kids': Kids, d: nat, c: nat, node: FsNode) {
    && c != 0 && c !in nodes && d in nodes && d in kids
    && nodes' == Adopted(nodes, d, c, node) && kids' == KidsWith(kids, d, c)
  }

  /** Node c is there under this name, in front of the children, and what a lookup of that name finds. */
  ghost predicate AddedAs(nodes: Nodes, list: seq<nat>, nodes': Nodes, list': seq<nat>,
                          c: nat, name: string, isDir: bool)
  {
    && c !in nodes && nodes'.Keys == nodes.Keys + {c} && list' == [c] + list
    && nodes'[c].name == name && nodes'[c].isDir == isDir && nodes'[c].data == 0 && nodes'[c].size == 0
    && Lookup(nodes', list', name, if isDir then Directories else Files) == c
  }

  /** File f holds `bytes` in buffer p; its old buffer is gone; every other node is as it was. */
  ghost predicate Wrote(nodes: Nodes, bufs: Bufs, nodes': Nodes, bufs': Bufs, f: nat, p: nat, bytes: seq<Byte>) {
    && f in nodes && f in nodes'
    && nodes' == WithData(nodes, f, p, |bytes|) && bufs' == Refilled(nodes, bufs, f, p, bytes)
    && Content(nodes'[f], bufs') == bytes && nodes'[f].data == p && nodes'[f].size == |bytes|
    && (p != 0 ==> p in bufs' && bufs'[p] == bytes)
    && OthersKeep(nodes, bufs, nodes', bufs', f)
  }

  ghost predicate OthersKeep(nodes: Nodes, bufs: Bufs, nodes': Nodes, bufs': Bufs, f: nat) {
    forall x :: x in nodes && x != f ==>
      x in nodes' && nodes'[x] == nodes[x] && Content(nodes'[x], bufs') == Content(nodes[x], bufs)
  }

  /** Child k of d, everything below it and all their buffers are gone, and nothing else. */
  ghost predicate Cut(nodes: Nodes, bufs: Bufs, kids: Kids, d: nat, k: nat, rank: Rank,
                      nodes': Nodes, bufs': Bufs, kids': Kids) {
    && d in kids && k < |kids[d]|
    && nodes' == Pruned(nodes, kids, rank, d, k) && kids' == PrunedKids(nodes, kids, rank, d, k)
    && bufs' == bufs - DataOf(nodes, Sub(nodes, rank, kids[d][k]))
  }

  class FileTree {
    var nodes: Nodes
    var bufs: Bufs
    var root: nat
    var currentDir: nat
    /** Children of each node in list order, and a rank that grows from parent to child. */
    ghost var kids: Kids
    ghost var rank: Rank

    constructor ()
      ensures nodes == map[] && bufs == map[] && root == 0 && currentDir == 0
    {
      nodes, bufs, root, currentDir, kids, rank := map[], map[], 0, 0, map[], map[];
    }

    ghost predicate Valid()
      reads this
    {
      TreeOk(nodes, bufs, kids, rank, root, currentDir)
    }

    /** The directory tree from the root. */
    ghost function Whole(): Tree
      requires Valid()
      reads this
    {
      TreeOf(nodes, bufs, kids, rank, root)
    }

    ghost function Here(): seq<nat>
      reads this
    {
      KidsAt(kids, currentDir)
    }

    /** What kmalloc may answer: NULL, or an address nobody holds. */
    predicate Grantable(answer: nat)
      reads this
    {
      answer == 0 || (answer !in nodes && answer !in bufs)
    }

    // ----- the heap calls

    /** `kfree` of a node; it must be allocated. */
    method KfreeNode(p: nat)
      requires p in nodes
      modifies this`nodes
      ensures nodes == old(nodes) - {p}
    {
      nodes := nodes - {p};
    }

    /** `kfree` of a data buffer; it must be allocated. */
    method KfreeBuf(p: nat)
      requires p in bufs
      modifies this`bufs
      ensures bufs == old(bufs) - {p}
    {
      bufs := bufs - {p};
    }

    // ----- creation

    /** A node without links, its name cut to the field. */
    method CreateNode(name: string, isDir: bool, answer: nat) returns (p: nat)
      requires Grantable(answer)
      modifies this`nodes
      ensures p == answer
      ensures nodes == if p == 0 then old(nodes) else old(nodes)[p := Fresh(name, isDir)]
      ensures p != 0 ==> nodes[p] == FsNode(name[..Min(|name|, 31)], isDir, 0, 0, 0, 0, 0)
    {
      p := answer;
      if p == 0 { return; }
      var field := "";
      var i := 0;
      while i < MAX_NAME_LEN - 1 && i < |name|
        invariant 0 <= i <= |name| && i < MAX_NAME_LEN && field == name[..i]
        invariant nodes == old(nodes)
      {
        field := field + [name[i]];
        i := i + 1;
      }
      assert field == Clip(name);
      nodes := nodes[p := FsNode(field, isDir, 0, 0, 0, 0, 0)];
    }

    /** Links a fresh node as first child of the current directory. */
    method AddHere(c: nat, node: FsNode, ghost n0: Nodes)
      requires TreeOk(n0, bufs, kids, rank, root, currentDir) && currentDir in nodes
      requires c != 0 && c !in n0 && c !in bufs && nodes == n0[c := node]
      requires Loose(node) && |node.name| < MAX_NAME_LEN
      modifies this`nodes, this`kids, this`rank
      ensures Valid() && Grown(n0, nodes, old(kids), kids, currentDir, c, node)
    {
      hide TreeOk, KidsWith, RankWith;
      AdoptedOk(n0, bufs, kids, rank, root, currentDir, c, node);
      InTree(n0, bufs, kids, rank, root, currentDir);
      nodes := nodes[c := nodes[c].(parent := currentDir)];
      nodes := nodes[c := nodes[c].(next := nodes[currentDir].children)];
      nodes := nodes[currentDir := nodes[currentDir].(children := c)];
      assert nodes == Adopted(n0, currentDir, c, node);
      kids, rank := KidsWith(kids, currentDir, c), RankWith(rank, currentDir, c);
    }

    method Mkdir(name: string, answer: nat) returns (r: int)
      requires Valid() && Grantable(answer)
      modifies this`nodes, this`kids, this`rank
      ensures Valid() && r == if answer == 0 then -1 else 0
      ensures answer == 0 ==> nodes == old(nodes) && kids == old(kids) && rank == old(rank)
      ensures answer != 0 ==>
                var field := name[..Min(|name|, 31)];
                && Grown(old(nodes), nodes, old(kids), kids, currentDir, answer, Fresh(name, true))
                && AddedAs(old(nodes), old(Here()), nodes, Here(), answer, field, true)
                && (Lookup(nodes, Here(), name, Directories) == answer <==> |name| < MAX_NAME_LEN)
    {
      hide TreeOk, Adopted, KidsWith, Lookup;
      InTree(nodes, bufs, kids, rank, root, currentDir);
      var newDir := CreateNode(name, true, answer);
      if newDir == 0 { return -1; }
      AddHere(newDir, Fresh(name, true), old(nodes));
      FoundIff(old(nodes), nodes, bufs, old(kids), kids, rank, root, currentDir, newDir, name, true);
      IsAdded(old(nodes), nodes, old(kids), kids, currentDir, newDir, name, true);
      hide AddedAs;
      return 0;
    }

    // ----- looking up a child

    /** The first matching child of the current directory and its predecessor, or NULL. */
    method FindChild(name: string, kind: Kind) returns (curr: nat, prev: nat, ghost k: nat)
      requires Valid()
      ensures k == FirstMatch(nodes, Here(), name, kind)
      ensures curr == AddrAt(Here(), k) && prev == Before(Here(), k)
      ensures curr == 0 <==> k == |Here()|
      ensures curr != 0 ==> Matches(nodes, curr, name, kind)
    {
      hide TreeOk;
      InTree(nodes, bufs, kids, rank, root, currentDir);
      ghost var list := Here();
      curr, prev, k := nodes[currentDir].children, 0, 0;
      ChainHead(nodes, bufs, kids, rank, root, currentDir);
      while curr != 0
        invariant k <= |list| && curr == AddrAt(list, k) && prev == Before(list, k)
        invariant curr == 0 <==> k == |list|
        invariant forall i :: 0 <= i < k ==> !Matches(nodes, list[i], name, kind)
        decreases |list| - k
      {
        ChainStep(nodes, bufs, kids, rank, root, currentDir, k);
        if Matches(nodes, curr, name, kind) { break; }
        prev := curr;
        curr := nodes[curr].next;
        k := k + 1;
      }
      FirstMatchIs(nodes, list, name, kind, k);
    }

    method CreateFile(name: string, answer: nat) returns (r: int)
      requires Valid() && Grantable(answer)
      modifies this`nodes, this`kids, this`rank
      ensures Valid()
      ensures var taken := FirstMatch(old(nodes), old(Here()), name, Anything) < |old(Here())|;
              && r == (if taken || answer == 0 then -1 else 0)
              && (r == -1 ==> nodes == old(nodes) && kids == old(kids) && rank == old(rank))
      ensures r == 0 ==>
                var field := name[..Min(|name|, 31)];
                && Grown(old(nodes), nodes, old(kids), kids, currentDir, answer, Fresh(name, false))
                && AddedAs(old(nodes), old(Here()), nodes, Here(), answer, field, false)
                && (Lookup(nodes, Here(), name, Files) == answer <==> |name| < MAX_NAME_LEN)
    {
      hide TreeOk, Adopted, KidsWith, FirstMatch, Lookup;
      InTree(nodes, bufs, kids, rank, root, currentDir);
      ghost var k;
      var curr, prev;
      curr, prev, k := FindChild(name, Anything);
      if curr != 0 { return -1; }
      var newFile := CreateNode(name, false, answer);
      if newFile == 0 { return -1; }
      AddHere(newFile, Fresh(name, false), old(nodes));
      FoundIff(old(nodes), nodes, bufs, old(kids), kids, rank, root, currentDir, newFile, name, false);
      IsAdded(old(nodes), nodes, old(kids), kids, currentDir, newFile, name, false);
      hide AddedAs;
      return 0;
    }

    method Cd(name: string) returns (r: int)
      requires Valid()
      modifies this`currentDir
      ensures Valid()
      ensures name == ".." ==>
                && r == 0
                && currentDir == (var up := ParentOf(nodes, old(currentDir)); if up != 0 then up else old(currentDir))
      ensures name != ".." ==>
                var list, k := old(Here()), FirstMatch(nodes, old(Here()), name, Directories);
                if k < |list| then r == 0 && currentDir == list[k] else r == -1 && currentDir == old(currentDir)
    {
      hide TreeOk;
      InTree(nodes, bufs, kids, rank, root, currentDir);
      if name == ".." {
        ParentIsDir(nodes, bufs, kids, rank, root, currentDir);
        if nodes[currentDir].parent != 0 { currentDir := nodes[currentDir].parent; }
        return 0;
      }
      ghost var k;
      var curr, prev;
      curr, prev, k := FindChild(name, Directories);
      if curr == 0 { return -1; }
      OtherDir(nodes, bufs, kids, rank, root, currentDir, curr);
      currentDir := curr;
      return 0;
    }

    // ----- file contents

    /** Data pointer of the file a write would hit, 0 when there is none. */
    ghost function Target(name: string): nat
      reads this
    {
      var k := FirstMatch(nodes, Here(), name, Files);
      if k < |Here()| then nodes[Here()[k]].data else 0
    }

    /** The copy loop into a buffer kmalloc returned with unknown contents. */
    method FillBuf(p: nat, content: seq<Byte>, size: nat)
      requires size <= |content|
      modifies this`bufs
      ensures bufs == old(bufs)[p := content[..size]]
    {
      var garbage: seq<Byte> := seq(size, _ => 0);
      bufs := bufs[p := garbage];
      var i := 0;
      while i < size
        invariant i <= size && p in bufs && |bufs[p]| == size && bufs[p][..i] == content[..i]
        invariant bufs == old(bufs)[p := bufs[p]]
      {
        bufs := bufs[p := bufs[p][i := content[i]]];
        i := i + 1;
      }
      assert bufs[p] == content[..size];
    }

    method WriteFile(name: string, content: Text, size: nat, answer: nat) returns (r: int)
      requires Valid() && (content.Text? ==> size <= |content.bytes|)
      requires answer != 0 ==> answer !in nodes && answer !in bufs - {Target(name)}
      modifies this`nodes, this`bufs
      ensures Valid()
      ensures var k, list := FirstMatch(old(nodes), Here(), name, Files), Here();
              if size > 512 || k == |list| then r == -1 && nodes == old(nodes) && bufs == old(bufs)
              else
                var p := if size == 0 || content.Null? then 0 else answer;
                && r == (if size > 0 && content.Text? && answer == 0 then -1 else 0)
                && Wrote(old(nodes), old(bufs), nodes, bufs, list[k], p, if p == 0 then [] else content.bytes[..size])
    {
      hide TreeOk, Wrote, FirstMatch;
      if size > SECTOR_SIZE { return -1; }
      ghost var k;
      var curr, prev;
      curr, prev, k := FindChild(name, Files);
      if curr == 0 { return -1; }
      ClearedIs(nodes, bufs, kids, rank, root, currentDir, curr);
      if nodes[curr].data != 0 {
        KfreeBuf(nodes[curr].data);
        nodes := nodes[curr := nodes[curr].(data := 0, size := 0)];
      }
      if size == 0 || content.Null? {
        WriteDone(old(nodes), old(bufs), kids, rank, root, currentDir, curr, 0, []);
        return 0;
      }
      if answer == 0 {
        WriteDone(old(nodes), old(bufs), kids, rank, root, currentDir, curr, 0, []);
        nodes := nodes[curr := nodes[curr].(data := 0)];
        assert nodes == WithData(old(nodes), curr, 0, 0);
        return -1;
      }
      nodes := nodes[curr := nodes[curr].(data := answer)];
      FillBuf(answer, content.bytes, size);
      nodes := nodes[curr := nodes[curr].(size := size)];
      assert nodes == WithData(old(nodes), curr, answer, size);
      assert bufs == Refilled(old(nodes), old(bufs), curr, answer, content.bytes[..size]);
      WriteDone(old(nodes), old(bufs), kids, rank, root, currentDir, curr, answer, content.bytes[..size]);
      return 0;
    }

    // ----- removal

    /** Whether target is node or one of its ancestors. */
    method IsParentOf(target: nat, node: nat) returns (found: bool)
      requires Valid() && node in nodes && target != 0
      ensures found == Under(nodes, rank, node, target)
    {
      hide TreeOk;
      var curr := node;
      while curr != 0
        invariant curr == 0 || curr in nodes
        invariant Under(nodes, rank, node, target) == Under(nodes, rank, curr, target)
        decreases if curr in rank then rank[curr] + 1 else 0
      {
        if curr == target { return true; }
        UpStep(nodes, bufs, kids, rank, root, currentDir, curr);
        UpUnder(nodes, rank, curr, target);
        curr := nodes[curr].parent;
      }
      InTree(nodes, bufs, kids, rank, root, currentDir);
      return false;
    }

    /** Frees the subtree of `node` as it stands in the snapshot n0: each node and each buffer once. */
    method FreeNodeRecursive(node: nat, ghost n0: Nodes, ghost ks: Kids, ghost rk: Rank, ghost top: nat)
      requires Links(n0, ks, rk) && Rooted(n0, ks, top) && DataUnique(n0)
      requires node != 0 ==> node in n0 && node != top && Intact(nodes, bufs, n0, Sub(n0, rk, node))
      modifies this`nodes, this`bufs
      ensures nodes == if node == 0 then old(nodes) else old(nodes) - Sub(n0, rk, node)
      ensures bufs == if node == 0 then old(bufs) else old(bufs) - DataOf(n0, Sub(n0, rk, node))
      decreases Sub(n0, rk, node)
    {
      hide Links, Rooted, DataUnique, Sub, DataOf, Freed, Intact;
      if node == 0 { return; }
      SubtreeTop(nodes, bufs, n0, ks, rk, node);
      var currChild := nodes[node].children;
      ghost var k := 0;
      FreedNone(n0, ks, rk, node, nodes, bufs);
      while currChild != 0
        invariant k <= |ks[node]| && currChild == AddrAt(ks[node], k)
        invariant currChild == 0 <==> k == |ks[node]|
        invariant nodes == old(nodes) - Freed(n0, ks, rk, node, k)
        invariant bufs == old(bufs) - DataOf(n0, Freed(n0, ks, rk, node, k))
        decreases |ks[node]| - k
      {
        BeforeChild(old(nodes), old(bufs), n0, ks, rk, top, node, k);
        var nextChild := nodes[currChild].next;
        FreeNodeRecursive(currChild, n0, ks, rk, top);
        FreedStep(old(nodes), old(bufs), n0, ks, rk, node, k);
        currChild := nextChild;
        k := k + 1;
      }
      LastFreed(old(nodes), old(bufs), n0, ks, rk, top, node);
      if nodes[node].data != 0 { KfreeBuf(nodes[node].data); }
      KfreeNode(node);
    }

    method Rm(name: string) returns (r: RmResult)
      requires Valid()
      modifies this`nodes, this`bufs, this`kids, this`rank
      ensures Valid()
      ensures var k, list := FirstMatch(old(nodes), old(Here()), name, Anything), old(Here());
              && r == (if name == "root" then RootRefused else if k == |list| then NotFound else Removed)
              && (r != Removed ==> nodes == old(nodes) && bufs == old(bufs) && kids == old(kids) && rank == old(rank))
              && (r == Removed ==>
                    && Cut(old(nodes), old(bufs), old(kids), currentDir, k, old(rank), nodes, bufs, kids)
                    && rank == old(rank) - Sub(old(nodes), old(rank), list[k]))
    {
      hide TreeOk, FirstMatch, Cut, Under, Sub;
      if name == "root" { return RootRefused; }
      ghost var k;
      var current, prev;
      current, prev, k := FindChild(name, Anything);
      if current == 0 { return NotFound; }
      InTree(nodes, bufs, kids, rank, root, currentDir);
      var inUse := IsParentOf(current, currentDir);
      NotInUse(nodes, bufs, kids, rank, root, currentDir, k);
      r := InUse;
      if !inUse {
        Detach(current, prev, k);
        r := Removed;
      }
    }

    /** Unlinks child k of the current directory and frees its subtree. */
    method Detach(current: nat, prev: nat, ghost k: nat)
      requires Valid() && k < |Here()| && current == Here()[k] && prev == Before(Here(), k)
      modifies this`nodes, this`bufs, this`kids, this`rank
      ensures Valid()
      ensures Cut(old(nodes), old(bufs), old(kids), currentDir, k, old(rank), nodes, bufs, kids)
      ensures rank == old(rank) - Sub(old(nodes), old(rank), current)
    {
      hide TreeOk, Pruned, PrunedKids, Links, Rooted, DataUnique, Sub, DataOf, Intact;
      InTree(nodes, bufs, kids, rank, root, currentDir);
      PrunedOk(nodes, bufs, kids, rank, root, currentDir, k);
      ghost var n0, b0 := nodes, bufs;
      Unlink(current, prev, k);
      FreeNodeRecursive(current, n0, kids, rank, root);
      PrunedIs(n0, kids, rank, currentDir, k);
      ghost var gone := Sub(n0, rank, current);
      kids := PrunedKids(n0, kids, rank, currentDir, k);
      rank := rank - gone;
    }

    /** The relinking of fs_rm; the subtree to go keeps its own links. */
    method Unlink(current: nat, prev: nat, ghost k: nat)
      requires Valid() && k < |Here()| && current == Here()[k] && prev == Before(Here(), k)
      modifies this`nodes
      ensures currentDir in kids && k < |kids[currentDir]| && currentDir in old(nodes)
      ensures nodes == Patched(old(nodes), prev, currentDir, AddrAt(kids[currentDir], k + 1))
      ensures Links(old(nodes), kids, rank) && Rooted(old(nodes), kids, root) && DataUnique(old(nodes))
      ensures current in old(nodes) && current != root
      ensures Intact(nodes, bufs, old(nodes), Sub(old(nodes), rank, current))
    {
      hide TreeOk, Links, Rooted, DataUnique, Sub, Intact;
      InTree(nodes, bufs, kids, rank, root, currentDir);
      UnlinkFacts(nodes, bufs, kids, rank, root, currentDir, k);
      if prev != 0 {
        nodes := nodes[prev := nodes[prev].(next := nodes[current].next)];
      } else {
        nodes := nodes[currentDir := nodes[currentDir].(children := nodes[current].next)];
      }
    }

    /** Removing a directory just made gives back every node, buffer and link as it was. */
    method MkdirThenRm(name: string, answer: nat) returns (r: RmResult)
      requires Valid() && Grantable(answer) && answer != 0 && name != "root" && |name| < MAX_NAME_LEN
      modifies this`nodes, this`bufs, this`kids, this`rank
      ensures Valid() && r == Removed
      ensures nodes == old(nodes) && bufs == old(bufs) && kids == old(kids)
    {
      hide TreeOk, Adopted, KidsWith, FirstMatch, Pruned, PrunedKids, Sub, DataOf;
      var made := Mkdir(name, answer);
      JustMade(old(nodes), nodes, bufs, old(kids), kids, old(rank), rank, root, currentDir, answer, name);
      r := Rm(name);
    }
  }

  // ----- what the operations use of the invariant

  lemma InTree(nodes: Nodes, bufs: Bufs, kids: Kids, rank: Rank, root: nat, dir: nat)
    requires TreeOk(nodes, bufs, kids, rank, root, dir)
    ensures dir in nodes && dir in kids && dir in rank && nodes[dir].isDir && root in nodes && 0 !in nodes
  {}

  lemma ChainHead(nodes: Nodes, bufs: Bufs, kids: Kids, rank: Rank, root: nat, dir: nat)
    requires TreeOk(nodes, bufs, kids, rank, root, dir)
    ensures dir in nodes && nodes[dir].children == AddrAt(KidsAt(kids, dir), 0)
    ensures KidsAt(kids, dir) != [] ==> KidsAt(kids, dir)[0] != 0
  {
    assert KidsOk(nodes, kids, rank, dir);
    if KidsAt(kids, dir) != [] { KidUnder(nodes, kids, rank, dir, 0); }
    hide Links, Rooted, RootOk, DataOk, NodesOk;
  }

  lemma ChainStep(nodes: Nodes, bufs: Bufs, kids: Kids, rank: Rank, root: nat, dir: nat, k: nat)
    requires TreeOk(nodes, bufs, kids, rank, root, dir) && k < |KidsAt(kids, dir)|
    ensures var list := KidsAt(kids, dir);
            && list[k] in nodes && nodes[list[k]].next == AddrAt(list, k + 1)
            && (k + 1 < |list| ==> list[k + 1] != 0)
  {
    KidUnder(nodes, kids, rank, dir, k);
    if k + 1 < |kids[dir]| { KidUnder(nodes, kids, rank, dir, k + 1); }
    hide Links, Rooted, RootOk, DataOk, NodesOk;
  }

  lemma OtherDir(nodes: Nodes, bufs: Bufs, kids: Kids, rank: Rank, root: nat, dir: nat, dir': nat)
    requires TreeOk(nodes, bufs, kids, rank, root, dir) && dir' in nodes && nodes[dir'].isDir
    ensures TreeOk(nodes, bufs, kids, rank, root, dir')
  {}

  lemma ParentIsDir(nodes: Nodes, bufs: Bufs, kids: Kids, rank: Rank, root: nat, x: nat)
    requires TreeOk(nodes, bufs, kids, rank, root, x)
    ensures nodes[x].parent != 0 ==> TreeOk(nodes, bufs, kids, rank, root, nodes[x].parent)
  {
    if nodes[x].parent != 0 { assert Hangs(nodes, kids, x); }
  }

  /** Clearing a file without data changes nothing. */
  lemma ClearedIs(nodes: Nodes, bufs: Bufs, kids: Kids, rank: Rank, root: nat, dir: nat, f: nat)
    requires TreeOk(nodes, bufs, kids, rank, root, dir) && f in nodes
    ensures nodes[f].data == 0 ==> nodes == WithData(nodes, f, 0, 0) && bufs == bufs - {0}
    ensures nodes[f].data != 0 ==> nodes[f].data in bufs
  {
    hide Links, Rooted, RootOk, NodesOk;
    ClearedData(nodes, bufs, f);
  }

  lemma ClearedData(nodes: Nodes, bufs: Bufs, f: nat)
    requires DataOk(nodes, bufs) && f in nodes
    ensures nodes[f].data == 0 ==> nodes == WithData(nodes, f, 0, 0) && bufs == bufs - {0}
    ensures nodes[f].data != 0 ==> nodes[f].data in bufs
  {
    assert DataAt(nodes[f], bufs);
  }

  lemma WriteDone(nodes: Nodes, bufs: Bufs, kids: Kids, rank: Rank, root: nat, dir: nat, f: nat, p: nat,
                  bytes: seq<Byte>)
    requires TreeOk(nodes, bufs, kids, rank, root, dir) && f in nodes && !nodes[f].isDir
    requires p != 0 ==> p !in nodes && p !in bufs - {nodes[f].data} && 0 < |bytes| <= SECTOR_SIZE
    requires p == 0 ==> bytes == []
    ensures TreeOk(WithData(nodes, f, p, |bytes|), Refilled(nodes, bufs, f, p, bytes), kids, rank, root, dir)
    ensures Wrote(nodes, bufs, WithData(nodes, f, p, |bytes|), Refilled(nodes, bufs, f, p, bytes), f, p, bytes)
  {
    hide Links, Rooted, RootOk, NodesOk, DataOk, Refilled, Content;
    WriteOk(nodes, bufs, kids, rank, root, dir, f, p, bytes);
    WriteContents(nodes, bufs, f, p, bytes);
  }

  /** The in-use guard of fs_rm asks a question whose answer is always no. */
  lemma NotInUse(nodes: Nodes, bufs: Bufs, kids: Kids, rank: Rank, root: nat, dir: nat, k: nat)
    requires TreeOk(nodes, bufs, kids, rank, root, dir) && k < |KidsAt(kids, dir)|
    ensures !Under(nodes, rank, dir, KidsAt(kids, dir)[k])
  {
    NotAboveItself(nodes, kids, rank, dir, k);
  }

  lemma UpStep(nodes: Nodes, bufs: Bufs, kids: Kids, rank: Rank, root: nat, dir: nat, x: nat)
    requires TreeOk(nodes, bufs, kids, rank, root, dir) && x in nodes
    ensures x in rank && (nodes[x].parent == 0 || (nodes[x].parent in nodes && nodes[x].parent in rank))
    ensures nodes[x].parent in rank ==> rank[nodes[x].parent] < rank[x]
    ensures 0 !in rank && 0 !in nodes
  {
    if x != root {
      assert Hangs(nodes, kids, x);
      var q := nodes[x].parent;
      var i :| 0 <= i < |kids[q]| && kids[q][i] == x;
      KidUnder(nodes, kids, rank, q, i);
    }
    hide Under;
  }

  lemma UpUnder(nodes: Nodes, rank: Rank, x: nat, target: nat)
    requires x in nodes && x in rank && x != target && target != 0 && 0 !in rank && 0 !in nodes
    requires nodes[x].parent in rank ==> rank[nodes[x].parent] < rank[x]
    requires nodes[x].parent == 0 || nodes[x].parent in rank
    ensures Under(nodes, rank, x, target) == Under(nodes, rank, nodes[x].parent, target)
  {}

  lemma UnlinkFacts(nodes: Nodes, bufs: Bufs, kids: Kids, rank: Rank, root: nat, d: nat, k: nat)
    requires TreeOk(nodes, bufs, kids, rank, root, d) && k < |KidsAt(kids, d)|
    ensures var cur, prev := kids[d][k], Before(kids[d], k);
            && Links(nodes, kids, rank) && Rooted(nodes, kids, root) && DataUnique(nodes)
            && cur in nodes && cur != root && nodes[cur].next == AddrAt(kids[d], k + 1)
            && (prev == 0 || prev in nodes) && (prev == 0 <==> k == 0)
            && Intact(Patched(nodes, prev, d, AddrAt(kids[d], k + 1)), bufs, nodes, Sub(nodes, rank, cur))
  {
    hide DataOk, NodesOk, RootOk, Sub, Under, Patched, Intact;
    InTree(nodes, bufs, kids, rank, root, d);
    UnlinkEnds(nodes, kids, rank, root, d, k);
    hide Links, Rooted;
    UnlinkKeeps(nodes, bufs, kids, rank, d, k);
  }

  lemma UnlinkEnds(nodes: Nodes, kids: Kids, rank: Rank, root: nat, d: nat, k: nat)
    requires Links(nodes, kids, rank) && Rooted(nodes, kids, root) && d in nodes && k < |kids[d]|
    ensures var cur, prev := kids[d][k], Before(kids[d], k);
            && cur in nodes && cur != root && nodes[cur].next == AddrAt(kids[d], k + 1)
            && (prev == 0 || prev in nodes) && (prev == 0 <==> k == 0)
  {
    KidUnder(nodes, kids, rank, d, k);
    if k > 0 { KidUnder(nodes, kids, rank, d, k - 1); }
    hide Links, Under;
  }

  lemma UnlinkKeeps(nodes: Nodes, bufs: Bufs, kids: Kids, rank: Rank, d: nat, k: nat)
    requires Links(nodes, kids, rank) && DataOk(nodes, bufs) && d in nodes && d in kids && k < |kids[d]|
    ensures DataUnique(nodes)
    ensures Intact(Patched(nodes, Before(kids[d], k), d, AddrAt(kids[d], k + 1)), bufs,
                   nodes, Sub(nodes, rank, kids[d][k]))
  {
    hide Sub, Under, Patched, Before, AddrAt, Intact;
    HeldData(nodes, bufs, Sub(nodes, rank, kids[d][k]));
    UntouchedByUnlink(nodes, kids, rank, d, k);
    SubInNodes(nodes, rank, kids[d][k]);
    hide Links, DataOk, DataOf, DataUnique;
    IntactPatched(nodes, bufs, Before(kids[d], k), d, AddrAt(kids[d], k + 1), Sub(nodes, rank, kids[d][k]));
  }

  lemma SubInNodes(nodes: Nodes, rank: Rank, a: nat)
    ensures Sub(nodes, rank, a) <= nodes.Keys
  {}

  lemma IntactPatched(nodes: Nodes, bufs: Bufs, prev: nat, d: nat, to: nat, s: set<nat>)
    requires s <= nodes.Keys && prev !in s && d !in s && DataOf(nodes, s) <= bufs.Keys
    ensures Intact(Patched(nodes, prev, d, to), bufs, nodes, s)
  {}

  lemma UntouchedByUnlink(nodes: Nodes, kids: Kids, rank: Rank, d: nat, k: nat)
    requires Links(nodes, kids, rank) && d in nodes && k < |kids[d]|
    ensures d !in Sub(nodes, rank, kids[d][k]) && Before(kids[d], k) !in Sub(nodes, rank, kids[d][k])
  {
    NotAboveItself(nodes, kids, rank, d, k);
    if k > 0 {
      KidUnder(nodes, kids, rank, d, k - 1);
      SiblingsDisjoint(nodes, kids, rank, d, k - 1, k, kids[d][k - 1]);
    }
    hide Under;
  }

  lemma HeldData(nodes: Nodes, bufs: Bufs, s: set<nat>)
    requires DataOk(nodes, bufs)
    ensures DataOf(nodes, s) <= bufs.Keys && DataUnique(nodes)
  {
    forall b | b in DataOf(nodes, s) ensures b in bufs {
      var x :| x in s && x in nodes && nodes[x].data == b && b != 0;
      assert DataAt(nodes[x], bufs);
    }
  }

  lemma PrunedIs(nodes: Nodes, kids: Kids, rank: Rank, d: nat, k: nat)
    requires d in kids && k < |kids[d]|
    ensures Pruned(nodes, kids, rank, d, k)
         == Patched(nodes, Before(kids[d], k), d, AddrAt(kids[d], k + 1)) - Sub(nodes, rank, kids[d][k])
  {}

  // ----- freeing

  lemma SubtreeTop(nodes: Nodes, bufs: Bufs, n0: Nodes, ks: Kids, rk: Rank, p: nat)
    requires Links(n0, ks, rk) && p in n0 && Intact(nodes, bufs, n0, Sub(n0, rk, p))
    ensures p in nodes && nodes[p] == n0[p] && p in ks && nodes[p].children == AddrAt(ks[p], 0)
    ensures ks[p] != [] ==> ks[p][0] != 0
    ensures n0[p].data != 0 ==> n0[p].data in bufs
  {
    assert KidsOk(n0, ks, rk, p);
    assert p in Sub(n0, rk, p);
    if n0[p].data != 0 { assert n0[p].data in DataOf(n0, Sub(n0, rk, p)); }
    if ks[p] != [] { KidUnder(n0, ks, rk, p, 0); }
    hide Links, Under;
  }

  lemma FreedNone(n0: Nodes, ks: Kids, rk: Rank, p: nat, nodes: Nodes, bufs: Bufs)
    requires p in ks
    ensures nodes - Freed(n0, ks, rk, p, 0) == nodes && bufs - DataOf(n0, Freed(n0, ks, rk, p, 0)) == bufs
  {}

  /** Child k is untouched when its turn comes. */
  lemma BeforeChild(nodes: Nodes, bufs: Bufs, n0: Nodes, ks: Kids, rk: Rank, top: nat, p: nat, k: nat)
    requires Links(n0, ks, rk) && Rooted(n0, ks, top) && DataUnique(n0) && p in n0 && k < |ks[p]|
    requires Intact(nodes, bufs, n0, Sub(n0, rk, p))
    ensures var c, f := ks[p][k], Freed(n0, ks, rk, p, k);
            && c in n0 && c != top && Sub(n0, rk, c) < Sub(n0, rk, p)
            && Intact(nodes - f, bufs - DataOf(n0, f), n0, Sub(n0, rk, c))
            && c in nodes - f && (nodes - f)[c].next == AddrAt(ks[p], k + 1)
    ensures k + 1 < |ks[p]| ==> ks[p][k + 1] != 0
  {
    var c, f := ks[p][k], Freed(n0, ks, rk, p, k);
    KidUnder(n0, ks, rk, p, k);
    if k + 1 < |ks[p]| { KidUnder(n0, ks, rk, p, k + 1); }
    NextUntouched(n0, ks, rk, p, k);
    assert c in Sub(n0, rk, c);
    hide Links, Sub, Under, Freed, DataUnique;
    IntactSub(nodes, bufs, n0, Sub(n0, rk, p), f, Sub(n0, rk, c));
    hide DataOf;
  }

  lemma FreedStep(nodes: Nodes, bufs: Bufs, n0: Nodes, ks: Kids, rk: Rank, p: nat, k: nat)
    requires p in ks && k < |ks[p]|
    ensures var f, f', s := Freed(n0, ks, rk, p, k), Freed(n0, ks, rk, p, k + 1), Sub(n0, rk, ks[p][k]);
            nodes - f - s == nodes - f' && bufs - DataOf(n0, f) - DataOf(n0, s) == bufs - DataOf(n0, f')
  {
    DataOfUnion(n0, Freed(n0, ks, rk, p, k), Sub(n0, rk, ks[p][k]));
    hide DataOf, Sub;
  }

  /** After the children only the node itself and its buffer are left. */
  lemma LastFreed(nodes: Nodes, bufs: Bufs, n0: Nodes, ks: Kids, rk: Rank, top: nat, p: nat)
    requires Links(n0, ks, rk) && Rooted(n0, ks, top) && DataUnique(n0) && p in n0 && p != top
    requires Intact(nodes, bufs, n0, Sub(n0, rk, p))
    ensures var f, s := Freed(n0, ks, rk, p, |ks[p]|), Sub(n0, rk, p);
            && p in nodes - f && (nodes - f)[p] == n0[p] && nodes - f - {p} == nodes - s
            && (n0[p].data != 0 ==>
                  n0[p].data in bufs - DataOf(n0, f)
                  && bufs - DataOf(n0, f) - {n0[p].data} == bufs - DataOf(n0, s))
            && (n0[p].data == 0 ==> bufs - DataOf(n0, f) == bufs - DataOf(n0, s))
  {
    var f, s := Freed(n0, ks, rk, p, |ks[p]|), Sub(n0, rk, p);
    hide Links, Rooted, Sub, Under, Freed;
    AllFreed(n0, ks, rk, top, p);
    LastOne(nodes, bufs, n0, s, f, p);
  }

  lemma LastOne(nodes: Nodes, bufs: Bufs, n0: Nodes, s: set<nat>, f: set<nat>, p: nat)
    requires Intact(nodes, bufs, n0, s) && DataUnique(n0) && s == f + {p} && p !in f && p in n0
    ensures p in nodes - f && (nodes - f)[p] == n0[p] && nodes - f - {p} == nodes - s
    ensures n0[p].data != 0 ==>
              n0[p].data in bufs - DataOf(n0, f) && bufs - DataOf(n0, f) - {n0[p].data} == bufs - DataOf(n0, s)
    ensures n0[p].data == 0 ==> bufs - DataOf(n0, f) == bufs - DataOf(n0, s)
  {
    DataOfUnion(n0, f, {p});
    DataOfOne(n0, p);
    IntactSub(nodes, bufs, n0, s, f, {p});
    hide DataUnique, DataOf;
  }

  // ----- undoing

  lemma FoundFirst(nodes: Nodes, nodes': Nodes, kids: Kids, kids': Kids, d: nat, c: nat, name: string)
    requires Grown(nodes, nodes', kids, kids', d, c, Fresh(name, true)) && c !in kids && |name| < MAX_NAME_LEN
    ensures FirstMatch(nodes', KidsAt(kids', d), name, Anything) == 0 < |KidsAt(kids', d)| && KidsAt(kids', d)[0] == c
    ensures kids'[c] == []
  {}

  /** A leaf in front of the children of d, taken out again. */
  lemma UndoAdopt(nodes: Nodes, kids: Kids, rank: Rank, d: nat, c: nat, node: FsNode, nodes': Nodes, kids': Kids,
                  rank': Rank)
    requires Links(nodes, kids, rank) && d in nodes && c !in nodes && c != 0 && Loose(node)
    requires nodes' == Adopted(nodes, d, c, node) && kids' == KidsWith(kids, d, c) && Sub(nodes', rank', c) == {c}
    ensures Pruned(nodes', kids', rank', d, 0) == nodes && PrunedKids(nodes', kids', rank', d, 0) == kids
    ensures DataOf(nodes', Sub(nodes', rank', c)) == {}
  {
    hide Sub, Pruned, PrunedKids, DataOf;
    assert KidsOk(nodes, kids, rank, d);
    InFront(kids, d, c);
    hide Links, Adopted;
    PrunedIs(nodes', kids', rank', d, 0);
    UndoNodes(nodes, kids, d, c, node, nodes', kids');
    PrunedKidsIs(nodes', kids', rank', d, 0);
    NoData(nodes', c);
  }

  lemma InFront(kids: Kids, d: nat, c: nat)
    requires d in kids && c !in kids
    ensures var kids' := KidsWith(kids, d, c);
            && d in kids' && kids'[d] == [c] + kids[d] && KidsCut(kids', d, 0) - {c} == kids
  {
    assert ([c] + kids[d])[..0] + ([c] + kids[d])[1..] == kids[d];
  }

  lemma UndoNodes(nodes: Nodes, kids: Kids, d: nat, c: nat, node: FsNode, nodes': Nodes, kids': Kids)
    requires d in nodes && c !in nodes && 0 !in nodes && c != 0 && d in kids && d in kids' && kids'[d] == [c] + kids[d]
    requires nodes[d].children == AddrAt(kids[d], 0) && nodes' == Adopted(nodes, d, c, node)
    ensures Patched(nodes', 0, d, AddrAt(kids'[d], 1)) - {c} == nodes
    ensures c in nodes' && nodes'[c].data == node.data
  {
    assert AddrAt(kids'[d], 1) == AddrAt(kids[d], 0);
  }

  lemma PrunedKidsIs(nodes: Nodes, kids: Kids, rank: Rank, d: nat, k: nat)
    requires d in kids && k < |kids[d]|
    ensures PrunedKids(nodes, kids, rank, d, k) == KidsCut(kids, d, k) - Sub(nodes, rank, kids[d][k])
  {}

  lemma NoData(nodes: Nodes, c: nat)
    requires c in nodes && nodes[c].data == 0
    ensures DataOf(nodes, {c}) == {}
  {}

  lemma LeafAlone(nodes: Nodes, bufs: Bufs, kids: Kids, rank: Rank, root: nat, d: nat, c: nat)
    requires TreeOk(nodes, bufs, kids, rank, root, d) && c in nodes && c != root && c in kids && kids[c] == []
    ensures Sub(nodes, rank, c) == {c}
  {
    AllFreed(nodes, kids, rank, root, c);
    hide Links, Rooted, Sub;
    assert Freed(nodes, kids, rank, c, 0) == {};
  }

  lemma JustMade(nodes: Nodes, nodes': Nodes, bufs: Bufs, kids: Kids, kids': Kids, rank: Rank, rank': Rank,
                 root: nat, d: nat, c: nat, name: string)
    requires TreeOk(nodes, bufs, kids, rank, root, d) && TreeOk(nodes', bufs, kids', rank', root, d)
    requires Grown(nodes, nodes', kids, kids', d, c, Fresh(name, true)) && |name| < MAX_NAME_LEN
    ensures FirstMatch(nodes', KidsAt(kids', d), name, Anything) == 0 < |KidsAt(kids', d)| && KidsAt(kids', d)[0] == c
    ensures d in kids' && KidsAt(kids', d) == kids'[d]
    ensures Pruned(nodes', kids', rank', d, 0) == nodes && PrunedKids(nodes', kids', rank', d, 0) == kids
    ensures bufs - DataOf(nodes', Sub(nodes', rank', c)) == bufs
  {
    hide TreeOk, Pruned, PrunedKids, Sub, DataOf, FirstMatch, Adopted, KidsWith;
    TreeParts(nodes, bufs, kids, rank, root, d, c);
    InTree(nodes', bufs, kids', rank', root, d);
    FoundFirst(nodes, nodes', kids, kids', d, c, name);
    LeafIn(nodes, nodes', kids, kids', d, c, Fresh(name, true));
    LeafAlone(nodes', bufs, kids', rank', root, d, c);
    UndoAdopt(nodes, kids, rank, d, c, Fresh(name, true), nodes', kids', rank');
  }

  lemma TreeParts(nodes: Nodes, bufs: Bufs, kids: Kids, rank: Rank, root: nat, d: nat, c: nat)
    requires TreeOk(nodes, bufs, kids, rank, root, d)
    ensures Links(nodes, kids, rank) && d in nodes && root in nodes && kids.Keys == nodes.Keys
  {}

  lemma LeafIn(nodes: Nodes, nodes': Nodes, kids: Kids, kids': Kids, d: nat, c: nat, node: FsNode)
    requires Grown(nodes, nodes', kids, kids', d, c, node) && c !in kids
    ensures c in nodes' && c in kids' && d in kids' && kids'[c] == []
  {}

  /** A node just made is found again under its name, by a lookup for its kind, exactly when the name fits. */
  lemma FoundIff(nodes: Nodes, nodes': Nodes, bufs: Bufs, kids: Kids, kids': Kids, rank: Rank, root: nat, d: nat,
                 c: nat,
                 name: string, isDir: bool)
    requires TreeOk(nodes', bufs, kids', rank, root, d) && Grown(nodes, nodes', kids, kids', d, c, Fresh(name, isDir))
    ensures Lookup(nodes', KidsAt(kids', d), name, if isDir then Directories else Files) == c <==> |name| < MAX_NAME_LEN
  {
    hide TreeOk;
    if |name| < MAX_NAME_LEN {
      NewIsFirst(nodes, nodes', kids, kids', d, c, name, isDir);
    } else {
      LongNameNeverFound(nodes', bufs, kids', rank, root, d, name, if isDir then Directories else Files);
    }
  }

  lemma NewIsFirst(nodes: Nodes, nodes': Nodes, kids: Kids, kids': Kids, d: nat, c: nat, name: string, isDir: bool)
    requires Grown(nodes, nodes', kids, kids', d, c, Fresh(name, isDir))
    ensures Lookup(nodes', KidsAt(kids', d), Clip(name), if isDir then Directories else Files) == c
  {
    assert KidsAt(kids', d) != [] && KidsAt(kids', d)[0] == c;
    assert Matches(nodes', c, Clip(name), if isDir then Directories else Files);
  }

  /** The name kept is the first 31 characters of the one given, and it is what finds the node. */
  lemma IsAdded(nodes: Nodes, nodes': Nodes, kids: Kids, kids': Kids, d: nat, c: nat, name: string, isDir: bool)
    requires Grown(nodes, nodes', kids, kids', d, c, Fresh(name, isDir))
    ensures AddedAs(nodes, KidsAt(kids, d), nodes', KidsAt(kids', d), c, name[..Min(|name|, 31)], isDir)
  {
    NewIsFirst(nodes, nodes', kids, kids', d, c, name, isDir);
    hide Lookup;
    assert Clip(name) == name[..Min(|name|, 31)];
  }

  /** A name too long for its field is never found, so a file made under it can neither be written, entered nor
      removed by that name, and making it again is not refused as a duplicate. */
  lemma LongNameNeverFound(nodes: Nodes, bufs: Bufs, kids: Kids, rank: Rank, root: nat, d: nat, name: string,
                           kind: Kind)
    requires TreeOk(nodes, bufs, kids, rank, root, d) && |name| >= MAX_NAME_LEN
    ensures FirstMatch(nodes, KidsAt(kids, d), name, kind) == |KidsAt(kids, d)|
  {
    var list := KidsAt(kids, d);
    forall i | 0 <= i < |list| ensures !Matches(nodes, list[i], name, kind) {
      KidUnder(nodes, kids, rank, d, i);
    }
    hide Links, Rooted, DataOk;
  }
}
