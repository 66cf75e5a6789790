/** Runs of the file system: commands on a tree with a current path, and the linked nodes that refine them. */
module FsShell {
  import opened FsCodec
  import opened FsLinks
  import opened FsState
  import opened FileSystem
  import opened FsTrees

  /** A shell request; `answer` is what kmalloc would return, 0 for NULL. */
  datatype Command =
    | Mkdir(name: string, answer: nat)
    | CreateFile(name: string, answer: nat)
    | Cd(name: string)
    | WriteFile(name: string, content: Text, size: nat, answer: nat)
    | Rm(name: string)

  /** A directory tree and the path of child positions to the current directory. */
  datatype State = State(whole: Tree, path: seq<nat>)

  function Dir(s: State): Tree { SubtreeAt(s.whole, s.path) }

  /** The state with other children of the current directory. */
  function WithKids(s: State, kids: seq<Tree>): State {
    s.(whole := ReplaceAt(s.whole, s.path, Parts(Dir(s), kids)))
  }

  predicate Named(t: Tree, name: string, kind: Kind) {
    name == t.name && (kind == Directories ==> t.isDir) && (kind == Files ==> !t.isDir)
  }

  /** Position of the first tree of that name and kind, the length when there is none. */
  function Find(ts: seq<Tree>, name: string, kind: Kind): (k: nat)
    ensures k <= |ts| && (k < |ts| ==> Named(ts[k], name, kind))
    ensures forall i :: 0 <= i < k ==> !Named(ts[i], name, kind)
  {
    if ts == [] || Named(ts[0], name, kind) then 0 else 1 + Find(ts[1..], name, kind)
  }

  /** One command on a tree; `granted` says whether kmalloc found memory for it. */
  function Step(s: State, c: Command, granted: bool): State {
    var ts := Dir(s).kids;
    match c
    case Mkdir(name, _) =>
      if granted then WithKids(s, [Node(Clip(name), true, [], [])] + ts) else s
    case CreateFile(name, _) =>
      if granted && Find(ts, name, Anything) == |ts| then WithKids(s, [Node(Clip(name), false, [], [])] + ts) else s
    case Cd(name) =>
      if name == ".." then s.(path := if s.path == [] then [] else s.path[..|s.path| - 1])
      else if Find(ts, name, Directories) < |ts| then s.(path := s.path + [Find(ts, name, Directories)])
      else s
    case WriteFile(name, content, size, _) =>
      var k := Find(ts, name, Files);
      if size > SECTOR_SIZE || k == |ts| || Short(content, size) then s
      else
        var bytes := if granted && size > 0 && content.Text? then content.bytes[..size] else [];
        WithKids(s, ts[k := Node(ts[k].name, false, bytes, [])])
    case Rm(name) =>
      var k := Find(ts, name, Anything);
      if name == "root" || k == |ts| then s else WithKids(s, ts[..k] + ts[k + 1..])
  }

  /** The caller passed fewer bytes than it announced. */
  predicate Short(content: Text, size: nat) { content.Text? && |content.bytes| < size }

  function Steps(s: State, cs: seq<Command>, granted: seq<bool>): State
    requires |granted| == |cs|
    decreases |cs|
  {
    if cs == [] then s else Step(Steps(s, cs[..|cs| - 1], granted[..|cs| - 1]), cs[|cs| - 1], granted[|cs| - 1])
  }

  /** Whether kmalloc's answer is one it can give: an address nobody holds, not even by the buffer a write has
      just freed. */
  ghost predicate Usable(fs: FileTree, c: Command)
    reads fs
  {
    match c
    case Mkdir(_, answer) => answer != 0 && fs.Grantable(answer)
    case CreateFile(_, answer) => answer != 0 && fs.Grantable(answer)
    case WriteFile(name, _, _, answer) =>
      answer != 0 && answer !in fs.nodes && answer !in fs.bufs - {fs.Target(name)}
    case _ => false
  }

  /** The linked nodes stand for this tree with this path. */
  ghost predicate At(fs: FileTree, s: State)
    reads fs
  {
    fs.Valid() && fs.Whole() == s.whole && Follow(fs.kids, fs.root, s.path) == fs.currentDir
  }

  // ----- lookups and paths

  /** Looking up a child in the chain and in the tree is the same. */
  lemma FindIs(nodes: Nodes, bufs: Bufs, kids: Kids, rank: Rank, d: nat, name: string, kind: Kind)
    requires Links(nodes, kids, rank) && d in nodes
    ensures var t := TreeOf(nodes, bufs, kids, rank, d);
            |t.kids| == |KidsAt(kids, d)| && FirstMatch(nodes, KidsAt(kids, d), name, kind) == Find(t.kids, name, kind)
  {
    KidTrees(nodes, bufs, kids, rank, d);
    var ts, list := TreeOf(nodes, bufs, kids, rank, d).kids, KidsAt(kids, d);
    forall i | 0 <= i < |list| ensures Matches(nodes, list[i], name, kind) == Named(ts[i], name, kind) {
      assert ts[i] == TreeOf(nodes, bufs, kids, rank, list[i]);
    }
    hide Links, TreeOf, Matches, Named;
    FirstMatchIs(nodes, list, name, kind, Find(ts, name, kind));
  }

  /** The tree at the path is that of the current directory. */
  lemma DirIs(nodes: Nodes, bufs: Bufs, kids: Kids, rank: Rank, root: nat, d: nat, path: seq<nat>)
    requires TreeOk(nodes, bufs, kids, rank, root, d) && Follow(kids, root, path) == d
    ensures SubtreeAt(TreeOf(nodes, bufs, kids, rank, root), path) == TreeOf(nodes, bufs, kids, rank, d)
  {
    forall x | x in nodes ensures Same(nodes, bufs, kids, nodes, bufs, kids, x) {}
    hide Same, Links, Rooted, RootOk, DataOk, NodesOk, Content;
    assert forall x :: x in Sub(nodes, rank, root) ==> x in nodes;
    hide Sub, Under;
    OnlyAt(nodes, bufs, kids, rank, nodes, bufs, kids, rank, root, path, d);
  }

  lemma {:induction false} LastStep(nodes: Nodes, kids: Kids, rank: Rank, p: nat, path: seq<nat>)
    requires Links(nodes, kids, rank) && p in nodes && path != [] && Follow(kids, p, path) in nodes
    ensures var up := Follow(kids, p, path[..|path| - 1]);
            up in nodes && nodes[Follow(kids, p, path)].parent == up && up != 0
    decreases path
  {
    KidUnder(nodes, kids, rank, p, path[0]);
    if |path| == 1 {
      assert path[1..] == [] && path[..0] == [];
    } else {
      assert path[..|path| - 1][1..] == path[1..][..|path| - 2];
      LastStep(nodes, kids, rank, kids[p][path[0]], path[1..]);
    }
  }

  /** "..": the path loses its last position, or is empty already. */
  lemma UpPath(nodes: Nodes, bufs: Bufs, kids: Kids, rank: Rank, root: nat, d: nat, path: seq<nat>)
    requires TreeOk(nodes, bufs, kids, rank, root, d) && Follow(kids, root, path) == d
    ensures var up := nodes[d].parent;
            if path == [] then up == 0 else up != 0 && Follow(kids, root, path[..|path| - 1]) == up
  {
    hide DataOk, NodesOk, RootOk;
    if path != [] { LastStep(nodes, kids, rank, root, path); }
  }

  lemma DownPath(nodes: Nodes, bufs: Bufs, kids: Kids, rank: Rank, root: nat, d: nat, path: seq<nat>, k: nat)
    requires TreeOk(nodes, bufs, kids, rank, root, d) && Follow(kids, root, path) == d && k < |KidsAt(kids, d)|
    ensures Follow(kids, root, path + [k]) == KidsAt(kids, d)[k]
  {
    FollowOn(kids, root, path, k);
  }

  // ----- one command

  method ServeMkdir(fs: FileTree, name: string, answer: nat, ghost s: State) returns (granted: bool)
    requires At(fs, s)
    modifies fs
    ensures granted == old(answer != 0 && fs.Grantable(answer))
    ensures At(fs, Step(s, Mkdir(name, answer), granted))
  {
    hide TreeOk, TreeOf, Grown, Follow, SubtreeAt, ReplaceAt, Parts;
    granted := answer != 0 && fs.Grantable(answer);
    ghost var n0, k0, r0 := fs.nodes, fs.kids, fs.rank;
    DirIs(n0, fs.bufs, k0, r0, fs.root, fs.currentDir, s.path);
    var r := fs.Mkdir(name, if granted then answer else 0);
    if granted {
      GrownTree(n0, fs.bufs, k0, r0, fs.nodes, fs.kids, fs.rank, fs.root, fs.currentDir, answer, name, true, s.path);
    }
  }

  method ServeCreate(fs: FileTree, name: string, answer: nat, ghost s: State) returns (granted: bool)
    requires At(fs, s)
    modifies fs
    ensures granted == old(answer != 0 && fs.Grantable(answer))
    ensures At(fs, Step(s, CreateFile(name, answer), granted))
  {
    hide TreeOk, TreeOf, Grown, Follow, SubtreeAt, ReplaceAt, Parts, FirstMatch, Find;
    granted := answer != 0 && fs.Grantable(answer);
    ghost var n0, k0, r0 := fs.nodes, fs.kids, fs.rank;
    DirIs(n0, fs.bufs, k0, r0, fs.root, fs.currentDir, s.path);
    TreeParts(n0, fs.bufs, k0, r0, fs.root, fs.currentDir, 0);
    FindIs(n0, fs.bufs, k0, r0, fs.currentDir, name, Anything);
    var r := fs.CreateFile(name, if granted then answer else 0);
    if r == 0 {
      GrownTree(n0, fs.bufs, k0, r0, fs.nodes, fs.kids, fs.rank, fs.root, fs.currentDir, answer, name, false, s.path);
    }
  }

  method ServeCd(fs: FileTree, name: string, ghost s: State)
    requires At(fs, s)
    modifies fs
    ensures At(fs, Step(s, Cd(name), false))
  {
    hide TreeOk, TreeOf, Follow, SubtreeAt, FirstMatch, Find;
    DirIs(fs.nodes, fs.bufs, fs.kids, fs.rank, fs.root, fs.currentDir, s.path);
    TreeParts(fs.nodes, fs.bufs, fs.kids, fs.rank, fs.root, fs.currentDir, 0);
    FindIs(fs.nodes, fs.bufs, fs.kids, fs.rank, fs.currentDir, name, Directories);
    UpPath(fs.nodes, fs.bufs, fs.kids, fs.rank, fs.root, fs.currentDir, s.path);
    ghost var d, k := fs.currentDir, FirstMatch(fs.nodes, fs.Here(), name, Directories);
    if k < |fs.Here()| { DownPath(fs.nodes, fs.bufs, fs.kids, fs.rank, fs.root, d, s.path, k); }
    var r := fs.Cd(name);
  }

  method ServeWrite(fs: FileTree, name: string, content: Text, size: nat, answer: nat, ghost s: State)
    returns (granted: bool)
    requires At(fs, s)
    modifies fs
    ensures granted == old(Usable(fs, WriteFile(name, content, size, answer)))
    ensures At(fs, Step(s, WriteFile(name, content, size, answer), granted))
  {
    hide TreeOk, TreeOf, Wrote, Follow, SubtreeAt, ReplaceAt, Parts, FirstMatch, Find;
    ghost var n0, b0, d := fs.nodes, fs.bufs, fs.currentDir;
    DirIs(n0, b0, fs.kids, fs.rank, fs.root, d, s.path);
    TreeParts(n0, b0, fs.kids, fs.rank, fs.root, d, 0);
    FindIs(n0, b0, fs.kids, fs.rank, d, name, Files);
    var held := HeldBy(fs, name);
    granted := answer != 0 && answer !in fs.nodes && answer !in fs.bufs - {held};
    if content.Text? && |content.bytes| < size { return; }
    ghost var k := FirstMatch(n0, fs.Here(), name, Files);
    FirstMatchFile(n0, fs.Here(), name);
    var r := fs.WriteFile(name, content, size, if granted then answer else 0);
    if size <= SECTOR_SIZE && k < |fs.Here()| {
      ghost var p := if size == 0 || content.Null? || !granted then 0 else answer;
      WroteTree(n0, b0, fs.kids, fs.rank, fs.nodes, fs.bufs, fs.root, d, k, p,
                if p == 0 then [] else content.bytes[..size], s.path);
    }
  }

  lemma FirstMatchFile(nodes: Nodes, list: seq<nat>, name: string)
    ensures var k := FirstMatch(nodes, list, name, Files);
            k <= |list| && (k < |list| ==> list[k] in nodes && !nodes[list[k]].isDir)
  {}

  /** The data pointer of the file a write would hit. */
  method HeldBy(fs: FileTree, name: string) returns (p: nat)
    requires fs.Valid()
    ensures p == fs.Target(name)
  {
    hide TreeOk, FirstMatch;
    ghost var k;
    var curr, prev;
    curr, prev, k := fs.FindChild(name, Files);
    p := if curr == 0 then 0 else fs.nodes[curr].data;
  }

  method ServeRm(fs: FileTree, name: string, ghost s: State)
    requires At(fs, s)
    modifies fs
    ensures At(fs, Step(s, Rm(name), false))
  {
    hide TreeOk, TreeOf, Cut, Follow, SubtreeAt, ReplaceAt, Parts, FirstMatch, Find;
    ghost var n0, b0, k0, r0, d := fs.nodes, fs.bufs, fs.kids, fs.rank, fs.currentDir;
    DirIs(n0, b0, k0, r0, fs.root, d, s.path);
    TreeParts(n0, b0, k0, r0, fs.root, d, 0);
    FindIs(n0, b0, k0, r0, d, name, Anything);
    ghost var k := FirstMatch(n0, fs.Here(), name, Anything);
    var r := fs.Rm(name);
    if r == Removed {
      CutTree(n0, b0, k0, r0, fs.nodes, fs.bufs, fs.kids, fs.rank, fs.root, d, k, s.path);
    }
  }

  /** One command on the linked nodes is the command on the tree. */
  method Serve(fs: FileTree, c: Command, ghost s: State) returns (granted: bool)
    requires At(fs, s)
    modifies fs
    ensures granted == old(Usable(fs, c)) && At(fs, Step(s, c, granted))
  {
    hide At, Step;
    granted := false;
    match c {
      case Mkdir(name, answer) => granted := ServeMkdir(fs, name, answer, s);
      case CreateFile(name, answer) => granted := ServeCreate(fs, name, answer, s);
      case Cd(name) => ServeCd(fs, name, s);
      case WriteFile(name, content, size, answer) => granted := ServeWrite(fs, name, content, size, answer, s);
      case Rm(name) => ServeRm(fs, name, s);
    }
  }

  /** Any sequence of commands, with any answers of kmalloc, refines the commands on the tree. */
  method Run(fs: FileTree, cs: seq<Command>, ghost s: State) returns (granted: seq<bool>)
    requires At(fs, s)
    modifies fs
    ensures |granted| == |cs| && At(fs, Steps(s, cs, granted))
  {
    hide At, Step;
    granted := [];
    assert cs[..0] == [];
    var i := 0;
    while i < |cs|
      invariant 0 <= i <= |cs| && |granted| == i && At(fs, Steps(s, cs[..i], granted))
    {
      var g := Serve(fs, cs[i], Steps(s, cs[..i], granted));
      assert cs[..i + 1][..i] == cs[..i] && (granted + [g])[..i] == granted;
      granted := granted + [g];
      i := i + 1;
    }
    assert cs[..|cs|] == cs;
  }

  /** Every valid state stands for a tree and a path. */
  lemma SomeState(fs: FileTree) returns (s: State)
    requires fs.Valid()
    ensures At(fs, s)
  {
    var path := PathTo(fs.nodes, fs.kids, fs.rank, fs.root, fs.currentDir);
    s := State(fs.Whole(), path);
  }

  /** A command replaces the tree at the current path at most, so what hangs off any other path is as before. */
  lemma {:induction false} OtherSubtree(t: Tree, path: seq<nat>, s: Tree, other: seq<nat>)
    requires Apart(path, other) && HasPath(t, other)
    ensures SubtreeAt(ReplaceAt(t, path, s), other) == SubtreeAt(t, other)
    decreases path
  {
    if path[0] < |t.kids| && path[0] == other[0] {
      OtherSubtree(t.kids[path[0]], path[1..], s, other[1..]);
    }
  }

  /** And there it stands. */
  lemma {:induction false} ReplacedSubtree(t: Tree, path: seq<nat>, s: Tree)
    requires HasPath(t, path)
    ensures SubtreeAt(ReplaceAt(t, path, s), path) == s
    decreases path
  {
    if path != [] { ReplacedSubtree(t.kids[path[0]], path[1..], s); }
  }

  predicate HasPath(t: Tree, path: seq<nat>)
    decreases path
  {
    path == [] || (path[0] < |t.kids| && HasPath(t.kids[path[0]], path[1..]))
  }

  /** The two paths part ways. */
  predicate Apart(path: seq<nat>, other: seq<nat>)
    decreases path
  {
    path != [] && other != [] && (path[0] != other[0] || Apart(path[1..], other[1..]))
  }
}
