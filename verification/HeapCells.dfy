/** The used part of the heap as a tiling: every byte below the bump pointer lies in exactly one cell. */
module HeapCells {
  import opened FreeList

  /** Live blocks, free-list blocks, remainders no list points at, and alignment gaps. */
  datatype Kind = Live | Free | Lost | Gap

  datatype Cell = Cell(kind: Kind, addr: nat, len: nat)

  function CellEnd(c: Cell): nat { c.addr + c.len }

  function AsBlock(c: Cell, H: nat): Block {
    Block(c.addr, if c.len >= H then c.len - H else 0)
  }

  ghost predicate Tiles(cells: seq<Cell>, lo: nat, hi: nat, H: nat) {
    && (if cells == [] then lo == hi else cells[0].addr == lo && CellEnd(cells[|cells| - 1]) == hi)
    && (forall i :: 0 <= i < |cells| - 1 ==> CellEnd(cells[i]) == cells[i + 1].addr)
    && (forall i :: 0 <= i < |cells| ==> Sized(cells[i], H))
  }

  predicate Sized(c: Cell, H: nat) { c.len > 0 && (c.kind.Gap? || c.len >= H) }

  /** The free cells, as blocks in address order. */
  ghost function FreeBlocks(cells: seq<Cell>, H: nat): seq<Block> {
    if cells == [] then []
    else (if cells[0].kind.Free? then [AsBlock(cells[0], H)] else []) + FreeBlocks(cells[1..], H)
  }

  ghost function LiveBlocks(cells: seq<Cell>, H: nat): set<Block> {
    set i | 0 <= i < |cells| && cells[i].kind.Live? :: AsBlock(cells[i], H)
  }

  /** Bytes in cells of one kind. */
  ghost function Total(cells: seq<Cell>, kind: Kind): nat {
    if cells == [] then 0
    else (if cells[0].kind == kind then cells[0].len else 0) + Total(cells[1..], kind)
  }

  lemma {:induction false} FreeBlocksConcat(xs: seq<Cell>, ys: seq<Cell>, H: nat)
    ensures FreeBlocks(xs + ys, H) == FreeBlocks(xs, H) + FreeBlocks(ys, H)
  {
    hide FreeBlocks;
    if xs == [] {
      FreeBlocksNone(H);
      assert xs + ys == ys;
    } else {
      FreeBlocksConcat(xs[1..], ys, H);
      FreeBlocksOpen(xs, H);
      FreeBlocksOpen(xs + ys, H);
      assert (xs + ys)[1..] == xs[1..] + ys;
      Regroup(if xs[0].kind.Free? then [AsBlock(xs[0], H)] else [], FreeBlocks(xs[1..], H), FreeBlocks(ys, H));
    }
  }

  lemma Regroup(x: seq<Block>, y: seq<Block>, z: seq<Block>)
    ensures x + y + z == x + (y + z)
  {}

  lemma FreeBlocksNone(H: nat)
    ensures FreeBlocks([], H) == []
  {}

  lemma FreeBlocksOpen(cells: seq<Cell>, H: nat)
    requires cells != []
    ensures FreeBlocks(cells, H)
         == (if cells[0].kind.Free? then [AsBlock(cells[0], H)] else []) + FreeBlocks(cells[1..], H)
  {}

  lemma {:induction false} TotalConcat(xs: seq<Cell>, ys: seq<Cell>, kind: Kind)
    ensures Total(xs + ys, kind) == Total(xs, kind) + Total(ys, kind)
  {
    if xs == [] {
      assert xs + ys == ys;
    } else {
      assert (xs + ys)[1..] == xs[1..] + ys;
      TotalConcat(xs[1..], ys, kind);
    }
  }

  lemma TotalAround(a: seq<Cell>, c: Cell, b: seq<Cell>, kind: Kind)
    ensures Total(a + [c] + b, kind) == Total(a, kind) + (if c.kind == kind then c.len else 0) + Total(b, kind)
  {
    TotalConcat(a + [c], b, kind);
    TotalConcat(a, [c], kind);
    assert [c][1..] == [];
  }

  lemma LiveBlocksConcat(xs: seq<Cell>, ys: seq<Cell>, H: nat)
    ensures LiveBlocks(xs + ys, H) == LiveBlocks(xs, H) + LiveBlocks(ys, H)
  {
    var zs := xs + ys;
    forall b | b in LiveBlocks(xs, H) + LiveBlocks(ys, H) ensures b in LiveBlocks(zs, H) {
      if b in LiveBlocks(xs, H) {
        var i :| 0 <= i < |xs| && xs[i].kind.Live? && AsBlock(xs[i], H) == b;
        assert zs[i] == xs[i];
      } else {
        var i :| 0 <= i < |ys| && ys[i].kind.Live? && AsBlock(ys[i], H) == b;
        assert zs[|xs| + i] == ys[i];
      }
    }
    forall b | b in LiveBlocks(zs, H) ensures b in LiveBlocks(xs, H) + LiveBlocks(ys, H) {
      var i :| 0 <= i < |zs| && zs[i].kind.Live? && AsBlock(zs[i], H) == b;
      if i < |xs| { assert zs[i] == xs[i]; } else { assert zs[i] == ys[i - |xs|]; }
    }
  }

  /** Cells of a tiling are in order and disjoint. */
  lemma {:induction false} CellsOrdered(cells: seq<Cell>, lo: nat, hi: nat, H: nat, i: nat, j: nat)
    requires Tiles(cells, lo, hi, H) && i < j < |cells|
    ensures lo <= cells[i].addr && CellEnd(cells[i]) <= cells[j].addr && CellEnd(cells[j]) <= hi
    decreases |cells| - j, j
  {
    CellsWithin(cells, lo, hi, H, i);
    CellsWithin(cells, lo, hi, H, j);
    CellsAscend(cells, lo, hi, H, i, j);
  }

  lemma {:induction false} CellsAscend(cells: seq<Cell>, lo: nat, hi: nat, H: nat, i: nat, j: nat)
    requires Tiles(cells, lo, hi, H) && i < j < |cells|
    ensures CellEnd(cells[i]) <= cells[j].addr
    decreases j
  {
    if i < j - 1 { CellsAscend(cells, lo, hi, H, i, j - 1); }
  }

  lemma CellsWithin(cells: seq<Cell>, lo: nat, hi: nat, H: nat, i: nat)
    requires Tiles(cells, lo, hi, H) && i < |cells|
    ensures lo <= cells[i].addr && CellEnd(cells[i]) <= hi
  {
    if i > 0 { CellsAscend(cells, lo, hi, H, 0, i); }
    if i < |cells| - 1 { CellsAscend(cells, lo, hi, H, i, |cells| - 1); }
  }

  lemma TilesSplit(a: seq<Cell>, c: Cell, b: seq<Cell>, lo: nat, hi: nat, H: nat)
    ensures Tiles(a + [c] + b, lo, hi, H) <==>
            Tiles(a, lo, c.addr, H) && Sized(c, H) && Tiles(b, CellEnd(c), hi, H)
  {
    var cells := a + [c] + b;
    if Tiles(cells, lo, hi, H) {
      forall i | 0 <= i < |b| - 1 ensures CellEnd(b[i]) == b[i + 1].addr {
        assert cells[|a| + 1 + i] == b[i] && cells[|a| + 1 + i + 1] == b[i + 1];
      }
      forall i | 0 <= i < |a| - 1 ensures CellEnd(a[i]) == a[i + 1].addr {
        assert cells[i] == a[i] && cells[i + 1] == a[i + 1];
      }
      forall i | 0 <= i < |b| ensures Sized(b[i], H) { assert cells[|a| + 1 + i] == b[i]; }
      forall i | 0 <= i < |a| ensures Sized(a[i], H) { assert cells[i] == a[i]; }
      assert cells[|a|] == c;
      if a != [] { assert cells[|a| - 1] == a[|a| - 1]; }
      if b != [] { assert cells[|a| + 1] == b[0] && cells[|cells| - 1] == b[|b| - 1]; }
    }
    if Tiles(a, lo, c.addr, H) && Sized(c, H) && Tiles(b, CellEnd(c), hi, H) {
      forall i | 0 <= i < |cells| - 1 ensures CellEnd(cells[i]) == cells[i + 1].addr {
        if i < |a| - 1 {
          assert cells[i] == a[i] && cells[i + 1] == a[i + 1];
        } else if i > |a| {
          assert cells[i] == b[i - |a| - 1] && cells[i + 1] == b[i - |a|];
        }
      }
    }
  }

  /** Total length by kinds is the length of the tiled region. */
  lemma {:induction false} TotalsAddUp(cells: seq<Cell>, lo: nat, hi: nat, H: nat)
    requires Tiles(cells, lo, hi, H)
    ensures Total(cells, Live) + Total(cells, Free) + Total(cells, Lost) + Total(cells, Gap) == hi - lo
    ensures lo <= hi
  {
    if cells != [] {
      assert cells == [] + [cells[0]] + cells[1..];
      TilesSplit([], cells[0], cells[1..], lo, hi, H);
      TotalsAddUp(cells[1..], CellEnd(cells[0]), hi, H);
    }
  }

  /** Bytes of a list of free blocks, headers included. */
  ghost function ListBytes(bs: seq<Block>, H: nat): nat {
    if bs == [] then 0 else bs[0].size + H + ListBytes(bs[1..], H)
  }

  lemma {:induction false} ListBytesFree(cells: seq<Cell>, lo: nat, hi: nat, H: nat)
    requires Tiles(cells, lo, hi, H)
    ensures ListBytes(FreeBlocks(cells, H), H) == Total(cells, Free)
  {
    if cells != [] {
      assert cells == [] + [cells[0]] + cells[1..];
      TilesSplit([], cells[0], cells[1..], lo, hi, H);
      ListBytesFree(cells[1..], CellEnd(cells[0]), hi, H);
      if cells[0].kind.Free? {
        assert FreeBlocks(cells, H)[1..] == FreeBlocks(cells[1..], H);
      } else {
        assert FreeBlocks(cells, H) == FreeBlocks(cells[1..], H);
      }
    }
  }

  /** Every free block of a tiling lies inside it. */
  lemma {:induction false} FreeWithin(cells: seq<Cell>, lo: nat, hi: nat, H: nat)
    requires Tiles(cells, lo, hi, H)
    ensures lo <= hi
    ensures forall i :: 0 <= i < |FreeBlocks(cells, H)| ==>
              lo <= FreeBlocks(cells, H)[i].addr && End(FreeBlocks(cells, H)[i], H) <= hi
  {
    if cells != [] {
      assert cells == [] + [cells[0]] + cells[1..];
      TilesSplit([], cells[0], cells[1..], lo, hi, H);
      FreeWithin(cells[1..], CellEnd(cells[0]), hi, H);
    }
  }

  /** Only a free first cell starts the free blocks at the lower edge. */
  lemma FirstTouches(cells: seq<Cell>, lo: nat, hi: nat, H: nat)
    requires Tiles(cells, lo, hi, H) && cells != []
    ensures cells[0].kind.Free? ==> FreeBlocks(cells, H) != [] && FreeBlocks(cells, H)[0] == AsBlock(cells[0], H)
    ensures !cells[0].kind.Free? && FreeBlocks(cells, H) != [] ==> FreeBlocks(cells, H)[0].addr > lo
  {
    assert cells == [] + [cells[0]] + cells[1..];
    TilesSplit([], cells[0], cells[1..], lo, hi, H);
    FreeWithin(cells[1..], CellEnd(cells[0]), hi, H);
  }

  /** Only a free last cell ends the free blocks at the upper edge. */
  lemma LastTouches(cells: seq<Cell>, lo: nat, hi: nat, H: nat)
    requires Tiles(cells, lo, hi, H) && cells != []
    ensures var fb, c := FreeBlocks(cells, H), cells[|cells| - 1];
            && (c.kind.Free? ==> fb == FreeBlocks(cells[..|cells| - 1], H) + [AsBlock(c, H)])
            && (!c.kind.Free? && fb != [] ==> End(fb[|fb| - 1], H) < hi)
            && (!c.kind.Free? ==> fb == FreeBlocks(cells[..|cells| - 1], H))
  {
    var a, c := cells[..|cells| - 1], cells[|cells| - 1];
    assert cells == a + [c] + [] && cells == a + [c];
    TilesSplit(a, c, [], lo, hi, H);
    FreeBlocksConcat(a, [c], H);
    FreeWithin(a, lo, c.addr, H);
    assert [c][1..] == [];
  }

  /** The k-th free block is a cell of its own. */
  lemma {:induction false} FreeCellAt(cells: seq<Cell>, k: nat, H: nat) returns (i: nat)
    requires k < |FreeBlocks(cells, H)|
    ensures i < |cells| && cells[i].kind.Free?
    ensures |FreeBlocks(cells[..i], H)| == k && FreeBlocks(cells, H)[k] == AsBlock(cells[i], H)
    ensures FreeBlocks(cells[..i], H) == FreeBlocks(cells, H)[..k]
    ensures FreeBlocks(cells[i + 1..], H) == FreeBlocks(cells, H)[k + 1..]
  {
    if cells[0].kind.Free? && k == 0 {
      i := 0;
      assert cells[..0] == [];
    } else {
      var d := if cells[0].kind.Free? then 1 else 0;
      var j := FreeCellAt(cells[1..], k - d, H);
      i := j + 1;
      assert cells[..i][1..] == cells[1..][..j];
      assert cells[i + 1..] == cells[1..][j + 1..];
    }
  }

  // ----- the operations

  /** Cell c between a and b is given back: it absorbs its free neighbours. */
  ghost function Release(a: seq<Cell>, c: Cell, b: seq<Cell>): seq<Cell> {
    var f := Absorbed(c, b);
    if Absorbs(a)
    then a[..|a| - 1] + [Cell(Free, a[|a| - 1].addr, a[|a| - 1].len + f.len)] + Unabsorbed(b)
    else a + [f] + Unabsorbed(b)
  }

  lemma ReleaseTiles(a: seq<Cell>, c: Cell, b: seq<Cell>, lo: nat, hi: nat, H: nat)
    requires Tiles(a + [c] + b, lo, hi, H) && c.len >= H
    ensures Tiles(Release(a, c, b), lo, hi, H)
  {
    hide Tiles;
    TilesSplit(a, c, b, lo, hi, H);
    UnabsorbedTiles(c, b, hi, H);
    var f := Absorbed(c, b);
    if Absorbs(a) {
      var l := a[|a| - 1];
      assert a == a[..|a| - 1] + [l] + [];
      TilesSplit(a[..|a| - 1], l, [], lo, c.addr, H);
      EmptyTiles(CellEnd(l), c.addr, H);
      TilesSplit(a[..|a| - 1], Cell(Free, l.addr, l.len + f.len), Unabsorbed(b), lo, hi, H);
    } else {
      TilesSplit(a, f, Unabsorbed(b), lo, hi, H);
    }
  }

  lemma EmptyTiles(lo: nat, hi: nat, H: nat)
    ensures Tiles([], lo, hi, H) <==> lo == hi
  {}

  lemma UnabsorbedTiles(c: Cell, b: seq<Cell>, hi: nat, H: nat)
    requires Tiles(b, CellEnd(c), hi, H)
    ensures Tiles(Unabsorbed(b), CellEnd(Absorbed(c, b)), hi, H)
  {
    if Absorbable(b) {
      assert b == [] + [b[0]] + b[1..];
      TilesSplit([], b[0], b[1..], CellEnd(c), hi, H);
    }
  }

  lemma ReleaseLive(a: seq<Cell>, c: Cell, b: seq<Cell>, H: nat)
    ensures LiveBlocks(Release(a, c, b), H) == LiveBlocks(a, H) + LiveBlocks(b, H)
  {
    var b', f1 := Unabsorbed(b), Absorbed(c, b);
    NoLive(b, b', H);
    if a != [] && a[|a| - 1].kind.Free? {
      var l := a[|a| - 1];
      LiveAround(a[..|a| - 1], Cell(Free, l.addr, l.len + f1.len), b', H);
      assert a == a[..|a| - 1] + [l] + [];
      LiveAround(a[..|a| - 1], l, [], H);
    } else {
      LiveAround(a, f1, b', H);
    }
  }

  lemma NoLive(b: seq<Cell>, b': seq<Cell>, H: nat)
    requires b' == Unabsorbed(b)
    ensures LiveBlocks(b', H) == LiveBlocks(b, H)
  {
    if b != [] && b[0].kind.Free? {
      assert b == [] + [b[0]] + b[1..];
      LiveAround([], b[0], b[1..], H);
    }
  }

  lemma LiveAround(a: seq<Cell>, c: Cell, b: seq<Cell>, H: nat)
    ensures LiveBlocks(a + [c] + b, H)
         == LiveBlocks(a, H) + (if c.kind.Live? then {AsBlock(c, H)} else {}) + LiveBlocks(b, H)
  {
    LiveBlocksConcat(a + [c], b, H);
    LiveBlocksConcat(a, [c], H);
    assert LiveBlocks([c], H) == if c.kind.Live? then {AsBlock(c, H)} else {} by {
      assert [c][0] == c;
    }
  }

  lemma FreeAround(a: seq<Cell>, c: Cell, b: seq<Cell>, H: nat)
    ensures FreeBlocks(a + [c] + b, H)
         == FreeBlocks(a, H) + (if c.kind.Free? then [AsBlock(c, H)] else []) + FreeBlocks(b, H)
  {
    FreeBlocksConcat(a + [c], b, H);
    FreeBlocksConcat(a, [c], H);
    assert [c][1..] == [];
  }

  /** Coalescing in the list and in the tiling are the same thing. */
  lemma ReleaseIsInsert(a: seq<Cell>, c: Cell, b: seq<Cell>, lo: nat, hi: nat, H: nat)
    requires Tiles(a + [c] + b, lo, hi, H) && c.len >= H && H > 0
    requires Ordered(FreeBlocks(a, H) + FreeBlocks(b, H), H)
    ensures FreeBlocks(Release(a, c, b), H) == Insert(FreeBlocks(a, H) + FreeBlocks(b, H), AsBlock(c, H), H)
  {
    hide FreeBlocks, Ordered, InsertAt, Tiles, Release, Absorbed, Unabsorbed, Absorbs, Absorbable;
    var fa, fb, blk := FreeBlocks(a, H), FreeBlocks(b, H), AsBlock(c, H);
    TilesSplit(a, c, b, lo, hi, H);
    FreeWithin(a, lo, c.addr, H);
    FreeWithin(b, CellEnd(c), hi, H);
    PositionUnique(fa + fb, H, c.addr, |fa|);
    InsertBetween(fa, fb, blk, H);
    Ahead(c, b, hi, H);
    Behind(a, c, lo, H);
    ReleaseFree(a, c, b, H);
  }

  lemma ReleaseFree(a: seq<Cell>, c: Cell, b: seq<Cell>, H: nat)
    requires c.len >= H && (Absorbs(a) ==> a[|a| - 1].len >= H)
    ensures FreeBlocks(Release(a, c, b), H) ==
            (if Absorbs(a)
             then FreeBlocks(a[..|a| - 1], H) + [Merge(AsBlock(a[|a| - 1], H), AsBlock(Absorbed(c, b), H), H)]
             else FreeBlocks(a, H) + [AsBlock(Absorbed(c, b), H)]) + FreeBlocks(Unabsorbed(b), H)
  {
    hide FreeBlocks;
    var f, b' := Absorbed(c, b), Unabsorbed(b);
    if Absorbs(a) {
      var l := a[|a| - 1];
      FreeAround(a[..|a| - 1], Cell(Free, l.addr, l.len + f.len), b', H);
    } else {
      FreeAround(a, f, b', H);
    }
  }

  /** A block beside the free blocks of its own tiling is apart from all of them. */
  lemma ApartInTiling(a: seq<Cell>, c: Cell, b: seq<Cell>, lo: nat, hi: nat, H: nat)
    requires Tiles(a + [c] + b, lo, hi, H) && c.len >= H
    ensures ApartFrom(AsBlock(c, H), FreeBlocks(a, H) + FreeBlocks(b, H), H)
  {
    TilesSplit(a, c, b, lo, hi, H);
    FreeWithin(a, lo, c.addr, H);
    FreeWithin(b, CellEnd(c), hi, H);
  }

  lemma InsertBetween(fa: seq<Block>, fb: seq<Block>, b: Block, H: nat)
    ensures var forward := fb != [] && End(b, H) == fb[0].addr;
            var joined := if forward then Merge(b, fb[0], H) else b;
            var after := if forward then fb[1..] else fb;
            InsertAt(fa + fb, b, |fa|, H) ==
            (if fa != [] && End(fa[|fa| - 1], H) == b.addr
             then fa[..|fa| - 1] + [Merge(fa[|fa| - 1], joined, H)]
             else fa + [joined]) + after
  {
    assert (fa + fb)[|fa|..] == fb && (fa + fb)[..|fa|] == fa;
    if fb != [] { assert (fa + fb)[|fa| + 1..] == fb[1..] && (fa + fb)[|fa|] == fb[0]; }
    if fa != [] { assert (fa + fb)[..|fa| - 1] == fa[..|fa| - 1] && (fa + fb)[|fa| - 1] == fa[|fa| - 1]; }
  }

  predicate Absorbs(a: seq<Cell>) { a != [] && a[|a| - 1].kind.Free? }

  predicate Absorbable(b: seq<Cell>) { b != [] && b[0].kind.Free? }

  function Absorbed(c: Cell, b: seq<Cell>): Cell {
    if Absorbable(b) then Cell(Free, c.addr, c.len + b[0].len) else Cell(Free, c.addr, c.len)
  }

  function Unabsorbed(b: seq<Cell>): seq<Cell> {
    if Absorbable(b) then b[1..] else b
  }

  /** The forward merge of the list happens exactly when the next cell is free. */
  lemma Ahead(c: Cell, b: seq<Cell>, hi: nat, H: nat)
    requires Tiles(b, CellEnd(c), hi, H) && c.len >= H
    ensures var fb := FreeBlocks(b, H);
            && (Absorbable(b) <==> fb != [] && End(AsBlock(c, H), H) == fb[0].addr)
            && (Absorbable(b) ==> AsBlock(Absorbed(c, b), H) == Merge(AsBlock(c, H), fb[0], H))
            && (Absorbable(b) ==> FreeBlocks(Unabsorbed(b), H) == fb[1..])
            && (!Absorbable(b) ==> AsBlock(Absorbed(c, b), H) == AsBlock(c, H))
            && (!Absorbable(b) ==> FreeBlocks(Unabsorbed(b), H) == fb)
  {
    if b != [] {
      FirstTouches(b, CellEnd(c), hi, H);
      assert Sized(b[0], H);
    }
  }

  /** The backward merge happens exactly when the cell before is free. */
  lemma Behind(a: seq<Cell>, c: Cell, lo: nat, H: nat)
    requires Tiles(a, lo, c.addr, H)
    ensures var fa := FreeBlocks(a, H);
            && (Absorbs(a) <==> fa != [] && End(fa[|fa| - 1], H) == c.addr)
            && (Absorbs(a) ==> fa == FreeBlocks(a[..|a| - 1], H) + [AsBlock(a[|a| - 1], H)])
            && (Absorbs(a) ==> a[|a| - 1].len >= H)
  {
    if a != [] {
      LastTouches(a, lo, c.addr, H);
      assert Sized(a[|a| - 1], H);
    }
  }

  // ----- allocation

  /** Serving n bytes from free cell c, with the remainder becoming a cell of kind `rest`. */
  ghost function Carve(a: seq<Cell>, c: Cell, b: seq<Cell>, n: nat, rest: Kind, H: nat): seq<Cell> {
    if c.len >= H && Splits(c.len - H, n, H)
    then a + [Cell(Live, c.addr, H + n)] + ([Cell(rest, c.addr + H + n, c.len - H - n)] + b)
    else a + [Cell(Live, c.addr, c.len)] + b
  }

  lemma CarveTiles(a: seq<Cell>, c: Cell, b: seq<Cell>, n: nat, rest: Kind, lo: nat, hi: nat, H: nat)
    requires Tiles(a + [c] + b, lo, hi, H) && c.len >= H && H > 0
    ensures Tiles(Carve(a, c, b, n, rest, H), lo, hi, H)
  {
    hide Tiles;
    TilesSplit(a, c, b, lo, hi, H);
    if Splits(c.len - H, n, H) {
      var l, r := Cell(Live, c.addr, H + n), Cell(rest, c.addr + H + n, c.len - H - n);
      EmptyTiles(r.addr, r.addr, H);
      assert [] + [r] + b == [r] + b;
      TilesSplit([], r, b, r.addr, hi, H);
      TilesSplit(a, l, [r] + b, lo, hi, H);
    } else {
      TilesSplit(a, Cell(Live, c.addr, c.len), b, lo, hi, H);
    }
  }

  lemma CarveLive(a: seq<Cell>, c: Cell, b: seq<Cell>, n: nat, rest: Kind, H: nat)
    requires c.kind.Free? && c.len >= H && !rest.Live?
    ensures LiveBlocks(Carve(a, c, b, n, rest, H), H)
         == LiveBlocks(a + [c] + b, H) + {Served(AsBlock(c, H), n, H)}
  {
    LiveAround(a, c, b, H);
    if Splits(c.len - H, n, H) {
      var l, r := Cell(Live, c.addr, H + n), Cell(rest, c.addr + H + n, c.len - H - n);
      LiveAround(a, l, [r] + b, H);
      assert [] + [r] + b == [r] + b;
      LiveAround([], r, b, H);
    } else {
      LiveAround(a, Cell(Live, c.addr, c.len), b, H);
    }
  }

  lemma CarveFree(a: seq<Cell>, c: Cell, b: seq<Cell>, n: nat, rest: Kind, H: nat)
    requires c.kind.Free? && c.len >= H && !rest.Live?
    ensures FreeBlocks(Carve(a, c, b, n, rest, H), H) ==
            if rest.Free? && Splits(c.len - H, n, H)
            then FreeBlocks(a, H) + [Remainder(AsBlock(c, H), n, H)] + FreeBlocks(b, H)
            else FreeBlocks(a, H) + FreeBlocks(b, H)
  {
    hide FreeBlocks;
    if Splits(c.len - H, n, H) {
      var l, r := Cell(Live, c.addr, H + n), Cell(rest, c.addr + H + n, c.len - H - n);
      FreeAround(a, l, [r] + b, H);
      assert [] + [r] + b == [r] + b;
      FreeAround([], r, b, H);
      NoFree(H);
    } else {
      FreeAround(a, Cell(Live, c.addr, c.len), b, H);
    }
  }

  lemma NoFree(H: nat)
    ensures FreeBlocks([], H) == []
  {}

  /** Adding a cell at the upper end. */
  lemma Append(cells: seq<Cell>, c: Cell, lo: nat, hi: nat, H: nat)
    requires Tiles(cells, lo, hi, H) && c.addr == hi && Sized(c, H) && !c.kind.Free?
    ensures Tiles(cells + [c], lo, CellEnd(c), H)
    ensures FreeBlocks(cells + [c], H) == FreeBlocks(cells, H)
    ensures LiveBlocks(cells + [c], H) == LiveBlocks(cells, H) + (if c.kind.Live? then {AsBlock(c, H)} else {})
  {
    assert cells + [c] + [] == cells + [c];
    TilesSplit(cells, c, [], lo, CellEnd(c), H);
    FreeAround(cells, c, [], H);
    LiveAround(cells, c, [], H);
  }

  // ----- bytes by kind

  /** Serving from free cell c: a lost remainder adds its length to the lost bytes, nothing else does. */
  lemma CarveTotals(a: seq<Cell>, c: Cell, b: seq<Cell>, n: nat, rest: Kind, H: nat)
    requires c.kind.Free? && c.len >= H && (rest.Lost? || rest.Free?)
    ensures Total(Carve(a, c, b, n, rest, H), Lost) == Total(a + [c] + b, Lost)
            + (if rest.Lost? && Splits(c.len - H, n, H) then c.len - H - n else 0)
    ensures Total(Carve(a, c, b, n, rest, H), Gap) == Total(a + [c] + b, Gap)
  {
    hide Total;
    TotalAround(a, c, b, Lost);
    TotalAround(a, c, b, Gap);
    if Splits(c.len - H, n, H) {
      var l, r := Cell(Live, c.addr, H + n), Cell(rest, c.addr + H + n, c.len - H - n);
      TotalAround(a, l, [r] + b, Lost);
      TotalAround(a, l, [r] + b, Gap);
      assert [] + [r] + b == [r] + b;
      TotalAround([], r, b, Lost);
      TotalAround([], r, b, Gap);
      TotalNone();
    } else {
      TotalAround(a, Cell(Live, c.addr, c.len), b, Lost);
      TotalAround(a, Cell(Live, c.addr, c.len), b, Gap);
    }
  }

  lemma TotalNone()
    ensures Total([], Lost) == 0 && Total([], Gap) == 0
  {}

  /** Giving back live cell c neither finds lost bytes nor closes gaps. */
  lemma ReleaseTotals(a: seq<Cell>, c: Cell, b: seq<Cell>)
    requires c.kind.Live?
    ensures Total(Release(a, c, b), Lost) == Total(a + [c] + b, Lost)
    ensures Total(Release(a, c, b), Gap) == Total(a + [c] + b, Gap)
  {
    ReleaseTotal(a, c, b, Lost);
    ReleaseTotal(a, c, b, Gap);
  }

  lemma ReleaseTotal(a: seq<Cell>, c: Cell, b: seq<Cell>, kind: Kind)
    requires c.kind.Live? && !kind.Live? && !kind.Free?
    ensures Total(Release(a, c, b), kind) == Total(a + [c] + b, kind)
  {
    TotalAround(a, c, b, kind);
    var f := Absorbed(c, b);
    if Absorbs(a) {
      var l := a[|a| - 1];
      assert a == a[..|a| - 1] + [l] + [];
      TotalAround(a[..|a| - 1], l, [], kind);
      TotalAround(a[..|a| - 1], Cell(Free, l.addr, l.len + f.len), Unabsorbed(b), kind);
    } else {
      TotalAround(a, f, Unabsorbed(b), kind);
    }
  }

  // ----- safety of the layout

  /** In a tiling, live blocks are apart from each other and from every free block, and all of them lie
      inside the tiled region. */
  lemma LayoutSafe(cells: seq<Cell>, lo: nat, hi: nat, H: nat)
    requires Tiles(cells, lo, hi, H)
    ensures forall b, c :: b in LiveBlocks(cells, H) && c in LiveBlocks(cells, H) && b != c ==> Apart(b, c, H)
    ensures forall b :: b in LiveBlocks(cells, H) ==> ApartFrom(b, FreeBlocks(cells, H), H)
    ensures forall b :: b in LiveBlocks(cells, H) ==> lo <= b.addr && End(b, H) <= hi
    ensures forall i :: 0 <= i < |FreeBlocks(cells, H)| ==>
              lo <= FreeBlocks(cells, H)[i].addr && End(FreeBlocks(cells, H)[i], H) <= hi
  {
    FreeWithin(cells, lo, hi, H);
    forall b, c | b in LiveBlocks(cells, H) && c in LiveBlocks(cells, H) && b != c ensures Apart(b, c, H) {
      var i := LiveCellOf(cells, b, H);
      var j := LiveCellOf(cells, c, H);
      assert Sized(cells[i], H) && Sized(cells[j], H);
      if i < j { CellsOrdered(cells, lo, hi, H, i, j); } else { CellsOrdered(cells, lo, hi, H, j, i); }
    }
    forall b | b in LiveBlocks(cells, H)
      ensures ApartFrom(b, FreeBlocks(cells, H), H) && lo <= b.addr && End(b, H) <= hi
    {
      var i := LiveCellOf(cells, b, H);
      LiveApartFromFree(cells, lo, hi, H, i);
    }
  }

  lemma LiveApartFromFree(cells: seq<Cell>, lo: nat, hi: nat, H: nat, i: nat)
    requires Tiles(cells, lo, hi, H) && i < |cells| && cells[i].kind.Live?
    ensures ApartFrom(AsBlock(cells[i], H), FreeBlocks(cells, H), H)
    ensures lo <= cells[i].addr && End(AsBlock(cells[i], H), H) <= hi
  {
    var a, c, b := cells[..i], cells[i], cells[i + 1..];
    assert Sized(c, H);
    assert cells == a + [c] + b;
    CellsWithin(cells, lo, hi, H, i);
    FreeAround(a, c, b, H);
    ApartInTiling(a, c, b, lo, hi, H);
    assert FreeBlocks(cells, H) == FreeBlocks(a, H) + FreeBlocks(b, H);
  }

  lemma LiveCellOf(cells: seq<Cell>, b: Block, H: nat) returns (i: nat)
    requires b in LiveBlocks(cells, H)
    ensures i < |cells| && cells[i].kind.Live? && AsBlock(cells[i], H) == b
  {
    i :| i < |cells| && cells[i].kind.Live? && AsBlock(cells[i], H) == b;
  }

  /** Giving back the block of cell i: what is left alive. */
  lemma ReleaseForgets(a: seq<Cell>, c: Cell, b: seq<Cell>, lo: nat, hi: nat, H: nat)
    requires Tiles(a + [c] + b, lo, hi, H) && c.kind.Live? && H > 0
    ensures LiveBlocks(Release(a, c, b), H) == LiveBlocks(a + [c] + b, H) - {AsBlock(c, H)}
  {
    ReleaseLive(a, c, b, H);
    LiveAround(a, c, b, H);
    TilesSplit(a, c, b, lo, hi, H);
    forall l | l in LiveBlocks(a, H) ensures l.addr < c.addr {
      var i := LiveCellOf(a, l, H);
      CellsWithin(a, lo, c.addr, H, i);
      assert Sized(a[i], H);
    }
    forall l | l in LiveBlocks(b, H) ensures l.addr > c.addr {
      var i := LiveCellOf(b, l, H);
      CellsWithin(b, CellEnd(c), hi, H, i);
    }
  }
}
