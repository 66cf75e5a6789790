/** The address-ordered free list as a value: blocks, the bytes they cover, and coalescing insertion.
    H, the size of a block header, is a parameter throughout. */
module FreeList {

  /** A block whose header is at `addr`, with `size` payload bytes behind the header. */
  datatype Block = Block(addr: nat, size: nat)

  const ALIGN := 8

  function End(b: Block, H: nat): nat { b.addr + H + b.size }

  /** Neighbours are in address order, disjoint, and do not touch. */
  ghost predicate Ordered(bs: seq<Block>, H: nat) {
    forall i :: 0 <= i < |bs| - 1 ==> End(bs[i], H) < bs[i + 1].addr
  }

  /** Header and payload bytes of one block, and of a list. */
  ghost function Span(b: Block, H: nat): set<nat> {
    set a: nat | b.addr <= a < End(b, H) && Covers(b, H, a)
  }

  predicate Covers(b: Block, H: nat, a: nat) { b.addr <= a < End(b, H) }

  ghost function Bytes(bs: seq<Block>, H: nat): set<nat> {
    set i, a | 0 <= i < |bs| && a in Span(bs[i], H) :: a
  }

  ghost predicate Apart(b: Block, c: Block, H: nat) {
    End(b, H) <= c.addr || End(c, H) <= b.addr
  }

  ghost predicate ApartFrom(b: Block, bs: seq<Block>, H: nat) {
    forall i :: 0 <= i < |bs| ==> Apart(b, bs[i], H)
  }

  /** How many blocks of an ordered list lie below address a. */
  function Position(bs: seq<Block>, a: nat): (k: nat)
    ensures k <= |bs|
    ensures forall i :: 0 <= i < k ==> bs[i].addr < a
    ensures k < |bs| ==> bs[k].addr >= a
  {
    if bs == [] || bs[0].addr >= a then 0 else 1 + Position(bs[1..], a)
  }

  function Merge(b: Block, c: Block, H: nat): Block {
    Block(b.addr, b.size + H + c.size)
  }

  /** `insert_and_coalesce` on lists: put b in its place, merge it forward, then merge the block before it. */
  function Insert(bs: seq<Block>, b: Block, H: nat): seq<Block> {
    InsertAt(bs, b, Position(bs, b.addr), H)
  }

  function InsertAt(bs: seq<Block>, b: Block, k: nat, H: nat): seq<Block>
    requires k <= |bs|
  {
    var forward := k < |bs| && End(b, H) == bs[k].addr;
    var joined := if forward then Merge(b, bs[k], H) else b;
    var after := if forward then bs[k + 1..] else bs[k..];
    if k > 0 && End(bs[k - 1], H) == b.addr
    then bs[..k - 1] + [Merge(bs[k - 1], joined, H)] + after
    else bs[..k] + [joined] + after
  }

  lemma {:induction false} OrderedPairwise(bs: seq<Block>, H: nat, i: nat, j: nat)
    requires Ordered(bs, H) && i < j < |bs|
    ensures End(bs[i], H) < bs[j].addr
    decreases j
  {
    if i < j - 1 { OrderedPairwise(bs, H, i, j - 1); }
  }

  lemma PositionUnique(bs: seq<Block>, H: nat, a: nat, k: nat)
    requires Ordered(bs, H) && k <= |bs|
    requires k > 0 ==> bs[k - 1].addr < a
    requires k < |bs| ==> bs[k].addr >= a
    ensures Position(bs, a) == k
  {
    var p := Position(bs, a);
    if p < k {
      if p < k - 1 { OrderedPairwise(bs, H, p, k - 1); }
    }
  }

  /** Insertion of a block apart from the list keeps it sorted and disjoint, and no two neighbours touch. */
  lemma InsertOrdered(bs: seq<Block>, b: Block, H: nat)
    requires H > 0 && Ordered(bs, H) && ApartFrom(b, bs, H)
    ensures Ordered(Insert(bs, b, H), H)
  {
    var k := Position(bs, b.addr);
    assert k > 0 ==> Apart(b, bs[k - 1], H);
    assert k < |bs| ==> Apart(b, bs[k], H);
    hide Ordered, Position, ApartFrom, InsertAt;
    InsertAtOrdered(bs, b, k, H);
  }

  lemma InsertAtOrdered(bs: seq<Block>, b: Block, k: nat, H: nat)
    requires Ordered(bs, H) && k <= |bs|
    requires k > 0 ==> End(bs[k - 1], H) <= b.addr
    requires k < |bs| ==> End(b, H) <= bs[k].addr
    ensures Ordered(InsertAt(bs, b, k, H), H)
  {
    hide Ordered, Merge, End;
    OrderedParts(bs, k, H);
    var forward := k < |bs| && End(b, H) == bs[k].addr;
    var joined := if forward then Merge(b, bs[k], H) else b;
    var after := if forward then bs[k + 1..] else bs[k..];
    if forward { MergeEnds(b, bs[k], H); }
    if k > 0 && End(bs[k - 1], H) == b.addr {
      MergeEnds(bs[k - 1], joined, H);
      OrderedAround(bs[..k - 1], Merge(bs[k - 1], joined, H), after, H);
    } else {
      OrderedAround(bs[..k], joined, after, H);
    }
  }

  lemma MergeEnds(c: Block, b: Block, H: nat)
    requires End(c, H) == b.addr
    ensures Merge(c, b, H).addr == c.addr && End(Merge(c, b, H), H) == End(b, H)
  {}

  /** An ordered list around position k. */
  lemma OrderedParts(bs: seq<Block>, k: nat, H: nat)
    requires Ordered(bs, H) && k <= |bs|
    ensures Ordered(bs[..k], H) && Ordered(bs[k..], H)
    ensures k > 0 ==> Ordered(bs[..k - 1], H) && (k > 1 ==> End(bs[k - 2], H) < bs[k - 1].addr)
    ensures k < |bs| ==> Ordered(bs[k + 1..], H) && (k + 1 < |bs| ==> End(bs[k], H) < bs[k + 1].addr)
  {}

  lemma OrderedAround(before: seq<Block>, b: Block, after: seq<Block>, H: nat)
    requires Ordered(before, H) && Ordered(after, H)
    requires before != [] ==> End(before[|before| - 1], H) < b.addr
    requires after != [] ==> End(b, H) < after[0].addr
    ensures Ordered(before + [b] + after, H)
  {}

  /** The covered bytes grow by exactly the header and payload of the inserted block. */
  lemma InsertBytes(bs: seq<Block>, b: Block, H: nat)
    requires H > 0 && Ordered(bs, H) && ApartFrom(b, bs, H)
    ensures Bytes(Insert(bs, b, H), H) == Bytes(bs, H) + Span(b, H)
  {
    hide Bytes, Span, Ordered, ApartFrom;
    var k := Position(bs, b.addr);
    var forward := k < |bs| && End(b, H) == bs[k].addr;
    var joined := if forward then Merge(b, bs[k], H) else b;
    var after := if forward then bs[k + 1..] else bs[k..];
    BytesSplit(bs, k, H);
    assert Span(joined, H) + Bytes(after, H) == Span(b, H) + Bytes(bs[k..], H) by {
      if forward {
        MergeSpan(b, bs[k], H);
        BytesHead(bs[k..], H);
        assert bs[k..][1..] == bs[k + 1..];
      }
    }
    if k > 0 && End(bs[k - 1], H) == b.addr {
      MergeSpan(bs[k - 1], joined, H);
      assert bs[..k] == bs[..k - 1] + [bs[k - 1]] + [];
      BytesAround(bs[..k - 1], bs[k - 1], [], H);
      BytesAround(bs[..k - 1], Merge(bs[k - 1], joined, H), after, H);
      BytesNone(H);
    } else {
      BytesAround(bs[..k], joined, after, H);
    }
  }

  lemma BytesNone(H: nat)
    ensures Bytes([], H) == {}
  {}

  lemma BytesHead(bs: seq<Block>, H: nat)
    requires bs != []
    ensures Bytes(bs, H) == Span(bs[0], H) + Bytes(bs[1..], H)
  {
    assert bs == [bs[0]] + bs[1..];
    BytesConcat([bs[0]], bs[1..], H);
    BytesOne(bs[0], H);
  }

  lemma BytesSplit(bs: seq<Block>, k: nat, H: nat)
    requires k <= |bs|
    ensures Bytes(bs, H) == Bytes(bs[..k], H) + Bytes(bs[k..], H)
  {
    assert bs == bs[..k] + bs[k..];
    BytesConcat(bs[..k], bs[k..], H);
  }

  lemma BytesAround(before: seq<Block>, b: Block, after: seq<Block>, H: nat)
    ensures Bytes(before + [b] + after, H) == Bytes(before, H) + Span(b, H) + Bytes(after, H)
  {
    BytesConcat(before + [b], after, H);
    BytesConcat(before, [b], H);
    BytesOne(b, H);
  }

  lemma MergeSpan(b: Block, c: Block, H: nat)
    requires End(b, H) == c.addr
    ensures Span(Merge(b, c, H), H) == Span(b, H) + Span(c, H)
  {
    var m := Merge(b, c, H);
    forall a: nat ensures a in Span(m, H) <==> a in Span(b, H) + Span(c, H) {
      assert Covers(m, H, a) <==> Covers(b, H, a) || Covers(c, H, a);
    }
  }

  lemma FirstByte(bs: seq<Block>, H: nat)
    requires H > 0 && bs != []
    ensures bs[0].addr in Span(bs[0], H) && bs[0].addr in Bytes(bs, H)
  {
    assert Covers(bs[0], H, bs[0].addr);
  }

  lemma BytesOne(b: Block, H: nat)
    ensures Bytes([b], H) == Span(b, H)
  {
    assert [b][0] == b;
  }

  lemma BytesConcat(xs: seq<Block>, ys: seq<Block>, H: nat)
    ensures Bytes(xs + ys, H) == Bytes(xs, H) + Bytes(ys, H)
  {
    var zs := xs + ys;
    forall a | a in Bytes(xs, H) + Bytes(ys, H) ensures a in Bytes(zs, H) {
      if a in Bytes(xs, H) {
        var i :| 0 <= i < |xs| && a in Span(xs[i], H);
        assert zs[i] == xs[i];
      } else {
        var i :| 0 <= i < |ys| && a in Span(ys[i], H);
        assert zs[|xs| + i] == ys[i];
      }
    }
    forall a | a in Bytes(zs, H) ensures a in Bytes(xs, H) + Bytes(ys, H) {
      var i :| 0 <= i < |zs| && a in Span(zs[i], H);
      if i < |xs| { assert zs[i] == xs[i]; } else { assert zs[i] == ys[i - |xs|]; }
    }
  }

  // ----- an ordered list is determined by its bytes

  lemma ByteAtOrAfter(bs: seq<Block>, H: nat, a: nat)
    requires Ordered(bs, H) && bs != [] && a in Bytes(bs, H)
    ensures a >= bs[0].addr
    ensures a != End(bs[0], H)
    ensures a in Span(bs[0], H) || a > End(bs[0], H)
  {
    var i :| 0 <= i < |bs| && a in Span(bs[i], H);
    if i > 0 { OrderedPairwise(bs, H, 0, i); }
  }

  lemma TailBytes(bs: seq<Block>, H: nat)
    requires Ordered(bs, H) && bs != []
    ensures Ordered(bs[1..], H)
    ensures Bytes(bs[1..], H) == Bytes(bs, H) - Span(bs[0], H)
  {
    assert bs == [bs[0]] + bs[1..];
    BytesConcat([bs[0]], bs[1..], H);
    BytesOne(bs[0], H);
    forall a | a in Bytes(bs[1..], H) ensures a !in Span(bs[0], H) {
      var i :| 0 <= i < |bs[1..]| && a in Span(bs[1..][i], H);
      OrderedPairwise(bs, H, 0, i + 1);
    }
  }

  lemma SameFirst(xs: seq<Block>, ys: seq<Block>, H: nat)
    requires H > 0 && Ordered(xs, H) && Ordered(ys, H) && Bytes(xs, H) == Bytes(ys, H)
    requires xs != [] && ys != []
    ensures xs[0].addr <= ys[0].addr
    ensures xs[0].addr == ys[0].addr ==> End(ys[0], H) <= End(xs[0], H)
  {
    FirstByte(ys, H);
    ByteAtOrAfter(xs, H, ys[0].addr);
    if xs[0].addr == ys[0].addr && End(ys[0], H) > End(xs[0], H) {
      assert Covers(ys[0], H, End(xs[0], H));
      assert End(xs[0], H) in Span(ys[0], H);
      assert End(xs[0], H) in Bytes(ys, H);
      ByteAtOrAfter(xs, H, End(xs[0], H));
    }
  }

  /** Coalesced form is canonical: two ordered lists that cover the same bytes are the same list. */
  lemma {:induction false} Canonical(xs: seq<Block>, ys: seq<Block>, H: nat)
    requires H > 0 && Ordered(xs, H) && Ordered(ys, H)
    requires Bytes(xs, H) == Bytes(ys, H)
    ensures xs == ys
  {
    if xs == [] {
      if ys != [] { FirstByte(ys, H); }
    } else if ys == [] {
      FirstByte(xs, H);
    } else {
      SameFirst(xs, ys, H);
      SameFirst(ys, xs, H);
      assert xs[0] == ys[0];
      TailBytes(xs, H);
      TailBytes(ys, H);
      Canonical(xs[1..], ys[1..], H);
      assert xs == [xs[0]] + xs[1..] && ys == [ys[0]] + ys[1..];
    }
  }

  // ----- taking blocks out

  /** Index of the first block with at least n payload bytes, |bs| when there is none. */
  function FirstFit(bs: seq<Block>, n: nat): (k: nat)
    ensures k <= |bs|
    ensures k < |bs| ==> bs[k].size >= n
    ensures forall i :: 0 <= i < k ==> bs[i].size < n
  {
    if bs == [] || bs[0].size >= n then 0 else 1 + FirstFit(bs[1..], n)
  }

  function Without(bs: seq<Block>, k: nat): seq<Block>
    requires k < |bs|
  {
    bs[..k] + bs[k + 1..]
  }

  /** Whether a block of `size` bytes is split when n are asked for. */
  predicate Splits(size: nat, n: nat, H: nat) {
    size >= n && size - n >= H + ALIGN
  }

  /** The block handed out for a request of n bytes. */
  function Served(b: Block, n: nat, H: nat): Block {
    if Splits(b.size, n, H) then Block(b.addr, n) else b
  }

  function Remainder(b: Block, n: nat, H: nat): Block
    requires Splits(b.size, n, H)
  {
    Block(b.addr + H + n, b.size - n - H)
  }

  /** In numbers: a block is split when it has room for n bytes, one more header and 8 bytes behind it; then
      exactly n bytes are handed out, otherwise the whole block. */
  lemma SplitsExactly(b: Block, n: nat, H: nat)
    ensures Splits(b.size, n, H) <==> b.size >= n + H + 8
    ensures Served(b, n, H) == if b.size >= n + H + 8 then Block(b.addr, n) else b
    ensures b.size >= n ==> n <= Served(b, n, H).size < n + H + 8
    ensures b.size >= n + H + 8 ==>
              Remainder(b, n, H) == Block(b.addr + H + n, b.size - n - H) && Remainder(b, n, H).size >= 8
  {}

  /** The free list after serving n bytes from block k when the remainder keeps the block's place. */
  function TakeInPlace(bs: seq<Block>, k: nat, n: nat, H: nat): seq<Block>
    requires k < |bs|
  {
    if Splits(bs[k].size, n, H) then bs[k := Remainder(bs[k], n, H)] else Without(bs, k)
  }

  lemma WithoutOrdered(bs: seq<Block>, k: nat, H: nat)
    requires Ordered(bs, H) && k < |bs|
    ensures Ordered(Without(bs, k), H)
    ensures forall b: Block :: bs[k].addr <= b.addr && End(b, H) <= End(bs[k], H) ==> ApartFrom(b, Without(bs, k), H)
  {
    var w := Without(bs, k);
    forall i | 0 <= i < |w| - 1 ensures End(w[i], H) < w[i + 1].addr {
      if i == k - 1 { OrderedPairwise(bs, H, k - 1, k + 1); }
    }
    forall b: Block, i | bs[k].addr <= b.addr && End(b, H) <= End(bs[k], H) && 0 <= i < |w|
      ensures Apart(b, w[i], H)
    {
      if i < k { OrderedPairwise(bs, H, i, k); } else { OrderedPairwise(bs, H, k, i + 1); }
    }
  }

  lemma WithoutBytes(bs: seq<Block>, k: nat, H: nat)
    requires Ordered(bs, H) && k < |bs|
    ensures Bytes(Without(bs, k), H) + Span(bs[k], H) == Bytes(bs, H)
    ensures Bytes(Without(bs, k), H) !! Span(bs[k], H)
  {
    assert bs == bs[..k] + [bs[k]] + bs[k + 1..];
    BytesAround(bs[..k], bs[k], bs[k + 1..], H);
    BytesConcat(bs[..k], bs[k + 1..], H);
    WithoutOrdered(bs, k, H);
    var w := Without(bs, k);
    forall a | a in Bytes(w, H) ensures a !in Span(bs[k], H) {
      var i :| 0 <= i < |w| && a in Span(w[i], H);
      assert Apart(bs[k], w[i], H);
    }
  }

  /** Splitting in place conserves bytes: the list loses exactly the header and payload handed out. */
  lemma TakeInPlaceBytes(bs: seq<Block>, k: nat, n: nat, H: nat)
    requires H > 0 && Ordered(bs, H) && k < |bs| && bs[k].size >= n
    ensures Ordered(TakeInPlace(bs, k, n, H), H)
    ensures ApartFrom(Served(bs[k], n, H), TakeInPlace(bs, k, n, H), H)
    ensures Bytes(TakeInPlace(bs, k, n, H), H) + Span(Served(bs[k], n, H), H) == Bytes(bs, H)
  {
    WithoutOrdered(bs, k, H);
    WithoutBytes(bs, k, H);
    if Splits(bs[k].size, n, H) {
      SplitBytes(bs, k, n, H);
    }
  }

  lemma SplitBytes(bs: seq<Block>, k: nat, n: nat, H: nat)
    requires H > 0 && Ordered(bs, H) && k < |bs| && Splits(bs[k].size, n, H)
    ensures var t := bs[k := Remainder(bs[k], n, H)];
            && Ordered(t, H) && ApartFrom(Served(bs[k], n, H), t, H)
            && Bytes(t, H) + Span(Served(bs[k], n, H), H) == Bytes(bs, H)
  {
    hide Bytes, Span;
    var r, b := Remainder(bs[k], n, H), Served(bs[k], n, H);
    var t := bs[k := r];
    MergeSpan(b, r, H);
    assert Merge(b, r, H) == bs[k];
    assert t == bs[..k] + [r] + bs[k + 1..] && bs == bs[..k] + [bs[k]] + bs[k + 1..];
    BytesAround(bs[..k], r, bs[k + 1..], H);
    BytesAround(bs[..k], bs[k], bs[k + 1..], H);
    forall i | 0 <= i < |t| ensures Apart(b, t[i], H) {
      if i < k { OrderedPairwise(bs, H, i, k); } else if i > k { OrderedPairwise(bs, H, k, i); }
    }
  }

  /** As meant, allocation from the list and free are inverse: split and forward merge cancel. */
  lemma FreeUndoesTakeInPlace(bs: seq<Block>, k: nat, n: nat, H: nat)
    requires H > 0 && Ordered(bs, H) && k < |bs| && bs[k].size >= n
    ensures Insert(TakeInPlace(bs, k, n, H), Served(bs[k], n, H), H) == bs
  {
    var t, b := TakeInPlace(bs, k, n, H), Served(bs[k], n, H);
    TakeInPlaceBytes(bs, k, n, H);
    InsertOrdered(t, b, H);
    InsertBytes(t, b, H);
    Canonical(Insert(t, b, H), bs, H);
  }

  /** As written, the block is unlinked before it is split, so free restores the list exactly when there
      was nothing to split off. */
  lemma FreeUndoesTakeIff(bs: seq<Block>, k: nat, n: nat, H: nat)
    requires H > 0 && Ordered(bs, H) && k < |bs| && bs[k].size >= n
    ensures Insert(Without(bs, k), Served(bs[k], n, H), H) == bs <==> bs[k].size < n + H + 8
  {
    SplitsExactly(bs[k], n, H);
    var w, b := Without(bs, k), Served(bs[k], n, H);
    WithoutOrdered(bs, k, H);
    WithoutBytes(bs, k, H);
    assert ApartFrom(b, w, H);
    InsertBytes(w, b, H);
    if Splits(bs[k].size, n, H) {
      var lost := Remainder(bs[k], n, H).addr;
      assert lost in Span(bs[k], H) && lost !in Span(b, H);
      assert lost !in Bytes(Insert(w, b, H), H);
    } else {
      InsertOrdered(w, b, H);
      Canonical(Insert(w, b, H), bs, H);
    }
  }
}
