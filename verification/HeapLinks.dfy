/** Block headers in memory and the list they are chained into. */
module HeapLinks {
  import opened Common
  import opened FreeList

  datatype Header = Header(size: nat, next: nat, free: bool)

  /** Headers by address; address 0 is NULL. */
  type Memory = map<nat, Header>

  function SizeAt(mem: Memory, a: nat): nat { if a in mem then mem[a].size else 0 }

  /** Following `next` from `first` visits exactly `list` and ends in NULL. */
  ghost predicate Linked(mem: Memory, first: nat, list: seq<nat>) {
    && first == AddrAt(list, 0)
    && (forall i :: 0 <= i < |list| ==> list[i] != 0 && list[i] in mem)
    && (forall i :: 0 <= i < |list| ==> mem[list[i]].next == AddrAt(list, i + 1))
  }

  ghost function BlocksOf(mem: Memory, list: seq<nat>): (bs: seq<Block>)
    ensures |bs| == |list|
    ensures forall i :: 0 <= i < |list| ==> bs[i] == Block(list[i], SizeAt(mem, list[i]))
  {
    seq(|list|, i requires 0 <= i < |list| => Block(list[i], SizeAt(mem, list[i])))
  }

  lemma OrderedDistinct(mem: Memory, list: seq<nat>, H: nat)
    requires Ordered(BlocksOf(mem, list), H)
    ensures Distinct(list)
  {
    var bs := BlocksOf(mem, list);
    forall i, j | 0 <= i < j < |list| ensures list[i] != list[j] {
      OrderedPairwise(bs, H, i, j);
      assert bs[i].addr == list[i] && bs[j].addr == list[j];
    }
  }

  /** Writes to headers off the list do not show on the list. */
  lemma LinkedFramed(mem: Memory, mem': Memory, first: nat, list: seq<nat>)
    requires Linked(mem, first, list)
    requires forall i :: 0 <= i < |list| ==> list[i] in mem' && mem'[list[i]] == mem[list[i]]
    ensures Linked(mem', first, list) && BlocksOf(mem', list) == BlocksOf(mem, list)
  {}

  // ----- blocks of a list

  lemma BlocksSameSizes(mem: Memory, mem': Memory, list: seq<nat>)
    requires forall i :: 0 <= i < |list| ==> SizeAt(mem', list[i]) == SizeAt(mem, list[i])
    ensures BlocksOf(mem', list) == BlocksOf(mem, list)
  {}

  lemma BlocksConcat(mem: Memory, xs: seq<nat>, ys: seq<nat>)
    ensures BlocksOf(mem, xs + ys) == BlocksOf(mem, xs) + BlocksOf(mem, ys)
  {}

  lemma BlocksSlices(mem: Memory, list: seq<nat>, k: nat)
    requires k <= |list|
    ensures BlocksOf(mem, list[..k]) == BlocksOf(mem, list)[..k]
    ensures BlocksOf(mem, list[k..]) == BlocksOf(mem, list)[k..]
  {}

  // ----- relinking

  /** Chaining header b between positions k - 1 and k. */
  lemma LinkIn(mem: Memory, first: nat, list: seq<nat>, b: nat, k: nat)
    requires Linked(mem, first, list) && Distinct(list) && k <= |list|
    requires b != 0 && b in mem && b !in list
    ensures var mem1 := mem[b := mem[b].(next := AddrAt(list, k))];
            var mem' := if k > 0 then mem1[list[k - 1] := mem1[list[k - 1]].(next := b)] else mem1;
            var first' := if k > 0 then first else b;
            var list' := list[..k] + [b] + list[k..];
            && Linked(mem', first', list') && Distinct(list')
            && BlocksOf(mem', list') ==
               BlocksOf(mem, list)[..k] + [Block(b, mem[b].size)] + BlocksOf(mem, list)[k..]
  {
    var mem1 := mem[b := mem[b].(next := AddrAt(list, k))];
    var mem' := if k > 0 then mem1[list[k - 1] := mem1[list[k - 1]].(next := b)] else mem1;
    var list' := list[..k] + [b] + list[k..];
    InsertedAt(list, b, k);
    assert forall a :: a in mem ==> SizeAt(mem', a) == SizeAt(mem, a);
    LinkInBlocks(mem, mem', list, b, k);
    hide BlocksOf;
    assert forall i :: 0 <= i < |list| && i != k - 1 ==> mem'[list[i]].next == mem[list[i]].next;
    ChainIn(mem, mem', first, list, list', b, k);
  }

  lemma ChainIn(mem: Memory, mem': Memory, first: nat, list: seq<nat>, list': seq<nat>, b: nat, k: nat)
    requires Linked(mem, first, list) && k <= |list| && b != 0
    requires |list'| == |list| + 1 && list'[k] == b
    requires forall i :: 0 <= i < k ==> list'[i] == list[i]
    requires forall i :: k < i < |list'| ==> list'[i] == list[i - 1]
    requires b in mem' && mem'[b].next == AddrAt(list, k)
    requires forall i :: 0 <= i < |list| ==> list[i] in mem'
    requires k > 0 ==> mem'[list[k - 1]].next == b
    requires forall i :: 0 <= i < |list| && i != k - 1 ==> mem'[list[i]].next == mem[list[i]].next
    ensures Linked(mem', if k > 0 then first else b, list')
  {
    forall i | 0 <= i < |list'| ensures list'[i] in mem' && mem'[list'[i]].next == AddrAt(list', i + 1) {
      if i < k { assert mem[list[i]].next == AddrAt(list, i + 1); }
      if i > k { assert mem[list[i - 1]].next == AddrAt(list, i); }
    }
  }

  lemma InsertedAt(list: seq<nat>, b: nat, k: nat)
    requires Distinct(list) && k <= |list| && b !in list
    ensures var list' := list[..k] + [b] + list[k..];
            && Distinct(list') && |list'| == |list| + 1 && list'[k] == b
            && (forall i :: 0 <= i < k ==> list'[i] == list[i])
            && (forall i :: k < i < |list'| ==> list'[i] == list[i - 1])
  {}

  lemma LinkInBlocks(mem: Memory, mem': Memory, list: seq<nat>, b: nat, k: nat)
    requires k <= |list| && b in mem && forall i :: 0 <= i < |list| ==> list[i] in mem
    requires forall a :: a in mem ==> SizeAt(mem', a) == SizeAt(mem, a)
    ensures BlocksOf(mem', list[..k] + [b] + list[k..]) ==
            BlocksOf(mem, list)[..k] + [Block(b, mem[b].size)] + BlocksOf(mem, list)[k..]
  {
    var list' := list[..k] + [b] + list[k..];
    BlocksSameSizes(mem, mem', list');
    BlocksConcat(mem, list[..k] + [b], list[k..]);
    BlocksConcat(mem, list[..k], [b]);
    BlocksSlices(mem, list, k);
  }

  /** Position k is unchained; its own header keeps whatever it had. */
  lemma LinkOut(mem: Memory, first: nat, list: seq<nat>, k: nat)
    requires Linked(mem, first, list) && Distinct(list) && k < |list|
    ensures var mem' := if k > 0 then mem[list[k - 1] := mem[list[k - 1]].(next := mem[list[k]].next)] else mem;
            var first' := if k > 0 then first else mem[list[k]].next;
            var list' := list[..k] + list[k + 1..];
            && Linked(mem', first', list') && Distinct(list') && list[k] !in list'
            && BlocksOf(mem', list') == Without(BlocksOf(mem, list), k)
  {
    var mem' := if k > 0 then mem[list[k - 1] := mem[list[k - 1]].(next := mem[list[k]].next)] else mem;
    var list' := list[..k] + list[k + 1..];
    RemovedAt(list, k);
    assert forall a :: a in mem ==> SizeAt(mem', a) == SizeAt(mem, a);
    BlocksSameSizes(mem, mem', list');
    BlocksConcat(mem, list[..k], list[k + 1..]);
    BlocksSlices(mem, list, k);
    BlocksSlices(mem, list, k + 1);
    hide BlocksOf;
    assert forall i :: 0 <= i < |list| && i != k - 1 ==> mem'[list[i]].next == mem[list[i]].next;
    ChainOut(mem, mem', first, list, list', k);
  }

  lemma ChainOut(mem: Memory, mem': Memory, first: nat, list: seq<nat>, list': seq<nat>, k: nat)
    requires Linked(mem, first, list) && k < |list|
    requires |list'| == |list| - 1
    requires forall j :: 0 <= j < k ==> list'[j] == list[j]
    requires forall j :: k <= j < |list'| ==> list'[j] == list[j + 1]
    requires forall i :: 0 <= i < |list| ==> list[i] in mem'
    requires k > 0 ==> mem'[list[k - 1]].next == mem[list[k]].next
    requires forall i :: 0 <= i < |list| && i != k - 1 ==> mem'[list[i]].next == mem[list[i]].next
    ensures Linked(mem', if k > 0 then first else mem[list[k]].next, list')
  {
    assert mem[list[k]].next == AddrAt(list, k + 1);
    forall j | 0 <= j < |list'| ensures list'[j] in mem' && mem'[list'[j]].next == AddrAt(list', j + 1) {
      if j < k { assert mem[list[j]].next == AddrAt(list, j + 1); }
      if j >= k { assert mem[list[j + 1]].next == AddrAt(list, j + 2); }
    }
  }

  lemma RemovedAt(list: seq<nat>, k: nat)
    requires Distinct(list) && k < |list|
    ensures var list' := list[..k] + list[k + 1..];
            && Distinct(list') && |list'| == |list| - 1 && list[k] !in list'
            && (forall j :: 0 <= j < k ==> list'[j] == list[j])
            && (forall j :: k <= j < |list'| ==> list'[j] == list[j + 1])
  {}

  /** Changing one size on the list. */
  lemma Resize(mem: Memory, first: nat, list: seq<nat>, i: nat, size: nat)
    requires Linked(mem, first, list) && Distinct(list) && i < |list|
    ensures var mem' := mem[list[i] := mem[list[i]].(size := size)];
            Linked(mem', first, list) && BlocksOf(mem', list) == BlocksOf(mem, list)[i := Block(list[i], size)]
  {}

  /** The block at position i swallows the one behind it. */
  lemma MergeNext(mem: Memory, first: nat, list: seq<nat>, i: nat, H: nat)
    requires Linked(mem, first, list) && Distinct(list) && i + 1 < |list|
    ensures var b, c := mem[list[i]], mem[list[i + 1]];
            var mem' := mem[list[i] := Header(b.size + H + c.size, c.next, b.free)];
            var list' := list[..i + 1] + list[i + 2..];
            var bs := BlocksOf(mem, list);
            && Linked(mem', first, list') && Distinct(list')
            && BlocksOf(mem', list') == bs[..i] + [Merge(bs[i], bs[i + 1], H)] + bs[i + 2..]
  {
    hide Linked, BlocksOf, Distinct;
    LinkedAt(mem, first, list, i);
    LinkedAt(mem, first, list, i + 1);
    var b, c, bs := mem[list[i]], mem[list[i + 1]], BlocksOf(mem, list);
    var mem1 := mem[list[i] := b.(next := c.next)];
    var list' := list[..i + 1] + list[i + 2..];
    LinkOut(mem, first, list, i + 1);
    assert list'[i] == list[i];
    Resize(mem1, first, list', i, b.size + H + c.size);
    assert mem1[list[i] := mem1[list[i]].(size := b.size + H + c.size)]
        == mem[list[i] := Header(b.size + H + c.size, c.next, b.free)];
    assert Without(bs, i + 1)[i := Merge(bs[i], bs[i + 1], H)]
        == bs[..i] + [Merge(bs[i], bs[i + 1], H)] + bs[i + 2..];
  }

  lemma LinkedAt(mem: Memory, first: nat, list: seq<nat>, i: nat)
    requires Linked(mem, first, list) && i < |list|
    ensures list[i] != 0 && list[i] in mem && mem[list[i]].next == AddrAt(list, i + 1)
    ensures BlocksOf(mem, list)[i] == Block(list[i], mem[list[i]].size)
  {}

  /** Position k is replaced by header r, whose `next` was copied from the block it replaces. */
  lemma LinkOver(mem: Memory, first: nat, list: seq<nat>, k: nat, r: nat)
    requires Linked(mem, first, list) && Distinct(list) && k < |list|
    requires r != 0 && r in mem && r !in list && mem[r].next == mem[list[k]].next
    ensures var mem' := if k > 0 then mem[list[k - 1] := mem[list[k - 1]].(next := r)] else mem;
            var first' := if k > 0 then first else r;
            && Linked(mem', first', list[k := r]) && Distinct(list[k := r]) && list[k] !in list[k := r]
            && BlocksOf(mem', list[k := r]) == BlocksOf(mem, list)[k := Block(r, mem[r].size)]
  {
    var mem' := if k > 0 then mem[list[k - 1] := mem[list[k - 1]].(next := r)] else mem;
    assert forall a :: a in mem ==> SizeAt(mem', a) == SizeAt(mem, a);
    LinkOverBlocks(mem, mem', list, k, r);
    ReplacedAt(list, k, r);
    hide BlocksOf, Distinct;
    assert forall i :: 0 <= i < |list| && i != k - 1 ==> mem'[list[i]].next == mem[list[i]].next;
    ChainOver(mem, mem', first, list, k, r);
  }

  lemma ReplacedAt(list: seq<nat>, k: nat, r: nat)
    requires Distinct(list) && k < |list| && r !in list
    ensures Distinct(list[k := r]) && list[k] !in list[k := r]
    ensures k > 0 ==> list[k - 1] != list[k]
    ensures forall i :: 0 <= i < |list| && i != k - 1 && k > 0 ==> list[i] != list[k - 1]
  {}

  lemma LinkOverBlocks(mem: Memory, mem': Memory, list: seq<nat>, k: nat, r: nat)
    requires k < |list| && r in mem && forall i :: 0 <= i < |list| ==> list[i] in mem
    requires forall a :: a in mem ==> SizeAt(mem', a) == SizeAt(mem, a)
    ensures BlocksOf(mem', list[k := r]) == BlocksOf(mem, list)[k := Block(r, mem[r].size)]
  {}

  lemma ChainOver(mem: Memory, mem': Memory, first: nat, list: seq<nat>, k: nat, r: nat)
    requires Linked(mem, first, list) && k < |list| && r != 0
    requires r in mem' && mem'[r].next == mem[list[k]].next
    requires forall i :: 0 <= i < |list| ==> list[i] in mem'
    requires k > 0 ==> mem'[list[k - 1]].next == r
    requires forall i :: 0 <= i < |list| && i != k - 1 ==> mem'[list[i]].next == mem[list[i]].next
    ensures Linked(mem', if k > 0 then first else r, list[k := r])
  {
    var list' := list[k := r];
    forall j | 0 <= j < |list| ensures list'[j] in mem' && mem'[list'[j]].next == AddrAt(list', j + 1) {
      assert mem[list[j]].next == AddrAt(list, j + 1);
    }
  }
}
