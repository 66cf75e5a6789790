/** The kernel heap: first-fit, address-ordered, coalescing free list plus a bump pointer. */
module Heap {
  import opened Common
  import opened FreeList
  import opened HeapLinks
  import opened HeapCells

  /** `ALIGN_UP(x, ALIGN)` for values that do not wrap. */
  function AlignUp(x: nat): (r: nat)
    ensures x <= r < x + 8 && r % 8 == 0
    ensures x > 0 ==> r > 0
  {
    (x + ALIGN - 1) / ALIGN * ALIGN
  }

  const WORD := 0x1_0000_0000

  class KernelHeap {
    /** sizeof(block_header_t) */
    const H: nat
    var start: nat
    var end: nat
    var bump: nat
    var mem: Memory
    /** Address of the first free block, 0 when there is none. */
    var freeList: nat
    var allocCount: nat
    /** Addresses on the free list, in list order. */
    ghost var list: seq<nat>
    /** What every byte in [start, bump) belongs to. */
    ghost var cells: seq<Cell>

    constructor (headerSize: nat)
      requires headerSize > 0
      ensures H == headerSize
    {
      H := headerSize;
      start, end, bump, mem, freeList, allocCount := 0, 0, 0, map[], 0, 0;
      list, cells := [], [];
    }

    ghost function Blocks(): seq<Block>
      reads this
    {
      BlocksOf(mem, list)
    }

    ghost function LiveSet(): set<Block>
      reads this
    {
      LiveBlocks(cells, H)
    }

    /** Bytes of split remainders that no list holds. */
    ghost function LostBytes(): nat
      reads this
    {
      Total(cells, Lost)
    }

    /** Bytes skipped to align the bump pointer. */
    ghost function GapBytes(): nat
      reads this
    {
      Total(cells, Gap)
    }

    ghost predicate ListValid()
      reads this
    {
      H > 0 && Linked(mem, freeList, list) && Ordered(Blocks(), H)
    }

    ghost predicate Valid()
      reads this
    {
      && ListValid()
      && start > 0 && start % ALIGN == 0
      && Tiles(cells, start, bump, H)
      && Blocks() == FreeBlocks(cells, H)
      && LiveHeaders(mem, LiveSet())
      && allocCount == |LiveSet()|
      && (cells == [] || bump <= end)
    }

    method Init(base: nat, size: nat)
      requires H > 0 && base > 0 && base + size + ALIGN < WORD
      modifies this
      ensures Valid() && start == AlignUp(base) && end == base + size && bump == start
      ensures Blocks() == [] && LiveSet() == {} && allocCount == 0 && LostBytes() == 0 && GapBytes() == 0
    {
      start := AlignUp(base);
      end := base + size;
      bump := start;
      freeList := 0;
      allocCount := 0;
      list, cells := [], [];
    }

    /** First fit: the first block of the list that is large enough, and the block before it. */
    method FindFreeBlock(asize: nat) returns (prev: nat, cur: nat)
      requires ListValid()
      ensures var k := FirstFit(Blocks(), asize);
              && cur == AddrAt(list, k)
              && (k < |list| ==> prev == if k > 0 then list[k - 1] else 0)
    {
      hide Linked, Ordered, FirstFit, BlocksOf;
      prev, cur := 0, freeList;
      ListStart(mem, freeList, list);
      ghost var k := 0;
      while cur != 0
        invariant 0 <= k <= |list| && cur == AddrAt(list, k)
        invariant prev == if k > 0 then list[k - 1] else 0
        invariant forall i :: 0 <= i < k ==> Blocks()[i].size < asize
        decreases |list| - k
      {
        LinkedAt(mem, freeList, list, k);
        if mem[cur].size >= asize {
          FirstFitIs(Blocks(), asize, k);
          return;
        }
        prev := cur;
        cur := mem[cur].next;
        k := k + 1;
      }
      if k < |list| { LinkedAt(mem, freeList, list, k); }
      FirstFitIs(Blocks(), asize, k);
    }

    /** Puts b into its place in the list and merges it with the neighbours it touches. */
    method InsertAndCoalesce(b: nat)
      requires ListValid() && b != 0 && b in mem
      requires ApartFrom(Block(b, mem[b].size), Blocks(), H)
      modifies this`mem, this`freeList, this`list
      ensures ListValid() && Blocks() == Insert(old(Blocks()), Block(b, old(mem[b].size)), H)
      ensures mem.Keys == old(mem.Keys)
      ensures forall a :: a in mem && a !in old(list) && a != b ==> mem[a] == old(mem[a])
    {
      hide Linked, Ordered, ApartFrom, BlocksOf, Distinct, Insert, MergedAt, Position;
      ghost var bs, blk := Blocks(), Block(b, mem[b].size);
      OrderedDistinct(mem, list, H);
      InsertOrdered(bs, blk, H);
      OffList(mem, list, b, H);
      ListStart(mem, freeList, list);
      if freeList == 0 {
        InsertEmpty(mem, b, H);
        mem := mem[b := mem[b].(next := 0)];
        freeList := b;
        list := [b];
        return;
      }
      var prev, cur;
      ghost var k;
      prev, cur, k := FindPlace(b);
      InsertIsMerges(bs, blk, k, H);
      LinkBlock(b, prev, cur, k);
      CoalesceForward(b, k);
      CoalesceBack(prev, b, k);
    }

    /** The walk to the first block at or above b. */
    method FindPlace(b: nat) returns (prev: nat, cur: nat, ghost k: nat)
      requires ListValid()
      ensures k <= |list| && k == Position(Blocks(), b)
      ensures cur == AddrAt(list, k) && prev == (if k > 0 then list[k - 1] else 0) && (k > 0 ==> prev != 0)
    {
      hide Linked, Ordered, BlocksOf, Position;
      ListStart(mem, freeList, list);
      prev, cur, k := 0, freeList, 0;
      while cur != 0 && cur < b
        invariant 0 <= k <= |list| && cur == AddrAt(list, k)
        invariant prev == if k > 0 then list[k - 1] else 0
        invariant k > 0 ==> list[k - 1] < b && list[k - 1] != 0
        decreases |list| - k
      {
        LinkedAt(mem, freeList, list, k);
        prev := cur;
        cur := mem[cur].next;
        k := k + 1;
      }
      if k < |list| { LinkedAt(mem, freeList, list, k); }
      PositionUnique(Blocks(), H, b, k);
    }

    /** `b->next = cur` and the link from the block before, or from the list head. */
    method LinkBlock(b: nat, prev: nat, cur: nat, ghost k: nat)
      requires Linked(mem, freeList, list) && Distinct(list) && b != 0 && b in mem && b !in list && k <= |list|
      requires cur == AddrAt(list, k) && prev == (if k > 0 then list[k - 1] else 0) && (k > 0 ==> prev != 0)
      modifies this`mem, this`freeList, this`list
      ensures Linked(mem, freeList, list) && Distinct(list)
      ensures |list| > k && list[k] == b && (k > 0 ==> list[k - 1] == prev)
      ensures forall a :: a in list ==> a in old(list) || a == b
      ensures Blocks() == old(Blocks())[..k] + [Block(b, old(mem[b].size))] + old(Blocks())[k..]
      ensures mem.Keys == old(mem.Keys)
      ensures forall a :: a in mem && a !in old(list) && a != b ==> mem[a] == old(mem[a])
    {
      hide BlocksOf, Distinct;
      LinkIn(mem, freeList, list, b, k);
      mem := mem[b := mem[b].(next := cur)];
      if prev != 0 {
        mem := mem[prev := mem[prev].(next := b)];
      } else {
        freeList := b;
      }
      list := list[..k] + [b] + list[k..];
    }

    /** Merges b with the block behind it when they touch. */
    method CoalesceForward(b: nat, ghost k: nat)
      requires Linked(mem, freeList, list) && Distinct(list) && k < |list| && list[k] == b
      modifies this`mem, this`list
      ensures Linked(mem, freeList, list) && Distinct(list)
      ensures k < |list| && list[k] == b && (k > 0 ==> list[k - 1] == old(list)[k - 1])
      ensures forall a :: a in list ==> a in old(list)
      ensures Blocks() == MergedAt(old(Blocks()), k, H)
      ensures mem.Keys == old(mem.Keys)
      ensures forall a :: a in mem && a !in old(list) ==> mem[a] == old(mem[a])
    {
      hide BlocksOf, Distinct, Linked;
      LinkedAt(mem, freeList, list, k);
      if mem[b].next != 0 {
        LinkedAt(mem, freeList, list, k + 1);
        var bEnd := b + H + mem[b].size;
        var next := mem[b].next;
        if bEnd == next {
          MergeNext(mem, freeList, list, k, H);
          mem := mem[b := Header(mem[b].size + H + mem[next].size, mem[next].next, mem[b].free)];
          list := list[..k + 1] + list[k + 2..];
        }
      } else {
        ListEnd(mem, freeList, list, k);
      }
    }

    /** Merges the block before b with b when they touch. */
    method CoalesceBack(prev: nat, b: nat, ghost k: nat)
      requires Linked(mem, freeList, list) && Distinct(list) && k < |list| && list[k] == b
      requires prev == if k > 0 then list[k - 1] else 0
      modifies this`mem, this`list
      ensures Linked(mem, freeList, list)
      ensures Blocks() == if k > 0 then MergedAt(old(Blocks()), k - 1, H) else old(Blocks())
      ensures mem.Keys == old(mem.Keys)
      ensures forall a :: a in mem && a !in old(list) ==> mem[a] == old(mem[a])
    {
      hide BlocksOf, Distinct, Linked;
      LinkedAt(mem, freeList, list, k);
      if k > 0 { LinkedAt(mem, freeList, list, k - 1); }
      if prev != 0 {
        var prevEnd := prev + H + mem[prev].size;
        if prevEnd == b {
          MergeNext(mem, freeList, list, k - 1, H);
          mem := mem[prev := Header(mem[prev].size + H + mem[b].size, mem[b].next, mem[prev].free)];
          list := list[..k] + list[k + 1..];
        }
      }
    }

    /** The walk for the block whose `next` is b. The chain need only be intact up to position n, where b
        is; n is the length when b is not on the list. */
    method FindLink(b: nat, ghost n: nat) returns (p: nat)
      requires ChainTo(mem, freeList, list, n) && Distinct(list) && n > 0
      requires if n < |list| then list[n] == b else b !in list && b != 0
      ensures p == if n < |list| then list[n - 1] else 0
    {
      p := freeList;
      ghost var i := 0;
      while p != 0 && mem[p].next != b
        invariant 0 <= i <= n && p == AddrAt(list, i)
        invariant i < n || i == |list|
        invariant i < |list| ==> i < n && p in mem
        decreases n - i
      {
        p := mem[p].next;
        i := i + 1;
      }
    }

    /** Splits block b of position k, or of no position (k is the length of the list), after asize bytes.
        The remainder takes b's place in the list, if b has one; a block too small to split leaves it. */
    method SplitBlock(b: nat, asize: nat, ghost k: nat)
      requires SplitReady(b, asize, k)
      modifies this`mem, this`freeList, this`list
      ensures Linked(mem, freeList, list) && b !in list
      ensures Blocks() == if k < old(|list|) then TakeInPlace(old(Blocks()), k, asize, H) else old(Blocks())
      ensures var size, bs := old(mem[b].size), old(Blocks());
              && b in mem && mem[b].size == (if size >= asize + H + 8 then asize else size)
              && (k < |bs| ==>
                    Blocks() == if size >= asize + H + 8 then bs[k := Block(b + H + asize, size - asize - H)]
                                else bs[..k] + bs[k + 1..])
      ensures Untouched(old(mem), mem, old(list), b, if old(mem[b].size) >= asize + H + 8 then b + H + asize else b)
    {
      hide Linked, BlocksOf, Distinct, Splits, TakeInPlace, Untouched;
      if k < |list| { LinkedAt(mem, freeList, list, k); TakenExactly(Blocks(), k, asize, H); }
      SplitsExactly(Block(b, mem[b].size), asize, H);
      var remaining := mem[b].size - asize;
      if remaining >= H + ALIGN {
        SplitOff(b, asize, remaining, k);
      } else {
        TakeWhole(b, asize, k);
      }
    }

    ghost predicate SplitReady(b: nat, asize: nat, k: nat)
      reads this
    {
      && H > 0 && Linked(mem, freeList, list) && Distinct(list)
      && b in mem && b != 0 && mem[b].size >= asize && k <= |list|
      && (if k < |list| then list[k] == b else b !in list)
      && (Splits(mem[b].size, asize, H) ==> b + H + asize !in list)
    }

    /** The splitting branch: a new header behind the asize bytes. */
    method SplitOff(b: nat, asize: nat, remaining: nat, ghost k: nat)
      requires SplitReady(b, asize, k)
      requires remaining == mem[b].size - asize && remaining >= H + ALIGN
      modifies this`mem, this`freeList, this`list
      ensures Linked(mem, freeList, list) && b !in list
      ensures Blocks() == if k < old(|list|) then TakeInPlace(old(Blocks()), k, asize, H) else old(Blocks())
      ensures b in mem && mem[b].size == asize
      ensures Untouched(old(mem), mem, old(list), b, b + H + asize)
    {
      hide Linked, BlocksOf, Distinct;
      var r := b + H + asize;
      ghost var h := Header(remaining - H, mem[b].next, true);
      ghost var mem1 := mem[r := h];
      NewHeader(mem, mem1, freeList, list, r, h);
      mem := mem[r := Header(remaining - H, mem[b].next, true)];
      mem := mem[b := mem[b].(size := asize, next := 0)];
      PointPast(b, r, k, mem1);
    }

    /** The link that led to b, if there is one, now leads to r. */
    method PointPast(b: nat, r: nat, ghost k: nat, ghost mem1: Memory)
      requires Linked(mem1, freeList, list) && Distinct(list) && b in mem1 && b != 0 && k <= |list|
      requires if k < |list| then list[k] == b else b !in list
      requires r != 0 && r != b && r in mem1 && r !in list && mem1[r].next == mem1[b].next
      requires b in mem && mem == mem1[b := mem[b]]
      modifies this`mem, this`freeList, this`list
      ensures Linked(mem, freeList, list) && b !in list
      ensures Blocks() == var bs := BlocksOf(mem1, old(list));
                          if k < |bs| then bs[k := Block(r, mem1[r].size)] else bs
      ensures b in mem && mem[b] == old(mem[b])
      ensures Untouched(old(mem), mem, old(list), b, b)
    {
      hide Linked, BlocksOf, Distinct;
      ghost var first := freeList;
      if k < |list| { LinkedAt(mem1, first, list, k); LinkOver(mem1, first, list, k, r); }
      ListStart(mem1, first, list);
      if freeList == b {
        HeadPosition(mem1, first, list, b, k);
        freeList := r;
        list := list[0 := r];
        LinkedFramedBut(mem1, mem, freeList, list, b);
      } else {
        SplitChain(mem1, mem, first, list, b, k);
        var p := 0;
        if freeList != 0 { p := FindLink(b, k); }
        if p != 0 {
          LinkedAt(mem1, first, list, k - 1);
          mem := mem[p := mem[p].(next := r)];
          ghost var mem2 := mem1[p := mem1[p].(next := r)];
          list := list[k := r];
          LinkedFramedBut(mem2, mem, freeList, list, b);
        } else {
          LinkedFramedBut(mem1, mem, freeList, list, b);
        }
      }
    }

    /** The other branch: b leaves the list whole, if it is on it. */
    method TakeWhole(b: nat, asize: nat, ghost k: nat)
      requires SplitReady(b, asize, k) && !Splits(mem[b].size, asize, H)
      modifies this`mem, this`freeList, this`list
      ensures Linked(mem, freeList, list) && b !in list
      ensures Blocks() == if k < old(|list|) then Without(old(Blocks()), k) else old(Blocks())
      ensures b in mem && mem[b].size == old(mem[b].size)
      ensures Untouched(old(mem), mem, old(list), b, b)
    {
      hide Linked, BlocksOf, Distinct;
      ghost var first, mem1 := freeList, mem;
      ListStart(mem1, first, list);
      if k < |list| { LinkedAt(mem, first, list, k); LinkOut(mem, first, list, k); }
      if freeList == b {
        HeadPosition(mem1, first, list, b, k);
        freeList := mem[b].next;
        list := list[..0] + list[1..];
      } else {
        SplitChain(mem1, mem, first, list, b, k);
        var p := 0;
        if freeList != 0 { p := FindLink(b, k); }
        if p != 0 {
          LinkedAt(mem1, first, list, k - 1);
          mem := mem[p := mem[p].(next := mem[b].next)];
          list := list[..k] + list[k + 1..];
        }
      }
      ghost var mem2 := mem;
      mem := mem[b := mem[b].(next := 0)];
      mem := mem[b := mem[b].(free := false)];
      LinkedFramedBut(mem2, mem, freeList, list, b);
    }

    // ----- the client operations

    /** `kmalloc` as written: the block found is unlinked first and split afterwards, so a remainder that
        is split off ends up on no list. */
    method Kmalloc(size: nat) returns (p: nat)
      requires Valid() && AlignUp(bump) + H + AlignUp(size) < WORD
      modifies this
      ensures Valid() && start == old(start) && end == old(end)
      ensures size == 0 ==> p == 0
      ensures p == 0 ==> Blocks() == old(Blocks()) && LiveSet() == old(LiveSet()) && bump == old(bump)
      ensures var n, bs := AlignUp(size), old(Blocks());
              var k := FirstFit(bs, n);
              size > 0 && k < |bs| ==>
                var served := if bs[k].size >= n + H + 8 then Block(bs[k].addr, n) else bs[k];
                && p == bs[k].addr + H && Blocks() == bs[..k] + bs[k + 1..] && bump == old(bump)
                && LiveSet() == old(LiveSet()) + {served} && served !in old(LiveSet())
                && n <= served.size < n + H + 8
                && LostBytes() == old(LostBytes()) + (if bs[k].size >= n + H + 8 then bs[k].size - n else 0)
      ensures var n, at := AlignUp(size), AlignUp(old(bump));
              size > 0 && FirstFit(old(Blocks()), n) == |old(Blocks())| ==>
                if at + H + n > end then p == 0
                else && p == at + H && Blocks() == old(Blocks()) && bump == at + H + n
                     && LiveSet() == old(LiveSet()) + {Block(at, n)} && Block(at, n) !in old(LiveSet())
      ensures size == 0 || FirstFit(old(Blocks()), AlignUp(size)) == |old(Blocks())| ==> LostBytes() == old(LostBytes())
      ensures LostBytes() == old(LostBytes()) || LostBytes() >= old(LostBytes()) + H + 8
      ensures GapBytes() == old(GapBytes()) + (if bump == old(bump) then 0 else AlignUp(old(bump)) - old(bump))
    {
      hide Tiles, FreeBlocks, LiveBlocks, Linked, Ordered, BlocksOf, FirstFit, Without, Served, LiveHeaders;
      hide AlignUp, Total, SplitOffBytes;
      if size == 0 { return 0; }
      var n := AlignUp(size);
      var prev, found := FindFreeBlock(n);
      FoundAt(n);
      if found != 0 {
        ghost var k := FirstFit(Blocks(), n);
        SplitsExactly(Blocks()[k], n, H);
        SplitOffExactly(Blocks(), k, n, H);
        TakeFound(prev, found, n, k);
        return found + H;
      }
      p := TakeBump(n);
    }

    lemma FoundAt(n: nat)
      requires ListValid()
      ensures var k := FirstFit(Blocks(), n);
              (AddrAt(list, k) != 0 <==> k < |list|) && (k < |list| ==> Blocks()[k].addr == list[k])
    {}

    /** The free-list path of `kmalloc`. */
    method TakeFound(prev: nat, found: nat, n: nat, ghost k: nat)
      requires Valid() && k < |list| && found == list[k] && prev == (if k > 0 then list[k - 1] else 0)
      requires Blocks()[k].size >= n
      modifies this`mem, this`freeList, this`list, this`cells, this`allocCount
      ensures Valid() && Blocks() == Without(old(Blocks()), k)
      ensures LiveSet() == old(LiveSet()) + {Served(old(Blocks())[k], n, H)}
      ensures Served(old(Blocks())[k], n, H) !in old(LiveSet())
      ensures LostBytes() == old(LostBytes()) + SplitOffBytes(old(Blocks()), k, n, H) && GapBytes() == old(GapBytes())
    {
      hide Linked, BlocksOf, Distinct, Ordered, Tiles, FreeBlocks, LiveBlocks, LiveHeaders, Untouched, Total;
      ghost var mem0, list0, bs := mem, list, Blocks();
      UnlinkAndSplit(prev, found, n, k);
      WithoutOrdered(bs, k, H);
      ghost var cells' := ServeState(cells, mem0, mem, list0, k, n, Lost, start, bump, H);
      cells := cells';
      allocCount := allocCount + 1;
    }

    /** Unlink the block, then split it. */
    method UnlinkAndSplit(prev: nat, found: nat, n: nat, ghost k: nat)
      requires ListValid() && k < |list| && found == list[k] && prev == (if k > 0 then list[k - 1] else 0)
      requires Blocks()[k].size >= n
      modifies this`mem, this`freeList, this`list
      ensures Linked(mem, freeList, list) && Blocks() == Without(old(Blocks()), k)
      ensures found in mem && mem[found].size == Served(old(Blocks())[k], n, H).size
      ensures Untouched(old(mem), mem, old(list), found,
                        if Splits(old(Blocks())[k].size, n, H) then found + H + n else found)
    {
      hide Linked, BlocksOf, Distinct, Ordered;
      LinkedAt(mem, freeList, list, k);
      RemainderOffList(mem, list, k, n, H);
      Unlink(prev, found, k);
      SplitBlock(found, n, |list|);
    }

    /** Takes the block at position k off the list. */
    method Unlink(prev: nat, found: nat, ghost k: nat)
      requires ListValid() && k < |list| && found == list[k] && prev == (if k > 0 then list[k - 1] else 0)
      modifies this`mem, this`freeList, this`list
      ensures Linked(mem, freeList, list) && Distinct(list) && Blocks() == Without(old(Blocks()), k)
      ensures found != 0 && found in mem && mem[found].size == old(Blocks())[k].size
      ensures found !in list && forall a :: a in list ==> a in old(list)
      ensures Untouched(old(mem), mem, old(list), found, found)
    {
      hide Linked, BlocksOf, Distinct, Ordered;
      OrderedDistinct(mem, list, H);
      LinkedAt(mem, freeList, list, k);
      if k > 0 { LinkedAt(mem, freeList, list, k - 1); }
      LinkOut(mem, freeList, list, k);
      UnlinkedApart(list, k);
      if prev != 0 {
        mem := mem[prev := mem[prev].(next := mem[found].next)];
      } else {
        freeList := mem[found].next;
      }
      list := list[..k] + list[k + 1..];
      ghost var mem1 := mem;
      mem := mem[found := mem[found].(free := false, next := 0)];
      LinkedFramedBut(mem1, mem, freeList, list, found);
    }

    /** The bump path of `kmalloc`. */
    method TakeBump(n: nat) returns (p: nat)
      requires Valid() && n > 0 && n % ALIGN == 0
      modifies this`mem, this`bump, this`cells, this`allocCount
      ensures Valid() && Blocks() == old(Blocks())
      ensures var at := AlignUp(old(bump));
              if at + H + n > end
              then p == 0 && bump == old(bump) && LiveSet() == old(LiveSet())
              else && p == at + H && bump == at + H + n
                   && LiveSet() == old(LiveSet()) + {Block(at, n)} && Block(at, n) !in old(LiveSet())
      ensures LostBytes() == old(LostBytes())
      ensures GapBytes() == old(GapBytes()) + (if bump == old(bump) then 0 else AlignUp(old(bump)) - old(bump))
    {
      hide Linked, BlocksOf, Ordered, Tiles, FreeBlocks, LiveBlocks, Total, LiveHeaders;
      var need := H + n;
      var next := AlignUp(bump);
      if next + need > end { return 0; }
      ghost var mem0 := mem;
      mem := mem[next := Header(n, 0, false)];
      ghost var cells' := BumpState(cells, mem0, mem, freeList, list, start, bump, next, n, H);
      bump := next + need;
      cells := cells';
      allocCount := allocCount + 1;
      p := next + H;
    }

    /** `kfree`: NULL and pointers outside the heap are ignored; inside it, clients pass only live pointers. */
    method Kfree(ptr: nat)
      requires Valid() && (ptr != 0 ==> ptr >= H)
      requires ptr == 0 || ptr - H < start || ptr - H >= end || HasAddr(LiveSet(), ptr - H)
      modifies this`mem, this`freeList, this`list, this`cells, this`allocCount
      ensures Valid()
      ensures ptr == 0 || ptr - H < start || ptr - H >= end ==>
                mem == old(mem) && Blocks() == old(Blocks()) && LiveSet() == old(LiveSet())
      ensures forall b :: ptr != 0 && b in old(LiveSet()) && b.addr == ptr - H ==>
                Blocks() == Insert(old(Blocks()), b, H) && LiveSet() == old(LiveSet()) - {b}
      ensures LostBytes() == old(LostBytes()) && GapBytes() == old(GapBytes())
    {
      hide Linked, BlocksOf, Ordered, Tiles, FreeBlocks, LiveBlocks, Insert, Total, LiveHeaders;
      LiveInside();
      if ptr == 0 { return; }
      var h := ptr - H;
      if h < start || h >= end { return; }
      ghost var b :| b in LiveSet() && b.addr == h;
      LayoutSafe(cells, start, bump, H);
      LiveUnique(LiveSet(), b, H);
      GiveBack(h, b);
    }

    /** A live block goes back into the list. */
    method GiveBack(h: nat, ghost b: Block)
      requires Valid() && b in LiveSet() && b.addr == h
      modifies this`mem, this`freeList, this`list, this`cells, this`allocCount
      ensures Valid() && Blocks() == Insert(old(Blocks()), b, H) && LiveSet() == old(LiveSet()) - {b}
      ensures LostBytes() == old(LostBytes()) && GapBytes() == old(GapBytes())
    {
      hide Linked, BlocksOf, Ordered, Tiles, FreeBlocks, LiveBlocks, Insert, ApartFrom, Total;
      LayoutSafe(cells, start, bump, H);
      LiveUnique(LiveSet(), b, H);
      HeapBound(b);
      ghost var cells' := ReleaseCells(cells, Blocks(), b, start, bump, H);
      mem := mem[h := mem[h].(free := true)];
      OffListLive(old(mem), mem, freeList, list, LiveSet(), b, H);
      InsertAndCoalesce(h);
      LiveHeadersFreed(old(mem), mem, old(list), LiveSet(), b, H);
      cells := cells';
      if allocCount > 0 { allocCount := allocCount - 1; }
    }

    /** No live block is outside. */
    lemma LiveInside()
      requires Valid()
      ensures forall b :: b in LiveSet() ==> b.addr >= start && b.addr < end
    {
      forall b | b in LiveSet() ensures b.addr >= start && b.addr < end { HeapBound(b); }
    }

    /** The order the code evidently means: split the block while it is still on the list, so that the
        remainder takes its place. */
    method KmallocAsMeant(size: nat) returns (p: nat)
      requires Valid() && AlignUp(bump) + H + AlignUp(size) < WORD
      modifies this
      ensures Valid() && start == old(start) && end == old(end)
      ensures size == 0 ==> p == 0
      ensures p == 0 ==> Blocks() == old(Blocks()) && LiveSet() == old(LiveSet()) && bump == old(bump)
      ensures var n, bs := AlignUp(size), old(Blocks());
              var k := FirstFit(bs, n);
              size > 0 && k < |bs| ==>
                && p == bs[k].addr + H && Blocks() == TakeInPlace(bs, k, n, H) && bump == old(bump)
                && LiveSet() == old(LiveSet()) + {Served(bs[k], n, H)}
                && Served(bs[k], n, H) !in old(LiveSet())
      ensures var n, at := AlignUp(size), AlignUp(old(bump));
              size > 0 && FirstFit(old(Blocks()), n) == |old(Blocks())| ==>
                if at + H + n > end then p == 0
                else && p == at + H && Blocks() == old(Blocks()) && bump == at + H + n
                     && LiveSet() == old(LiveSet()) + {Block(at, n)} && Block(at, n) !in old(LiveSet())
      ensures LostBytes() == old(LostBytes())
    {
      hide Total;
      hide Tiles, FreeBlocks, LiveBlocks, Linked, Ordered, BlocksOf, FirstFit, TakeInPlace, Served, LiveHeaders;
      hide AlignUp;
      if size == 0 { return 0; }
      var n := AlignUp(size);
      var prev, found := FindFreeBlock(n);
      FoundAt(n);
      if found != 0 {
        ghost var k := FirstFit(Blocks(), n);
        TakeLinked(found, n, k);
        return found + H;
      }
      p := TakeBump(n);
    }

    method TakeLinked(found: nat, n: nat, ghost k: nat)
      requires Valid() && k < |list| && found == list[k] && Blocks()[k].size >= n
      modifies this`mem, this`freeList, this`list, this`cells, this`allocCount
      ensures Valid() && Blocks() == TakeInPlace(old(Blocks()), k, n, H)
      ensures LiveSet() == old(LiveSet()) + {Served(old(Blocks())[k], n, H)}
      ensures Served(old(Blocks())[k], n, H) !in old(LiveSet())
      ensures LostBytes() == old(LostBytes())
    {
      hide Total;
      hide Linked, BlocksOf, Distinct, Ordered, Tiles, FreeBlocks, LiveBlocks, LiveHeaders, Untouched, TakeInPlace;
      ghost var mem0, list0, bs := mem, list, Blocks();
      OrderedDistinct(mem, list, H);
      LinkedAt(mem, freeList, list, k);
      RemainderOffList(mem, list, k, n, H);
      TakeInPlaceBytes(bs, k, n, H);
      SplitBlock(found, n, k);
      ghost var cells' := ServeState(cells, mem0, mem, list0, k, n, Free, start, bump, H);
      cells := cells';
      allocCount := allocCount + 1;
    }

    /** As meant, a request served from the free list and then freed leaves the list as it was. */
    method MallocThenFreeAsMeant(size: nat)
      requires Valid() && size > 0 && AlignUp(bump) + H + AlignUp(size) < WORD
      requires FirstFit(Blocks(), AlignUp(size)) < |Blocks()|
      modifies this
      ensures Valid() && Blocks() == old(Blocks()) && LiveSet() == old(LiveSet())
    {
      hide Tiles, FreeBlocks, LiveBlocks, Linked, BlocksOf, FirstFit, TakeInPlace, Served, LiveHeaders, AlignUp, Insert;
      ghost var bs, n := Blocks(), AlignUp(size);
      ghost var k := FirstFit(bs, n);
      FreeUndoesTakeInPlace(bs, k, n, H);
      ServedAddr(bs[k], n, H);
      var p := KmallocAsMeant(size);
      Kfree(p);
    }

    /** As written, the same holds exactly when the block found is too small to split. */
    method MallocThenFree(size: nat)
      requires Valid() && size > 0 && AlignUp(bump) + H + AlignUp(size) < WORD
      requires FirstFit(Blocks(), AlignUp(size)) < |Blocks()|
      modifies this
      ensures Valid() && LiveSet() == old(LiveSet())
      ensures Blocks() == old(Blocks()) <==>
              var n := AlignUp(size); old(Blocks()[FirstFit(Blocks(), n)].size) < n + H + 8
    {
      hide Tiles, FreeBlocks, LiveBlocks, Linked, BlocksOf, FirstFit, Without, Served, LiveHeaders, AlignUp, Insert;
      hide Splits;
      ghost var bs, n := Blocks(), AlignUp(size);
      ghost var k := FirstFit(bs, n);
      FreeUndoesTakeIff(bs, k, n, H);
      SplitsExactly(bs[k], n, H);
      SplitOffExactly(bs, k, n, H);
      var p := Kmalloc(size);
      Kfree(p);
    }

    // ----- accounting

    function TotalSize(): int
      reads this
    {
      end - start
    }

    /** The clamp never fires: what is reported as used and what the list holds make up the bumped region,
        and used bytes are those of live blocks, of lost remainders and of alignment gaps. */
    method UsedSize() returns (used: nat)
      requires Valid()
      ensures used + ListBytes(Blocks(), H) == bump - start
      ensures used == Total(cells, Live) + LostBytes() + GapBytes()
    {
      hide Linked, BlocksOf, Ordered, Tiles, FreeBlocks, LiveBlocks, Total;
      TotalsAddUp(cells, start, bump, H);
      ListBytesFree(cells, start, bump, H);
      ghost var bs := Blocks();
      var freeSum := 0;
      var cur := freeList;
      ListStart(mem, freeList, list);
      ghost var k := 0;
      while cur != 0
        invariant 0 <= k <= |list| && cur == AddrAt(list, k)
        invariant freeSum + ListBytes(bs[k..], H) == ListBytes(bs, H)
        decreases |list| - k
      {
        LinkedAt(mem, freeList, list, k);
        assert bs[k..][1..] == bs[k + 1..];
        freeSum := freeSum + mem[cur].size + H;
        cur := mem[cur].next;
        k := k + 1;
      }
      if k < |list| { LinkedAt(mem, freeList, list, k); }
      assert bs[k..] == [];
      var bumpUsed := bump - start;
      used := if bumpUsed > freeSum then bumpUsed - freeSum else 0;
    }

    /** Free bytes: those on the list and those never handed out. In a region smaller than its own alignment
        slack nothing was handed out and the unsigned difference wraps. */
    method FreeSize() returns (free: nat)
      requires Valid()
      ensures free == (ListBytes(Blocks(), H) + end - bump) % WORD
      ensures bump <= end < WORD ==> free == ListBytes(Blocks(), H) + (end - bump)
    {
      hide Linked, BlocksOf, Ordered, Tiles, FreeBlocks, LiveBlocks, LiveHeaders, ListBytes, Total;
      var used := UsedSize();
      ghost var listed := ListBytes(Blocks(), H);
      if bump <= end < WORD { SmallMod(TotalSize() - used); }
      assert TotalSize() - used == listed + end - bump;
      free := (TotalSize() - used) % WORD;
    }

    // ----- runs

    /** The heap and its clients as values. */
    ghost function View(held: seq<nat>): Pool
      reads this
    {
      Pool(Blocks(), LiveSet(), bump, LostBytes(), GapBytes(), held)
    }

    /** Any sequence of client requests on a fresh heap. Requests to free name a pointer by its position among
        those held. Free list, live blocks, lost and skipped bytes go as on the plain allocator, and each answer
        is the one it gives; with `H % 8 == 4`, as under -m32, no two blocks ever touch. */
    method Run(base: nat, size: nat, requests: seq<Request>) returns (held: seq<nat>, answers: seq<nat>)
      requires H > 0 && base > 0 && base + size + ALIGN < WORD
      requires forall k, n :: 0 <= k < |requests| && requests[k] == Acquire(n) ==>
                 base + size + 4 * ALIGN + H + n < WORD
      modifies this
      ensures Valid() && Holds(held, LiveSet(), H) && allocCount == |held|
      ensures start == AlignUp(base) && end == base + size
      ensures View(held) == PoolAfter(EmptyPool(start), requests, end, H)
      ensures |answers| == |requests|
      ensures forall k :: 0 <= k < |requests| ==>
                answers[k] == Answer(PoolAfter(EmptyPool(start), requests[..k], end, H), requests[k], end, H)
      ensures H % ALIGN == 4 ==> Padded(Blocks(), LiveSet())
    {
      hide Valid, Blocks, LiveSet, LostBytes, GapBytes, Answer, PoolStep, PoolAfter, Holds, Padded, AlignUp;
      Init(base, size);
      held, answers := [], [];
      NobodyHolds(H);
      NoneYet(EmptyPool(start), requests, end, H);
      var i := 0;
      while i < |requests|
        invariant 0 <= i <= |requests| && |answers| == i
        invariant Valid() && Holds(held, LiveSet(), H) && allocCount == |held|
        invariant end == base + size && start == AlignUp(base)
        invariant View(held) == PoolAfter(EmptyPool(start), requests[..i], end, H)
        invariant forall k :: 0 <= k < i ==>
                    answers[k] == Answer(PoolAfter(EmptyPool(start), requests[..k], end, H), requests[k], end, H)
        invariant H % ALIGN == 4 ==> Padded(Blocks(), LiveSet())
      {
        var p;
        if requests[i].Acquire? { BumpFits(base, size, requests[i].size); }
        OneMore(EmptyPool(start), requests, i, end, H);
        held, p := Serve(requests[i], held);
        answers := answers + [p];
        i := i + 1;
      }
      assert requests[..i] == requests;
    }

    /** No address a request computes wraps around. */
    lemma BumpFits(base: nat, size: nat, n: nat)
      requires Valid() && end == base + size && start == AlignUp(base) && base + size + 4 * ALIGN + H + n < WORD
      ensures AlignUp(bump) + H + AlignUp(n) < WORD
    {
      assert cells == [] ==> bump == start;
    }

    lemma LiveAddrs()
      requires Valid()
      ensures forall b, c :: b in LiveSet() && c in LiveSet() && b.addr == c.addr ==> b == c
    {
      LayoutSafe(cells, start, bump, H);
    }

    method Serve(r: Request, held: seq<nat>) returns (held': seq<nat>, p: nat)
      requires Valid() && Holds(held, LiveSet(), H) && allocCount == |held|
      requires r.Acquire? ==> AlignUp(bump) + H + AlignUp(r.size) < WORD
      modifies this
      ensures Valid() && Holds(held', LiveSet(), H) && allocCount == |held'|
      ensures start == old(start) && end == old(end)
      ensures p == Answer(old(View(held)), r, end, H) && View(held') == PoolStep(old(View(held)), r, end, H)
      ensures H % ALIGN == 4 && Padded(old(Blocks()), old(LiveSet())) ==> Padded(Blocks(), LiveSet())
    {
      hide Valid, Holds, PoolStep, Answer, Padded, Blocks, LiveSet, LostBytes, GapBytes;
      match r {
        case Acquire(n) => held', p := AcquireOne(n, held);
        case Drop(h) => held', p := DropOne(h, held);
      }
    }

    method AcquireOne(n: nat, held: seq<nat>) returns (held': seq<nat>, p: nat)
      requires Valid() && Holds(held, LiveSet(), H) && allocCount == |held|
      requires AlignUp(bump) + H + AlignUp(n) < WORD
      modifies this
      ensures Valid() && Holds(held', LiveSet(), H) && allocCount == |held'|
      ensures start == old(start) && end == old(end)
      ensures p == Answer(old(View(held)), Acquire(n), end, H)
      ensures View(held') == PoolStep(old(View(held)), Acquire(n), end, H)
      ensures Padded(old(Blocks()), old(LiveSet())) ==> Padded(Blocks(), LiveSet())
    {
      hide Tiles, FreeBlocks, LiveBlocks, Linked, Ordered, BlocksOf, FirstFit, Without, LiveHeaders, AlignUp, Holds;
      hide Padded, Total;
      hide BlockFor;
      ghost var s := View(held);
      p := KmallocAnswer(n, held);
      if p == 0 { return held, 0; }
      held' := held + [p];
      LiveAddrs();
      HoldMore(held, old(LiveSet()), BlockFor(s, AlignUp(n), H), H);
      if Padded(s.blocks, s.live) { PaddedServed(s, AlignUp(n), H); }
    }

    /** `kmalloc` against the plain allocator. */
    method KmallocAnswer(n: nat, ghost held: seq<nat>) returns (p: nat)
      requires Valid() && AlignUp(bump) + H + AlignUp(n) < WORD
      modifies this
      ensures Valid() && start == old(start) && end == old(end)
      ensures p == Answer(old(View(held)), Acquire(n), end, H)
      ensures View(if p == 0 then held else held + [p]) == PoolStep(old(View(held)), Acquire(n), end, H)
      ensures p != 0 ==>
                var b := BlockFor(old(View(held)), AlignUp(n), H);
                b !in old(LiveSet()) && LiveSet() == old(LiveSet()) + {b} && p == b.addr + H
    {
      hide Tiles, FreeBlocks, LiveBlocks, Linked, Ordered, BlocksOf, FirstFit, Without, Served, LiveHeaders;
      hide AlignUp, Total, SplitOffBytes;
      ghost var bs, k := Blocks(), FirstFit(Blocks(), AlignUp(n));
      SplitOffExactly(bs, k, AlignUp(n), H);
      if k < |bs| { SplitsExactly(bs[k], AlignUp(n), H); }
      p := Kmalloc(n);
    }

    method DropOne(h: nat, held: seq<nat>) returns (held': seq<nat>, p: nat)
      requires Valid() && Holds(held, LiveSet(), H) && allocCount == |held|
      modifies this`mem, this`freeList, this`list, this`cells, this`allocCount
      ensures Valid() && Holds(held', LiveSet(), H) && allocCount == |held'|
      ensures p == Answer(old(View(held)), Drop(h), end, H)
      ensures View(held') == PoolStep(old(View(held)), Drop(h), end, H)
      ensures H % ALIGN == 4 && Padded(old(Blocks()), old(LiveSet())) ==> Padded(Blocks(), LiveSet())
    {
      hide Tiles, FreeBlocks, LiveBlocks, Linked, Ordered, BlocksOf, LiveHeaders, Insert, Holds, Padded, Total;
      p := 0;
      if h >= |held| { return held, 0; }
      ghost var b := HeldBlock(held, LiveSet(), h, H);
      LiveAddrs();
      BlockAtIs(LiveSet(), b);
      if H % ALIGN == 4 && Padded(Blocks(), LiveSet()) { PaddedInsert(Blocks(), LiveSet(), b, H); }
      HoldLess(held, LiveSet(), h, b, H);
      hide BlockAt;
      Kfree(held[h]);
      held' := held[..h] + held[h + 1..];
    }

    /** Safety of every reachable state: the list is linked and address-ordered, live and free blocks lie
        inside the bumped region and share no byte, and the count is that of the live blocks. */
    lemma Layout()
      requires Valid()
      ensures Linked(mem, freeList, list) && Ordered(Blocks(), H) && allocCount == |LiveSet()|
      ensures forall b, c :: b in LiveSet() && c in LiveSet() && b != c ==> Apart(b, c, H)
      ensures forall b :: b in LiveSet() ==> ApartFrom(b, Blocks(), H)
      ensures forall b :: b in LiveSet() || b in Blocks() ==> start <= b.addr && End(b, H) <= bump <= end
    {
      LayoutSafe(cells, start, bump, H);
      forall b | b in Blocks() ensures cells != [] { assert FreeBlocks(cells, H) != []; }
    }

    lemma HeapBound(b: Block)
      requires Valid() && b in LiveSet()
      ensures start <= b.addr && End(b, H) <= bump <= end
    {
      LayoutSafe(cells, start, bump, H);
      assert cells != [];
    }
  }

  /** Three calls that lose bytes: 64 bytes are handed out and freed, and the request for 8 that follows
      leaves 56 of them on no list. */
  method SplitLosesRemainder() returns (h: KernelHeap)
    ensures fresh(h) && h.Valid() && h.H == 12
    ensures h.Blocks() == [] && h.LiveSet() == {Block(4096, 8)} && h.bump == 4096 + 12 + 64 && h.LostBytes() == 56
  {
    hide KernelHeap.Valid, KernelHeap.Blocks, KernelHeap.LiveSet, KernelHeap.LostBytes, KernelHeap.GapBytes;
    hide FirstFit, Insert, Without, Served, SplitOffBytes, AlignUp, HasAddr;
    h := new KernelHeap(12);
    FitNone(64);
    h.Init(4096, 4096);
    var b := Block(4096, 64);
    var p := h.Kmalloc(64);
    assert h.LiveSet() == {b} && h.Blocks() == [] && h.bump == 4172 && h.LostBytes() == 0 && p == 4108;
    HasOne(b);
    FitFirst(b, 12);
    h.Kfree(p);
    assert h.Blocks() == [b] && h.LiveSet() == {};
    p := h.Kmalloc(8);
  }

  lemma HasOne(b: Block)
    ensures HasAddr({b}, b.addr)
  {
    assert b in {b};
  }

  lemma FitNone(n: nat)
    ensures FirstFit([], n) == 0 && AlignUp(4096) == 4096 && AlignUp(64) == 64
    ensures SplitOffBytes([], 0, n, 12) == 0
  {}

  lemma FitFirst(b: Block, H: nat)
    requires b == Block(4096, 64) && H == 12
    ensures Insert([], b, H) == [b] && FirstFit([b], 8) == 0 && Without([b], 0) == []
    ensures AlignUp(8) == 8 && AlignUp(4096 + 12 + 64) == 4176
    ensures Served(b, 8, H) == Block(4096, 8) && SplitOffBytes([b], 0, 8, H) == 56
  {}

  lemma SmallMod(x: nat)
    requires x < WORD
    ensures x % WORD == x
  {}

  lemma BumpCells(cells: seq<Cell>, lo: nat, hi: nat, next: nat, n: nat, H: nat) returns (cells': seq<Cell>)
    requires H > 0 && Tiles(cells, lo, hi, H) && hi <= next
    ensures Tiles(cells', lo, next + H + n, H)
    ensures FreeBlocks(cells', H) == FreeBlocks(cells, H)
    ensures LiveBlocks(cells', H) == LiveBlocks(cells, H) + {Block(next, n)}
    ensures Block(next, n) !in LiveBlocks(cells, H)
    ensures Total(cells', Lost) == Total(cells, Lost) && Total(cells', Gap) == Total(cells, Gap) + (next - hi)
  {
    hide Total, Tiles, FreeBlocks, LiveBlocks;
    LayoutSafe(cells, lo, hi, H);
    BumpTotals(cells, hi, next, H + n);
    var padded := cells;
    if next > hi {
      padded := cells + [Cell(Gap, hi, next - hi)];
      Append(cells, Cell(Gap, hi, next - hi), lo, hi, H);
    }
    cells' := padded + [Cell(Live, next, H + n)];
    Append(padded, Cell(Live, next, H + n), lo, next, H);
  }

  /** The state after a bump: the block is live, and the list and the other headers are as before. */
  lemma BumpState(cells: seq<Cell>, mem: Memory, mem': Memory, first: nat, list: seq<nat>,
                  lo: nat, hi: nat, next: nat, n: nat, H: nat)
    returns (cells': seq<Cell>)
    requires H > 0 && Tiles(cells, lo, hi, H) && hi <= next && Linked(mem, first, list)
    requires BlocksOf(mem, list) == FreeBlocks(cells, H) && LiveHeaders(mem, LiveBlocks(cells, H))
    requires mem' == mem[next := Header(n, 0, false)]
    ensures Tiles(cells', lo, next + H + n, H) && Linked(mem', first, list)
    ensures BlocksOf(mem', list) == BlocksOf(mem, list)
    ensures FreeBlocks(cells', H) == FreeBlocks(cells, H)
    ensures LiveBlocks(cells', H) == LiveBlocks(cells, H) + {Block(next, n)} && Block(next, n) !in LiveBlocks(cells, H)
    ensures LiveHeaders(mem', LiveBlocks(cells', H))
    ensures Total(cells', Lost) == Total(cells, Lost) && Total(cells', Gap) == Total(cells, Gap) + (next - hi)
  {
    hide Linked, BlocksOf, Tiles, FreeBlocks, LiveBlocks, Total, LiveHeaders;
    cells' := BumpCells(cells, lo, hi, next, n, H);
    BeyondList(mem, mem', first, list, cells, lo, hi, next, H);
    LayoutSafe(cells, lo, hi, H);
    LiveHeadersBump(mem, mem', LiveBlocks(cells, H), next, n, H);
  }

  lemma BumpTotals(cells: seq<Cell>, hi: nat, next: nat, len: nat)
    requires hi <= next
    ensures var padded := if next > hi then cells + [Cell(Gap, hi, next - hi)] else cells;
            var cells' := padded + [Cell(Live, next, len)];
            Total(cells', Lost) == Total(cells, Lost) && Total(cells', Gap) == Total(cells, Gap) + (next - hi)
  {
    var gap, live := Cell(Gap, hi, next - hi), Cell(Live, next, len);
    TotalConcat(cells, [gap], Lost);
    TotalConcat(cells, [gap], Gap);
    var padded := if next > hi then cells + [gap] else cells;
    TotalConcat(padded, [live], Lost);
    TotalConcat(padded, [live], Gap);
    assert [gap][1..] == [] && [live][1..] == [];
  }

  /** Bytes behind the n served from block k, when that block is split. */
  ghost function SplitOffBytes(bs: seq<Block>, k: nat, n: nat, H: nat): nat {
    if k < |bs| && Splits(bs[k].size, n, H) then bs[k].size - n else 0
  }

  lemma TakenExactly(bs: seq<Block>, k: nat, n: nat, H: nat)
    requires k < |bs|
    ensures var size := bs[k].size;
            TakeInPlace(bs, k, n, H) == if size >= n + H + 8 then bs[k := Block(bs[k].addr + H + n, size - n - H)]
                                        else bs[..k] + bs[k + 1..]
    ensures !Splits(bs[k].size, n, H) ==> TakeInPlace(bs, k, n, H) == Without(bs, k)
  {}

  lemma SplitOffExactly(bs: seq<Block>, k: nat, n: nat, H: nat)
    ensures k >= |bs| ==> SplitOffBytes(bs, k, n, H) == 0
    ensures k < |bs| ==> SplitOffBytes(bs, k, n, H) == if bs[k].size >= n + H + 8 then bs[k].size - n else 0
    ensures k < |bs| ==> Without(bs, k) == bs[..k] + bs[k + 1..]
  {}

  lemma BeyondList(mem: Memory, mem': Memory, first: nat, list: seq<nat>, cells: seq<Cell>,
                   lo: nat, hi: nat, next: nat, H: nat)
    requires H > 0 && Linked(mem, first, list) && BlocksOf(mem, list) == FreeBlocks(cells, H)
    requires Tiles(cells, lo, hi, H) && hi <= next && next in mem' && mem' == mem[next := mem'[next]]
    ensures Linked(mem', first, list) && BlocksOf(mem', list) == BlocksOf(mem, list)
  {
    FreeWithin(cells, lo, hi, H);
    forall i | 0 <= i < |list| ensures list[i] < next {
      assert BlocksOf(mem, list)[i].addr == list[i];
    }
  }

  lemma LiveHeadersBump(mem: Memory, mem': Memory, live: set<Block>, next: nat, n: nat, H: nat)
    requires H > 0 && LiveHeaders(mem, live) && forall b :: b in live ==> End(b, H) <= next
    requires mem' == mem[next := Header(n, 0, false)]
    ensures LiveHeaders(mem', live + {Block(next, n)})
  {}

  lemma LiveUnique(live: set<Block>, b: Block, H: nat)
    requires H > 0 && b in live
    requires forall c, d :: c in live && d in live && c != d ==> Apart(c, d, H)
    ensures forall c :: c in live && c.addr == b.addr ==> c == b
  {}

  /** The tiling after giving back live block b. */
  lemma ReleaseCells(cells: seq<Cell>, bs: seq<Block>, b: Block, lo: nat, hi: nat, H: nat) returns (cells': seq<Cell>)
    requires H > 0 && Tiles(cells, lo, hi, H) && bs == FreeBlocks(cells, H) && Ordered(bs, H)
    requires b in LiveBlocks(cells, H)
    ensures Tiles(cells', lo, hi, H) && cells != []
    ensures FreeBlocks(cells', H) == Insert(bs, b, H)
    ensures LiveBlocks(cells', H) == LiveBlocks(cells, H) - {b}
    ensures ApartFrom(b, bs, H)
    ensures Total(cells', Lost) == Total(cells, Lost) && Total(cells', Gap) == Total(cells, Gap)
  {
    hide Total, Tiles, FreeBlocks, LiveBlocks, Release, Insert, Ordered, ApartFrom;
    var i := LiveCellOf(cells, b, H);
    var x, c, y := cells[..i], cells[i], cells[i + 1..];
    assert cells == x + [c] + y;
    ReleaseTotals(x, c, y);
    TilesSplit(x, c, y, lo, hi, H);
    FreeAround(x, c, y, H);
    assert FreeBlocks(x, H) + [] == FreeBlocks(x, H);
    cells' := Release(x, c, y);
    ReleaseTiles(x, c, y, lo, hi, H);
    ReleaseIsInsert(x, c, y, lo, hi, H);
    ReleaseForgets(x, c, y, lo, hi, H);
    ApartInTiling(x, c, y, lo, hi, H);
  }

  /** Marking a live header free does not show on the list. */
  lemma OffListLive(mem: Memory, mem': Memory, first: nat, list: seq<nat>, live: set<Block>, b: Block, H: nat)
    requires H > 0 && Linked(mem, first, list) && LiveHeaders(mem, live) && b in live
    requires ApartFrom(b, BlocksOf(mem, list), H)
    requires mem' == mem[b.addr := mem[b.addr].(free := true)]
    ensures Linked(mem', first, list) && BlocksOf(mem', list) == BlocksOf(mem, list)
    ensures b.addr in mem' && Block(b.addr, mem'[b.addr].size) == b
  {
    OffList(mem, list, b.addr, H);
    LinkedFramedBut(mem, mem', first, list, b.addr);
  }

  lemma LiveHeadersFreed(mem: Memory, mem': Memory, list: seq<nat>, live: set<Block>, b: Block, H: nat)
    requires H > 0 && LiveHeaders(mem, live)
    requires forall c :: c in live ==> ApartFrom(c, BlocksOf(mem, list), H)
    requires forall c :: c in live && c.addr == b.addr ==> c == b
    requires forall a :: a in mem && a !in list && a != b.addr ==> a in mem' && mem'[a] == mem[a]
    ensures LiveHeaders(mem', live - {b})
  {
    forall c | c in live - {b} ensures c.addr in mem' && mem'[c.addr].size == c.size {
      OffList(mem, list, c.addr, H);
    }
  }

  /** The remainder's header would lie inside the block, hence on no list position. */
  lemma RemainderOffList(mem: Memory, list: seq<nat>, k: nat, n: nat, H: nat)
    requires H > 0 && Ordered(BlocksOf(mem, list), H) && k < |list| && list[k] in mem
    ensures Splits(mem[list[k]].size, n, H) ==> list[k] + H + n !in list
  {
    var bs := BlocksOf(mem, list);
    forall i | 0 <= i < |list| && Splits(mem[list[k]].size, n, H) ensures list[i] != list[k] + H + n {
      if i < k { OrderedPairwise(bs, H, i, k); }
      if i > k { OrderedPairwise(bs, H, k, i); }
    }
  }

  lemma UnlinkedApart(list: seq<nat>, k: nat)
    requires k < |list|
    ensures forall a :: a in list[..k] + list[k + 1..] ==> a in list
  {}

  /** The tiling after serving n bytes from the k-th free block. */
  lemma ServeCells(cells: seq<Cell>, bs: seq<Block>, k: nat, n: nat, rest: Kind, lo: nat, hi: nat, H: nat)
    returns (cells': seq<Cell>)
    requires H > 0 && Tiles(cells, lo, hi, H) && bs == FreeBlocks(cells, H) && k < |bs| && bs[k].size >= n
    requires rest.Lost? || rest.Free?
    ensures Tiles(cells', lo, hi, H)
    ensures FreeBlocks(cells', H) == if rest.Free? then TakeInPlace(bs, k, n, H) else Without(bs, k)
    ensures LiveBlocks(cells', H) == LiveBlocks(cells, H) + {Served(bs[k], n, H)}
    ensures Served(bs[k], n, H) !in LiveBlocks(cells, H)
    ensures cells != []
    ensures Total(cells', Lost) == Total(cells, Lost) + (if rest.Lost? then SplitOffBytes(bs, k, n, H) else 0)
    ensures Total(cells', Gap) == Total(cells, Gap)
  {
    hide Tiles, FreeBlocks, LiveBlocks, Carve, Splits, Served, TakeInPlace, Without, Total;
    var i := FreeCellAt(cells, k, H);
    CarvedTiles(cells, i, n, rest, lo, hi, H);
    CarvedTotals(cells, bs, i, k, n, rest, H);
    CarvedBlocks(cells, bs, i, k, n, rest, H);
    ServedNotLive(cells, bs, k, n, lo, hi, H);
    cells' := Carve(cells[..i], cells[i], cells[i + 1..], n, rest, H);
  }

  lemma CarvedTotals(cells: seq<Cell>, bs: seq<Block>, i: nat, k: nat, n: nat, rest: Kind, H: nat)
    requires i < |cells| && k < |bs| && cells[i].kind.Free? && cells[i].len >= H && (rest.Lost? || rest.Free?)
    requires bs[k] == AsBlock(cells[i], H)
    ensures var cells' := Carve(cells[..i], cells[i], cells[i + 1..], n, rest, H);
            && Total(cells', Lost) == Total(cells, Lost) + (if rest.Lost? then SplitOffBytes(bs, k, n, H) else 0)
            && Total(cells', Gap) == Total(cells, Gap)
  {
    hide Total, Carve;
    assert cells == cells[..i] + [cells[i]] + cells[i + 1..];
    CarveTotals(cells[..i], cells[i], cells[i + 1..], n, rest, H);
  }

  /** Tiling and live headers after the free-list path. */
  lemma ServeState(cells: seq<Cell>, mem: Memory, mem': Memory, list: seq<nat>, k: nat, n: nat, rest: Kind,
                   lo: nat, hi: nat, H: nat)
    returns (cells': seq<Cell>)
    requires H > 0 && Tiles(cells, lo, hi, H) && BlocksOf(mem, list) == FreeBlocks(cells, H)
    requires k < |list| && BlocksOf(mem, list)[k].size >= n && (rest.Lost? || rest.Free?)
    requires LiveHeaders(mem, LiveBlocks(cells, H))
    requires Untouched(mem, mem', list, list[k],
                       if Splits(SizeAt(mem, list[k]), n, H) then list[k] + H + n else list[k])
    requires list[k] in mem' && mem'[list[k]].size == Served(BlocksOf(mem, list)[k], n, H).size
    ensures var bs := BlocksOf(mem, list);
            && Tiles(cells', lo, hi, H) && cells != []
            && FreeBlocks(cells', H) == (if rest.Free? then TakeInPlace(bs, k, n, H) else Without(bs, k))
            && LiveBlocks(cells', H) == LiveBlocks(cells, H) + {Served(bs[k], n, H)}
            && Served(bs[k], n, H) !in LiveBlocks(cells, H)
            && LiveHeaders(mem', LiveBlocks(cells', H))
            && Total(cells', Lost) == Total(cells, Lost) + (if rest.Lost? then SplitOffBytes(bs, k, n, H) else 0)
            && Total(cells', Gap) == Total(cells, Gap)
  {
    hide Tiles, FreeBlocks, LiveBlocks, LiveHeaders, BlocksOf, Untouched, Served, Splits, TakeInPlace, Without;
    hide Total, SplitOffBytes;
    cells' := ServeCells(cells, BlocksOf(mem, list), k, n, rest, lo, hi, H);
    LayoutSafe(cells, lo, hi, H);
    LiveHeadersServed(mem, mem', list, LiveBlocks(cells, H), k, n, H);
  }

  lemma CarvedTiles(cells: seq<Cell>, i: nat, n: nat, rest: Kind, lo: nat, hi: nat, H: nat)
    requires H > 0 && Tiles(cells, lo, hi, H) && i < |cells| && cells[i].kind.Free?
    ensures Tiles(Carve(cells[..i], cells[i], cells[i + 1..], n, rest, H), lo, hi, H) && cells[i].len >= H
  {
    assert Sized(cells[i], H);
    hide Tiles, Carve;
    assert cells == cells[..i] + [cells[i]] + cells[i + 1..];
    CarveTiles(cells[..i], cells[i], cells[i + 1..], n, rest, lo, hi, H);
  }

  lemma CarvedBlocks(cells: seq<Cell>, bs: seq<Block>, i: nat, k: nat, n: nat, rest: Kind, H: nat)
    requires i < |cells| && k < |bs| && cells[i].kind.Free? && cells[i].len >= H && (rest.Lost? || rest.Free?)
    requires bs[k] == AsBlock(cells[i], H) && bs[k].size >= n
    requires FreeBlocks(cells[..i], H) == bs[..k] && FreeBlocks(cells[i + 1..], H) == bs[k + 1..]
    ensures var cells' := Carve(cells[..i], cells[i], cells[i + 1..], n, rest, H);
            && FreeBlocks(cells', H) == (if rest.Free? then TakeInPlace(bs, k, n, H) else Without(bs, k))
            && LiveBlocks(cells', H) == LiveBlocks(cells, H) + {Served(bs[k], n, H)}
  {
    hide FreeBlocks, LiveBlocks, Carve, Splits, Served;
    assert cells == cells[..i] + [cells[i]] + cells[i + 1..];
    CarveLive(cells[..i], cells[i], cells[i + 1..], n, rest, H);
    CarveFree(cells[..i], cells[i], cells[i + 1..], n, rest, H);
    if rest.Free? && Splits(bs[k].size, n, H) {
      assert bs[k := Remainder(bs[k], n, H)] == bs[..k] + [Remainder(bs[k], n, H)] + bs[k + 1..];
    }
  }

  lemma ServedNotLive(cells: seq<Cell>, bs: seq<Block>, k: nat, n: nat, lo: nat, hi: nat, H: nat)
    requires H > 0 && Tiles(cells, lo, hi, H) && bs == FreeBlocks(cells, H) && k < |bs| && bs[k].size >= n
    ensures Served(bs[k], n, H) !in LiveBlocks(cells, H)
  {
    hide Tiles, FreeBlocks, LiveBlocks;
    LayoutSafe(cells, lo, hi, H);
    var s := Served(bs[k], n, H);
    assert !Apart(s, bs[k], H);
  }

  /** Headers of live blocks are none of those the free-list path writes. */
  lemma LiveHeadersServed(mem: Memory, mem': Memory, list: seq<nat>, live: set<Block>, k: nat, n: nat, H: nat)
    requires H > 0 && LiveHeaders(mem, live) && k < |list|
    requires var bs := BlocksOf(mem, list);
             bs[k].size >= n && forall b :: b in live ==> ApartFrom(b, bs, H)
    requires Untouched(mem, mem', list, list[k],
                       if Splits(SizeAt(mem, list[k]), n, H) then list[k] + H + n else list[k])
    requires list[k] in mem' && mem'[list[k]].size == Served(BlocksOf(mem, list)[k], n, H).size
    ensures LiveHeaders(mem', live + {Served(BlocksOf(mem, list)[k], n, H)})
  {
    var bs := BlocksOf(mem, list);
    forall b | b in live ensures b.addr in mem' && mem'[b.addr] == mem[b.addr] {
      assert forall i :: 0 <= i < |list| ==> Apart(b, bs[i], H);
    }
  }

  /** Headers that are neither on the list nor one of two named ones are as they were. */
  ghost predicate Untouched(mem: Memory, mem': Memory, list: seq<nat>, b: nat, r: nat) {
    forall a :: a in mem ==> a in mem' && (a !in list && a != b && a != r ==> mem'[a] == mem[a])
  }

  ghost predicate ChainTo(mem: Memory, first: nat, list: seq<nat>, n: nat) {
    && n <= |list| && first == AddrAt(list, 0)
    && (forall i :: 0 <= i < |list| ==> list[i] != 0)
    && (forall i :: 0 <= i < n ==> list[i] in mem && mem[list[i]].next == AddrAt(list, i + 1))
  }

  lemma NewHeader(mem: Memory, mem': Memory, first: nat, list: seq<nat>, r: nat, h: Header)
    requires Linked(mem, first, list) && r !in list && mem' == mem[r := h]
    ensures Linked(mem', first, list) && BlocksOf(mem', list) == BlocksOf(mem, list)
  {}

  lemma LinkedFramedBut(mem: Memory, mem': Memory, first: nat, list: seq<nat>, b: nat)
    requires Linked(mem, first, list) && b !in list
    requires forall a :: a in mem && a != b ==> a in mem' && mem'[a] == mem[a]
    ensures Linked(mem', first, list) && BlocksOf(mem', list) == BlocksOf(mem, list)
  {
    LinkedFramed(mem, mem', first, list);
  }

  lemma HeadPosition(mem: Memory, first: nat, list: seq<nat>, b: nat, k: nat)
    requires Linked(mem, first, list) && Distinct(list) && first == b && b != 0 && k <= |list|
    requires if k < |list| then list[k] == b else b !in list
    ensures k == 0 < |list|
  {}

  lemma SplitChain(mem: Memory, mem': Memory, first: nat, list: seq<nat>, b: nat, k: nat)
    requires Linked(mem, first, list) && Distinct(list) && k <= |list| && first != b
    requires if k < |list| then list[k] == b else b !in list
    requires forall a :: a in mem && a != b ==> a in mem' && mem'[a] == mem[a]
    ensures ChainTo(mem', first, list, k) && (first != 0 ==> k > 0) && (k < |list| ==> first != 0)
    ensures 0 < k < |list| ==> list[k - 1] != b
  {}

  /** Block i absorbs block i + 1 if they touch. */
  ghost function MergedAt(bs: seq<Block>, i: nat, H: nat): seq<Block> {
    if i + 1 < |bs| && End(bs[i], H) == bs[i + 1].addr
    then bs[..i] + [Merge(bs[i], bs[i + 1], H)] + bs[i + 2..]
    else bs
  }

  /** Insertion is linking followed by the two merges. */
  lemma InsertIsMerges(bs: seq<Block>, b: Block, k: nat, H: nat)
    requires k == Position(bs, b.addr)
    ensures var linked := bs[..k] + [b] + bs[k..];
            var ahead := MergedAt(linked, k, H);
            Insert(bs, b, H) == if k > 0 then MergedAt(ahead, k - 1, H) else ahead
  {
    hide Position, MergedAt;
    var forward := k < |bs| && End(b, H) == bs[k].addr;
    var joined := if forward then Merge(b, bs[k], H) else b;
    var after := if forward then bs[k + 1..] else bs[k..];
    MergeAhead(bs, b, k, H);
    if k > 0 { MergeBehind(bs, joined, after, k, H); }
  }

  lemma MergeAhead(bs: seq<Block>, b: Block, k: nat, H: nat)
    requires k <= |bs|
    ensures var forward := k < |bs| && End(b, H) == bs[k].addr;
            MergedAt(bs[..k] + [b] + bs[k..], k, H)
            == bs[..k] + [if forward then Merge(b, bs[k], H) else b] + (if forward then bs[k + 1..] else bs[k..])
  {
    hide End, Merge;
    var linked := bs[..k] + [b] + bs[k..];
    assert linked[k] == b && linked[..k] == bs[..k];
    if k < |bs| { assert linked[k + 1] == bs[k] && linked[k + 2..] == bs[k + 1..]; }
  }

  lemma MergeBehind(bs: seq<Block>, joined: Block, after: seq<Block>, k: nat, H: nat)
    requires 0 < k <= |bs|
    ensures MergedAt(bs[..k] + [joined] + after, k - 1, H)
         == if End(bs[k - 1], H) == joined.addr then bs[..k - 1] + [Merge(bs[k - 1], joined, H)] + after
            else bs[..k] + [joined] + after
  {
    hide End, Merge;
    var ahead := bs[..k] + [joined] + after;
    assert ahead[k - 1] == bs[k - 1] && ahead[k] == joined;
    assert ahead[..k - 1] == bs[..k - 1] && ahead[k + 1..] == after;
  }

  lemma ListStart(mem: Memory, first: nat, list: seq<nat>)
    requires Linked(mem, first, list)
    ensures first == AddrAt(list, 0) && (first == 0 <==> list == [])
  {}

  lemma ListEnd(mem: Memory, first: nat, list: seq<nat>, k: nat)
    requires Linked(mem, first, list) && k < |list| && mem[list[k]].next == 0
    ensures k + 1 == |list|
  {}

  lemma OffList(mem: Memory, list: seq<nat>, b: nat, H: nat)
    requires H > 0 && b in mem && ApartFrom(Block(b, mem[b].size), BlocksOf(mem, list), H)
    ensures b !in list
  {
    var bs := BlocksOf(mem, list);
    forall i | 0 <= i < |list| ensures list[i] != b {
      assert Apart(Block(b, mem[b].size), bs[i], H);
      assert bs[i].addr == list[i];
    }
  }

  lemma InsertEmpty(mem: Memory, b: nat, H: nat)
    requires b != 0 && b in mem
    ensures var mem' := mem[b := mem[b].(next := 0)];
            && Linked(mem', b, [b]) && Ordered(BlocksOf(mem', [b]), H)
            && BlocksOf(mem', [b]) == Insert([], Block(b, mem[b].size), H)
  {}

  lemma ServedAddr(b: Block, n: nat, H: nat)
    ensures Served(b, n, H).addr == b.addr
  {}

  datatype Request = Acquire(size: nat) | Drop(h: nat)

  /** An allocator as a value: free list, live blocks, bump pointer, bytes lost and skipped, pointers held. */
  datatype Pool = Pool(blocks: seq<Block>, live: set<Block>, bump: nat, lost: nat, gap: nat, held: seq<nat>)

  function EmptyPool(start: nat): Pool { Pool([], {}, start, 0, 0, []) }

  /** The block at an address. */
  ghost function BlockAt(live: set<Block>, a: nat): Block {
    if HasAddr(live, a) then var b :| b in live && b.addr == a; b else Block(a, 0)
  }

  lemma BlockAtIs(live: set<Block>, b: Block)
    requires b in live && forall c, d :: c in live && d in live && c.addr == d.addr ==> c == d
    ensures BlockAt(live, b.addr) == b
  {
    assert HasAddr(live, b.addr);
  }

  /** The block a request of n aligned bytes is served with, if at all. */
  ghost function BlockFor(s: Pool, n: nat, H: nat): Block {
    var k := FirstFit(s.blocks, n);
    if k < |s.blocks| then Served(s.blocks[k], n, H) else Block(AlignUp(s.bump), n)
  }

  /** What kmalloc answers: the first block that fits, else what the bump pointer has left, else NULL. */
  ghost function Answer(s: Pool, r: Request, end: nat, H: nat): nat {
    match r
    case Acquire(size) =>
      var n, at := AlignUp(size), AlignUp(s.bump);
      var k := FirstFit(s.blocks, n);
      if size == 0 then 0
      else if k < |s.blocks| then s.blocks[k].addr + H
      else if at + H + n > end then 0 else at + H
    case Drop(_) => 0
  }

  /** One request: the block found leaves the list whole, what is split off it is lost, and a block freed joins
      the list coalesced. */
  ghost function PoolStep(s: Pool, r: Request, end: nat, H: nat): Pool {
    match r
    case Acquire(size) =>
      var n, at, p := AlignUp(size), AlignUp(s.bump), Answer(s, r, end, H);
      var k := FirstFit(s.blocks, n);
      var live := s.live + {BlockFor(s, n, H)};
      if p == 0 then s
      else if k < |s.blocks| then
        Pool(Without(s.blocks, k), live, s.bump, s.lost + SplitOffBytes(s.blocks, k, n, H), s.gap, s.held + [p])
      else Pool(s.blocks, live, at + H + n, s.lost, s.gap + (at - s.bump), s.held + [p])
    case Drop(h) =>
      if h >= |s.held| || s.held[h] < H then s
      else
        var b := BlockAt(s.live, s.held[h] - H);
        s.(blocks := Insert(s.blocks, b, H), live := s.live - {b}, held := s.held[..h] + s.held[h + 1..])
  }

  ghost function PoolAfter(s: Pool, requests: seq<Request>, end: nat, H: nat): Pool
    decreases |requests|
  {
    if requests == [] then s
    else PoolStep(PoolAfter(s, requests[..|requests| - 1], end, H), requests[|requests| - 1], end, H)
  }

  lemma NoneYet(s: Pool, requests: seq<Request>, end: nat, H: nat)
    ensures PoolAfter(s, requests[..0], end, H) == s
  {}

  lemma OneMore(s: Pool, requests: seq<Request>, i: nat, end: nat, H: nat)
    requires i < |requests|
    ensures PoolAfter(s, requests[..i + 1], end, H)
         == PoolStep(PoolAfter(s, requests[..i], end, H), requests[i], end, H)
  {
    assert requests[..i + 1][..i] == requests[..i];
  }

  /** Lost bytes never come back, whatever is freed later, and nothing below the bump pointer is bumped twice. */
  lemma {:induction false} LostForGood(s: Pool, requests: seq<Request>, end: nat, H: nat)
    ensures PoolAfter(s, requests, end, H).lost >= s.lost && PoolAfter(s, requests, end, H).gap >= s.gap
    ensures PoolAfter(s, requests, end, H).bump >= s.bump
    decreases |requests|
  {
    if requests != [] { LostForGood(s, requests[..|requests| - 1], end, H); }
    hide FirstFit, Insert, Without, Served, SplitOffBytes, BlockAt;
  }

  lemma NobodyHolds(H: nat)
    ensures Holds([], {}, H) && Padded([], {})
  {}

  /** The pointers clients hold are the payloads of the live blocks, each held once. */
  ghost predicate Holds(held: seq<nat>, live: set<Block>, H: nat) {
    && (forall i :: 0 <= i < |held| ==> held[i] >= H && HasAddr(live, held[i] - H))
    && (forall i, j :: 0 <= i < j < |held| ==> held[i] != held[j])
  }

  lemma HeldBlock(held: seq<nat>, live: set<Block>, h: nat, H: nat) returns (b: Block)
    requires Holds(held, live, H) && h < |held|
    ensures held[h] >= H && b in live && b.addr == held[h] - H
  {
    assert HasAddr(live, held[h] - H);
    b :| b in live && b.addr == held[h] - H;
  }

  lemma HoldMore(held: seq<nat>, live: set<Block>, b: Block, H: nat)
    requires Holds(held, live, H) && b !in live
    requires forall c :: c in live ==> c.addr != b.addr
    ensures Holds(held + [b.addr + H], live + {b}, H)
  {
    forall i | 0 <= i < |held| ensures HasAddr(live + {b}, held[i] - H) && held[i] != b.addr + H {
      assert HasAddr(live, held[i] - H);
      var c :| c in live && c.addr == held[i] - H;
      assert c in live + {b};
    }
    assert b in live + {b};
  }

  lemma HoldLess(held: seq<nat>, live: set<Block>, h: nat, b: Block, H: nat)
    requires Holds(held, live, H) && h < |held| && b in live && b.addr == held[h] - H
    ensures Holds(held[..h] + held[h + 1..], live - {b}, H)
  {
    var held' := held[..h] + held[h + 1..];
    forall i | 0 <= i < |held'| ensures held'[i] >= H && HasAddr(live - {b}, held'[i] - H) {
      var j := if i < h then i else i + 1;
      assert held'[i] == held[j] && HasAddr(live, held[j] - H);
      var c :| c in live && c.addr == held[j] - H;
      assert c in live - {b};
    }
  }

  lemma PaddedServed(s: Pool, n: nat, H: nat)
    requires Padded(s.blocks, s.live) && n % ALIGN == 0
    ensures var k := FirstFit(s.blocks, n);
            Padded(if k < |s.blocks| then Without(s.blocks, k) else s.blocks, s.live + {BlockFor(s, n, H)})
  {}

  /** With a header size that is 4 modulo 8 no block ever touches another, so freeing never merges. */
  lemma PaddedInsert(bs: seq<Block>, live: set<Block>, b: Block, H: nat)
    requires Padded(bs, live) && b in live && H % ALIGN == 4
    ensures Padded(Insert(bs, b, H), live - {b})
    ensures |Insert(bs, b, H)| == |bs| + 1
  {
    var k := Position(bs, b.addr);
    assert k < |bs| ==> AlignedBlock(bs[k]);
    assert k > 0 ==> AlignedBlock(bs[k - 1]);
    assert AlignedBlock(b);
    assert Insert(bs, b, H) == bs[..k] + [b] + bs[k..];
  }

  ghost predicate HasAddr(live: set<Block>, a: nat) { exists b :: b in live && b.addr == a }

  /** Every address and every size is a multiple of ALIGN. */
  ghost predicate Padded(bs: seq<Block>, live: set<Block>) {
    && (forall i :: 0 <= i < |bs| ==> AlignedBlock(bs[i]))
    && (forall b :: b in live ==> AlignedBlock(b))
  }

  predicate AlignedBlock(b: Block) { b.addr % ALIGN == 0 && b.size % ALIGN == 0 }

  ghost predicate LiveHeaders(mem: Memory, live: set<Block>) {
    forall b :: b in live ==> b.addr in mem && mem[b.addr].size == b.size
  }

  lemma FirstFitIs(bs: seq<Block>, n: nat, k: nat)
    requires k <= |bs|
    requires forall i :: 0 <= i < k ==> bs[i].size < n
    requires k < |bs| ==> bs[k].size >= n
    ensures FirstFit(bs, n) == k
  {}
}
