/** The best-fit allocator in place, over the linked chunk list. */
module MemoryDealer {
  import opened Basics
  import opened BestFit
  import opened ChunkList
  import Dealer

  /** The size rounded up to whole pages; the sum wraps like the original's. */
  function RoundedToPages(size: SizeT, pageSize: nat): (r: nat)
    requires pageSize > 0
    ensures r % pageSize == 0
  {
    var pages := (size + pageSize - 1) % SIZE_LIMIT / pageSize;
    MultipleMod(pages, pageSize);
    MulBound(pages, pageSize);
    pages * pageSize
  }

  /** The heap is the least number of whole pages that holds the size, unless the rounding wraps. */
  lemma HeapIsRoundedUp(size: SizeT, pageSize: nat)
    requires pageSize > 0 && size + pageSize - 1 < SIZE_LIMIT
    ensures size <= RoundedToPages(size, pageSize) < size + pageSize
  {
    var n := size + pageSize - 1;
    assert n == n / pageSize * pageSize + n % pageSize;
  }

  class SimpleBestFitAllocator {
    const list: LinkedList
    const heapSize: nat
    const pageSize: nat

    ghost predicate Valid()
      reads this, list, list.nodes
    {
      list.Valid() && pageSize >= MEMORY_ALIGN
    }

    ghost function Blocks(): seq<Block>
      reads list, list.nodes
    {
      list.Blocks()
    }

    /** One free chunk for the whole heap, rounded up to pages; its size is kept in 28 bits. */
    constructor (size: SizeT, pageSize: nat)
      requires pageSize >= MEMORY_ALIGN
      ensures Valid() && fresh(list) && fresh(list.nodes)
      ensures this.pageSize == pageSize
      ensures heapSize == RoundedToPages(size, pageSize)
      ensures Blocks() == [Block(0, heapSize / MEMORY_ALIGN % SIZE_FIELD_LIMIT, true)]
    {
      this.pageSize := pageSize;
      var rounded := RoundedToPages(size, pageSize);
      heapSize := rounded;
      var chunks := OneChunk(rounded / MEMORY_ALIGN % SIZE_FIELD_LIMIT);
      list := chunks;
    }

    static method OneChunk(units: nat) returns (list: LinkedList)
      ensures list.Valid() && fresh(list) && fresh(list.nodes) && list.Blocks() == [Block(0, units, true)]
    {
      list := new LinkedList();
      var node := new Chunk(0, units);
      list.InsertHead(node);
      assert list.Blocks()[0] == Block(node.start, node.size, node.free);
    }

    function ExtraOf(c: Chunk, aligned: bool): nat
      requires pageSize >= MEMORY_ALIGN
      reads c
    {
      if aligned then PageGap(c.start, pageSize / MEMORY_ALIGN) else 0
    }

    method FindFree(units: nat, aligned: bool) returns (freeChunk: Chunk?, ghost at: nat)
      requires Valid()
      ensures var best := Scan(Blocks(), 0, None, units, aligned, pageSize / MEMORY_ALIGN);
              if best.None? then freeChunk == null
              else at == best.value && at < |list.nodes| && freeChunk == list.nodes[at]
    {
      freeChunk, at := null, 0;
      var cur := list.first;
      ghost var i := 0;
      ghost var pageUnits := pageSize / MEMORY_ALIGN;
      ghost var goal := Scan(Blocks(), 0, None, units, aligned, pageUnits);
      while cur != null
        invariant 0 <= i <= |list.nodes| && cur == (if i == |list.nodes| then null else list.nodes[i])
        invariant freeChunk != null ==> at < i && freeChunk == list.nodes[at]
        invariant goal == Scan(Blocks(), i, if freeChunk == null then None else Some(at), units, aligned, pageUnits)
        decreases |list.nodes| - i
      {
        assert LinkedList.LinkedAt(list.nodes, i);
        assert Blocks()[i] == Block(cur.start, cur.size, cur.free);
        var extra := ExtraOf(cur, aligned);
        if cur.free && cur.size >= units + extra {
          if freeChunk == null || cur.size < freeChunk.size {
            freeChunk := cur;
            at := i;
          }
          if cur.size == units {
            break;
          }
        }
        cur := cur.next;
        i := i + 1;
      }
    }

    /** None where the original answers NO_MEMORY. */
    method Allocate(size: SizeT, aligned: bool) returns (offset: Option<nat>)
      requires Valid()
      modifies list, list.Repr()
      ensures Valid() && fresh(list.Repr() - old(list.Repr()))
      ensures AllocResult(offset, Blocks()) == Alloc(old(Blocks()), size, aligned, pageSize / MEMORY_ALIGN)
    {
      if size == 0 {
        return Some(0);
      }
      var units := (size + MEMORY_ALIGN - 1) % SIZE_LIMIT / MEMORY_ALIGN;
      var freeChunk, at := FindFree(units, aligned);
      ghost var pageUnits, bs := pageSize / MEMORY_ALIGN, Blocks();
      if freeChunk == null {
        return None;
      }
      ScanFits(bs, 0, None, units, aligned, pageUnits);
      offset := Take(freeChunk, units, aligned, at);
      TakenFrom(bs, size, aligned, pageUnits, at);
    }

    /** A new free chunk takes the first `extra` units of chunk c. */
    method SplitHead(c: Chunk, extra: nat, ghost before: seq<Block>, ghost b: Block, ghost after: seq<Block>)
      requires Valid() && Blocks() == before + [b] + after && c == list.nodes[|before|]
      modifies list, list.Repr()
      ensures Valid() && fresh(list.Repr() - old(list.Repr()))
      ensures Blocks() == before + [Block(b.start, extra, true), b.(start := b.start + extra)] + after
      ensures c == list.nodes[|before| + 1]
    {
      assert Blocks()[|before|] == b;
      ghost var i, was := |before|, Blocks();
      var split := new Chunk(c.start, extra);
      c.start := c.start + extra;
      list.InsertBefore(c, split, i);
      assert forall k :: 0 <= k < i ==> Blocks()[k] == was[k];
      assert forall k :: i + 1 < k < |Blocks()| ==> Blocks()[k] == was[k - 1];
      SplitInTwo(Blocks(), was, before, b, after, Block(b.start, extra, true), b.(start := b.start + extra));
    }

    /** A new free chunk of `rest` units follows chunk c. */
    method SplitTail(c: Chunk, rest: nat, ghost before: seq<Block>, ghost b: Block, ghost after: seq<Block>)
      requires Valid() && Blocks() == before + [b] + after && c == list.nodes[|before|]
      modifies list, list.Repr()
      ensures Valid() && fresh(list.Repr() - old(list.Repr()))
      ensures Blocks() == before + [b, Block(b.start + b.size, rest, true)] + after
      ensures c == list.nodes[|before|]
    {
      assert Blocks()[|before|] == b;
      ghost var i, was := |before|, Blocks();
      var split := new Chunk(c.start + c.size, rest);
      list.InsertAfter(c, split, i);
      assert forall k :: 0 <= k <= i ==> Blocks()[k] == was[k];
      assert forall k :: i + 1 < k < |Blocks()| ==> Blocks()[k] == was[k - 1];
      SplitInTwo(Blocks(), was, before, b, after, b, Block(b.start + b.size, rest, true));
    }

    /** The chunk is taken, with the gap before it in a chunk of its own. */
    method CutHead(freeChunk: Chunk, units: nat, extra: nat, ghost before: seq<Block>, ghost b: Block,
          ghost after: seq<Block>)
      requires Valid() && Blocks() == before + [b] + after && freeChunk == list.nodes[|before|]
      modifies list, list.Repr()
      ensures Valid() && fresh(list.Repr() - old(list.Repr()))
      ensures Blocks() == before + Gap(b, extra) + [Block(b.start + extra, units, false)] + after
      ensures |before + Gap(b, extra)| < |list.nodes| && freeChunk == list.nodes[|before + Gap(b, extra)|]
    {
      assert Blocks()[|before|] == b;
      ghost var was := Blocks();
      freeChunk.free := false;
      freeChunk.size := units;
      assert forall k :: 0 <= k < |Blocks()| && k != |before| ==> Blocks()[k] == was[k];
      assert Blocks() == before + [Block(b.start, units, false)] + after;
      if extra != 0 {
        SplitHead(freeChunk, extra, before, Block(b.start, units, false), after);
      }
    }

    /** Leaves `units` in the chunk, the gap before it and the rest after it in chunks of their own. */
    method CutOut(freeChunk: Chunk, units: nat, extra: nat, ghost before: seq<Block>, ghost b: Block,
          ghost after: seq<Block>)
      requires Valid() && Blocks() == before + [b] + after && freeChunk == list.nodes[|before|]
      requires b.size >= units + extra
      modifies list, list.Repr()
      ensures Valid() && fresh(list.Repr() - old(list.Repr()))
      ensures freeChunk.start == b.start + extra
      ensures Blocks() == before + Pieces(b, units, extra) + after
    {
      assert Blocks()[|before|] == b;
      var freeSize := freeChunk.size;
      ghost var head, taken := before + Gap(b, extra), Block(b.start + extra, units, false);
      CutHead(freeChunk, units, extra, before, b, after);
      assert Blocks()[|head|] == taken;
      var tailFree := freeSize - (units + extra);
      if tailFree > 0 {
        SplitTail(freeChunk, tailFree, head, taken, after);
        assert Blocks()[|head|] == taken;
      }
      PiecesInPlace(before, b, units, extra, after);
    }

    method Take(freeChunk: Chunk, units: nat, aligned: bool, ghost at: nat) returns (offset: Option<nat>)
      requires Valid() && at < |list.nodes| && freeChunk == list.nodes[at]
      requires Fits(Blocks()[at], units, aligned, pageSize / MEMORY_ALIGN)
      modifies list, list.Repr()
      ensures Valid() && fresh(list.Repr() - old(list.Repr()))
      ensures var b := old(Blocks())[at];
              && Blocks()
                 == old(Blocks())[..at] + Carve(b, units, aligned, pageSize / MEMORY_ALIGN) + old(Blocks())[at + 1..]
              && var extra := if b.size > units then Extra(b, aligned, pageSize / MEMORY_ALIGN) else 0;
                 offset == Some((b.start + extra) * MEMORY_ALIGN)
    {
      assert Blocks()[at] == Block(freeChunk.start, freeChunk.size, freeChunk.free);
      var extra := 0;
      if freeChunk.size > units {
        extra := ExtraOf(freeChunk, aligned);
      }
      ghost var bs := Blocks();
      assert bs == bs[..at] + [bs[at]] + bs[at + 1..];
      CutOut(freeChunk, units, extra, bs[..at], bs[at], bs[at + 1..]);
      offset := Some(freeChunk.start * MEMORY_ALIGN);
    }

    /** False where the original answers NAME_NOT_FOUND. */
    method Deallocate(offset: nat) returns (found: bool)
      requires Valid()
      modifies list, list.Repr()
      ensures Valid() && list.Repr() <= old(list.Repr())
      ensures found == Dealloc(old(Blocks()), offset).Some?
      ensures Blocks() == if found then Dealloc(old(Blocks()), offset).value else old(Blocks())
    {
      var start := offset / MEMORY_ALIGN;
      var cur := list.first;
      ghost var i := 0;
      while cur != null
        invariant 0 <= i <= |list.nodes| && cur == (if i == |list.nodes| then null else list.nodes[i])
        invariant Find(Blocks(), 0, start) == Find(Blocks(), i, start)
        decreases |list.nodes| - i
      {
        assert LinkedList.LinkedAt(list.nodes, i);
        assert Blocks()[i] == Block(cur.start, cur.size, cur.free);
        if cur.start == start {
          Release(cur, i);
          return true;
        }
        cur := cur.next;
        i := i + 1;
      }
      found := false;
    }

    /** One turn of the merging loop: the chunk goes into the one before it if that one is free. */
    method MergeStep(cur: Chunk, ghost i: nat) returns (n: Chunk?, ghost j: nat)
      requires Valid() && i < |list.nodes| && cur == list.nodes[i]
      modifies list, list.Repr()
      ensures Valid() && list.Repr() <= old(list.Repr())
      ensures n == At(list.nodes, j)
      ensures var bs := old(Blocks());
              if i > 0 && (bs[i - 1].free || bs[i].size == 0)
              then j == i && Blocks() == MergeIntoPrevious(bs, i)
              else j == i + 1 && Blocks() == bs
    {
      ghost var bs := Blocks();
      assert LinkedList.LinkedAt(list.nodes, i);
      assert bs[i] == Block(cur.start, cur.size, cur.free);
      var p := cur.prev;
      n := cur.next;
      j := i + 1;
      if p != null && (p.free || cur.size == 0) {
        assert p == list.nodes[i - 1] && bs[i - 1] == Block(p.start, p.size, p.free);
        p.size := p.size + cur.size;
        list.Remove(cur, i);
        j := i;
        assert Blocks() == MergeIntoPrevious(bs, i);
      }
    }

    /** Frees the chunk and joins it with the free chunks around it. */
    method Release(chunk: Chunk, ghost at: nat)
      requires Valid() && at < |list.nodes| && chunk == list.nodes[at]
      modifies list, list.Repr()
      ensures Valid() && list.Repr() <= old(list.Repr())
      ensures Blocks() == Coalesce(old(Blocks())[at := old(Blocks())[at].(free := true)], at)
    {
      var cur: Chunk? := chunk;
      ghost var i := at;
      chunk.free := true;
      assert Blocks() == old(Blocks())[at := old(Blocks())[at].(free := true)];
      ghost var goal := Coalesce(Blocks(), i);
      while true
        invariant Valid() && list.Repr() <= old(list.Repr())
        invariant 0 <= i < |list.nodes| && cur == list.nodes[i] && goal == Coalesce(Blocks(), i)
        decreases |list.nodes| - i
      {
        cur, i := MergeStep(cur, i);
        assert cur != null ==> Blocks()[i] == Block(cur.start, cur.size, cur.free);
        if cur == null || !cur.free {
          break;
        }
      }
    }
  }

  lemma TakenFrom(bs: seq<Block>, size: SizeT, aligned: bool, pageUnits: nat, at: nat)
    requires size > 0 && pageUnits > 0 && Scan(bs, 0, None, Units(size), aligned, pageUnits) == Some(at)
    requires at < |bs| && Fits(bs[at], Units(size), aligned, pageUnits)
    ensures var b, units := bs[at], Units(size);
            var extra := if b.size > units then Extra(b, aligned, pageUnits) else 0;
            Alloc(bs, size, aligned, pageUnits)
            == AllocResult(Some((b.start + extra) * MEMORY_ALIGN),
                           bs[..at] + Carve(b, units, aligned, pageUnits) + bs[at + 1..])
  {
  }

  lemma PiecesInPlace(before: seq<Block>, b: Block, units: nat, extra: nat, after: seq<Block>)
    requires b.size >= units + extra
    ensures var head, taken := before + Gap(b, extra), Block(b.start + extra, units, false);
            before + Pieces(b, units, extra) + after
            == if b.size > units + extra
               then head + [taken, Block(b.start + extra + units, b.size - units - extra, true)] + after
               else head + [taken] + after
  {
  }

  /** The dealer, with the outstanding allocation objects as ghost state. */
  class MemoryDealer {
    const allocator: SimpleBestFitAllocator
    ghost var grants: seq<Dealer.Grant>

    ghost predicate Valid()
      reads this, allocator, allocator.list, allocator.list.nodes
    {
      allocator.Valid()
    }

    ghost function State(): Dealer.State
      reads this, allocator.list, allocator.list.nodes
    {
      Dealer.State(allocator.Blocks(), grants)
    }

    constructor (size: SizeT, pageSize: nat)
      requires pageSize >= MEMORY_ALIGN
      ensures Valid() && fresh(allocator.list) && fresh(allocator.list.nodes)
      ensures State() == Dealer.Init(allocator.heapSize / MEMORY_ALIGN % SIZE_FIELD_LIMIT)
    {
      allocator := new SimpleBestFitAllocator(size, pageSize);
      grants := [];
    }

    method Allocate(size: SizeT) returns (memory: Option<Dealer.Grant>)
      requires Valid()
      modifies this, allocator.list, allocator.list.Repr()
      ensures Valid() && fresh(allocator.list.Repr() - old(allocator.list.Repr()))
      ensures State() == Dealer.Next(old(State()), Dealer.Allocate(size), allocator.pageSize / MEMORY_ALIGN)
      ensures memory.None? <==> grants == old(grants)
      ensures memory.Some? ==> grants == old(grants) + [memory.value] && memory.value.size == size
    {
      var offset := allocator.Allocate(size, false);
      if offset.None? {
        return None;
      }
      memory := Some(Dealer.Grant(offset.value, size));
      grants := grants + [memory.value];
    }

    /** The destructor of allocation object i: an object of size zero has no block to give back. */
    method Destroy(memory: Dealer.Grant, ghost i: nat)
      requires Valid() && i < |grants| && grants[i] == memory
      modifies this, allocator.list, allocator.list.Repr()
      ensures Valid() && allocator.list.Repr() <= old(allocator.list.Repr())
      ensures State() == Dealer.Next(old(State()), Dealer.Release(i), allocator.pageSize / MEMORY_ALIGN)
    {
      if memory.size > 0 {
        var found := allocator.Deallocate(memory.offset);
      }
      grants := grants[..i] + grants[i + 1..];
    }
  }

  lemma SplitInTwo(now: seq<Block>, was: seq<Block>, before: seq<Block>, b: Block, after: seq<Block>, x: Block,
        y: Block)
    requires was == before + [b] + after && |now| == |was| + 1
    requires now[|before|] == x && now[|before| + 1] == y
    requires forall k :: 0 <= k < |before| ==> now[k] == was[k]
    requires forall k :: |before| + 1 < k < |now| ==> now[k] == was[k - 1]
    ensures now == before + [x, y] + after
  {
  }
}
