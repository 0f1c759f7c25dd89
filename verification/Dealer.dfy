/** Whole runs of the memory dealer: allocations handed out and released in any order. */
module Dealer {
  import opened Basics
  import opened BestFit

  /** An allocation object: where its memory is, and how many bytes were asked for. */
  datatype Grant = Grant(offset: nat, size: SizeT)

  datatype State = State(blocks: seq<Block>, grants: seq<Grant>)

  datatype Event = Allocate(size: SizeT) | Release(i: nat)

  function Init(total: nat): State {
    State([Block(0, total, true)], [])
  }

  /** A release of size zero leaves the allocator alone: such a grant has no block there. */
  function Next(d: State, e: Event, pageUnits: nat): State
    requires pageUnits > 0
  {
    match e
    case Allocate(size) =>
      var r := Alloc(d.blocks, size, false, pageUnits);
      if r.offset.None? then d
      else State(r.blocks, d.grants + [Grant(r.offset.value, size)])
    case Release(i) =>
      if i >= |d.grants| then d
      else
        var g := d.grants[i];
        var r := if g.size > 0 then Dealloc(d.blocks, g.offset) else None;
        State(if r.Some? then r.value else d.blocks, d.grants[..i] + d.grants[i + 1..])
  }

  function Run(d: State, es: seq<Event>, pageUnits: nat): State
    requires pageUnits > 0
    decreases |es|
  {
    if es == [] then d else Run(Next(d, es[0], pageUnits), es[1..], pageUnits)
  }

  /** The rounding of the request does not wrap. */
  predicate Sane(e: Event) {
    e.Allocate? ==> !Wraps(e.size)
  }

  // ---- What every run keeps ------------------------------------------------------------------------

  function BlockOf(g: Grant): Block {
    Block(g.offset / MEMORY_ALIGN, Units(g.size), false)
  }

  ghost function GrantBlocks(gs: seq<Grant>): set<Block> {
    set g | g in gs && g.size > 0 :: BlockOf(g)
  }

  function GrantUnits(gs: seq<Grant>): nat {
    if gs == [] then 0 else (if gs[0].size > 0 then Units(gs[0].size) else 0) + GrantUnits(gs[1..])
  }

  ghost predicate Consistent(d: State, total: nat) {
    && WellFormed(d.blocks, total)
    && Live(d.blocks) == GrantBlocks(d.grants)
    && LiveUnits(d.blocks) == GrantUnits(d.grants)
    && (forall i :: 0 <= i < |d.grants| ==>
          d.grants[i].offset % MEMORY_ALIGN == 0 && d.grants[i].size + MEMORY_ALIGN - 1 < SIZE_LIMIT)
    && Distinct(d.grants)
  }

  lemma InitConsistent(total: nat)
    requires total > 0
    ensures Consistent(Init(total), total)
  {
    SingleBlock(Block(0, total, true));
    assert Live(Init(total).blocks) == {};
  }

  lemma {:induction false} GrantUnitsConcat(a: seq<Grant>, b: seq<Grant>)
    ensures GrantUnits(a + b) == GrantUnits(a) + GrantUnits(b)
  {
    if a == [] {
      assert a + b == b;
    } else {
      GrantUnitsConcat(a[1..], b);
      assert (a + b)[1..] == a[1..] + b;
    }
  }

  lemma GrantUnitsOne(g: Grant)
    ensures GrantUnits([g]) == if g.size > 0 then Units(g.size) else 0
  {
    assert [g][1..] == [];
  }

  lemma AddGrant(gs: seq<Grant>, g: Grant)
    ensures GrantUnits(gs + [g]) == GrantUnits(gs) + if g.size > 0 then Units(g.size) else 0
    ensures GrantBlocks(gs + [g]) == GrantBlocks(gs) + if g.size > 0 then {BlockOf(g)} else {}
  {
    GrantUnitsConcat(gs, [g]);
    GrantUnitsOne(g);
    assert forall h :: h in gs + [g] <==> h in gs || h == g;
  }

  ghost predicate Distinct(gs: seq<Grant>) {
    forall i, j :: 0 <= i < j < |gs| && gs[i].size > 0 && gs[j].size > 0 ==> BlockOf(gs[i]) != BlockOf(gs[j])
  }

  lemma AddDistinct(gs: seq<Grant>, g: Grant)
    requires Distinct(gs) && (g.size > 0 ==> BlockOf(g) !in GrantBlocks(gs))
    ensures Distinct(gs + [g])
  {
    assert forall i :: 0 <= i < |gs| && gs[i].size > 0 ==> BlockOf(gs[i]) in GrantBlocks(gs);
  }

  lemma AllocateConsistent(d: State, total: nat, size: SizeT, pageUnits: nat)
    requires Consistent(d, total) && pageUnits > 0 && Sane(Allocate(size))
    ensures Consistent(Next(d, Allocate(size), pageUnits), total)
  {
    var r := Alloc(d.blocks, size, false, pageUnits);
    if r.offset.Some? {
      var g := Grant(r.offset.value, size);
      if size > 0 {
        AllocKeepsHeap(d.blocks, total, size, false, pageUnits);
        var i := AllocIsBestFit(d.blocks, size, false, pageUnits);
      }
      GrantAdded(d, total, g, r.blocks);
    }
  }

  lemma GrantAdded(d: State, total: nat, g: Grant, bs: seq<Block>)
    requires Consistent(d, total) && WellFormed(bs, total) && !Wraps(g.size) && g.offset % MEMORY_ALIGN == 0
    requires if g.size == 0 then bs == d.blocks
             else BlockOf(g) !in d.blocks && Live(bs) == Live(d.blocks) + {BlockOf(g)}
                  && LiveUnits(bs) == LiveUnits(d.blocks) + Units(g.size)
    ensures Consistent(State(bs, d.grants + [g]), total)
  {
    AddGrant(d.grants, g);
    AddDistinct(d.grants, g);
  }

  ghost function Without(gs: seq<Grant>, i: nat): (rest: seq<Grant>)
    requires i < |gs|
    ensures |rest| == |gs| - 1
    ensures forall j :: 0 <= j < i ==> rest[j] == gs[j]
    ensures forall j :: i <= j < |rest| ==> rest[j] == gs[j + 1]
  {
    gs[..i] + gs[i + 1..]
  }

  lemma SpliceGrantUnits(gs: seq<Grant>, rest: seq<Grant>, a: seq<Grant>, g: Grant, b: seq<Grant>)
    requires gs == a + [g] + b && rest == a + b
    ensures GrantUnits(gs) == GrantUnits(rest) + if g.size > 0 then Units(g.size) else 0
  {
    GrantUnitsOne(g);
    GrantUnitsConcat(a + [g], b);
    GrantUnitsConcat(a, [g]);
    GrantUnitsConcat(a, b);
  }

  lemma RemoveGrantUnits(gs: seq<Grant>, i: nat)
    requires i < |gs|
    ensures GrantUnits(gs) == GrantUnits(Without(gs, i)) + if gs[i].size > 0 then Units(gs[i].size) else 0
  {
    SplitAt(gs, i);
    SpliceGrantUnits(gs, Without(gs, i), gs[..i], gs[i], gs[i + 1..]);
  }

  lemma RemoveGrantBlocks(gs: seq<Grant>, i: nat)
    requires i < |gs| && Distinct(gs)
    ensures GrantBlocks(Without(gs, i)) == GrantBlocks(gs) - if gs[i].size > 0 then {BlockOf(gs[i])} else {}
  {
    var rest := Without(gs, i);
    forall b | b in GrantBlocks(gs) && !(gs[i].size > 0 && b == BlockOf(gs[i])) ensures b in GrantBlocks(rest) {
      var j :| 0 <= j < |gs| && gs[j].size > 0 && b == BlockOf(gs[j]);
      assert gs[j] == rest[if j < i then j else j - 1];
    }
    forall b | b in GrantBlocks(rest) ensures b in GrantBlocks(gs) && !(gs[i].size > 0 && b == BlockOf(gs[i])) {
      var j :| 0 <= j < |rest| && rest[j].size > 0 && b == BlockOf(rest[j]);
      assert rest[j] == gs[if j < i then j else j + 1];
    }
  }

  lemma ReleaseConsistent(d: State, total: nat, i: nat, pageUnits: nat)
    requires Consistent(d, total) && pageUnits > 0
    ensures Consistent(Next(d, Release(i), pageUnits), total)
  {
    if i < |d.grants| {
      var g := d.grants[i];
      RemoveGrantUnits(d.grants, i);
      RemoveGrantBlocks(d.grants, i);
      assert Next(d, Release(i), pageUnits).grants == Without(d.grants, i);
      if g.size > 0 {
        assert BlockOf(g) in GrantBlocks(d.grants);
        DeallocReleases(d.blocks, total, g.offset);
        assert BlockOf(g) in d.blocks;
      }
    }
  }

  /** Whatever is allocated and released, in any order, the heap stays a tiling whose live blocks are
      exactly the outstanding grants, one block each, of the rounded sizes. */
  lemma {:induction false} RunConsistent(d: State, total: nat, es: seq<Event>, pageUnits: nat)
    requires Consistent(d, total) && pageUnits > 0 && forall e :: e in es ==> Sane(e)
    ensures Consistent(Run(d, es, pageUnits), total)
    decreases |es|
  {
    if es != [] {
      assert Sane(es[0]);
      match es[0] {
        case Allocate(size) => AllocateConsistent(d, total, size, pageUnits);
        case Release(i) => ReleaseConsistent(d, total, i, pageUnits);
      }
      RunConsistent(Next(d, es[0], pageUnits), total, es[1..], pageUnits);
    }
  }

  // ---- What that means for the callers ---------------------------------------------------------------

  /** Two non-empty grants never share a byte, and both lie in the heap. */
  lemma GrantsDisjoint(d: State, total: nat, i: nat, j: nat)
    requires Consistent(d, total) && i < |d.grants| && j < |d.grants| && i != j
    requires d.grants[i].size > 0 && d.grants[j].size > 0
    ensures var a, b := d.grants[i], d.grants[j];
            && a.offset + a.size <= total * MEMORY_ALIGN
            && (a.offset + a.size <= b.offset || b.offset + b.size <= a.offset)
  {
    var a, b := d.grants[i], d.grants[j];
    assert BlockOf(a) in GrantBlocks(d.grants) && BlockOf(b) in GrantBlocks(d.grants);
    assert BlockOf(a) in d.blocks && BlockOf(b) in d.blocks;
    BlocksApart(d.blocks, total, BlockOf(a), BlockOf(b));
    UnitsCover(a);
    UnitsCover(b);
  }

  lemma UnitsCover(g: Grant)
    requires g.offset % MEMORY_ALIGN == 0 && g.size + MEMORY_ALIGN - 1 < SIZE_LIMIT
    ensures BlockOf(g).start * MEMORY_ALIGN == g.offset
    ensures BlockOf(g).size * MEMORY_ALIGN >= g.size
  {
  }

  /** From a fresh dealer: once every non-empty grant is released, whatever the order, the heap is one
      free block again. */
  lemma AllReleased(total: nat, es: seq<Event>, pageUnits: nat)
    requires total > 0 && pageUnits > 0 && forall e :: e in es ==> Sane(e)
    ensures var d := Run(Init(total), es, pageUnits);
            (forall g :: g in d.grants ==> g.size == 0) ==> d.blocks == [Block(0, total, true)]
  {
    InitConsistent(total);
    RunConsistent(Init(total), total, es, pageUnits);
    var d := Run(Init(total), es, pageUnits);
    if forall g :: g in d.grants ==> g.size == 0 {
      assert GrantBlocks(d.grants) == {};
      NothingLiveMeansOneBlock(d.blocks, total);
    }
  }

  /** Releasing everything, in any order at all, does release everything. */
  lemma {:induction false} ReleaseAll(d: State, total: nat, order: seq<nat>, pageUnits: nat)
    requires Consistent(d, total) && total > 0 && pageUnits > 0
    requires |order| == |d.grants| && forall k :: 0 <= k < |order| ==> order[k] < |d.grants| - k
    ensures Run(d, Releases(order), pageUnits) == Init(total)
    decreases |order|
  {
    if order == [] {
      assert GrantBlocks(d.grants) == {};
      NothingLiveMeansOneBlock(d.blocks, total);
    } else {
      var d' := Next(d, Release(order[0]), pageUnits);
      ReleaseConsistent(d, total, order[0], pageUnits);
      ReleaseAll(d', total, order[1..], pageUnits);
      RunReleases(d, order, pageUnits);
    }
  }

  function Releases(order: seq<nat>): (es: seq<Event>)
    ensures |es| == |order|
  {
    seq(|order|, k requires 0 <= k < |order| => Release(order[k]))
  }

  lemma RunReleases(d: State, order: seq<nat>, pageUnits: nat)
    requires order != [] && pageUnits > 0
    ensures Run(d, Releases(order), pageUnits)
            == Run(Next(d, Release(order[0]), pageUnits), Releases(order[1..]), pageUnits)
  {
    assert Releases(order)[1..] == Releases(order[1..]);
  }

  // ---- Requests whose rounding wraps -----------------------------------------------------------------

  /** The largest size_t wraps: the allocator hands out a block of no units, in front of free memory. */
  lemma WrappedRequestIsGranted(pageUnits: nat)
    requires pageUnits > 0
    ensures Alloc([Block(0, 128, true)], SIZE_LIMIT - 1, false, pageUnits)
            == AllocResult(Some(0), [Block(0, 0, false), Block(0, 128, true)])
  {
    var bs := [Block(0, 128, true)];
    var i := AllocIsBestFit(bs, SIZE_LIMIT - 1, false, pageUnits);
    assert Fits(bs[0], 0, false, pageUnits);
  }

  // ---- Pages given back to the kernel on release -------------------------------------------------------

  function PageFloor(x: nat, page: nat): nat
    requires page > 0
  {
    x / page * page
  }

  function PageCeil(x: nat, page: nat): nat
    requires page > 0
  {
    (x + page - 1) / page * page
  }

  /** The byte range handed to madvise when the grant goes away; empty unless start < end. */
  function Discarded(g: Grant, page: nat): (r: (nat, nat))
    requires page > 0
  {
    var freeStart, freeEnd := g.offset, g.offset + g.size;
    var start := PageFloor(g.offset, page);
    var end := PageCeil(g.offset + g.size, page);
    var start1 := if start < freeStart then freeStart else start;
    var end1 := if end > freeEnd then freeEnd else end;
    (PageCeil(start1, page), PageFloor(end1, page))
  }

  lemma PageBounds(x: nat, page: nat)
    requires page > 0
    ensures PageFloor(x, page) <= x < PageFloor(x, page) + page
    ensures x <= PageCeil(x, page) < x + page
    ensures PageFloor(x, page) % page == 0 && PageCeil(x, page) % page == 0
  {
    MultipleMod(x / page, page);
    MultipleMod((x + page - 1) / page, page);
  }

  /** The pages discarded are exactly the whole pages of the released range, so they hold no byte of
      any other grant. */
  lemma DiscardTouchesNoOther(d: State, total: nat, i: nat, j: nat, page: nat)
    requires Consistent(d, total) && page > 0 && i < |d.grants| && j < |d.grants| && i != j
    requires d.grants[i].size > 0 && d.grants[j].size > 0
    ensures var (start, end) := Discarded(d.grants[i], page);
            start < end ==> end <= d.grants[j].offset || d.grants[j].offset + d.grants[j].size <= start
  {
    GrantsDisjoint(d, total, i, j);
    DiscardedPages(d.grants[i], page, 0);
  }

  lemma DiscardedPages(g: Grant, page: nat, p: nat)
    requires page > 0
    ensures var (start, end) := Discarded(g, page);
            && (start < end ==> g.offset <= start && end <= g.offset + g.size)
            && start % page == 0 && end % page == 0
            && (g.offset <= p * page && (p + 1) * page <= g.offset + g.size ==>
                  start <= p * page && (p + 1) * page <= end)
  {
    PageBounds(g.offset, page);
    PageBounds(g.offset + g.size, page);
    if g.offset <= p * page { CeilLeast(g.offset, p, page); }
    if (p + 1) * page <= g.offset + g.size { FloorGreatest(g.offset + g.size, p + 1, page); }
  }

  lemma CeilLeast(x: nat, q: nat, page: nat)
    requires page > 0 && x <= q * page
    ensures PageCeil(x, page) <= q * page
  {
    PageBounds(x, page);
    var c := (x + page - 1) / page;
    MulBound(c - q, page);
    assert (c - q) * page == c * page - q * page;
  }

  lemma FloorGreatest(x: nat, q: nat, page: nat)
    requires page > 0 && q * page <= x
    ensures q * page <= PageFloor(x, page)
  {
    PageBounds(x, page);
    var c := x / page;
    MulBound(c - q, page);
    assert (c - q) * page == c * page - q * page;
  }
}
