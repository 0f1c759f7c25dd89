/** The best-fit allocator on values: the chunk list as a sequence of blocks, in units of 32 bytes. */
module BestFit {
  import opened Basics

  const MEMORY_ALIGN := 32
  const SIZE_LIMIT := 0x1_0000_0000_0000_0000   // one more than the largest size_t
  const SIZE_FIELD_LIMIT := 0x1000_0000         // chunk sizes are kept in 28 bits

  datatype Block = Block(start: nat, size: nat, free: bool)

  type SizeT = n: int | 0 <= n < SIZE_LIMIT

  /** Units asked for: the rounding addition is done in size_t and wraps. */
  function Units(size: SizeT): nat {
    (size + MEMORY_ALIGN - 1) % SIZE_LIMIT / MEMORY_ALIGN
  }

  /** How far `start` is below the next page boundary, in units. */
  function PageGap(start: nat, pageUnits: nat): nat
    requires pageUnits > 0
  {
    (0 - start) % pageUnits
  }

  function Extra(b: Block, aligned: bool, pageUnits: nat): nat
    requires pageUnits > 0
  {
    if aligned then PageGap(b.start, pageUnits) else 0
  }

  predicate Fits(b: Block, units: nat, aligned: bool, pageUnits: nat)
    requires pageUnits > 0
  {
    b.free && b.size >= units + Extra(b, aligned, pageUnits)
  }

  /** The scan from block i on, `best` being the candidate so far; an exact match ends it. */
  function Scan(bs: seq<Block>, i: nat, best: Option<nat>, units: nat, aligned: bool, pageUnits: nat): Option<nat>
    requires i <= |bs| && pageUnits > 0 && (best.Some? ==> best.value < i)
    decreases |bs| - i
  {
    if i == |bs| then best
    else if Fits(bs[i], units, aligned, pageUnits) then
      var b := if best.None? || bs[i].size < bs[best.value].size then Some(i) else best;
      if bs[i].size == units then b else Scan(bs, i + 1, b, units, aligned, pageUnits)
    else Scan(bs, i + 1, best, units, aligned, pageUnits)
  }

  /** An optional gap of free units, the allocation, and an optional rest. */
  function Pieces(b: Block, units: nat, extra: nat): seq<Block>
    requires b.size >= units + extra
  {
    Gap(b, extra) + [Block(b.start + extra, units, false)] + Rest(b, units, extra)
  }

  /** What block b becomes when it is taken. */
  function Carve(b: Block, units: nat, aligned: bool, pageUnits: nat): seq<Block>
    requires pageUnits > 0 && Fits(b, units, aligned, pageUnits)
  {
    Pieces(b, units, if b.size > units then Extra(b, aligned, pageUnits) else 0)
  }

  datatype AllocResult = AllocResult(offset: Option<nat>, blocks: seq<Block>)

  function Alloc(bs: seq<Block>, size: SizeT, aligned: bool, pageUnits: nat): AllocResult
    requires pageUnits > 0
  {
    if size == 0 then AllocResult(Some(0), bs)
    else
      var units := Units(size);
      var best := Scan(bs, 0, None, units, aligned, pageUnits);
      if best.None? then AllocResult(None, bs)
      else
        ScanFits(bs, 0, None, units, aligned, pageUnits);
        var b := bs[best.value];
        var extra := if b.size > units then Extra(b, aligned, pageUnits) else 0;
        AllocResult(Some((b.start + extra) * MEMORY_ALIGN),
                    bs[..best.value] + Carve(b, units, aligned, pageUnits) + bs[best.value + 1..])
  }

  /** The first block that starts at `start`, from block i on. */
  function Find(bs: seq<Block>, i: nat, start: nat): (r: Option<nat>)
    requires i <= |bs|
    ensures r.Some? ==> i <= r.value < |bs| && bs[r.value].start == start
    ensures r.None? ==> forall k :: i <= k < |bs| ==> bs[k].start != start
    decreases |bs| - i
  {
    if i == |bs| then None
    else if bs[i].start == start then Some(i)
    else Find(bs, i + 1, start)
  }

  /** Blocks lo..hi-1 replaced by b. */
  function Cut(bs: seq<Block>, lo: nat, hi: nat, b: Block): (r: seq<Block>)
    requires lo <= hi <= |bs|
    ensures |r| == |bs| - (hi - lo) + 1 && r[lo] == b
    ensures forall k :: 0 <= k < lo ==> r[k] == bs[k]
    ensures forall k :: lo < k < |r| ==> r[k] == bs[k - lo - 1 + hi]
  {
    bs[..lo] + [b] + bs[hi..]
  }

  function MergeIntoPrevious(bs: seq<Block>, i: nat): seq<Block>
    requires 0 < i < |bs|
  {
    Cut(bs, i - 1, i + 1, bs[i - 1].(size := bs[i - 1].size + bs[i].size))
  }

  /** The do-while loop of dealloc, standing at block i. */
  function Coalesce(bs: seq<Block>, i: nat): seq<Block>
    requires i < |bs|
    decreases |bs| - i
  {
    if i > 0 && (bs[i - 1].free || bs[i].size == 0) then
      var r := MergeIntoPrevious(bs, i);
      if i < |r| && r[i].free then Coalesce(r, i) else r
    else if i + 1 < |bs| && bs[i + 1].free then Coalesce(bs, i + 1)
    else bs
  }

  /** None when no block starts there. */
  function Dealloc(bs: seq<Block>, offset: nat): Option<seq<Block>> {
    var i := Find(bs, 0, offset / MEMORY_ALIGN);
    if i.None? then None else Some(Coalesce(bs[i.value := bs[i.value].(free := true)], i.value))
  }

  // ---- What the block list means ------------------------------------------------------------------

  /** The blocks cover [lo, hi) one after the other, without gap or overlap, each of positive size. */
  ghost predicate Tiles(bs: seq<Block>, lo: nat, hi: nat) {
    if bs == [] then lo == hi
    else bs[0].start == lo && bs[0].size > 0 && Tiles(bs[1..], lo + bs[0].size, hi)
  }

  ghost predicate Coalesced(bs: seq<Block>) {
    forall i :: 0 <= i < |bs| - 1 ==> !(bs[i].free && bs[i + 1].free)
  }

  lemma NotBothFree(bs: seq<Block>, i: nat)
    requires Coalesced(bs) && i + 1 < |bs|
    ensures !bs[i].free || !bs[i + 1].free
  {
  }

  ghost predicate WellFormed(bs: seq<Block>, total: nat) {
    Tiles(bs, 0, total) && Coalesced(bs)
  }

  ghost function Live(bs: seq<Block>): set<Block> {
    set b | b in bs && !b.free
  }

  ghost function LiveUnits(bs: seq<Block>): nat {
    if bs == [] then 0 else (if bs[0].free then 0 else bs[0].size) + LiveUnits(bs[1..])
  }

  // ---- The scan is a best fit ----------------------------------------------------------------------

  lemma {:induction false} ScanFits(bs: seq<Block>, i: nat, best: Option<nat>, units: nat, aligned: bool,
        pageUnits: nat)
    requires i <= |bs| && pageUnits > 0 && (best.Some? ==> best.value < i)
    requires best.Some? ==> Fits(bs[best.value], units, aligned, pageUnits)
    ensures var r := Scan(bs, i, best, units, aligned, pageUnits);
            r.Some? ==> r.value < |bs| && Fits(bs[r.value], units, aligned, pageUnits)
    decreases |bs| - i
  {
    if i < |bs| {
      if Fits(bs[i], units, aligned, pageUnits) {
        var b := if best.None? || bs[i].size < bs[best.value].size then Some(i) else best;
        ScanFits(bs, i + 1, b, units, aligned, pageUnits);
      } else {
        ScanFits(bs, i + 1, best, units, aligned, pageUnits);
      }
    }
  }

  lemma {:induction false} ScanIsMinimal(bs: seq<Block>, i: nat, best: Option<nat>, units: nat, aligned: bool,
        pageUnits: nat)
    requires i <= |bs| && pageUnits > 0 && (best.Some? ==> best.value < i)
    requires best.None? ==> forall k :: 0 <= k < i ==> !Fits(bs[k], units, aligned, pageUnits)
    requires best.Some? ==> Fits(bs[best.value], units, aligned, pageUnits)
    requires best.Some? ==>
               forall k :: 0 <= k < i && Fits(bs[k], units, aligned, pageUnits) ==> bs[best.value].size <= bs[k].size
    ensures var r := Scan(bs, i, best, units, aligned, pageUnits);
            if r.None? then forall k :: 0 <= k < |bs| ==> !Fits(bs[k], units, aligned, pageUnits)
            else r.value < |bs| && Fits(bs[r.value], units, aligned, pageUnits)
                 && forall k :: 0 <= k < |bs| && Fits(bs[k], units, aligned, pageUnits) ==>
                     bs[r.value].size <= bs[k].size
    decreases |bs| - i
  {
    if i < |bs| {
      if Fits(bs[i], units, aligned, pageUnits) {
        var b := if best.None? || bs[i].size < bs[best.value].size then Some(i) else best;
        if bs[i].size != units { ScanIsMinimal(bs, i + 1, b, units, aligned, pageUnits); }
      } else {
        ScanIsMinimal(bs, i + 1, best, units, aligned, pageUnits);
      }
    }
  }

  ghost predicate IsMinimalFit(bs: seq<Block>, i: nat, units: nat, aligned: bool, pageUnits: nat)
    requires i < |bs| && pageUnits > 0
  {
    && Fits(bs[i], units, aligned, pageUnits)
    && forall k :: 0 <= k < |bs| && Fits(bs[k], units, aligned, pageUnits) ==> bs[i].size <= bs[k].size
  }

  /** Allocation fails exactly when no free block holds the units plus its own gap; otherwise it takes
      its block from one of minimal size among those that do, at that block's start or the page
      boundary after it. */
  lemma AllocIsBestFit(bs: seq<Block>, size: SizeT, aligned: bool, pageUnits: nat) returns (i: nat)
    requires pageUnits > 0 && size > 0
    ensures var r := Alloc(bs, size, aligned, pageUnits);
            var units := Units(size);
            && (r.offset.None? <==> forall k :: 0 <= k < |bs| ==> !Fits(bs[k], units, aligned, pageUnits))
            && (r.offset.None? ==> r.blocks == bs)
            && (r.offset.Some? ==>
                  && i < |bs| && IsMinimalFit(bs, i, units, aligned, pageUnits)
                  && r.offset.value == (bs[i].start + Extra(bs[i], aligned, pageUnits)) * MEMORY_ALIGN
                  && r.blocks == bs[..i] + Carve(bs[i], units, aligned, pageUnits) + bs[i + 1..])
  {
    var units := Units(size);
    ScanIsMinimal(bs, 0, None, units, aligned, pageUnits);
    var best := Scan(bs, 0, None, units, aligned, pageUnits);
    i := if best.Some? then best.value else 0;
  }

  /** The least number of units that hold the bytes, unless the rounding wraps. */
  lemma UnitsAreLeast(size: SizeT, n: nat)
    requires size + MEMORY_ALIGN - 1 < SIZE_LIMIT
    ensures MEMORY_ALIGN * n >= size <==> n >= Units(size)
  {
  }

  /** The gap ends at a page boundary, and at the first one from `start` on. */
  lemma GapIsLeast(start: nat, pageUnits: nat, a: nat)
    requires pageUnits > 0
    ensures (start + PageGap(start, pageUnits)) % pageUnits == 0
    ensures a >= start && a % pageUnits == 0 ==> start + PageGap(start, pageUnits) <= a
  {
    var q := 0 - (0 - start) / pageUnits;
    assert start + PageGap(start, pageUnits) == q * pageUnits;
    MultipleMod(q, pageUnits);
    if a >= start && a % pageUnits == 0 {
      var p := a / pageUnits;
      assert a == p * pageUnits && PageGap(start, pageUnits) < pageUnits;
      MulBound(p - q, pageUnits);
      assert (p - q) * pageUnits == a - (start + PageGap(start, pageUnits));
    }
  }

  /** The block has room for so many units from a on, at a page boundary if that is asked for. */
  ghost predicate Room(b: Block, units: nat, a: nat, aligned: bool, pageUnits: nat)
    requires pageUnits > 0
  {
    b.free && b.start <= a && a + units <= b.start + b.size && (aligned ==> a % pageUnits == 0)
  }

  lemma FitsIffRoom(b: Block, units: nat, aligned: bool, pageUnits: nat)
    requires pageUnits > 0
    ensures Fits(b, units, aligned, pageUnits) ==>
            Room(b, units, b.start + Extra(b, aligned, pageUnits), aligned, pageUnits)
    ensures forall a: nat :: Room(b, units, a, aligned, pageUnits) ==>
              Fits(b, units, aligned, pageUnits) && b.start + Extra(b, aligned, pageUnits) <= a
  {
    GapIsLeast(b.start, pageUnits, b.start);
    forall a: nat | Room(b, units, a, aligned, pageUnits)
      ensures Fits(b, units, aligned, pageUnits) && b.start + Extra(b, aligned, pageUnits) <= a
    {
      GapIsLeast(b.start, pageUnits, a);
    }
  }

  ghost predicate HasRoom(b: Block, units: nat, aligned: bool, pageUnits: nat)
    requires pageUnits > 0
  {
    exists a: nat :: Room(b, units, a, aligned, pageUnits)
  }

  /** A request, plain or page aligned, fails exactly when no free block has room for it anywhere; otherwise it is
      given the first such place in one of the smallest blocks that have any. */
  lemma AllocFindsRoom(bs: seq<Block>, size: SizeT, aligned: bool, pageUnits: nat)
    requires pageUnits > 0 && size > 0
    ensures var units, offset := Units(size), Alloc(bs, size, aligned, pageUnits).offset;
            && (offset.None? <==> forall b :: b in bs ==> !HasRoom(b, units, aligned, pageUnits))
            && (offset.Some? ==>
                  exists b, a: nat :: b in bs && Room(b, units, a, aligned, pageUnits)
                    && offset.value == a * MEMORY_ALIGN
                    && (forall a': nat :: Room(b, units, a', aligned, pageUnits) ==> a <= a')
                    && (forall c :: c in bs && HasRoom(c, units, aligned, pageUnits) ==> b.size <= c.size))
  {
    var units := Units(size);
    var i := AllocIsBestFit(bs, size, aligned, pageUnits);
    forall b | b in bs ensures HasRoom(b, units, aligned, pageUnits) <==> Fits(b, units, aligned, pageUnits) {
      FitsIffRoom(b, units, aligned, pageUnits);
      if Fits(b, units, aligned, pageUnits) {
        assert Room(b, units, b.start + Extra(b, aligned, pageUnits), aligned, pageUnits);
      }
    }
    if Alloc(bs, size, aligned, pageUnits).offset.Some? {
      FitsIffRoom(bs[i], units, aligned, pageUnits);
      assert bs[i] in bs && Room(bs[i], units, bs[i].start + Extra(bs[i], aligned, pageUnits), aligned, pageUnits);
      forall c | c in bs && HasRoom(c, units, aligned, pageUnits) ensures bs[i].size <= c.size {
        var k :| 0 <= k < |bs| && bs[k] == c;
        assert Fits(bs[k], units, aligned, pageUnits);
      }
    }
  }

  /** A page-aligned request is answered with a page-aligned offset. */
  lemma AlignedOffset(bs: seq<Block>, size: SizeT, pageUnits: nat)
    requires pageUnits > 0 && size > 0 && Alloc(bs, size, true, pageUnits).offset.Some?
    ensures Alloc(bs, size, true, pageUnits).offset.value % (MEMORY_ALIGN * pageUnits) == 0
  {
    var i := AllocIsBestFit(bs, size, true, pageUnits);
    GapReachesPage(bs[i].start, pageUnits);
  }

  lemma GapReachesPage(start: nat, pageUnits: nat)
    requires pageUnits > 0
    ensures (start + PageGap(start, pageUnits)) * MEMORY_ALIGN % (MEMORY_ALIGN * pageUnits) == 0
  {
    var q := 0 - (0 - start) / pageUnits;
    assert start + PageGap(start, pageUnits) == q * pageUnits;
    assert q * pageUnits * MEMORY_ALIGN == q * (MEMORY_ALIGN * pageUnits);
    MultipleMod(q, MEMORY_ALIGN * pageUnits);
  }

  // ---- Sequences of blocks -------------------------------------------------------------------------

  ghost function Extent(bs: seq<Block>): nat {
    if bs == [] then 0 else bs[0].size + Extent(bs[1..])
  }

  lemma {:induction false} TilesConcat(a: seq<Block>, b: seq<Block>, lo: nat, hi: nat)
    ensures Tiles(a + b, lo, hi) <==> Tiles(a, lo, lo + Extent(a)) && Tiles(b, lo + Extent(a), hi)
  {
    if a == [] {
      assert a + b == b;
    } else {
      TilesConcat(a[1..], b, lo + a[0].size, hi);
      assert (a + b)[1..] == a[1..] + b;
    }
  }

  lemma {:induction false} LiveUnitsConcat(a: seq<Block>, b: seq<Block>)
    ensures LiveUnits(a + b) == LiveUnits(a) + LiveUnits(b)
  {
    if a == [] {
      assert a + b == b;
    } else {
      LiveUnitsConcat(a[1..], b);
      assert (a + b)[1..] == a[1..] + b;
    }
  }

  /** Everything in a tiling lies inside it, and two blocks of a tiling are disjoint. */
  lemma {:induction false} TilesBounds(bs: seq<Block>, lo: nat, hi: nat)
    requires Tiles(bs, lo, hi)
    ensures lo + Extent(bs) == hi
    ensures forall i :: 0 <= i < |bs| ==> lo <= bs[i].start && bs[i].size > 0 && bs[i].start + bs[i].size <= hi
    ensures forall i, j :: 0 <= i < j < |bs| ==> bs[i].start + bs[i].size <= bs[j].start
  {
    if bs != [] {
      TilesBounds(bs[1..], lo + bs[0].size, hi);
      forall i | 0 <= i < |bs| ensures lo <= bs[i].start && bs[i].size > 0 && bs[i].start + bs[i].size <= hi {
        if i > 0 { assert bs[i] == bs[1..][i - 1]; }
      }
      forall i, j | 0 <= i < j < |bs| ensures bs[i].start + bs[i].size <= bs[j].start {
        assert bs[j] == bs[1..][j - 1];
        if i > 0 { assert bs[i] == bs[1..][i - 1]; }
      }
    }
  }

  lemma SingleBlock(b: Block)
    ensures Extent([b]) == b.size
    ensures LiveUnits([b]) == if b.free then 0 else b.size
    ensures b.size > 0 ==> Tiles([b], b.start, b.start + b.size)
  {
    assert [b][1..] == [];
  }

  /** Two different blocks of a tiling lie inside it and apart. */
  lemma BlocksApart(bs: seq<Block>, total: nat, a: Block, b: Block)
    requires Tiles(bs, 0, total) && a in bs && b in bs && a != b
    ensures a.start + a.size <= total && (a.start + a.size <= b.start || b.start + b.size <= a.start)
  {
    TilesBounds(bs, 0, total);
    var m :| 0 <= m < |bs| && bs[m] == a;
    var n :| 0 <= n < |bs| && bs[n] == b;
    assert m != n;
  }

  /** Exchanging the middle of a tiling for another tiling of the same range. */
  lemma SpliceTiles(a: seq<Block>, m: seq<Block>, m': seq<Block>, b: seq<Block>, total: nat, lo: nat)
    requires Tiles(a + m + b, 0, total) && lo == Extent(a)
    requires Tiles(m', lo, lo + Extent(m)) && Extent(m') == Extent(m)
    ensures Tiles(a + m' + b, 0, total)
  {
    assert a + m + b == a + (m + b);
    assert a + m' + b == a + (m' + b);
    TilesConcat(a, m + b, 0, total);
    TilesConcat(m, b, lo, total);
    TilesConcat(m', b, lo, total);
    TilesConcat(a, m' + b, 0, total);
  }

  lemma SpliceLiveUnits(a: seq<Block>, m: seq<Block>, b: seq<Block>)
    ensures LiveUnits(a + m + b) == LiveUnits(a) + LiveUnits(m) + LiveUnits(b)
  {
    LiveUnitsConcat(a + m, b);
    LiveUnitsConcat(a, m);
  }

  // ---- Allocation ----------------------------------------------------------------------------------

  function Gap(b: Block, extra: nat): seq<Block> {
    if extra > 0 then [Block(b.start, extra, true)] else []
  }

  function Rest(b: Block, units: nat, extra: nat): seq<Block>
    requires b.size >= units + extra
  {
    if b.size > units + extra then [Block(b.start + extra + units, b.size - units - extra, true)] else []
  }

  lemma GapTiles(b: Block, extra: nat)
    ensures Tiles(Gap(b, extra), b.start, b.start + extra) && Extent(Gap(b, extra)) == extra
            && LiveUnits(Gap(b, extra)) == 0
  {
    if extra > 0 { SingleBlock(Gap(b, extra)[0]); }
  }

  lemma RestTiles(b: Block, units: nat, extra: nat)
    requires b.size >= units + extra
    ensures Tiles(Rest(b, units, extra), b.start + extra + units, b.start + b.size)
    ensures LiveUnits(Rest(b, units, extra)) == 0
  {
    if b.size > units + extra { SingleBlock(Rest(b, units, extra)[0]); }
  }

  lemma ThreeTile(h: seq<Block>, m: Block, t: seq<Block>, lo: nat, hi: nat)
    requires Tiles(h, lo, m.start) && Extent(h) == m.start - lo && lo <= m.start && m.size > 0
    requires Tiles(t, m.start + m.size, hi)
    ensures Tiles(h + [m] + t, lo, hi)
  {
    SingleBlock(m);
    TilesConcat([m], t, m.start, hi);
    TilesConcat(h, [m] + t, lo, hi);
    assert h + [m] + t == h + ([m] + t);
  }

  lemma PiecesTile(b: Block, units: nat, extra: nat)
    requires units > 0 && b.size >= units + extra
    ensures Tiles(Pieces(b, units, extra), b.start, b.start + b.size) && Extent(Pieces(b, units, extra)) == b.size
    ensures LiveUnits(Pieces(b, units, extra)) == units
  {
    var h, m, t := Gap(b, extra), Block(b.start + extra, units, false), Rest(b, units, extra);
    GapTiles(b, extra);
    RestTiles(b, units, extra);
    assert Pieces(b, units, extra) == h + [m] + t;
    ThreeTile(h, m, t, b.start, b.start + b.size);
    TilesBounds(h + [m] + t, b.start, b.start + b.size);
    SpliceLiveUnits(h, [m], t);
    SingleBlock(m);
  }

  lemma PiecesLive(b: Block, units: nat, extra: nat)
    requires b.size >= units + extra
    ensures Coalesced(Pieces(b, units, extra)) && Pieces(b, units, extra) != []
    ensures Live(Pieces(b, units, extra)) == {Block(b.start + extra, units, false)}
  {
    var c, m := Pieces(b, units, extra), Block(b.start + extra, units, false);
    assert c[if extra > 0 then 1 else 0] == m;
  }

  lemma CarveKeepsTiles(bs: seq<Block>, total: nat, i: nat, c: seq<Block>)
    requires Tiles(bs, 0, total) && i < |bs| && Tiles(c, bs[i].start, bs[i].start + bs[i].size)
             && Extent(c) == bs[i].size
    ensures Tiles(bs[..i] + c + bs[i + 1..], 0, total)
  {
    SplitAt(bs, i);
    SplitRange(bs, i, i);
    TilesConcat(bs[..i], bs[i..], 0, total);
    SingleBlock(bs[i]);
    SpliceTiles(bs[..i], [bs[i]], c, bs[i + 1..], total, Extent(bs[..i]));
  }

  lemma CarveLiveUnits(bs: seq<Block>, i: nat, c: seq<Block>)
    requires i < |bs| && bs[i].free
    ensures LiveUnits(bs[..i] + c + bs[i + 1..]) == LiveUnits(bs) + LiveUnits(c)
  {
    SplitAt(bs, i);
    SingleBlock(bs[i]);
    SpliceLiveUnits(bs[..i], [bs[i]], bs[i + 1..]);
    SpliceLiveUnits(bs[..i], c, bs[i + 1..]);
  }

  lemma CarveKeepsHeap(bs: seq<Block>, total: nat, i: nat, units: nat, aligned: bool, pageUnits: nat)
    requires pageUnits > 0 && WellFormed(bs, total) && units > 0
    requires i < |bs| && Fits(bs[i], units, aligned, pageUnits)
    ensures var r := bs[..i] + Carve(bs[i], units, aligned, pageUnits) + bs[i + 1..];
            var b := Block(bs[i].start + Extra(bs[i], aligned, pageUnits), units, false);
            && WellFormed(r, total) && b !in bs && Live(r) == Live(bs) + {b}
            && LiveUnits(r) == LiveUnits(bs) + units
  {
    var extra := Extra(bs[i], aligned, pageUnits);
    var c := Pieces(bs[i], units, extra);
    PiecesTile(bs[i], units, extra);
    PiecesLive(bs[i], units, extra);
    CarveKeepsTiles(bs, total, i, c);
    CarveLiveUnits(bs, i, c);
    CarvedCoalesced(bs, i, c);
    LiveSplice(bs, i, c);
    FreshBlock(bs, total, i, Block(bs[i].start + extra, units, false));
  }

  lemma FreshBlock(bs: seq<Block>, total: nat, i: nat, b: Block)
    requires Tiles(bs, 0, total) && i < |bs| && bs[i].free && !b.free
    requires bs[i].start <= b.start < bs[i].start + bs[i].size && b.size > 0
    ensures b !in bs
  {
    if b in bs { BlocksApart(bs, total, b, bs[i]); }
  }

  /** An allocation adds one live block of the units asked for, changes no other, and keeps the tiling. */
  lemma AllocKeepsHeap(bs: seq<Block>, total: nat, size: SizeT, aligned: bool, pageUnits: nat)
    requires pageUnits > 0 && WellFormed(bs, total) && size > 0 && Units(size) > 0
    ensures var r := Alloc(bs, size, aligned, pageUnits);
            && WellFormed(r.blocks, total)
            && (r.offset.Some? ==>
                  var b := Block(r.offset.value / MEMORY_ALIGN, Units(size), false);
                  b !in bs && Live(r.blocks) == Live(bs) + {b}
                  && LiveUnits(r.blocks) == LiveUnits(bs) + Units(size))
  {
    var i := AllocIsBestFit(bs, size, aligned, pageUnits);
    var r, units := Alloc(bs, size, aligned, pageUnits), Units(size);
    if r.offset.Some? {
      CarveKeepsHeap(bs, total, i, units, aligned, pageUnits);
      OffsetUnits(r.offset.value, bs[i].start + Extra(bs[i], aligned, pageUnits));
    }
  }

  lemma OffsetUnits(offset: nat, start: nat)
    requires offset == start * MEMORY_ALIGN
    ensures offset / MEMORY_ALIGN == start
  {
  }

  lemma CarvedCoalesced(bs: seq<Block>, i: nat, c: seq<Block>)
    requires i < |bs| && Coalesced(bs) && bs[i].free && c != [] && Coalesced(c)
    ensures Coalesced(bs[..i] + c + bs[i + 1..])
  {
    var r := bs[..i] + c + bs[i + 1..];
    forall k | 0 <= k < |r| - 1 ensures !(r[k].free && r[k + 1].free) {
      if k < i - 1 {
        assert r[k] == bs[k] && r[k + 1] == bs[k + 1];
      } else if k == i - 1 {
        assert r[k] == bs[i - 1] && bs[i - 1 + 1].free;
      } else if k < i + |c| - 1 {
        assert r[k] == c[k - i] && r[k + 1] == c[k - i + 1];
      } else if k == i + |c| - 1 {
        assert r[k + 1] == bs[i + 1];
      } else {
        assert r[k] == bs[k - |c| + 1] && r[k + 1] == bs[k - |c| + 2];
      }
    }
  }

  lemma LiveSplice(bs: seq<Block>, i: nat, c: seq<Block>)
    requires i < |bs| && bs[i].free
    ensures Live(bs[..i] + c + bs[i + 1..]) == Live(bs) + Live(c)
  {
    assert bs == bs[..i] + [bs[i]] + bs[i + 1..];
    forall b ensures b in Live(bs[..i] + c + bs[i + 1..]) <==> b in Live(bs) + Live(c) {
      assert b in bs <==> b in bs[..i] || b == bs[i] || b in bs[i + 1..];
    }
  }

  // ---- Release -------------------------------------------------------------------------------------

  /** Block i released and joined with its free neighbours. */
  ghost function Joined(bs: seq<Block>, i: nat): seq<Block>
    requires i < |bs|
  {
    var lo := if i > 0 && bs[i - 1].free then i - 1 else i;
    var hi := if i + 1 < |bs| && bs[i + 1].free then i + 2 else i + 1;
    Cut(bs, lo, hi, Block(bs[lo].start, Extent(bs[lo..hi]), true))
  }

  lemma CoalesceBack(bs: seq<Block>, i: nat)
    requires Coalesced(bs) && 0 < i < |bs| && !bs[i].free && bs[i - 1].free
    ensures Coalesce(bs[i := bs[i].(free := true)], i) == Joined(bs, i)
  {
    var s := bs[i := bs[i].(free := true)];
    var r := MergeIntoPrevious(s, i);
    ExtentTwo(bs, i - 1);
    if i + 1 < |bs| && bs[i + 1].free {
      if i + 2 < |bs| { NotBothFree(bs, i + 1); }
      ExtentThree(bs, i - 1);
      var q := MergeIntoPrevious(r, i);
      assert Coalesce(r, i) == q;
      assert q == Joined(bs, i);
    } else {
      assert r == Joined(bs, i);
    }
  }

  lemma CoalesceForward(bs: seq<Block>, i: nat)
    requires Coalesced(bs) && i < |bs| && !bs[i].free && bs[i].size > 0 && (i > 0 ==> !bs[i - 1].free)
    ensures Coalesce(bs[i := bs[i].(free := true)], i) == Joined(bs, i)
  {
    var s := bs[i := bs[i].(free := true)];
    if i + 1 < |bs| && bs[i + 1].free {
      if i + 2 < |bs| { NotBothFree(bs, i + 1); }
      ExtentTwo(bs, i);
      var q := MergeIntoPrevious(s, i + 1);
      assert Coalesce(s, i + 1) == q;
      assert q == Joined(bs, i);
    } else {
      SingleBlock(bs[i]);
      assert bs[i..i + 1] == [bs[i]];
      assert s == Joined(bs, i);
    }
  }

  lemma CoalesceIsJoined(bs: seq<Block>, total: nat, i: nat)
    requires WellFormed(bs, total) && i < |bs| && !bs[i].free
    ensures Coalesce(bs[i := bs[i].(free := true)], i) == Joined(bs, i)
  {
    TilesBounds(bs, 0, total);
    if i > 0 && bs[i - 1].free { CoalesceBack(bs, i); } else { CoalesceForward(bs, i); }
  }

  lemma ExtentTwo(bs: seq<Block>, i: nat)
    requires i + 1 < |bs|
    ensures Extent(bs[i..i + 2]) == bs[i].size + bs[i + 1].size
  {
    SingleBlock(bs[i + 1]);
    assert bs[i..i + 2][1..] == [bs[i + 1]];
  }

  lemma ExtentThree(bs: seq<Block>, i: nat)
    requires i + 2 < |bs|
    ensures Extent(bs[i..i + 3]) == bs[i].size + bs[i + 1].size + bs[i + 2].size
  {
    ExtentTwo(bs, i + 1);
    assert bs[i..i + 3][1..] == bs[i + 1..i + 3];
  }

  lemma CutTiles(bs: seq<Block>, total: nat, lo: nat, hi: nat)
    requires Tiles(bs, 0, total) && lo < hi <= |bs|
    ensures Tiles(Cut(bs, lo, hi, Block(bs[lo].start, Extent(bs[lo..hi]), true)), 0, total)
  {
    var a, m, b := bs[..lo], bs[lo..hi], bs[hi..];
    var joined := Block(bs[lo].start, Extent(m), true);
    assert bs == a + m + b && a + (m + b) == bs;
    TilesConcat(a, m + b, 0, total);
    TilesConcat(m, b, Extent(a), total);
    assert m[0] == bs[lo];
    SingleBlock(joined);
    SpliceTiles(a, m, [joined], b, total, Extent(a));
  }

  lemma ReplacedLiveUnits(bs: seq<Block>, r: seq<Block>, a: seq<Block>, m: seq<Block>, b: seq<Block>, joined: Block)
    requires joined.free && bs == a + m + b && r == a + [joined] + b
    ensures LiveUnits(r) == LiveUnits(bs) - LiveUnits(m)
  {
    SingleBlock(joined);
    SpliceLiveUnits(a, m, b);
    SpliceLiveUnits(a, [joined], b);
  }

  lemma JoinedLiveUnits(bs: seq<Block>, i: nat)
    requires i < |bs| && !bs[i].free
    ensures LiveUnits(Joined(bs, i)) == LiveUnits(bs) - bs[i].size
  {
    var lo := if i > 0 && bs[i - 1].free then i - 1 else i;
    var hi := if i + 1 < |bs| && bs[i + 1].free then i + 2 else i + 1;
    var joined := Block(bs[lo].start, Extent(bs[lo..hi]), true);
    MiddleLiveUnits(bs, lo, hi, i);
    SplitRange(bs, lo, hi);
    ReplacedLiveUnits(bs, Joined(bs, i), bs[..lo], bs[lo..hi], bs[hi..], joined);
  }

  /** Releasing a live block takes it, and nothing else, out of the live blocks, and keeps the tiling. */
  lemma JoinKeepsHeap(bs: seq<Block>, total: nat, i: nat)
    requires WellFormed(bs, total) && i < |bs| && !bs[i].free
    ensures WellFormed(Joined(bs, i), total)
    ensures Live(Joined(bs, i)) == Live(bs) - {bs[i]}
    ensures LiveUnits(Joined(bs, i)) == LiveUnits(bs) - bs[i].size
  {
    var lo := if i > 0 && bs[i - 1].free then i - 1 else i;
    var hi := if i + 1 < |bs| && bs[i + 1].free then i + 2 else i + 1;
    CutTiles(bs, total, lo, hi);
    JoinedCoalesced(bs, i);
    JoinedLiveUnits(bs, i);
    JoinedLive(bs, total, i);
  }

  lemma JoinedLive(bs: seq<Block>, total: nat, i: nat)
    requires Tiles(bs, 0, total) && i < |bs| && !bs[i].free
    ensures Live(Joined(bs, i)) == Live(bs) - {bs[i]}
  {
    var lo := if i > 0 && bs[i - 1].free then i - 1 else i;
    var hi := if i + 1 < |bs| && bs[i + 1].free then i + 2 else i + 1;
    AllDistinct(bs, total);
    LiveJoined(bs, lo, hi, i, Block(bs[lo].start, Extent(bs[lo..hi]), true));
  }

  lemma AllDistinct(bs: seq<Block>, total: nat)
    requires Tiles(bs, 0, total)
    ensures forall i, j :: 0 <= i < |bs| && 0 <= j < |bs| && i != j ==> bs[i] != bs[j]
  {
    TilesBounds(bs, 0, total);
  }

  lemma JoinedCoalesced(bs: seq<Block>, i: nat)
    requires Coalesced(bs) && i < |bs| && !bs[i].free
    ensures Coalesced(Joined(bs, i))
  {
    var lo := if i > 0 && bs[i - 1].free then i - 1 else i;
    var hi := if i + 1 < |bs| && bs[i + 1].free then i + 2 else i + 1;
    var r := Joined(bs, i);
    forall k | 0 <= k < |r| - 1 ensures !(r[k].free && r[k + 1].free) {
      if k < lo - 1 {
        assert r[k] == bs[k] && r[k + 1] == bs[k + 1];
      } else if k == lo - 1 {
        NotBothFree(bs, lo - 1);
        assert r[k] == bs[lo - 1];
      } else if k == lo {
        NotBothFree(bs, hi - 1);
        assert r[k + 1] == bs[hi];
      } else {
        assert r[k] == bs[k - lo - 1 + hi] && r[k + 1] == bs[k - lo - 1 + hi + 1];
      }
    }
  }

  lemma MiddleLiveUnits(bs: seq<Block>, lo: nat, hi: nat, i: nat)
    requires lo <= i < hi <= |bs| && i <= lo + 1 && hi <= i + 2 && !bs[i].free
    requires lo < i ==> bs[lo].free
    requires i + 1 < hi ==> bs[i + 1].free
    ensures LiveUnits(bs[lo..hi]) == bs[i].size
  {
    var m := bs[lo..hi];
    assert m == bs[lo..i] + [bs[i]] + bs[i + 1..hi];
    SpliceLiveUnits(bs[lo..i], [bs[i]], bs[i + 1..hi]);
    SingleBlock(bs[i]);
    if lo < i { assert bs[lo..i] == [bs[lo]]; SingleBlock(bs[lo]); }
    if i + 1 < hi { assert bs[i + 1..hi] == [bs[i + 1]]; SingleBlock(bs[i + 1]); }
  }

  lemma LiveJoined(bs: seq<Block>, lo: nat, hi: nat, i: nat, joined: Block)
    requires lo <= i < hi <= |bs| && !bs[i].free && joined.free
    requires forall k :: lo <= k < hi && k != i ==> bs[k].free
    requires forall k :: 0 <= k < |bs| && k != i ==> bs[k] != bs[i]
    ensures Live(Cut(bs, lo, hi, joined)) == Live(bs) - {bs[i]}
  {
    var r := Cut(bs, lo, hi, joined);
    forall b ensures b in Live(r) <==> b in Live(bs) - {bs[i]} {
      if b in Live(r) {
        assert b in bs[..lo] || b in bs[hi..];
        var k :| 0 <= k < |bs| && (k < lo || k >= hi) && bs[k] == b;
      }
      if b in Live(bs) - {bs[i]} {
        var k :| 0 <= k < |bs| && bs[k] == b;
        assert k < lo || k >= hi;
        assert b in bs[..lo] || b in bs[hi..];
      }
    }
  }

  /** Releasing a block that is free already changes nothing: it has no free neighbour to be joined with. */
  lemma CoalesceAtFree(bs: seq<Block>, total: nat, i: nat)
    requires WellFormed(bs, total) && i < |bs| && bs[i].free
    ensures Coalesce(bs[i := bs[i].(free := true)], i) == bs
  {
    TilesBounds(bs, 0, total);
    assert bs[i := bs[i].(free := true)] == bs;
    if i > 0 { NotBothFree(bs, i - 1); }
    if i + 1 < |bs| { NotBothFree(bs, i); }
  }

  /** A release fails exactly when no block starts at the offset. Otherwise it keeps the heap well formed,
      takes the live block that starts there, if there is one, out of the live blocks, and frees exactly its
      units; at a free block it changes nothing. */
  lemma DeallocReleases(bs: seq<Block>, total: nat, offset: nat)
    requires WellFormed(bs, total)
    ensures Dealloc(bs, offset).None? <==> forall b :: b in bs ==> b.start != offset / MEMORY_ALIGN
    ensures forall b :: b in bs && b.start == offset / MEMORY_ALIGN ==>
              var r := Dealloc(bs, offset).value;
              && WellFormed(r, total)
              && (b.free ==> r == bs)
              && (!b.free ==> Live(r) == Live(bs) - {b} && LiveUnits(r) == LiveUnits(bs) - b.size)
  {
    var found := Find(bs, 0, offset / MEMORY_ALIGN);
    if found.Some? {
      var i := found.value;
      StartIsUnique(bs, total, i);
      if bs[i].free {
        CoalesceAtFree(bs, total, i);
      } else {
        CoalesceIsJoined(bs, total, i);
        JoinKeepsHeap(bs, total, i);
      }
    }
  }

  lemma StartIsUnique(bs: seq<Block>, total: nat, i: nat)
    requires Tiles(bs, 0, total) && i < |bs|
    ensures forall b :: b in bs && b.start == bs[i].start ==> b == bs[i]
  {
    TilesBounds(bs, 0, total);
    forall b | b in bs && b.start == bs[i].start ensures b == bs[i] {
      var k :| 0 <= k < |bs| && bs[k] == b;
      if i < k { assert false; }
      if k < i { assert false; }
    }
  }

  /** With no live block left, the heap is one free block again. */
  lemma NothingLiveMeansOneBlock(bs: seq<Block>, total: nat)
    requires WellFormed(bs, total) && Live(bs) == {} && total > 0
    ensures bs == [Block(0, total, true)]
  {
    TilesBounds(bs, 0, total);
    assert bs != [];
    if |bs| >= 2 { NotBothFree(bs, 0); }
    forall k | 0 <= k < |bs| ensures bs[k].free {
      assert bs[k] in bs && bs[k] !in Live(bs);
    }
    SingleBlock(bs[0]);
  }

  // ---- Whole runs ------------------------------------------------------------------------------------

  /** A call of the allocator; the offset of a release is the caller's and may be any. */
  datatype Call = AllocCall(size: SizeT, aligned: bool) | DeallocCall(offset: nat)

  function Perform(bs: seq<Block>, c: Call, pageUnits: nat): seq<Block>
    requires pageUnits > 0
  {
    match c
    case AllocCall(size, aligned) => Alloc(bs, size, aligned, pageUnits).blocks
    case DeallocCall(offset) => var r := Dealloc(bs, offset); if r.Some? then r.value else bs
  }

  function PerformAll(bs: seq<Block>, calls: seq<Call>, pageUnits: nat): seq<Block>
    requires pageUnits > 0
    decreases |calls|
  {
    if calls == [] then bs else PerformAll(Perform(bs, calls[0], pageUnits), calls[1..], pageUnits)
  }

  predicate Wraps(size: SizeT) {
    size + MEMORY_ALIGN - 1 >= SIZE_LIMIT
  }

  /** The rounding of the request wraps to no units at all, and some free block reaches its alignment. */
  ghost predicate TakesNothing(bs: seq<Block>, c: Call, pageUnits: nat)
    requires pageUnits > 0
  {
    c.AllocCall? && Wraps(c.size) && exists k :: 0 <= k < |bs| && Fits(bs[k], 0, c.aligned, pageUnits)
  }

  lemma WrappedUnits(size: SizeT)
    ensures size > 0 ==> (Units(size) == 0 <==> Wraps(size))
  {
  }

  /** A request, plain or aligned, leaves the heap a tiling exactly when it does not take an empty block. */
  lemma AllocKeepsTilingIff(bs: seq<Block>, total: nat, size: SizeT, aligned: bool, pageUnits: nat)
    requires pageUnits > 0 && WellFormed(bs, total)
    ensures WellFormed(Alloc(bs, size, aligned, pageUnits).blocks, total)
       <==> !TakesNothing(bs, AllocCall(size, aligned), pageUnits)
  {
    var r := Alloc(bs, size, aligned, pageUnits);
    WrappedUnits(size);
    if size > 0 {
      if Units(size) > 0 {
        AllocKeepsHeap(bs, total, size, aligned, pageUnits);
      } else {
        var i := AllocIsBestFit(bs, size, aligned, pageUnits);
        if r.offset.Some? {
          var gap := Gap(bs[i], if bs[i].size > 0 then Extra(bs[i], aligned, pageUnits) else 0);
          EmptyPiece(bs, i, Carve(bs[i], 0, aligned, pageUnits), |gap|, total);
        }
      }
    }
  }

  lemma EmptyPiece(bs: seq<Block>, i: nat, c: seq<Block>, k: nat, total: nat)
    requires i < |bs| && k < |c| && c[k].size == 0
    ensures !Tiles(bs[..i] + c + bs[i + 1..], 0, total)
  {
    var r := bs[..i] + c + bs[i + 1..];
    assert r[i + k] == c[k];
    if Tiles(r, 0, total) { TilesBounds(r, 0, total); }
  }

  lemma PerformKeepsIff(bs: seq<Block>, total: nat, c: Call, pageUnits: nat)
    requires pageUnits > 0 && WellFormed(bs, total)
    ensures WellFormed(Perform(bs, c, pageUnits), total) <==> !TakesNothing(bs, c, pageUnits)
  {
    match c
    case AllocCall(size, aligned) => AllocKeepsTilingIff(bs, total, size, aligned, pageUnits);
    case DeallocCall(offset) => DeallocReleases(bs, total, offset);
  }

  ghost predicate NoneTakesNothing(bs: seq<Block>, calls: seq<Call>, pageUnits: nat)
    requires pageUnits > 0
    decreases |calls|
  {
    calls != [] ==>
      !TakesNothing(bs, calls[0], pageUnits)
          && NoneTakesNothing(Perform(bs, calls[0], pageUnits), calls[1..], pageUnits)
  }

  /** Over any run of plain and page-aligned requests and of releases of any offsets at all, the heap is a
      tiling without neighbouring free blocks after every call, exactly when no request whose rounding wraps
      finds a block. */
  lemma {:induction false} EveryRunTiles(bs: seq<Block>, total: nat, calls: seq<Call>, pageUnits: nat)
    requires pageUnits > 0 && WellFormed(bs, total)
    ensures (forall n :: 0 <= n <= |calls| ==> WellFormed(PerformAll(bs, calls[..n], pageUnits), total))
       <==> NoneTakesNothing(bs, calls, pageUnits)
    decreases |calls|
  {
    assert PerformAll(bs, calls[..0], pageUnits) == bs;
    if calls != [] {
      var next, rest := Perform(bs, calls[0], pageUnits), calls[1..];
      PerformKeepsIff(bs, total, calls[0], pageUnits);
      forall n | 0 < n <= |calls|
        ensures PerformAll(bs, calls[..n], pageUnits) == PerformAll(next, rest[..n - 1], pageUnits)
      {
        assert calls[..n][1..] == rest[..n - 1];
      }
      assert PerformAll(next, rest[..0], pageUnits) == next;
      if WellFormed(next, total) {
        EveryRunTiles(next, total, rest, pageUnits);
        assert forall n :: 0 <= n <= |rest| ==>
          PerformAll(next, rest[..n], pageUnits) == PerformAll(bs, calls[..n + 1], pageUnits);
      } else {
        assert PerformAll(bs, calls[..1], pageUnits) == next;
      }
    }
  }

  /** So every run keeps the tiling as long as no size is within 31 bytes of the largest one. */
  lemma {:induction false} SaneRunTiles(bs: seq<Block>, total: nat, calls: seq<Call>, pageUnits: nat)
    requires pageUnits > 0 && WellFormed(bs, total)
    requires forall c :: c in calls && c.AllocCall? ==> !Wraps(c.size)
    ensures WellFormed(PerformAll(bs, calls, pageUnits), total)
    decreases |calls|
  {
    if calls != [] {
      PerformKeepsIff(bs, total, calls[0], pageUnits);
      SaneRunTiles(Perform(bs, calls[0], pageUnits), total, calls[1..], pageUnits);
    }
  }
}
