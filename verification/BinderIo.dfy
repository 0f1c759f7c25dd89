/** The service manager's binder buffers: a bounded cursor over data bytes, with a table beside it of the
    positions at which objects were written. Sizes are those of a 64-bit build. */
module BinderIo {
  import opened Basics
  import opened LittleEndian

  const MAX_BIO_SIZE := 0x4000_0000
  const OBJECT_SIZE := 24
  const OBJECT_FLAGS := 0x17F
  const TYPE_BINDER := 0x7362_2A85
  const TYPE_HANDLE := 0x7368_2A85
  const NO_STRING := 0xFFFF_FFFF

  /** The data bytes with the cursor and the room left; the offsets table with the entries used and those
      left. */
  datatype Bio = Bio(mem: seq<Byte>, pos: nat, avail: nat, table: seq<nat>, offs: nat, offsAvail: nat, overflow: bool)

  /** What a message is made of. `NoString` is a null string pointer; a C string has no zero unit inside. */
  datatype Item = Word(n: nat) | Text(units: seq<Unit>) | NoString | Handle(handle: nat) | Object(pointer: nat)

  datatype Value = Number(n: nat) | String(length: nat, units: Option<seq<Unit>>)

  predicate WF(b: Bio) {
    && b.pos + b.avail <= |b.mem| && b.offs + b.offsAvail <= |b.table| && b.pos % 4 == 0
  }

  function Align4(n: nat): (r: nat)
    ensures n <= r < n + 4 && r % 4 == 0
  {
    (n + 3) / 4 * 4
  }

  lemma AlignedSum(p: nat, n: nat)
    requires p % 4 == 0 && n % 4 == 0
    ensures (p + n) % 4 == 0
  {
  }

  /** bio_init over `maxData` bytes, of which the table takes eight an entry. */
  function Start(mem: seq<Byte>, table: seq<nat>): Bio {
    Bio(mem, 0, |mem|, table, 0, |table|, false)
  }

  const FAILED: Bio := Bio([], 0, 0, [], 0, 0, true)

  function Overflowed(b: Bio): Bio {
    b.(overflow := true)
  }

  function Advance(b: Bio, size: nat): Bio
    requires Align4(size) <= b.avail
  {
    b.(pos := b.pos + Align4(size), avail := b.avail - Align4(size))
  }

  function PutBytes(b: Bio, bs: seq<Byte>): Bio
    requires WF(b)
  {
    if Align4(|bs|) > b.avail then Overflowed(b)
    else Advance(b.(mem := Overlay(b.mem, b.pos, bs)), |bs|)
  }

  function PutWord(b: Bio, n: nat): Bio
    requires WF(b)
  {
    PutBytes(b, Le(n, 4))
  }

  /** The object's fields; four bytes stay as they were when the identifier is only four wide. */
  function Filled(mem: seq<Byte>, pos: nat, kind: nat, id: nat, width: nat): (r: seq<Byte>)
    requires pos + OBJECT_SIZE <= |mem| && width <= 8
    ensures |r| == |mem|
  {
    Overlay(Overlay(Overlay(mem, pos, Le(kind, 4) + Le(OBJECT_FLAGS, 4)), pos + 8, Le(id, width)), pos + 16, Le(0, 8))
  }

  /** bio_alloc_obj and the fields. Without a free table entry the space is used up all the same. */
  function PutListed(b: Bio, kind: nat, id: nat, width: nat): Bio
    requires WF(b) && width <= 8
  {
    if OBJECT_SIZE > b.avail then Overflowed(b)
    else if b.offsAvail == 0 then Overflowed(Advance(b, OBJECT_SIZE))
    else Advance(b.(mem := Filled(b.mem, b.pos, kind, id, width), table := b.table[b.offs := b.pos],
                    offs := b.offs + 1, offsAvail := b.offsAvail - 1), OBJECT_SIZE)
  }

  /** A string's units, little-endian, and its terminator. */
  function TextBytes(units: seq<Unit>): (bs: seq<Byte>)
    ensures |bs| == 2 * |units| + 2
  {
    seq(2 * |units| + 2, i requires 0 <= i < 2 * |units| + 2 =>
      if i >= 2 * |units| then 0 else if i % 2 == 0 then units[i / 2] % 256 else units[i / 2] / 256)
  }

  predicate TooLong(units: seq<Unit>) {
    |units| >= MAX_BIO_SIZE / 2
  }

  function PutItem(b: Bio, item: Item): (r: Bio)
    requires WF(b)
  {
    match item
    case Word(n) => PutWord(b, n)
    case NoString => PutWord(b, NO_STRING)
    case Text(units) => if TooLong(units) then PutWord(b, NO_STRING) else PutText(b, units)
    case Object(p) => PutListed(b, TYPE_BINDER, p, 8)
    case Handle(h) => if h != 0 then PutListed(b, TYPE_HANDLE, h, 4) else PutUnlisted(b, h)
  }

  /** The length word and then the units; the second may overflow when the first does not. */
  function PutText(b: Bio, units: seq<Unit>): Bio
    requires WF(b)
  {
    PutWordKeepsWF(b, |units|);
    PutBytes(PutWord(b, |units|), TextBytes(units))
  }

  /** The reference to handle 0 takes no table entry. */
  function PutUnlisted(b: Bio, h: nat): Bio
    requires WF(b)
  {
    if OBJECT_SIZE > b.avail then Overflowed(b)
    else Advance(b.(mem := Filled(b.mem, b.pos, TYPE_HANDLE, h, 4)), OBJECT_SIZE)
  }

  lemma PutWordKeepsWF(b: Bio, n: nat)
    requires WF(b)
    ensures WF(PutWord(b, n))
  {
  }

  /** What every put does, overflowing or not: it works inside the buffer, leaves what is before the cursor
      alone, trades space for position, and lists no position before the cursor. */
  ghost predicate Grew(a: Bio, b: Bio) {
    && |a.mem| == |b.mem| && |a.table| == |b.table|
    && a.pos <= b.pos && a.pos + a.avail == b.pos + b.avail
    && a.offs <= b.offs && a.offs + a.offsAvail == b.offs + b.offsAvail
    && (a.overflow ==> b.overflow)
    && (forall k :: 0 <= k < a.pos && k < |a.mem| ==> b.mem[k] == a.mem[k])
    && (forall k :: 0 <= k < a.offs && k < |a.table| ==> b.table[k] == a.table[k])
    && (forall k :: a.offs <= k < b.offs && k < |b.table| ==> a.pos <= b.table[k] && b.table[k] + OBJECT_SIZE <= b.pos)
  }

  lemma PutBytesGrows(b: Bio, bs: seq<Byte>)
    requires WF(b)
    ensures WF(PutBytes(b, bs)) && Grew(b, PutBytes(b, bs))
  {
  }

  lemma PutListedGrows(b: Bio, kind: nat, id: nat, width: nat)
    requires WF(b) && width <= 8
    ensures WF(PutListed(b, kind, id, width)) && Grew(b, PutListed(b, kind, id, width))
  {
    if OBJECT_SIZE <= b.avail {
      assert Align4(OBJECT_SIZE) == OBJECT_SIZE;
      FilledBefore(b.mem, b.pos, kind, id, width, Filled(b.mem, b.pos, kind, id, width));
    }
  }

  lemma FilledBefore(mem: seq<Byte>, pos: nat, kind: nat, id: nat, width: nat, filled: seq<Byte>)
    requires pos + OBJECT_SIZE <= |mem| && width <= 8 && filled == Filled(mem, pos, kind, id, width)
    ensures forall k :: 0 <= k < pos ==> filled[k] == mem[k]
  {
  }

  lemma PutItemGrows(b: Bio, item: Item)
    requires WF(b)
    ensures WF(PutItem(b, item)) && Grew(b, PutItem(b, item))
  {
    match item
    case Word(n) => PutBytesGrows(b, Le(n, 4));
    case NoString => PutBytesGrows(b, Le(NO_STRING, 4));
    case Text(units) =>
      if TooLong(units) {
        PutBytesGrows(b, Le(NO_STRING, 4));
      } else {
        PutBytesGrows(b, Le(|units|, 4));
        PutBytesGrows(PutWord(b, |units|), TextBytes(units));
      }
    case Object(p) => PutListedGrows(b, TYPE_BINDER, p, 8);
    case Handle(h) => if h != 0 { PutListedGrows(b, TYPE_HANDLE, h, 4); } else { UnlistedGrows(b, h); }
  }

  lemma UnlistedGrows(b: Bio, h: nat)
    requires WF(b)
    ensures WF(PutUnlisted(b, h)) && Grew(b, PutUnlisted(b, h))
  {
    if OBJECT_SIZE <= b.avail {
      assert Align4(OBJECT_SIZE) == OBJECT_SIZE;
      FilledBefore(b.mem, b.pos, TYPE_HANDLE, h, 4, Filled(b.mem, b.pos, TYPE_HANDLE, h, 4));
    }
  }

  function PutAll(b: Bio, items: seq<Item>, i: nat := 0): (r: Bio)
    requires WF(b) && i <= |items|
    decreases |items| - i
  {
    if i == |items| then b else PutItemGrows(b, items[i]); PutAll(PutItem(b, items[i]), items, i + 1)
  }

  /** Over any sequence of puts, overflow or not. */
  lemma {:induction false} PutsStayInside(b: Bio, items: seq<Item>, i: nat)
    requires WF(b) && i <= |items|
    ensures WF(PutAll(b, items, i)) && Grew(b, PutAll(b, items, i))
    decreases |items| - i
  {
    if i < |items| {
      PutItemGrows(b, items[i]);
      PutsStayInside(PutItem(b, items[i]), items, i + 1);
      GrewTwice(b, PutItem(b, items[i]), PutAll(b, items, i));
    }
  }

  lemma GrewTwice(a: Bio, b: Bio, c: Bio)
    requires Grew(a, b) && Grew(b, c) && WF(a) && WF(b) && WF(c)
    ensures Grew(a, c)
  {
  }

  function Size(item: Item): nat {
    match item
    case Word(_) => 4
    case NoString => 4
    case Text(units) => if TooLong(units) then 4 else 4 + Align4(2 * |units| + 2)
    case Object(_) => OBJECT_SIZE
    case Handle(_) => OBJECT_SIZE
  }

  function Entries(item: Item): nat {
    if item.Object? || (item.Handle? && item.handle != 0) then 1 else 0
  }

  function TotalSize(items: seq<Item>, i: nat): nat
    requires i <= |items|
    decreases |items| - i
  {
    if i == |items| then 0 else Size(items[i]) + TotalSize(items, i + 1)
  }

  function TotalEntries(items: seq<Item>, i: nat): nat
    requires i <= |items|
    decreases |items| - i
  {
    if i == |items| then 0 else Entries(items[i]) + TotalEntries(items, i + 1)
  }

  lemma PutItemFits(b: Bio, item: Item)
    requires WF(b)
    ensures FitsAs(b, PutItem(b, item), Size(item), Entries(item))
  {
    match item
    case Text(units) => TextItemFits(b, units);
    case Word(n) => BytesFit(b, Le(n, 4), 4);
    case NoString => BytesFit(b, Le(NO_STRING, 4), 4);
    case Object(p) => ListedFits(b, TYPE_BINDER, p, 8);
    case Handle(h) => if h != 0 { ListedFits(b, TYPE_HANDLE, h, 4); } else { UnlistedFits(b, h); }
  }

  ghost predicate FitsAs(b: Bio, r: Bio, size: nat, entries: nat) {
    && (!r.overflow <==> !b.overflow && size <= b.avail && entries <= b.offsAvail)
    && (!r.overflow ==> r.avail == b.avail - size && r.offsAvail == b.offsAvail - entries && r.pos == b.pos + size)
  }

  lemma TextItemFits(b: Bio, units: seq<Unit>)
    requires WF(b)
    ensures FitsAs(b, PutItem(b, Text(units)), Size(Text(units)), 0)
  {
    if TooLong(units) { BytesFit(b, Le(NO_STRING, 4), 4); } else { PutTextFits(b, units, PutWord(b, |units|)); }
  }

  lemma UnlistedFits(b: Bio, h: nat)
    requires WF(b)
    ensures FitsAs(b, PutUnlisted(b, h), OBJECT_SIZE, 0)
  {
    assert Align4(OBJECT_SIZE) == OBJECT_SIZE;
  }

  lemma ListedFits(b: Bio, kind: nat, id: nat, width: nat)
    requires WF(b) && width <= 8
    ensures var r := PutListed(b, kind, id, width);
            && (!r.overflow <==> !b.overflow && OBJECT_SIZE <= b.avail && 1 <= b.offsAvail)
            && (!r.overflow ==> r.avail == b.avail - OBJECT_SIZE && r.offsAvail == b.offsAvail - 1
                                && r.pos == b.pos + OBJECT_SIZE)
  {
    assert Align4(OBJECT_SIZE) == OBJECT_SIZE;
  }

  lemma PutTextFits(b: Bio, units: seq<Unit>, c: Bio)
    requires WF(b) && c == PutWord(b, |units|)
    ensures var r := PutText(b, units);
            var size := 4 + Align4(2 * |units| + 2);
            && (!r.overflow <==> !b.overflow && size <= b.avail)
            && (!r.overflow ==> r.avail == b.avail - size && r.offsAvail == b.offsAvail && r.pos == b.pos + size)
  {
    PutBytesGrows(b, Le(|units|, 4));
    BytesFit(b, Le(|units|, 4), 4);
    BytesFit(c, TextBytes(units), Align4(2 * |units| + 2));
  }

  lemma BytesFit(b: Bio, bs: seq<Byte>, size: nat)
    requires WF(b) && size == Align4(|bs|)
    ensures var r := PutBytes(b, bs);
            && (!r.overflow <==> !b.overflow && size <= b.avail)
            && r.offsAvail == b.offsAvail
            && (size <= b.avail ==> r.avail == b.avail - size && r.pos == b.pos + size)
  {
  }

  /** A message goes in without overflow exactly when its sizes add up to no more than the room there is and
      its objects are no more than the table's free entries. */
  lemma {:induction false} FitsExactly(b: Bio, items: seq<Item>, i: nat)
    requires WF(b) && i <= |items|
    ensures !PutAll(b, items, i).overflow <==>
              !b.overflow && TotalSize(items, i) <= b.avail && TotalEntries(items, i) <= b.offsAvail
    decreases |items| - i
  {
    if i < |items| {
      var c := PutItem(b, items[i]);
      PutItemGrows(b, items[i]);
      PutItemFits(b, items[i]);
      FitsExactly(c, items, i + 1);
    }
  }

  /** The transaction made of what was written, as its receiver sees it. */
  function Received(b: Bio): Bio
    requires WF(b)
  {
    Bio(b.mem[..b.pos], 0, b.pos, b.table[..b.offs], 0, b.offs, false)
  }

  /** bio_get, for its effect on the cursor: a failing get gives up the rest of the message. */
  function Take(b: Bio, size: nat): Bio {
    if b.avail < Align4(size) then b.(avail := 0, overflow := true) else Advance(b, size)
  }

  function GetWord(b: Bio): (Bio, nat)
    requires WF(b)
  {
    (Take(b, 4), if b.avail < 4 then 0 else FromLe(b.mem[b.pos..b.pos + 4]))
  }

  function UnitsAt(mem: seq<Byte>, pos: nat, count: nat): (us: seq<Unit>)
    requires pos + 2 * count <= |mem|
    ensures |us| == count
  {
    seq(count, k requires 0 <= k < count => mem[pos + 2 * k] as int + 256 * mem[pos + 2 * k + 1] as int)
  }

  /** The length, and the units with their terminator if they are there. */
  function GetText(b: Bio): (Bio, nat, Option<seq<Unit>>)
    requires WF(b)
  {
    var (c, length) := GetWord(b);
    (Take(c, 2 * length + 2), length,
     if c.avail < Align4(2 * length + 2) then None else Some(UnitsAt(c.mem, c.pos, length + 1)))
  }

  predicate Listed(b: Bio)
    requires WF(b)
  {
    exists k :: b.offs <= k < b.offs + b.offsAvail && b.table[k] == b.pos
  }

  function HandleAt(mem: seq<Byte>, pos: nat): nat
    requires pos + OBJECT_SIZE <= |mem|
  {
    if FromLe(mem[pos..pos + 4]) == TYPE_HANDLE then FromLe(mem[pos + 8..pos + 12]) else 0
  }

  function GetRef(b: Bio): (Bio, nat)
    requires WF(b)
  {
    if !Listed(b) then (b.(avail := 0, overflow := true), 0)
    else (Take(b, OBJECT_SIZE), if b.avail < OBJECT_SIZE then 0 else HandleAt(b.mem, b.pos))
  }

  /** The get that goes with an item. */
  function GetItem(b: Bio, item: Item): (Bio, Value)
    requires WF(b)
  {
    match item
    case Word(_) => var (c, n) := GetWord(b); (c, Number(n))
    case Text(_) => var (c, length, units) := GetText(b); (c, String(length, units))
    case NoString => var (c, length, units) := GetText(b); (c, String(length, units))
    case Handle(_) => var (c, n) := GetRef(b); (c, Number(n))
    case Object(_) => var (c, n) := GetRef(b); (c, Number(n))
  }

  lemma GetKeepsWF(b: Bio, item: Item)
    requires WF(b)
    ensures WF(GetItem(b, item).0) && (b.overflow ==> GetItem(b, item).0.overflow)
  {
    if item.Handle? || item.Object? {
      TakeKeepsWF(b, OBJECT_SIZE);
    } else {
      TakeKeepsWF(b, 4);
      if item.Text? || item.NoString? {
        TakeKeepsWF(GetWord(b).0, 2 * GetWord(b).1 + 2);
      }
    }
  }

  lemma TakeKeepsWF(b: Bio, size: nat)
    requires WF(b)
    ensures WF(Take(b, size)) && (b.overflow ==> Take(b, size).overflow)
  {
    if b.avail >= Align4(size) { AlignedSum(b.pos, Align4(size)); }
  }

  function GetAll(b: Bio, items: seq<Item>, i: nat := 0): (Bio, seq<Value>)
    requires WF(b) && i <= |items|
    decreases |items| - i
  {
    if i == |items| then (b, [])
    else
      GetKeepsWF(b, items[i]);
      var (c, v) := GetItem(b, items[i]);
      var (d, vs) := GetAll(c, items, i + 1);
      (d, [v] + vs)
  }

  predicate InRange(item: Item) {
    match item
    case Word(n) => n <= 0xFFFF_FFFF
    case Handle(h) => h <= 0xFFFF_FFFF
    case _ => true
  }

  /** The items whose get gives them back. */
  predicate Faithful(item: Item) {
    match item
    case Word(_) => true
    case Text(units) => !TooLong(units)
    case NoString => false
    case Handle(h) => h != 0
    case Object(_) => true
  }

  /** An object of the sender's own is no handle until the driver makes it one. */
  function Expected(item: Item): Value {
    match item
    case Word(n) => Number(n)
    case Text(units) => String(|units|, Some(units + [0]))
    case NoString => String(0, None)
    case Handle(h) => Number(h)
    case Object(_) => Number(0)
  }

  function AllExpected(items: seq<Item>, i: nat): seq<Value>
    requires i <= |items|
    decreases |items| - i
  {
    if i == |items| then [] else [Expected(items[i])] + AllExpected(items, i + 1)
  }

  predicate AllFaithful(items: seq<Item>, i: nat)
    requires i <= |items|
    decreases |items| - i
  {
    i == |items| || (Faithful(items[i]) && AllFaithful(items, i + 1))
  }

  lemma SliceOfPrefix(s: seq<Byte>, limit: nat, lo: nat, hi: nat)
    requires lo <= hi <= limit <= |s|
    ensures s[..limit][lo..hi] == s[lo..hi]
  {
  }

  lemma SliceAgrees(m: seq<Byte>, mem: seq<Byte>, lo: nat, hi: nat)
    requires lo <= hi <= |m| && hi <= |mem|
    requires forall k :: lo <= k < hi ==> m[k] == mem[k]
    ensures m[lo..hi] == mem[lo..hi]
  {
  }

  /** A word laid over some bytes is read back from any bytes that agree there. */
  lemma WordReads(mem: seq<Byte>, pos: nat, n: nat, m: seq<Byte>)
    requires pos + 4 <= |mem| && pos + 4 <= |m| && n <= 0xFFFF_FFFF
    requires forall k :: pos <= k < pos + 4 ==> m[k] == Overlay(mem, pos, Le(n, 4))[k]
    ensures FromLe(m[pos..pos + 4]) == n
  {
    var bs := Le(n, 4);
    SliceAgrees(m, Overlay(mem, pos, bs), pos, pos + 4);
    assert Overlay(mem, pos, bs)[pos..pos + 4] == bs;
    Pow4();
    IntegerRoundTrip(n, 4, false);
  }

  lemma UnitsRead(mem: seq<Byte>, pos: nat, units: seq<Unit>, m: seq<Byte>)
    requires pos + 2 * |units| + 2 <= |mem| && pos + 2 * |units| + 2 <= |m|
    requires forall k :: pos <= k < pos + 2 * |units| + 2 ==> m[k] == Overlay(mem, pos, TextBytes(units))[k]
    ensures UnitsAt(m, pos, |units| + 1) == units + [0]
  {
    var bs := TextBytes(units);
    var us := UnitsAt(m, pos, |units| + 1);
    forall k | 0 <= k < |us| ensures us[k] == (units + [0])[k] {
      assert m[pos + 2 * k] == bs[2 * k] && m[pos + 2 * k + 1] == bs[2 * k + 1];
      UnitFromBytes(units, k);
    }
  }

  lemma UnitFromBytes(units: seq<Unit>, k: nat)
    requires k <= |units|
    ensures TextBytes(units)[2 * k] as int + 256 * TextBytes(units)[2 * k + 1] as int == (units + [0])[k]
  {
    if k < |units| {
      assert (2 * k) % 2 == 0 && (2 * k) / 2 == k;
      assert (2 * k + 1) % 2 == 1 && (2 * k + 1) / 2 == k;
    }
  }

  lemma ObjectReads(mem: seq<Byte>, pos: nat, kind: nat, id: nat, width: nat, m: seq<Byte>)
    requires pos + OBJECT_SIZE <= |mem| && pos + OBJECT_SIZE <= |m| && 4 <= width <= 8 && kind <= 0xFFFF_FFFF
    requires forall k :: pos <= k < pos + OBJECT_SIZE ==> m[k] == Filled(mem, pos, kind, id, width)[k]
    ensures FromLe(m[pos..pos + 4]) == kind
    ensures m[pos + 8..pos + 12] == Le(id, width)[..4]
  {
    var f := Filled(mem, pos, kind, id, width);
    var head := Le(kind, 4) + Le(OBJECT_FLAGS, 4);
    SliceAgrees(m, f, pos, pos + 4);
    SliceAgrees(m, f, pos + 8, pos + 12);
    ObjectLayout(mem, pos, head, Le(id, width), Le(0, 8));
    assert head[..4] == Le(kind, 4);
    Pow4();
    IntegerRoundTrip(kind, 4, false);
  }

  lemma ObjectLayout(mem: seq<Byte>, pos: nat, head: seq<Byte>, id: seq<Byte>, cookie: seq<Byte>)
    requires pos + OBJECT_SIZE <= |mem| && |head| == 8 && 4 <= |id| <= 8 && |cookie| == 8
    ensures var f := Overlay(Overlay(Overlay(mem, pos, head), pos + 8, id), pos + 16, cookie);
            f[pos..pos + 4] == head[..4] && f[pos + 8..pos + 12] == id[..4]
  {
    var a := Overlay(mem, pos, head);
    var b := Overlay(a, pos + 8, id);
    var f := Overlay(b, pos + 16, cookie);
    assert forall k :: pos <= k < pos + 8 ==> f[k] == head[k - pos];
    assert forall k :: pos + 8 <= k < pos + 12 ==> f[k] == id[k - pos - 8];
  }

  /** The receiver at the position where an item was put, with the item's bytes in its buffer and its object,
      if it has one, in its table. */
  ghost predicate At(b: Bio, item: Item, r: Bio)
    requires WF(b) && WF(PutItem(b, item))
  {
    var c := PutItem(b, item);
    && WF(r) && r.pos == b.pos && r.avail == |r.mem| - r.pos && c.pos <= |r.mem| < 0x2_0000_0000 && |r.mem| <= |c.mem|
    && (forall k :: b.pos <= k < c.pos ==> r.mem[k] == c.mem[k])
    && (Listed(r) <==> Entries(item) == 1)
  }

  lemma WordItemReads(b: Bio, n: nat, r: Bio)
    requires WF(b) && n <= 0xFFFF_FFFF && !PutWord(b, n).overflow && WF(PutWord(b, n))
    requires WF(r) && r.pos == b.pos && r.avail == |r.mem| - r.pos && PutWord(b, n).pos <= |r.mem|
    requires forall k :: b.pos <= k < b.pos + 4 ==> r.mem[k] == PutWord(b, n).mem[k]
    ensures GetWord(r) == (r.(pos := b.pos + 4, avail := r.avail - 4), n)
  {
    WordReads(b.mem, b.pos, n, r.mem);
  }

  /** Where the length word and the units of a text go. */
  lemma TextPlaces(b: Bio, units: seq<Unit>, d: Bio, c: Bio)
    requires WF(b) && d == PutWord(b, |units|) && c == PutText(b, units) && !c.overflow
    ensures WF(d) && !d.overflow && d.pos == b.pos + 4 && c == PutBytes(d, TextBytes(units))
    ensures Align4(2 * |units| + 2) <= d.avail && c.pos == d.pos + Align4(2 * |units| + 2)
    ensures |d.mem| == |b.mem| == |c.mem| && forall k :: b.pos <= k < b.pos + 4 ==> c.mem[k] == d.mem[k]
  {
    PutBytesGrows(b, Le(|units|, 4));
    PutBytesGrows(d, TextBytes(units));
    BytesFit(b, Le(|units|, 4), 4);
    BytesFit(d, TextBytes(units), Align4(2 * |units| + 2));
  }

  lemma TextItemReads(b: Bio, units: seq<Unit>, r: Bio)
    requires WF(b) && !TooLong(units)
    requires WF(PutItem(b, Text(units))) && !PutItem(b, Text(units)).overflow && At(b, Text(units), r)
    ensures GetItem(r, Text(units)) ==
              (r.(pos := PutItem(b, Text(units)).pos, avail := |r.mem| - PutItem(b, Text(units)).pos),
               Expected(Text(units)))
  {
    TextRead(b, units, PutWord(b, |units|), PutText(b, units), r);
  }

  lemma TextRead(b: Bio, units: seq<Unit>, d: Bio, c: Bio, r: Bio)
    requires WF(b) && |units| <= 0xFFFF_FFFF && d == PutWord(b, |units|) && c == PutText(b, units) && !c.overflow
    requires WF(r) && r.pos == b.pos && r.avail == |r.mem| - r.pos && c.pos <= |r.mem| <= |c.mem|
    requires forall k :: b.pos <= k < c.pos ==> r.mem[k] == c.mem[k]
    ensures GetText(r) == (r.(pos := c.pos, avail := |r.mem| - c.pos), |units|, Some(units + [0]))
  {
    TextPlaces(b, units, d, c);
    WordItemReads(b, |units|, r);
    TextReads(d, units, r.(pos := b.pos + 4, avail := r.avail - 4), c.pos);
  }

  lemma TextReads(d: Bio, units: seq<Unit>, r: Bio, end: nat)
    requires WF(d) && WF(r) && r.pos == d.pos && end == d.pos + Align4(2 * |units| + 2) <= |r.mem| <= |d.mem|
    requires r.avail == |r.mem| - r.pos && Align4(2 * |units| + 2) <= d.avail
    requires forall k :: d.pos <= k < end ==> r.mem[k] == PutBytes(d, TextBytes(units)).mem[k]
    ensures Take(r, 2 * |units| + 2) == r.(pos := end, avail := |r.mem| - end)
    ensures UnitsAt(r.mem, r.pos, |units| + 1) == units + [0]
  {
    UnitsRead(d.mem, d.pos, units, r.mem);
  }

  lemma ReferenceReads(b: Bio, item: Item, r: Bio)
    requires WF(b) && InRange(item) && Faithful(item) && (item.Handle? || item.Object?)
    requires WF(PutItem(b, item)) && !PutItem(b, item).overflow && At(b, item, r)
    ensures GetItem(r, item) ==
              (r.(pos := PutItem(b, item).pos, avail := |r.mem| - PutItem(b, item).pos), Expected(item))
  {
    var c := PutItem(b, item);
    if item.Object? {
      var mem := Filled(b.mem, b.pos, TYPE_BINDER, item.pointer, 8);
      ListedFields(b, item, c, mem);
      OwnObjectTaken(b.mem, b.pos, item.pointer, r);
    } else {
      var mem := Filled(b.mem, b.pos, TYPE_HANDLE, item.handle, 4);
      ListedFields(b, item, c, mem);
      HandleTaken(b.mem, b.pos, item.handle, r);
    }
  }

  lemma OwnObjectTaken(mem: seq<Byte>, pos: nat, pointer: nat, r: Bio)
    requires WF(r) && Listed(r) && r.pos == pos && r.avail >= OBJECT_SIZE && pos + OBJECT_SIZE <= |mem|
    requires forall k :: pos <= k < pos + OBJECT_SIZE ==> r.mem[k] == Filled(mem, pos, TYPE_BINDER, pointer, 8)[k]
    ensures GetRef(r) == (r.(pos := pos + OBJECT_SIZE, avail := r.avail - OBJECT_SIZE), 0)
  {
    ObjectTaken(r);
    ObjectReads(mem, pos, TYPE_BINDER, pointer, 8, r.mem);
  }

  lemma HandleTaken(mem: seq<Byte>, pos: nat, handle: nat, r: Bio)
    requires WF(r) && Listed(r) && r.pos == pos && r.avail >= OBJECT_SIZE && pos + OBJECT_SIZE <= |mem|
             && handle <= 0xFFFF_FFFF
    requires forall k :: pos <= k < pos + OBJECT_SIZE ==> r.mem[k] == Filled(mem, pos, TYPE_HANDLE, handle, 4)[k]
    ensures GetRef(r) == (r.(pos := pos + OBJECT_SIZE, avail := r.avail - OBJECT_SIZE), handle)
  {
    ObjectTaken(r);
    HandleReads(mem, pos, handle, r.mem);
  }

  lemma ListedFields(b: Bio, item: Item, c: Bio, mem: seq<Byte>)
    requires WF(b) && Entries(item) == 1 && c == PutItem(b, item) && !c.overflow && b.pos + OBJECT_SIZE <= |b.mem|
    requires mem == if item.Object? then Filled(b.mem, b.pos, TYPE_BINDER, item.pointer, 8)
                    else Filled(b.mem, b.pos, TYPE_HANDLE, item.handle, 4)
    ensures c.mem == mem && c.pos == b.pos + OBJECT_SIZE
  {
  }

  /** What put leaves outside the bytes it wrote is as it was; cursor position plus room stays the same. */
  ghost predicate WroteOnly(b: Bio, c: Bio, lo: nat, hi: nat) {
    && |c.mem| == |b.mem| && c.pos + c.avail == b.pos + b.avail && hi <= c.pos <= |c.mem|
    && forall k :: 0 <= k < |b.mem| && (k < lo || k >= hi) ==> c.mem[k] == b.mem[k]
  }

  /** A number takes four bytes, lowest first; so does the mark of a missing or overlong string. */
  lemma NumberLayout(b: Bio, item: Item, n: nat)
    requires WF(b) && !PutItem(b, item).overflow
    requires match item
             case Word(m) => m == n
             case NoString => n == 0xFFFF_FFFF
             case Text(units) => |units| >= 0x2000_0000 && n == 0xFFFF_FFFF
             case _ => false
    ensures var c := PutItem(b, item);
            c.pos == b.pos + 4 && WroteOnly(b, c, b.pos, b.pos + 4) && c.mem[b.pos..b.pos + 4] == Le(n, 4)
  {
    BytesLayout(b, Le(n, 4), PutItem(b, item));
  }

  lemma BytesLayout(b: Bio, bs: seq<Byte>, c: Bio)
    requires WF(b) && c == PutBytes(b, bs) && !c.overflow
    ensures c.pos == b.pos + Align4(|bs|) && WroteOnly(b, c, b.pos, b.pos + |bs|)
    ensures c.mem[b.pos..b.pos + |bs|] == bs
  {
  }

  /** A text is its length in four bytes, and then the bytes of its units and of a zero unit. */
  lemma TextLayout(b: Bio, units: seq<Unit>, head: seq<Byte>, bs: seq<Byte>)
    requires WF(b) && head == Le(|units|, 4) && bs == TextBytes(units) && !PutText(b, units).overflow
    ensures var c := PutText(b, units);
            var end := b.pos + 4 + |bs|;
            && end <= c.pos < end + 4 && WroteOnly(b, c, b.pos, end)
            && c.mem[b.pos..b.pos + 4] == head && c.mem[b.pos + 4..end] == bs
    ensures |units| < 0x2000_0000 <==> !TooLong(units)
  {
    PutBytesGrows(b, head);
    TwoPuts(b, head, bs, PutBytes(b, head), PutBytes(PutBytes(b, head), bs));
  }

  /** Each unit is two bytes, the lower first. */
  lemma UnitLayout(units: seq<Unit>, i: nat)
    requires i <= |units|
    ensures var u := if i < |units| then units[i] else 0;
            TextBytes(units)[2 * i] == u % 256 && TextBytes(units)[2 * i + 1] == u / 256
  {
  }

  lemma TwoPuts(b: Bio, head: seq<Byte>, bs: seq<Byte>, d: Bio, c: Bio)
    requires WF(b) && |head| == 4 && d == PutBytes(b, head) && WF(d) && c == PutBytes(d, bs) && !c.overflow
    ensures var end := b.pos + 4 + |bs|;
            && end <= c.pos < end + 4 && WroteOnly(b, c, b.pos, end)
            && c.mem[b.pos..b.pos + 4] == head && c.mem[b.pos + 4..end] == bs
  {
    assert !d.overflow && d.pos == b.pos + 4;
    BytesLayout(b, head, d);
    BytesLayout(d, bs, c);
    TwoWrites(b, d, c, head, bs);
  }

  lemma TwoWrites(b: Bio, d: Bio, c: Bio, head: seq<Byte>, bs: seq<Byte>)
    requires |head| == 4 && d.pos == b.pos + 4 && d.pos + |bs| <= |c.mem|
    requires WroteOnly(b, d, b.pos, b.pos + 4) && d.mem[b.pos..b.pos + 4] == head
    requires WroteOnly(d, c, d.pos, d.pos + |bs|) && c.mem[d.pos..d.pos + |bs|] == bs
    ensures WroteOnly(b, c, b.pos, b.pos + 4 + |bs|)
    ensures c.mem[b.pos..b.pos + 4] == head && c.mem[b.pos + 4..b.pos + 4 + |bs|] == bs
  {
    SliceAgrees(c.mem, d.mem, b.pos, b.pos + 4);
  }

  /** A reference is its type, the flags, the handle and a zero cookie, at bytes 0, 4, 8 and 16 of 24; its position
      goes into the next entry of the table, unless the handle is 0. */
  lemma ReferenceLayout(b: Bio, h: nat)
    requires WF(b) && !PutItem(b, Handle(h)).overflow
    ensures var c := PutItem(b, Handle(h));
            && c.pos == b.pos + 24 && WroteOnly(b, c, b.pos, b.pos + 24)
            && ObjectAt(c.mem, b.pos, 0x7368_2A85, Le(h, 4))
            && c.offs + c.offsAvail == b.offs + b.offsAvail
            && (if h == 0 then c.offs == b.offs && c.table == b.table
                else c.offs == b.offs + 1 && c.table == b.table[b.offs := b.pos])
  {
    assert Align4(OBJECT_SIZE) == OBJECT_SIZE;
    FieldsLayout(b.mem, b.pos, TYPE_HANDLE, h, 4, PutItem(b, Handle(h)).mem);
  }

  /** So is an object of the sender's own, with an address of eight bytes for identifier. */
  lemma OwnObjectLayout(b: Bio, p: nat)
    requires WF(b) && !PutItem(b, Object(p)).overflow
    ensures var c := PutItem(b, Object(p));
            && c.pos == b.pos + 24 && WroteOnly(b, c, b.pos, b.pos + 24)
            && ObjectAt(c.mem, b.pos, 0x7362_2A85, Le(p, 8))
            && c.offs + c.offsAvail == b.offs + b.offsAvail
            && c.offs == b.offs + 1 && c.table == b.table[b.offs := b.pos]
  {
    assert Align4(OBJECT_SIZE) == OBJECT_SIZE;
    FieldsLayout(b.mem, b.pos, TYPE_BINDER, p, 8, PutItem(b, Object(p)).mem);
  }

  ghost predicate ObjectAt(mem: seq<Byte>, pos: nat, kind: nat, id: seq<Byte>) {
    && pos + 24 <= |mem| && |id| <= 8
    && mem[pos..pos + 4] == Le(kind, 4) && mem[pos + 4..pos + 8] == Le(0x17F, 4)
    && mem[pos + 8..pos + 8 + |id|] == id && mem[pos + 16..pos + 24] == Le(0, 8)
  }

  lemma FieldsLayout(before: seq<Byte>, pos: nat, kind: nat, id: nat, width: nat, mem: seq<Byte>)
    requires pos + OBJECT_SIZE <= |before| && width <= 8 && mem == Filled(before, pos, kind, id, width)
    ensures ObjectAt(mem, pos, kind, Le(id, width)) && |mem| == |before|
    ensures forall k :: 0 <= k < |before| && (k < pos || k >= pos + 24) ==> mem[k] == before[k]
  {
    OverlaysAt(before, pos, Le(kind, 4), Le(OBJECT_FLAGS, 4), Le(id, width), Le(0, 8), mem);
  }

  lemma OverlaysAt(before: seq<Byte>, pos: nat, a: seq<Byte>, f: seq<Byte>, id: seq<Byte>, z: seq<Byte>, mem: seq<Byte>)
    requires pos + 24 <= |before| && |a| == |f| == 4 && |id| <= 8 == |z|
    requires mem == Overlay(Overlay(Overlay(before, pos, a + f), pos + 8, id), pos + 16, z)
    ensures mem[pos..pos + 4] == a && mem[pos + 4..pos + 8] == f && mem[pos + 8..pos + 8 + |id|] == id
    ensures mem[pos + 16..pos + 24] == z && |mem| == |before|
    ensures forall k :: 0 <= k < |before| && (k < pos || k >= pos + 24) ==> mem[k] == before[k]
  {
    OverlayAt(before, pos, a + f, Overlay(before, pos, a + f));
    var x := Overlay(before, pos, a + f);
    OverlayAt(x, pos + 8, id, Overlay(x, pos + 8, id));
    var y := Overlay(x, pos + 8, id);
    OverlayAt(y, pos + 16, z, mem);
    forall k | 0 <= k < 4 ensures mem[pos + k] == a[k] && mem[pos + 4 + k] == f[k] {
      assert (a + f)[k] == a[k] && (a + f)[4 + k] == f[k];
    }
  }

  lemma OverlayAt(before: seq<Byte>, pos: nat, v: seq<Byte>, after: seq<Byte>)
    requires pos + |v| <= |before| && after == Overlay(before, pos, v)
    ensures forall k :: 0 <= k < |v| ==> after[pos + k] == v[k]
    ensures forall k :: 0 <= k < |before| && (k < pos || k >= pos + |v|) ==> after[k] == before[k]
  {
  }

  /** A reader at the end of its message gets zero, no text and handle 0, is marked as overflowed, and has nothing left
      to read; its buffer and position are as they were. */
  lemma PastEndReadsNothing(b: Bio)
    requires WF(b) && b.avail < 4
    ensures var spent := b.(avail := 0, overflow := true);
            GetWord(b) == (spent, 0) && GetText(b) == (spent, 0, None) && GetRef(b) == (spent, 0)
  {
    assert Align4(4) == 4 && Align4(2) == 4 && Align4(OBJECT_SIZE) == OBJECT_SIZE;
  }

  lemma ObjectTaken(r: Bio)
    requires WF(r) && Listed(r) && r.avail >= OBJECT_SIZE
    ensures GetRef(r) == (r.(pos := r.pos + OBJECT_SIZE, avail := r.avail - OBJECT_SIZE), HandleAt(r.mem, r.pos))
  {
  }

  lemma HandleReads(mem: seq<Byte>, pos: nat, handle: nat, m: seq<Byte>)
    requires pos + OBJECT_SIZE <= |mem| && pos + OBJECT_SIZE <= |m| && handle <= 0xFFFF_FFFF
    requires forall k :: pos <= k < pos + OBJECT_SIZE ==> m[k] == Filled(mem, pos, TYPE_HANDLE, handle, 4)[k]
    ensures HandleAt(m, pos) == handle
  {
    ObjectReads(mem, pos, TYPE_HANDLE, handle, 4, m);
    assert Le(handle, 4)[..4] == Le(handle, 4);
    Pow4();
    IntegerRoundTrip(handle, 4, false);
  }

  lemma FaithfulReads(b: Bio, item: Item, r: Bio)
    requires WF(b) && InRange(item) && Faithful(item)
    requires WF(PutItem(b, item)) && !PutItem(b, item).overflow && At(b, item, r)
    ensures GetItem(r, item) ==
              (r.(pos := PutItem(b, item).pos, avail := |r.mem| - PutItem(b, item).pos), Expected(item))
  {
    match item
    case Word(n) => WordItemReads(b, n, r);
    case Text(units) => TextItemReads(b, units, r);
    case _ => ReferenceReads(b, item, r);
  }

  /** A missing string is announced by a length no buffer has; handle 0 is not in the table. */
  lemma UnfaithfulFails(b: Bio, item: Item, r: Bio)
    requires WF(b) && !Faithful(item)
    requires WF(PutItem(b, item)) && !PutItem(b, item).overflow && At(b, item, r)
    ensures GetItem(r, item).0.overflow
  {
    if item.NoString? || item.Text? {
      assert PutItem(b, item) == PutWord(b, NO_STRING);
      WordItemReads(b, NO_STRING, r);
    }
  }

  /** A receiver of the finished message, positioned where the writer was. */
  ghost predicate Follows(b: Bio, final: Bio, r: Bio)
    requires WF(final)
  {
    && r.mem == final.mem[..final.pos] && r.table == final.table[..final.offs]
    && r.offs == 0 && r.offsAvail == final.offs
    && r.pos == b.pos && r.pos + r.avail == final.pos && !r.overflow
  }

  /** Every listed position before the cursor is that of an object before the cursor. */
  ghost predicate Indexed(b: Bio) {
    b.offs <= |b.table| && forall k :: 0 <= k < b.offs ==> b.table[k] + OBJECT_SIZE <= b.pos
  }

  lemma EntryOfObject(b: Bio, item: Item)
    requires WF(b) && Entries(item) == 1 && !PutItem(b, item).overflow
    ensures var c := PutItem(b, item); c.offs == b.offs + 1 <= |c.table| && c.table[b.offs] == b.pos
  {
  }

  lemma NoEntry(b: Bio, item: Item)
    requires WF(b) && Entries(item) == 0
    ensures PutItem(b, item).offs == b.offs
  {
    match item
    case Text(units) => if !TooLong(units) { PutBytesGrows(b, Le(|units|, 4)); }
    case _ =>
  }

  lemma FollowerIsAt(b: Bio, item: Item, c: Bio, final: Bio, r: Bio)
    requires WF(b) && WF(c) && WF(final) && c == PutItem(b, item) && Grew(b, c) && Grew(c, final) && !c.overflow
    requires Indexed(b) && Follows(b, final, r) && final.pos < 0x2_0000_0000
    ensures At(b, item, r)
  {
    assert WF(r);
    assert forall k :: b.pos <= k < c.pos ==> r.mem[k] == final.mem[k];
    PutItemFits(b, item);
    if Entries(item) == 1 {
      EntryOfObject(b, item);
    } else {
      NoEntry(b, item);
    }
    FollowerLists(b, c, final, r);
  }

  /** The receiver's table lists the cursor just when the put at the cursor made an entry. */
  lemma FollowerLists(b: Bio, c: Bio, final: Bio, r: Bio)
    requires WF(c) && WF(final) && WF(r) && Grew(b, c) && Grew(c, final) && Indexed(b) && Follows(b, final, r)
    requires c.pos > b.pos && b.offs <= |b.table|
    requires c.offs == b.offs || (c.offs == b.offs + 1 && c.table[b.offs] == b.pos)
    ensures Listed(r) <==> c.offs == b.offs + 1
  {
    if c.offs == b.offs + 1 {
      assert final.table[b.offs] == c.table[b.offs];
      assert r.table[b.offs] == b.pos;
    } else {
      forall k | 0 <= k < final.offs ensures r.table[k] != b.pos {
        if k < b.offs {
          assert final.table[k] == c.table[k] == b.table[k];
        }
      }
    }
  }

  lemma {:induction false} OverflowStays(r: Bio, items: seq<Item>, i: nat)
    requires WF(r) && i <= |items| && r.overflow
    ensures GetAll(r, items, i).0.overflow
    decreases |items| - i
  {
    if i < |items| {
      GetKeepsWF(r, items[i]);
      OverflowStays(GetItem(r, items[i]).0, items, i + 1);
    }
  }

  lemma IndexedAfter(b: Bio, c: Bio)
    requires WF(b) && WF(c) && Grew(b, c) && Indexed(b)
    ensures Indexed(c)
  {
  }

  /** Reading on from where an item was put: it all comes back, or an unfaithful item stops the reader. */
  lemma {:induction false} RestReadsBack(b: Bio, items: seq<Item>, i: nat, final: Bio, r: Bio)
    requires WF(b) && Indexed(b) && i <= |items| && final == PutAll(b, items, i) && !final.overflow
    requires WF(final) && Follows(b, final, r) && final.pos < 0x2_0000_0000
    requires forall k :: i <= k < |items| ==> InRange(items[k])
    ensures WF(r) && (!GetAll(r, items, i).0.overflow <==> AllFaithful(items, i))
    ensures AllFaithful(items, i) ==> GetAll(r, items, i).0.avail == 0 && GetAll(r, items, i).1 == AllExpected(items, i)
    decreases |items| - i
  {
    if i < |items| {
      var item := items[i];
      var c := PutItem(b, item);
      PutItemGrows(b, item);
      PutsStayInside(c, items, i + 1);
      FollowerIsAt(b, item, c, final, r);
      if Faithful(item) {
        FaithfulReads(b, item, r);
        IndexedAfter(b, c);
        var next := GetItem(r, item).0;
        RestReadsBack(c, items, i + 1, final, next);
      } else {
        UnfaithfulFails(b, item, r);
        GetKeepsWF(r, item);
        OverflowStays(GetItem(r, item).0, items, i + 1);
      }
    }
  }

  /** A message written without overflow into a buffer (of less than 8 GB) is read back whole by its
      receiver, and the reader ends without overflow, exactly when every item is one that can be read back:
      no null or overlong string and no handle 0. */
  lemma MessageReadsBack(mem: seq<Byte>, table: seq<nat>, items: seq<Item>)
    requires |mem| < 0x2_0000_0000
    requires forall k :: 0 <= k < |items| ==> InRange(items[k])
    requires !PutAll(Start(mem, table), items).overflow
    ensures var b := PutAll(Start(mem, table), items);
            && WF(b) && WF(Received(b))
            && (!GetAll(Received(b), items).0.overflow <==> AllFaithful(items, 0))
            && (AllFaithful(items, 0) ==> GetAll(Received(b), items).1 == AllExpected(items, 0)
                                          && GetAll(Received(b), items).0.avail == 0)
  {
    var a := Start(mem, table);
    var b := PutAll(a, items);
    PutsStayInside(a, items, 0);
    assert Follows(a, b, Received(b));
    RestReadsBack(a, items, 0, b, Received(b));
  }

  /** Handle 0 goes in without overflow, but the reader stops at it. */
  lemma HandleZeroStopsReader(mem: seq<Byte>)
    requires |mem| == OBJECT_SIZE
    ensures var b := PutAll(Start(mem, []), [Handle(0)]);
            !b.overflow && WF(b) && WF(Received(b)) && GetAll(Received(b), [Handle(0)]).0.overflow
  {
    var items := [Handle(0)];
    assert TotalSize(items, 0) == Size(items[0]) + TotalSize(items, 1);
    assert TotalEntries(items, 0) == Entries(items[0]) + TotalEntries(items, 1);
    FitsExactly(Start(mem, []), items, 0);
    MessageReadsBack(mem, [], items);
    assert !AllFaithful(items, 0);
  }

  /** The service list's reply, made in a buffer of 256 bytes with four table entries and sent without a
      look at the overflow flag: a name of more than 109 units arrives as its length alone. */
  lemma ListedNameArrives(mem: seq<Byte>, table: seq<nat>, units: seq<Unit>)
    requires |mem| == 256 - 8 * |table| && |table| == 4 && |units| <= 127
    ensures var b := PutItem(Start(mem, table), Text(units));
            && (!b.overflow <==> |units| <= 109)
            && (|units| > 109 ==> WF(b) && Received(b).mem == Le(|units|, 4))
  {
    var a, bs := Start(mem, table), Le(|units|, 4);
    NameFits(a, units, PutBytes(a, bs));
    if |units| > 109 { NameCut(a, bs, PutBytes(a, bs), TextBytes(units)); }
  }

  lemma NameFits(a: Bio, units: seq<Unit>, c: Bio)
    requires WF(a) && a.avail == 224 && !a.overflow && |units| <= 127 && c == PutWord(a, |units|)
    ensures !PutItem(a, Text(units)).overflow <==> |units| <= 109
  {
    AlignUpTo(2 * |units| + 2, 55);
    PutTextFits(a, units, c);
  }

  lemma NameCut(a: Bio, bs: seq<Byte>, c: Bio, text: seq<Byte>)
    requires WF(a) && a.pos == 0 && a.avail == 224 && |bs| == 4 && |text| > 220 && c == PutBytes(a, bs)
    ensures WF(c) && WF(PutBytes(c, text)) && Received(PutBytes(c, text)).mem == bs
  {
    PutBytesGrows(a, bs);
    AlignUpTo(|text|, 55);
    LengthAlone(a, bs, c, text);
  }

  lemma AlignUpTo(n: nat, k: nat)
    ensures Align4(n) <= 4 * k <==> n <= 4 * k
  {
  }

  lemma LengthAlone(a: Bio, bs: seq<Byte>, c: Bio, text: seq<Byte>)
    requires WF(a) && a.pos == 0 && |bs| == 4 <= a.avail < 4 + Align4(|text|) && c == PutBytes(a, bs) && WF(c)
    ensures PutBytes(c, text) == Overflowed(c) && Received(Overflowed(c)).mem == bs
  {
    assert c.mem[..4] == bs;
  }

  /** A C string in memory: the units before the first zero. */
  function CString(s: seq<Unit>, i: nat := 0): (r: seq<Unit>)
    requires i <= |s|
    decreases |s| - i
  {
    if i == |s| || s[i] == 0 then s[..i] else CString(s, i + 1)
  }

  /** The cursor object. The buffer and the table belong to the caller; `limit` and `entries` are how much
      of them this cursor may use. */
  class Cursor {
    const data: array<Byte>
    const offsets: array<nat>
    ghost const limit: nat
    ghost const entries: nat
    var pos: nat
    var avail: nat
    var offs: nat
    var offsAvail: nat
    var overflow: bool

    ghost predicate Valid()
      reads this, data, offsets
    {
      && limit <= data.Length && entries <= offsets.Length && pos % 4 == 0
      && pos + avail <= limit && offs + offsAvail <= entries
    }

    ghost function View(): (b: Bio)
      requires Valid()
      reads this, data, offsets
      ensures WF(b)
    {
      Bio(data[..limit], pos, avail, offsets[..entries], offs, offsAvail, overflow)
    }

    /** bio_init: the table takes eight bytes an entry from the front of the caller's buffer. */
    constructor Init(maxData: nat, maxOffs: nat)
      ensures Valid() && fresh(data) && fresh(offsets)
      ensures maxOffs * 8 > maxData ==> View() == FAILED
      ensures maxOffs * 8 <= maxData ==> |View().mem| == maxData - maxOffs * 8 && |View().table| == maxOffs
                                         && View() == Start(View().mem, View().table)
    {
      var n := maxOffs * 8;
      if n > maxData {
        data, offsets := new Byte[0], new nat[0];
        limit, entries, pos, avail, offs, offsAvail, overflow := 0, 0, 0, 0, 0, 0, true;
      } else {
        data, offsets := new Byte[maxData - n], new nat[maxOffs];
        limit, entries, pos, avail := maxData - n, maxOffs, 0, maxData - n;
        offs, offsAvail, overflow := 0, maxOffs, false;
      }
    }

    constructor InitFromTxn(buffer: array<Byte>, dataSize: nat, table: array<nat>, count: nat)
      requires dataSize <= buffer.Length && count <= table.Length
      ensures Valid() && View() == Start(buffer[..dataSize], table[..count])
    {
      data, offsets, limit, entries := buffer, table, dataSize, count;
      pos, avail, offs, offsAvail, overflow := 0, dataSize, 0, count, false;
    }

    method Alloc(size: nat) returns (ptr: Option<nat>)
      requires Valid()
      modifies this
      ensures Valid()
      ensures View() == if Align4(size) > old(avail) then Overflowed(old(View())) else Advance(old(View()), size)
      ensures ptr == if Align4(size) > old(avail) then None else Some(old(pos))
    {
      var rounded := Align4(size);
      if rounded > avail {
        overflow := true;
        return None;
      }
      AlignedSum(pos, rounded);
      ptr := Some(pos);
      pos := pos + rounded;
      avail := avail - rounded;
    }

    method Store(at: nat, bs: seq<Byte>)
      requires Valid() && at + |bs| <= limit
      modifies data
      ensures Valid() && View() == old(View()).(mem := Overlay(old(View()).mem, at, bs))
    {
      for i := 0 to |bs|
        invariant forall k :: 0 <= k < data.Length ==>
                    data[k] == if at <= k < at + i then bs[k - at] else old(data[k])
        modifies data
      {
        data[at + i] := bs[i];
      }
      assert data[..limit] == Overlay(old(data[..limit]), at, bs);
    }

    method PutUint32(n: nat)
      requires Valid()
      modifies this, data
      ensures Valid() && View() == PutWord(old(View()), n)
    {
      var ptr := Alloc(4);
      if ptr.Some? {
        Store(ptr.value, Le(n, 4));
      }
    }

    /** The space for an object, listed in the table if there is an entry left. */
    method AllocObj() returns (ptr: Option<nat>)
      requires Valid()
      modifies this, offsets
      ensures Valid()
      ensures OBJECT_SIZE > old(avail) ==> ptr == None && View() == Overflowed(old(View()))
      ensures OBJECT_SIZE <= old(avail) && old(offsAvail) == 0 ==>
                ptr == None && View() == Overflowed(Advance(old(View()), OBJECT_SIZE))
      ensures OBJECT_SIZE <= old(avail) && old(offsAvail) > 0 ==>
                ptr == Some(old(pos)) && data[..] == old(data[..]) &&
                View() == Advance(old(View()).(table := old(View()).table[old(offs) := old(pos)],
                                               offs := old(offs) + 1, offsAvail := old(offsAvail) - 1), OBJECT_SIZE)
    {
      ptr := Alloc(OBJECT_SIZE);
      if ptr.Some? && offsAvail > 0 {
        offsAvail := offsAvail - 1;
        offsets[offs] := ptr.value;
        offs := offs + 1;
        assert offsets[..entries] == old(offsets[..entries])[old(offs) := old(pos)];
        return;
      }
      overflow := true;
      ptr := None;
    }

    method Fill(at: nat, kind: nat, id: nat, width: nat)
      requires Valid() && at + OBJECT_SIZE <= limit && width <= 8
      modifies data
      ensures Valid() && View() == old(View()).(mem := Filled(old(View()).mem, at, kind, id, width))
    {
      Store(at, Le(kind, 4) + Le(OBJECT_FLAGS, 4));
      Store(at + 8, Le(id, width));
      Store(at + 16, Le(0, 8));
    }

    method PutObj(pointer: nat)
      requires Valid()
      modifies this, data, offsets
      ensures Valid() && View() == PutItem(old(View()), Object(pointer))
    {
      var obj := AllocObj();
      if obj.Some? {
        Fill(obj.value, TYPE_BINDER, pointer, 8);
      }
    }

    method PutRef(handle: nat)
      requires Valid()
      modifies this, data, offsets
      ensures Valid() && View() == PutItem(old(View()), Handle(handle))
    {
      var obj;
      if handle != 0 {
        obj := AllocObj();
      } else {
        obj := Alloc(OBJECT_SIZE);
      }
      if obj.Some? {
        Fill(obj.value, TYPE_HANDLE, handle, 4);
      }
    }

    static method StrLen(str: array<Unit>) returns (len: nat)
      requires exists k :: 0 <= k < str.Length && str[k] == 0
      ensures len < str.Length && CString(str[..]) == str[..len]
    {
      ghost var s := str[..];
      len := 0;
      while str[len] != 0
        invariant len < str.Length && CString(s) == CString(s, len)
        invariant exists k :: len <= k < str.Length && str[k] == 0
        decreases str.Length - len
      {
        len := len + 1;
      }
    }

    /** The length word, and the units with their terminator if there is room. */
    method PutUnits(units: seq<Unit>)
      requires Valid()
      modifies this, data
      ensures Valid() && View() == PutText(old(View()), units)
    {
      PutUint32(|units|);
      ghost var c := View();
      var bs := TextBytes(units);
      var ptr := Alloc(|bs|);
      if ptr.Some? {
        Store(ptr.value, bs);
      }
      assert View() == PutBytes(c, bs);
    }

    method PutString16(str: array?<Unit>)
      requires Valid() && (str != null ==> exists k :: 0 <= k < str.Length && str[k] == 0)
      modifies this, data
      ensures Valid()
      ensures View() == PutItem(old(View()), if str == null then NoString else old(Text(CString(str[..]))))
    {
      if str == null {
        PutUint32(NO_STRING);
        return;
      }
      var len := StrLen(str);
      if len >= MAX_BIO_SIZE / 2 {
        PutUint32(NO_STRING);
        return;
      }
      PutUnits(str[..len]);
    }

    method Get(size: nat) returns (ptr: Option<nat>)
      requires Valid()
      modifies this
      ensures Valid() && View() == Take(old(View()), size)
      ensures ptr == if old(avail) < Align4(size) then None else Some(old(pos))
    {
      var rounded := Align4(size);
      if avail < rounded {
        avail := 0;
        overflow := true;
        return None;
      }
      AlignedSum(pos, rounded);
      ptr := Some(pos);
      pos := pos + rounded;
      avail := avail - rounded;
    }

    method GetUint32() returns (n: nat)
      requires Valid()
      modifies this
      ensures Valid() && (View(), n) == GetWord(old(View()))
    {
      var ptr := Get(4);
      if ptr.Some? {
        SliceOfPrefix(data[..], limit, ptr.value, ptr.value + 4);
        n := FromLe(data[ptr.value..ptr.value + 4]);
      } else {
        n := 0;
      }
    }

    /** The pointer is to the units in the buffer. */
    method GetString16() returns (sz: nat, ptr: Option<nat>)
      requires Valid()
      modifies this
      ensures Valid() && (ptr.Some? ==> ptr.value + 2 * (sz + 1) <= limit)
      ensures (View(), sz, if ptr.None? then None else Some(UnitsAt(View().mem, ptr.value, sz + 1)))
              == GetText(old(View()))
    {
      sz := GetUint32();
      ptr := Get(2 * sz + 2);
    }

    method GetObj() returns (ptr: Option<nat>)
      requires Valid()
      modifies this
      ensures Valid()
      ensures View() == GetRef(old(View())).0
      ensures ptr == if Listed(old(View())) && old(avail) >= OBJECT_SIZE then Some(old(pos)) else None
    {
      for n := 0 to offsAvail
        invariant View() == old(View()) && offsAvail == old(offsAvail)
        invariant forall k :: offs <= k < offs + n ==> View().table[k] != pos
      {
        if offsets[offs + n] == pos {
          assert View().table[offs + n] == pos;
          ptr := Get(OBJECT_SIZE);
          return;
        }
      }
      avail := 0;
      overflow := true;
      ptr := None;
    }

    method GetReference() returns (handle: nat)
      requires Valid()
      modifies this
      ensures Valid() && (View(), handle) == GetRef(old(View()))
    {
      var obj := GetObj();
      if obj.None? {
        return 0;
      }
      var at := obj.value;
      SliceOfPrefix(data[..], limit, at, at + 4);
      SliceOfPrefix(data[..], limit, at + 8, at + 12);
      if FromLe(data[at..at + 4]) == TYPE_HANDLE {
        return FromLe(data[at + 8..at + 12]);
      }
      return 0;
    }
  }
}
