/** The string buffer in place: a fixed array of 766 bytes and two counters. */
module MtpStringBuffer {
  import opened Basics
  import opened LittleEndian
  import opened MtpDataPacket
  import opened MtpString

  class StringBuffer {
    const buffer: array<Byte>
    var charCount: nat
    var byteCount: nat

    ghost predicate Valid()
      reads this
    {
      buffer.Length == BUFFER_BYTES && charCount <= MAX_CHARS
    }

    ghost function View(): Text
      reads this, buffer
    {
      Text(buffer[..], charCount, byteCount)
    }

    constructor ()
      ensures Valid() && fresh(buffer) && charCount == 0 && byteCount == 1 && buffer[0] == 0
    {
      buffer := new Byte[BUFFER_BYTES];
      charCount, byteCount := 0, 1;
      new;
      buffer[0] := 0;
    }

    /** A buffer whose memory still holds what was there before. */
    constructor On(memory: seq<Byte>)
      requires |memory| == BUFFER_BYTES
      ensures Valid() && fresh(buffer) && charCount == 0 && byteCount == 1 && buffer[..] == memory
    {
      buffer := new Byte[BUFFER_BYTES](i requires 0 <= i < BUFFER_BYTES => memory[i]);
      charCount, byteCount := 0, 1;
    }

    /** set(const char*): src is what stands before the terminating zero. */
    method SetFromChars(src: seq<Byte>)
      requires Valid() && NulFree(src)
      modifies this, buffer
      ensures Valid() && View() == SetChars(src, old(buffer[..]))
    {
      ghost var stale, rest := buffer[..], Copy(src, 0);
      ghost var goal := rest;
      var count, i, dest := 0, 0, 0;
      assert src[0..] == src;
      while i < |src| && count < MAX_CHARS
        invariant 0 <= i <= |src| && 0 <= count <= MAX_CHARS && 0 <= dest <= 3 * count
        invariant rest == Copy(src[i..], count) && goal == Followed(buffer[..dest], rest)
        invariant buffer[dest..] == stale[dest..]
        decreases |src| - i
        modifies buffer
      {
        var more;
        i, dest, more, rest := TakeChar(src, i, count, dest, stale);
        if !more {
          break;
        }
        count := count + 1;
      }
      ghost var done := buffer[..dest];
      assert rest == Copied([], count);
      FollowedByNothing(goal, done, count);
      Terminate(dest, stale);
      byteCount := dest + 1;
      charCount := count;
      assert View() == Terminated(done, count, stale);
    }

    /** The terminating zero after dest bytes. */
    method Terminate(dest: nat, ghost stale: seq<Byte>)
      requires dest < buffer.Length == |stale| && buffer[dest..] == stale[dest..]
      modifies buffer
      ensures buffer[..] == old(buffer[..dest]) + [0] + stale[dest + 1..]
    {
      assert forall k :: dest < k < buffer.Length ==> buffer[k] == buffer[dest..][k - dest] == stale[k];
      buffer[dest] := 0;
    }

    /** One character of the loop above; `more` is false when it is cut off by the end of the string.
        `after` is what the loop copies from there on. */
    method TakeChar(src: seq<Byte>, i: nat, count: nat, dest: nat, ghost stale: seq<Byte>)
      returns (next: nat, end: nat, more: bool, ghost after: Copied)
      requires Valid() && |stale| == BUFFER_BYTES && i < |src| && count < MAX_CHARS && dest <= 3 * count
      requires buffer[dest..] == stale[dest..]
      modifies buffer
      ensures end <= 3 * (if more then count + 1 else count) && buffer[end..] == stale[end..]
      ensures i <= next <= |src| && after == Copy(src[next..], if more then count + 1 else count)
      ensures Followed(buffer[..end], after) == Followed(old(buffer[..dest]), Copy(src[i..], count))
      ensures if more then i < next else after == Copied([], count)
    {
      var w := CopyWidth(src[i]);
      ghost var done, rest := buffer[..dest], src[i..];
      if w == 0 {
        assert rest[1..] == src[i + 1..];
        return i + 1, dest, true, Copy(src[i + 1..], count + 1);
      }
      if i + w > |src| {
        return i, dest, false, Copied([], count);
      }
      assert rest[w..] == src[i + w..] && rest[..w] == src[i..i + w];
      CopyTakes(done, rest, count, w);
      PutBytes(dest, src[i..i + w]);
      next, end, more, after := i + w, dest + w, true, Copy(src[i + w..], count + 1);
      assert buffer[..end] == done + rest[..w];
      assert buffer[end..] == stale[dest..][w..];
    }

    /** The bytes of one character, stored from `dest` on. */
    method PutBytes(dest: nat, bs: seq<Byte>)
      requires dest + |bs| <= buffer.Length && 1 <= |bs| <= 3
      modifies buffer
      ensures buffer[..] == old(buffer[..dest]) + bs + old(buffer[dest + |bs|..])
    {
      buffer[dest] := bs[0];
      if |bs| >= 2 {
        buffer[dest + 1] := bs[1];
      }
      if |bs| == 3 {
        buffer[dest + 2] := bs[2];
      }
    }

    /** set(const uint16_t*): units up to the terminating zero unit. */
    method SetFromUnits(src: seq<Unit>)
      requires Valid() && NulFree(src)
      modifies this, buffer
      ensures Valid() && View() == SetUnits(src, old(buffer[..]))
    {
      ghost var stale := buffer[..];
      var count, dest := 0, 0;
      while count < |src| && count < MAX_CHARS
        invariant 0 <= count <= |src| && count <= MAX_CHARS && dest == |EncAll(src[..count])|
        invariant buffer[..dest] == EncAll(src[..count])
        invariant buffer[dest..] == stale[dest..]
        modifies buffer
      {
        dest := PutEncoded(dest, src[..count], src[count], stale);
        assert src[..count + 1] == src[..count] + [src[count]];
        count := count + 1;
      }
      Terminate(dest, stale);
      charCount := count;
      byteCount := dest + 1;
      assert src[..count] == if |src| < MAX_CHARS then src else src[..MAX_CHARS];
    }

    /** The 1, 2 or 3 bytes of a unit, after those of the units `done`. */
    method PutEncoded(dest: nat, ghost done: seq<Unit>, ch: Unit, ghost stale: seq<Byte>) returns (next: nat)
      requires buffer.Length == BUFFER_BYTES == |stale| && |done| < MAX_CHARS && dest == |EncAll(done)|
      requires buffer[..dest] == EncAll(done) && buffer[dest..] == stale[dest..]
      modifies buffer
      ensures next == |EncAll(done + [ch])| < BUFFER_BYTES
      ensures buffer[..next] == EncAll(done + [ch]) && buffer[next..] == stale[next..]
    {
      var e := Enc(ch);
      PutBytes(dest, e);
      next := dest + |e|;
      EncAllConcat(done, [ch]);
      assert [ch][1..] == [];
      assert EncAll([ch]) == e;
      assert buffer[..next] == EncAll(done) + e;
    }

    /** False when the packet is too short; the buffer's text is then undefined. */
    method ReadFromPacket(packet: DataPacket) returns (ok: bool)
      requires Valid() && packet.Valid() && packet.buffer != buffer
      modifies this, buffer, packet`offset
      ensures Valid() && packet.Valid()
      ensures var r := ReadCounted(old(packet.View().bytes[packet.offset..]));
              && ok == r.Some?
              && (ok ==> View() == Terminated(EncAll(r.value), |r.value|, old(buffer[..])))
              && (ok ==> packet.offset == old(packet.offset) + 1 + 2 * |r.value|)
    {
      ghost var stale, start, bytes := buffer[..], packet.offset, packet.View().bytes;
      ghost var unread := bytes[start..];
      var count := packet.GetUInt8();
      if count.None? {
        return false;
      }
      var n := count.value;
      FromLe1(bytes[start..start + 1]);
      assert n == unread[0];
      assert unread[1..] == bytes[start + 1..];
      var dest;
      ghost var us;
      dest, us, ok := ReadBody(packet, n, stale);
      if ok {
        Terminate(dest, stale);
        charCount := n;
        byteCount := dest + 1;
      }
    }

    /** The loop that turns n 16-bit characters into UTF-8. */
    method ReadBody(packet: DataPacket, n: nat, ghost stale: seq<Byte>)
      returns (dest: nat, ghost us: seq<Unit>, ok: bool)
      requires Valid() && packet.Valid() && packet.buffer != buffer && n <= MAX_CHARS && buffer[..] == stale
      modifies buffer, packet`offset
      ensures packet.Valid()
      ensures var r := ReadUnits(old(packet.View().bytes[packet.offset..]), n);
              && ok == r.Some?
              && (ok ==> r.value == us && packet.offset == old(packet.offset) + 2 * n)
              && (ok ==> dest == |EncAll(us)| && buffer[..dest] == EncAll(us) && buffer[dest..] == stale[dest..])
    {
      ghost var start, bytes := packet.offset, packet.View().bytes;
      us, dest := [], 0;
      for i := 0 to n
        invariant packet.Valid() && packet.offset == start + 2 * i && packet.View().bytes == bytes
        invariant start + 2 * i <= |bytes| && us == UnitsFrom(bytes, start, i)
        invariant dest == |EncAll(us)| && buffer[..dest] == EncAll(us) && buffer[dest..] == stale[dest..]
        modifies buffer, packet`offset
      {
        dest, us, ok := ReadUnit(packet, bytes, start, i, dest, us, stale);
        if !ok {
          return;
        }
      }
      UnitsRead(bytes, start, n);
      ok := true;
    }

    /** One character: number i of those that start at `start`. */
    method ReadUnit(packet: DataPacket, ghost bytes: seq<Byte>, ghost start: nat, ghost i: nat, dest: nat,
                    ghost us: seq<Unit>, ghost stale: seq<Byte>)
      returns (next: nat, ghost vs: seq<Unit>, more: bool)
      requires Valid() && packet.Valid() && packet.buffer != buffer && |stale| == BUFFER_BYTES
      requires packet.View().bytes == bytes && packet.offset == start + 2 * i && us == UnitsFrom(bytes, start, i)
      requires i < MAX_CHARS && dest == |EncAll(us)|
      requires buffer[..dest] == EncAll(us) && buffer[dest..] == stale[dest..]
      modifies buffer, packet`offset
      ensures packet.Valid() && more == (start + 2 * (i + 1) <= |bytes|)
      ensures more ==> packet.offset == start + 2 * (i + 1) && vs == UnitsFrom(bytes, start, i + 1)
      ensures more ==> next == |EncAll(vs)| && buffer[..next] == EncAll(vs) && buffer[next..] == stale[next..]
    {
      ghost var at := packet.offset;
      vs, next := us, dest;
      var ch := packet.GetUInt16();
      if ch.None? {
        more := false;
        return;
      }
      FromLe2(bytes[at..at + 2]);
      assert ch.value == UnitAt(bytes, at);
      next := PutEncoded(dest, us, ch.value, stale);
      UnitsFromNext(bytes, start, i);
      vs := us + [ch.value];
      more := true;
    }

    method WriteToPacket(packet: DataPacket)
      requires Valid() && packet.Valid() && packet.buffer != buffer
      modifies packet, packet.buffer
      ensures packet.Valid() && (packet.buffer == old(packet.buffer) || fresh(packet.buffer))
      ensures packet.View() == Put(old(packet.View()), Written(View()))
    {
      ghost var p0, mem := packet.View(), buffer[..];
      var first := if charCount > 0 then charCount + 1 else 0;
      packet.PutInt8(first);
      var enc := WriteUnits(packet, p0, Le(first, 1));
      WrittenPieces(p0, DecAll(mem, charCount), first, enc);
      if charCount > 0 {
        packet.PutInt16(0);
      }
    }

    /** The loop that expands the text to 16-bit characters; `head` is what has been put since p0 before. */
    method WriteUnits(packet: DataPacket, ghost p0: Packet, ghost head: seq<Byte>) returns (ghost enc: seq<Byte>)
      requires Valid() && packet.Valid() && packet.buffer != buffer
      requires p0.offset <= |p0.bytes| && packet.View() == Put(p0, head)
      modifies packet, packet.buffer
      ensures packet.Valid() && (packet.buffer == old(packet.buffer) || fresh(packet.buffer))
      ensures enc == LeUnits(DecAll(buffer[..], charCount)) && packet.View() == Put(p0, head + enc)
    {
      ghost var mem, us: seq<Unit> := buffer[..], [];
      enc := [];
      assert head + enc == head;
      var src := 0;
      for i := 0 to charCount
        invariant packet.Valid() && (packet.buffer == old(packet.buffer) || fresh(packet.buffer))
        invariant packet.buffer != buffer && buffer[..] == mem
        invariant src == Pos(mem, i) && us == DecAll(mem, i)
        invariant enc == LeUnits(us) && packet.View() == Put(p0, head + enc)
        modifies packet, packet.buffer
      {
        src, us, enc := WriteUnit(packet, src, mem, us, i, p0, head, enc);
      }
    }

    /** One character: expanded from src on, and put after what has been put since p0. */
    method WriteUnit(packet: DataPacket, src: nat, ghost mem: seq<Byte>, ghost us: seq<Unit>, ghost i: nat,
                     ghost p0: Packet, ghost head: seq<Byte>, ghost enc: seq<Byte>)
      returns (next: nat, ghost vs: seq<Unit>, ghost after: seq<Byte>)
      requires Valid() && packet.Valid() && packet.buffer != buffer && buffer[..] == mem
      requires i < charCount && src == Pos(mem, i) && us == DecAll(mem, i) && enc == LeUnits(us)
      requires p0.offset <= |p0.bytes| && packet.View() == Put(p0, head + enc)
      modifies packet, packet.buffer
      ensures packet.Valid() && (packet.buffer == old(packet.buffer) || fresh(packet.buffer)) && packet.buffer != buffer
      ensures next == Pos(mem, i + 1) && vs == DecAll(mem, i + 1)
      ensures after == LeUnits(vs) && packet.View() == Put(p0, head + after)
    {
      var ch;
      ch, next := NextUnit(src, mem, i);
      packet.PutInt16(ch);
      vs, after := us + [ch], enc + Le(ch, 2);
      UnitPut(p0, head, us, enc, ch);
    }

    /** The character at src, and where the next one starts. */
    method NextUnit(src: nat, ghost mem: seq<Byte>, ghost i: nat) returns (ch: Unit, next: nat)
      requires Valid() && buffer[..] == mem && i < charCount && src == Pos(mem, i)
      ensures next == Pos(mem, i + 1) && DecAll(mem, i + 1) == DecAll(mem, i) + [ch]
    {
      var ch1 := buffer[src];
      var c0: int := ch1;
      if c0 < 0x80 {
        ch := c0;
      } else if c0 / 0x20 == 6 {
        var c1: int := buffer[src + 1];
        ch := c0 % 0x20 * 0x40 + c1 % 0x40;
      } else {
        var c1: int, c2: int := buffer[src + 1], buffer[src + 2];
        ch := c0 % 0x10 * 0x1000 + c1 % 0x40 * 0x40 + c2 % 0x40;
      }
      assert ch == DecAt(mem, src);
      next := src + Width(ch1);
    }
  }

  /** The 16-bit character at position p. */
  function UnitAt(bytes: seq<Byte>, p: nat): Unit
    requires p + 2 <= |bytes|
  {
    Unit16(bytes[p], bytes[p + 1])
  }

  ghost function UnitsFrom(bytes: seq<Byte>, start: nat, count: nat): (us: seq<Unit>)
    requires start + 2 * count <= |bytes|
    ensures |us| == count
  {
    seq(count, k requires 0 <= k < count => UnitAt(bytes, start + 2 * k))
  }

  lemma UnitsFromNext(bytes: seq<Byte>, start: nat, i: nat)
    requires start + 2 * (i + 1) <= |bytes|
    ensures UnitsFrom(bytes, start, i + 1) == UnitsFrom(bytes, start, i) + [UnitAt(bytes, start + 2 * i)]
  {
  }

  lemma UnitsRead(bytes: seq<Byte>, start: nat, count: nat)
    requires start + 2 * count <= |bytes|
    ensures ReadUnits(bytes[start..], count) == Some(UnitsFrom(bytes, start, count))
  {
    var r, us := ReadUnits(bytes[start..], count).value, UnitsFrom(bytes, start, count);
    forall k | 0 <= k < count ensures r[k] == us[k] {
      assert us[k] == UnitAt(bytes, start + 2 * k);
    }
    assert r == us;
  }

  lemma UnitPut(p: Packet, head: seq<Byte>, us: seq<Unit>, enc: seq<Byte>, ch: Unit)
    requires p.offset <= |p.bytes| && enc == LeUnits(us)
    ensures Put(Put(p, head + enc), Le(ch, 2)) == Put(p, head + (enc + Le(ch, 2)))
    ensures LeUnits(us + [ch]) == enc + Le(ch, 2)
  {
    PutPut(p, head + enc, Le(ch, 2));
    ConcatThree(head, enc, Le(ch, 2));
    LeUnitsAppend(us, ch);
  }

  lemma CountedPieces(us: seq<Unit>, first: nat, enc: seq<Byte>)
    requires first == (if us == [] then 0 else |us| + 1) && enc == LeUnits(us)
    ensures Counted(us) == if us == [] then Le(first, 1) + enc else Le(first, 1) + enc + Le(0, 2)
  {
    Le2(0);
  }

  lemma WrittenPieces(p: Packet, us: seq<Unit>, first: nat, enc: seq<Byte>)
    requires p.offset <= |p.bytes| && first == (if us == [] then 0 else |us| + 1) && enc == LeUnits(us)
    ensures us == [] ==> Put(p, Le(first, 1) + enc) == Put(p, Counted(us))
    ensures us != [] ==> Put(Put(p, Le(first, 1) + enc), Le(0, 2)) == Put(p, Counted(us))
  {
    var head := Le(first, 1) + enc;
    CountedPieces(us, first, enc);
    PutPut(p, head, Le(0, 2));
  }

  ghost function Followed(done: seq<Byte>, r: Copied): Copied {
    Copied(done + r.bytes, r.count)
  }

  lemma FollowedByNothing(goal: Copied, done: seq<Byte>, count: nat)
    requires goal == Followed(done, Copied([], count))
    ensures goal == Copied(done, count)
  {
  }

  lemma CopyTakes(done: seq<Byte>, s: seq<Byte>, count: nat, w: nat)
    requires s != [] && count < MAX_CHARS && w == CopyWidth(s[0]) && 0 < w <= |s|
    ensures Followed(done, Copy(s, count)) == Followed(done + s[..w], Copy(s[w..], count + 1))
  {
  }
}
