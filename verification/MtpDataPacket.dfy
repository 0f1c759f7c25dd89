/** The MTP packet: a growing byte buffer with a cursor, and its header fields at fixed offsets. */
module MtpDataPacket {
  import opened Basics
  import opened LittleEndian

  const HEADER_SIZE := 12
  const PARAMETER_OFFSET := 12
  const BUFFER_SIZE := 16384

  /** The bytes of the packet, header included, and the position of the next get or put. */
  datatype Packet = Packet(bytes: seq<Byte>, offset: nat)

  ghost predicate Positioned(p: Packet) {
    p.offset <= |p.bytes|
  }

  /** A put overwrites what is under the cursor and extends the packet when it runs past its end. */
  function Put(p: Packet, bs: seq<Byte>): (r: Packet)
    requires p.offset <= |p.bytes|
    ensures r.offset == p.offset + |bs| <= |r.bytes|
  {
    var end := p.offset + |bs|;
    Packet(p.bytes[..p.offset] + bs + Tail(p.bytes, end), end)
  }

  function Tail(bytes: seq<Byte>, end: nat): seq<Byte> {
    if end < |bytes| then bytes[end..] else []
  }

  function Get(p: Packet, k: nat): Option<(seq<Byte>, Packet)>
    requires p.offset <= |p.bytes|
  {
    if |p.bytes| - p.offset < k then None
    else Some((p.bytes[p.offset..p.offset + k], Packet(p.bytes, p.offset + k)))
  }

  /** One put after the other is one put of both. */
  lemma PutPut(p: Packet, a: seq<Byte>, b: seq<Byte>)
    requires p.offset <= |p.bytes|
    ensures Put(Put(p, a), b) == Put(p, a + b)
  {
    TailTail(p.bytes, p.bytes[..p.offset] + a, b);
    assert p.bytes[..p.offset] + a + b == p.bytes[..p.offset] + (a + b);
  }

  lemma TailTail(bytes: seq<Byte>, front: seq<Byte>, b: seq<Byte>)
    ensures (front + Tail(bytes, |front|))[..|front|] == front
    ensures Tail(front + Tail(bytes, |front|), |front| + |b|) == Tail(bytes, |front| + |b|)
  {
  }

  /** A put changes the bytes under the cursor and no others, extends the packet to its end, and what was put is
      what a get at the same place gives. */
  lemma PutIs(p: Packet, bs: seq<Byte>)
    requires p.offset <= |p.bytes|
    ensures var r := Put(p, bs);
            && |r.bytes| == (if p.offset + |bs| > |p.bytes| then p.offset + |bs| else |p.bytes|)
            && (forall k :: 0 <= k < |r.bytes| ==>
                  r.bytes[k] == if p.offset <= k < p.offset + |bs| then bs[k - p.offset] else p.bytes[k])
            && r.offset == p.offset + |bs|
            && Get(Packet(r.bytes, p.offset), |bs|) == Some((bs, r))
  {
    assert Put(p, bs).bytes[p.offset..p.offset + |bs|] == bs;
  }

  class DataPacket {
    var buffer: array<Byte>
    var packetSize: nat
    var offset: nat
    const increment: nat

    ghost predicate Valid()
      reads this
    {
      packetSize <= buffer.Length && offset <= packetSize && buffer.Length >= HEADER_SIZE
    }

    ghost function View(): (p: Packet)
      requires Valid()
      reads this, buffer
      ensures p.offset <= |p.bytes|
    {
      Packet(buffer[..packetSize], offset)
    }

    /** What the getters have not consumed yet. */
    ghost function Unread(): seq<Byte>
      requires Valid()
      reads this, buffer
    {
      View().bytes[offset..]
    }

    /** The original leaves the cursor past the empty packet until the first reset; the two are one here. */
    constructor ()
      ensures Valid() && fresh(buffer) && increment == BUFFER_SIZE
      ensures View() == Packet(seq(HEADER_SIZE, _ => 0), HEADER_SIZE)
    {
      buffer := new Byte[BUFFER_SIZE](_ => 0);
      increment := BUFFER_SIZE;
      packetSize, offset := HEADER_SIZE, HEADER_SIZE;
    }

    method Reset()
      requires Valid()
      modifies this, buffer
      ensures Valid() && buffer == old(buffer)
      ensures View() == Packet(seq(HEADER_SIZE, _ => 0), HEADER_SIZE)
    {
      packetSize := HEADER_SIZE;
      for i := 0 to buffer.Length
        invariant forall k :: 0 <= k < i ==> buffer[k] == 0
        modifies buffer
      {
        buffer[i] := 0;
      }
      offset := HEADER_SIZE;
    }

    /** Grows the buffer to hold at least `length` bytes; what is in it stays. */
    method Allocate(length: nat)
      modifies this`buffer
      ensures buffer.Length >= length && buffer.Length >= old(buffer.Length)
      ensures buffer == old(buffer) || fresh(buffer)
      ensures forall k :: 0 <= k < old(buffer.Length) ==> buffer[k] == old(buffer[k])
    {
      if length > buffer.Length {
        var b := new Byte[length + increment];
        for i := 0 to buffer.Length
          invariant forall k :: 0 <= k < i ==> b[k] == buffer[k]
          modifies b
        {
          b[i] := buffer[i];
        }
        buffer := b;
      }
    }

    /** The state after k bytes v have been stored at the old cursor. */
    ghost predicate Stored(before: Packet, v: seq<Byte>)
      requires Positioned(before)
      reads this, buffer
    {
      Valid() && View() == Put(before, v)
    }

    lemma StoredAll(before: Packet, v: seq<Byte>)
      requires Positioned(before) && packetSize <= buffer.Length && buffer.Length >= HEADER_SIZE
      requires offset == before.offset + |v| && packetSize == if |before.bytes| < offset then offset else |before.bytes|
      requires forall k :: 0 <= k < |v| ==> buffer[before.offset + k] == v[k]
      requires forall k :: 0 <= k < |before.bytes| && !(before.offset <= k < offset) ==> buffer[k] == before.bytes[k]
      ensures Stored(before, v)
    {
      var p, q := buffer[..packetSize], Put(before, v).bytes;
      forall k | 0 <= k < packetSize ensures p[k] == q[k] {
        if before.offset <= k < offset {
          assert buffer[before.offset + (k - before.offset)] == v[k - before.offset];
        }
      }
      assert p == q;
    }

    /** The four bytes of a 32-bit value at a fixed offset, within the buffer. */
    method PutUInt32At(at: nat, value: int)
      requires at + 4 <= buffer.Length
      modifies buffer
      ensures buffer[..] == old(Overlay(buffer[..], at, Le(value, 4)))
    {
      buffer[at] := value % 256;
      buffer[at + 1] := value / 0x100 % 256;
      buffer[at + 2] := value / 0x1_0000 % 256;
      buffer[at + 3] := value / 0x100_0000 % 256;
      Le4(value);
    }

    /** Signed and unsigned puts of one width store the same bytes. */
    method PutInt8(value: int)
      requires Valid()
      modifies this, buffer
      ensures (buffer == old(buffer) || fresh(buffer)) && Stored(old(View()), Le(value, 1))
    {
      ghost var before := View();
      Allocate(offset + 1);
      buffer[offset] := value % 256;
      offset := offset + 1;
      if packetSize < offset {
        packetSize := offset;
      }
      StoredAll(before, Le(value, 1));
    }

    method PutInt16(value: int)
      requires Valid()
      modifies this, buffer
      ensures (buffer == old(buffer) || fresh(buffer)) && Stored(old(View()), Le(value, 2))
    {
      ghost var before := View();
      Allocate(offset + 2);
      buffer[offset] := value % 256;
      buffer[offset + 1] := value / 0x100 % 256;
      offset := offset + 2;
      if packetSize < offset {
        packetSize := offset;
      }
      Le2(value);
      StoredAll(before, Le(value, 2));
    }

    method PutInt32(value: int)
      requires Valid()
      modifies this, buffer
      ensures (buffer == old(buffer) || fresh(buffer)) && Stored(old(View()), Le(value, 4))
    {
      ghost var before := View();
      Allocate(offset + 4);
      ghost var b := buffer[..];
      PutUInt32At(offset, value);
      assert forall k :: 0 <= k < buffer.Length ==> buffer[k] == Overlay(b, offset, Le(value, 4))[k];
      offset := offset + 4;
      if packetSize < offset {
        packetSize := offset;
      }
      StoredAll(before, Le(value, 4));
    }

    method PutInt64(value: int)
      requires Valid()
      modifies this, buffer
      ensures (buffer == old(buffer) || fresh(buffer)) && Stored(old(View()), Le(value, 8))
    {
      ghost var before := View();
      PutInt32(value);
      PutInt32(value / 0x1_0000_0000);
      Pow4();
      LeConcat(value, 4, 4);
      PutPut(before, Le(value, 4), Le(value / 0x1_0000_0000, 4));
    }

    /** Reads are the unsigned ones; the signed getters reinterpret their result. */
    method GetUInt8() returns (value: Option<nat>)
      requires Valid()
      modifies this`offset
      ensures Valid() && Read(old(View()), 1, value)
    {
      if packetSize - offset < 1 {
        return None;
      }
      value := Some(buffer[offset]);
      assert View().bytes[offset..offset + 1] == [buffer[offset]];
      offset := offset + 1;
    }

    method GetUInt16() returns (value: Option<nat>)
      requires Valid()
      modifies this`offset
      ensures Valid() && Read(old(View()), 2, value)
    {
      if packetSize - offset < 2 {
        return None;
      }
      ghost var bs := View().bytes[offset..offset + 2];
      FromLe2(bs);
      var a: int, b: int := buffer[offset], buffer[offset + 1];
      value := Some(a + 0x100 * b);
      offset := offset + 2;
    }

    method GetUInt32() returns (value: Option<nat>)
      requires Valid()
      modifies this`offset
      ensures Valid() && Read(old(View()), 4, value)
    {
      if packetSize - offset < 4 {
        return None;
      }
      ghost var p := View();
      ghost var bs := p.bytes[offset..offset + 4];
      var sum := Word(offset, bs);
      value := Some(sum);
      offset := offset + 4;
      assert Get(p, 4) == Some((bs, View()));
    }

    /** The value of the four bytes bs at position `at`. */
    method Word(at: nat, ghost bs: seq<Byte>) returns (sum: nat)
      requires at + 4 <= buffer.Length && |bs| == 4 && forall k :: 0 <= k < 4 ==> buffer[at + k] == bs[k]
      ensures sum == FromLe(bs)
    {
      FromLe4(bs);
      var a: int, b: int, c: int, d: int := buffer[at + 0], buffer[at + 1], buffer[at + 2], buffer[at + 3];
      sum := a + 0x100 * b + 0x1_0000 * c + 0x100_0000 * d;
    }

    method GetUInt64() returns (value: Option<nat>)
      requires Valid()
      modifies this`offset
      ensures Valid() && Read(old(View()), 8, value)
    {
      if packetSize - offset < 8 {
        return None;
      }
      ghost var p := View();
      ghost var bs := p.bytes[offset..offset + 8];
      var sum := LongWord(offset, bs);
      value := Some(sum);
      offset := offset + 8;
      assert Get(p, 8) == Some((bs, View()));
    }

    /** The value of the eight bytes bs at position `at`. */
    method LongWord(at: nat, ghost bs: seq<Byte>) returns (sum: nat)
      requires at + 8 <= buffer.Length && |bs| == 8 && forall k :: 0 <= k < 8 ==> buffer[at + k] == bs[k]
      ensures sum == FromLe(bs)
    {
      FromLe8(bs);
      var a: int, b: int, c: int, d: int := buffer[at + 0], buffer[at + 1], buffer[at + 2], buffer[at + 3];
      var e: int, f: int, g: int, h: int := buffer[at + 4], buffer[at + 5], buffer[at + 6], buffer[at + 7];
      sum := a + 0x100 * b + 0x1_0000 * c + 0x100_0000 * d + 0x1_0000_0000 * e
             + 0x100_0000_0000 * f + 0x1_0000_0000_0000 * g + 0x100_0000_0000_0000 * h;
    }

    /** A get of k bytes: their little-endian value and the cursor after them, or neither. */
    ghost predicate Read(before: Packet, k: nat, value: Option<nat>)
      requires Positioned(before) && Valid()
      reads this, buffer
    {
      match Get(before, k)
      case None => value.None? && View() == before
      case Some((bs, after)) => value == Some(FromLe(bs)) && View() == after
    }

    /** Sets request or response parameter `index`; the packet grows to hold it, and an index that is
        not 1..5 does nothing. */
    method SetParameter(index: int, value: int)
      requires Valid() && buffer.Length >= PARAMETER_OFFSET + 20
      modifies this`packetSize, buffer
      ensures Valid()
      ensures !(1 <= index <= 5) ==> packetSize == old(packetSize) && buffer[..] == old(buffer[..])
      ensures 1 <= index <= 5 ==>
        var at := PARAMETER_OFFSET + (index - 1) * 4;
        && packetSize == (if old(packetSize) < at + 4 then at + 4 else old(packetSize))
        && buffer[..] == old(Overlay(buffer[..], at, Le(value, 4)))
    {
      if index < 1 || index > 5 {
        return;
      }
      var at := PARAMETER_OFFSET + (index - 1) * 4;
      if packetSize < at + 4 {
        packetSize := at + 4;
      }
      PutUInt32At(at, value);
    }

    method GetParameter(index: int) returns (value: nat)
      requires Valid() && buffer.Length >= PARAMETER_OFFSET + 20
      ensures value == Parameter(buffer[..], index)
    {
      if index < 1 || index > 5 {
        return 0;
      }
      var at := PARAMETER_OFFSET + (index - 1) * 4;
      value := Word(at, buffer[at..at + 4]);
    }

    /** Takes the packet of another one; the cursor is not copied. */
    method CopyFrom(src: DataPacket)
      requires Valid() && src.Valid() && src != this && src.buffer != buffer
      modifies this, buffer
      ensures packetSize == src.packetSize <= buffer.Length && offset == old(offset)
      ensures buffer[..packetSize] == src.buffer[..packetSize]
    {
      var length := src.packetSize;
      Allocate(length);
      packetSize := length;
      for i := 0 to length
        invariant forall k :: 0 <= k < i ==> buffer[k] == src.buffer[k]
        modifies buffer
      {
        buffer[i] := src.buffer[i];
      }
    }
  }

  function Parameter(b: seq<Byte>, index: int): nat
    requires |b| >= PARAMETER_OFFSET + 20
  {
    if index < 1 || index > 5 then 0
    else FromLe(b[PARAMETER_OFFSET + (index - 1) * 4..PARAMETER_OFFSET + index * 4])
  }

  /** A parameter set is the parameter got; the others, and the header, are as before. */
  lemma ParameterRoundTrip(b: seq<Byte>, i: int, j: int, value: int)
    requires |b| >= PARAMETER_OFFSET + 20 && 1 <= i <= 5 && InRange(value, 4, false)
    ensures var r := Overlay(b, PARAMETER_OFFSET + (i - 1) * 4, Le(value, 4));
            && Parameter(r, j) == (if j == i then value else Parameter(b, j)) && r[..12] == b[..12]
            && (!(1 <= j <= 5) ==> Parameter(r, j) == 0)
            && r[8 + 4 * i..12 + 4 * i] == Le(value, 4)
  {
    IntegerRoundTrip(value, 4, false);
    ParameterOverlay(b, i, j, Le(value, 4));
  }

  lemma ParameterOverlay(b: seq<Byte>, i: int, j: int, v: seq<Byte>)
    requires |b| >= PARAMETER_OFFSET + 20 && 1 <= i <= 5 && |v| == 4
    ensures var r := Overlay(b, PARAMETER_OFFSET + (i - 1) * 4, v);
            Parameter(r, j) == (if j == i then FromLe(v) else Parameter(b, j)) && r[..HEADER_SIZE] == b[..HEADER_SIZE]
  {
    if 1 <= j <= 5 {
      OverlaySlice(b, PARAMETER_OFFSET + (i - 1) * 4, v, PARAMETER_OFFSET + (j - 1) * 4);
    }
  }

  lemma OverlaySlice(b: seq<Byte>, i: nat, v: seq<Byte>, j: nat)
    requires i + |v| <= |b| && j + |v| <= |b|
    requires j == i || j + |v| <= i || i + |v| <= j
    ensures Overlay(b, i, v)[j..j + |v|] == if j == i then v else b[j..j + |v|]
  {
    var r := Overlay(b, i, v);
    assert forall k :: 0 <= k < |b| ==> r[k] == if i <= k < i + |v| then v[k - i] else b[k];
  }
}
