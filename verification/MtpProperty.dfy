/** The property object: write puts its fields into a packet, read fills them from one. */
module MtpProperty {
  import opened Basics
  import opened LittleEndian
  import opened MtpDataPacket
  import opened MtpString
  import opened MtpStringBuffer
  import opened MtpPropertyForm

  class Property {
    var code: nat
    var typ: nat
    var writeable: bool
    var default: Value
    var current: Value
    var defaultArray: seq<Value>
    var currentArray: seq<Value>
    var group: nat
    var form: nat
    var minimum: Value
    var maximum: Value
    var step: Value
    var enums: seq<Value>

    ghost function View(): Prop
      reads this
    {
      Prop(code, typ, writeable, default, current, defaultArray, currentArray, group, form, minimum, maximum, step,
          enums)
    }

    constructor (code: nat, typ: nat, writeable: bool)
      ensures View() == Prop(code, typ, writeable, Num(0), Num(0), [], [], 0, 0, Num(0), Num(0), Num(0), [])
    {
      this.code, this.typ, this.writeable := code, typ, writeable;
      default, current, defaultArray, currentArray := Num(0), Num(0), [], [];
      group, form, minimum, maximum, step, enums := 0, 0, Num(0), Num(0), Num(0), [];
    }

    // ---- Writing -----------------------------------------------------------------------------------

    method Write(packet: DataPacket)
      requires packet.Valid() && WellTyped(View())
      modifies packet, packet.buffer
      ensures packet.Valid() && (packet.buffer == old(packet.buffer) || fresh(packet.buffer))
      ensures packet.View() == Put(old(packet.View()), EncProp(View()))
    {
      ghost var p := packet.View();
      WriteHead(packet);
      WriteBody(packet);
      WriteForm(packet);
      PutPut(Put(p, EncHead(View())), EncBody(View()), EncForm(View()));
      PutPut(p, EncHead(View()), EncBody(View()) + EncForm(View()));
    }

    method WriteHead(packet: DataPacket)
      requires packet.Valid()
      modifies packet, packet.buffer
      ensures packet.Valid() && (packet.buffer == old(packet.buffer) || fresh(packet.buffer))
      ensures packet.View() == Put(old(packet.View()), EncHead(View()))
    {
      ghost var p := packet.View();
      var w := if writeable then 1 else 0;
      packet.PutInt16(code);
      packet.PutInt16(typ);
      packet.PutInt8(w);
      PutPut(p, Le(code, 2), Le(typ, 2));
      PutPut(p, Le(code, 2) + Le(typ, 2), Le(w, 1));
    }

    method WriteBody(packet: DataPacket)
      requires packet.Valid() && WellTyped(View())
      modifies packet, packet.buffer
      ensures packet.Valid() && (packet.buffer == old(packet.buffer) || fresh(packet.buffer))
      ensures packet.View() == Put(old(packet.View()), EncBody(View()))
    {
      ghost var p := packet.View();
      var k := KindOf(typ);
      if k.None? {
        PutNothing(p);
      } else if IsArrayType(typ) {
        WriteArray(packet, k.value, defaultArray);
        if IsDeviceCode(code) {
          WriteArray(packet, k.value, currentArray);
          PutPut(p, EncArray(k.value, defaultArray), EncArray(k.value, currentArray));
        } else {
          assert EncBody(View()) == EncArray(k.value, defaultArray);
        }
      } else {
        WriteValue(packet, k.value, default);
        if IsDeviceCode(code) {
          WriteValue(packet, k.value, current);
          PutPut(p, EncValue(k.value, default), EncValue(k.value, current));
        } else {
          assert EncBody(View()) == EncValue(k.value, default);
        }
      }
    }

    method WriteForm(packet: DataPacket)
      requires packet.Valid() && WellTyped(View())
      modifies packet, packet.buffer
      ensures packet.Valid() && (packet.buffer == old(packet.buffer) || fresh(packet.buffer))
      ensures packet.View() == Put(old(packet.View()), EncForm(View()))
    {
      ghost var p := packet.View();
      ghost var g := if IsDeviceCode(code) then [] else Le(group, 4);
      if !IsDeviceCode(code) {
        packet.PutInt32(group);
      } else {
        PutNothing(p);
      }
      packet.PutInt8(form);
      PutPut(p, g, Le(form, 1));
      var l := WriteLimits(packet);
      PutPut(p, g + Le(form, 1), l);
    }

    method WriteLimits(packet: DataPacket) returns (ghost l: seq<Byte>)
      requires packet.Valid() && WellTyped(View())
      modifies packet, packet.buffer
      ensures packet.Valid() && (packet.buffer == old(packet.buffer) || fresh(packet.buffer))
      ensures packet.View() == Put(old(packet.View()), l)
      ensures EncForm(View()) == (if IsDeviceCode(code) then [] else Le(group, 4)) + Le(form, 1) + l
    {
      var k := KindOf(typ);
      l := [];
      PutNothing(packet.View());
      if form == FORM_RANGE {
        if k.Some? {
          l := WriteRange(packet, k.value);
        }
      } else if form == FORM_ENUM {
        l := WriteEnum(packet, k);
      }
    }

    method WriteRange(packet: DataPacket, k: Kind) returns (ghost l: seq<Byte>)
      requires packet.Valid() && KindOf(typ) == Some(k) && Typed(k, minimum) && Typed(k, maximum) && Typed(k, step)
      modifies packet, packet.buffer
      ensures packet.Valid() && (packet.buffer == old(packet.buffer) || fresh(packet.buffer))
      ensures l == EncValue(k, minimum) + EncValue(k, maximum) + EncValue(k, step)
      ensures packet.View() == Put(old(packet.View()), l)
    {
      ghost var p, a, b, c := packet.View(), EncValue(k, minimum), EncValue(k, maximum), EncValue(k, step);
      WriteValue(packet, k, minimum);
      WriteValue(packet, k, maximum);
      WriteValue(packet, k, step);
      PutPut(p, a, b);
      PutPut(p, a + b, c);
      l := a + b + c;
    }

    method WriteEnum(packet: DataPacket, k: Option<Kind>) returns (ghost l: seq<Byte>)
      requires packet.Valid() && KindOf(typ) == k && (k.Some? ==> AllTyped(k.value, enums))
      modifies packet, packet.buffer
      ensures packet.Valid() && (packet.buffer == old(packet.buffer) || fresh(packet.buffer))
      ensures l == Le(|enums|, 2) + (if k.None? then [] else EncValues(k.value, enums))
      ensures packet.View() == Put(old(packet.View()), l)
    {
      ghost var p := packet.View();
      packet.PutInt16(|enums|);
      l := Le(|enums|, 2);
      if k.Some? {
        WriteValues(packet, k.value, enums);
        PutPut(p, l, EncValues(k.value, enums));
        l := l + EncValues(k.value, enums);
      }
    }

    method WriteArray(packet: DataPacket, k: Kind, vs: seq<Value>)
      requires packet.Valid() && AllTyped(k, vs) && KindOf(typ) == Some(k)
      modifies packet, packet.buffer
      ensures packet.Valid() && (packet.buffer == old(packet.buffer) || fresh(packet.buffer))
      ensures packet.View() == Put(old(packet.View()), EncArray(k, vs))
    {
      ghost var p := packet.View();
      packet.PutInt32(|vs|);
      WriteValues(packet, k, vs);
      PutPut(p, Le(|vs|, 4), EncValues(k, vs));
    }

    method WriteValues(packet: DataPacket, k: Kind, vs: seq<Value>)
      requires packet.Valid() && AllTyped(k, vs) && KindOf(typ) == Some(k)
      modifies packet, packet.buffer
      ensures packet.Valid() && (packet.buffer == old(packet.buffer) || fresh(packet.buffer))
      ensures packet.View() == Put(old(packet.View()), EncValues(k, vs))
    {
      ghost var p, enc := packet.View(), [];
      PutNothing(p);
      for i := 0 to |vs|
        invariant packet.Valid() && (packet.buffer == old(packet.buffer) || fresh(packet.buffer))
        invariant enc == EncUpTo(k, vs, i) && packet.View() == Put(p, enc)
        modifies packet, packet.buffer
      {
        WriteNext(packet, k, vs[i], p, enc);
        enc := enc + EncValue(k, vs[i]);
      }
      EncUpToAll(k, vs);
    }

    /** One more value behind the bytes `enc` put since the packet was p. */
    method WriteNext(packet: DataPacket, k: Kind, v: Value, ghost p: Packet, ghost enc: seq<Byte>)
      requires packet.Valid() && Typed(k, v) && KindOf(typ) == Some(k) && p.offset <= |p.bytes|
      requires packet.View() == Put(p, enc)
      modifies packet, packet.buffer
      ensures packet.Valid() && (packet.buffer == old(packet.buffer) || fresh(packet.buffer))
      ensures packet.View() == Put(p, enc + EncValue(k, v))
    {
      PutPut(p, enc, EncValue(k, v));
      WriteValue(packet, k, v);
    }

    /** The union member or string of a value, as the type code says. */
    method WriteValue(packet: DataPacket, k: Kind, v: Value)
      requires packet.Valid() && Typed(k, v) && KindOf(typ) == Some(k)
      modifies packet, packet.buffer
      ensures packet.Valid() && (packet.buffer == old(packet.buffer) || fresh(packet.buffer))
      ensures packet.View() == Put(old(packet.View()), EncValue(k, v))
    {
      match k
      case Scalar(width, _) => PutNumber(packet, width, v.n);
      case Wide(_) => PutWords(packet, v.w);
      case Str =>
        if v.s.None? {
          packet.PutInt8(0);
          assert Le(0, 1) == [0];
        } else {
          PutChars(packet, v.s.value, v.stale);
        }
    }

    method PutNumber(packet: DataPacket, width: nat, n: int)
      requires packet.Valid() && width in {1, 2, 4, 8}
      modifies packet, packet.buffer
      ensures packet.Valid() && (packet.buffer == old(packet.buffer) || fresh(packet.buffer))
      ensures packet.View() == Put(old(packet.View()), Le(n, width))
    {
      if width == 1 {
        packet.PutInt8(n);
      } else if width == 2 {
        packet.PutInt16(n);
      } else if width == 4 {
        packet.PutInt32(n);
      } else {
        packet.PutInt64(n);
      }
    }

    method PutWords(packet: DataPacket, w: seq<int>)
      requires packet.Valid() && |w| == 4
      modifies packet, packet.buffer
      ensures packet.Valid() && (packet.buffer == old(packet.buffer) || fresh(packet.buffer))
      ensures packet.View() == Put(old(packet.View()), Le(w[0], 4) + Le(w[1], 4) + Le(w[2], 4) + Le(w[3], 4))
    {
      ghost var p, a, b, c, d := packet.View(), Le(w[0], 4), Le(w[1], 4), Le(w[2], 4), Le(w[3], 4);
      packet.PutInt32(w[0]);
      packet.PutInt32(w[1]);
      packet.PutInt32(w[2]);
      packet.PutInt32(w[3]);
      PutPut(p, a, b);
      PutPut(p, a + b, c);
      PutPut(p, a + b + c, d);
    }

    /** putString: the string goes through a buffer on memory that was used before. */
    method PutChars(packet: DataPacket, s: seq<Byte>, stale: seq<Byte>)
      requires packet.Valid() && NulFree(s) && |stale| == BUFFER_BYTES
      modifies packet, packet.buffer
      ensures packet.Valid() && (packet.buffer == old(packet.buffer) || fresh(packet.buffer))
      ensures packet.View() == Put(old(packet.View()), Written(SetChars(s, stale)))
    {
      var text := new StringBuffer.On(stale);
      text.SetFromChars(s);
      text.WriteToPacket(packet);
    }

    // ---- Reading -----------------------------------------------------------------------------------

    /** False as soon as something cannot be read; the fields read until then keep their new values. */
    method Read(packet: DataPacket) returns (ok: bool)
      requires packet.Valid()
      modifies this, packet`offset
      ensures packet.Valid()
      ensures var r := DecProp(old(View()), old(packet.Unread()));
              && ok == r.Some?
              && (ok ==> View() == r.value.0 && packet.Unread() == r.value.1)
    {
      ok := ReadHead(packet);
      if !ok {
        return;
      }
      var k := KindOf(typ);
      if k.None? {
        return false;
      }
      ok := ReadRest(packet, k.value);
    }

    /** What follows the head. */
    method ReadRest(packet: DataPacket, k: Kind) returns (ok: bool)
      requires packet.Valid() && KindOf(typ) == Some(k)
      modifies this, packet`offset
      ensures packet.Valid()
      ensures var r := DecRest(old(View()), k, old(packet.Unread()));
              && ok == r.Some?
              && (ok ==> View() == r.value.0 && packet.Unread() == r.value.1)
    {
      ok := ReadBody(packet, k);
      if !ok {
        return;
      }
      ok := ReadForm(packet, k);
    }

    method ReadHead(packet: DataPacket) returns (ok: bool)
      requires packet.Valid()
      modifies this, packet`offset
      ensures packet.Valid()
      ensures var r := DecHead(old(View()), old(packet.Unread()));
              && ok == r.Some?
              && (ok ==> View() == r.value.0 && packet.Unread() == r.value.1)
    {
      var c := GetNumber(packet, 2);
      if c.None? {
        return false;
      }
      code := c.value;
      ok := ReadType(packet);
    }

    method ReadType(packet: DataPacket) returns (ok: bool)
      requires packet.Valid()
      modifies this, packet`offset
      ensures packet.Valid()
      ensures var r := DecType(old(View()), old(packet.Unread()));
              && ok == r.Some?
              && (ok ==> View() == r.value.0 && packet.Unread() == r.value.1)
    {
      var t := GetNumber(packet, 2);
      if t.None? {
        return false;
      }
      typ := t.value;
      var w := GetNumber(packet, 1);
      if w.None? {
        return false;
      }
      writeable := w.value == 1;
      ok := true;
    }

    method ReadBody(packet: DataPacket, k: Kind) returns (ok: bool)
      requires packet.Valid() && KindOf(typ) == Some(k)
      modifies this, packet`offset
      ensures packet.Valid()
      ensures var r := DecBody(old(View()), k, old(packet.Unread()));
              && ok == r.Some?
              && (ok ==> View() == r.value.0 && packet.Unread() == r.value.1)
    {
      if IsArrayType(typ) {
        ok := ReadArrays(packet, k);
      } else {
        ok := ReadScalars(packet, k);
      }
    }

    method ReadArrays(packet: DataPacket, k: Kind) returns (ok: bool)
      requires packet.Valid() && KindOf(typ) == Some(k) && IsArrayType(typ)
      modifies this, packet`offset
      ensures packet.Valid()
      ensures var r := DecBody(old(View()), k, old(packet.Unread()));
              && ok == r.Some?
              && (ok ==> View() == r.value.0 && packet.Unread() == r.value.1)
    {
      var d := ReadArray(packet, k);
      if d.None? {
        return false;
      }
      defaultArray := d.value;
      if IsDeviceCode(code) {
        var c := ReadArray(packet, k);
        if c.None? {
          return false;
        }
        currentArray := c.value;
      }
      ok := true;
    }

    method ReadScalars(packet: DataPacket, k: Kind) returns (ok: bool)
      requires packet.Valid() && KindOf(typ) == Some(k) && !IsArrayType(typ)
      modifies this, packet`offset
      ensures packet.Valid()
      ensures var r := DecBody(old(View()), k, old(packet.Unread()));
              && ok == r.Some?
              && (ok ==> View() == r.value.0 && packet.Unread() == r.value.1)
    {
      var d := ReadValue(packet, k);
      if d.None? {
        return false;
      }
      default := d.value;
      if IsDeviceCode(code) {
        var c := ReadValue(packet, k);
        if c.None? {
          return false;
        }
        current := c.value;
      }
      ok := true;
    }

    method ReadForm(packet: DataPacket, k: Kind) returns (ok: bool)
      requires packet.Valid() && KindOf(typ) == Some(k)
      modifies this, packet`offset
      ensures packet.Valid()
      ensures var r := DecForm(old(View()), k, old(packet.Unread()));
              && ok == r.Some?
              && (ok ==> View() == r.value.0 && packet.Unread() == r.value.1)
    {
      if !IsDeviceCode(code) {
        var g := GetNumber(packet, 4);
        if g.None? {
          return false;
        }
        group := g.value;
      }
      var f := GetNumber(packet, 1);
      if f.None? {
        return false;
      }
      form := f.value;
      ok := ReadLimits(packet, k);
    }

    method ReadLimits(packet: DataPacket, k: Kind) returns (ok: bool)
      requires packet.Valid() && KindOf(typ) == Some(k)
      modifies this, packet`offset
      ensures packet.Valid()
      ensures var r := DecLimits(old(View()), k, old(packet.Unread()));
              && ok == r.Some?
              && (ok ==> View() == r.value.0 && packet.Unread() == r.value.1)
    {
      if form == FORM_RANGE {
        ok := ReadRange(packet, k);
      } else if form == FORM_ENUM {
        ok := ReadEnum(packet, k);
      } else {
        ok := true;
      }
    }

    method ReadRange(packet: DataPacket, k: Kind) returns (ok: bool)
      requires packet.Valid() && KindOf(typ) == Some(k) && form == FORM_RANGE
      modifies this, packet`offset
      ensures packet.Valid()
      ensures var r := DecLimits(old(View()), k, old(packet.Unread()));
              && ok == r.Some?
              && (ok ==> View() == r.value.0 && packet.Unread() == r.value.1)
    {
      var vs := ReadValues(packet, k, 3);
      if vs.None? {
        return false;
      }
      minimum, maximum, step := vs.value[0], vs.value[1], vs.value[2];
      ok := true;
    }

    method ReadEnum(packet: DataPacket, k: Kind) returns (ok: bool)
      requires packet.Valid() && KindOf(typ) == Some(k) && form == FORM_ENUM
      modifies this, packet`offset
      ensures packet.Valid()
      ensures var r := DecLimits(old(View()), k, old(packet.Unread()));
              && ok == r.Some?
              && (ok ==> View() == r.value.0 && packet.Unread() == r.value.1)
    {
      var n := GetNumber(packet, 2);
      if n.None? {
        return false;
      }
      var vs := ReadValues(packet, k, n.value);
      if vs.None? {
        return false;
      }
      enums := vs.value;
      ok := true;
    }

    method ReadArray(packet: DataPacket, k: Kind) returns (vs: Option<seq<Value>>)
      requires packet.Valid() && KindOf(typ) == Some(k)
      modifies packet`offset
      ensures packet.Valid() && Took(DecArray(k, old(packet.Unread())), vs, packet.Unread())
    {
      var n := GetNumber(packet, 4);
      if n.None? || n.value == 0 || n.value >= ARRAY_LIMIT {
        return None;
      }
      vs := ReadValues(packet, k, n.value);
    }

    method ReadValues(packet: DataPacket, k: Kind, n: nat) returns (vs: Option<seq<Value>>)
      requires packet.Valid() && KindOf(typ) == Some(k)
      modifies packet`offset
      ensures packet.Valid() && Took(DecValues(k, n, old(packet.Unread())), vs, packet.Unread())
      ensures vs.Some? ==> |vs.value| == n
    {
      ghost var goal := DecValues(k, n, packet.Unread());
      AheadNothing(goal);
      StillIs(goal, [], k, n, packet.Unread());
      vs := ReadLoop(packet, k, n, goal);
    }

    /** The loop over the values. */
    method ReadLoop(packet: DataPacket, k: Kind, n: nat, ghost goal: Option<(seq<Value>, seq<Byte>)>)
      returns (vs: Option<seq<Value>>)
      requires packet.Valid() && KindOf(typ) == Some(k) && StillToRead(goal, [], k, n, packet.Unread())
      modifies packet`offset
      ensures packet.Valid() && Took(goal, vs, packet.Unread())
      ensures vs.Some? ==> |vs.value| == n
    {
      var got: seq<Value> := [];
      ghost var left := n;
      for i := 0 to n
        invariant packet.Valid() && |got| == i && left == n - i
        invariant StillToRead(goal, got, k, left, packet.Unread())
        modifies packet`offset
      {
        var v := ReadNext(packet, k, left, got, goal);
        if v.None? {
          return None;
        }
        got := got + [v.value];
        left := left - 1;
      }
      vs := Some(got);
    }

    /** One more value behind those got so far, of n still to read. */
    method ReadNext(packet: DataPacket, k: Kind, ghost n: nat, ghost got: seq<Value>,
          ghost goal: Option<(seq<Value>, seq<Byte>)>)
      returns (v: Option<Value>)
      requires packet.Valid() && KindOf(typ) == Some(k) && n > 0
      requires StillToRead(goal, got, k, n, packet.Unread())
      modifies packet`offset
      ensures packet.Valid()
      ensures if v.None? then goal.None? else StillToRead(goal, got + [v.value], k, n - 1, packet.Unread())
    {
      v := ReadValue(packet, k);
    }

    method ReadValue(packet: DataPacket, k: Kind) returns (v: Option<Value>)
      requires packet.Valid() && KindOf(typ) == Some(k)
      modifies packet`offset
      ensures packet.Valid() && Took(DecValue(k, old(packet.Unread())), v, packet.Unread())
    {
      match k
      case Scalar(width, signed) =>
        var u := GetNumber(packet, width);
        if u.None? {
          return None;
        }
        v := Some(Num(if signed then Signed(u.value, width) else u.value));
      case Wide(signed) => v := GetWords(packet, signed);
      case Str => v := GetChars(packet);
    }

    method GetNumber(packet: DataPacket, width: nat) returns (value: Option<nat>)
      requires packet.Valid() && width in {1, 2, 4, 8}
      modifies packet`offset
      ensures packet.Valid() && Took(DecInt(width, old(packet.Unread())), value, packet.Unread())
    {
      ghost var p := packet.View();
      if width == 1 {
        value := packet.GetUInt8();
      } else if width == 2 {
        value := packet.GetUInt16();
      } else if width == 4 {
        value := packet.GetUInt32();
      } else {
        value := packet.GetUInt64();
      }
      GetIsDecInt(p, width);
    }

    method GetWords(packet: DataPacket, signed: bool) returns (v: Option<Value>)
      requires packet.Valid()
      modifies packet`offset
      ensures packet.Valid() && Took(DecValue(Wide(signed), old(packet.Unread())), v, packet.Unread())
    {
      ghost var b := packet.Unread();
      var w0 := GetNumber(packet, 4);
      if w0.None? { return None; }
      var w1 := GetNumber(packet, 4);
      if w1.None? { return None; }
      var w2 := GetNumber(packet, 4);
      if w2.None? { return None; }
      var w3 := GetNumber(packet, 4);
      if w3.None? { return None; }
      FourWords(b, signed);
      v := Some(Words([Word(w0.value, signed), Word(w1.value, signed), Word(w2.value, signed),
          Word(w3.value, signed)]));
    }

    method GetChars(packet: DataPacket) returns (v: Option<Value>)
      requires packet.Valid()
      modifies packet`offset
      ensures packet.Valid() && Took(DecValue(Str, old(packet.Unread())), v, packet.Unread())
    {
      var text := new StringBuffer();
      ghost var stale, b := text.buffer[..], packet.Unread();
      ghost var start := packet.offset;
      ghost var r := ReadCounted(b);
      var ok := text.ReadFromPacket(packet);
      if !ok {
        return None;
      }
      var s := text.buffer[..];
      CharsRead(r.value, stale);
      v := Some(Chars(Some(s[..|UpToNul(s)|]), []));
      assert packet.Unread() == b[1 + 2 * |r.value|..];
    }
  }

  // ---- Steps ---------------------------------------------------------------------------------------

  function Word(u: nat, signed: bool): int {
    if signed then Signed(u, 4) else u
  }

  /** A getter's answer and what is unread after it, against the spec's. */
  ghost predicate Took<T>(r: Option<(T, seq<Byte>)>, v: Option<T>, unread: seq<Byte>) {
    if r.None? then v.None? else v == Some(r.value.0) && unread == r.value.1
  }

  lemma PutNothing(p: Packet)
    requires p.offset <= |p.bytes|
    ensures Put(p, []) == p
  {
  }

  lemma {:induction false} EncValuesAppend(k: Kind, vs: seq<Value>, v: Value)
    requires AllTyped(k, vs) && Typed(k, v)
    ensures EncValues(k, vs + [v]) == EncValues(k, vs) + EncValue(k, v)
    decreases |vs|
  {
    if vs == [] {
      assert vs + [v] == [v] && [v][1..] == [];
      assert EncValue(k, v) + [] == [] + EncValue(k, v);
    } else {
      EncValuesAppend(k, vs[1..], v);
      assert (vs + [v])[1..] == vs[1..] + [v];
      ConcatThree(EncValue(k, vs[0]), EncValues(k, vs[1..]), EncValue(k, v));
    }
  }

  /** The first i values. */
  ghost function EncUpTo(k: Kind, vs: seq<Value>, i: nat): seq<Byte>
    requires AllTyped(k, vs) && i <= |vs|
  {
    if i == 0 then [] else EncUpTo(k, vs, i - 1) + EncValue(k, vs[i - 1])
  }

  lemma {:induction false} EncUpToIs(k: Kind, vs: seq<Value>, i: nat)
    requires AllTyped(k, vs) && i <= |vs|
    ensures EncUpTo(k, vs, i) == EncValues(k, vs[..i])
  {
    if i > 0 {
      EncUpToIs(k, vs, i - 1);
      EncValuesNext(k, vs, i - 1, vs[..i - 1], vs[..i]);
    }
  }

  lemma EncValuesNext(k: Kind, vs: seq<Value>, i: nat, before: seq<Value>, after: seq<Value>)
    requires AllTyped(k, vs) && i < |vs| && before == vs[..i] && after == vs[..i + 1]
    ensures EncValues(k, after) == EncValues(k, before) + EncValue(k, vs[i])
  {
    assert after == before + [vs[i]];
    EncValuesAppend(k, before, vs[i]);
  }

  lemma EncUpToAll(k: Kind, vs: seq<Value>)
    requires AllTyped(k, vs)
    ensures EncUpTo(k, vs, |vs|) == EncValues(k, vs)
  {
    EncUpToIs(k, vs, |vs|);
    assert vs[..|vs|] == vs;
  }

  lemma GetIsDecInt(p: Packet, k: nat)
    requires p.offset <= |p.bytes|
    ensures var r, d := Get(p, k), DecInt(k, p.bytes[p.offset..]);
            && (r.None? <==> d.None?)
            && (r.Some? ==> d.value.0 == FromLe(r.value.0) && d.value.1 == r.value.1.bytes[r.value.1.offset..])
  {
    var u := p.bytes[p.offset..];
    if k <= |u| { assert u[..k] == p.bytes[p.offset..p.offset + k] && u[k..] == p.bytes[p.offset + k..]; }
  }

  lemma FourWords(b: seq<Byte>, signed: bool)
    requires |b| >= 16
    ensures b[4..][..4] == b[4..8] && b[4..][4..][..4] == b[8..12] && b[4..][4..][4..][..4] == b[12..16]
    ensures b[4..][4..][4..][4..] == b[16..]
  {
  }

  lemma CharsRead(us: seq<Unit>, stale: seq<Byte>)
    requires |stale| == BUFFER_BYTES && |us| <= MAX_CHARS
    ensures var s := Terminated(EncAll(us), |us|, stale).mem;
            s[..|UpToNul(s)|] == TextOf(us)
  {
    var bytes := EncAll(us);
    var e, mem := bytes + [0], Terminated(bytes, |us|, stale).mem;
    TextEndsEarly(us, UpToNul(e));
    TextInMemory(e, stale[|bytes| + 1..], UpToNul(e), mem);
  }

  lemma TextInMemory(e: seq<Byte>, behind: seq<Byte>, t: seq<int>, mem: seq<Byte>)
    requires t == UpToNul(e) && |t| < |e| && mem == e + behind
    ensures mem[..|UpToNul(mem)|] == e[..|UpToNul(e)|]
  {
    UpToNulOfPrefix(e, behind, t);
  }

  lemma TextEndsEarly(us: seq<Unit>, t: seq<int>)
    requires t == UpToNul(EncAll(us) + [0])
    ensures |t| < |EncAll(us) + [0]|
  {
    var e := EncAll(us) + [0];
    assert e[|e| - 1] == 0;
    assert !NulFree(e);
    assert |t| == |e| ==> t == e;
  }

  lemma UpToNulOfPrefix(e: seq<Byte>, rest: seq<Byte>, t: seq<int>)
    requires t == UpToNul(e) && |t| < |e|
    ensures UpToNul(e + rest) == t
  {
    UpToNulUnique(e + rest, t);
  }

  ghost function Ahead(vs: seq<Value>, r: Option<(seq<Value>, seq<Byte>)>): Option<(seq<Value>, seq<Byte>)> {
    if r.None? then None else Some((vs + r.value.0, r.value.1))
  }

  lemma AheadNothing(r: Option<(seq<Value>, seq<Byte>)>)
    ensures Ahead([], r) == r
  {
    if r.Some? { assert [] + r.value.0 == r.value.0; }
  }

  /** The values got so far and n more from b make up the goal. */
  ghost predicate StillToRead(goal: Option<(seq<Value>, seq<Byte>)>, got: seq<Value>, k: Kind, n: nat, b: seq<Byte>)
    decreases n
  {
    if n == 0 then goal == Some((got, b))
    else
      var v := DecValue(k, b);
      if v.None? then goal.None? else StillToRead(goal, got + [v.value.0], k, n - 1, v.value.1)
  }

  lemma {:induction false} StillIs(goal: Option<(seq<Value>, seq<Byte>)>, got: seq<Value>, k: Kind, n: nat,
        b: seq<Byte>)
    requires goal == Ahead(got, DecValues(k, n, b))
    ensures StillToRead(goal, got, k, n, b)
    decreases n
  {
    if n == 0 {
      assert got + [] == got;
    } else {
      AheadNext(got, k, n, b);
      var v := DecValue(k, b);
      if v.Some? { StillIs(goal, got + [v.value.0], k, n - 1, v.value.1); }
    }
  }

  lemma AheadNext(vs: seq<Value>, k: Kind, n: nat, b: seq<Byte>)
    requires n > 0
    ensures var v := DecValue(k, b);
            Ahead(vs, DecValues(k, n, b))
            == if v.None? then None else Ahead(vs + [v.value.0], DecValues(k, n - 1, v.value.1))
  {
    var v := DecValue(k, b);
    if v.Some? {
      var rs := DecValues(k, n - 1, v.value.1);
      if rs.Some? { assert vs + ([v.value.0] + rs.value.0) == vs + [v.value.0] + rs.value.0; }
    }
  }
}
