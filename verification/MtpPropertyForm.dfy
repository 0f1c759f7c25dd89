/** MTP property descriptions on values: what write puts into a packet and what read makes of it. */
module MtpPropertyForm {
  import opened Basics
  import opened LittleEndian
  import opened MtpString

  const ARRAY_LIMIT := 89478485   // INT32_MAX / sizeof(MtpPropertyValue)
  const FORM_RANGE := 1
  const FORM_ENUM := 2

  /** What one element of a type code looks like: an integer, four 32-bit words, or a string. */
  datatype Kind = Scalar(width: nat, signed: bool) | Wide(signed: bool) | Str

  function KindOf(code: nat): Option<Kind> {
    if code == 0xFFFF then Some(Str)
    else
      var c := if 0x4000 < code then code - 0x4000 else code;
      if c == 1 || c == 2 then Some(Scalar(1, c == 1))
      else if c == 3 || c == 4 then Some(Scalar(2, c == 3))
      else if c == 5 || c == 6 then Some(Scalar(4, c == 5))
      else if c == 7 || c == 8 then Some(Scalar(8, c == 7))
      else if c == 9 || c == 10 then Some(Wide(c == 9))
      else None
  }

  predicate IsArrayType(code: nat) {
    0x4001 <= code <= 0x400A
  }

  predicate IsDeviceCode(code: nat) {
    code / 0x1000 == 5 || code / 0x800 == 0x1A
  }

  /** A property value: the union member of its type, or a C string, which may be NULL. `stale` is what the
      memory of the string buffer it is written through happens to hold. */
  datatype Value = Num(n: int) | Words(w: seq<int>) | Chars(s: Option<seq<Byte>>, stale: seq<Byte>)

  predicate Typed(k: Kind, v: Value) {
    match k
    case Scalar(width, signed) => v.Num? && InRange(v.n, width, signed)
    case Wide(signed) => v.Words? && |v.w| == 4 && forall i :: 0 <= i < 4 ==> InRange(v.w[i], 4, signed)
    case Str => v.Chars? && (v.s.Some? ==> NulFree(v.s.value) && |v.stale| == BUFFER_BYTES)
  }

  // ---- Values --------------------------------------------------------------------------------------

  function EncValue(k: Kind, v: Value): seq<Byte>
    requires Typed(k, v)
  {
    match k
    case Scalar(width, _) => Le(v.n, width)
    case Wide(_) => Le(v.w[0], 4) + Le(v.w[1], 4) + Le(v.w[2], 4) + Le(v.w[3], 4)
    case Str => if v.s.None? then [0] else Written(SetChars(v.s.value, v.stale))
  }

  /** A value read from the unread bytes b, and what is left of them. */
  function DecValue(k: Kind, b: seq<Byte>): Option<(Value, seq<Byte>)> {
    match k
    case Scalar(width, signed) =>
      if |b| < width then None else Some((Num(Interpreted(b[..width], signed)), b[width..]))
    case Wide(signed) =>
      if |b| < 16 then None
      else Some((Words([Interpreted(b[..4], signed), Interpreted(b[4..8], signed),
                        Interpreted(b[8..12], signed), Interpreted(b[12..16], signed)]), b[16..]))
    case Str =>
      var r := ReadCounted(b);
      if r.None? then None else Some((Chars(Some(TextOf(r.value)), []), b[1 + 2 * |r.value|..]))
  }

  /** What is read back; NULL is written as the empty string and read back as that. */
  function Normal(v: Value): Value {
    if v.Chars? then Chars(Some(if v.s.Some? then v.s.value else []), []) else v
  }

  /** The strings that survive: at most 254 shortest-form characters of one to three bytes. */
  predicate Sound(v: Value) {
    v.Chars? && v.s.Some? ==> WellFormed(v.s.value, MAX_CHARS - 1)
  }

  function EncValues(k: Kind, vs: seq<Value>): seq<Byte>
    requires forall i :: 0 <= i < |vs| ==> Typed(k, vs[i])
  {
    if vs == [] then [] else EncValue(k, vs[0]) + EncValues(k, vs[1..])
  }

  function DecValues(k: Kind, n: nat, b: seq<Byte>): Option<(seq<Value>, seq<Byte>)>
    decreases n
  {
    if n == 0 then Some(([], b))
    else
      var r := DecValue(k, b);
      if r.None? then None
      else
        var rs := DecValues(k, n - 1, r.value.1);
        if rs.None? then None else Some(([r.value.0] + rs.value.0, rs.value.1))
  }

  function DecInt(k: nat, b: seq<Byte>): Option<(nat, seq<Byte>)> {
    if |b| < k then None else Some((FromLe(b[..k]), b[k..]))
  }

  /** An array is refused when it is empty or too long for an allocation. */
  function DecArray(k: Kind, b: seq<Byte>): Option<(seq<Value>, seq<Byte>)> {
    var n := DecInt(4, b);
    if n.None? || n.value.0 == 0 || n.value.0 >= ARRAY_LIMIT then None
    else DecValues(k, n.value.0, n.value.1)
  }

  // ---- Properties ------------------------------------------------------------------------------------

  datatype Prop = Prop(
    code: nat, typ: nat, writeable: bool,
    default: Value, current: Value, defaultArray: seq<Value>, currentArray: seq<Value>,
    group: nat, form: nat, minimum: Value, maximum: Value, step: Value, enums: seq<Value>)

  predicate AllTyped(k: Kind, vs: seq<Value>) {
    forall i :: 0 <= i < |vs| ==> Typed(k, vs[i])
  }

  /** The fields hold what their C types and the type code say. */
  predicate WellTyped(p: Prop) {
    && p.code < 0x1_0000 && p.typ < 0x1_0000 && p.group < Pow256(4) && p.form < 256
    && |p.defaultArray| < Pow256(4) && |p.currentArray| < Pow256(4) && |p.enums| < 0x1_0000
    && (KindOf(p.typ).Some? ==>
          var k := KindOf(p.typ).value;
          && (if IsArrayType(p.typ) then AllTyped(k, p.defaultArray) && AllTyped(k, p.currentArray)
              else Typed(k, p.default) && Typed(k, p.current))
          && (p.form == FORM_RANGE ==> Typed(k, p.minimum) && Typed(k, p.maximum) && Typed(k, p.step))
          && (p.form == FORM_ENUM ==> AllTyped(k, p.enums)))
  }

  function EncHead(p: Prop): seq<Byte> {
    Le(p.code, 2) + Le(p.typ, 2) + Le(if p.writeable then 1 else 0, 1)
  }

  function EncArray(k: Kind, vs: seq<Value>): seq<Byte>
    requires AllTyped(k, vs)
  {
    Le(|vs|, 4) + EncValues(k, vs)
  }

  /** Default and, for a device property, current value; a type code it does not know writes no value. */
  function EncBody(p: Prop): seq<Byte>
    requires WellTyped(p)
  {
    var k := KindOf(p.typ);
    if k.None? then []
    else if IsArrayType(p.typ) then
      EncArray(k.value, p.defaultArray) + (if IsDeviceCode(p.code) then EncArray(k.value, p.currentArray) else [])
    else
      EncValue(k.value, p.default) + (if IsDeviceCode(p.code) then EncValue(k.value, p.current) else [])
  }

  function EncForm(p: Prop): seq<Byte>
    requires WellTyped(p)
  {
    var k := KindOf(p.typ);
    (if IsDeviceCode(p.code) then [] else Le(p.group, 4)) + Le(p.form, 1)
    + (if p.form == FORM_RANGE then
         if k.None? then [] else EncValue(k.value, p.minimum) + EncValue(k.value, p.maximum) + EncValue(k.value, p.step)
       else if p.form == FORM_ENUM then
         Le(|p.enums|, 2) + (if k.None? then [] else EncValues(k.value, p.enums))
       else [])
  }

  function EncProp(p: Prop): seq<Byte>
    requires WellTyped(p)
  {
    EncHead(p) + (EncBody(p) + EncForm(p))
  }

  /** Each stage of read takes the property so far and the unread bytes. */
  function DecHead(q: Prop, b: seq<Byte>): Option<(Prop, seq<Byte>)> {
    var code := DecInt(2, b);
    if code.None? then None else DecType(q.(code := code.value.0), code.value.1)
  }

  function DecType(q: Prop, b: seq<Byte>): Option<(Prop, seq<Byte>)> {
    var typ := DecInt(2, b);
    if typ.None? then None
    else
      var w := DecInt(1, typ.value.1);
      if w.None? then None
      else Some((q.(typ := typ.value.0, writeable := w.value.0 == 1), w.value.1))
  }

  function DecBody(q: Prop, k: Kind, b: seq<Byte>): Option<(Prop, seq<Byte>)> {
    if IsArrayType(q.typ) then
      var d := DecArray(k, b);
      if d.None? then None
      else if !IsDeviceCode(q.code) then Some((q.(defaultArray := d.value.0), d.value.1))
      else
        var c := DecArray(k, d.value.1);
        if c.None? then None
        else Some((q.(defaultArray := d.value.0, currentArray := c.value.0), c.value.1))
    else
      var d := DecValue(k, b);
      if d.None? then None
      else if !IsDeviceCode(q.code) then Some((q.(default := d.value.0), d.value.1))
      else
        var c := DecValue(k, d.value.1);
        if c.None? then None
        else Some((q.(default := d.value.0, current := c.value.0), c.value.1))
  }

  function DecGroup(q: Prop, b: seq<Byte>): Option<(Prop, seq<Byte>)> {
    if IsDeviceCode(q.code) then Some((q, b))
    else
      var g := DecInt(4, b);
      if g.None? then None else Some((q.(group := g.value.0), g.value.1))
  }

  function DecLimits(q: Prop, k: Kind, b: seq<Byte>): Option<(Prop, seq<Byte>)> {
    if q.form == FORM_RANGE then
      var r := DecValues(k, 3, b);
      if r.None? then None
      else
        DecValuesLength(k, 3, b);
        Some((q.(minimum := r.value.0[0], maximum := r.value.0[1], step := r.value.0[2]), r.value.1))
    else if q.form == FORM_ENUM then
      var n := DecInt(2, b);
      if n.None? then None
      else
        var r := DecValues(k, n.value.0, n.value.1);
        if r.None? then None else Some((q.(enums := r.value.0), r.value.1))
    else Some((q, b))
  }

  function DecForm(q: Prop, k: Kind, b: seq<Byte>): Option<(Prop, seq<Byte>)> {
    var g := DecGroup(q, b);
    if g.None? then None
    else
      var f := DecInt(1, g.value.1);
      if f.None? then None else DecLimits(g.value.0.(form := f.value.0), k, f.value.1)
  }

  /** read(): q is the property object before; None where it returns false. */
  function DecProp(q: Prop, b: seq<Byte>): Option<(Prop, seq<Byte>)> {
    var h := DecHead(q, b);
    if h.None? || KindOf(h.value.0.typ).None? then None
    else
      DecRest(h.value.0, KindOf(h.value.0.typ).value, h.value.1)
  }

  function DecRest(q: Prop, k: Kind, b: seq<Byte>): Option<(Prop, seq<Byte>)> {
    var v := DecBody(q, k, b);
    if v.None? then None else DecForm(v.value.0, k, v.value.1)
  }

  lemma {:induction false} DecValuesLength(k: Kind, n: nat, b: seq<Byte>)
    requires DecValues(k, n, b).Some?
    ensures |DecValues(k, n, b).value.0| == n
    decreases n
  {
    if n > 0 { DecValuesLength(k, n - 1, DecValue(k, b).value.1); }
  }

  // ---- The format ------------------------------------------------------------------------------------

  /** The type codes: signed and unsigned integers of 8, 16, 32, 64 and 128 bits at 1 to 10, the arrays of them at
      0x4001 to 0x400A, strings at 0xFFFF, and nothing else. */
  lemma TypeCodes(code: nat)
    ensures code == 0x0001 || code == 0x4001 ==> KindOf(code) == Some(Scalar(1, true))
    ensures code == 0x0002 || code == 0x4002 ==> KindOf(code) == Some(Scalar(1, false))
    ensures code == 0x0003 || code == 0x4003 ==> KindOf(code) == Some(Scalar(2, true))
    ensures code == 0x0004 || code == 0x4004 ==> KindOf(code) == Some(Scalar(2, false))
    ensures code == 0x0005 || code == 0x4005 ==> KindOf(code) == Some(Scalar(4, true))
    ensures code == 0x0006 || code == 0x4006 ==> KindOf(code) == Some(Scalar(4, false))
    ensures code == 0x0007 || code == 0x4007 ==> KindOf(code) == Some(Scalar(8, true))
    ensures code == 0x0008 || code == 0x4008 ==> KindOf(code) == Some(Scalar(8, false))
    ensures code == 0x0009 || code == 0x4009 ==> KindOf(code) == Some(Wide(true))
    ensures code == 0x000A || code == 0x400A ==> KindOf(code) == Some(Wide(false))
    ensures code == 0xFFFF ==> KindOf(code) == Some(Str)
    ensures KindOf(code).Some? ==> 1 <= code <= 10 || 0x4001 <= code <= 0x400A || code == 0xFFFF
    ensures IsArrayType(code) <==> code > 0x4000 && code <= 0x400A
  {
  }

  /** The values of an array stand in their order, the one after the other. */
  lemma {:induction false} ValuesInOrder(k: Kind, vs: seq<Value>, ws: seq<Value>)
    requires AllTyped(k, vs) && AllTyped(k, ws)
    ensures EncValues(k, vs + ws) == EncValues(k, vs) + EncValues(k, ws)
    ensures |vs| == 1 ==> EncValues(k, vs) == EncValue(k, vs[0])
    decreases |vs|
  {
    if vs == [] {
      assert vs + ws == ws;
    } else {
      assert (vs + ws)[0] == vs[0] && (vs + ws)[1..] == vs[1..] + ws;
      ValuesInOrder(k, vs[1..], ws);
      ConcatThree(EncValue(k, vs[0]), EncValues(k, vs[1..]), EncValues(k, ws));
    }
  }

  /** The dataset's fields in their order: code, type, and whether it can be set; the default and, for a device
      property, the current value; for an object property the group code; the form flag; and minimum, maximum and
      step, or the number of values and each of them. An array is its length and its elements. */
  lemma DatasetLayout(p: Prop, k: Kind)
    requires WellTyped(p) && KindOf(p.typ) == Some(k)
    ensures var device := p.code / 0x1000 == 5 || p.code / 0x800 == 0x1A;
            var arrays := 0x4001 <= p.typ <= 0x400A;
            EncProp(p)
            == Le(p.code, 2) + Le(p.typ, 2) + [if p.writeable then 1 else 0]
               + ((if arrays then Le(|p.defaultArray|, 4) + EncValues(k, p.defaultArray) else EncValue(k, p.default))
                  + (if !device then [] else if arrays then Le(|p.currentArray|, 4) + EncValues(k, p.currentArray)
                     else EncValue(k, p.current))
                  + ((if device then [] else Le(p.group, 4)) + [p.form]
                     + (match p.form
                        case 1 => EncValue(k, p.minimum) + EncValue(k, p.maximum) + EncValue(k, p.step)
                        case 2 => Le(|p.enums|, 2) + EncValues(k, p.enums)
                        case _ => [])))
  {
    HeadIs(p);
    EncBodyIs(p, k);
    FormIs(p, k);
  }

  lemma HeadIs(p: Prop)
    ensures EncHead(p) == Le(p.code, 2) + Le(p.typ, 2) + [if p.writeable then 1 else 0]
  {
    assert Le(if p.writeable then 1 else 0, 1) == [if p.writeable then 1 else 0];
  }

  lemma FormIs(p: Prop, k: Kind)
    requires WellTyped(p) && KindOf(p.typ) == Some(k)
    ensures EncForm(p)
            == (if IsDeviceCode(p.code) then [] else Le(p.group, 4)) + [p.form]
               + (match p.form
                  case 1 => EncValue(k, p.minimum) + EncValue(k, p.maximum) + EncValue(k, p.step)
                  case 2 => Le(|p.enums|, 2) + EncValues(k, p.enums)
                  case _ => [])
  {
    assert Le(p.form, 1) == [p.form];
  }

  lemma EncBodyIs(p: Prop, k: Kind)
    requires WellTyped(p) && KindOf(p.typ) == Some(k)
    ensures EncBody(p)
            == (if IsArrayType(p.typ) then EncArray(k, p.defaultArray) else EncValue(k, p.default))
               + (if !IsDeviceCode(p.code) then [] else if IsArrayType(p.typ) then EncArray(k, p.currentArray)
                  else EncValue(k, p.current))
  {
  }

  /** A scalar is its bytes, lowest first. */
  lemma ScalarLayout(k: Kind, v: Value, i: nat)
    requires k.Scalar? && Typed(k, v) && i < k.width
    ensures |EncValue(k, v)| == k.width && EncValue(k, v)[i] == v.n / Pow256(i) % 256
  {
    LeIs(v.n, k.width, i);
  }

  /** A 128-bit value is four words, the lowest first. */
  lemma WideLayout(k: Kind, v: Value, i: nat)
    requires k.Wide? && Typed(k, v) && i < 16
    ensures |EncValue(k, v)| == 16 && EncValue(k, v)[i] == Le(v.w[i / 4], 4)[i % 4]
  {
    var e := EncValue(k, v);
    var a, b, c, d := Le(v.w[0], 4), Le(v.w[1], 4), Le(v.w[2], 4), Le(v.w[3], 4);
    FourWordsAt(a, b, c, d, e, i);
    if i < 4 { assert v.w[i / 4] == v.w[0]; }
    else if i < 8 { assert v.w[i / 4] == v.w[1]; }
    else if i < 12 { assert v.w[i / 4] == v.w[2]; }
    else { assert v.w[i / 4] == v.w[3]; }
  }

  lemma FourWordsAt(a: seq<Byte>, b: seq<Byte>, c: seq<Byte>, d: seq<Byte>, e: seq<Byte>, i: nat)
    requires |a| == |b| == |c| == |d| == 4 && i < 16 && e == a + b + c + d
    ensures |e| == 16
    ensures e[i] == if i < 4 then a[i] else if i < 8 then b[i - 4] else if i < 12 then c[i - 8] else d[i - 12]
    ensures i % 4 == if i < 4 then i else if i < 8 then i - 4 else if i < 12 then i - 8 else i - 12
  {
  }
}
