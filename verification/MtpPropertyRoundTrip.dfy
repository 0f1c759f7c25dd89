/** Reading a property description back from what was written, and exactly when that works. */
module MtpPropertyRoundTrip {
  import opened Basics
  import opened LittleEndian
  import opened MtpString
  import opened MtpPropertyForm

  // ---- Values --------------------------------------------------------------------------------------

  lemma CountedLength(us: seq<Unit>)
    ensures |Counted(us)| == if us == [] then 1 else 2 * |us| + 3
  {
  }

  /** A C string comes back exactly when it is at most 254 shortest-form characters; then the reader takes
      what was written for it and no more. */
  lemma StringRoundTrip(s: seq<Byte>, stale: seq<Byte>, rest: seq<Byte>)
    requires NulFree(s) && |stale| == BUFFER_BYTES
    ensures var e := Written(SetChars(s, stale));
            var r := ReadCounted(e + rest);
            && r.Some? && (TextOf(r.value) == s <==> WellFormed(s, MAX_CHARS - 1))
            && (WellFormed(s, MAX_CHARS - 1) ==> |e| == 1 + 2 * |r.value|)
  {
    SurvivesIff(s, stale, rest);
    var t := SetChars(s, stale);
    CountedRoundTrip(DecAll(t.mem, t.charCount), rest);
    if WellFormed(s, MAX_CHARS - 1) {
      var us := WellFormedIsEncoded(s, MAX_CHARS - 1);
      SetHolds(us, stale);
      CountedRoundTrip(us, rest);
      CountedLength(us);
    }
  }

  lemma SliceOfFour(a: seq<Byte>, b: seq<Byte>, c: seq<Byte>, d: seq<Byte>, rest: seq<Byte>)
    requires |a| == |b| == |c| == |d| == 4
    ensures var e := a + b + c + d + rest;
            e[..4] == a && e[4..8] == b && e[8..12] == c && e[12..16] == d && e[16..] == rest
  {
  }

  lemma DecWideIs(e: seq<Byte>, signed: bool, w: seq<int>, rest: seq<Byte>)
    requires |w| == 4 && |e| >= 16 && e[16..] == rest
    requires Interpreted(e[..4], signed) == w[0] && Interpreted(e[4..8], signed) == w[1]
    requires Interpreted(e[8..12], signed) == w[2] && Interpreted(e[12..16], signed) == w[3]
    ensures DecValue(Wide(signed), e) == Some((Words(w), rest))
  {
    assert w == [w[0], w[1], w[2], w[3]];
  }

  lemma WideRoundTrip(w: seq<int>, signed: bool, rest: seq<Byte>, a: seq<Byte>, b: seq<Byte>, c: seq<Byte>,
        d: seq<Byte>)
    requires |w| == 4 && |a| == |b| == |c| == |d| == 4
    requires Interpreted(a, signed) == w[0] && Interpreted(b, signed) == w[1]
    requires Interpreted(c, signed) == w[2] && Interpreted(d, signed) == w[3]
    ensures DecValue(Wide(signed), a + b + c + d + rest) == Some((Words(w), rest))
  {
    SliceOfFour(a, b, c, d, rest);
    DecWideIs(a + b + c + d + rest, signed, w, rest);
  }

  lemma WordsRoundTrip(w: seq<int>, signed: bool, rest: seq<Byte>)
    requires Typed(Wide(signed), Words(w))
    ensures DecValue(Wide(signed), EncValue(Wide(signed), Words(w)) + rest) == Some((Words(w), rest))
  {
    IntegerRoundTrip(w[0], 4, signed);
    IntegerRoundTrip(w[1], 4, signed);
    IntegerRoundTrip(w[2], 4, signed);
    IntegerRoundTrip(w[3], 4, signed);
    WideRoundTrip(w, signed, rest, Le(w[0], 4), Le(w[1], 4), Le(w[2], 4), Le(w[3], 4));
  }

  lemma ScalarRoundTrip(n: int, width: nat, signed: bool, rest: seq<Byte>)
    requires InRange(n, width, signed)
    ensures DecValue(Scalar(width, signed), Le(n, width) + rest) == Some((Num(n), rest))
  {
    var b := Le(n, width) + rest;
    assert b[..width] == Le(n, width) && b[width..] == rest;
    IntegerRoundTrip(n, width, signed);
  }

  lemma CharsRoundTrip(v: Value, rest: seq<Byte>)
    requires Typed(Str, v)
    ensures var r := DecValue(Str, EncValue(Str, v) + rest);
            if Sound(v) then r == Some((Normal(v), rest)) else r.Some? && r.value.0 != Normal(v)
  {
    var e := EncValue(Str, v);
    if v.s.None? {
      ReadCountedIs(0, rest);
      TextOfUnits([]);
      assert (e + rest)[1..] == rest;
    } else {
      StringRoundTrip(v.s.value, v.stale, rest);
      assert (e + rest)[|e|..] == rest;
    }
  }

  /** One value, followed by anything: it comes back as itself, NULL as the empty string, exactly when it
      is sound; an unsound string comes back as another one. */
  lemma ValueRoundTrip(k: Kind, v: Value, rest: seq<Byte>)
    requires Typed(k, v)
    ensures var r := DecValue(k, EncValue(k, v) + rest);
            if Sound(v) then r == Some((Normal(v), rest)) else r.Some? && r.value.0 != Normal(v)
  {
    match k
    case Scalar(width, signed) => ScalarRoundTrip(v.n, width, signed, rest);
    case Wide(signed) => WordsRoundTrip(v.w, signed, rest);
    case Str => CharsRoundTrip(v, rest);
  }

  predicate AllSound(vs: seq<Value>) {
    forall i :: 0 <= i < |vs| ==> Sound(vs[i])
  }

  function NormalAll(vs: seq<Value>): (ns: seq<Value>)
    ensures |ns| == |vs|
  {
    if vs == [] then [] else [Normal(vs[0])] + NormalAll(vs[1..])
  }

  lemma EncCons(k: Kind, vs: seq<Value>, head: seq<Byte>, tail: seq<Byte>, rest: seq<Byte>)
    requires vs != [] && AllTyped(k, vs) && head == EncValue(k, vs[0]) && tail == EncValues(k, vs[1..])
    ensures EncValues(k, vs) + rest == head + (tail + rest)
  {
    assert EncValues(k, vs) == head + tail;
    ConcatThree(head, tail, rest);
  }

  lemma AllSoundCons(vs: seq<Value>)
    requires vs != []
    ensures AllSound(vs) <==> Sound(vs[0]) && AllSound(vs[1..])
  {
    assert forall i :: 0 < i < |vs| ==> vs[i] == vs[1..][i - 1];
  }

  lemma {:induction false} ValuesRoundTrip(k: Kind, vs: seq<Value>, rest: seq<Byte>)
    requires AllTyped(k, vs)
    ensures var r := DecValues(k, |vs|, EncValues(k, vs) + rest);
            if AllSound(vs) then r == Some((NormalAll(vs), rest)) else r.None? || r.value.0 != NormalAll(vs)
    decreases |vs|
  {
    if vs == [] {
      assert EncValues(k, vs) + rest == rest;
    } else {
      var head, tail := EncValue(k, vs[0]), EncValues(k, vs[1..]);
      EncCons(k, vs, head, tail, rest);
      ValueRoundTrip(k, vs[0], tail + rest);
      ValuesRoundTrip(k, vs[1..], rest);
      AllSoundCons(vs);
      ConsNotEqual(k, vs, head + (tail + rest), NormalAll(vs[1..]));
    }
  }

  lemma ConsNotEqual(k: Kind, vs: seq<Value>, b: seq<Byte>, ns: seq<Value>)
    requires vs != [] && DecValue(k, b).Some? && ns == NormalAll(vs[1..])
    ensures var x := DecValue(k, b).value;
            var r, rs := DecValues(k, |vs|, b), DecValues(k, |vs| - 1, x.1);
            && (r.Some? <==> rs.Some?)
            && (r.Some? ==> r.value.1 == rs.value.1
                            && (r.value.0 == NormalAll(vs) <==> x.0 == Normal(vs[0]) && rs.value.0 == ns))
  {
    var x := DecValue(k, b).value;
    var rs := DecValues(k, |vs| - 1, x.1);
    if rs.Some? { ConsEqual(x.0, rs.value.0, Normal(vs[0]), ns); }
  }

  lemma ConsEqual(x: Value, xs: seq<Value>, y: Value, ys: seq<Value>)
    ensures [x] + xs == [y] + ys <==> x == y && xs == ys
  {
    var l, r := [x] + xs, [y] + ys;
    assert l[0] == x && l[1..] == xs && r[0] == y && r[1..] == ys;
  }

  lemma IntRoundTrip(n: nat, k: nat, rest: seq<Byte>)
    requires n < Pow256(k)
    ensures DecInt(k, Le(n, k) + rest) == Some((n, rest))
  {
    var b := Le(n, k) + rest;
    assert b[..k] == Le(n, k) && b[k..] == rest;
    IntegerRoundTrip(n, k, false);
  }

  /** An array comes back exactly when it is neither empty nor too long and its elements do. */
  predicate SoundArray(vs: seq<Value>) {
    0 < |vs| < ARRAY_LIMIT && AllSound(vs)
  }

  lemma ArrayRoundTrip(k: Kind, vs: seq<Value>, rest: seq<Byte>)
    requires AllTyped(k, vs) && |vs| < Pow256(4)
    ensures var r := DecArray(k, EncArray(k, vs) + rest);
            if SoundArray(vs) then r == Some((NormalAll(vs), rest)) else r.None? || r.value.0 != NormalAll(vs)
  {
    var n, body := |vs|, EncValues(k, vs);
    ConcatThree(Le(n, 4), body, rest);
    IntRoundTrip(n, 4, body + rest);
    DecArrayIs(k, EncArray(k, vs) + rest, n, body + rest);
    ValuesRoundTrip(k, vs, rest);
  }

  lemma EmptyArrayIsRefused(k: Kind, rest: seq<Byte>)
    ensures DecArray(k, EncArray(k, []) + rest).None?
  {
    var b := EncArray(k, []) + rest;
    assert b == Le(0, 4) + rest;
    IntRoundTrip(0, 4, rest);
    DecArrayIs(k, b, 0, rest);
  }

  lemma DecArrayIs(k: Kind, b: seq<Byte>, n: nat, rest: seq<Byte>)
    requires DecInt(4, b) == Some((n, rest))
    ensures DecArray(k, b) == if n == 0 || n >= ARRAY_LIMIT then None else DecValues(k, n, rest)
  {
  }

  // ---- Properties ------------------------------------------------------------------------------------

  /** What a caller can check before writing: a known type, no empty or oversized array, sound strings. */
  predicate BodyReadable(p: Prop) {
    if IsArrayType(p.typ) then SoundArray(p.defaultArray) && (IsDeviceCode(p.code) ==> SoundArray(p.currentArray))
    else Sound(p.default) && (IsDeviceCode(p.code) ==> Sound(p.current))
  }

  predicate FormReadable(p: Prop) {
    if p.form == FORM_RANGE then Sound(p.minimum) && Sound(p.maximum) && Sound(p.step)
    else p.form == FORM_ENUM ==> AllSound(p.enums)
  }

  predicate Readable(p: Prop) {
    KindOf(p.typ).Some? && BodyReadable(p) && FormReadable(p)
  }

  /** r holds what was written for p, in the fields that are in the packet. */
  predicate BodyAgrees(p: Prop, r: Prop) {
    if IsArrayType(p.typ) then
      r.defaultArray == NormalAll(p.defaultArray)
          && (IsDeviceCode(p.code) ==> r.currentArray == NormalAll(p.currentArray))
    else
      r.default == Normal(p.default) && (IsDeviceCode(p.code) ==> r.current == Normal(p.current))
  }

  predicate FormAgrees(p: Prop, r: Prop) {
    && r.form == p.form && (!IsDeviceCode(p.code) ==> r.group == p.group)
    && (if p.form == FORM_RANGE then
          r.minimum == Normal(p.minimum) && r.maximum == Normal(p.maximum) && r.step == Normal(p.step)
        else p.form == FORM_ENUM ==> r.enums == NormalAll(p.enums))
  }

  predicate Agrees(p: Prop, r: Prop) {
    r.code == p.code && r.typ == p.typ && r.writeable == p.writeable && BodyAgrees(p, r) && FormAgrees(p, r)
  }

  lemma HeadRoundTrip(p: Prop, q: Prop, rest: seq<Byte>)
    requires p.code < 0x1_0000 && p.typ < 0x1_0000
    ensures DecHead(q, EncHead(p) + rest) == Some((q.(code := p.code, typ := p.typ, writeable := p.writeable), rest))
  {
    var a, b, c := Le(p.code, 2), Le(p.typ, 2), Le(if p.writeable then 1 else 0, 1);
    assert Pow256(1) == 256 && Pow256(2) == 0x1_0000;
    assert EncHead(p) + rest == a + (b + (c + rest));
    IntRoundTrip(p.code, 2, b + (c + rest));
    IntRoundTrip(p.typ, 2, c + rest);
    IntRoundTrip(if p.writeable then 1 else 0, 1, rest);
  }

  lemma ArrayBodyRoundTrip(p: Prop, q: Prop, k: Kind, rest: seq<Byte>)
    requires WellTyped(p) && KindOf(p.typ) == Some(k) && IsArrayType(p.typ) && q.typ == p.typ && q.code == p.code
    ensures var r := DecBody(q, k, EncBody(p) + rest);
            if BodyReadable(p) then r.Some? && BodyAgrees(p, r.value.0) && r.value.1 == rest
            else r.None? || !BodyAgrees(p, r.value.0)
  {
    var d, c := EncArray(k, p.defaultArray), EncArray(k, p.currentArray);
    if IsDeviceCode(p.code) {
      ConcatThree(d, c, rest);
      ArrayRoundTrip(k, p.defaultArray, c + rest);
      ArrayRoundTrip(k, p.currentArray, rest);
      DecTwoArrays(q, k, d + (c + rest));
    } else {
      assert EncBody(p) == d;
      ArrayRoundTrip(k, p.defaultArray, rest);
      DecTwoArrays(q, k, d + rest);
    }
  }

  lemma DecTwoArrays(q: Prop, k: Kind, b: seq<Byte>)
    requires IsArrayType(q.typ)
    ensures var r, d := DecBody(q, k, b), DecArray(k, b);
            if d.None? then r.None?
            else if !IsDeviceCode(q.code) then r == Some((q.(defaultArray := d.value.0), d.value.1))
            else
              var c := DecArray(k, d.value.1);
              if c.None? then r.None?
              else r == Some((q.(defaultArray := d.value.0, currentArray := c.value.0), c.value.1))
  {
  }

  lemma ValueBodyRoundTrip(p: Prop, q: Prop, k: Kind, rest: seq<Byte>)
    requires WellTyped(p) && KindOf(p.typ) == Some(k) && !IsArrayType(p.typ) && q.typ == p.typ && q.code == p.code
    ensures var r := DecBody(q, k, EncBody(p) + rest);
            if BodyReadable(p) then r.Some? && BodyAgrees(p, r.value.0) && r.value.1 == rest
            else r.None? || !BodyAgrees(p, r.value.0)
  {
    if IsDeviceCode(p.code) {
      DeviceBodyRoundTrip(p, q, k, rest, EncValue(k, p.default), EncValue(k, p.current));
    } else {
      assert EncBody(p) + rest == EncValue(k, p.default) + rest;
      ValueRoundTrip(k, p.default, rest);
    }
  }

  lemma DeviceBodyRoundTrip(p: Prop, q: Prop, k: Kind, rest: seq<Byte>, d: seq<Byte>, c: seq<Byte>)
    requires WellTyped(p) && KindOf(p.typ) == Some(k) && !IsArrayType(p.typ) && q.typ == p.typ && q.code == p.code
    requires IsDeviceCode(p.code) && d == EncValue(k, p.default) && c == EncValue(k, p.current)
    ensures var r := DecBody(q, k, EncBody(p) + rest);
            if BodyReadable(p) then r.Some? && BodyAgrees(p, r.value.0) && r.value.1 == rest
            else r.None? || !BodyAgrees(p, r.value.0)
  {
    assert EncBody(p) + rest == d + (c + rest);
    ValueRoundTrip(k, p.default, c + rest);
    ValueRoundTrip(k, p.current, rest);
  }

  /** Reading the body leaves the head as it is. */
  lemma BodyKeepsHead(q: Prop, k: Kind, b: seq<Byte>)
    ensures var r := DecBody(q, k, b);
            r.Some? ==> r.value.0.code == q.code && r.value.0.typ == q.typ && r.value.0.writeable == q.writeable
  {
  }

  /** Reading the form leaves head and body as they are. */
  lemma FormKeepsRest(q: Prop, k: Kind, b: seq<Byte>)
    ensures var r := DecForm(q, k, b);
            r.Some? ==> var s := r.value.0;
              && s.code == q.code && s.typ == q.typ && s.writeable == q.writeable && s.default == q.default
              && s.current == q.current && s.defaultArray == q.defaultArray && s.currentArray == q.currentArray
  {
  }

  function EncLimits(p: Prop, k: Kind): seq<Byte>
    requires WellTyped(p) && KindOf(p.typ) == Some(k)
  {
    if p.form == FORM_RANGE then EncValues(k, [p.minimum, p.maximum, p.step])
    else if p.form == FORM_ENUM then Le(|p.enums|, 2) + EncValues(k, p.enums)
    else []
  }

  lemma EncSingle(k: Kind, c: Value)
    requires Typed(k, c)
    ensures EncValues(k, [c]) == EncValue(k, c) && NormalAll([c]) == [Normal(c)]
  {
    assert [c][1..] == [];
    assert EncValue(k, c) + [] == EncValue(k, c);
  }

  lemma EncAhead(k: Kind, a: Value, vs: seq<Value>)
    requires Typed(k, a) && AllTyped(k, vs)
    ensures EncValues(k, [a] + vs) == EncValue(k, a) + EncValues(k, vs)
            && NormalAll([a] + vs) == [Normal(a)] + NormalAll(vs)
  {
    assert ([a] + vs)[1..] == vs;
  }

  lemma ThreeValues(k: Kind, a: Value, b: Value, c: Value)
    requires Typed(k, a) && Typed(k, b) && Typed(k, c)
    ensures EncValues(k, [a, b, c]) == EncValue(k, a) + EncValue(k, b) + EncValue(k, c)
    ensures NormalAll([a, b, c]) == [Normal(a), Normal(b), Normal(c)]
  {
    EncTwo(k, b, c);
    EncAhead(k, a, [b, c]);
    assert [a] + [b, c] == [a, b, c];
    ConcatThree(EncValue(k, a), EncValue(k, b), EncValue(k, c));
  }

  lemma EncTwo(k: Kind, b: Value, c: Value)
    requires Typed(k, b) && Typed(k, c)
    ensures EncValues(k, [b, c]) == EncValue(k, b) + EncValue(k, c) && NormalAll([b, c]) == [Normal(b), Normal(c)]
  {
    EncSingle(k, c);
    EncAhead(k, b, [c]);
    assert [b] + [c] == [b, c];
  }

  lemma RangeRoundTrip(p: Prop, q: Prop, k: Kind, rest: seq<Byte>)
    requires WellTyped(p) && KindOf(p.typ) == Some(k) && q.form == p.form == FORM_RANGE
    ensures LimitsComeBack(p, q, k, EncLimits(p, k) + rest, rest)
  {
    var vs := [p.minimum, p.maximum, p.step];
    ThreeValues(k, p.minimum, p.maximum, p.step);
    ValuesRoundTrip(k, vs, rest);
    assert AllSound(vs) <==> FormReadable(p) by {
      assert vs[0] == p.minimum && vs[1] == p.maximum && vs[2] == p.step;
    }
    RangeFrom(p, q, k, EncLimits(p, k) + rest, rest, DecValues(k, 3, EncValues(k, vs) + rest));
  }

  lemma RangeFrom(p: Prop, q: Prop, k: Kind, b: seq<Byte>, rest: seq<Byte>, r: Option<(seq<Value>, seq<Byte>)>)
    requires q.form == p.form == FORM_RANGE && r == DecValues(k, 3, b)
    requires if FormReadable(p) then r == Some(([Normal(p.minimum), Normal(p.maximum), Normal(p.step)], rest))
             else r.None? || r.value.0 != [Normal(p.minimum), Normal(p.maximum), Normal(p.step)]
    ensures LimitsComeBack(p, q, k, b, rest)
  {
    if r.Some? {
      DecValuesLength(k, 3, b);
      ThreeEqual(r.value.0, Normal(p.minimum), Normal(p.maximum), Normal(p.step));
    }
  }

  lemma EnumRoundTrip(p: Prop, q: Prop, k: Kind, rest: seq<Byte>)
    requires WellTyped(p) && KindOf(p.typ) == Some(k) && q.form == p.form == FORM_ENUM
    ensures LimitsComeBack(p, q, k, EncLimits(p, k) + rest, rest)
  {
    assert Pow256(2) == 0x1_0000;
    var n, body := |p.enums|, EncValues(k, p.enums);
    ConcatThree(Le(n, 2), body, rest);
    IntRoundTrip(n, 2, body + rest);
    ValuesRoundTrip(k, p.enums, rest);
  }

  ghost predicate LimitsComeBack(p: Prop, q: Prop, k: Kind, b: seq<Byte>, rest: seq<Byte>) {
    var r := DecLimits(q, k, b);
    && (r.Some? ==> r.value.0.group == q.group && r.value.0.form == q.form)
    && (if FormReadable(p) then r.Some? && r.value.1 == rest && FormAgrees(p, r.value.0.(group := p.group))
        else r.None? || !FormAgrees(p, r.value.0))
  }

  lemma LimitsRoundTrip(p: Prop, q: Prop, k: Kind, rest: seq<Byte>)
    requires WellTyped(p) && KindOf(p.typ) == Some(k) && q.form == p.form
    ensures LimitsComeBack(p, q, k, EncLimits(p, k) + rest, rest)
  {
    if p.form == FORM_RANGE {
      RangeRoundTrip(p, q, k, rest);
    } else if p.form == FORM_ENUM {
      EnumRoundTrip(p, q, k, rest);
    } else {
      assert EncLimits(p, k) + rest == rest;
    }
  }

  lemma ThreeEqual(r: seq<Value>, a: Value, b: Value, c: Value)
    requires |r| == 3
    ensures r == [a, b, c] <==> r[0] == a && r[1] == b && r[2] == c
  {
  }

  lemma ConcatParts(g: seq<Byte>, f: seq<Byte>, l: seq<Byte>, rest: seq<Byte>)
    ensures g + f + l + rest == g + (f + (l + rest))
  {
  }

  lemma EncFormParts(p: Prop, k: Kind, limits: seq<Byte>, rest: seq<Byte>)
    requires WellTyped(p) && KindOf(p.typ) == Some(k) && limits == EncLimits(p, k)
    ensures EncForm(p) + rest
            == (if IsDeviceCode(p.code) then [] else Le(p.group, 4)) + (Le(p.form, 1) + (limits + rest))
  {
    if p.form == FORM_RANGE { ThreeValues(k, p.minimum, p.maximum, p.step); }
    ConcatParts(if IsDeviceCode(p.code) then [] else Le(p.group, 4), Le(p.form, 1), limits, rest);
  }

  lemma GroupRoundTrip(p: Prop, q: Prop, tail: seq<Byte>)
    requires p.group < Pow256(4) && q.code == p.code
    ensures DecGroup(q, (if IsDeviceCode(p.code) then [] else Le(p.group, 4)) + tail)
            == Some((if IsDeviceCode(p.code) then q else q.(group := p.group), tail))
  {
    assert [] + tail == tail;
    IntRoundTrip(p.group, 4, tail);
  }

  lemma DecFormIs(q: Prop, k: Kind, b: seq<Byte>, g: Prop, tail: seq<Byte>, f: nat, rest: seq<Byte>)
    requires DecGroup(q, b) == Some((g, tail)) && DecInt(1, tail) == Some((f, rest))
    ensures DecForm(q, k, b) == DecLimits(g.(form := f), k, rest)
  {
  }

  ghost predicate FormComesBack(p: Prop, r: Option<(Prop, seq<Byte>)>, rest: seq<Byte>) {
    if FormReadable(p) then r.Some? && FormAgrees(p, r.value.0) && r.value.1 == rest
    else r.None? || !FormAgrees(p, r.value.0)
  }

  lemma FormRoundTrip(p: Prop, q: Prop, k: Kind, rest: seq<Byte>)
    requires WellTyped(p) && KindOf(p.typ) == Some(k) && q.code == p.code
    ensures FormComesBack(p, DecForm(q, k, EncForm(p) + rest), rest)
  {
    var limits, b := EncLimits(p, k), EncForm(p) + rest;
    var tail := Le(p.form, 1) + (limits + rest);
    EncFormParts(p, k, limits, rest);
    assert Pow256(1) == 256;
    GroupRoundTrip(p, q, tail);
    IntRoundTrip(p.form, 1, limits + rest);
    var g := if IsDeviceCode(p.code) then q else q.(group := p.group);
    DecFormIs(q, k, b, g, tail, p.form, limits + rest);
    LimitsRoundTrip(p, g.(form := p.form), k, rest);
  }

  /** For every well-typed property and whatever the reading object held before: read returns true with
      the fields that were written, NULL strings as empty ones, exactly when the property is readable;
      and then it consumes exactly what was written. */
  lemma PropertyRoundTrip(p: Prop, q: Prop, rest: seq<Byte>)
    requires WellTyped(p)
    ensures var r := DecProp(q, EncProp(p) + rest);
            && (Readable(p) <==> r.Some? && Agrees(p, r.value.0))
            && (Readable(p) ==> r.value.1 == rest)
  {
    var tail := EncForm(p) + rest;
    var b := EncBody(p) + tail;
    var h := q.(code := p.code, typ := p.typ, writeable := p.writeable);
    PropParts(EncHead(p), EncBody(p), EncForm(p), rest);
    HeadRoundTrip(p, q, b);
    DecPropFrom(q, EncProp(p) + rest, h, b);
    if KindOf(p.typ).Some? { RestRoundTrip(p, h, KindOf(p.typ).value, rest, tail, b); }
  }

  lemma PropParts(head: seq<Byte>, body: seq<Byte>, form: seq<Byte>, rest: seq<Byte>)
    ensures head + (body + form) + rest == head + (body + (form + rest))
  {
  }

  lemma DecPropFrom(q: Prop, all: seq<Byte>, h: Prop, b: seq<Byte>)
    requires DecHead(q, all) == Some((h, b))
    ensures DecProp(q, all) == if KindOf(h.typ).None? then None else DecRest(h, KindOf(h.typ).value, b)
  {
  }

  /** What follows the head. */
  lemma RestRoundTrip(p: Prop, h: Prop, k: Kind, rest: seq<Byte>, tail: seq<Byte>, b: seq<Byte>)
    requires WellTyped(p) && KindOf(p.typ) == Some(k) && tail == EncForm(p) + rest && b == EncBody(p) + tail
    requires h.code == p.code && h.typ == p.typ && h.writeable == p.writeable
    ensures var r := DecRest(h, k, b);
            && (Readable(p) <==> r.Some? && Agrees(p, r.value.0))
            && (Readable(p) ==> r.value.1 == rest)
  {
    BodyRoundTrip(p, h, k, tail);
    BodyKeepsHead(h, k, b);
    var v := DecBody(h, k, b);
    if v.Some? {
      FormKeepsRest(v.value.0, k, v.value.1);
      if BodyReadable(p) { FormRoundTrip(p, v.value.0, k, rest); }
    }
  }

  lemma BodyRoundTrip(p: Prop, q: Prop, k: Kind, rest: seq<Byte>)
    requires WellTyped(p) && KindOf(p.typ) == Some(k) && q.typ == p.typ && q.code == p.code
    ensures var r := DecBody(q, k, EncBody(p) + rest);
            if BodyReadable(p) then r.Some? && BodyAgrees(p, r.value.0) && r.value.1 == rest
            else r.None? || !BodyAgrees(p, r.value.0)
  {
    if IsArrayType(p.typ) { ArrayBodyRoundTrip(p, q, k, rest); } else { ValueBodyRoundTrip(p, q, k, rest); }
  }
}
