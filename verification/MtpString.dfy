/** MTP strings on values: UTF-8 text in the string buffer, counted 16-bit units in the packet
    (MTP specification v1.1, section 3.2.3). */
module MtpString {
  import opened Basics
  import opened LittleEndian

  const MAX_CHARS := 255
  const BUFFER_BYTES := 766   // MAX_CHARS * 3 + 1

  /** C strings: no zero byte, no zero unit inside. */
  predicate NulFree(s: seq<int>) {
    forall k :: 0 <= k < |s| ==> s[k] != 0
  }

  /** The 1, 2 or 3 byte form of a unit; surrogates are encoded one by one. */
  function Enc(u: Unit): (bs: seq<Byte>)
    ensures 1 <= |bs| <= 3
  {
    if u >= 0x800 then [0xE0 + u / 0x1000, 0x80 + u / 0x40 % 0x40, 0x80 + u % 0x40]
    else if u >= 0x80 then [0xC0 + u / 0x40, 0x80 + u % 0x40]
    else [u]
  }

  function EncAll(us: seq<Unit>): (bs: seq<Byte>)
    ensures |us| <= |bs| <= 3 * |us|
  {
    if us == [] then [] else Enc(us[0]) + EncAll(us[1..])
  }

  function Width(lead: Byte): (w: nat)
    ensures 1 <= w <= 3
  {
    if lead < 0x80 then 1 else if lead / 0x20 == 6 then 2 else 3
  }

  /** The unit writeToPacket takes at position p. */
  function DecAt(b: seq<Byte>, p: nat): Unit
    requires p + 3 <= |b|
  {
    var c0: int, c1: int, c2: int := b[p], b[p + 1], b[p + 2];
    if c0 < 0x80 then c0
    else if c0 / 0x20 == 6 then c0 % 0x20 * 0x40 + c1 % 0x40
    else c0 % 0x10 * 0x1000 + c1 % 0x40 * 0x40 + c2 % 0x40
  }

  /** Where the i-th character starts for writeToPacket. */
  function Pos(b: seq<Byte>, i: nat): (p: nat)
    requires |b| >= 3 * i
    ensures i <= p <= 3 * i
  {
    if i == 0 then 0 else Pos(b, i - 1) + Width(b[Pos(b, i - 1)])
  }

  function DecAll(b: seq<Byte>, count: nat): (us: seq<Unit>)
    requires |b| >= 3 * count
    ensures |us| == count
  {
    if count == 0 then [] else DecAll(b, count - 1) + [DecAt(b, Pos(b, count - 1))]
  }

  /** How many bytes set() takes for a character with this lead byte; 0 when it does not know the form. */
  function CopyWidth(lead: Byte): nat {
    if lead < 0x80 then 1 else if lead / 0x20 == 6 then 2 else if lead / 0x10 == 14 then 3 else 0
  }

  datatype Copied = Copied(bytes: seq<Byte>, count: nat)

  /** The loop of set(const char*): what it copies of s, and how many characters it counts. A lead byte of
      another form is counted but not copied; a truncated character ends the loop. */
  function Copy(s: seq<Byte>, count: nat): (r: Copied)
    requires count <= MAX_CHARS
    ensures count <= r.count <= MAX_CHARS && |r.bytes| <= 3 * (r.count - count)
    decreases |s|
  {
    if s == [] || count == MAX_CHARS then Copied([], count)
    else
      var w := CopyWidth(s[0]);
      if w == 0 then Copy(s[1..], count + 1)
      else if |s| < w then Copied([], count)
      else
        var r := Copy(s[w..], count + 1);
        Copied(s[..w] + r.bytes, r.count)
  }

  /** The string buffer: its 766 bytes, of which only those written are defined. */
  datatype Text = Text(mem: seq<Byte>, charCount: nat, byteCount: nat)

  function Terminated(bytes: seq<Byte>, count: nat, stale: seq<Byte>): (t: Text)
    requires |bytes| < |stale|
    ensures |t.mem| == |stale|
  {
    Text(bytes + [0] + stale[|bytes| + 1..], count, |bytes| + 1)
  }

  function SetChars(s: seq<Byte>, stale: seq<Byte>): Text
    requires |stale| == BUFFER_BYTES
  {
    var r := Copy(s, 0);
    Terminated(r.bytes, r.count, stale)
  }

  function SetUnits(us: seq<Unit>, stale: seq<Byte>): Text
    requires |stale| == BUFFER_BYTES
  {
    var n := if |us| < MAX_CHARS then |us| else MAX_CHARS;
    Terminated(EncAll(us[..n]), n, stale)
  }

  function LeUnits(us: seq<Unit>): (bs: seq<Byte>)
    ensures |bs| == 2 * |us|
  {
    if us == [] then [] else LeUnits(us[..|us| - 1]) + Le(us[|us| - 1], 2)
  }

  /** What writeToPacket appends: the count with its terminator in one byte, the units, a zero unit. */
  function Counted(us: seq<Unit>): seq<Byte> {
    if us == [] then [0] else [(|us| + 1) % 256] + LeUnits(us) + [0, 0]
  }

  function Written(t: Text): seq<Byte>
    requires |t.mem| >= 3 * t.charCount
  {
    Counted(DecAll(t.mem, t.charCount))
  }

  function Unit16(lo: Byte, hi: Byte): Unit {
    var l: int, h: int := lo, hi;
    l + 0x100 * h
  }

  /** The next `count` 16-bit characters of the packet, or None if it ends before. */
  function ReadUnits(b: seq<Byte>, count: nat): (r: Option<seq<Unit>>)
    ensures r.Some? ==> |r.value| == count
  {
    if |b| < 2 * count then None
    else Some(seq(count, i requires 0 <= i < count => Unit16(b[2 * i], b[2 * i + 1])))
  }

  /** readFromPacket on the unread bytes: the units counted, or None when the packet is too short. */
  function ReadCounted(b: seq<Byte>): (r: Option<seq<Unit>>)
    ensures r.Some? ==> |r.value| <= MAX_CHARS
  {
    if b == [] then None else ReadUnits(b[1..], b[0])
  }

  function UpToNul(s: seq<int>): (r: seq<int>)
    ensures NulFree(r) && |r| <= |s| && r == s[..|r|] && (|r| < |s| ==> s[|r|] == 0)
  {
    if s == [] || s[0] == 0 then [] else [s[0]] + UpToNul(s[1..])
  }

  /** The C string a buffer holds after readFromPacket has filled it with these units. */
  function TextOf(us: seq<Unit>): seq<Byte> {
    var s := EncAll(us) + [0];
    s[..|UpToNul(s)|]
  }

  // ---- Encoding ------------------------------------------------------------------------------------

  lemma TwoByteFields(u: int)
    requires 0x80 <= u < 0x800
    ensures var c0 := 0xC0 + u / 0x40;
            c0 / 0x20 == 6 && c0 % 0x20 * 0x40 + (0x80 + u % 0x40) % 0x40 == u
  {
    var hi, lo := u / 0x40, u % 0x40;
    assert (0xC0 + hi) % 0x20 == hi && (0x80 + lo) % 0x40 == lo;
  }

  lemma ThreeByteFields(u: int)
    requires 0x800 <= u < 0x1_0000
    ensures var c0 := 0xE0 + u / 0x1000;
            c0 / 0x20 == 7
            && c0 % 0x10 * 0x1000 + (0x80 + u / 0x40 % 0x40) % 0x40 * 0x40 + (0x80 + u % 0x40) % 0x40 == u
  {
    var hi, mid, lo := u / 0x1000, u / 0x40 % 0x40, u % 0x40;
    assert (0xE0 + hi) % 0x10 == hi && (0x80 + mid) % 0x40 == mid && (0x80 + lo) % 0x40 == lo;
    assert u / 0x40 / 0x40 == hi;
  }

  /** Decoding inverts each of the three byte forms, wherever it stands. */
  lemma DecInvertsEnc(u: Unit, b: seq<Byte>, p: nat)
    requires p + 3 <= |b| && b[p..p + |Enc(u)|] == Enc(u)
    ensures DecAt(b, p) == u && Width(b[p]) == |Enc(u)|
  {
    var e := b[p..p + |Enc(u)|];
    assert b[p] == e[0];
    if u >= 0x800 {
      assert b[p + 1] == e[1] && b[p + 2] == e[2];
      ThreeByteFields(u);
    } else if u >= 0x80 {
      assert b[p + 1] == e[1];
      TwoByteFields(u);
    }
  }

  lemma EncOne(u: Unit)
    ensures EncAll([u]) == Enc(u)
  {
    assert [u][1..] == [];
  }

  lemma EncPrefix(us: seq<Unit>, i: nat)
    requires i < |us|
    ensures EncAll(us[..i + 1]) == EncAll(us[..i]) + Enc(us[i])
  {
    var a, b := us[..i], [us[i]];
    assert us[..i + 1] == a + b;
    EncAllConcat(a, b);
    EncOne(us[i]);
  }

  lemma EncParts(us: seq<Unit>, j: nat)
    requires j <= |us|
    ensures EncAll(us) == EncAll(us[..j]) + EncAll(us[j..])
  {
    EncJoined(us, us[..j], us[j..]);
  }

  lemma EncJoined(us: seq<Unit>, a: seq<Unit>, b: seq<Unit>)
    requires us == a + b
    ensures EncAll(us) == EncAll(a) + EncAll(b)
  {
    EncAllConcat(a, b);
  }

  lemma MiddleSlice(pre: seq<Byte>, mid: seq<Byte>, all: seq<Byte>, post: seq<Byte>, b: seq<Byte>)
    requires all == pre + mid && all + post <= b
    ensures |pre| + |mid| <= |b| && b[|pre|..|pre| + |mid|] == mid
  {
    assert b[..|all + post|] == all + post;
  }

  /** Character i of an encoded text starts after the encodings of those before it. */
  lemma EncodedSlice(us: seq<Unit>, b: seq<Byte>, i: nat)
    requires EncAll(us) <= b && i < |us|
    ensures var p := |EncAll(us[..i])|;
            p + |Enc(us[i])| <= |b| && b[p..p + |Enc(us[i])|] == Enc(us[i])
  {
    EncPrefix(us, i);
    EncParts(us, i + 1);
    MiddleSlice(EncAll(us[..i]), Enc(us[i]), EncAll(us[..i + 1]), EncAll(us[i + 1..]), b);
  }

  lemma {:induction false} PosInEncoded(us: seq<Unit>, b: seq<Byte>, i: nat)
    requires |b| >= 3 * |us| && EncAll(us) <= b && i <= |us|
    ensures Pos(b, i) == |EncAll(us[..i])|
  {
    if i > 0 {
      PosInEncoded(us, b, i - 1);
      PosStep(us, b, i, Pos(b, i - 1));
    }
  }

  lemma PosStep(us: seq<Unit>, b: seq<Byte>, i: nat, before: nat)
    requires 0 < i <= |us| && |b| >= 3 * i && EncAll(us) <= b
    requires before == Pos(b, i - 1) == |EncAll(us[..i - 1])|
    ensures Pos(b, i) == |EncAll(us[..i])|
  {
    WidthStep(us, b, i - 1, before);
  }

  /** The lead byte of character i says how far it goes. */
  lemma WidthStep(us: seq<Unit>, b: seq<Byte>, i: nat, p: nat)
    requires EncAll(us) <= b && i < |us| && p == |EncAll(us[..i])|
    ensures p < |b| && p + Width(b[p]) == |EncAll(us[..i + 1])|
  {
    EncodedSlice(us, b, i);
    EncPrefix(us, i);
    LeadOfSlice(us[i], Enc(us[i]), b, p);
  }

  lemma LeadOfSlice(u: Unit, e: seq<Byte>, b: seq<Byte>, p: nat)
    requires e == Enc(u) && p + |e| <= |b| && b[p..p + |e|] == e
    ensures p < |b| && Width(b[p]) == |e|
  {
    EncLead(u);
    assert b[p..p + |e|][0] == b[p];
  }

  lemma DecodedUnit(us: seq<Unit>, b: seq<Byte>, i: nat)
    requires |b| >= 3 * |us| && EncAll(us) <= b && i < |us|
    ensures DecAt(b, Pos(b, i)) == us[i]
  {
    PosInEncoded(us, b, i);
    EncodedSlice(us, b, i);
    DecInvertsEnc(us[i], b, Pos(b, i));
  }

  lemma {:induction false} DecAllOfPrefix(us: seq<Unit>, b: seq<Byte>, i: nat)
    requires |b| >= 3 * |us| && EncAll(us) <= b && i <= |us|
    ensures DecAll(b, i) == us[..i]
  {
    if i > 0 {
      DecAllOfPrefix(us, b, i - 1);
      DecAllNext(us, b, i);
      assert us[..i] == us[..i - 1] + [us[i - 1]];
    }
  }

  lemma DecAllNext(us: seq<Unit>, b: seq<Byte>, i: nat)
    requires 0 < i <= |us| && |b| >= 3 * |us| && EncAll(us) <= b
    ensures DecAll(b, i) == DecAll(b, i - 1) + [us[i - 1]]
  {
    DecodedUnit(us, b, i - 1);
  }

  lemma DecAllInvertsEncAll(us: seq<Unit>, rest: seq<Byte>)
    requires |EncAll(us) + rest| >= 3 * |us|
    ensures DecAll(EncAll(us) + rest, |us|) == us
  {
    DecAllOfPrefix(us, EncAll(us) + rest, |us|);
    assert us[..|us|] == us;
  }

  lemma EncLead(u: Unit)
    ensures CopyWidth(Enc(u)[0]) == Width(Enc(u)[0]) == |Enc(u)|
    ensures u != 0 ==> NulFree(Enc(u))
    ensures u == 0 ==> Enc(u) == [0]
  {
  }

  lemma CopyOne(e: seq<Byte>, rest: seq<Byte>, count: nat)
    requires e != [] && CopyWidth(e[0]) == |e| && count < MAX_CHARS
    ensures Copy(e + rest, count) == Copied(e + Copy(rest, count + 1).bytes, Copy(rest, count + 1).count)
  {
    var s := e + rest;
    assert s[0] == e[0] && s[..|e|] == e && s[|e|..] == rest;
  }

  lemma EncTail(us: seq<Unit>, n: nat)
    requires 0 < n <= |us|
    ensures EncAll(us[..n]) == Enc(us[0]) + EncAll(us[1..][..n - 1])
  {
    assert us[..n][1..] == us[1..][..n - 1];
  }

  /** set() copies the encoding of up to 255 units whole, and counts the units. */
  lemma {:induction false} CopyEncoded(us: seq<Unit>, count: nat, n: nat)
    requires NulFree(us) && count <= MAX_CHARS
    requires n == if count + |us| < MAX_CHARS then |us| else MAX_CHARS - count
    ensures Copy(EncAll(us), count) == Copied(EncAll(us[..n]), count + n)
    decreases |us|
  {
    if us != [] && count < MAX_CHARS {
      EncLead(us[0]);
      var v := us[1..];
      CopyEncoded(v, count + 1, n - 1);
      EncTail(us, n);
      EncCons(us, v);
      CopyOnto(EncAll(us), Enc(us[0]), EncAll(v), EncAll(v[..n - 1]), EncAll(us[..n]), count, n);
    }
  }

  lemma CopyOnto(all: seq<Byte>, e: seq<Byte>, rest: seq<Byte>, taken: seq<Byte>, whole: seq<Byte>, count: nat, n: nat)
    requires all == e + rest && whole == e + taken && e != [] && CopyWidth(e[0]) == |e|
    requires count < MAX_CHARS && Copy(rest, count + 1) == Copied(taken, count + n)
    ensures Copy(all, count) == Copied(whole, count + n)
  {
    CopyOne(e, rest, count);
  }

  lemma EncCons(us: seq<Unit>, v: seq<Unit>)
    requires us != [] && v == us[1..]
    ensures EncAll(us) == Enc(us[0]) + EncAll(v)
  {
  }

  // ---- The packet form -----------------------------------------------------------------------------

  lemma UnitBytes(u: Unit)
    ensures |Le(u, 2)| == 2 && Unit16(Le(u, 2)[0], Le(u, 2)[1]) == u
  {
    Le2(u);
  }

  lemma {:induction false} LeUnitsAt(us: seq<Unit>, i: nat)
    requires i < |us|
    ensures Unit16(LeUnits(us)[2 * i], LeUnits(us)[2 * i + 1]) == us[i]
    decreases |us|
  {
    if i == |us| - 1 { UnitBytes(us[i]); } else { LeUnitsAt(us[..|us| - 1], i); }
  }

  lemma {:induction false} LeUnitsBytes(us: seq<Unit>, i: nat)
    requires i < |us|
    ensures LeUnits(us)[2 * i] == us[i] % 256 && LeUnits(us)[2 * i + 1] == us[i] / 256
    decreases |us|
  {
    var n := |us| - 1;
    if i == n {
      LastPair(LeUnits(us[..n]), us[n]);
    } else {
      LeUnitsBytes(us[..n], i);
      FrontPair(LeUnits(us[..n]), Le(us[n], 2), i);
    }
  }

  lemma FrontPair(front: seq<Byte>, last: seq<Byte>, i: nat)
    requires 2 * i + 1 < |front|
    ensures (front + last)[2 * i] == front[2 * i] && (front + last)[2 * i + 1] == front[2 * i + 1]
  {
  }

  lemma LastPair(front: seq<Byte>, u: Unit)
    ensures (front + Le(u, 2))[|front|] == u % 256 && (front + Le(u, 2))[|front| + 1] == u / 256
  {
    Le2(u);
  }

  /** In the packet: a count of the units and their terminator, the units of two bytes each, lowest first, and a zero
      unit; the empty string is a zero count alone. */
  lemma CountedLayout(us: seq<Unit>, i: nat)
    requires i < |us| < 255
    ensures var bs := Counted(us);
            && |bs| == 2 * |us| + 3 && bs[0] == |us| + 1 && bs[2 * |us| + 1] == bs[2 * |us| + 2] == 0
            && bs[1 + 2 * i] == us[i] % 256 && bs[2 + 2 * i] == us[i] / 256
    ensures Counted([]) == [0]
  {
    LeUnitsBytes(us, i);
    CountedAt(|us|, LeUnits(us), Counted(us), i);
  }

  lemma CountedAt(n: nat, body: seq<Byte>, bs: seq<Byte>, i: nat)
    requires i < n < 255 && |body| == 2 * n && bs == [(n + 1) % 256] + body + [0, 0]
    ensures |bs| == 2 * n + 3 && bs[0] == n + 1 && bs[2 * n + 1] == bs[2 * n + 2] == 0
    ensures bs[1 + 2 * i] == body[2 * i] && bs[2 + 2 * i] == body[2 * i + 1]
  {
  }

  /** The bytes of a unit carry its value as UTF-8 does: in the low 7, 5 or 4 bits of the first byte, and 6 bits of
      each further one. */
  lemma EncIsUtf8(u: Unit)
    ensures u < 0x80 ==> Enc(u) == [u]
    ensures 0x80 <= u < 0x800 ==> TwoBytes(Enc(u), u)
    ensures 0x800 <= u ==> ThreeBytes(Enc(u), u)
  {
    if 0x80 <= u < 0x800 { TwoBytesOf(u, u / 0x40, u % 0x40); }
    if 0x800 <= u { ThreeBytesOf(u, u / 0x1000, u / 0x40 % 0x40, u % 0x40); }
  }

  predicate TwoBytes(e: seq<Byte>, u: Unit) {
    && |e| == 2 && 0xC2 <= e[0] <= 0xDF && 0x80 <= e[1] <= 0xBF
    && (e[0] as int - 0xC0) * 0x40 + (e[1] as int - 0x80) == u
  }

  predicate ThreeBytes(e: seq<Byte>, u: Unit) {
    && |e| == 3 && 0xE0 <= e[0] <= 0xEF && 0x80 <= e[1] <= 0xBF && 0x80 <= e[2] <= 0xBF
    && (e[0] as int - 0xE0) * 0x1000 + (e[1] as int - 0x80) * 0x40 + (e[2] as int - 0x80) == u
  }

  lemma TwoBytesOf(u: Unit, a: nat, b: nat)
    requires 0x80 <= u < 0x800 && a == u / 0x40 && b == u % 0x40
    ensures TwoBytes([0xC0 + a, 0x80 + b], u)
  {
  }

  lemma ThreeBytesOf(u: Unit, a: nat, b: nat, c: nat)
    requires 0x800 <= u && a == u / 0x1000 && b == u / 0x40 % 0x40 && c == u % 0x40
    ensures ThreeBytes([0xE0 + a, 0x80 + b, 0x80 + c], u)
  {
  }

  lemma ReadPairs(us: seq<Unit>, enc: seq<Byte>, rest: seq<Byte>)
    requires |enc| == 2 * |us| && forall i :: 0 <= i < |us| ==> Unit16(enc[2 * i], enc[2 * i + 1]) == us[i]
    ensures ReadUnits(enc + rest, |us|) == Some(us)
  {
    var r := ReadUnits(enc + rest, |us|).value;
    forall i | 0 <= i < |us| ensures r[i] == us[i] {
    }
    assert r == us;
  }

  lemma ReadUnitsInverts(us: seq<Unit>, rest: seq<Byte>)
    ensures ReadUnits(LeUnits(us) + rest, |us|) == Some(us)
  {
    var enc := LeUnits(us);
    forall i | 0 <= i < |us| ensures Unit16(enc[2 * i], enc[2 * i + 1]) == us[i] {
      LeUnitsAt(us, i);
    }
    ReadPairs(us, enc, rest);
  }

  lemma LeUnitsAppend(us: seq<Unit>, v: Unit)
    ensures LeUnits(us + [v]) == LeUnits(us) + Le(v, 2)
  {
    assert (us + [v])[..|us|] == us;
  }

  lemma LeUnitsTerminated(us: seq<Unit>)
    ensures LeUnits(us + [0]) == LeUnits(us) + [0, 0]
  {
    LeUnitsAppend(us, 0);
    Le2(0);
  }

  lemma ReadCountedIs(c: Byte, body: seq<Byte>)
    ensures ReadCounted([c] + body) == ReadUnits(body, c)
  {
    assert ([c] + body)[1..] == body;
  }

  lemma ConcatAssociative(a: seq<Byte>, b: seq<Byte>, c: seq<Byte>, d: seq<Byte>)
    ensures a + b + c + d == a + (b + c + d)
  {
  }

  lemma CountedForm(us: seq<Unit>, body: seq<Byte>, rest: seq<Byte>)
    requires us != [] && body == LeUnits(us) + [0, 0]
    ensures Counted(us) + rest == [(|us| + 1) % 256] + (body + rest)
  {
    ConcatAssociative([(|us| + 1) % 256], LeUnits(us), [0, 0], rest);
  }

  lemma CountedShort(us: seq<Unit>, all: seq<Unit>, rest: seq<Byte>)
    requires 0 < |us| < MAX_CHARS && all == us + [0]
    ensures ReadCounted(Counted(us) + rest) == Some(all)
  {
    ReadUnitsInverts(all, rest);
    CountedBody(us, all, rest, |all|);
  }

  lemma CountedTooLong(us: seq<Unit>, rest: seq<Byte>)
    requires |us| == MAX_CHARS
    ensures ReadCounted(Counted(us) + rest) == Some([])
  {
    var all := us + [0];
    NothingCounted(LeUnits(all) + rest);
    CountedBody(us, all, rest, 0);
  }

  /** Reading back at most 254 units gives them with their terminator; 255 units are read back as the
      empty string, the count byte having wrapped to zero. */
  lemma CountedRoundTrip(us: seq<Unit>, rest: seq<Byte>)
    requires |us| <= MAX_CHARS
    ensures ReadCounted(Counted(us) + rest) == Some(if us == [] || |us| == MAX_CHARS then [] else us + [0])
  {
    if us == [] {
      ReadCountedIs(0, rest);
    } else if |us| == MAX_CHARS {
      CountedTooLong(us, rest);
    } else {
      CountedShort(us, us + [0], rest);
    }
  }

  /** Whatever the packet holds, its text and terminator fit the buffer. */
  lemma ReadFits(b: seq<Byte>)
    requires ReadCounted(b).Some?
    ensures |EncAll(ReadCounted(b).value)| + 1 <= BUFFER_BYTES
  {
  }

  lemma CountedBody(us: seq<Unit>, all: seq<Unit>, rest: seq<Byte>, count: Byte)
    requires us != [] && all == us + [0] && count == (|us| + 1) % 256
    ensures ReadCounted(Counted(us) + rest) == ReadUnits(LeUnits(all) + rest, count)
  {
    var body := LeUnits(all);
    LeUnitsTerminated(us);
    CountedForm(us, body, rest);
    ReadCountedIs(count, body + rest);
  }

  lemma NothingCounted(b: seq<Byte>)
    ensures ReadUnits(b, 0) == Some([])
  {
  }

  // ---- Text ------------------------------------------------------------------------------------------

  lemma {:induction false} EncAllConcat(a: seq<Unit>, b: seq<Unit>)
    ensures EncAll(a + b) == EncAll(a) + EncAll(b)
    decreases |a|
  {
    if a == [] {
      assert a + b == b;
    } else {
      EncAllConcat(a[1..], b);
      assert (a + b)[1..] == a[1..] + b;
      ConcatThree(Enc(a[0]), EncAll(a[1..]), EncAll(b));
    }
  }

  lemma {:induction false} EncAllNulFree(us: seq<Unit>)
    requires NulFree(us)
    ensures NulFree(EncAll(us))
    decreases |us|
  {
    if us != [] {
      EncLead(us[0]);
      assert NulFree(us[1..]);
      EncAllNulFree(us[1..]);
    }
  }

  lemma {:induction false} UpToNulUnique(s: seq<int>, r: seq<int>)
    requires NulFree(r) && |r| < |s| && r == s[..|r|] && s[|r|] == 0
    ensures UpToNul(s) == r
    decreases |s|
  {
    if r != [] {
      assert s[0] == r[0];
      UpToNulUnique(s[1..], r[1..]);
    }
  }

  /** The text read is the encoding of the units before the first zero unit. */
  lemma TextOfUnits(us: seq<Unit>)
    ensures TextOf(us) == EncAll(UpToNul(us))
  {
    var v := UpToNul(us);
    assert us == us[..|v|] + us[|v|..];
    var tail := us[|v|..];
    EncAllConcat(v, tail);
    EncAllNulFree(v);
    var s := EncAll(us) + [0];
    assert s == EncAll(v) + (EncAll(tail) + [0]);
    if tail != [] { assert EncAll(tail)[0] == 0; }
    UpToNulUnique(s, EncAll(v));
  }

  lemma MemAfterSet(bytes: seq<Byte>, n: nat, stale: seq<Byte>)
    requires |bytes| < |stale|
    ensures Terminated(bytes, n, stale).mem == bytes + ([0] + stale[|bytes| + 1..])
  {
  }

  lemma TerminatedUnits(us: seq<Unit>, stale: seq<Byte>, t: Text)
    requires |stale| == BUFFER_BYTES && |us| <= MAX_CHARS && t == Terminated(EncAll(us), |us|, stale)
    ensures DecAll(t.mem, t.charCount) == us
  {
    MemAfterSet(EncAll(us), |us|, stale);
    DecAllInvertsEncAll(us, [0] + stale[|EncAll(us)| + 1..]);
  }

  lemma SetCharsHolds(us: seq<Unit>, stale: seq<Byte>)
    requires NulFree(us) && |stale| == BUFFER_BYTES && |us| <= MAX_CHARS
    ensures SetChars(EncAll(us), stale) == Terminated(EncAll(us), |us|, stale)
  {
    assert us[..|us|] == us;
    CopyEncoded(us, 0, |us|);
  }

  /** set() of the UTF-8 form and set() of the units leave the same buffer; its units are the text's. */
  lemma SetHolds(us: seq<Unit>, stale: seq<Byte>)
    requires NulFree(us) && |stale| == BUFFER_BYTES && |us| <= MAX_CHARS
    ensures SetChars(EncAll(us), stale) == SetUnits(us, stale)
    ensures Written(SetUnits(us, stale)) == Counted(us)
  {
    assert us[..|us|] == us;
    SetCharsHolds(us, stale);
    TerminatedUnits(us, stale, SetUnits(us, stale));
  }

  /** Any NUL-free text of at most 254 units survives set, writeToPacket and readFromPacket. */
  lemma UnitsRoundTrip(us: seq<Unit>, stale: seq<Byte>, rest: seq<Byte>)
    requires NulFree(us) && |stale| == BUFFER_BYTES && |us| < MAX_CHARS
    ensures var r := ReadCounted(Written(SetUnits(us, stale)) + rest);
            r.Some? && TextOf(r.value) == EncAll(us) && UpToNul(r.value) == us
  {
    SetHolds(us, stale);
    CountedRoundTrip(us, rest);
    if us != [] { UpToNulUnique(us + [0], us); }
    TextOfUnits(if us == [] then [] else us + [0]);
  }

  /** What set leaves: the units counted, and the bytes with their terminator, in front of what was there before. */
  lemma SetLeaves(us: seq<Unit>, stale: seq<Byte>)
    requires NulFree(us) && |stale| == BUFFER_BYTES && |us| <= MAX_CHARS
    ensures var t, bytes := SetChars(EncAll(us), stale), EncAll(us);
            && t == SetUnits(us, stale) && t.charCount == |us| && t.byteCount == |bytes| + 1 <= 766
            && t.mem == bytes + [0] + stale[|bytes| + 1..]
  {
    SetHolds(us, stale);
    assert us[..|us|] == us;
  }

  /** How the lead byte of a character is taken: as one, two or three bytes by set, which skips what is none of these
      but counts it; and as three bytes by writeToPacket whenever it is not one or two. */
  lemma LeadForms(b: Byte)
    ensures CopyWidth(b) == if b <= 0x7F then 1 else if 0xC0 <= b <= 0xDF then 2 else if 0xE0 <= b <= 0xEF then 3 else 0
    ensures Width(b) == if b <= 0x7F then 1 else if 0xC0 <= b <= 0xDF then 2 else 3
  {
  }

  /** So a stray byte alone is written as a string of one zero unit. */
  lemma StrayByteWritesZero(b: Byte, stale: seq<Byte>)
    requires |stale| == BUFFER_BYTES && (0x80 <= b < 0xC0 || b >= 0xF0)
    ensures Written(SetChars([b], stale)) == [2, 0, 0, 0, 0]
  {
    LeadForms(b);
    assert [b][1..] == [] && Copy([b], 0) == Copied([], 1);
    var mem := SetChars([b], stale).mem;
    assert mem[0] == 0 && Pos(mem, 0) == 0;
    assert DecAll(mem, 0) == [] && DecAll(mem, 1) == [0];
    Le2(0);
    assert LeUnits([0]) == LeUnits([]) + Le(0, 2) by { assert [0][..0] == []; }
  }

  // ---- Exactly which C strings survive ------------------------------------------------------------------

  /** One character in shortest form, of one to three bytes, at the front of s; 0 if there is none. */
  function Shortest(s: seq<Byte>): (w: nat)
    ensures w <= 3 && w <= |s|
  {
    if s == [] then 0
    else if 0 < s[0] < 0x80 then 1
    else if 0xC2 <= s[0] < 0xE0 then if |s| >= 2 && s[1] / 0x40 == 2 then 2 else 0
    else if 0xE0 <= s[0] < 0xF0 then
      if |s| >= 3 && s[1] / 0x40 == 2 && s[2] / 0x40 == 2 && (s[0] == 0xE0 ==> s[1] >= 0xA0) then 3 else 0
    else 0
  }

  /** At most `limit` characters of one to three bytes, each in shortest form, and nothing else. */
  predicate WellFormed(s: seq<Byte>, limit: nat)
    decreases limit
  {
    s == [] || (limit > 0 && Shortest(s) > 0 && WellFormed(s[Shortest(s)..], limit - 1))
  }

  lemma TwoByteUnit(c0: int, c1: int) returns (u: Unit)
    requires 0xC2 <= c0 < 0xE0 && 0x80 <= c1 < 0xC0
    ensures 0x80 <= u < 0x800 && 0xC0 + u / 0x40 == c0 && 0x80 + u % 0x40 == c1
  {
    u := (c0 - 0xC0) * 0x40 + (c1 - 0x80);
  }

  lemma ThreeByteUnit(c0: int, c1: int, c2: int) returns (u: Unit)
    requires 0xE0 <= c0 < 0xF0 && 0x80 <= c1 < 0xC0 && 0x80 <= c2 < 0xC0 && (c0 == 0xE0 ==> c1 >= 0xA0)
    ensures u >= 0x800 && 0xE0 + u / 0x1000 == c0 && 0x80 + u / 0x40 % 0x40 == c1 && 0x80 + u % 0x40 == c2
  {
    u := (c0 - 0xE0) * 0x1000 + (c1 - 0x80) * 0x40 + (c2 - 0x80);
  }

  lemma ShortestIsEnc(s: seq<Byte>) returns (u: Unit)
    requires Shortest(s) > 0
    ensures u != 0 && Enc(u) == s[..Shortest(s)]
  {
    var w := Shortest(s);
    if w == 1 {
      u := s[0];
    } else if w == 2 {
      u := TwoByteUnit(s[0], s[1]);
      assert Enc(u) == [s[0], s[1]];
    } else {
      u := ThreeByteUnit(s[0], s[1], s[2]);
      assert Enc(u) == [s[0], s[1], s[2]];
    }
  }

  lemma EncIsShortest(u: Unit, rest: seq<Byte>)
    requires u != 0
    ensures Shortest(Enc(u) + rest) == |Enc(u)|
  {
    var s := Enc(u) + rest;
    if u >= 0x800 {
      assert s[0] == 0xE0 + u / 0x1000 && s[1] == 0x80 + u / 0x40 % 0x40 && s[2] == 0x80 + u % 0x40;
    } else if u >= 0x80 {
      assert s[0] == 0xC0 + u / 0x40 && s[1] == 0x80 + u % 0x40;
    } else {
      assert s[0] == u;
    }
  }

  lemma {:induction false} WellFormedIsEncoded(s: seq<Byte>, limit: nat) returns (us: seq<Unit>)
    requires WellFormed(s, limit)
    ensures NulFree(us) && |us| <= limit && EncAll(us) == s
    decreases limit
  {
    us := [];
    if s != [] {
      var u := ShortestIsEnc(s);
      var rest := WellFormedIsEncoded(s[Shortest(s)..], limit - 1);
      us := [u] + rest;
      assert us[1..] == rest;
      assert s == s[..Shortest(s)] + s[Shortest(s)..];
    }
  }

  lemma {:induction false} EncodedIsWellFormed(us: seq<Unit>, limit: nat)
    requires NulFree(us) && |us| <= limit
    ensures WellFormed(EncAll(us), limit)
    decreases limit
  {
    if us != [] {
      EncIsShortest(us[0], EncAll(us[1..]));
      assert EncAll(us)[|Enc(us[0])|..] == EncAll(us[1..]);
      EncodedIsWellFormed(us[1..], limit - 1);
    }
  }

  ghost predicate Survives(s: seq<Byte>, stale: seq<Byte>, rest: seq<Byte>)
    requires |stale| == BUFFER_BYTES
  {
    var r := ReadCounted(Written(SetChars(s, stale)) + rest);
    r.Some? && TextOf(r.value) == s
  }

  /** A C string survives the packet exactly when it is at most 254 shortest-form characters of one to
      three bytes, whatever was in the buffer's memory and whatever follows in the packet. */
  lemma SurvivesIff(s: seq<Byte>, stale: seq<Byte>, rest: seq<Byte>)
    requires |stale| == BUFFER_BYTES
    ensures Survives(s, stale, rest) <==> WellFormed(s, MAX_CHARS - 1)
  {
    if WellFormed(s, MAX_CHARS - 1) {
      var vs := WellFormedIsEncoded(s, MAX_CHARS - 1);
      SetHolds(vs, stale);
      UnitsRoundTrip(vs, stale, rest);
    }
    if Survives(s, stale, rest) {
      SurvivorIsWellFormed(s, stale, rest);
    }
  }

  lemma SurvivorIsWellFormed(s: seq<Byte>, stale: seq<Byte>, rest: seq<Byte>)
    requires |stale| == BUFFER_BYTES && Survives(s, stale, rest)
    ensures WellFormed(s, MAX_CHARS - 1)
  {
    var t := SetChars(s, stale);
    var us := DecAll(t.mem, t.charCount);
    CountedRoundTrip(us, rest);
    CountedSurvivor(us, s, ReadCounted(Written(t) + rest).value);
  }

  lemma CountedSurvivor(us: seq<Unit>, s: seq<Byte>, r: seq<Unit>)
    requires |us| <= MAX_CHARS && r == (if us == [] || |us| == MAX_CHARS then [] else us + [0])
    requires TextOf(r) == s
    ensures WellFormed(s, MAX_CHARS - 1)
  {
    TextOfUnits(r);
    var v := UpToNul(r);
    if r != [] {
      assert r[|us|] == 0;
      assert |v| == |r| ==> v == r;
      assert !NulFree(r);
    }
    EncodedIsWellFormed(v, MAX_CHARS - 1);
  }

  /** 255 letters do not: the count byte wraps to zero. */
  lemma TooLongIsLost(stale: seq<Byte>, rest: seq<Byte>)
    requires |stale| == BUFFER_BYTES
    ensures ReadCounted(Written(SetChars(seq(255, _ => 0x41), stale)) + rest) == Some([])
  {
    var us: seq<Unit> := seq(255, _ => 0x41);
    EncAllAscii(us);
    SetHolds(us, stale);
    CountedRoundTrip(us, rest);
  }

  lemma {:induction false} EncAllAscii(us: seq<Unit>)
    requires forall k :: 0 <= k < |us| ==> us[k] < 0x80
    ensures EncAll(us) == us
    decreases |us|
  {
    if us != [] { EncAllAscii(us[1..]); }
  }
}
