/** Vendor tag descriptors: tables from tags to names, types and sections, the way back from section and
    name to the tag, and the parcel form. */
module VendorTags {
  import opened Basics
  import opened CameraText

  const BOUNDARY := 0x8000_0000
  const WORD := 0x1_0000_0000
  const NUM_TYPES := 6

  /** A tag with what is known about it; the section is an index into the sorted section names. */
  datatype Record = Record(tag: nat, kind: nat, name: string, section: nat)

  type Index = map<string, map<string, nat>>

  datatype Descriptor = Descriptor(
    count: nat,
    tags: seq<nat>,
    names: map<nat, string>,
    kinds: map<nat, nat>,
    sectionOf: map<nat, nat>,
    sections: seq<string>,
    reverse: Index)

  const EMPTY: Descriptor := Descriptor(0, [], map[], map[], map[], [], map[])

  /** The operations of a vendor; the tables answer for any tag. A negative count is an error. */
  datatype Ops = Ops(count: int, tags: seq<nat>, name: nat -> Option<string>, section: nat -> Option<string>,
        kind: nat -> int)

  /** Parcel items: 32-bit words and strings. */
  datatype Item = Word(bits: nat) | Text(text: string)

  datatype Error = BadValue | NotEnoughData

  datatype Result<+T> = Good(value: T) | Bad(error: Error)

  // Sorted vectors of tags and of names.

  function Insert(ts: seq<nat>, t: nat): seq<nat> {
    if ts == [] then [t] else if ts[0] == t then ts else if t < ts[0] then [t] + ts else [ts[0]] + Insert(ts[1..], t)
  }

  ghost predicate Increasing(ts: seq<nat>) {
    forall i, j :: 0 <= i < j < |ts| ==> ts[i] < ts[j]
  }

  lemma {:induction false} InsertMembers(ts: seq<nat>, t: nat, k: nat)
    ensures k in Insert(ts, t) <==> k == t || k in ts
  {
    if ts != [] && ts[0] < t {
      InsertMembers(ts[1..], t, k);
      assert ts == [ts[0]] + ts[1..];
    }
  }

  lemma {:induction false} InsertIncreases(ts: seq<nat>, t: nat)
    requires Increasing(ts)
    ensures Increasing(Insert(ts, t))
  {
    if ts != [] && ts[0] < t {
      InsertIncreases(ts[1..], t);
      var r := Insert(ts[1..], t);
      forall j | 0 <= j < |r| ensures ts[0] < r[j] { InsertMembers(ts[1..], t, r[j]); }
    }
  }

  lemma {:induction false} InsertLength(ts: seq<nat>, t: nat)
    requires Increasing(ts)
    ensures |Insert(ts, t)| == |ts| + if t in ts then 0 else 1
  {
    if ts != [] && ts[0] < t {
      InsertLength(ts[1..], t);
      assert ts == [ts[0]] + ts[1..];
    }
  }

  lemma InsertSorts(ts: seq<nat>, t: nat)
    requires Increasing(ts)
    ensures Increasing(Insert(ts, t)) && |Insert(ts, t)| == |ts| + if t in ts then 0 else 1
  {
    InsertIncreases(ts, t);
    InsertLength(ts, t);
  }

  lemma {:induction false} InsertLast(ts: seq<nat>, t: nat)
    requires forall k :: k in ts ==> k < t
    ensures Insert(ts, t) == ts + [t]
  {
    if ts != [] {
      assert ts[0] in ts;
      assert forall k :: k in ts[1..] ==> k in ts;
      InsertLast(ts[1..], t);
    }
  }

  function InsertText(ss: seq<string>, s: string): seq<string> {
    if ss == [] then [s]
    else if ss[0] == s then ss
    else if Less(s, ss[0]) then [s] + ss
    else [ss[0]] + InsertText(ss[1..], s)
  }

  ghost predicate Ascending(ss: seq<string>) {
    forall i, j :: 0 <= i < j < |ss| ==> Less(ss[i], ss[j])
  }

  lemma {:induction false} InsertTextMembers(ss: seq<string>, s: string, k: string)
    ensures k in InsertText(ss, s) <==> k == s || k in ss
  {
    if ss != [] && ss[0] != s && !Less(s, ss[0]) {
      InsertTextMembers(ss[1..], s, k);
      assert ss == [ss[0]] + ss[1..];
    }
  }

  lemma {:induction false} InsertTextSorts(ss: seq<string>, s: string)
    requires Ascending(ss)
    ensures Ascending(InsertText(ss, s)) && 1 <= |InsertText(ss, s)| <= |ss| + 1
  {
    if ss != [] && ss[0] != s {
      if Less(s, ss[0]) {
        forall j | 0 <= j < |ss| ensures Less(s, ss[j]) { if j > 0 { LessTransitive(s, ss[0], ss[j]); } }
      } else {
        LessTotal(s, ss[0]);
        InsertTextSorts(ss[1..], s);
        var r := InsertText(ss[1..], s);
        forall j | 0 <= j < |r| ensures Less(ss[0], r[j]) { InsertTextMembers(ss[1..], s, r[j]); }
      }
    }
  }

  lemma {:induction false} InsertTextLast(ss: seq<string>, s: string)
    requires forall k :: k in ss ==> Less(k, s)
    ensures InsertText(ss, s) == ss + [s]
  {
    if ss != [] {
      assert ss[0] in ss;
      LessNotBack(ss[0], s);
      InsertTextLast(ss[1..], s);
    }
  }

  function IndexOf(ss: seq<string>, s: string, i: nat := 0): (k: nat)
    requires i <= |ss| && exists j :: i <= j < |ss| && ss[j] == s
    ensures i <= k < |ss| && ss[k] == s
    decreases |ss| - i
  {
    if ss[i] == s then i else IndexOf(ss, s, i + 1)
  }

  // Tables and index made from the first i of a sequence of records, a later one replacing an earlier.

  function Keys(rs: seq<Record>, i: nat): seq<nat>
    requires i <= |rs|
  {
    if i == 0 then [] else Insert(Keys(rs, i - 1), rs[i - 1].tag)
  }

  function Table<V>(rs: seq<Record>, f: Record -> V, i: nat): map<nat, V>
    requires i <= |rs|
  {
    if i == 0 then map[] else Table(rs, f, i - 1)[rs[i - 1].tag := f(rs[i - 1])]
  }

  function NameOf(r: Record): string { r.name }

  function KindOf(r: Record): nat { r.kind }

  function SectionOf(r: Record): nat { r.section }

  predicate InSections(rs: seq<Record>, ss: seq<string>) {
    forall i :: 0 <= i < |rs| ==> rs[i].section < |ss|
  }

  function Put(m: Index, section: string, name: string, tag: nat): Index {
    m[section := (if section in m then m[section] else map[])[name := tag]]
  }

  function Reverse(rs: seq<Record>, ss: seq<string>, i: nat): Index
    requires i <= |rs| && InSections(rs, ss)
  {
    if i == 0 then map[] else Put(Reverse(rs, ss, i - 1), ss[rs[i - 1].section], rs[i - 1].name, rs[i - 1].tag)
  }

  /** Records of the same tag say the same. */
  ghost predicate Consistent(rs: seq<Record>) {
    forall i, j :: 0 <= i < |rs| && 0 <= j < |rs| && rs[i].tag == rs[j].tag ==> rs[i] == rs[j]
  }

  lemma {:induction false} TableIs<V>(rs: seq<Record>, f: Record -> V, i: nat)
    requires i <= |rs|
    ensures var m := Table(rs, f, i);
            && (forall k :: 0 <= k < i ==> rs[k].tag in m && (Consistent(rs) ==> m[rs[k].tag] == f(rs[k])))
            && (forall t :: t in m ==> exists k :: 0 <= k < i && rs[k].tag == t)
  {
    if i > 0 { TableIs(rs, f, i - 1); }
  }

  lemma TableAt<V>(rs: seq<Record>, f: Record -> V, k: nat)
    requires k < |rs|
    ensures rs[k].tag in Table(rs, f, |rs|) && (Consistent(rs) ==> Table(rs, f, |rs|)[rs[k].tag] == f(rs[k]))
  {
    TableIs(rs, f, |rs|);
  }

  /** A record as the finished tables have it: of several with one tag the last counts. */
  function ResolvedAt(rs: seq<Record>, k: nat): (r: Record)
    requires k < |rs|
    ensures Consistent(rs) ==> r == rs[k]
  {
    var t := rs[k].tag;
    TableAt(rs, NameOf, k);
    TableAt(rs, KindOf, k);
    TableAt(rs, SectionOf, k);
    Record(t, Table(rs, KindOf, |rs|)[t], Table(rs, NameOf, |rs|)[t], Table(rs, SectionOf, |rs|)[t])
  }

  function Resolved(rs: seq<Record>): (qs: seq<Record>)
    ensures |qs| == |rs| && (Consistent(rs) ==> qs == rs)
  {
    seq(|rs|, k requires 0 <= k < |rs| => ResolvedAt(rs, k))
  }

  function Assembled(rs: seq<Record>, ss: seq<string>): Descriptor
    requires InSections(Resolved(rs), ss)
  {
    Descriptor(|rs|, Keys(rs, |rs|), Table(rs, NameOf, |rs|), Table(rs, KindOf, |rs|), Table(rs, SectionOf, |rs|), ss,
               Reverse(Resolved(rs), ss, |rs|))
  }

  // Building from a vendor's operations.

  predicate ValidTag(ops: Ops, t: nat) {
    BOUNDARY <= t < WORD && ops.name(t).Some? && ops.section(t).Some? && 0 <= ops.kind(t) < NUM_TYPES
  }

  predicate ValidUpTo(ops: Ops, n: nat)
    requires n <= |ops.tags|
  {
    forall i :: 0 <= i < n ==> ValidTag(ops, ops.tags[i])
  }

  predicate ValidTags(ops: Ops) {
    ValidUpTo(ops, |ops.tags|)
  }

  function SectionsOf(ops: Ops, i: nat): seq<string>
    requires i <= |ops.tags| && ValidUpTo(ops, i)
  {
    if i == 0 then [] else InsertText(SectionsOf(ops, i - 1), ops.section(ops.tags[i - 1]).value)
  }

  lemma {:induction false} SectionsAscend(ops: Ops, i: nat)
    requires i <= |ops.tags| && ValidUpTo(ops, i)
    ensures var ss := SectionsOf(ops, i); Ascending(ss) && |ss| <= i && (i > 0 ==> |ss| > 0)
  {
    if i > 0 {
      SectionsAscend(ops, i - 1);
      InsertTextSorts(SectionsOf(ops, i - 1), ops.section(ops.tags[i - 1]).value);
    }
  }

  predicate HasSection(ops: Ops, i: nat, s: string)
    requires i <= |ops.tags| && ValidUpTo(ops, i)
  {
    exists k :: 0 <= k < i && ops.section(ops.tags[k]).value == s
  }

  lemma {:induction false} SectionsAre(ops: Ops, i: nat, s: string)
    requires i <= |ops.tags| && ValidUpTo(ops, i)
    ensures s in SectionsOf(ops, i) <==> HasSection(ops, i, s)
  {
    if i > 0 {
      SectionsAre(ops, i - 1, s);
      InsertTextMembers(SectionsOf(ops, i - 1), ops.section(ops.tags[i - 1]).value, s);
      assert HasSection(ops, i, s) <==> ops.section(ops.tags[i - 1]).value == s || HasSection(ops, i - 1, s);
    }
  }

  lemma SectionsCollected(ops: Ops, i: nat)
    requires i <= |ops.tags| && ValidUpTo(ops, i)
    ensures var ss := SectionsOf(ops, i);
            Ascending(ss) && |ss| <= i && (i > 0 ==> |ss| > 0)
            && forall k :: 0 <= k < i ==> ops.section(ops.tags[k]).value in ss
  {
    SectionsAscend(ops, i);
    forall k | 0 <= k < i ensures ops.section(ops.tags[k]).value in SectionsOf(ops, i) {
      SectionsAre(ops, i, ops.section(ops.tags[k]).value);
    }
  }

  function RecordOf(ops: Ops, t: nat, ss: seq<string>): Record
    requires ValidTag(ops, t) && ops.section(t).value in ss
  {
    Record(t, ops.kind(t), ops.name(t).value, IndexOf(ss, ops.section(t).value))
  }

  function RecordsOf(ops: Ops): (rs: seq<Record>)
    requires ValidTags(ops)
    ensures |rs| == |ops.tags| && InSections(rs, SectionsOf(ops, |ops.tags|)) && Consistent(rs)
  {
    SectionsCollected(ops, |ops.tags|);
    var ss := SectionsOf(ops, |ops.tags|);
    seq(|ops.tags|, i requires 0 <= i < |ops.tags| => RecordOf(ops, ops.tags[i], ss))
  }

  /** createDescriptorFromOps. */
  function FromOps(ops: Ops): Result<Descriptor>
    requires ops.count >= 0 ==> |ops.tags| == ops.count
  {
    if ops.count < 0 || !ValidTags(ops) then Bad(BadValue)
    else Good(Assembled(RecordsOf(ops), SectionsOf(ops, |ops.tags|)))
  }

  // The parcel form.

  function TagItems(d: Descriptor, i: nat): (p: seq<Item>)
    requires i <= |d.tags| && Complete(d)
    ensures |p| == 4 * i
  {
    if i == 0 then []
    else
      var t := d.tags[i - 1];
      TagItems(d, i - 1) + [Word(t), Word(d.kinds[t]), Text(d.names[t]), Word(d.sectionOf[t])]
  }

  predicate Complete(d: Descriptor) {
    forall i :: 0 <= i < |d.tags| ==> d.tags[i] in d.names && d.tags[i] in d.kinds && d.tags[i] in d.sectionOf
  }

  function Texts(ss: seq<string>): (p: seq<Item>)
    ensures |p| == |ss|
  {
    seq(|ss|, i requires 0 <= i < |ss| => Text(ss[i]))
  }

  function SectionItems(ss: seq<string>): seq<Item> {
    if |ss| > 0 then [Word(|ss|)] + Texts(ss) else []
  }

  /** writeToParcel: the number of tags the descriptor was made of, its distinct tags in order, and its
      sections. */
  function Written(d: Descriptor): seq<Item>
    requires Complete(d)
  {
    [Word(d.count)] + TagItems(d, |d.tags|) + SectionItems(d.sections)
  }

  function WordAt(p: seq<Item>, k: nat): Option<nat> {
    if k < |p| && p[k].Word? then Some(p[k].bits) else None
  }

  /** A string that is missing reads as empty. */
  function TextAt(p: seq<Item>, k: nat): string {
    if k < |p| && p[k].Text? then p[k].text else ""
  }

  function ReadRecord(p: seq<Item>, k: nat): Result<Record> {
    var tag, kind, name, section := WordAt(p, k), WordAt(p, k + 1), TextAt(p, k + 2), WordAt(p, k + 3);
    if tag.None? then Bad(NotEnoughData)
    else if tag.value < BOUNDARY then Bad(BadValue)
    else if kind.None? then Bad(NotEnoughData)
    else if kind.value >= NUM_TYPES then Bad(BadValue)
    else if name == "" || section.None? then Bad(NotEnoughData)
    else Good(Record(tag.value, kind.value, name, section.value))
  }

  /** The first n records, or the first error. */
  function ReadRecords(p: seq<Item>, n: nat): (rs: Result<seq<Record>>)
    ensures rs.Good? ==> |rs.value| == n
  {
    if n == 0 then Good([])
    else
      var rs := ReadRecords(p, n - 1);
      if rs.Bad? then rs
      else
        var r := ReadRecord(p, 4 * n - 3);
        if r.Bad? then Bad(r.error) else Good(rs.value + [r.value])
  }

  function ReadSections(p: seq<Item>, k: nat, n: nat): Result<seq<string>> {
    if n == 0 then Good([])
    else
      var ss := ReadSections(p, k, n - 1);
      if ss.Bad? then ss
      else if TextAt(p, k + n - 1) == "" then Bad(NotEnoughData)
      else Good(InsertText(ss.value, TextAt(p, k + n - 1)))
  }

  function MaxSection(rs: seq<Record>, i: nat): nat
    requires i <= |rs|
  {
    if i == 0 then 0
    else if MaxSection(rs, i - 1) >= rs[i - 1].section then MaxSection(rs, i - 1)
    else rs[i - 1].section
  }

  /** createFromParcel. A section index that has no section is an error here; the original checks the indices
      against the announced number of sections only, and then goes by them. */
  function FromParcel(p: seq<Item>): Result<Descriptor> {
    var count := WordAt(p, 0);
    if count.None? then Bad(NotEnoughData)
    else if count.value >= BOUNDARY then Bad(BadValue)
    else
      FromRecords(p, ReadRecords(p, count.value))
  }

  function FromRecords(p: seq<Item>, rs: Result<seq<Record>>): Result<Descriptor> {
    if rs.Bad? then Bad(rs.error)
    else if |rs.value| == 0 then Good(EMPTY)
    else FinishRead(p, rs.value, WordAt(p, 4 * |rs.value| + 1))
  }

  /** One more, in 32 bits. */
  function Incremented(n: nat): nat {
    if n == WORD - 1 then 0 else n + 1
  }

  function FinishRead(p: seq<Item>, rs: seq<Record>, sectionCount: Option<nat>): Result<Descriptor> {
    if sectionCount.None? then Bad(NotEnoughData)
    else if sectionCount.value < Incremented(MaxSection(rs, |rs|)) then Bad(BadValue)
    else
      var ss := ReadSections(p, 4 * |rs| + 2, sectionCount.value);
      if ss.Bad? then Bad(ss.error)
      else if !InSections(Resolved(rs), ss.value) then Bad(BadValue)
      else Good(Assembled(rs, ss.value))
  }

  function FindTag(d: Descriptor, name: string, section: string): Option<nat> {
    if section in d.reverse && name in d.reverse[section] then Some(d.reverse[section][name]) else None
  }

  // Keys and tables.

  predicate Distinct(ts: seq<nat>) {
    forall i, j :: 0 <= i < j < |ts| ==> ts[i] != ts[j]
  }

  lemma {:induction false} KeysIncrease(rs: seq<Record>, i: nat)
    requires i <= |rs|
    ensures Increasing(Keys(rs, i)) && |Keys(rs, i)| <= i
  {
    if i > 0 {
      KeysIncrease(rs, i - 1);
      InsertSorts(Keys(rs, i - 1), rs[i - 1].tag);
    }
  }

  predicate HasTag(rs: seq<Record>, i: nat, t: nat)
    requires i <= |rs|
  {
    exists k :: 0 <= k < i && rs[k].tag == t
  }

  lemma {:induction false} KeysAre(rs: seq<Record>, i: nat, t: nat)
    requires i <= |rs|
    ensures t in Keys(rs, i) <==> HasTag(rs, i, t)
  {
    if i > 0 {
      KeysAre(rs, i - 1, t);
      InsertMembers(Keys(rs, i - 1), rs[i - 1].tag, t);
      assert HasTag(rs, i, t) <==> rs[i - 1].tag == t || HasTag(rs, i - 1, t);
    }
  }

  predicate DistinctTags(rs: seq<Record>, i: nat)
    requires i <= |rs|
  {
    forall a, b :: 0 <= a < b < i ==> rs[a].tag != rs[b].tag
  }

  /** As many keys as records exactly when no tag comes twice. */
  lemma {:induction false} KeysCount(rs: seq<Record>, i: nat)
    requires i <= |rs|
    ensures |Keys(rs, i)| == i <==> DistinctTags(rs, i)
  {
    if i > 0 {
      var t := rs[i - 1].tag;
      KeysCount(rs, i - 1);
      KeysAre(rs, i - 1, t);
      KeysIncrease(rs, i - 1);
      InsertSorts(Keys(rs, i - 1), t);
      DistinctStep(rs, i);
    }
  }

  lemma DistinctStep(rs: seq<Record>, i: nat)
    requires 0 < i <= |rs|
    ensures DistinctTags(rs, i) <==> DistinctTags(rs, i - 1) && !HasTag(rs, i - 1, rs[i - 1].tag)
  {
  }

  lemma {:induction false} KeysOfIncreasing(rs: seq<Record>, ts: seq<nat>, i: nat)
    requires i <= |rs| == |ts| && Increasing(ts) && forall k :: 0 <= k < |rs| ==> rs[k].tag == ts[k]
    ensures Keys(rs, i) == ts[..i]
  {
    if i > 0 {
      KeysOfIncreasing(rs, ts, i - 1);
      InsertLast(ts[..i - 1], ts[i - 1]);
      assert ts[..i] == ts[..i - 1] + [ts[i - 1]];
    }
  }

  /** Tables of two lists of records with the same tags and, for each, the same record. */
  lemma SameTable<V>(rs: seq<Record>, qs: seq<Record>, f: Record -> V)
    requires Consistent(rs) && Consistent(qs)
    requires forall i :: 0 <= i < |rs| ==> rs[i] in qs
    requires forall i :: 0 <= i < |qs| ==> qs[i] in rs
    ensures Table(rs, f, |rs|) == Table(qs, f, |qs|)
  {
    var m, n := Table(rs, f, |rs|), Table(qs, f, |qs|);
    forall t | t in m ensures t in n && n[t] == m[t] { TableWithin(rs, qs, f, t); }
    forall t | t in n ensures t in m && n[t] == m[t] { TableWithin(qs, rs, f, t); }
  }

  lemma TableWithin<V>(rs: seq<Record>, qs: seq<Record>, f: Record -> V, t: nat)
    requires Consistent(rs) && Consistent(qs) && forall i :: 0 <= i < |rs| ==> rs[i] in qs
    requires t in Table(rs, f, |rs|)
    ensures t in Table(qs, f, |qs|) && Table(qs, f, |qs|)[t] == Table(rs, f, |rs|)[t]
  {
    TableIs(rs, f, |rs|);
    TableIs(qs, f, |qs|);
    var k :| 0 <= k < |rs| && rs[k].tag == t;
    var j :| 0 <= j < |qs| && qs[j] == rs[k];
  }

  // The way back.

  /** The tag of the last of the first i records with this section and name. */
  function LastTag(rs: seq<Record>, ss: seq<string>, i: nat, section: string, name: string): Option<nat>
    requires i <= |rs| && InSections(rs, ss)
  {
    if i == 0 then None
    else if ss[rs[i - 1].section] == section && rs[i - 1].name == name then Some(rs[i - 1].tag)
    else LastTag(rs, ss, i - 1, section, name)
  }

  function Look(m: Index, section: string, name: string): Option<nat> {
    if section in m && name in m[section] then Some(m[section][name]) else None
  }

  ghost predicate NoEmptySection(m: Index) {
    forall s :: s in m ==> exists n :: n in m[s]
  }

  lemma {:induction false} ReverseIs(rs: seq<Record>, ss: seq<string>, i: nat)
    requires i <= |rs| && InSections(rs, ss)
    ensures forall s, n :: Look(Reverse(rs, ss, i), s, n) == LastTag(rs, ss, i, s, n)
    ensures NoEmptySection(Reverse(rs, ss, i))
  {
    if i > 0 {
      ReverseIs(rs, ss, i - 1);
      var m, r := Reverse(rs, ss, i - 1), rs[i - 1];
      var p := Put(m, ss[r.section], r.name, r.tag);
      forall s, n ensures Look(p, s, n) == LastTag(rs, ss, i, s, n) {
        assert Look(m, s, n) == LastTag(rs, ss, i - 1, s, n);
      }
      assert r.name in p[ss[r.section]];
    }
  }

  lemma SameIndex(m: Index, n: Index)
    requires NoEmptySection(m) && NoEmptySection(n)
    ensures m == n <==> forall s, k :: Look(m, s, k) == Look(n, s, k)
  {
    if forall s, k :: Look(m, s, k) == Look(n, s, k) {
      forall s | s in m ensures s in n && n[s] == m[s] {
        var k :| k in m[s];
        assert Look(m, s, k) == Look(n, s, k);
        forall j ensures j in m[s] <==> j in n[s] { assert Look(m, s, j) == Look(n, s, j); }
        forall j | j in m[s] ensures n[s][j] == m[s][j] { assert Look(m, s, j) == Look(n, s, j); }
      }
      forall s | s in n ensures s in m {
        var k :| k in n[s];
        assert Look(m, s, k) == Look(n, s, k);
      }
    }
  }

  predicate SamePair(rs: seq<Record>, ss: seq<string>, i: nat, j: nat)
    requires i < |rs| && j < |rs| && InSections(rs, ss)
  {
    ss[rs[i].section] == ss[rs[j].section] && rs[i].name == rs[j].name
  }

  lemma {:induction false} LastTagIs(rs: seq<Record>, ss: seq<string>, i: nat, s: string, n: string)
    requires i <= |rs| && InSections(rs, ss)
    ensures var r := LastTag(rs, ss, i, s, n);
            && (r.None? ==> forall k :: 0 <= k < i ==> !(ss[rs[k].section] == s && rs[k].name == n))
            && (r.Some? ==> exists k :: 0 <= k < i && rs[k].tag == r.value && ss[rs[k].section] == s && rs[k].name == n
                             && forall j :: k < j < i ==> !(ss[rs[j].section] == s && rs[j].name == n))
  {
    if i > 0 && !(ss[rs[i - 1].section] == s && rs[i - 1].name == n) { LastTagIs(rs, ss, i - 1, s, n); }
  }

  // Reading back what was written.

  function RowOf(d: Descriptor, t: nat): Record
    requires t in d.names && t in d.kinds && t in d.sectionOf
  {
    Record(t, d.kinds[t], d.names[t], d.sectionOf[t])
  }

  /** The descriptor's records, by increasing tag. */
  function Rows(d: Descriptor): (rs: seq<Record>)
    requires Complete(d)
    ensures |rs| == |d.tags|
  {
    seq(|d.tags|, i requires 0 <= i < |d.tags| => RowOf(d, d.tags[i]))
  }

  lemma RowOfAssembled(rs: seq<Record>, ss: seq<string>, k: nat)
    requires Consistent(rs) && InSections(rs, ss) && k < |rs|
    ensures var d := Assembled(rs, ss); var t := rs[k].tag;
            t in d.names && t in d.kinds && t in d.sectionOf && RowOf(d, t) == rs[k]
  {
    TableIs(rs, NameOf, |rs|);
    TableIs(rs, KindOf, |rs|);
    TableIs(rs, SectionOf, |rs|);
  }

  /** The rows are the records without the repetitions. */
  lemma RowsAre(rs: seq<Record>, ss: seq<string>, d: Descriptor)
    requires Consistent(rs) && InSections(rs, ss) && d == Assembled(rs, ss)
    ensures Complete(d) && Increasing(d.tags)
    ensures forall i :: 0 <= i < |Rows(d)| ==> Rows(d)[i] in rs
    ensures forall k :: 0 <= k < |rs| ==> rs[k] in Rows(d)
  {
    KeysIncrease(rs, |rs|);
    forall i | 0 <= i < |d.tags|
      ensures d.tags[i] in d.names && d.tags[i] in d.kinds && d.tags[i] in d.sectionOf && RowOf(d, d.tags[i]) in rs
    {
      KeysAre(rs, |rs|, d.tags[i]);
      var k :| 0 <= k < |rs| && rs[k].tag == d.tags[i];
      RowOfAssembled(rs, ss, k);
    }
    forall k | 0 <= k < |rs| ensures rs[k] in Rows(d) {
      KeysAre(rs, |rs|, rs[k].tag);
      var i :| 0 <= i < |d.tags| && d.tags[i] == rs[k].tag;
      RowOfAssembled(rs, ss, k);
      assert Rows(d)[i] == rs[k];
    }
  }

  lemma RowsConsistent(d: Descriptor)
    requires Complete(d) && Increasing(d.tags)
    ensures Consistent(Rows(d)) && DistinctTags(Rows(d), |d.tags|)
  {
  }

  lemma {:induction false} TagItemsAt(d: Descriptor, n: nat, i: nat)
    requires i < n <= |d.tags| && Complete(d)
    ensures var p, r := TagItems(d, n), Rows(d)[i];
            p[4 * i] == Word(r.tag) && p[4 * i + 1] == Word(r.kind) && p[4 * i + 2] == Text(r.name)
            && p[4 * i + 3] == Word(r.section)
  {
    if i < n - 1 { TagItemsAt(d, n - 1, i); }
  }

  lemma WrittenAt(d: Descriptor, i: nat)
    requires i < |d.tags| && Complete(d)
    ensures var p, r := Written(d), Rows(d)[i];
            && 4 * i + 4 < |p| && p[4 * i + 1] == Word(r.tag) && p[4 * i + 2] == Word(r.kind)
            && p[4 * i + 3] == Text(r.name) && p[4 * i + 4] == Word(r.section)
  {
    TagItemsAt(d, |d.tags|, i);
    WrittenFront(d, TagItems(d, |d.tags|));
  }

  lemma WrittenFront(d: Descriptor, items: seq<Item>)
    requires Complete(d) && items == TagItems(d, |d.tags|)
    ensures |Written(d)| == 1 + |items| + |SectionItems(d.sections)| && Written(d)[0] == Word(d.count)
    ensures forall j :: 0 <= j < |items| ==> Written(d)[j + 1] == items[j]
  {
  }

  lemma WrittenSections(d: Descriptor)
    requires Complete(d) && |d.sections| > 0
    ensures var p, k := Written(d), 4 * |d.tags| + 1;
            && |p| == k + 1 + |d.sections| && p[k] == Word(|d.sections|)
            && forall j :: 0 <= j < |d.sections| ==> p[k + 1 + j] == Text(d.sections[j])
  {
    WrittenBehind(d, TagItems(d, |d.tags|));
  }

  lemma WrittenBehind(d: Descriptor, items: seq<Item>)
    requires Complete(d) && |d.sections| > 0 && items == TagItems(d, |d.tags|)
    ensures var p, k := Written(d), |items| + 1;
            && |p| == k + 1 + |d.sections| && p[k] == Word(|d.sections|)
            && forall j :: 0 <= j < |d.sections| ==> p[k + 1 + j] == Text(d.sections[j])
  {
    SectionsBehind([Word(d.count)] + items, d.sections);
  }

  lemma SectionsBehind(front: seq<Item>, ss: seq<string>)
    requires |ss| > 0
    ensures var p, k := front + SectionItems(ss), |front|;
            && |p| == k + 1 + |ss| && p[k] == Word(|ss|)
            && forall j :: 0 <= j < |ss| ==> p[k + 1 + j] == Text(ss[j])
  {
  }

  /** A row as it can be written by any vendor: all but the name is in order. */
  predicate Proper(r: Record, sections: nat) {
    BOUNDARY <= r.tag < WORD && r.kind < NUM_TYPES && r.section < sections
  }

  ghost predicate AllProper(d: Descriptor) {
    Complete(d) && forall i :: 0 <= i < |d.tags| ==> Proper(Rows(d)[i], |d.sections|)
  }

  lemma RecordReads(d: Descriptor, i: nat, r: Record)
    requires AllProper(d) && i < |d.tags| && r == Rows(d)[i]
    ensures ReadRecord(Written(d), 4 * i + 1) == if r.name == "" then Bad(NotEnoughData) else Good(r)
  {
    WrittenAt(d, i);
    assert Proper(Rows(d)[i], |d.sections|);
  }

  predicate Named(rs: seq<Record>, n: nat)
    requires n <= |rs|
  {
    forall i :: 0 <= i < n ==> rs[i].name != ""
  }

  /** Records are read up to the first without a name. */
  lemma {:induction false} RecordsRead(p: seq<Item>, rows: seq<Record>, n: nat)
    requires n <= |rows|
    requires forall i :: 0 <= i < |rows| ==>
               ReadRecord(p, 4 * i + 1) == if rows[i].name == "" then Bad(NotEnoughData) else Good(rows[i])
    ensures if Named(rows, n) then ReadRecords(p, n) == Good(rows[..n]) else ReadRecords(p, n).Bad?
  {
    if n > 0 {
      RecordsRead(p, rows, n - 1);
      RecordStep(p, n, ReadRecords(p, n - 1), ReadRecord(p, 4 * (n - 1) + 1));
      NamedPrefix(rows, n);
    }
  }

  lemma NamedPrefix(rows: seq<Record>, n: nat)
    requires 0 < n <= |rows|
    ensures Named(rows, n) <==> Named(rows, n - 1) && rows[n - 1].name != ""
    ensures rows[..n] == rows[..n - 1] + [rows[n - 1]]
  {
  }

  lemma WrittenRecordsRead(d: Descriptor)
    requires AllProper(d)
    ensures var p, rows := Written(d), Rows(d);
            if Named(rows, |rows|) then ReadRecords(p, |rows|) == Good(rows) else ReadRecords(p, |rows|).Bad?
  {
    forall i | 0 <= i < |d.tags|
      ensures ReadRecord(Written(d), 4 * i + 1)
              == if Rows(d)[i].name == "" then Bad(NotEnoughData) else Good(Rows(d)[i])
    {
      RecordReads(d, i, Rows(d)[i]);
    }
    RecordsRead(Written(d), Rows(d), |d.tags|);
    assert Rows(d)[..|d.tags|] == Rows(d);
  }

  lemma RecordStep(p: seq<Item>, n: nat, before: Result<seq<Record>>, r: Result<Record>)
    requires n > 0 && before == ReadRecords(p, n - 1) && r == ReadRecord(p, 4 * (n - 1) + 1)
    ensures before.Bad? || r.Bad? ==> ReadRecords(p, n).Bad?
    ensures before.Good? && r.Good? ==> ReadRecords(p, n) == Good(before.value + [r.value])
  {
    assert 4 * n - 3 == 4 * (n - 1) + 1;
  }

  lemma {:induction false} BadStays(p: seq<Item>, n: nat, m: nat)
    requires n <= m && ReadRecords(p, n).Bad?
    ensures ReadRecords(p, m).Bad?
  {
    if n < m { BadStays(p, n, m - 1); }
  }

  /** With a tag too many announced, the number of sections is taken for one, and is none. */
  lemma CountTooLarge(d: Descriptor)
    requires AllProper(d) && |d.tags| < d.count < BOUNDARY && 0 < |d.sections| < BOUNDARY
    ensures ReadRecords(Written(d), d.count).Bad?
  {
    var n := |d.tags|;
    WrittenSections(d);
    assert ReadRecord(Written(d), 4 * n + 1) == Bad(BadValue);
    assert 4 * (n + 1) - 3 == 4 * n + 1;
    assert ReadRecords(Written(d), n + 1).Bad?;
    BadStays(Written(d), n + 1, d.count);
  }

  predicate NamedSections(ss: seq<string>, n: nat)
    requires n <= |ss|
  {
    forall i :: 0 <= i < n ==> ss[i] != ""
  }

  lemma {:induction false} SectionsRead(p: seq<Item>, k: nat, ss: seq<string>, n: nat)
    requires n <= |ss| && Ascending(ss) && k + |ss| <= |p| && forall j :: 0 <= j < |ss| ==> p[k + j] == Text(ss[j])
    ensures if NamedSections(ss, n) then ReadSections(p, k, n) == Good(ss[..n]) else ReadSections(p, k, n).Bad?
  {
    if n > 0 {
      SectionsRead(p, k, ss, n - 1);
      assert p[k + (n - 1)] == Text(ss[n - 1]);
      PrefixInsert(ss, n);
      SectionStep(p, k, n, ss[n - 1], ReadSections(p, k, n - 1));
    }
  }

  lemma PrefixInsert(ss: seq<string>, n: nat)
    requires 0 < n <= |ss| && Ascending(ss)
    ensures InsertText(ss[..n - 1], ss[n - 1]) == ss[..n]
  {
    InsertTextLast(ss[..n - 1], ss[n - 1]);
    assert ss[..n] == ss[..n - 1] + [ss[n - 1]];
  }

  lemma SectionStep(p: seq<Item>, k: nat, n: nat, s: string, before: Result<seq<string>>)
    requires n > 0 && TextAt(p, k + n - 1) == s && before == ReadSections(p, k, n - 1)
    ensures before.Bad? || s == "" ==> ReadSections(p, k, n).Bad?
    ensures before.Good? && s != "" ==> ReadSections(p, k, n) == Good(InsertText(before.value, s))
  {
  }

  lemma {:induction false} MaxSectionBound(rs: seq<Record>, ss: seq<string>, i: nat)
    requires i <= |rs| && InSections(rs, ss) && |ss| > 0
    ensures MaxSection(rs, i) < |ss|
  {
    if i > 0 { MaxSectionBound(rs, ss, i - 1); }
  }

  /** What a vendor's descriptor looks like. */
  ghost predicate WellMade(d: Descriptor) {
    && AllProper(d) && Increasing(d.tags) && |d.tags| <= d.count < BOUNDARY
    && Ascending(d.sections) && |d.sections| <= d.count && (d.count > 0 ==> |d.sections| > 0 && |d.tags| > 0)
  }

  /** The descriptor as its parcel gives it back: the same but for the index, which is made by increasing
      tags. */
  lemma WrittenReads(d: Descriptor)
    requires WellMade(d)
    ensures InSections(Rows(d), d.sections)
    ensures FromParcel(Written(d)).Good?
            <==> d.count == |d.tags| && Named(Rows(d), |d.tags|)
                 && NamedSections(d.sections, if d.count > 0 then |d.sections| else 0)
    ensures FromParcel(Written(d)).Good? ==>
              FromParcel(Written(d)).value == Assembled(Rows(d), if d.count > 0 then d.sections else [])
  {
    SectionsOfRows(d);
    WrittenFront(d, TagItems(d, |d.tags|));
    FromParcelIs(Written(d), d.count, ReadRecords(Written(d), d.count));
    if d.count > 0 {
      if d.count > |d.tags| {
        CountTooLarge(d);
      } else {
        WrittenRecordsRead(d);
        RowsConsistent(d);
        if Named(Rows(d), d.count) {
          MaxSectionBound(Rows(d), d.sections, d.count);
          WrittenSections(d);
          ReadWhole(Written(d), Rows(d), d.sections, 4 * d.count + 2);
        }
      }
    }
  }

  lemma SectionsOfRows(d: Descriptor)
    requires AllProper(d)
    ensures InSections(Rows(d), d.sections)
  {
    forall i | 0 <= i < |d.tags| ensures Rows(d)[i].section < |d.sections| { assert Proper(Rows(d)[i], |d.sections|); }
  }

  /** A parcel whose records are read is read whole, if its sections have names. */
  lemma {:induction false} ReadWhole(p: seq<Item>, rs: seq<Record>, ss: seq<string>, k: nat)
    requires 0 < |rs| && Consistent(rs) && InSections(rs, ss) && MaxSection(rs, |rs|) < |ss| < WORD && k == 4 * |rs| + 2
    requires WordAt(p, k - 1) == Some(|ss|)
    requires Ascending(ss) && k + |ss| <= |p| && forall j :: 0 <= j < |ss| ==> p[k + j] == Text(ss[j])
    ensures NamedSections(ss, |ss|) ==> FromRecords(p, Good(rs)) == Good(Assembled(rs, ss))
    ensures !NamedSections(ss, |ss|) ==> FromRecords(p, Good(rs)) == Bad(NotEnoughData)
  {
    FinishSections(p, rs, ss, k);
  }

  lemma {:induction false} FromParcelIs(p: seq<Item>, count: nat, rs: Result<seq<Record>>)
    requires count < BOUNDARY && WordAt(p, 0) == Some(count) && rs == ReadRecords(p, count)
    ensures FromParcel(p) == FromRecords(p, rs)
  {
  }

  lemma {:induction false} FinishSections(p: seq<Item>, rs: seq<Record>, ss: seq<string>, k: nat)
    requires Consistent(rs) && InSections(rs, ss) && MaxSection(rs, |rs|) < |ss| < WORD && k == 4 * |rs| + 2
    requires Ascending(ss) && k + |ss| <= |p| && forall j :: 0 <= j < |ss| ==> p[k + j] == Text(ss[j])
    ensures FinishRead(p, rs, Some(|ss|)) ==
              if NamedSections(ss, |ss|) then Good(Assembled(rs, ss)) else Bad(NotEnoughData)
  {
    var read := ReadSections(p, k, |ss|);
    SectionsFrom(p, k, ss, read);
    FinishFrom(p, rs, ss, read);
  }

  lemma SectionsFrom(p: seq<Item>, k: nat, ss: seq<string>, read: Result<seq<string>>)
    requires Ascending(ss) && k + |ss| <= |p| && forall j :: 0 <= j < |ss| ==> p[k + j] == Text(ss[j])
    requires read == ReadSections(p, k, |ss|)
    ensures read == if NamedSections(ss, |ss|) then Good(ss) else Bad(NotEnoughData)
  {
    SectionsRead(p, k, ss, |ss|);
    assert ss[..|ss|] == ss;
    SectionErrors(p, k, |ss|);
  }

  lemma {:induction false} FinishFrom(p: seq<Item>, rs: seq<Record>, ss: seq<string>, read: Result<seq<string>>)
    requires read == ReadSections(p, 4 * |rs| + 2, |ss|) && Consistent(rs) && InSections(rs, ss)
             && MaxSection(rs, |rs|) < |ss| < WORD
    requires read == Good(ss) || read == Bad(NotEnoughData)
    ensures FinishRead(p, rs, Some(|ss|)) == if read.Good? then Good(Assembled(rs, ss)) else Bad(NotEnoughData)
  {
  }

  lemma {:induction false} SectionErrors(p: seq<Item>, k: nat, n: nat)
    ensures ReadSections(p, k, n).Bad? ==> ReadSections(p, k, n).error == NotEnoughData
  {
    if n > 0 { SectionErrors(p, k, n - 1); }
  }

  // The main results.

  lemma RecordsProper(ops: Ops)
    requires ValidTags(ops)
    ensures var rs, ss := RecordsOf(ops), SectionsOf(ops, |ops.tags|);
            forall i :: 0 <= i < |rs| ==>
              Proper(rs[i], |ss|) && rs[i].tag == ops.tags[i] && rs[i].name == ops.name(ops.tags[i]).value
              && ss[rs[i].section] == ops.section(ops.tags[i]).value
  {
    SectionsCollected(ops, |ops.tags|);
  }

  lemma BuiltIsWellMade(ops: Ops, rs: seq<Record>, ss: seq<string>, d: Descriptor)
    requires ValidTags(ops) && |ops.tags| < BOUNDARY
    requires rs == RecordsOf(ops) && ss == SectionsOf(ops, |ops.tags|) && d == Assembled(rs, ss)
    ensures WellMade(d)
  {
    RowsAre(rs, ss, d);
    RecordsProper(ops);
    KeysIncrease(rs, |rs|);
    SectionsCollected(ops, |ops.tags|);
    forall i | 0 <= i < |d.tags| ensures Proper(Rows(d)[i], |d.sections|) {
      assert Rows(d)[i] in rs;
    }
    if |rs| > 0 { KeysAre(rs, |rs|, rs[0].tag); }
  }

  /** No tag twice, and no tag or section without a name. */
  ghost predicate Portable(ops: Ops)
    requires ValidTags(ops)
  {
    && Distinct(ops.tags)
    && forall i :: 0 <= i < |ops.tags| ==> ops.name(ops.tags[i]).value != "" && ops.section(ops.tags[i]).value != ""
  }

  /** A vendor's descriptor can be read back from its parcel exactly when its tags are distinct and all names
      non-empty; then everything but the index is what it was, and the index is that of the tags in
      increasing order. */
  lemma ParcelRoundTrip(ops: Ops)
    requires 0 <= ops.count == |ops.tags| < BOUNDARY && ValidTags(ops)
    ensures FromOps(ops).Good? && Complete(FromOps(ops).value)
    ensures var d := FromOps(ops).value;
            && InSections(Rows(d), d.sections)
            && (FromParcel(Written(d)).Good? <==> Portable(ops))
            && (Portable(ops) ==> FromParcel(Written(d)).value == d.(reverse := Reverse(Rows(d), d.sections, |d.tags|)))
  {
    var rs, ss := RecordsOf(ops), SectionsOf(ops, |ops.tags|);
    var d := Assembled(rs, ss);
    RowsAre(rs, ss, d);
    BuiltIsWellMade(ops, rs, ss, d);
    WrittenReads(d);
    PortableIs(ops, rs, ss, d);
    if Portable(ops) { RowsAssemble(rs, ss, d); }
  }

  lemma PortableIs(ops: Ops, rs: seq<Record>, ss: seq<string>, d: Descriptor)
    requires ValidTags(ops) && rs == RecordsOf(ops) && ss == SectionsOf(ops, |ops.tags|) && d == Assembled(rs, ss)
             && Complete(d)
    ensures Portable(ops)
            <==> d.count == |d.tags| && Named(Rows(d), |d.tags|) && NamedSections(ss, if d.count > 0 then |ss| else 0)
  {
    RowsAre(rs, ss, d);
    NamesAre(rs, d);
    KeysCount(rs, |rs|);
    RecordsPortable(ops, rs);
    SectionNamesAre(ops, ss);
  }

  lemma RecordsPortable(ops: Ops, rs: seq<Record>)
    requires ValidTags(ops) && rs == RecordsOf(ops)
    ensures Distinct(ops.tags) <==> DistinctTags(rs, |rs|)
    ensures Named(rs, |rs|) <==> forall i :: 0 <= i < |ops.tags| ==> ops.name(ops.tags[i]).value != ""
  {
    RecordsProper(ops);
    assert forall i :: 0 <= i < |rs| ==> rs[i].tag == ops.tags[i] && rs[i].name == ops.name(ops.tags[i]).value;
  }

  lemma NamesAre(rs: seq<Record>, d: Descriptor)
    requires Complete(d) && (forall i :: 0 <= i < |Rows(d)| ==> Rows(d)[i] in rs)
             && (forall k :: 0 <= k < |rs| ==> rs[k] in Rows(d))
    ensures Named(Rows(d), |d.tags|) <==> Named(rs, |rs|)
  {
    if Named(Rows(d), |d.tags|) {
      forall k | 0 <= k < |rs| ensures rs[k].name != "" {
        var i :| 0 <= i < |Rows(d)| && Rows(d)[i] == rs[k];
      }
    }
    if Named(rs, |rs|) {
      forall i | 0 <= i < |Rows(d)| ensures Rows(d)[i].name != "" {
        var k :| 0 <= k < |rs| && rs[k] == Rows(d)[i];
      }
    }
  }

  lemma SectionNamesAre(ops: Ops, ss: seq<string>)
    requires ValidTags(ops) && ss == SectionsOf(ops, |ops.tags|)
    ensures NamedSections(ss, if |ops.tags| > 0 then |ss| else 0) <==>
              forall i :: 0 <= i < |ops.tags| ==> ops.section(ops.tags[i]).value != ""
  {
    SectionsAre(ops, |ops.tags|, "");
    SectionsCollected(ops, |ops.tags|);
  }

  lemma RowsAssemble(rs: seq<Record>, ss: seq<string>, d: Descriptor)
    requires Consistent(rs) && InSections(rs, ss) && d == Assembled(rs, ss) && Complete(d) && Increasing(d.tags)
    requires d.count == |d.tags| && InSections(Rows(d), ss)
    requires forall i :: 0 <= i < |Rows(d)| ==> Rows(d)[i] in rs
    requires forall k :: 0 <= k < |rs| ==> rs[k] in Rows(d)
    ensures Assembled(Rows(d), ss) == d.(reverse := Reverse(Rows(d), ss, |d.tags|))
  {
    RowsConsistent(d);
    KeysOfIncreasing(Rows(d), d.tags, |d.tags|);
    assert d.tags[..|d.tags|] == d.tags;
    SameTable(rs, Rows(d), NameOf);
    SameTable(rs, Rows(d), KindOf);
    SameTable(rs, Rows(d), SectionOf);
  }

  /** For every section and name, the last tag a vendor gives is the greatest. */
  ghost predicate LastIsGreatest(rs: seq<Record>, ss: seq<string>)
    requires InSections(rs, ss)
  {
    forall k, i :: (0 <= k < |rs| && 0 <= i < |rs| && SamePair(rs, ss, k, i)
                    && (forall j :: i < j < |rs| ==> !SamePair(rs, ss, j, i))) ==> rs[k].tag <= rs[i].tag
  }

  /** Among increasing tags the last one of a pair is the greatest of it. */
  lemma LastOfIncreasing(rows: seq<Record>, ss: seq<string>, a: nat)
    requires InSections(rows, ss) && a < |rows| && forall i, j :: 0 <= i < j < |rows| ==> rows[i].tag < rows[j].tag
    ensures var t := LastTag(rows, ss, |rows|, ss[rows[a].section], rows[a].name);
            t.Some? && rows[a].tag <= t.value
  {
    LastTagIs(rows, ss, |rows|, ss[rows[a].section], rows[a].name);
  }

  lemma {:induction false} LastTagAt(rs: seq<Record>, ss: seq<string>, i: nat, n: nat)
    requires i < n <= |rs| && InSections(rs, ss) && forall j :: i < j < n ==> !SamePair(rs, ss, j, i)
    ensures LastTag(rs, ss, n, ss[rs[i].section], rs[i].name) == Some(rs[i].tag)
  {
    if i < n - 1 {
      assert !SamePair(rs, ss, n - 1, i);
      LastTagAt(rs, ss, i, n - 1);
    }
  }

  /** The index read back is the original one exactly when, for every section and name, the last tag given is
      the greatest; so whenever no two tags share both. */
  lemma IndexSurvives(rs: seq<Record>, rows: seq<Record>, ss: seq<string>)
    requires InSections(rs, ss) && InSections(rows, ss)
    requires forall i, j :: 0 <= i < j < |rows| ==> rows[i].tag < rows[j].tag
    requires (forall i :: 0 <= i < |rows| ==> rows[i] in rs) && (forall k :: 0 <= k < |rs| ==> rs[k] in rows)
    ensures Reverse(rows, ss, |rows|) == Reverse(rs, ss, |rs|) <==> LastIsGreatest(rs, ss)
  {
    ReverseIs(rs, ss, |rs|);
    ReverseIs(rows, ss, |rows|);
    SameIndex(Reverse(rows, ss, |rows|), Reverse(rs, ss, |rs|));
    if LastIsGreatest(rs, ss) {
      forall s, n ensures LastTag(rows, ss, |rows|, s, n) == LastTag(rs, ss, |rs|, s, n) {
        GreatestAgrees(rs, rows, ss, s, n);
      }
    }
    if forall s, n :: LastTag(rows, ss, |rows|, s, n) == LastTag(rs, ss, |rs|, s, n) {
      forall k, i | 0 <= k < |rs| && 0 <= i < |rs| && SamePair(rs, ss, k, i)
                    && (forall j :: i < j < |rs| ==> !SamePair(rs, ss, j, i))
        ensures rs[k].tag <= rs[i].tag
      {
        LastTagAt(rs, ss, i, |rs|);
        var a :| 0 <= a < |rows| && rows[a] == rs[k];
        LastOfIncreasing(rows, ss, a);
      }
    }
  }

  lemma GreatestAgrees(rs: seq<Record>, rows: seq<Record>, ss: seq<string>, s: string, n: string)
    requires InSections(rs, ss) && InSections(rows, ss) && LastIsGreatest(rs, ss)
    requires forall i, j :: 0 <= i < j < |rows| ==> rows[i].tag < rows[j].tag
    requires (forall i :: 0 <= i < |rows| ==> rows[i] in rs) && (forall k :: 0 <= k < |rs| ==> rs[k] in rows)
    ensures LastTag(rows, ss, |rows|, s, n) == LastTag(rs, ss, |rs|, s, n)
  {
    SamePairs(rs, rows, ss, s, n);
    LastTagIs(rs, ss, |rs|, s, n);
    LastTagIs(rows, ss, |rows|, s, n);
    if HasPair(rs, ss, s, n) {
      var i := LastOf(rs, ss, s, n);
      var b := LastOf(rows, ss, s, n);
      var a :| 0 <= a < |rows| && rows[a] == rs[i];
      LastOfIncreasing(rows, ss, a);
      var k :| 0 <= k < |rs| && rs[k] == rows[b];
      assert SamePair(rs, ss, k, i);
    }
  }

  /** The last record of a pair. */
  lemma LastOf(rs: seq<Record>, ss: seq<string>, s: string, n: string) returns (i: nat)
    requires InSections(rs, ss) && HasPair(rs, ss, s, n)
    ensures i < |rs| && LastTag(rs, ss, |rs|, s, n) == Some(rs[i].tag) && ss[rs[i].section] == s && rs[i].name == n
    ensures forall j :: i < j < |rs| ==> !SamePair(rs, ss, j, i)
  {
    LastTagIs(rs, ss, |rs|, s, n);
    var t := LastTag(rs, ss, |rs|, s, n);
    i :| 0 <= i < |rs| && rs[i].tag == t.value && ss[rs[i].section] == s && rs[i].name == n
         && forall j :: i < j < |rs| ==> !(ss[rs[j].section] == s && rs[j].name == n);
  }

  ghost predicate HasPair(rs: seq<Record>, ss: seq<string>, s: string, n: string)
    requires InSections(rs, ss)
  {
    exists k :: 0 <= k < |rs| && ss[rs[k].section] == s && rs[k].name == n
  }

  lemma SamePairs(rs: seq<Record>, rows: seq<Record>, ss: seq<string>, s: string, n: string)
    requires InSections(rs, ss) && InSections(rows, ss)
    requires (forall i :: 0 <= i < |rows| ==> rows[i] in rs) && (forall k :: 0 <= k < |rs| ==> rs[k] in rows)
    ensures LastTag(rows, ss, |rows|, s, n).Some? <==> LastTag(rs, ss, |rs|, s, n).Some?
  {
    LastTagIs(rs, ss, |rs|, s, n);
    LastTagIs(rows, ss, |rows|, s, n);
    assert HasPair(rs, ss, s, n) ==> HasPair(rows, ss, s, n) by {
      if HasPair(rs, ss, s, n) {
        var k :| 0 <= k < |rs| && ss[rs[k].section] == s && rs[k].name == n;
        var b :| 0 <= b < |rows| && rows[b] == rs[k];
      }
    }
    assert HasPair(rows, ss, s, n) ==> HasPair(rs, ss, s, n) by {
      if HasPair(rows, ss, s, n) {
        var k :| 0 <= k < |rows| && ss[rows[k].section] == s && rows[k].name == n;
        var b :| 0 <= b < |rs| && rs[b] == rows[k];
      }
    }
  }

  /** A vendor's descriptor comes back from its parcel as it was, reverse maps included, exactly when the tags
      are distinct, all names non-empty, and for every section and name the last tag given is the greatest. */
  lemma DescriptorSurvivesIff(ops: Ops)
    requires 0 <= ops.count == |ops.tags| < BOUNDARY && ValidTags(ops)
    ensures FromOps(ops).Good? && Complete(FromOps(ops).value)
    ensures InSections(RecordsOf(ops), SectionsOf(ops, |ops.tags|))
    ensures FromParcel(Written(FromOps(ops).value)) == FromOps(ops)
       <==> Portable(ops) && LastIsGreatest(RecordsOf(ops), SectionsOf(ops, |ops.tags|))
  {
    ParcelRoundTrip(ops);
    var rs, ss := RecordsOf(ops), SectionsOf(ops, |ops.tags|);
    var d := Assembled(rs, ss);
    SectionsCollected(ops, |ops.tags|);
    RowsAre(rs, ss, d);
    IndexSurvives(rs, Rows(d), ss);
  }

  /** One section and one name for all tags. */
  function Plain(tags: seq<nat>): Ops {
    Ops(|tags|, tags, _ => Some("name"), _ => Some("section"), _ => 0)
  }

  lemma {:induction false} PlainIsValid(tags: seq<nat>, i: nat)
    requires i <= |tags| && forall k :: 0 <= k < |tags| ==> BOUNDARY <= tags[k] < WORD
    ensures ValidUpTo(Plain(tags), i)
  {
    if i > 0 { PlainIsValid(tags, i - 1); }
  }

  lemma RepeatedIsUnreadable(ops: Ops)
    requires 0 <= ops.count == |ops.tags| < BOUNDARY && ValidTags(ops) && !Distinct(ops.tags)
    ensures Complete(FromOps(ops).value) && FromParcel(Written(FromOps(ops).value)).Bad?
  {
    ParcelRoundTrip(ops);
  }

  /** The same tag twice: the parcel cannot be read. */
  lemma TagTwiceIsUnreadable()
    ensures var ops := Plain([BOUNDARY, BOUNDARY]);
            ValidTags(ops) && Complete(FromOps(ops).value) && FromParcel(Written(FromOps(ops).value)).Bad?
  {
    var tags := [BOUNDARY, BOUNDARY];
    PlainIsValid(tags, 2);
    assert tags[0] == tags[1];
    RepeatedIsUnreadable(Plain(tags));
  }

  /** Two tags of one name, the smaller given last: the descriptor comes back with the name meaning the other. */
  lemma NameChangesItsTag()
    ensures var ops := Plain([BOUNDARY + 1, BOUNDARY]);
            && ValidTags(ops) && Complete(FromOps(ops).value)
            && FromParcel(Written(FromOps(ops).value)) != FromOps(ops)
  {
    var ops := Plain([BOUNDARY + 1, BOUNDARY]);
    PlainIsValid(ops.tags, 2);
    DescriptorSurvivesIff(ops);
    RecordsProper(ops);
    var rs, ss := RecordsOf(ops), SectionsOf(ops, 2);
    assert SamePair(rs, ss, 0, 1) && rs[1].tag < rs[0].tag;
  }

  /** Every tag is found under its own section and name exactly when no two tags share both. */
  lemma EveryTagFoundIff(rs: seq<Record>, ss: seq<string>)
    requires Consistent(rs) && InSections(rs, ss)
    ensures (forall i :: 0 <= i < |rs| ==>
               FindTag(Assembled(rs, ss), rs[i].name, ss[rs[i].section]) == Some(rs[i].tag)) <==>
            (forall i, j :: 0 <= i < |rs| && 0 <= j < |rs| && SamePair(rs, ss, i, j) ==> rs[i].tag == rs[j].tag)
  {
    ReverseIs(rs, ss, |rs|);
    var m := Reverse(rs, ss, |rs|);
    forall i | 0 <= i < |rs|
      ensures FindTag(Assembled(rs, ss), rs[i].name, ss[rs[i].section])
              == LastTag(rs, ss, |rs|, ss[rs[i].section], rs[i].name)
    {
      assert Look(m, ss[rs[i].section], rs[i].name) == LastTag(rs, ss, |rs|, ss[rs[i].section], rs[i].name);
    }
    if forall i, j :: 0 <= i < |rs| && 0 <= j < |rs| && SamePair(rs, ss, i, j) ==> rs[i].tag == rs[j].tag {
      forall i | 0 <= i < |rs| ensures LastTag(rs, ss, |rs|, ss[rs[i].section], rs[i].name) == Some(rs[i].tag) {
        LastTagIs(rs, ss, |rs|, ss[rs[i].section], rs[i].name);
        var r := LastTag(rs, ss, |rs|, ss[rs[i].section], rs[i].name);
        var k :| 0 <= k < |rs| && rs[k].tag == r.value && ss[rs[k].section] == ss[rs[i].section]
            && rs[k].name == rs[i].name;
        assert SamePair(rs, ss, k, i);
      }
    }
  }

  /** A section and a name lead to the last tag given with them, and to none exactly when no tag has both. */
  lemma LookupIsLast(rs: seq<Record>, ss: seq<string>, section: string, name: string)
    requires Consistent(rs) && InSections(rs, ss)
    ensures var t := FindTag(Assembled(rs, ss), name, section);
            && (t.None? <==> !HasPair(rs, ss, section, name))
            && (t.Some? ==>
                  exists i :: 0 <= i < |rs| && rs[i].tag == t.value
                              && ss[rs[i].section] == section && rs[i].name == name
                              && forall j :: i < j < |rs| ==> !(ss[rs[j].section] == section && rs[j].name == name))
  {
    ReverseIs(rs, ss, |rs|);
    assert Look(Reverse(rs, ss, |rs|), section, name) == LastTag(rs, ss, |rs|, section, name);
    LastTagIs(rs, ss, |rs|, section, name);
  }

  /** A vendor's operations are refused exactly when the count is negative or some tag is below the vendor range, has
      no name or section, or is of no known type. */
  lemma OpsRefusedIff(ops: Ops)
    requires ops.count >= 0 ==> |ops.tags| == ops.count
    ensures FromOps(ops).Bad? <==>
              ops.count < 0 || exists i :: 0 <= i < |ops.tags| && Unfit(ops, ops.tags[i])
  {
    if FromOps(ops).Bad? && ops.count >= 0 {
      var i :| 0 <= i < |ops.tags| && !ValidTag(ops, ops.tags[i]);
      assert Unfit(ops, ops.tags[i]);
    }
  }

  predicate Unfit(ops: Ops, t: nat) {
    || t < 0x8000_0000 || t > 0xFFFF_FFFF || ops.name(t).None? || ops.section(t).None?
    || ops.kind(t) < 0 || ops.kind(t) > 5
  }

  /** A parcel is the count, four items a tag and, if there are any, the number of sections and each of them. */
  lemma WrittenLayout(d: Descriptor)
    requires Complete(d)
    ensures |Written(d)| == 1 + 4 * |d.tags| + (if d.sections == [] then 0 else 1 + |d.sections|)
    ensures Written(d)[0] == Word(d.count)
    ensures d.sections != [] ==> Written(d)[1 + 4 * |d.tags|] == Word(|d.sections|)
    ensures forall i :: 0 <= i < |d.sections| ==> Written(d)[2 + 4 * |d.tags| + i] == Text(d.sections[i])
  {
  }

  /** A tag of a parcel is refused exactly when it is not all there, is below the vendor range, is of no known type or
      has an empty name. */
  lemma RecordRefusedIff(p: seq<Item>, k: nat)
    ensures ReadRecord(p, k).Bad? <==>
              !(k + 3 < |p| && p[k].Word? && p[k + 1].Word? && p[k + 2].Text? && p[k + 3].Word?
                && p[k].bits >= 0x8000_0000 && p[k + 1].bits <= 5 && p[k + 2].text != "")
  {
  }

  /** Reading fails on a count that is negative as a 32-bit integer, and on fewer sections than the largest index. */
  lemma CountsRefused(p: seq<Item>, rs: seq<Record>, sections: nat)
    ensures |p| > 0 && p[0].Word? && p[0].bits >= 0x8000_0000 ==> FromParcel(p) == Bad(BadValue)
    ensures (exists k :: 0 <= k < |rs| && rs[k].section < 0xFFFF_FFFF && sections <= rs[k].section)
            && (forall k :: 0 <= k < |rs| ==> rs[k].section < 0xFFFF_FFFF) ==>
              FinishRead(p, rs, Some(sections)) == Bad(BadValue)
  {
    MaxSectionIs(rs, |rs|);
  }

  lemma {:induction false} MaxSectionIs(rs: seq<Record>, i: nat)
    requires i <= |rs|
    ensures forall k :: 0 <= k < i ==> rs[k].section <= MaxSection(rs, i)
    ensures MaxSection(rs, i) == 0 || exists k :: 0 <= k < i && rs[k].section == MaxSection(rs, i)
  {
    if i > 0 { MaxSectionIs(rs, i - 1); }
  }
}
