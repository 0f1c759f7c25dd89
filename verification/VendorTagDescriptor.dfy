/** The vendor tag descriptor as an object: its tables filled in loops, from a vendor's operations or from a
    parcel. */
module VendorTagDescriptor {
  import opened Basics
  import opened VendorTags

  // Tables depend on the records added so far only.

  lemma {:induction false} KeysPrefix(rs: seq<Record>, r: Record, i: nat)
    requires i <= |rs|
    ensures Keys(rs + [r], i) == Keys(rs, i)
  {
    if i > 0 { KeysPrefix(rs, r, i - 1); }
  }

  lemma {:induction false} TablePrefix<V>(rs: seq<Record>, r: Record, f: Record -> V, i: nat)
    requires i <= |rs|
    ensures Table(rs + [r], f, i) == Table(rs, f, i)
  {
    if i > 0 { TablePrefix(rs, r, f, i - 1); }
  }

  lemma {:induction false} KeysByTag(rs: seq<Record>, qs: seq<Record>, i: nat)
    requires i <= |rs| == |qs| && forall k :: 0 <= k < |rs| ==> rs[k].tag == qs[k].tag
    ensures Keys(rs, i) == Keys(qs, i)
  {
    if i > 0 { KeysByTag(rs, qs, i - 1); }
  }

  lemma {:induction false} TableByField<V>(rs: seq<Record>, qs: seq<Record>, f: Record -> V, i: nat)
    requires i <= |rs| == |qs| && forall k :: 0 <= k < |rs| ==> rs[k].tag == qs[k].tag && f(rs[k]) == f(qs[k])
    ensures Table(rs, f, i) == Table(qs, f, i)
  {
    if i > 0 { TableByField(rs, qs, f, i - 1); }
  }

  /** A valid tag before its section has an index. */
  function Draft(ops: Ops, t: nat): Record
    requires ValidTag(ops, t)
  {
    Record(t, ops.kind(t), ops.name(t).value, 0)
  }

  lemma {:induction false} BadStaysSame(p: seq<Item>, n: nat, m: nat)
    requires n <= m && ReadRecords(p, n).Bad?
    ensures ReadRecords(p, m) == ReadRecords(p, n)
  {
    if n < m { BadStaysSame(p, n, m - 1); }
  }

  /** What the loop over the tags of a parcel keeps beside the tables. */
  ghost predicate Gathered(allTags: seq<nat>, maxSection: nat, rs: seq<Record>) {
    && |allTags| == |rs| && maxSection == MaxSection(rs, |rs|)
    && forall k :: 0 <= k < |rs| ==> allTags[k] == rs[k].tag
  }

  lemma GatheredNext(allTags: seq<nat>, maxSection: nat, rs: seq<Record>, r: Record)
    requires Gathered(allTags, maxSection, rs)
    ensures Gathered(allTags + [r.tag], if maxSection >= r.section then maxSection else r.section, rs + [r])
  {
    MaxPrefix(rs, r, |rs|);
  }

  lemma {:induction false} MaxPrefix(rs: seq<Record>, r: Record, i: nat)
    requires i <= |rs|
    ensures MaxSection(rs + [r], i) == MaxSection(rs, i)
  {
    if i > 0 { MaxPrefix(rs, r, i - 1); }
  }

  /** The descriptor object. The three tables share their sorted keys. */
  class VendorTagDescriptor {
    var tagCount: nat
    var tags: seq<nat>
    var tagToName: map<nat, string>
    var tagToType: map<nat, nat>
    var tagToSection: map<nat, nat>
    var sections: seq<string>
    var reverseMapping: Index

    ghost function View(): Descriptor
      reads this
    {
      Descriptor(tagCount, tags, tagToName, tagToType, tagToSection, sections, reverseMapping)
    }

    constructor (count: nat)
      ensures View() == Descriptor(count, [], map[], map[], map[], [], map[])
    {
      tagCount, tags, tagToName, tagToType, tagToSection := count, [], map[], map[], map[];
      sections, reverseMapping := [], map[];
    }

    /** The names and types are those of the records. */
    ghost predicate Tables(rs: seq<Record>)
      reads this
    {
      tags == Keys(rs, |rs|) && tagToName == Table(rs, NameOf, |rs|) && tagToType == Table(rs, KindOf, |rs|)
    }

    method AddTag(r: Record, ghost rs: seq<Record>)
      requires Tables(rs)
      modifies `tags, `tagToName, `tagToType
      ensures Tables(rs + [r])
    {
      KeysPrefix(rs, r, |rs|);
      TablePrefix(rs, r, NameOf, |rs|);
      TablePrefix(rs, r, KindOf, |rs|);
      tags := Insert(tags, r.tag);
      tagToName := tagToName[r.tag := r.name];
      tagToType := tagToType[r.tag := r.kind];
    }

    /** One more entry of the way back, made from the tables. */
    method AddReverse(tag: nat, ghost rs: seq<Record>, ghost i: nat)
      requires i < |rs| && rs[i].tag == tag
      requires tag in tagToName && tag in tagToSection && tagToSection[tag] < |sections|
      requires tagToName[tag] == rs[i].name && tagToSection[tag] == rs[i].section
      requires InSections(rs, sections) && reverseMapping == Reverse(rs, sections, i)
      modifies `reverseMapping
      ensures reverseMapping == Reverse(rs, sections, i + 1)
    {
      var sectionString := sections[tagToSection[tag]];
      if sectionString !in reverseMapping {
        reverseMapping := reverseMapping[sectionString := map[]];
      }
      var nameMapper: map<string, nat> := reverseMapping[sectionString][tagToName[tag] := tag];
      reverseMapping := reverseMapping[sectionString := nameMapper];
    }

    /** One tag of a vendor: its name, type and section name, if all is in order. */
    method CollectTag(ops: Ops, i: nat, ghost drafts: seq<Record>) returns (ok: bool, ghost draft: Record)
      requires i < |ops.tags| && ValidUpTo(ops, i) && Tables(drafts) && sections == SectionsOf(ops, i)
      modifies `tags, `tagToName, `tagToType, `sections
      ensures ok <==> ValidTag(ops, ops.tags[i])
      ensures ok ==> draft == Draft(ops, ops.tags[i]) && Tables(drafts + [draft]) && sections == SectionsOf(ops, i + 1)
    {
      var tag := ops.tags[i];
      draft := Record(tag, 0, "", 0);
      if tag < BOUNDARY || tag >= WORD {
        return false, draft;
      }
      var name := ops.name(tag);
      if name.None? {
        return false, draft;
      }
      var section := ops.section(tag);
      if section.None? {
        return false, draft;
      }
      var kind := ops.kind(tag);
      if kind < 0 || kind >= NUM_TYPES {
        return false, draft;
      }
      sections := InsertText(sections, section.value);
      draft := Draft(ops, tag);
      AddTag(Record(tag, kind, name.value, 0), drafts);
      ok := true;
    }

    /** The first loop of createDescriptorFromOps. */
    method Collect(ops: Ops) returns (ok: bool, ghost drafts: seq<Record>)
      requires Tables([]) && sections == []
      modifies `tags, `tagToName, `tagToType, `sections
      ensures ok <==> ValidTags(ops)
      ensures ok ==> |drafts| == |ops.tags| && forall k :: 0 <= k < |drafts| ==> drafts[k] == Draft(ops, ops.tags[k])
      ensures ok ==> Tables(drafts) && sections == SectionsOf(ops, |ops.tags|)
    {
      drafts := [];
      for i := 0 to |ops.tags|
        invariant ValidUpTo(ops, i) && |drafts| == i && forall k :: 0 <= k < i ==> drafts[k] == Draft(ops, ops.tags[k])
        invariant Tables(drafts) && sections == SectionsOf(ops, i)
      {
        ghost var draft;
        ok, draft := CollectTag(ops, i, drafts);
        if !ok {
          return;
        }
        drafts := drafts + [draft];
      }
      ok := true;
    }

    /** The section index of a tag, and its entry in the way back. */
    method IndexTag(ops: Ops, i: nat, ghost rs: seq<Record>)
      requires ValidTags(ops) && i < |ops.tags| && rs == RecordsOf(ops) && sections == SectionsOf(ops, |ops.tags|)
      requires tagToName == Table(rs, NameOf, |rs|)
      requires tagToSection == Table(rs, SectionOf, i) && reverseMapping == Reverse(rs, sections, i)
      modifies `tagToSection, `reverseMapping
      ensures tagToSection == Table(rs, SectionOf, i + 1) && reverseMapping == Reverse(rs, sections, i + 1)
    {
      var tag := ops.tags[i];
      SectionsCollected(ops, |ops.tags|);
      var index := IndexOf(sections, ops.section(tag).value);
      assert rs[i] == RecordOf(ops, tag, sections);
      tagToSection := tagToSection[tag := index];
      TableAt(rs, NameOf, i);
      AddReverse(tag, rs, i);
    }

    /** The second loop of createDescriptorFromOps. */
    method IndexTags(ops: Ops, ghost rs: seq<Record>)
      requires ValidTags(ops) && rs == RecordsOf(ops) && sections == SectionsOf(ops, |ops.tags|)
      requires tagToName == Table(rs, NameOf, |rs|) && tagToSection == map[] && reverseMapping == map[]
      modifies `tagToSection, `reverseMapping
      ensures tagToSection == Table(rs, SectionOf, |rs|) && reverseMapping == Reverse(rs, sections, |rs|)
    {
      for i := 0 to |ops.tags|
        invariant tagToSection == Table(rs, SectionOf, i) && reverseMapping == Reverse(rs, sections, i)
      {
        IndexTag(ops, i, rs);
      }
    }

    /** The tables filled by the first loop are those of the records; the second does the rest. */
    method IndexDrafts(ops: Ops, ghost drafts: seq<Record>)
      requires ValidTags(ops) && tagCount == |ops.tags| == |drafts| && sections == SectionsOf(ops, |ops.tags|)
      requires Tables(drafts) && forall k :: 0 <= k < |drafts| ==> drafts[k] == Draft(ops, ops.tags[k])
      requires tagToSection == map[] && reverseMapping == map[]
      modifies `tagToSection, `reverseMapping
      ensures View() == Assembled(RecordsOf(ops), sections)
    {
      ghost var rs := RecordsOf(ops);
      DraftTables(ops, drafts, rs);
      IndexTags(ops, rs);
    }

    static method CreateDescriptorFromOps(ops: Ops) returns (descriptor: VendorTagDescriptor?)
      requires ops.count >= 0 ==> |ops.tags| == ops.count
      ensures descriptor == null ==> FromOps(ops) == Bad(BadValue)
      ensures descriptor != null ==> FromOps(ops) == Good(descriptor.View())
    {
      if ops.count < 0 {
        return null;
      }
      var desc := new VendorTagDescriptor(ops.count);
      var ok, drafts := desc.Collect(ops);
      if !ok {
        return null;
      }
      desc.IndexDrafts(ops, drafts);
      descriptor := desc;
    }

    method WriteToParcel() returns (parcel: seq<Item>)
      requires Complete(View())
      ensures parcel == Written(View())
    {
      ghost var d := View();
      parcel := [Word(tagCount)];
      for i := 0 to |tags|
        invariant parcel == [Word(tagCount)] + TagItems(d, i)
      {
        var tag := tags[i];
        var items := [Word(tag), Word(tagToType[tag]), Text(tagToName[tag]), Word(tagToSection[tag])];
        ConcatThree([Word(tagCount)], TagItems(d, i), items);
        parcel := parcel + items;
      }
      if |sections| > 0 {
        var rest := SectionsToItems();
        parcel := parcel + rest;
      }
    }

    method SectionsToItems() returns (items: seq<Item>)
      requires |sections| > 0
      ensures items == SectionItems(sections)
    {
      items := [Word(|sections|)];
      for i := 0 to |sections|
        invariant items == [Word(|sections|)] + Texts(sections)[..i]
      {
        assert Texts(sections)[..i + 1] == Texts(sections)[..i] + [Text(sections[i])];
        items := items + [Text(sections[i])];
      }
      assert Texts(sections)[..|sections|] == Texts(sections);
    }

    static method ReadOne(parcel: seq<Item>, k: nat) returns (r: Result<Record>)
      ensures r == ReadRecord(parcel, k)
    {
      var tag := WordAt(parcel, k);
      if tag.None? {
        return Bad(NotEnoughData);
      }
      if tag.value < BOUNDARY {
        return Bad(BadValue);
      }
      var kind := WordAt(parcel, k + 1);
      if kind.None? {
        return Bad(NotEnoughData);
      }
      if kind.value >= NUM_TYPES {
        return Bad(BadValue);
      }
      var name := TextAt(parcel, k + 2);
      if name == "" {
        return Bad(NotEnoughData);
      }
      var section := WordAt(parcel, k + 3);
      if section.None? {
        return Bad(NotEnoughData);
      }
      r := Good(Record(tag.value, kind.value, name, section.value));
    }

    /** One record of a parcel put into the tables. */
    method ReadTag(parcel: seq<Item>, i: nat, ghost rs: seq<Record>) returns (r: Result<Record>)
      requires Tables(rs) && tagToSection == Table(rs, SectionOf, |rs|) && ReadRecords(parcel, i) == Good(rs)
      modifies `tags, `tagToName, `tagToType, `tagToSection
      ensures r.Good? ==> ReadRecords(parcel, i + 1) == Good(rs + [r.value])
                          && Tables(rs + [r.value]) && tagToSection == Table(rs + [r.value], SectionOf, |rs| + 1)
      ensures r.Bad? ==> ReadRecords(parcel, i + 1) == Bad(r.error)
    {
      r := ReadOne(parcel, 4 * i + 1);
      RecordNext(parcel, i + 1, r);
      if r.Good? {
        AddTag(r.value, rs);
        TablePrefix(rs, r.value, SectionOf, |rs|);
        tagToSection := tagToSection[r.value.tag := r.value.section];
      }
    }

    /** The tags' part of createFromParcel. */
    method ReadTags(parcel: seq<Item>, count: nat)
      returns (error: Option<Error>, allTags: seq<nat>, maxSection: nat, ghost rs: seq<Record>)
      requires Tables([]) && tagToSection == map[]
      modifies `tags, `tagToName, `tagToType, `tagToSection
      ensures ReadRecords(parcel, count) == if error.Some? then Bad(error.value) else Good(rs)
      ensures error.None? ==> |allTags| == |rs| == count && forall k :: 0 <= k < count ==> allTags[k] == rs[k].tag
      ensures error.None? ==>
              maxSection == MaxSection(rs, |rs|) && Tables(rs) && tagToSection == Table(rs, SectionOf, |rs|)
    {
      rs, allTags, maxSection := [], [], 0;
      for i := 0 to count
        invariant ReadRecords(parcel, i) == Good(rs) && |rs| == i && Gathered(allTags, maxSection, rs)
        invariant Tables(rs) && tagToSection == Table(rs, SectionOf, |rs|)
      {
        var r := ReadTag(parcel, i, rs);
        if r.Bad? {
          BadStaysSame(parcel, i + 1, count);
          error := Some(r.error);
          return;
        }
        GatheredNext(allTags, maxSection, rs, r.value);
        maxSection := if maxSection >= r.value.section then maxSection else r.value.section;
        allTags := allTags + [r.value.tag];
        rs := rs + [r.value];
      }
      error := None;
    }

    method ReadSectionNames(parcel: seq<Item>, k: nat, n: nat) returns (ok: bool)
      requires sections == []
      modifies `sections
      ensures ReadSections(parcel, k, n) == if ok then Good(sections) else Bad(NotEnoughData)
    {
      for i := 0 to n
        invariant ReadSections(parcel, k, i) == Good(sections)
      {
        var name := TextAt(parcel, k + i);
        if name == "" {
          SectionFails(parcel, k, i + 1, n);
          return false;
        }
        sections := InsertText(sections, name);
      }
      ok := true;
    }

    /** The section part of createFromParcel, and the way back. */
    method FinishFromParcel(parcel: seq<Item>, allTags: seq<nat>, maxSection: nat, ghost rs: seq<Record>)
      returns (error: Option<Error>)
      requires Tables(rs) && tagToSection == Table(rs, SectionOf, |rs|) && tagCount == |rs| == |allTags|
      requires maxSection == MaxSection(rs, |rs|) && sections == [] && reverseMapping == map[]
      requires forall k :: 0 <= k < |rs| ==> allTags[k] == rs[k].tag
      modifies `sections, `reverseMapping
      ensures FinishRead(parcel, rs, WordAt(parcel, 4 * |rs| + 1)) ==
                if error.Some? then Bad(error.value) else Good(View())
    {
      var sectionCount := WordAt(parcel, 4 * |allTags| + 1);
      if sectionCount.None? {
        return Some(NotEnoughData);
      }
      if sectionCount.value < Incremented(maxSection) {
        return Some(BadValue);
      }
      var ok := ReadSectionNames(parcel, 4 * |allTags| + 2, sectionCount.value);
      if !ok {
        return Some(NotEnoughData);
      }
      error := MakeReverse(allTags, rs);
    }

    method MakeReverse(allTags: seq<nat>, ghost rs: seq<Record>) returns (error: Option<Error>)
      requires Tables(rs) && tagToSection == Table(rs, SectionOf, |rs|) && |rs| == |allTags| && reverseMapping == map[]
      requires forall k :: 0 <= k < |rs| ==> allTags[k] == rs[k].tag
      modifies `reverseMapping
      ensures InSections(Resolved(rs), sections) ==>
              error.None? && reverseMapping == Reverse(Resolved(rs), sections, |rs|)
      ensures !InSections(Resolved(rs), sections) ==> error == Some(BadValue)
    {
      ghost var qs := Resolved(rs);
      for i := 0 to |allTags|
        invariant reverseMapping == map[] && forall k :: 0 <= k < i ==> qs[k].section < |sections|
      {
        TableAt(rs, SectionOf, i);
        assert qs[i] == ResolvedAt(rs, i);
        if tagToSection[allTags[i]] >= |sections| {
          return Some(BadValue);
        }
      }
      assert InSections(qs, sections);
      for i := 0 to |allTags|
        invariant reverseMapping == Reverse(qs, sections, i)
      {
        TableAt(rs, SectionOf, i);
        TableAt(rs, NameOf, i);
        assert qs[i] == ResolvedAt(rs, i);
        AddReverse(allTags[i], qs, i);
      }
      error := None;
    }

    static method CreateFromParcel(parcel: seq<Item>) returns (error: Option<Error>, descriptor: VendorTagDescriptor?)
      ensures error.Some? ==> FromParcel(parcel) == Bad(error.value)
      ensures error.None? ==> descriptor != null && FromParcel(parcel) == Good(descriptor.View())
    {
      descriptor := null;
      var tagCount := WordAt(parcel, 0);
      if tagCount.None? {
        return Some(NotEnoughData), null;
      }
      if tagCount.value >= BOUNDARY {
        return Some(BadValue), null;
      }
      var desc := new VendorTagDescriptor(tagCount.value);
      var err, allTags, maxSection, rs := desc.ReadTags(parcel, tagCount.value);
      FromParcelIs(parcel, tagCount.value, ReadRecords(parcel, tagCount.value));
      if err.Some? {
        return err, null;
      }
      if tagCount.value > 0 {
        error := desc.FinishFromParcel(parcel, allTags, maxSection, rs);
      } else {
        error := None;
      }
      descriptor := desc;
    }

    method LookupTag(name: string, section: string) returns (tag: Option<nat>)
      ensures tag == FindTag(View(), name, section)
    {
      if section !in reverseMapping {
        return None;
      }
      if name !in reverseMapping[section] {
        return None;
      }
      tag := Some(reverseMapping[section][name]);
    }

    method GetTagName(tag: nat) returns (name: Option<string>)
      ensures name == if tag in tagToName then Some(tagToName[tag]) else None
    {
      name := if tag in tagToName then Some(tagToName[tag]) else None;
    }

    method GetSectionName(tag: nat) returns (section: Option<string>)
      requires forall t :: t in tagToSection ==> tagToSection[t] < |sections|
      ensures section == if tag in tagToSection then Some(sections[tagToSection[tag]]) else None
    {
      section := if tag in tagToSection then Some(sections[tagToSection[tag]]) else None;
    }
  }

  lemma RecordIsDraft(ops: Ops, k: nat)
    requires ValidTags(ops) && k < |ops.tags|
    ensures var r, d := RecordsOf(ops)[k], Draft(ops, ops.tags[k]);
            r.tag == d.tag && r.name == d.name && r.kind == d.kind
  {
    SectionsCollected(ops, |ops.tags|);
    assert RecordsOf(ops)[k] == RecordOf(ops, ops.tags[k], SectionsOf(ops, |ops.tags|));
  }

  lemma DraftTables(ops: Ops, drafts: seq<Record>, rs: seq<Record>)
    requires ValidTags(ops) && rs == RecordsOf(ops) && |drafts| == |rs|
    requires forall k :: 0 <= k < |drafts| ==> drafts[k] == Draft(ops, ops.tags[k])
    ensures Keys(drafts, |rs|) == Keys(rs, |rs|) && Table(drafts, NameOf, |rs|) == Table(rs, NameOf, |rs|)
    ensures Table(drafts, KindOf, |rs|) == Table(rs, KindOf, |rs|)
  {
    forall k | 0 <= k < |rs|
      ensures rs[k].tag == drafts[k].tag && rs[k].name == drafts[k].name && rs[k].kind == drafts[k].kind
    {
      RecordIsDraft(ops, k);
    }
    KeysByTag(drafts, rs, |rs|);
    TableByField(drafts, rs, NameOf, |rs|);
    TableByField(drafts, rs, KindOf, |rs|);
  }

  lemma RecordNext(p: seq<Item>, n: nat, r: Result<Record>)
    requires n > 0 && ReadRecords(p, n - 1).Good? && r == ReadRecord(p, 4 * (n - 1) + 1)
    ensures ReadRecords(p, n) == if r.Bad? then Bad(r.error) else Good(ReadRecords(p, n - 1).value + [r.value])
  {
    assert 4 * n - 3 == 4 * (n - 1) + 1;
  }

  lemma {:induction false} SectionFails(p: seq<Item>, k: nat, i: nat, n: nat)
    requires 0 < i <= n && ReadSections(p, k, i - 1).Good? && TextAt(p, k + i - 1) == ""
    ensures ReadSections(p, k, n) == Bad(NotEnoughData)
  {
    if i < n { SectionFails(p, k, i, n - 1); }
  }
}
