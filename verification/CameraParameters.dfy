/** Camera parameters: a sorted map of strings, its "key=value;key=value" form, and numbers and sizes as the
    values carry them. Strings are C strings: their text ends at the first zero character. */
module CameraParameters {
  import opened Basics
  import opened CameraNumbers
  import opened CameraText

  type Params = seq<(string, string)>

  ghost predicate Sorted(m: Params) {
    forall i, j :: 0 <= i < j < |m| ==> Less(m[i].0, m[j].0)
  }

  /** The map with the value put in the key's place. */
  function Add(m: Params, k: string, v: string): Params {
    if m == [] then [(k, v)]
    else if m[0].0 == k then [(k, v)] + m[1..]
    else if Less(k, m[0].0) then [(k, v)] + m
    else [m[0]] + Add(m[1..], k, v)
  }

  function Drop(m: Params, k: string): Params {
    if m == [] then [] else if m[0].0 == k then m[1..] else [m[0]] + Drop(m[1..], k)
  }

  /** The value of a key; the empty string if there is none. */
  function ValueFor(m: Params, k: string): string {
    if m == [] then "" else if m[0].0 == k then m[0].1 else ValueFor(m[1..], k)
  }

  lemma SortedCons(p: (string, string), m: Params)
    requires Sorted(m) && (m != [] ==> Less(p.0, m[0].0))
    ensures Sorted([p] + m)
  {
    forall j | 0 <= j < |m| ensures Less(p.0, m[j].0) {
      if j > 0 { LessTransitive(p.0, m[0].0, m[j].0); }
    }
  }

  lemma {:induction false} AddKeepsSorted(m: Params, k: string, v: string)
    requires Sorted(m)
    ensures Sorted(Add(m, k, v))
    ensures forall p :: p in Add(m, k, v) ==> p == (k, v) || p in m
    ensures ValueFor(Add(m, k, v), k) == v
  {
    if m != [] {
      if m[0].0 == k {
        assert Sorted(m[1..]);
        SortedCons((k, v), m[1..]);
      } else if Less(k, m[0].0) {
        SortedCons((k, v), m);
      } else {
        LessTotal(k, m[0].0);
        assert Sorted(m[1..]);
        AddKeepsSorted(m[1..], k, v);
        AddHead(m[1..], k, v);
        SortedCons(m[0], Add(m[1..], k, v));
      }
    }
  }

  lemma AddHead(m: Params, k: string, v: string)
    ensures Add(m, k, v) != [] && (Add(m, k, v)[0].0 == k || (m != [] && Add(m, k, v)[0].0 == m[0].0))
  {
  }

  /** The other keys keep their values. */
  lemma {:induction false} AddLeavesOthers(m: Params, k: string, v: string, other: string)
    requires other != k
    ensures ValueFor(Add(m, k, v), other) == ValueFor(m, other)
  {
    if m != [] && m[0].0 != k && !Less(k, m[0].0) { AddLeavesOthers(m[1..], k, v, other); }
  }

  lemma {:induction false} AddLast(m: Params, k: string, v: string)
    requires forall p :: p in m ==> Less(p.0, k)
    ensures Add(m, k, v) == m + [(k, v)]
  {
    if m != [] {
      assert m[0] in m;
      LessNotBack(m[0].0, k);
      AddLast(m[1..], k, v);
    }
  }

  lemma {:induction false} DropKeepsSorted(m: Params, k: string)
    requires Sorted(m)
    ensures Sorted(Drop(m, k)) && (forall p :: p in Drop(m, k) ==> p in m) && ValueFor(Drop(m, k), k) == ""
  {
    if m != [] {
      assert Sorted(m[1..]);
      if m[0].0 == k {
        NoValueAbove(m[1..], k);
      } else {
        DropKeepsSorted(m[1..], k);
        if Drop(m[1..], k) != [] { assert Drop(m[1..], k)[0] in m[1..]; }
        SortedCons(m[0], Drop(m[1..], k));
      }
    }
  }

  lemma {:induction false} DropLeavesOthers(m: Params, k: string, other: string)
    requires other != k
    ensures ValueFor(Drop(m, k), other) == ValueFor(m, other)
  {
    if m != [] && m[0].0 != k { DropLeavesOthers(m[1..], k, other); }
  }

  lemma {:induction false} NoValueAbove(m: Params, k: string)
    requires forall i :: 0 <= i < |m| ==> Less(k, m[i].0)
    ensures ValueFor(m, k) == ""
  {
    if m != [] {
      LessIrreflexive(k);
      forall i | 0 <= i < |m[1..]| ensures Less(k, m[1..][i].0) { assert m[1..][i] == m[i + 1]; }
      NoValueAbove(m[1..], k);
    }
  }

  function FlattenTo(m: Params, i: nat): string
    requires i <= |m|
  {
    if i == 0 then "" else FlattenTo(m, i - 1) + Item(m, i - 1)
  }

  /** One "key=value", with a semicolon unless it is the last. */
  function Item(m: Params, i: nat): string
    requires i < |m|
  {
    m[i].0 + "=" + m[i].1 + if i != |m| - 1 then ";" else ""
  }

  function Flattened(m: Params): string {
    FlattenTo(m, |m|)
  }

  lemma {:induction false} FlattenFront(m: Params, i: nat)
    requires i < |m|
    ensures FlattenTo(m, i + 1) == Item(m, 0) + FlattenTo(m[1..], i)
  {
    if i > 0 {
      FlattenFront(m, i - 1);
      assert Item(m, i) == Item(m[1..], i - 1);
    }
  }

  /** The flat form is "key=value" of each pair in order, with semicolons between. */
  lemma FlatIsJoined(m: Params)
    ensures Flattened(m)
            == if m == [] then "" else if |m| == 1 then m[0].0 + "=" + m[0].1
               else m[0].0 + "=" + m[0].1 + ";" + Flattened(m[1..])
  {
    if m != [] { FlattenFront(m, |m| - 1); }
  }

  /** The items read from position a on. */
  function Items(s: string, a: nat): seq<(string, string)>
    requires a <= |s|
    decreases |s| - a
  {
    var b := Find(s, a, '=');
    if b == |s| then []
    else
      var c := Find(s, b + 1, ';');
      [(s[a..b], s[b + 1..c])] + ItemsAfter(s, c)
  }

  /** What follows the semicolon at c, if there is one. */
  function ItemsAfter(s: string, c: nat): seq<(string, string)>
    requires c <= |s|
    decreases |s| - c
  {
    if c == |s| then [] else Items(s, c + 1)
  }

  function AddAll(m: Params, items: seq<(string, string)>): Params
    decreases |items|
  {
    if items == [] then m else AddAll(Add(m, items[0].0, items[0].1), items[1..])
  }

  function Unflattened(s: string): Params {
    AddAll([], Items(CText(s), 0))
  }

  /** What the flat form can carry: no '=' in a key, no ';' in a value, no zero character. */
  predicate CleanItem(p: (string, string)) {
    '=' !in p.0 && ';' !in p.1 && '\0' !in p.0 && '\0' !in p.1
  }

  ghost predicate Clean(m: Params) {
    forall p :: p in m ==> CleanItem(p)
  }

  lemma {:induction false} ItemsClean(s: string, a: nat)
    requires a <= |s| && '\0' !in s
    ensures Clean(Items(s, a))
    decreases |s| - a
  {
    var b := Find(s, a, '=');
    if b < |s| {
      var c := Find(s, b + 1, ';');
      var rest := ItemsAfter(s, c);
      FindStops(s, a, '=');
      FindStops(s, b + 1, ';');
      ReadItemClean(s, a, b, c);
      if c < |s| { ItemsClean(s, c + 1); }
      ItemSplit(s, a, b, c, (s[a..b], s[b + 1..c]), rest);
      ConsClean((s[a..b], s[b + 1..c]), rest);
    }
  }

  lemma ConsClean(p: (string, string), m: Params)
    requires CleanItem(p) && Clean(m)
    ensures Clean([p] + m)
  {
  }

  lemma ReadItemClean(s: string, a: nat, b: nat, c: nat)
    requires a <= b < c <= |s| && '\0' !in s
    requires (forall k :: a <= k < b ==> s[k] != '=') && (forall k :: b + 1 <= k < c ==> s[k] != ';')
    ensures CleanItem((s[a..b], s[b + 1..c]))
  {
  }

  lemma {:induction false} AddAllKeepsClean(m: Params, items: seq<(string, string)>)
    requires Sorted(m) && Clean(m) && Clean(items)
    ensures Sorted(AddAll(m, items)) && Clean(AddAll(m, items))
    decreases |items|
  {
    if items != [] {
      assert items[0] in items;
      AddKeepsClean(m, items[0].0, items[0].1);
      assert Clean(items[1..]) by { assert forall p :: p in items[1..] ==> p in items; }
      AddAllKeepsClean(Add(m, items[0].0, items[0].1), items[1..]);
    }
  }

  lemma AddKeepsClean(m: Params, k: string, v: string)
    requires Sorted(m) && Clean(m) && CleanItem((k, v))
    ensures Sorted(Add(m, k, v)) && Clean(Add(m, k, v))
  {
    AddKeepsSorted(m, k, v);
  }

  lemma UnflattenedIsClean(s: string)
    ensures Sorted(Unflattened(s)) && Clean(Unflattened(s))
  {
    CTextHasNoNul(s);
    ItemsClean(CText(s), 0);
    AddAllKeepsClean([], Items(CText(s), 0));
  }

  lemma {:induction false} FlattenToStands(m: Params, i: nat)
    requires i <= |m|
    ensures Stands(Flattened(m), 0, FlattenTo(m, i))
    decreases |m| - i
  {
    if i < |m| {
      FlattenToStands(m, i + 1);
      StandsInside(Flattened(m), 0, FlattenTo(m, i), Item(m, i));
    }
  }

  /** Item i stands where the flat form has it. */
  lemma ItemStands(m: Params, i: nat)
    requires i < |m|
    ensures Stands(Flattened(m), |FlattenTo(m, i)|, Item(m, i))
    ensures |FlattenTo(m, i + 1)| == |FlattenTo(m, i)| + |Item(m, i)|
  {
    FlattenToStands(m, i + 1);
    StandsInside(Flattened(m), 0, FlattenTo(m, i), Item(m, i));
  }

  /** Where the parts of an item stand. */
  lemma ItemParts(s: string, a: nat, k: string, v: string, e: string)
    requires Stands(s, a, k + "=" + v + e)
    ensures Stands(s, a, k) && Stands(s, a + |k|, "=") && Stands(s, a + |k| + 1, v) && Stands(s, a + |k| + 1 + |v|, e)
  {
    StandsInside(s, a, k + "=" + v, e);
    StandsInside(s, a, k + "=", v);
    StandsInside(s, a, k, "=");
  }

  lemma ItemFound(s: string, a: nat, k: string, v: string)
    requires CleanItem((k, v))
    requires Stands(s, a, k) && Stands(s, a + |k|, "=") && Stands(s, a + |k| + 1, v)
    requires a + |k| + 1 + |v| == |s| || s[a + |k| + 1 + |v|] == ';'
    ensures Find(s, a, '=') == a + |k| && Find(s, a + |k| + 1, ';') == a + |k| + 1 + |v|
  {
    var b := a + |k|;
    forall j | a <= j < b ensures s[j] != '=' { assert s[a + (j - a)] == k[j - a]; }
    assert s[b + 0] == "="[0];
    FindIs(s, a, b, '=');
    forall j | b + 1 <= j < b + 1 + |v| ensures s[j] != ';' { assert s[b + 1 + (j - b - 1)] == v[j - b - 1]; }
    FindIs(s, b + 1, b + 1 + |v|, ';');
  }

  /** Where the two searches stop, and what they cut out. */
  lemma ItemBounds(s: string, a: nat, p: (string, string), last: bool, b: nat, c: nat)
    requires CleanItem(p) && Stands(s, a, p.0 + "=" + p.1 + if last then "" else ";")
    requires b == a + |p.0| && c == b + 1 + |p.1| <= |s| && (last <==> c == |s|)
    ensures b == Find(s, a, '=') && c == Find(s, b + 1, ';') && s[a..b] == p.0 && s[b + 1..c] == p.1
  {
    ItemParts(s, a, p.0, p.1, if last then "" else ";");
    if !last { assert s[c + 0] == ";"[0]; }
    ItemFound(s, a, p.0, p.1);
    StandsSlice(s, a, p.0);
    StandsSlice(s, b + 1, p.1);
  }

  /** Reading one item. */
  lemma ItemReads(s: string, a: nat, e: nat, p: (string, string), last: bool, rest: seq<(string, string)>)
    requires CleanItem(p) && Stands(s, a, p.0 + "=" + p.1 + if last then "" else ";")
    requires if last then a + |p.0| + |p.1| + 1 == |s| else e == a + |p.0| + |p.1| + 2 <= |s|
    requires rest == if last then [] else Items(s, e)
    ensures Items(s, a) == [p] + rest
  {
    var b, c := a + |p.0|, a + |p.0| + 1 + |p.1|;
    ItemBounds(s, a, p, last, b, c);
    ItemSplit(s, a, b, c, p, rest);
  }

  lemma ItemSplit(s: string, a: nat, b: nat, c: nat, p: (string, string), rest: seq<(string, string)>)
    requires a <= b < |s| && b == Find(s, a, '=') && c == Find(s, b + 1, ';') && p == (s[a..b], s[b + 1..c])
    requires rest == ItemsAfter(s, c)
    ensures Items(s, a) == [p] + rest
  {
  }

  /** Item i of the flat form, and where the next one begins. */
  lemma FlatItem(m: Params, i: nat, s: string, a: nat, e: nat)
    requires i < |m| && Clean(m) && s == Flattened(m) && a == |FlattenTo(m, i)| && e == |FlattenTo(m, i + 1)|
    ensures CleanItem(m[i]) && a <= e <= |s|
    ensures Stands(s, a, m[i].0 + "=" + m[i].1 + if i == |m| - 1 then "" else ";")
    ensures if i == |m| - 1 then a + |m[i].0| + |m[i].1| + 1 == |s| else e == a + |m[i].0| + |m[i].1| + 2
  {
    ItemStands(m, i);
    FlattenToStands(m, i + 1);
    assert m[i] in m;
  }

  lemma {:induction false} FlatItems(m: Params, i: nat, s: string, a: nat)
    requires i < |m| && Clean(m) && s == Flattened(m) && a == |FlattenTo(m, i)| && a <= |s|
    ensures Items(s, a) == m[i..]
    decreases |m| - i
  {
    var e := |FlattenTo(m, i + 1)|;
    FlatItem(m, i, s, a, e);
    if i < |m| - 1 { FlatItems(m, i + 1, s, e); }
    FlatItemsFrom(s, a, e, m[i], i == |m| - 1, m[i + 1..], m[i..]);
  }

  lemma FlatItemsFrom(s: string, a: nat, e: nat, p: (string, string), last: bool, rest: seq<(string, string)>,
        all: seq<(string, string)>)
    requires CleanItem(p) && Stands(s, a, p.0 + "=" + p.1 + if last then "" else ";")
    requires if last then a + |p.0| + |p.1| + 1 == |s| else e == a + |p.0| + |p.1| + 2 <= |s|
    requires rest == (if last then [] else Items(s, e)) && |all| > 0 && all[0] == p && all[1..] == rest
    ensures Items(s, a) == all
  {
    ItemReads(s, a, e, p, last, rest);
    assert all == [p] + rest;
  }

  /** Adding a sorted map's items to the front part of it gives the map. */
  lemma {:induction false} AddAllSorted(m: Params, i: nat)
    requires i <= |m| && Sorted(m)
    ensures AddAll(m[..i], m[i..]) == m
    decreases |m| - i
  {
    if i == |m| {
      assert m[..i] == m;
    } else {
      PrefixBelow(m, i);
      assert m[i..][0] == m[i] && m[i..][1..] == m[i + 1..];
      AddAllSorted(m, i + 1);
    }
  }

  lemma PrefixBelow(m: Params, i: nat)
    requires i < |m| && Sorted(m)
    ensures Add(m[..i], m[i].0, m[i].1) == m[..i + 1]
  {
    AddLast(m[..i], m[i].0, m[i].1);
    assert m[..i + 1] == m[..i] + [m[i]];
  }

  lemma {:induction false} FlattenHasNoNul(m: Params, i: nat)
    requires Clean(m) && i <= |m|
    ensures '\0' !in FlattenTo(m, i)
  {
    if i > 0 {
      FlattenHasNoNul(m, i - 1);
      assert m[i - 1] in m;
      assert '\0' !in Item(m, i - 1);
    }
  }

  /** A sorted map comes back from its flat form exactly when no key has a '=', no value a ';', and neither
      a zero character. */
  lemma FlatFormRoundTrip(m: Params)
    requires Sorted(m)
    ensures Unflattened(Flattened(m)) == m <==> Clean(m)
  {
    UnflattenedIsClean(Flattened(m));
    if Clean(m) { CleanMapReturns(m, Flattened(m)); }
  }

  lemma CleanMapReturns(m: Params, s: string)
    requires Sorted(m) && Clean(m) && s == Flattened(m)
    ensures Unflattened(s) == m
  {
    FlattenHasNoNul(m, |m|);
    FindIs(s, 0, |s|, '\0');
    assert CText(s) == s;
    if m != [] {
      FlatItems(m, 0, s, 0);
      assert m[..0] == [];
      AddAllSorted(m, 0);
    }
  }

  datatype Event = Set(key: string, value: string) | Remove(key: string) | Unflatten(text: string)

  predicate Settable(s: string) {
    '=' !in s && ';' !in s
  }

  function Next(m: Params, e: Event): Params {
    match e
    case Set(k, v) => if Settable(CText(k)) && Settable(CText(v)) then Add(m, CText(k), CText(v)) else m
    case Remove(k) => Drop(m, CText(k))
    case Unflatten(s) => Unflattened(s)
  }

  function Run(m: Params, es: seq<Event>): Params
    decreases |es|
  {
    if es == [] then m else Run(Next(m, es[0]), es[1..])
  }

  lemma NextKeepsClean(m: Params, e: Event)
    requires Sorted(m) && Clean(m)
    ensures Sorted(Next(m, e)) && Clean(Next(m, e))
  {
    match e
    case Set(k, v) =>
      CTextHasNoNul(k);
      CTextHasNoNul(v);
      AddKeepsSorted(m, CText(k), CText(v));
    case Remove(k) => DropKeepsSorted(m, CText(k));
    case Unflatten(s) => UnflattenedIsClean(s);
  }

  lemma {:induction false} RunKeepsClean(m: Params, es: seq<Event>)
    requires Sorted(m) && Clean(m)
    ensures Sorted(Run(m, es)) && Clean(Run(m, es))
    decreases |es|
  {
    if es != [] {
      NextKeepsClean(m, es[0]);
      RunKeepsClean(Next(m, es[0]), es[1..]);
    }
  }

  /** Whatever has been set, removed and read in before, the parameters survive being flattened. */
  lemma EveryMapSurvives(es: seq<Event>)
    ensures var m := Run([], es); Unflattened(Flattened(m)) == m
  {
    RunKeepsClean([], es);
    FlatFormRoundTrip(Run([], es));
  }

  /** A set is got under its own key, unless key or value is refused, and leaves every other key's value. */
  lemma SetGetsOneKey(m: Params, k: string, v: string, key: string)
    requires Sorted(m)
    ensures ValueFor(Next(m, Set(k, v)), key)
            == if key == CText(k) && Settable(CText(k)) && Settable(CText(v)) then CText(v) else ValueFor(m, key)
  {
    if key == CText(k) {
      AddKeepsSorted(m, CText(k), CText(v));
    } else {
      AddLeavesOthers(m, CText(k), CText(v), key);
    }
  }

  /** A removed key has no value, and every other key keeps its own. */
  lemma RemoveDropsOneKey(m: Params, k: string, key: string)
    requires Sorted(m)
    ensures ValueFor(Next(m, Remove(k)), key) == if key == CText(k) then "" else ValueFor(m, key)
  {
    if key == CText(k) {
      DropKeepsSorted(m, CText(k));
    } else {
      DropLeavesOthers(m, CText(k), key);
    }
  }

  /** getInt and the size getters; a missing value and an empty one are the same. */
  function IntOf(m: Params, key: string): int {
    var v := ValueFor(m, key);
    if v == "" then -1 else ToInt(StrTol(v, 0, 0).0)
  }

  function SizeOf(m: Params, key: string): (int, int) {
    var v := ValueFor(m, key);
    if v == "" then (-1, -1)
    else match ParsePair(v, 0, 'x')
         case None => (-1, -1)
         case Some((w, h, _)) => (w, h)
  }

  /** Without a value an integer is -1 and a size -1 by -1; so is a size that is no pair. */
  lemma MissingIsMinusOne(m: Params, key: string)
    requires ValueFor(m, key) == "" || ParsePair(ValueFor(m, key), 0, 'x').None?
    ensures ValueFor(m, key) == "" ==> IntOf(m, key) == -1
    ensures SizeOf(m, key) == (-1, -1)
  {
  }

  /** Text made of digits, '-' and 'x' only. */
  predicate Plain(s: string) {
    forall c :: c in s ==> DigitOf(c) < 10 || c == '-' || c == 'x'
  }

  lemma PrintedIsPlain(n: int)
    ensures Plain(Printed(n)) && Printed(n) != ""
  {
    DecIsDigits(if n < 0 then 0 - n else n);
  }

  lemma PairIsPlain(w: int, h: int)
    ensures Plain(PairText(w, h, 'x')) && PairText(w, h, 'x') != ""
  {
    PrintedIsPlain(w);
    PrintedIsPlain(h);
  }

  lemma PlainIsSettable(s: string)
    requires Plain(s)
    ensures CText(s) == s && Settable(s)
  {
    forall k | 0 <= k < |s| ensures s[k] != '\0' { assert s[k] in s; }
    FindIs(s, 0, |s|, '\0');
  }

  lemma SettableIsGot(m: Params, key: string, t: string)
    requires Sorted(m) && CText(t) == t && Settable(t) && Settable(CText(key))
    ensures ValueFor(Next(m, Set(key, t)), CText(key)) == t
  {
    SetGetsOneKey(m, key, t, CText(key));
  }

  /** An integer that was set is the integer got, for every 32-bit integer. */
  lemma IntSetIsGot(m: Params, key: string, n: int)
    requires Sorted(m) && IsInt(n) && Settable(CText(key))
    ensures IntOf(Next(m, Set(key, Printed(n))), CText(key)) == n
  {
    PrintedIsPlain(n);
    PlainIsSettable(Printed(n));
    SettableIsGot(m, key, Printed(n));
    IntOfText(Next(m, Set(key, Printed(n))), CText(key), Printed(n), n);
  }

  lemma IntOfText(m: Params, key: string, t: string, n: int)
    requires IsInt(n) && t == Printed(n) && t != "" && ValueFor(m, key) == t
    ensures IntOf(m, key) == n
  {
    IntReads(n);
  }

  /** A size that was set is the size got, for all 32-bit integers. */
  lemma SizeSetIsGot(m: Params, key: string, w: int, h: int)
    requires Sorted(m) && IsInt(w) && IsInt(h) && Settable(CText(key))
    ensures SizeOf(Next(m, Set(key, PairText(w, h, 'x'))), CText(key)) == (w, h)
  {
    var t := PairText(w, h, 'x');
    PairIsPlain(w, h);
    PlainIsSettable(t);
    SettableIsGot(m, key, t);
    SizeReadsAs((w, h));
    assert Stands(t, 0, t) && Ends(t, 0 + |t|);
  }

  class ParameterMap {
    var entries: Params

    constructor ()
      ensures entries == []
    {
      entries := [];
    }

    method Flatten() returns (flattened: string)
      ensures flattened == Flattened(entries)
    {
      flattened := "";
      for i := 0 to |entries|
        invariant flattened == FlattenTo(entries, i)
      {
        ghost var before := flattened;
        var (k, v) := entries[i];
        flattened := flattened + k;
        flattened := flattened + "=";
        flattened := flattened + v;
        if i != |entries| - 1 {
          flattened := flattened + ";";
        }
        assert flattened == before + Item(entries, i);
      }
    }

    method Unflatten(params: string)
      modifies this
      ensures entries == Unflattened(params)
    {
      var s := CText(params);
      entries := [];
      ghost var goal := Unflattened(params);
      var a := 0;
      while true
        invariant a <= |s| && AddAll(entries, Items(s, a)) == goal
        decreases |s| - a
      {
        var b := Find(s, a, '=');
        if b == |s| {
          break;
        }
        var k := s[a..b];
        var c := Find(s, b + 1, ';');
        var v := s[b + 1..c];
        ItemSplit(s, a, b, c, (k, v), ItemsAfter(s, c));
        AddFirst(entries, (k, v), ItemsAfter(s, c));
        entries := Add(entries, k, v);
        if c == |s| {
          break;
        }
        a := c + 1;
      }
    }

    method Set(key: string, value: string)
      modifies this
      ensures entries == Next(old(entries), Event.Set(key, value))
    {
      var k, v := CText(key), CText(value);
      if Find(k, 0, '=') < |k| || Find(k, 0, ';') < |k| {
        FoundIn(k);
        return;
      }
      if Find(v, 0, '=') < |v| || Find(v, 0, ';') < |v| {
        FoundIn(v);
        return;
      }
      FoundIn(k);
      FoundIn(v);
      entries := Add(entries, k, v);
    }

    method SetInt(key: string, value: int)
      modifies this
      ensures entries == Next(old(entries), Event.Set(key, Printed(value)))
    {
      Set(key, Printed(value));
    }

    method SetSize(key: string, width: int, height: int)
      modifies this
      ensures entries == Next(old(entries), Event.Set(key, PairText(width, height, 'x')))
    {
      Set(key, PairText(width, height, 'x'));
    }

    method Remove(key: string)
      modifies this
      ensures entries == Next(old(entries), Event.Remove(key))
    {
      entries := Drop(entries, CText(key));
    }

    method Get(key: string) returns (value: Option<string>)
      ensures value == if ValueFor(entries, CText(key)) == "" then None else Some(ValueFor(entries, CText(key)))
    {
      var v := ValueFor(entries, CText(key));
      value := if |v| == 0 then None else Some(v);
    }

    method GetInt(key: string) returns (n: int)
      ensures n == IntOf(entries, CText(key))
    {
      var v := Get(key);
      n := if v.None? then -1 else ToInt(StrTol(v.value, 0, 0).0);
    }

    method GetSize(key: string) returns (width: int, height: int)
      ensures (width, height) == SizeOf(entries, CText(key))
    {
      width, height := -1, -1;
      var p := Get(key);
      if p.None? {
        return;
      }
      var pair := ParsePair(p.value, 0, 'x');
      if pair.Some? {
        width, height := pair.value.0, pair.value.1;
      }
    }

    method GetSupportedSizes(key: string) returns (sizes: seq<(int, int)>)
      ensures sizes == ParseSizes(ValueFor(entries, CText(key)), 0)
    {
      var p := Get(key);
      sizes := [];
      if p.Some? {
        sizes := ParseSizesList(p.value);
      }
    }

    /** One size of a list: what it adds to the sizes, and where the next one begins, if the list goes on. */
    static method ParseOneSize(s: string, a: nat) returns (sizes: seq<(int, int)>, next: Option<nat>)
      requires a <= |s|
      ensures next.Some? ==> a < next.value <= |s| && ParseSizes(s, a) == sizes + ParseSizes(s, next.value)
      ensures next.None? ==> ParseSizes(s, a) == sizes
    {
      var pair := ParsePair(s, a, 'x');
      if pair.None? {
        return [], None;
      }
      var (w, h, e) := pair.value;
      if e < |s| && s[e] != ',' {
        return [], None;
      }
      return [(w, h)], if e == |s| then None else Some(e + 1);
    }

    static method ParseSizesList(s: string) returns (sizes: seq<(int, int)>)
      ensures sizes == ParseSizes(s, 0)
    {
      sizes := [];
      var next := Some(0);
      ghost var goal := ParseSizes(s, 0);
      while next.Some?
        invariant next.Some? ==> 0 <= next.value <= |s| && sizes + ParseSizes(s, next.value) == goal
        invariant next.None? ==> sizes == goal
        decreases if next.Some? then |s| - next.value + 1 else 0
      {
        var one, after := ParseOneSize(s, next.value);
        if after.Some? { ConcatThree(sizes, one, ParseSizes(s, after.value)); }
        sizes := sizes + one;
        next := after;
      }
    }
  }

  lemma AddFirst(m: Params, p: (string, string), rest: seq<(string, string)>)
    ensures AddAll(m, [p] + rest) == AddAll(Add(m, p.0, p.1), rest)
  {
    assert ([p] + rest)[1..] == rest;
  }

  lemma FoundIn(s: string)
    ensures Settable(s) <==> Find(s, 0, '=') == |s| && Find(s, 0, ';') == |s|
  {
    FindStops(s, 0, '=');
    FindStops(s, 0, ';');
  }
}
