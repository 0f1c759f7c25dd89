/** The service manager: a list of named services whose entries are never removed, the references it holds
    on their handles, and the requests that reach it as binder messages. */
module ServiceRegistry {
  import opened Basics
  import opened LittleEndian
  import opened BinderIo

  const AID_APP := 10000
  const AID_USER := 100000
  const AID_ISOLATED_START := 99000
  const AID_ISOLATED_END := 99999
  const MAX_NAME := 127

  type Name = seq<Unit>

  /** A handle of 0 marks a service that has died. */
  datatype Entry = Entry(name: Name, handle: nat, isolated: bool)

  datatype Command = Acquire(handle: nat) | Release(handle: nat) | Watch(handle: nat, cookie: nat)

  /** The entries, oldest first (the list itself has its newest at the head), and the commands sent to the
      driver. An entry's index is the cookie of its death notifications. */
  datatype Registry = Registry(entries: seq<Entry>, log: seq<Command>)

  /** find_svc among the k oldest entries, from the newest of them on. */
  function Search(es: seq<Entry>, k: nat, name: Name): (r: Option<nat>)
    requires k <= |es|
    ensures r.Some? ==> r.value < k && es[r.value].name == name
    ensures r.None? ==> forall i :: 0 <= i < k ==> es[i].name != name
  {
    if k == 0 then None else if es[k - 1].name == name then Some(k - 1) else Search(es, k - 1, name)
  }

  function Found(r: Registry, name: Name): (f: Option<nat>)
    ensures f.Some? ==> f.value < |r.entries| && r.entries[f.value].name == name
    ensures f.None? ==> forall i :: 0 <= i < |r.entries| ==> r.entries[i].name != name
  {
    Search(r.entries, |r.entries|, name)
  }

  /** svcinfo_death. */
  function Died(r: Registry, i: nat): (d: Registry)
    requires i < |r.entries|
    ensures |d.entries| == |r.entries|
  {
    var e := r.entries[i];
    if e.handle == 0 then r
    else Registry(r.entries[i := e.(handle := 0)], r.log + [Release(e.handle)])
  }

  predicate MayRegister(uid: nat, permitted: bool) {
    uid % AID_USER < AID_APP && permitted
  }

  /** do_add_service; `permitted` is the security policy's answer, `memory` whether an entry can be allocated. */
  function Added(r: Registry, name: Name, handle: nat, uid: nat, isolated: bool, permitted: bool,
        memory: bool): (Registry, int)
  {
    if handle == 0 || |name| == 0 || |name| > MAX_NAME || !MayRegister(uid, permitted) then (r, -1)
    else Placed(r, name, handle, isolated, memory)
  }

  function Placed(r: Registry, name: Name, handle: nat, isolated: bool, memory: bool): (Registry, int) {
    match Found(r, name)
    case Some(i) => (Overridden(r, i, handle), 0)
    case None => if memory then (Appended(r, Entry(name, handle, isolated)), 0) else (r, -1)
  }

  /** An entry given another handle; it goes on allowing isolated callers or not as it always did. */
  function Overridden(r: Registry, i: nat, handle: nat): Registry
    requires i < |r.entries|
  {
    var d := Died(r, i);
    Registry(d.entries[i := d.entries[i].(handle := handle)], d.log + [Acquire(handle), Watch(handle, i)])
  }

  function Appended(r: Registry, e: Entry): Registry {
    Registry(r.entries + [e], r.log + [Acquire(e.handle), Watch(e.handle, |r.entries|)])
  }

  predicate IsolatedUid(uid: nat) {
    AID_ISOLATED_START <= uid % AID_USER <= AID_ISOLATED_END
  }

  /** do_find_service. */
  function Answer(r: Registry, name: Name, uid: nat, permitted: bool): nat {
    match Found(r, name)
    case None => 0
    case Some(i) =>
      var e := r.entries[i];
      if (!e.isolated && IsolatedUid(uid)) || !permitted then 0 else e.handle
  }

  /** A death notification carries the cookie it was asked for with; `handle` is the handle that died. */
  datatype Event =
    | Add(name: Name, handle: nat, uid: nat, isolated: bool, permitted: bool, memory: bool)
    | Death(cookie: nat, handle: nat)

  function Next(r: Registry, e: Event): Registry {
    match e
    case Add(n, h, u, i, p, m) => Added(r, n, h, u, i, p, m).0
    case Death(c, _) => if c < |r.entries| then Died(r, c) else r
  }

  function Run(r: Registry, es: seq<Event>): Registry
    decreases |es|
  {
    if es == [] then r else Run(Next(r, es[0]), es[1..])
  }

  const EMPTY: Registry := Registry([], [])

  /** References taken on a handle, less those given back. */
  function Held(log: seq<Command>, handle: nat): int {
    if log == [] then 0
    else
      var c := log[|log| - 1];
      Held(log[..|log| - 1], handle)
      + if c.Acquire? && c.handle == handle then 1 else if c.Release? && c.handle == handle then -1 else 0
  }

  function Holders(es: seq<Entry>, handle: nat): nat {
    if es == [] then 0 else Holders(es[..|es| - 1], handle) + if es[|es| - 1].handle == handle then 1 else 0
  }

  ghost predicate Inv(r: Registry) {
    && (forall i, j :: 0 <= i < j < |r.entries| ==> r.entries[i].name != r.entries[j].name)
    && (forall h :: h != 0 ==> Held(r.log, h) == Holders(r.entries, h))
  }

  lemma HeldAppend(log: seq<Command>, c: Command, h: nat)
    ensures Held(log + [c], h) ==
              Held(log, h) + if c.Acquire? && c.handle == h then 1 else if c.Release? && c.handle == h then -1 else 0
  {
    assert (log + [c])[..|log|] == log;
  }

  lemma HeldAppendTwo(log: seq<Command>, h: nat, cookie: nat, k: nat)
    ensures Held(log + [Acquire(h), Watch(h, cookie)], k) == Held(log, k) + if h == k then 1 else 0
  {
    assert log + [Acquire(h), Watch(h, cookie)] == (log + [Acquire(h)]) + [Watch(h, cookie)];
    HeldAppend(log, Acquire(h), k);
    HeldAppend(log + [Acquire(h)], Watch(h, cookie), k);
  }

  lemma HoldersAppend(es: seq<Entry>, e: Entry, h: nat)
    ensures Holders(es + [e], h) == Holders(es, h) + if e.handle == h then 1 else 0
  {
    assert (es + [e])[..|es|] == es;
  }

  lemma {:induction false} HoldersUpdate(es: seq<Entry>, i: nat, e: Entry, h: nat)
    requires i < |es|
    ensures Holders(es[i := e], h) ==
              Holders(es, h) - (if es[i].handle == h then 1 else 0) + if e.handle == h then 1 else 0
  {
    var n := |es| - 1;
    if i == n {
      assert es[i := e][..n] == es[..n];
    } else {
      assert es[i := e][..n] == es[..n][i := e];
      HoldersUpdate(es[..n], i, e, h);
    }
  }

  lemma DeathKeepsInv(r: Registry, i: nat)
    requires Inv(r) && i < |r.entries|
    ensures Inv(Died(r, i))
  {
    var e := r.entries[i];
    if e.handle != 0 {
      forall h | h != 0 ensures Held(Died(r, i).log, h) == Holders(Died(r, i).entries, h) {
        HeldAppend(r.log, Release(e.handle), h);
        HoldersUpdate(r.entries, i, e.(handle := 0), h);
      }
    }
  }

  lemma OverrideKeepsInv(r: Registry, i: nat, handle: nat)
    requires Inv(r) && i < |r.entries| && handle != 0
    ensures Inv(Overridden(r, i, handle))
  {
    var d := Died(r, i);
    DeathKeepsInv(r, i);
    forall h | h != 0 ensures Held(Overridden(r, i, handle).log, h) == Holders(Overridden(r, i, handle).entries, h) {
      HeldAppendTwo(d.log, handle, i, h);
      HoldersUpdate(d.entries, i, d.entries[i].(handle := handle), h);
    }
  }

  lemma AppendKeepsInv(r: Registry, e: Entry)
    requires Inv(r) && e.handle != 0 && Found(r, e.name).None?
    ensures Inv(Appended(r, e))
  {
    forall h | h != 0 ensures Held(Appended(r, e).log, h) == Holders(Appended(r, e).entries, h) {
      HeldAppendTwo(r.log, e.handle, |r.entries|, h);
      HoldersAppend(r.entries, e, h);
    }
  }

  lemma NextKeepsInv(r: Registry, e: Event)
    requires Inv(r)
    ensures Inv(Next(r, e))
  {
    match e
    case Add(n, h, u, i, p, m) =>
      if h != 0 {
        match Found(r, n)
        case Some(k) => OverrideKeepsInv(r, k, h);
        case None => AppendKeepsInv(r, Entry(n, h, i));
      }
    case Death(c, _) => if c < |r.entries| { DeathKeepsInv(r, c); }
  }

  /** In every run names stay distinct, and the references held on a handle are as many as the entries that
      now hold it, stale death notifications included. */
  lemma {:induction false} RunKeepsInv(r: Registry, es: seq<Event>)
    requires Inv(r)
    ensures Inv(Run(r, es))
    decreases |es|
  {
    if es != [] {
      NextKeepsInv(r, es[0]);
      RunKeepsInv(Next(r, es[0]), es[1..]);
    }
  }

  lemma ReferencesBalance(es: seq<Event>, h: nat)
    requires h != 0
    ensures var r := Run(EMPTY, es);
            && Held(r.log, h) == Holders(r.entries, h)
            && (forall i, j :: 0 <= i < j < |r.entries| ==> r.entries[i].name != r.entries[j].name)
  {
    assert Inv(EMPTY) by {
      forall k | k != 0 ensures Held(EMPTY.log, k) == Holders(EMPTY.entries, k) { }
    }
    RunKeepsInv(EMPTY, es);
  }

  /** What the registry is to be: for each name, the handle last registered, 0 once that handle has died; and
      the names in the order of their first registration, which the death notifications go by. */
  datatype Listing = Listing(handle: nat, isolated: bool)

  datatype Directory = Directory(listings: map<Name, Listing>, names: seq<Name>)

  const NOBODY: Directory := Directory(map[], [])

  /** A registration counts if it has a handle and a name of 1 to 127 units, comes from the system and not
      from an app, is permitted, and there is memory for it if the name is new. */
  predicate Accepts(d: Directory, e: Event)
    requires e.Add?
  {
    && e.handle != 0 && 1 <= |e.name| <= 127 && e.uid % 100000 < 10000 && e.permitted
    && (e.name in d.listings || e.memory)
  }

  function Register(d: Directory, name: Name, handle: nat, isolated: bool): Directory {
    if name in d.listings then d.(listings := d.listings[name := d.listings[name].(handle := handle)])
    else Directory(d.listings[name := Listing(handle, isolated)], d.names + [name])
  }

  function Unregister(d: Directory, name: Name, handle: nat): Directory {
    if name in d.listings && d.listings[name].handle == handle
    then d.(listings := d.listings[name := d.listings[name].(handle := 0)])
    else d
  }

  function DirectoryNext(d: Directory, e: Event): Directory {
    match e
    case Add(n, h, _, i, _, _) => if Accepts(d, e) then Register(d, n, h, i) else d
    case Death(c, h) => if c < |d.names| then Unregister(d, d.names[c], h) else d
  }

  function DirectoryRun(d: Directory, es: seq<Event>): Directory
    decreases |es|
  {
    if es == [] then d else DirectoryRun(DirectoryNext(d, es[0]), es[1..])
  }

  /** Who may have what the directory lists. */
  function Listed(d: Directory, name: Name, uid: nat, permitted: bool): nat {
    if name in d.listings && permitted && (d.listings[name].isolated || !(99000 <= uid % 100000 <= 99999))
    then d.listings[name].handle
    else 0
  }

  ghost predicate Agrees(r: Registry, d: Directory) {
    && |d.names| == |r.entries|
    && (forall i :: 0 <= i < |r.entries| ==> d.names[i] == r.entries[i].name && Lists(d, r.entries[i]))
    && (forall n :: n in d.listings ==> n in d.names)
  }

  predicate Lists(d: Directory, e: Entry) {
    e.name in d.listings && d.listings[e.name] == Listing(e.handle, e.isolated)
  }

  /** The notification is about the handle listed now, or comes when that is dead anyway. */
  predicate Timely(d: Directory, e: Event) {
    e.Death? && e.cookie < |d.names| && d.names[e.cookie] in d.listings ==>
      d.listings[d.names[e.cookie]].handle in {0, e.handle}
  }

  ghost predicate AllTimely(d: Directory, es: seq<Event>)
    decreases |es|
  {
    es == [] || (Timely(d, es[0]) && AllTimely(DirectoryNext(d, es[0]), es[1..]))
  }

  lemma FoundIffListed(r: Registry, d: Directory, name: Name)
    requires Agrees(r, d)
    ensures Found(r, name).Some? <==> name in d.listings
  {
    if name in d.listings {
      var i :| 0 <= i < |d.names| && d.names[i] == name;
      assert r.entries[i].name == name;
    }
    if Found(r, name).Some? { assert Lists(d, r.entries[Found(r, name).value]); }
  }

  lemma AppendAgrees(r: Registry, d: Directory, e: Entry)
    requires Inv(r) && Agrees(r, d) && Found(r, e.name).None?
    ensures Agrees(Appended(r, e), Register(d, e.name, e.handle, e.isolated))
  {
    FoundIffListed(r, d, e.name);
    var s, c := Appended(r, e), Register(d, e.name, e.handle, e.isolated);
    forall i | 0 <= i < |s.entries| ensures c.names[i] == s.entries[i].name && Lists(c, s.entries[i]) {
      if i < |r.entries| { assert Lists(d, r.entries[i]); }
    }
  }

  /** Changing one entry's handle is changing its listing. */
  lemma ChangeAgrees(r: Registry, d: Directory, s: Registry, i: nat, handle: nat)
    requires Inv(r) && Agrees(r, d) && i < |r.entries|
    requires s.entries == r.entries[i := r.entries[i].(handle := handle)]
    ensures Agrees(s, d.(listings := d.listings[r.entries[i].name := Listing(handle, r.entries[i].isolated)]))
  {
    var c := d.(listings := d.listings[r.entries[i].name := Listing(handle, r.entries[i].isolated)]);
    assert Lists(d, r.entries[i]);
    forall j | 0 <= j < |s.entries| ensures c.names[j] == s.entries[j].name && Lists(c, s.entries[j]) {
      assert Lists(d, r.entries[j]);
    }
    assert forall n :: n in c.listings ==> n in d.listings;
  }

  lemma AddAgrees(r: Registry, d: Directory, e: Event)
    requires Inv(r) && Agrees(r, d) && e.Add?
    ensures Agrees(Next(r, e), DirectoryNext(d, e))
  {
    FoundIffListed(r, d, e.name);
    if Accepts(d, e) {
      match Found(r, e.name)
      case Some(i) =>
        assert Lists(d, r.entries[i]);
        ChangeAgrees(r, d, Next(r, e), i, e.handle);
      case None => AppendAgrees(r, d, Entry(e.name, e.handle, e.isolated));
    }
  }

  /** A death notification leaves the registry what it is to be exactly when it is timely. A notification
      for the handle an entry had before an override takes the new registration down, and a lookup shows. */
  lemma DeathAgreesIffTimely(r: Registry, d: Directory, e: Event)
    requires Inv(r) && Agrees(r, d) && e.Death?
    ensures Agrees(Next(r, e), DirectoryNext(d, e)) <==> Timely(d, e)
    ensures !Timely(d, e) ==>
              var name := d.names[e.cookie];
              Answer(Next(r, e), name, 0, true) == 0 && Listed(DirectoryNext(d, e), name, 0, true) != 0
  {
    if e.cookie < |r.entries| {
      var x, s := r.entries[e.cookie], Died(r, e.cookie);
      assert Lists(d, x);
      if x.handle == 0 {
        assert Unregister(d, x.name, e.handle) == d;
      } else if x.handle == e.handle {
        ChangeAgrees(r, d, s, e.cookie, 0);
      } else {
        assert s.entries[e.cookie] == x.(handle := 0);
        assert !Lists(d, s.entries[e.cookie]);
        DeathKeepsInv(r, e.cookie);
        assert Found(s, x.name).value == e.cookie;
      }
    }
  }

  /** Every lookup by anyone is answered as the directory says. */
  ghost predicate AnswersRight(r: Registry, d: Directory) {
    forall name: Name, uid: nat, permitted: bool :: Answer(r, name, uid, permitted) == Listed(d, name, uid, permitted)
  }

  lemma AgreesAnswersRight(r: Registry, d: Directory)
    requires Agrees(r, d)
    ensures AnswersRight(r, d)
  {
    forall name: Name, uid: nat, permitted: bool
      ensures Answer(r, name, uid, permitted) == Listed(d, name, uid, permitted)
    {
      FoundIffListed(r, d, name);
      if Found(r, name).Some? { assert Lists(d, r.entries[Found(r, name).value]); }
    }
  }

  lemma RunShift(r: Registry, d: Directory, es: seq<Event>, n: nat)
    requires 0 < n <= |es|
    ensures Run(r, es[..n]) == Run(Next(r, es[0]), es[1..][..n - 1])
    ensures DirectoryRun(d, es[..n]) == DirectoryRun(DirectoryNext(d, es[0]), es[1..][..n - 1])
  {
    assert es[..n][1..] == es[1..][..n - 1];
  }

  ghost predicate RightAfter(r: Registry, d: Directory, es: seq<Event>, n: nat)
    requires n <= |es|
  {
    AnswersRight(Run(r, es[..n]), DirectoryRun(d, es[..n]))
  }

  lemma StepAnswers(r: Registry, d: Directory, e: Event)
    requires Inv(r) && Agrees(r, d)
    ensures if Timely(d, e) then Inv(Next(r, e)) && Agrees(Next(r, e), DirectoryNext(d, e))
            else !AnswersRight(Next(r, e), DirectoryNext(d, e))
  {
    NextKeepsInv(r, e);
    if e.Add? { AddAgrees(r, d, e); } else { DeathAgreesIffTimely(r, d, e); }
  }

  lemma {:induction false} RunAgrees(r: Registry, d: Directory, es: seq<Event>)
    requires Inv(r) && Agrees(r, d)
    ensures (forall n :: 0 <= n <= |es| ==> RightAfter(r, d, es, n)) <==> AllTimely(d, es)
    decreases |es|
  {
    AgreesAnswersRight(r, d);
    assert es[..0] == [] && RightAfter(r, d, es, 0);
    if es != [] {
      var s, c, rest := Next(r, es[0]), DirectoryNext(d, es[0]), es[1..];
      StepAnswers(r, d, es[0]);
      forall n | 0 < n <= |es| ensures RightAfter(r, d, es, n) == RightAfter(s, c, rest, n - 1) {
        RunShift(r, d, es, n);
      }
      if Timely(d, es[0]) {
        RunAgrees(s, c, rest);
        assert forall n :: 0 <= n <= |rest| ==> RightAfter(s, c, rest, n) == RightAfter(r, d, es, n + 1);
      } else {
        assert rest[..0] == [] && !RightAfter(s, c, rest, 0) && !RightAfter(r, d, es, 1);
      }
    }
  }

  /** After every event of a run every lookup gives the name's latest registration, if that is alive and the
      caller may have it, exactly when no death notification of the run is for a handle that has been
      overridden. */
  lemma LookupAnswers(es: seq<Event>)
    ensures (forall n :: 0 <= n <= |es| ==> RightAfter(EMPTY, NOBODY, es, n)) <==> AllTimely(NOBODY, es)
  {
    assert Inv(EMPTY);
    RunAgrees(EMPTY, NOBODY, es);
  }

  /** A registration is answered with success exactly when it counts. */
  lemma AddAnswers(r: Registry, d: Directory, e: Event)
    requires Agrees(r, d) && e.Add?
    ensures Added(r, e.name, e.handle, e.uid, e.isolated, e.permitted, e.memory).1 == if Accepts(d, e) then 0 else -1
  {
    FoundIffListed(r, d, e.name);
  }

  /** The handle whose death was last asked to be told with the cookie. */
  function Watched(log: seq<Command>, cookie: nat): Option<nat> {
    if log == [] then None
    else
      var c := log[|log| - 1];
      if c.Watch? && c.cookie == cookie then Some(c.handle) else Watched(log[..|log| - 1], cookie)
  }

  ghost predicate WatchesRight(r: Registry) {
    forall i :: 0 <= i < |r.entries| && r.entries[i].handle != 0 ==> Watched(r.log, i) == Some(r.entries[i].handle)
  }

  lemma WatchedAppend(log: seq<Command>, c: Command, cookie: nat)
    ensures Watched(log + [c], cookie)
            == if c.Watch? && c.cookie == cookie then Some(c.handle) else Watched(log, cookie)
  {
    assert (log + [c])[..|log|] == log;
  }

  lemma WatchedAppendTwo(log: seq<Command>, h: nat, i: nat, cookie: nat)
    ensures Watched(log + [Acquire(h), Watch(h, i)], cookie) == if i == cookie then Some(h) else Watched(log, cookie)
  {
    assert log + [Acquire(h), Watch(h, i)] == (log + [Acquire(h)]) + [Watch(h, i)];
    WatchedAppend(log, Acquire(h), cookie);
    WatchedAppend(log + [Acquire(h)], Watch(h, i), cookie);
  }

  lemma DiedWatches(r: Registry, i: nat)
    requires WatchesRight(r) && i < |r.entries|
    ensures WatchesRight(Died(r, i))
    ensures forall k :: Watched(Died(r, i).log, k) == Watched(r.log, k)
  {
    if r.entries[i].handle != 0 {
      forall k ensures Watched(Died(r, i).log, k) == Watched(r.log, k) {
        WatchedAppend(r.log, Release(r.entries[i].handle), k);
      }
    }
  }

  lemma NextWatches(r: Registry, e: Event)
    requires WatchesRight(r)
    ensures WatchesRight(Next(r, e))
  {
    match e
    case Add(n, h, _, isolated, _, _) =>
      match Found(r, n) {
        case Some(i) => OverriddenWatches(r, i, h);
        case None => AppendedWatches(r, Entry(n, h, isolated));
      }
    case Death(c, _) => if c < |r.entries| { DiedWatches(r, c); }
  }

  lemma OverriddenWatches(r: Registry, i: nat, h: nat)
    requires WatchesRight(r) && i < |r.entries|
    ensures WatchesRight(Overridden(r, i, h))
  {
    var d := Died(r, i);
    DiedWatches(r, i);
    forall k | 0 <= k < |r.entries|
      ensures Watched(Overridden(r, i, h).log, k) == if k == i then Some(h) else Watched(d.log, k)
    {
      WatchedAppendTwo(d.log, h, i, k);
    }
  }

  lemma AppendedWatches(r: Registry, e: Entry)
    requires WatchesRight(r)
    ensures WatchesRight(Appended(r, e))
  {
    forall k | 0 <= k <= |r.entries|
      ensures Watched(Appended(r, e).log, k) == if k == |r.entries| then Some(e.handle) else Watched(r.log, k)
    {
      WatchedAppendTwo(r.log, e.handle, |r.entries|, k);
    }
  }

  lemma {:induction false} RunWatches(r: Registry, es: seq<Event>)
    requires WatchesRight(r)
    ensures WatchesRight(Run(r, es))
    decreases |es|
  {
    if es != [] {
      NextWatches(r, es[0]);
      RunWatches(Next(r, es[0]), es[1..]);
    }
  }

  /** After any run the death of every registered handle is asked to be told, with a cookie that makes its notice
      unregister that very name. */
  lemma DeathWillBeTold(es: seq<Event>, i: nat)
    requires i < |Run(EMPTY, es).entries| && Run(EMPTY, es).entries[i].handle != 0
    ensures var r := Run(EMPTY, es);
            var x := r.entries[i];
            && Watched(r.log, i) == Some(x.handle)
            && Next(r, Death(i, x.handle)).entries == r.entries[i := x.(handle := 0)]
            && Answer(Next(r, Death(i, x.handle)), x.name, 0, true) == 0
  {
    RunWatches(EMPTY, es);
    ReferencesBalance(es, 1);
    var r := Run(EMPTY, es);
    var d := Died(r, i);
    assert forall k :: 0 <= k < |r.entries| ==> d.entries[k].name == r.entries[k].name;
    assert d.entries[i].name == r.entries[i].name;
    var f := Found(d, r.entries[i].name);
    assert f.Some? && r.entries[f.value].name == r.entries[i].name;
  }

  /** Service 1 registers handle 5, then 6 in its place; the death of 5 unregisters 6. */
  lemma StaleDeathDropsLiveService()
    ensures var es := [Add([115], 5, 1000, false, true, true), Add([115], 6, 1000, false, true, true), Death(0, 5)];
            && Answer(Run(EMPTY, es), [115], 1000, true) == 0
            && Listed(DirectoryRun(NOBODY, es), [115], 1000, true) == 6
  {
    var a, b, c := Add([115], 5, 1000, false, true, true), Add([115], 6, 1000, false, true, true), Death(0, 5);
    var r1 := Next(EMPTY, a);
    assert r1.entries == [Entry([115], 5, false)];
    var r2 := Next(r1, b);
    assert r2.entries == [Entry([115], 6, false)];
    var r3 := Next(r2, c);
    assert r3.entries == [Entry([115], 0, false)];
    var d1 := DirectoryNext(NOBODY, a);
    var d2 := DirectoryNext(d1, b);
    var d3 := DirectoryNext(d2, c);
    assert d1.names == [[115]] && d3 == d2 && Listed(d3, [115], 1000, true) == 6;
    assert [a, b, c][1..] == [b, c] && [b, c][1..] == [c] && [c][1..] == [];
    assert Run(EMPTY, [a, b, c]) == Run(r1, [b, c]) == Run(r2, [c]) == Run(r3, []);
    assert DirectoryRun(NOBODY, [a, b, c]) == DirectoryRun(d1, [b, c]) == DirectoryRun(d2, [c]) == DirectoryRun(d3, []);
  }

  const PING_TRANSACTION := 0x5F50_4E47
  const GET_SERVICE := 1
  const CHECK_SERVICE := 2
  const ADD_SERVICE := 3
  const LIST_SERVICES := 4

  /** "android.os.IServiceManager" */
  const INTERFACE: Name := [97, 110, 100, 114, 111, 105, 100, 46, 111, 115, 46, 73, 83, 101, 114, 118, 105, 99, 101,
                            77, 97, 110, 97, 103, 101, 114]

  /** The sender, with the security policy's answers about it. */
  datatype Sender = Sender(uid: nat, mayAdd: bool, mayFind: bool, mayList: bool)

  /** What a request leaves: the registry, what is unread of the message, the reply, and the status. */
  datatype Outcome = Outcome(registry: Registry, msg: Bio, reply: Bio, status: int)

  /** svcmgr_handler: the interface token, and then the request. */
  function HandleRequest(r: Registry, toManager: bool, code: nat, msg: Bio, reply: Bio, who: Sender,
        memory: bool): Outcome
    requires WF(msg) && WF(reply)
  {
    if !toManager then Outcome(r, msg, reply, -1)
    else if code == PING_TRANSACTION then Outcome(r, msg, reply, 0)
    else
      GetKeepsWF(msg, Word(0));
      var (m, _) := GetWord(msg);
      GetKeepsWF(m, NoString);
      var (n, length, s) := GetText(m);
      if s.None? || s.value[..length] != INTERFACE then Outcome(r, n, reply, -1)
      else Dispatch(r, code, n, reply, who, memory)
  }

  function Dispatch(r: Registry, code: nat, msg: Bio, reply: Bio, who: Sender, memory: bool): Outcome
    requires WF(msg) && WF(reply)
  {
    if code == GET_SERVICE || code == CHECK_SERVICE then FindRequest(r, msg, reply, who)
    else if code == ADD_SERVICE then AddRequest(r, msg, reply, who, memory)
    else if code == LIST_SERVICES then ListRequest(r, msg, reply, who)
    else Outcome(r, msg, reply, -1)
  }

  function FindRequest(r: Registry, msg: Bio, reply: Bio, who: Sender): Outcome
    requires WF(msg) && WF(reply)
  {
    var (m, length, s) := GetText(msg);
    if s.None? then Outcome(r, m, reply, -1)
    else
      var h := Answer(r, s.value[..length], who.uid, who.mayFind);
      Outcome(r, m, if h == 0 then PutWord(reply, 0) else PutItem(reply, Handle(h)), 0)
  }

  function AddRequest(r: Registry, msg: Bio, reply: Bio, who: Sender, memory: bool): Outcome
    requires WF(msg) && WF(reply)
  {
    GetKeepsWF(msg, NoString);
    var (m, length, s) := GetText(msg);
    if s.None? then Outcome(r, m, reply, -1)
    else
      GetKeepsWF(m, Handle(0));
      var (n, h) := GetRef(m);
      var (o, isolated) := GetWord(n);
      var (q, status) := Added(r, s.value[..length], h, who.uid, isolated != 0, who.mayAdd, memory);
      if status != 0 then Outcome(q, o, reply, -1) else Outcome(q, o, PutWord(reply, 0), 0)
  }

  /** The n-th name from the head of the list, as a C string. */
  function NthName(r: Registry, n: nat): Name
    requires n < |r.entries|
  {
    CString(r.entries[|r.entries| - 1 - n].name)
  }

  function ListRequest(r: Registry, msg: Bio, reply: Bio, who: Sender): Outcome
    requires WF(msg) && WF(reply)
  {
    var (m, n) := GetWord(msg);
    if !who.mayList || n >= |r.entries| then Outcome(r, m, reply, -1)
    else Outcome(r, m, PutItem(reply, Text(NthName(r, n))), 0)
  }

  /** One item of a message that is read back whole. */
  lemma NextReads(b: Bio, items: seq<Item>, i: nat)
    requires WF(b) && i < |items| && GetAll(b, items, i).1 == AllExpected(items, i)
    ensures var c := GetItem(b, items[i]);
            WF(c.0) && c.1 == Expected(items[i]) && GetAll(c.0, items, i + 1).1 == AllExpected(items, i + 1)
  {
    GetKeepsWF(b, items[i]);
    var c := GetItem(b, items[i]);
    var vs := GetAll(c.0, items, i + 1).1;
    assert ([c.1] + vs)[1..] == vs;
    assert ([Expected(items[i])] + AllExpected(items, i + 1))[1..] == AllExpected(items, i + 1);
    assert ([c.1] + vs)[0] == ([Expected(items[i])] + AllExpected(items, i + 1))[0];
  }

  function AddMessage(strict: nat, name: Name, handle: nat, isolated: nat): seq<Item> {
    [Word(strict), Text(INTERFACE), Text(name), Handle(handle), Word(isolated)]
  }

  function FindMessage(strict: nat, name: Name): seq<Item> {
    [Word(strict), Text(INTERFACE), Text(name)]
  }

  /** A message that starts with the policy word and the interface token gets to its request. */
  lemma TokenAccepted(r: Registry, code: nat, items: seq<Item>, b: Bio, reply: Bio, who: Sender, memory: bool)
    returns (c: Bio)
    requires |items| > 2 && items[0].Word? && items[1] == Text(INTERFACE) && code != PING_TRANSACTION
    requires WF(b) && WF(reply) && GetAll(b, items).1 == AllExpected(items, 0)
    ensures WF(c) && GetAll(c, items, 2).1 == AllExpected(items, 2)
    ensures HandleRequest(r, true, code, b, reply, who, memory) == Dispatch(r, code, c, reply, who, memory)
  {
    NextReads(b, items, 0);
    NextReads(GetItem(b, items[0]).0, items, 1);
    assert (INTERFACE + [0])[..|INTERFACE|] == INTERFACE;
    c := GetItem(GetItem(b, items[0]).0, items[1]).0;
  }

  lemma WithoutTerminator(name: seq<Unit>)
    ensures (name + [0])[..|name|] == name
  {
  }

  lemma {:induction false} FaithfulFrom(items: seq<Item>, i: nat)
    requires i <= |items| && forall k :: i <= k < |items| ==> Faithful(items[k])
    ensures AllFaithful(items, i)
    decreases |items| - i
  {
    if i < |items| { FaithfulFrom(items, i + 1); }
  }

  /** The handle a client reads from the reply to a lookup, of either code, is the registry's answer, 0 included. */
  lemma LookupArrives(r: Registry, code: nat, mem: seq<Byte>, table: seq<nat>, strict: nat, name: Name,
        room: seq<Byte>, entries: seq<nat>, who: Sender)
    requires code == 1 || code == 2
    requires |mem| < 0x2_0000_0000 && |name| < MAX_BIO_SIZE / 2 && strict <= 0xFFFF_FFFF
    requires OBJECT_SIZE <= |room| < 0x2_0000_0000 && |entries| > 0
    requires Answer(r, name, who.uid, who.mayFind) <= 0xFFFF_FFFF
    requires !PutAll(Start(mem, table), FindMessage(strict, name)).overflow
    ensures var b := PutAll(Start(mem, table), FindMessage(strict, name));
            WF(b) && WF(Received(b)) &&
            var o := HandleRequest(r, true, code, Received(b), Start(room, entries), who, true);
            && o.status == 0 && o.registry == r
            && WF(o.reply) && WF(Received(o.reply))
            && GetRef(Received(o.reply)).1 == Answer(r, name, who.uid, who.mayFind)
  {
    var items := FindMessage(strict, name);
    var b := PutAll(Start(mem, table), items);
    MessageReadsBack(mem, table, items);
    assert AllFaithful(items, 0) by { FaithfulFrom(items, 0); }
    var c := TokenAccepted(r, code, items, Received(b), Start(room, entries), who, true);
    FindDispatched(r, items, c, Start(room, entries), who);
    ReplyReads(room, entries, Answer(r, name, who.uid, who.mayFind));
  }

  function ListMessage(strict: nat, n: nat): seq<Item> {
    [Word(strict), Text(INTERFACE), Word(n)]
  }

  /** The n-th request for the list, from 0 on, is answered with the n-th newest name, to those who may list, and
      refused after the last one. */
  lemma ListArrives(r: Registry, mem: seq<Byte>, table: seq<nat>, strict: nat, n: nat, reply: Bio, who: Sender)
    requires |mem| < 0x2_0000_0000 && strict <= 0xFFFF_FFFF && n <= 0xFFFF_FFFF && WF(reply)
    requires !PutAll(Start(mem, table), ListMessage(strict, n)).overflow
    ensures var b := PutAll(Start(mem, table), ListMessage(strict, n));
            WF(b) && WF(Received(b)) &&
            var o := HandleRequest(r, true, LIST_SERVICES, Received(b), reply, who, true);
            o.registry == r &&
            if who.mayList && n < |r.entries| then
              o.status == 0 && o.reply == PutItem(reply, Text(NthName(r, n)))
            else o.status == -1 && o.reply == reply
  {
    var items := ListMessage(strict, n);
    MessageReadsBack(mem, table, items);
    assert AllFaithful(items, 0) by { FaithfulFrom(items, 0); }
    var c := TokenAccepted(r, LIST_SERVICES, items, Received(PutAll(Start(mem, table), items)), reply, who, true);
    NumberRead(items, c);
    if who.mayList && n < |r.entries| {
      ListGranted(r, c, reply, who, n, NthName(r, n));
    } else {
      ListRefused(r, c, reply, who, n);
    }
  }

  lemma {:induction false} CStringIs(s: seq<Unit>, i: nat)
    requires i <= |s| && forall k :: i <= k < |s| ==> s[k] != 0
    ensures CString(s, i) == s
    decreases |s| - i
  {
    if i < |s| { CStringIs(s, i + 1); } else { assert s[..i] == s; }
  }

  /** The n-th name is that of the n-th newest entry; names hold no zero unit. */
  lemma NthNameIs(r: Registry, n: nat)
    requires n < |r.entries| && 0 !in r.entries[|r.entries| - 1 - n].name
    ensures NthName(r, n) == r.entries[|r.entries| - 1 - n].name
  {
    var name := r.entries[|r.entries| - 1 - n].name;
    assert forall k :: 0 <= k < |name| ==> name[k] in name;
    CStringIs(name, 0);
  }

  lemma NumberRead(items: seq<Item>, c: Bio)
    requires |items| == 3 && items[2].Word?
    requires WF(c) && GetAll(c, items, 2).1 == AllExpected(items, 2)
    ensures GetWord(c).1 == items[2].n
  {
    NextReads(c, items, 2);
  }

  lemma ListGranted(r: Registry, c: Bio, reply: Bio, who: Sender, n: nat, name: Name)
    requires WF(c) && WF(reply) && GetWord(c).1 == n && who.mayList && n < |r.entries|
    requires name == NthName(r, n)
    ensures ListRequest(r, c, reply, who) == Outcome(r, GetWord(c).0, PutItem(reply, Text(name)), 0)
  {
  }

  lemma ListRefused(r: Registry, c: Bio, reply: Bio, who: Sender, n: nat)
    requires WF(c) && WF(reply) && GetWord(c).1 == n && !(who.mayList && n < |r.entries|)
    ensures ListRequest(r, c, reply, who) == Outcome(r, GetWord(c).0, reply, -1)
  {
  }

  /** A request with another interface token is refused, whatever it asks for, unless it is a ping or not for the
      manager at all, which need none. */
  lemma WrongTokenRefused(r: Registry, code: nat, mem: seq<Byte>, table: seq<nat>, strict: nat, token: Name,
        rest: seq<Item>, reply: Bio, who: Sender, memory: bool)
    requires |mem| < 0x2_0000_0000 && strict <= 0xFFFF_FFFF && WF(reply) && |token| < MAX_BIO_SIZE / 2
    requires token != INTERFACE && code != PING_TRANSACTION
    requires forall d :: d in rest ==> BinderIo.InRange(d) && Faithful(d)
    requires !PutAll(Start(mem, table), [Word(strict), Text(token)] + rest).overflow
    ensures var b := PutAll(Start(mem, table), [Word(strict), Text(token)] + rest);
            WF(b) && WF(Received(b)) &&
            var o := HandleRequest(r, true, code, Received(b), reply, who, memory);
            o.status == -1 && o.registry == r && o.reply == reply
  {
    var items := [Word(strict), Text(token)] + rest;
    forall k | 0 <= k < |items| ensures BinderIo.InRange(items[k]) && Faithful(items[k]) {
      if k >= 2 { assert items[k] in rest; }
    }
    MessageReadsBack(mem, table, items);
    FaithfulFrom(items, 0);
    var b := Received(PutAll(Start(mem, table), items));
    NextReads(b, items, 0);
    NextReads(GetItem(b, items[0]).0, items, 1);
    WithoutTerminator(token);
  }

  /** A request with the right token and a code that is none of the four is refused. */
  lemma UnknownCodeRefused(r: Registry, code: nat, mem: seq<Byte>, table: seq<nat>, strict: nat, n: nat, reply: Bio,
        who: Sender, memory: bool)
    requires |mem| < 0x2_0000_0000 && strict <= 0xFFFF_FFFF && n <= 0xFFFF_FFFF && WF(reply)
    requires !(1 <= code <= 4) && code != 0x5F50_4E47
    requires !PutAll(Start(mem, table), ListMessage(strict, n)).overflow
    ensures var b := PutAll(Start(mem, table), ListMessage(strict, n));
            WF(b) && WF(Received(b)) &&
            var o := HandleRequest(r, true, code, Received(b), reply, who, memory);
            o.status == -1 && o.registry == r && o.reply == reply
  {
    var items := ListMessage(strict, n);
    MessageReadsBack(mem, table, items);
    assert AllFaithful(items, 0) by { FaithfulFrom(items, 0); }
    var c := TokenAccepted(r, code, items, Received(PutAll(Start(mem, table), items)), reply, who, memory);
  }

  /** A ping is answered with success and an empty reply; what is not for the manager is refused. */
  lemma PingAnswered(r: Registry, toManager: bool, msg: Bio, reply: Bio, who: Sender, memory: bool)
    requires WF(msg) && WF(reply)
    ensures var o := HandleRequest(r, toManager, PING_TRANSACTION, msg, reply, who, memory);
            o.registry == r && o.reply == reply && o.status == if toManager then 0 else -1
  {
  }

  lemma FindDispatched(r: Registry, items: seq<Item>, c: Bio, reply: Bio, who: Sender)
    requires |items| == 3 && items[2].Text?
    requires WF(c) && WF(reply) && GetAll(c, items, 2).1 == AllExpected(items, 2)
    ensures var o := FindRequest(r, c, reply, who);
            var h := Answer(r, items[2].units, who.uid, who.mayFind);
            o.registry == r && o.status == 0 && o.reply == PutItem(reply, if h == 0 then Word(0) else Handle(h))
  {
    NextReads(c, items, 2);
    var name := items[2].units;
    assert (name + [0])[..|name|] == name;
  }

  lemma ReplyReads(room: seq<Byte>, entries: seq<nat>, h: nat)
    requires OBJECT_SIZE <= |room| < 0x2_0000_0000 && |entries| > 0 && h <= 0xFFFF_FFFF
    ensures var reply := PutItem(Start(room, entries), if h == 0 then Word(0) else Handle(h));
            WF(reply) && WF(Received(reply)) && GetRef(Received(reply)).1 == h
  {
    var item := if h == 0 then Word(0) else Handle(h);
    var a := Start(room, entries);
    PutItemGrows(a, item);
    PutItemFits(a, item);
    assert PutAll(PutItem(a, item), [item], 1) == PutItem(a, item);
    assert PutAll(a, [item]) == PutItem(a, item);
    if h != 0 {
      MessageReadsBack(room, entries, [item]);
      FaithfulFrom([item], 0);
      NextReads(Received(PutItem(a, item)), [item], 0);
    } else {
      NoEntry(a, item);
    }
  }

  // ---- Whole runs of messages ------------------------------------------------------------------------

  /** What reaches the service manager: a request, well-formed or not, or a death notification. */
  datatype Arrival =
    | Message(toManager: bool, code: nat, msg: Bio, reply: Bio, who: Sender, memory: bool)
    | Notice(cookie: nat, dead: nat)

  ghost predicate Readable(a: Arrival) {
    a.Message? ==> WF(a.msg) && WF(a.reply)
  }

  ghost function Taken(r: Registry, a: Arrival): Registry
    requires Readable(a)
  {
    match a
    case Message(toManager, code, msg, reply, who, memory) =>
      HandleRequest(r, toManager, code, msg, reply, who, memory).registry
    case Notice(cookie, dead) => Next(r, Death(cookie, dead))
  }

  ghost function TakenAll(r: Registry, arrivals: seq<Arrival>): Registry
    requires forall a :: a in arrivals ==> Readable(a)
    decreases |arrivals|
  {
    if arrivals == [] then r else TakenAll(Taken(r, arrivals[0]), arrivals[1..])
  }

  /** The registration a request asks for, as the manager reads it from the message. */
  ghost function ReadAdd(msg: Bio, who: Sender, memory: bool): seq<Event>
    requires WF(msg)
  {
    GetKeepsWF(msg, NoString);
    var (m, length, s) := GetText(msg);
    if s.None? then []
    else
      GetKeepsWF(m, Handle(0));
      var (n, h) := GetRef(m);
      [Add(s.value[..length], h, who.uid, GetWord(n).1 != 0, who.mayAdd, memory)]
  }

  /** The events of the registry an arrival comes to. */
  ghost function Asked(a: Arrival): seq<Event>
    requires Readable(a)
  {
    match a
    case Message(toManager, code, msg, _, who, memory) =>
      if !toManager || code != ADD_SERVICE then []
      else
        GetKeepsWF(msg, Word(0));
        var m := GetWord(msg).0;
        GetKeepsWF(m, NoString);
        var (n, length, s) := GetText(m);
        if s.None? || s.value[..length] != INTERFACE then [] else ReadAdd(n, who, memory)
    case Notice(cookie, dead) => [Death(cookie, dead)]
  }

  ghost function AllAsked(arrivals: seq<Arrival>): seq<Event>
    requires forall a :: a in arrivals ==> Readable(a)
  {
    if arrivals == [] then [] else Asked(arrivals[0]) + AllAsked(arrivals[1..])
  }

  lemma RunOne(r: Registry, e: Event)
    ensures Run(r, [e]) == Next(r, e)
  {
    assert [e][1..] == [];
  }

  function AddedBy(r: Registry, e: Event): (Registry, int)
    requires e.Add?
  {
    Added(r, e.name, e.handle, e.uid, e.isolated, e.permitted, e.memory)
  }

  /** The outcome is that of the registrations read from the message, none or one. */
  ghost predicate DoesAsked(r: Registry, o: Outcome, es: seq<Event>, reply: Bio)
    requires WF(reply)
  {
    && o.registry == Run(r, es)
    && (es == [] || (es[0].Add? && (o.registry, o.status) == AddedBy(r, es[0])))
    && (es == [] ==> o.status == -1)
    && o.reply == if o.status == 0 then PutItem(reply, Word(0)) else reply
  }

  lemma AddRequestAdds(r: Registry, msg: Bio, reply: Bio, who: Sender, memory: bool)
    requires WF(msg) && WF(reply)
    ensures DoesAsked(r, AddRequest(r, msg, reply, who, memory), ReadAdd(msg, who, memory), reply)
  {
    var es := ReadAdd(msg, who, memory);
    if es != [] { RunOne(r, es[0]); }
  }

  /** No other request changes the registry. */
  lemma OthersKeepRegistry(r: Registry, toManager: bool, code: nat, msg: Bio, reply: Bio, who: Sender, memory: bool)
    requires WF(msg) && WF(reply) && (!toManager || code != ADD_SERVICE)
    ensures HandleRequest(r, toManager, code, msg, reply, who, memory).registry == r
  {
  }

  lemma AddMessageAdds(r: Registry, msg: Bio, reply: Bio, who: Sender, memory: bool)
    requires WF(msg) && WF(reply)
    ensures DoesAsked(r, HandleRequest(r, true, ADD_SERVICE, msg, reply, who, memory),
                      Asked(Message(true, ADD_SERVICE, msg, reply, who, memory)), reply)
  {
    GetKeepsWF(msg, Word(0));
    var m := GetWord(msg).0;
    GetKeepsWF(m, NoString);
    AddRequestAdds(r, GetText(m).0, reply, who, memory);
  }

  lemma TakenIsAsked(r: Registry, a: Arrival)
    requires Readable(a)
    ensures Taken(r, a) == Run(r, Asked(a))
  {
    match a
    case Message(toManager, code, msg, reply, who, memory) =>
      if toManager && code == ADD_SERVICE {
        AddMessageAdds(r, msg, reply, who, memory);
      } else {
        OthersKeepRegistry(r, toManager, code, msg, reply, who, memory);
      }
    case Notice(cookie, dead) => RunOne(r, Death(cookie, dead));
  }

  lemma AddRead(items: seq<Item>, c: Bio, who: Sender, memory: bool)
    requires |items| == 5 && items[2].Text? && items[3].Handle? && items[4].Word?
    requires WF(c) && GetAll(c, items, 2).1 == AllExpected(items, 2)
    ensures ReadAdd(c, who, memory)
            == [Add(items[2].units, items[3].handle, who.uid, items[4].n != 0, who.mayAdd, memory)]
  {
    NextReads(c, items, 2);
    var d := GetItem(c, items[2]).0;
    NextReads(d, items, 3);
    NextReads(GetItem(d, items[3]).0, items, 4);
    WithoutTerminator(items[2].units);
  }

  lemma AddAsked(items: seq<Item>, b: Bio, reply: Bio, who: Sender, memory: bool)
    requires |items| == 5 && items[0].Word? && items[1] == Text(INTERFACE)
    requires items[2].Text? && items[3].Handle? && items[4].Word?
    requires WF(b) && WF(reply) && GetAll(b, items).1 == AllExpected(items, 0)
    ensures Asked(Message(true, ADD_SERVICE, b, reply, who, memory))
            == [Add(items[2].units, items[3].handle, who.uid, items[4].n != 0, who.mayAdd, memory)]
  {
    NextReads(b, items, 0);
    NextReads(GetItem(b, items[0]).0, items, 1);
    WithoutTerminator(INTERFACE);
    AddRead(items, GetItem(GetItem(b, items[0]).0, items[1]).0, who, memory);
  }

  /** A registration sent as a message is read as what was sent, and does in the registry what it asks for. */
  lemma AddArrives(r: Registry, mem: seq<Byte>, table: seq<nat>, strict: nat, name: Name, handle: nat, isolated: nat,
        reply: Bio, who: Sender, memory: bool)
    requires |mem| < 0x2_0000_0000 && WF(reply) && |name| < MAX_BIO_SIZE / 2
    requires strict <= 0xFFFF_FFFF && 0 < handle <= 0xFFFF_FFFF && isolated <= 0xFFFF_FFFF
    requires !PutAll(Start(mem, table), AddMessage(strict, name, handle, isolated)).overflow
    ensures var b := PutAll(Start(mem, table), AddMessage(strict, name, handle, isolated));
            WF(b) && WF(Received(b)) &&
            var o := HandleRequest(r, true, ADD_SERVICE, Received(b), reply, who, memory);
            && (o.registry, o.status) == Added(r, name, handle, who.uid, isolated != 0, who.mayAdd, memory)
            && o.reply == (if o.status == 0 then PutItem(reply, Word(0)) else reply)
            && Asked(Message(true, ADD_SERVICE, Received(b), reply, who, memory))
               == [Add(name, handle, who.uid, isolated != 0, who.mayAdd, memory)]
  {
    var items := AddMessage(strict, name, handle, isolated);
    MessageReadsBack(mem, table, items);
    assert AllFaithful(items, 0) by { FaithfulFrom(items, 0); }
    var b := Received(PutAll(Start(mem, table), items));
    AddAsked(items, b, reply, who, memory);
    AddMessageAdds(r, b, reply, who, memory);
  }

  lemma {:induction false} RunConcat(r: Registry, a: seq<Event>, b: seq<Event>)
    ensures Run(r, a + b) == Run(Run(r, a), b)
    decreases |a|
  {
    if a == [] {
      assert a + b == b;
    } else {
      assert (a + b)[1..] == a[1..] + b;
      RunConcat(Next(r, a[0]), a[1..], b);
    }
  }

  lemma {:induction false} TakenAllIsAsked(r: Registry, arrivals: seq<Arrival>)
    requires forall a :: a in arrivals ==> Readable(a)
    ensures TakenAll(r, arrivals) == Run(r, AllAsked(arrivals))
    decreases |arrivals|
  {
    if arrivals != [] {
      TakenIsAsked(r, arrivals[0]);
      TakenAllIsAsked(Taken(r, arrivals[0]), arrivals[1..]);
      RunConcat(r, Asked(arrivals[0]), AllAsked(arrivals[1..]));
    }
  }

  /** Handles are 32 bits wide, for they come out of messages. */
  ghost predicate Narrow(r: Registry) {
    forall i :: 0 <= i < |r.entries| ==> r.entries[i].handle <= 0xFFFF_FFFF
  }

  lemma RefIsNarrow(b: Bio)
    requires WF(b)
    ensures GetRef(b).1 <= 0xFFFF_FFFF
  {
    if b.avail >= OBJECT_SIZE {
      FromLeBound(b.mem[b.pos + 8..b.pos + 12]);
      Pow4();
    }
  }

  lemma NextIsNarrow(r: Registry, e: Event)
    requires Narrow(r) && (e.Add? ==> e.handle <= 0xFFFF_FFFF)
    ensures Narrow(Next(r, e))
  {
  }

  lemma TakenIsNarrow(r: Registry, a: Arrival)
    requires Narrow(r) && Readable(a)
    ensures Narrow(Taken(r, a))
  {
    TakenIsAsked(r, a);
    var es := Asked(a);
    if es != [] {
      AskedIsNarrow(a);
      assert es == [es[0]];
      RunOne(r, es[0]);
      NextIsNarrow(r, es[0]);
    }
  }

  lemma AskedIsNarrow(a: Arrival)
    requires Readable(a)
    ensures |Asked(a)| <= 1 && forall e :: e in Asked(a) && e.Add? ==> e.handle <= 0xFFFF_FFFF
  {
    if a.Message? {
      GetKeepsWF(a.msg, Word(0));
      var m := GetWord(a.msg).0;
      GetKeepsWF(m, NoString);
      var n := GetText(m).0;
      GetKeepsWF(n, NoString);
      RefIsNarrow(GetText(n).0);
    }
  }

  lemma {:induction false} TakenAllIsNarrow(r: Registry, arrivals: seq<Arrival>)
    requires Narrow(r) && forall a :: a in arrivals ==> Readable(a)
    ensures Narrow(TakenAll(r, arrivals))
    decreases |arrivals|
  {
    if arrivals != [] {
      TakenIsNarrow(r, arrivals[0]);
      TakenAllIsNarrow(Taken(r, arrivals[0]), arrivals[1..]);
    }
  }

  /** After any messages, well-formed or not, and any death notices none of which is for an overridden handle,
      the handle a client reads from the reply to its lookup is the name's latest live registration, or 0. */
  lemma ClientFindsLatest(arrivals: seq<Arrival>, code: nat, mem: seq<Byte>, table: seq<nat>, strict: nat,
        name: Name, room: seq<Byte>, entries: seq<nat>, who: Sender)
    requires code == 1 || code == 2
    requires (forall a :: a in arrivals ==> Readable(a)) && AllTimely(NOBODY, AllAsked(arrivals))
    requires |mem| < 0x2_0000_0000 && |name| < MAX_BIO_SIZE / 2 && strict <= 0xFFFF_FFFF
    requires OBJECT_SIZE <= |room| < 0x2_0000_0000 && |entries| > 0
    requires !PutAll(Start(mem, table), FindMessage(strict, name)).overflow
    ensures var b := PutAll(Start(mem, table), FindMessage(strict, name));
            WF(b) && WF(Received(b)) &&
            var r := TakenAll(EMPTY, arrivals);
            var o := HandleRequest(r, true, code, Received(b), Start(room, entries), who, true);
            && WF(o.reply) && WF(Received(o.reply))
            && GetRef(Received(o.reply)).1
               == Listed(DirectoryRun(NOBODY, AllAsked(arrivals)), name, who.uid, who.mayFind)
  {
    var es, r := AllAsked(arrivals), TakenAll(EMPTY, arrivals);
    TakenAllIsAsked(EMPTY, arrivals);
    TakenAllIsNarrow(EMPTY, arrivals);
    LookupAnswers(es);
    assert es[..|es|] == es;
    assert RightAfter(EMPTY, NOBODY, es, |es|);
    LookupArrives(r, code, mem, table, strict, name, room, entries, who);
  }

  /** An entry of the list; only its handle ever changes. */
  class SvcInfo {
    const name: Name
    const allowIsolated: bool
    const next: SvcInfo?
    var handle: nat

    constructor (n: Name, h: nat, isolated: bool, rest: SvcInfo?)
      ensures name == n && handle == h && allowIsolated == isolated && next == rest
    {
      name, handle, allowIsolated, next := n, h, isolated, rest;
    }

    ghost function View(): Entry
      reads this
    {
      Entry(name, handle, allowIsolated)
    }
  }

  class ServiceManager {
    var svclist: SvcInfo?
    ghost var infos: seq<SvcInfo>
    ghost var log: seq<Command>

    /** The list runs from the newest entry to the oldest. */
    ghost predicate Valid()
      reads this
    {
      && svclist == At(|infos|)
      && (forall i :: 0 <= i < |infos| ==> infos[i].next == At(i))
      && (forall i, j :: 0 <= i < j < |infos| ==> infos[i] != infos[j])
    }

    /** What stands before the k oldest entries. */
    ghost function At(k: nat): SvcInfo?
      requires k <= |infos|
      reads this
    {
      if k == 0 then null else infos[k - 1]
    }

    ghost function View(): Registry
      reads this, infos
    {
      Registry(seq(|infos|, i requires 0 <= i < |infos| reads this, infos => infos[i].View()), log)
    }

    constructor ()
      ensures Valid() && View() == EMPTY
    {
      svclist, infos, log := null, [], [];
    }

    method FindSvc(name: Name) returns (si: SvcInfo?, ghost k: nat)
      requires Valid()
      ensures Found(View(), name) == if si == null then None else Some(k)
      ensures si != null ==> k < |infos| && infos[k] == si
    {
      si, k := Walk(name, View().entries);
    }

    /** The walk down the list. */
    method Walk(name: Name, ghost es: seq<Entry>) returns (si: SvcInfo?, ghost k: nat)
      requires Valid() && |es| == |infos| && forall i :: 0 <= i < |es| ==> es[i].name == infos[i].name
      ensures Search(es, |es|, name) == if si == null then None else Some(k)
      ensures si != null ==> k < |infos| && infos[k] == si
    {
      si, k := svclist, |infos|;
      while si != null
        invariant k <= |infos| && si == At(k) && Search(es, k, name) == Search(es, |es|, name)
        decreases k
      {
        k := k - 1;
        if si.name == name {
          return;
        }
        si := si.next;
      }
    }

    method SvcinfoDeath(si: SvcInfo, ghost k: nat)
      requires Valid() && k < |infos| && infos[k] == si
      modifies si`handle, `log
      ensures Valid() && View() == Died(old(View()), k)
    {
      if si.handle != 0 {
        log := log + [Release(si.handle)];
        si.handle := 0;
      }
      assert View().entries == Died(old(View()), k).entries;
    }

    method DoFindService(name: Name, uid: nat, permitted: bool) returns (handle: nat)
      requires Valid()
      ensures handle == Answer(View(), name, uid, permitted)
    {
      var si, k := FindSvc(name);
      if si == null || si.handle == 0 {
        return 0;
      }
      if !si.allowIsolated {
        var appid := uid % AID_USER;
        if AID_ISOLATED_START <= appid <= AID_ISOLATED_END {
          return 0;
        }
      }
      if !permitted {
        return 0;
      }
      handle := si.handle;
    }

    method Override(si: SvcInfo, handle: nat, ghost k: nat)
      requires Valid() && k < |infos| && infos[k] == si
      modifies si`handle, `log
      ensures Valid() && View() == Overridden(old(View()), k, handle)
    {
      if si.handle != 0 {
        SvcinfoDeath(si, k);
      }
      assert View() == Died(old(View()), k);
      si.handle := handle;
      log := log + [Acquire(handle), Watch(handle, k)];
      assert View().entries == Overridden(old(View()), k, handle).entries;
    }

    method Prepend(name: Name, handle: nat, isolated: bool)
      requires Valid()
      modifies this
      ensures Valid() && fresh(set s | s in infos && s !in old(infos))
      ensures View() == Appended(old(View()), Entry(name, handle, isolated))
    {
      var si := new SvcInfo(name, handle, isolated, svclist);
      assert forall i :: 0 <= i < |infos| ==> infos[i] != si;
      log := log + [Acquire(handle), Watch(handle, |infos|)];
      infos := infos + [si];
      svclist := si;
      assert View().entries == Appended(old(View()), Entry(name, handle, isolated)).entries;
    }

    method DoAddService(name: Name, handle: nat, uid: nat, isolated: bool, permitted: bool, memory: bool)
      returns (status: int)
      requires Valid()
      modifies this, infos
      ensures Valid() && fresh(set s | s in infos && s !in old(infos))
      ensures (View(), status) == Added(old(View()), name, handle, uid, isolated, permitted, memory)
    {
      if handle == 0 || |name| == 0 || |name| > MAX_NAME {
        return -1;
      }
      if !MayRegister(uid, permitted) {
        return -1;
      }
      status := Place(name, handle, isolated, memory);
    }

    /** The handle goes into the entry of the name, or into a new one. */
    method Place(name: Name, handle: nat, isolated: bool, memory: bool) returns (status: int)
      requires Valid()
      modifies this, infos
      ensures Valid() && fresh(set s | s in infos && s !in old(infos))
      ensures (View(), status) == Placed(old(View()), name, handle, isolated, memory)
    {
      var si, k := FindSvc(name);
      if si != null {
        Override(si, handle, k);
      } else {
        if !memory {
          return -1;
        }
        Prepend(name, handle, isolated);
      }
      status := 0;
    }
  }
}
