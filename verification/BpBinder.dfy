/** Death notification of a remote proxy: links, unlinks and obituaries under the proxy's lock, as the
    atomic steps between lock operations, in any interleaving. */
module BpBinder {
  import opened Basics

  /** One link; `id` numbers the links of the proxy in the order they were made. */
  datatype Obituary = Obituary(id: nat, recipient: nat, cookie: int, flags: nat)

  datatype Status = NoError | DeadObject | NameNotFound

  /** The fields under the lock, and the death commands put to the driver so far. */
  datatype Proxy = Proxy(
    alive: bool, obitsSent: bool, obituaries: Option<seq<Obituary>>,
    linked: nat, requests: nat, clears: nat)

  function Link(p: Proxy, recipient: nat, cookie: int, flags: nat): (Proxy, Status) {
    if p.obitsSent then (p, DeadObject)
    else
      var q := if p.obituaries.None? then p.(obituaries := Some([]), requests := p.requests + 1) else p;
      (q.(obituaries := Some(q.obituaries.value + [Obituary(p.linked, recipient, cookie, flags)]),
          linked := p.linked + 1), NoError)
  }

  /** The recipient may be NULL, and then the cookie decides. */
  predicate Matches(o: Obituary, recipient: Option<nat>, cookie: int, flags: nat) {
    (recipient == Some(o.recipient) || (recipient.None? && o.cookie == cookie)) && o.flags == flags
  }

  function FindLink(os: seq<Obituary>, i: nat, recipient: Option<nat>, cookie: int, flags: nat): (r: Option<nat>)
    requires i <= |os|
    ensures r.Some? ==> i <= r.value < |os| && Matches(os[r.value], recipient, cookie, flags)
    ensures forall k :: i <= k < (if r.Some? then r.value else |os|) ==> !Matches(os[k], recipient, cookie, flags)
    decreases |os| - i
  {
    if i == |os| then None
    else if Matches(os[i], recipient, cookie, flags) then Some(i)
    else FindLink(os, i + 1, recipient, cookie, flags)
  }

  function Without(os: seq<Obituary>, i: nat): (r: seq<Obituary>)
    requires i < |os|
    ensures |r| == |os| - 1
  {
    os[..i] + os[i + 1..]
  }

  function Unlink(p: Proxy, recipient: Option<nat>, cookie: int, flags: nat): (Proxy, Status) {
    if p.obitsSent then (p, DeadObject)
    else if p.obituaries.None? then (p, NameNotFound)
    else
      var os := p.obituaries.value;
      var i := FindLink(os, 0, recipient, cookie, flags);
      if i.None? then (p, NameNotFound)
      else if |os| == 1 then (p.(obituaries := None, clears := p.clears + 1), NoError)
      else (p.(obituaries := Some(Without(os, i.value))), NoError)
  }

  /** sendObituary under the lock: the list is taken away whole. */
  function Take(p: Proxy): (Proxy, seq<Obituary>) {
    if p.obituaries.None? then (p.(obitsSent := true), [])
    else (p.(obituaries := None, clears := p.clears + 1, obitsSent := true), p.obituaries.value)
  }

  /** The destructor drops the links that are left. */
  function Destroy(p: Proxy): Proxy {
    if p.obituaries.None? then p else p.(obituaries := None, clears := p.clears + 1)
  }

  // ---- Interleavings ---------------------------------------------------------------------------------

  /** The proxy, the threads inside sendObituary that have passed the unlocked test but not yet taken
      the lock, and the lists taken, each with the part still to be reported. The history fields say
      which links were taken and which were reported. */
  datatype World = World(
    proxy: Proxy, waiting: nat, batches: seq<seq<Obituary>>,
    taken: seq<Obituary>, reported: seq<Obituary>)

  datatype Event =
    | LinkEvent(recipient: nat, cookie: int, flags: nat)
    | UnlinkEvent(who: Option<nat>, cookie': int, flags': nat)
    | ObituaryEnter
    | ObituaryTake
    | ObituaryReport(batch: nat)

  const FRESH := World(Proxy(true, false, None, 0, 0, 0), 0, [], [], [])

  function Next(w: World, e: Event): World {
    match e
    case LinkEvent(r, c, f) => w.(proxy := Link(w.proxy, r, c, f).0)
    case UnlinkEvent(r, c, f) => w.(proxy := Unlink(w.proxy, r, c, f).0)
    case ObituaryEnter =>
      var q := w.proxy.(alive := false);
      if q.obitsSent then w.(proxy := q) else w.(proxy := q, waiting := w.waiting + 1)
    case ObituaryTake =>
      if w.waiting == 0 then w
      else
        var (q, os) := Take(w.proxy);
        w.(proxy := q, waiting := w.waiting - 1, batches := w.batches + [os], taken := w.taken + os)
    case ObituaryReport(i) =>
      if i >= |w.batches| || w.batches[i] == [] then w
      else w.(batches := w.batches[i := w.batches[i][1..]], reported := w.reported + [w.batches[i][0]])
  }

  function Run(w: World, es: seq<Event>): World
    decreases |es|
  {
    if es == [] then w else Run(Next(w, es[0]), es[1..])
  }

  ghost predicate Ascending(os: seq<Obituary>, bound: nat) {
    && (forall i, j :: 0 <= i < j < |os| ==> os[i].id < os[j].id)
    && (forall i :: 0 <= i < |os| ==> os[i].id < bound)
  }

  /** The batches still to be reported, one after the other. */
  ghost function Pending(batches: seq<seq<Obituary>>): seq<Obituary> {
    if batches == [] then [] else batches[0] + Pending(batches[1..])
  }

  ghost predicate Inv(w: World) {
    var p := w.proxy;
    && (p.obituaries.Some? ==> p.obituaries.value != [] && Ascending(p.obituaries.value, p.linked) && !p.obitsSent)
    && p.requests == p.clears + (if p.obituaries.Some? then 1 else 0)
    && Ascending(w.taken, p.linked)
    && (!p.obitsSent ==> w.taken == [] && w.batches == [] && w.reported == [])
    && (p.obitsSent || w.waiting > 0 ==> !p.alive)
    && (p.obitsSent ==> w.batches != [] && forall i :: 0 < i < |w.batches| ==> w.batches[i] == [])
    && w.taken == w.reported + (if w.batches == [] then [] else w.batches[0])
  }

  lemma LinkKeepsInv(w: World, r: nat, c: int, f: nat)
    requires Inv(w)
    ensures Inv(Next(w, LinkEvent(r, c, f)))
  {
  }

  lemma WithoutAscending(os: seq<Obituary>, i: nat, bound: nat)
    requires i < |os| && Ascending(os, bound)
    ensures Ascending(Without(os, i), bound)
  {
    var r := Without(os, i);
    assert forall k :: 0 <= k < |r| ==> r[k] == os[if k < i then k else k + 1];
  }

  lemma UnlinkKeepsInv(w: World, r: Option<nat>, c: int, f: nat)
    requires Inv(w)
    ensures Inv(Next(w, UnlinkEvent(r, c, f)))
  {
    if w.proxy.obituaries.Some? {
      var os := w.proxy.obituaries.value;
      var i := FindLink(os, 0, r, c, f);
      if i.Some? { WithoutAscending(os, i.value, w.proxy.linked); }
    }
  }

  lemma ObituaryKeepsInv(w: World, e: Event)
    requires Inv(w) && (e.ObituaryEnter? || e.ObituaryTake? || e.ObituaryReport?)
    ensures Inv(Next(w, e))
  {
    match e
    case ObituaryTake => TakeKeepsInv(w);
    case ObituaryReport(i) => ReportKeepsInv(w, i);
    case _ =>
  }

  lemma TakeKeepsInv(w: World)
    requires Inv(w)
    ensures Inv(Next(w, ObituaryTake))
  {
    if w.waiting > 0 && !w.proxy.obitsSent {
      var os := Take(w.proxy).1;
      assert [] + os == os;
      assert Next(w, ObituaryTake).batches == [os];
    }
  }

  lemma ReportKeepsInv(w: World, i: nat)
    requires Inv(w)
    ensures Inv(Next(w, ObituaryReport(i)))
  {
    if i < |w.batches| && w.batches[i] != [] {
      assert i == 0;
      var b := w.batches[0];
      assert w.reported + b == w.reported + [b[0]] + b[1..];
    }
  }

  lemma StepKeepsInv(w: World, e: Event)
    requires Inv(w)
    ensures Inv(Next(w, e))
  {
    match e
    case LinkEvent(r, c, f) => LinkKeepsInv(w, r, c, f);
    case UnlinkEvent(r, c, f) => UnlinkKeepsInv(w, r, c, f);
    case _ => ObituaryKeepsInv(w, e);
  }

  lemma {:induction false} RunKeepsInv(w: World, es: seq<Event>)
    requires Inv(w)
    ensures Inv(Run(w, es))
    decreases |es|
  {
    if es != [] {
      StepKeepsInv(w, es[0]);
      RunKeepsInv(Next(w, es[0]), es[1..]);
    }
  }

  /** Under any interleaving, concurrent obituaries included: the list is absent or non-empty and exists
      exactly while one death request is outstanding; no link is reported twice; and what has been
      reported, followed by what is still to be, is exactly the list that was taken, in its order. */
  lemma ObituariesUnderAnyInterleaving(es: seq<Event>)
    ensures var w := Run(FRESH, es);
            && w.proxy.obituaries != Some([])
            && w.proxy.requests - w.proxy.clears == (if w.proxy.obituaries.Some? then 1 else 0)
            && (forall i, j :: 0 <= i < j < |w.reported| ==> w.reported[i].id != w.reported[j].id)
            && w.taken == w.reported + Pending(w.batches)
            && (w.taken != [] ==> w.proxy.obitsSent)
  {
    RunKeepsInv(FRESH, es);
    var w := Run(FRESH, es);
    PendingIsFirst(w.batches);
    assert forall i :: 0 <= i < |w.reported| ==> w.reported[i] == w.taken[i];
  }

  lemma {:induction false} PendingIsFirst(bs: seq<seq<Obituary>>)
    requires forall i :: 0 < i < |bs| ==> bs[i] == []
    ensures Pending(bs) == if bs == [] then [] else bs[0]
    decreases |bs|
  {
    if |bs| > 1 {
      assert bs[1..][0] == bs[1] == [];
      assert forall i :: 0 < i < |bs[1..]| ==> bs[1..][i] == bs[i + 1];
      PendingIsFirst(bs[1..]);
      assert bs[0] + [] == bs[0];
    }
  }

  /** The links present when the first obituary takes the lock are the ones handed to delivery, all of
      them; from then on no event changes what was taken, and linking fails. */
  lemma {:induction false} TakenOnceAndForAll(w: World, es: seq<Event>)
    requires Inv(w) && w.proxy.obitsSent
    ensures Run(w, es).taken == w.taken && Run(w, es).proxy.obitsSent
    ensures Link(Run(w, es).proxy, 0, 0, 0).1 == DeadObject
    decreases |es|
  {
    if es != [] {
      StepAfterTaken(w, es[0]);
      TakenOnceAndForAll(Next(w, es[0]), es[1..]);
    }
  }

  lemma StepAfterTaken(w: World, e: Event)
    requires Inv(w) && w.proxy.obitsSent
    ensures Inv(Next(w, e)) && Next(w, e).taken == w.taken && Next(w, e).proxy.obitsSent
  {
    StepKeepsInv(w, e);
    NothingMoreTaken(w, e);
  }

  lemma NothingMoreTaken(w: World, e: Event)
    requires Inv(w) && w.proxy.obitsSent
    ensures Next(w, e).taken == w.taken && Next(w, e).proxy.obitsSent
  {
    assert w.taken + [] == w.taken;
  }

  /** The links made and not unlinked, as long as no obituary took them. */
  function Present(p: Proxy): seq<Obituary> {
    if p.obituaries.None? then [] else p.obituaries.value
  }

  lemma TakesAllPresent(w: World)
    requires Inv(w) && w.waiting > 0 && !w.proxy.obitsSent
    ensures Next(w, ObituaryTake).taken == Present(w.proxy) && Next(w, ObituaryTake).proxy.obitsSent
  {
  }

  /** From the moment the first obituary gets the lock, however it came to that and whatever happens after,
      what has been reported followed by what is still to be is exactly the links present at that moment, in
      their order. */
  lemma ThosePresentAreTold(es: seq<Event>, fs: seq<Event>)
    requires var w := Run(FRESH, es); w.waiting > 0 && !w.proxy.obitsSent
    ensures var w := Run(FRESH, es);
            var r := Run(Next(w, ObituaryTake), fs);
            r.reported + Pending(r.batches) == Present(w.proxy)
  {
    var w := Run(FRESH, es);
    RunKeepsInv(FRESH, es);
    TakesAllPresent(w);
    var v := Next(w, ObituaryTake);
    TakeKeepsInv(w);
    TakenOnceAndForAll(v, fs);
    RunKeepsInv(v, fs);
    PendingIsFirst(Run(v, fs).batches);
    assert Run(v, fs).taken == Present(w.proxy);
  }

  /** The destructor balances the last death request. */
  lemma DestroyBalances(es: seq<Event>)
    ensures var p := Destroy(Run(FRESH, es).proxy);
            p.requests == p.clears && p.obituaries.None?
  {
    RunKeepsInv(FRESH, es);
  }

  /** Unlinking takes away the first link that matches and no other. */
  lemma UnlinkRemovesFirstMatch(p: Proxy, r: Option<nat>, c: int, f: nat, i: nat)
    requires !p.obitsSent && p.obituaries.Some? && i < |p.obituaries.value|
    requires Matches(p.obituaries.value[i], r, c, f)
    requires forall k :: 0 <= k < i ==> !Matches(p.obituaries.value[k], r, c, f)
    ensures var (q, s) := Unlink(p, r, c, f);
            && s == NoError
            && (if q.obituaries.None? then [] else q.obituaries.value) == Without(p.obituaries.value, i)
  {
    var j := FindLink(p.obituaries.value, 0, r, c, f);
    assert j.Some?;
    assert j.value == i;
  }

  // ---- What linking is for -----------------------------------------------------------------------------

  /** The links as the callers see them: those made and not unlinked, until an obituary takes them. */
  datatype Ledger = Ledger(links: seq<Obituary>, made: nat, sent: bool, waiting: nat)

  const NO_LINKS := Ledger([], 0, false, 0)

  /** The first link of the recipient or, without one, of the cookie, with the same flags, is gone. */
  function Dropped(os: seq<Obituary>, recipient: Option<nat>, cookie: int, flags: nat): seq<Obituary> {
    if os == [] then []
    else if os[0].flags == flags
            && (if recipient.Some? then os[0].recipient == recipient.value else os[0].cookie == cookie) then os[1..]
    else [os[0]] + Dropped(os[1..], recipient, cookie, flags)
  }

  function LedgerNext(l: Ledger, e: Event): Ledger {
    match e
    case LinkEvent(r, c, f) =>
      if l.sent then l else l.(links := l.links + [Obituary(l.made, r, c, f)], made := l.made + 1)
    case UnlinkEvent(r, c, f) => if l.sent then l else l.(links := Dropped(l.links, r, c, f))
    case ObituaryEnter => if l.sent then l else l.(waiting := l.waiting + 1)
    case ObituaryTake => if l.waiting == 0 then l else l.(sent := true, waiting := l.waiting - 1)
    case ObituaryReport(_) => l
  }

  function LedgerRun(l: Ledger, es: seq<Event>): Ledger
    decreases |es|
  {
    if es == [] then l else LedgerRun(LedgerNext(l, es[0]), es[1..])
  }

  /** The links in the proxy's care: on its list, or taken from it, reported or still to be. */
  ghost function InCare(w: World): seq<Obituary> {
    if w.proxy.obitsSent then w.reported + Pending(w.batches) else Present(w.proxy)
  }

  ghost predicate Keeps(w: World, l: Ledger) {
    InCare(w) == l.links && w.proxy.obitsSent == l.sent && w.proxy.linked == l.made && w.waiting == l.waiting
  }

  lemma CareIsTaken(w: World)
    requires Inv(w)
    ensures w.proxy.obitsSent ==> InCare(w) == w.taken
  {
    PendingIsFirst(w.batches);
  }

  lemma DroppedStep(os: seq<Obituary>, i: nat, recipient: Option<nat>, cookie: int, flags: nat)
    requires i < |os|
    ensures Dropped(os[i..], recipient, cookie, flags)
            == if Matches(os[i], recipient, cookie, flags) then os[i + 1..]
               else [os[i]] + Dropped(os[i + 1..], recipient, cookie, flags)
  {
    assert os[i..][0] == os[i] && os[i..][1..] == os[i + 1..];
  }

  /** The links from i on without the one found. */
  function CutAt(os: seq<Obituary>, i: nat, f: Option<nat>): seq<Obituary>
    requires i <= |os| && (f.Some? ==> i <= f.value < |os|)
  {
    if f.None? then os[i..] else os[i..f.value] + os[f.value + 1..]
  }

  lemma CutHere(os: seq<Obituary>, i: nat)
    requires i < |os|
    ensures CutAt(os, i, Some(i)) == os[i + 1..]
  {
  }

  lemma OneMoreKept(os: seq<Obituary>, i: nat, f: Option<nat>)
    requires i < |os| && (f.Some? ==> i < f.value < |os|)
    ensures [os[i]] + CutAt(os, i + 1, f) == CutAt(os, i, f)
  {
  }

  lemma {:induction false} DroppedIs(os: seq<Obituary>, i: nat, recipient: Option<nat>, cookie: int, flags: nat)
    requires i <= |os|
    ensures Dropped(os[i..], recipient, cookie, flags) == CutAt(os, i, FindLink(os, i, recipient, cookie, flags))
    decreases |os| - i
  {
    if i < |os| {
      DroppedStep(os, i, recipient, cookie, flags);
      if Matches(os[i], recipient, cookie, flags) {
        CutHere(os, i);
      } else {
        DroppedIs(os, i + 1, recipient, cookie, flags);
        OneMoreKept(os, i, FindLink(os, i + 1, recipient, cookie, flags));
      }
    }
  }

  /** What unlinking makes of the list is what it makes of the ledger. */
  lemma UnlinkDrops(p: Proxy, r: Option<nat>, c: int, f: nat, os: seq<Obituary>)
    requires !p.obitsSent && os == Present(p) && (p.obituaries.Some? ==> os != [])
    ensures Present(Unlink(p, r, c, f).0) == Dropped(os, r, c, f)
    ensures Unlink(p, r, c, f).1 == if |Dropped(os, r, c, f)| == |os| then NameNotFound else NoError
  {
    DroppedIs(os, 0, r, c, f);
    assert os[0..] == os;
    var i := FindLink(os, 0, r, c, f);
    if i.Some? { assert os[0..i.value] + os[i.value + 1..] == Without(os, i.value); }
  }

  lemma UnlinkKeeps(w: World, l: Ledger, r: Option<nat>, c: int, f: nat)
    requires Inv(w) && Keeps(w, l) && !l.sent
    ensures Keeps(Next(w, UnlinkEvent(r, c, f)), LedgerNext(l, UnlinkEvent(r, c, f)))
  {
    UnlinkDrops(w.proxy, r, c, f, Present(w.proxy));
  }

  lemma TakenKeeps(w: World, l: Ledger, e: Event)
    requires Inv(w) && Inv(Next(w, e)) && Keeps(w, l) && l.sent
    ensures Keeps(Next(w, e), LedgerNext(l, e))
  {
    NothingMoreTaken(w, e);
    CareIsTaken(w);
    CareIsTaken(Next(w, e));
  }

  lemma TakeKeeps(w: World, l: Ledger)
    requires Inv(w) && Inv(Next(w, ObituaryTake)) && Keeps(w, l) && !l.sent && w.waiting > 0
    ensures Keeps(Next(w, ObituaryTake), LedgerNext(l, ObituaryTake))
  {
    TakesAllPresent(w);
    CareIsTaken(Next(w, ObituaryTake));
  }

  lemma StepKeeps(w: World, l: Ledger, e: Event)
    requires Inv(w) && Keeps(w, l)
    ensures Inv(Next(w, e)) && Keeps(Next(w, e), LedgerNext(l, e))
  {
    StepKeepsInv(w, e);
    if l.sent {
      TakenKeeps(w, l, e);
    } else if e.UnlinkEvent? {
      UnlinkKeeps(w, l, e.who, e.cookie', e.flags');
    } else if e.ObituaryTake? && w.waiting > 0 {
      TakeKeeps(w, l);
    }
  }

  lemma {:induction false} RunKeeps(w: World, l: Ledger, es: seq<Event>)
    requires Inv(w) && Keeps(w, l)
    ensures Keeps(Run(w, es), LedgerRun(l, es))
    decreases |es|
  {
    if es != [] {
      StepKeeps(w, l, es[0]);
      RunKeeps(Next(w, es[0]), LedgerNext(l, es[0]), es[1..]);
    }
  }

  /** In every interleaving the proxy cares for exactly the links made and not unlinked, each with the recipient,
      cookie and flags it was made with, in the order they were made; and it answers as the ledger says. */
  lemma CaresForLedger(es: seq<Event>, r: nat, who: Option<nat>, c: int, f: nat)
    ensures var w, l := Run(FRESH, es), LedgerRun(NO_LINKS, es);
            && InCare(w) == l.links
            && Link(w.proxy, r, c, f).1 == (if l.sent then DeadObject else NoError)
            && Unlink(w.proxy, who, c, f).1
               == if l.sent then DeadObject
                  else if |Dropped(l.links, who, c, f)| == |l.links| then NameNotFound else NoError
  {
    RunKeeps(FRESH, NO_LINKS, es);
    var w := Run(FRESH, es);
    RunKeepsInv(FRESH, es);
    if !w.proxy.obitsSent { UnlinkDrops(w.proxy, who, c, f, Present(w.proxy)); }
  }

  predicate Spares(e: Event, o: Obituary) {
    e.UnlinkEvent? ==>
      !(o.flags == e.flags' && (if e.who.Some? then o.recipient == e.who.value else o.cookie == e.cookie'))
  }

  lemma {:induction false} DroppedSpares(os: seq<Obituary>, e: Event, o: Obituary)
    requires o in os && e.UnlinkEvent? && Spares(e, o)
    ensures o in Dropped(os, e.who, e.cookie', e.flags')
  {
    if os[0] != o { DroppedSpares(os[1..], e, o); }
  }

  lemma {:induction false} LedgerSpares(l: Ledger, es: seq<Event>, o: Obituary)
    requires o in l.links && forall e :: e in es ==> Spares(e, o)
    ensures o in LedgerRun(l, es).links
    decreases |es|
  {
    if es != [] {
      if es[0].UnlinkEvent? { DroppedSpares(l.links, es[0], o); }
      LedgerSpares(LedgerNext(l, es[0]), es[1..], o);
    }
  }

  lemma {:induction false} LedgerConcat(l: Ledger, a: seq<Event>, b: seq<Event>)
    ensures LedgerRun(l, a + b) == LedgerRun(LedgerRun(l, a), b)
    decreases |a|
  {
    if a == [] {
      assert a + b == b;
    } else {
      assert (a + b)[1..] == a[1..] + b;
      LedgerConcat(LedgerNext(l, a[0]), a[1..], b);
    }
  }

  /** A recipient linked while linking still answers NoError, and not unlinked since, is told of the death: it
      is on the list as long as nobody took it, and reported or about to be from then on. */
  lemma LinkedIsTold(es: seq<Event>, r: nat, c: int, f: nat, fs: seq<Event>)
    requires var o := Obituary(Run(FRESH, es).proxy.linked, r, c, f); forall e :: e in fs ==> Spares(e, o)
    ensures Link(Run(FRESH, es).proxy, r, c, f).1 == NoError ==>
              Obituary(Run(FRESH, es).proxy.linked, r, c, f) in InCare(Run(FRESH, es + ([LinkEvent(r, c, f)] + fs)))
  {
    var link := LinkEvent(r, c, f);
    RunKeeps(FRESH, NO_LINKS, es);
    var l := LedgerRun(NO_LINKS, es);
    if !l.sent {
      LedgerTells(l, link, fs);
      LedgerConcat(NO_LINKS, es, [link] + fs);
      RunKeeps(FRESH, NO_LINKS, es + ([link] + fs));
    }
  }

  lemma LedgerTells(l: Ledger, link: Event, fs: seq<Event>)
    requires link.LinkEvent? && !l.sent
    requires var o := Obituary(l.made, link.recipient, link.cookie, link.flags); forall e :: e in fs ==> Spares(e, o)
    ensures Obituary(l.made, link.recipient, link.cookie, link.flags) in LedgerRun(l, [link] + fs).links
  {
    assert ([link] + fs)[1..] == fs;
    LedgerSpares(LedgerNext(l, link), fs, Obituary(l.made, link.recipient, link.cookie, link.flags));
  }

  // ---- The proxy object ------------------------------------------------------------------------------

  /** Each method is one critical section, or the test before it; `reported` logs the recipients told. */
  class BpBinder {
    var alive: bool
    var obitsSent: bool
    var obituaries: Option<seq<Obituary>>
    var linked: nat
    ghost var requests: nat
    ghost var clears: nat
    ghost var reported: seq<Obituary>

    ghost function View(): Proxy
      reads this
    {
      Proxy(alive, obitsSent, obituaries, linked, requests, clears)
    }

    constructor ()
      ensures View() == FRESH.proxy && reported == []
    {
      alive, obitsSent, obituaries, linked, requests, clears, reported := true, false, None, 0, 0, 0, [];
    }

    method LinkToDeath(recipient: nat, cookie: int, flags: nat) returns (status: Status)
      modifies this
      ensures (View(), status) == Link(old(View()), recipient, cookie, flags) && reported == old(reported)
    {
      if !obitsSent {
        if obituaries.None? {
          obituaries := Some([]);
          requests := requests + 1;
        }
        obituaries := Some(obituaries.value + [Obituary(linked, recipient, cookie, flags)]);
        linked := linked + 1;
        return NoError;
      }
      status := DeadObject;
    }

    method UnlinkToDeath(recipient: Option<nat>, cookie: int, flags: nat) returns (status: Status, out: Option<nat>)
      modifies this
      ensures (View(), status) == Unlink(old(View()), recipient, cookie, flags) && reported == old(reported)
      ensures status == NoError ==>
                var os := old(obituaries).value;
                out == Some(os[FindLink(os, 0, recipient, cookie, flags).value].recipient)
    {
      if obitsSent {
        return DeadObject, None;
      }
      if obituaries.Some? {
        var os := obituaries.value;
        ghost var goal := FindLink(os, 0, recipient, cookie, flags);
        for i := 0 to |os|
          invariant goal == FindLink(os, i, recipient, cookie, flags)
        {
          if Matches(os[i], recipient, cookie, flags) {
            obituaries := Some(os[..i] + os[i + 1..]);
            if |obituaries.value| == 0 {
              clears := clears + 1;
              obituaries := None;
            }
            return NoError, Some(os[i].recipient);
          }
        }
      }
      return NameNotFound, None;
    }

    /** The unlocked beginning of sendObituary. */
    method EnterObituary() returns (go: bool)
      modifies this
      ensures View() == old(View()).(alive := false) && go == !obitsSent && reported == old(reported)
    {
      alive := false;
      go := !obitsSent;
    }

    /** Its critical section. */
    method TakeObituaries() returns (obits: Option<seq<Obituary>>)
      modifies this
      ensures View() == Take(old(View())).0 && obits == old(obituaries) && reported == old(reported)
    {
      obits := obituaries;
      if obits.Some? {
        clears := clears + 1;
        obituaries := None;
      }
      obitsSent := true;
    }

    method SendObituary()
      modifies this
      ensures alive == false && obitsSent
      ensures reported == old(reported) + if old(obitsSent) || old(obituaries).None? then [] else old(obituaries).value
    {
      var go := EnterObituary();
      if !go {
        return;
      }
      var obits := TakeObituaries();
      if obits.Some? {
        ghost var os := obits.value;
        for i := 0 to |obits.value|
          invariant alive == false && obitsSent && reported == old(reported) + os[..i]
        {
          reported := reported + [obits.value[i]];
          assert os[..i + 1] == os[..i] + [os[i]];
        }
        assert os[..|os|] == os;
      }
    }

    /** What the destructor does under the lock. */
    method DropObituaries()
      modifies this
      ensures View() == Destroy(old(View())) && reported == old(reported)
    {
      if obituaries.Some? {
        clears := clears + 1;
        obituaries := None;
      }
    }
  }
}
