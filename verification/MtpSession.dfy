/** The MTP server and its database together: what the server tells the database about the objects it is sent,
    while the device's own folders change at any time. */
module MtpSession {
  import opened Basics
  import D = MtpObjectDb
  import S = MtpServer

  /** `format` is that of the object announced last; it is kept when the announcement is forgotten. */
  datatype Joint = Joint(server: S.Server, db: D.Db, format: nat)

  /** What an edit's file is found to be when the edit is committed. */
  datatype Found = Found(format: nat, size: nat)

  /** A SendObjectInfo request, refused for other reasons than its parent or not; a SendObject request with
      the size of the file it leaves; the end of an edit; any other request; any request in a container of
      the wrong kind; and what happens to the database besides: scanned storages, new files, deletions. */
  datatype Event =
    | InfoSent(info: D.Info, refusal: Option<nat>, acceptable: bool, made: bool)
    | ObjectSent(request: S.Request, size: nat)
    | EditEnded(handle: Option<nat>, found: Found)
    | Asked(request: S.Request)
    | Misplaced(request: S.Request)
    | Changed(change: D.Event)

  predicate Sound(e: Event) {
    match e
    case ObjectSent(r, _) => r.SendObject?
    case Asked(r) => !r.SendObjectInfo? && !r.SendObject? && !r.EndEdit?
    case Changed(c) => c.Storage? || c.Appeared? || c.Delete?
    case _ => true
  }

  const INVALID_PARENT: nat := 0x201A

  function Next(j: Joint, e: Event): Joint
    requires Sound(e)
  {
    match e
    case InfoSent(info, refusal, acceptable, made) => SendObjectInfo(j, info, refusal, acceptable, made)
    case ObjectSent(r, size) =>
      var server := S.Handle(j.server, r, true).0;
      if !r.hasStorage then j.(server := server)
      else Joint(server, D.EndSend(j.db, j.server.pending, j.format, S.DoSendObject(j.server, r).1 == S.Ok, size), 0)
    case EditEnded(h, found) =>
      var server := S.Handle(j.server, S.EndEdit(h), true).0;
      if h.None? || h.value !in j.server.edits then j.(server := server)
      else j.(server := server, db := Committed(j.db, h.value, found))
    case Asked(r) => j.(server := S.Handle(j.server, r, true).0)
    case Misplaced(r) => j.(server := S.Handle(j.server, r, false).0)
    case Changed(c) => j.(db := D.Next(j.db, c))
  }

  /** commitEdit. */
  function Committed(s: D.Db, h: nat, found: Found): D.Db {
    D.EndSend(s, h, found.format, true, found.size)
  }

  /** The exit path commits the edits still open, in their order. */
  function AllCommitted(s: D.Db, edits: seq<nat>, found: nat -> Found): D.Db
    decreases |edits|
  {
    if edits == [] then s else AllCommitted(Committed(s, edits[0], found(edits[0])), edits[1..], found)
  }

  function Exit(j: Joint, found: nat -> Found): Joint {
    Joint(S.Exit(j.server), AllCommitted(j.db, j.server.edits, found), j.format)
  }

  /** The database answers with a handle, unless the request is refused before it is asked. A folder is made
      at once, and its sending ends with it; one that cannot be made keeps its entry. */
  function SendObjectInfo(j: Joint, info: D.Info, refusal: Option<nat>, acceptable: bool, made: bool): Joint {
    var parent := D.GivenParent(j.db.objects, info.parent);
    var refused := if parent.None? then Some(INVALID_PARENT) else refusal;
    var (db, h) :=
      if refused.Some? then (j.db, D.ROOT)
      else D.BeginSend(j.db, info.(parent := parent.value), acceptable);
    var folder := info.format == D.ASSOCIATION;
    var server := S.Handle(j.server, S.SendObjectInfo(refused, h, folder, made), true).0;
    if refused.Some? || h == D.ROOT then Joint(server, db, j.format)
    else if folder then Joint(server, if made then D.EndSend(db, h, D.ASSOCIATION, true, 0) else db, j.format)
    else Joint(server, db, info.format)
  }

  function Run(j: Joint, es: seq<Event>): Joint
    requires forall e :: e in es ==> Sound(e)
    decreases |es|
  {
    if es == [] then j else Run(Next(j, es[0]), es[1..])
  }

  function Handles(e: Event): nat {
    match e
    case InfoSent(_, _, _, _) => 1
    case Changed(c) => D.Handles(c)
    case _ => 0
  }

  function AllHandles(es: seq<Event>): nat {
    if es == [] then 0 else Handles(es[0]) + AllHandles(es[1..])
  }

  const START: Joint := Joint(S.IDLE, D.Db(map[], 1), 0)

  /** The announced object was given out by the database, and is a file as long as it is there. */
  ghost predicate Inv(j: Joint) {
    && D.Inv(j.db) && j.format != D.ASSOCIATION
    && (j.server.pending != D.ROOT ==> PendingIsFile(j.db, j.server.pending))
    && forall h :: Failed(j, h) ==> Gone(j.db, h)
  }

  /** The sending of the object was reported as failed. */
  ghost predicate Failed(j: Joint, h: nat) {
    h != D.ROOT && S.Sent(h, false) in j.server.log
  }

  /** The handle was given out, and its entry is there no more. */
  ghost predicate Gone(s: D.Db, h: nat) {
    h < s.next && h !in s.objects
  }

  ghost predicate PendingIsFile(s: D.Db, h: nat) {
    h < s.next && (h in s.objects ==> s.objects[h].format != D.ASSOCIATION)
  }

  /** The entry of a handle given out keeps its format or goes. */
  lemma ChangeKeepsFile(s: D.Db, c: D.Event, h: nat)
    requires D.Inv(s) && s.next + D.Handles(c) <= D.ROOT && (c.Storage? || c.Appeared? || c.Delete?)
    requires PendingIsFile(s, h)
    ensures D.Inv(D.Next(s, c)) && PendingIsFile(D.Next(s, c), h)
  {
    D.NextKeepsInvIff(s, c);
    if h !in s.objects {
      D.OldHandleStaysOut(s, c, h);
    } else {
      match c
      case Storage(content, storage) => D.AddStorageKeepsInv(s, content, storage);
      case Appeared(node, folder, storage) =>
        if folder in s.objects && s.objects[folder].format == D.ASSOCIATION {
          D.AddNodeKeepsInv(s, node, folder, storage);
        }
      case _ =>
    }
  }

  /** A file has nothing below it, so the failed end of its sending orphans nothing. */
  lemma FileEndOrphansNothing(s: D.Db, h: nat, format: nat, succeeded: bool, size: nat)
    requires D.Inv(s) && (h in s.objects ==> s.objects[h].format != D.ASSOCIATION)
    ensures !D.Orphans(s, D.SendEnd(h, format, succeeded, size))
    ensures D.Inv(D.EndSend(s, h, format, succeeded, size))
  {
    forall k | k in s.objects && h in s.objects ensures s.objects[k].parent != h {
      assert D.ParentOk(s.objects, k);
    }
    D.EndSendKeepsInvIff(s, h, format, succeeded, size);
  }

  /** Only SendObject reports the end of a sending. */
  lemma OthersReportNothing(s: S.Server, r: S.Request, command: bool)
    requires !r.SendObject?
    ensures forall h, b :: S.Sent(h, b) in S.Handle(s, r, command).0.log <==> S.Sent(h, b) in s.log
    ensures !r.SendObjectInfo? ==> S.Handle(s, r, command).0.pending == D.ROOT
  {
  }

  lemma InfoKeepsInv(j: Joint, info: D.Info, refusal: Option<nat>, acceptable: bool, made: bool)
    requires Inv(j) && j.db.next < D.ROOT
    ensures var r := SendObjectInfo(j, info, refusal, acceptable, made);
            Inv(r) && j.db.next <= r.db.next <= j.db.next + 1
  {
    var parent := D.GivenParent(j.db.objects, info.parent);
    if parent.Some? { D.InsertKeepsInv(j.db, info.(parent := parent.value)); }
    var r := SendObjectInfo(j, info, refusal, acceptable, made);
    forall h | Failed(r, h) ensures Gone(r.db, h) { assert Failed(j, h); }
  }

  lemma NextKeepsInv(j: Joint, e: Event)
    requires Inv(j) && Sound(e) && j.db.next + Handles(e) <= D.ROOT
    ensures Inv(Next(j, e)) && Next(j, e).db.next <= j.db.next + Handles(e)
  {
    match e
    case InfoSent(info, refusal, acceptable, made) => InfoKeepsInv(j, info, refusal, acceptable, made);
    case ObjectSent(r, size) => SentKeepsInv(j, r, size);
    case EditEnded(h, found) => EditKeepsInv(j, h, found);
    case Asked(r) =>
      OthersReportNothing(j.server, r, true);
      forall h | Failed(Next(j, e), h) ensures Gone(j.db, h) { assert Failed(j, h); }
    case Misplaced(r) =>
      assert S.Handle(j.server, r, false).0.log == j.server.log;
      forall h | Failed(Next(j, e), h) ensures Gone(j.db, h) { assert Failed(j, h); }
    case Changed(c) => ChangeKeepsInv(j, c);
  }

  /** A commit keeps the entries, their formats and parents. */
  lemma CommitKeepsEntries(s: D.Db, h: nat, found: Found)
    requires D.Inv(s)
    ensures var r := Committed(s, h, found);
            && D.Inv(r) && r.next == s.next && r.objects.Keys == s.objects.Keys
            && (forall k :: k in s.objects ==> r.objects[k].format == s.objects[k].format)
            && !D.Orphans(s, D.SendEnd(h, found.format, true, found.size))
  {
    D.EndSendKeepsInvIff(s, h, found.format, true, found.size);
  }

  lemma EditKeepsInv(j: Joint, h: Option<nat>, found: Found)
    requires Inv(j)
    ensures var n := Next(j, EditEnded(h, found)); Inv(n) && n.db.next == j.db.next
  {
    var n := Next(j, EditEnded(h, found));
    OthersReportNothing(j.server, S.EndEdit(h), true);
    if h.Some? { CommitKeepsEntries(j.db, h.value, found); }
    forall k | Failed(n, k) ensures Gone(n.db, k) { assert Failed(j, k); }
  }

  lemma SentKeepsInv(j: Joint, r: S.Request, size: nat)
    requires Inv(j) && r.SendObject?
    ensures Inv(Next(j, ObjectSent(r, size)))
  {
    var n := Next(j, ObjectSent(r, size));
    FileEndOrphansNothing(j.db, j.server.pending, j.format, S.DoSendObject(j.server, r).1 == S.Ok, size);
    forall h | Failed(n, h) ensures Gone(n.db, h) {
      if !Failed(j, h) { assert h == j.server.pending; }
    }
  }

  lemma ChangeKeepsInv(j: Joint, c: D.Event)
    requires Inv(j) && Sound(Changed(c)) && j.db.next + D.Handles(c) <= D.ROOT
    ensures Inv(Next(j, Changed(c))) && Next(j, Changed(c)).db.next <= j.db.next + D.Handles(c)
  {
    D.NextKeepsInvIff(j.db, c);
    if j.server.pending != D.ROOT { ChangeKeepsFile(j.db, c, j.server.pending); }
    forall h | Failed(j, h) ensures Gone(D.Next(j.db, c), h) { D.OldHandleStaysOut(j.db, c, h); }
  }

  /** What the database is told in a step. */
  ghost function Told(j: Joint, e: Event): seq<D.Event> {
    match e
    case InfoSent(info, refusal, acceptable, made) =>
      var asked := D.GivenParent(j.db.objects, info.parent).Some? && refusal.None?;
      if !asked then []
      else if info.format == D.ASSOCIATION && made && acceptable && j.db.next != D.ROOT
      then [D.SendInfo(info, acceptable), D.SendEnd(j.db.next, D.ASSOCIATION, true, 0)]
      else [D.SendInfo(info, acceptable)]
    case ObjectSent(r, size) =>
      if !r.SendObject? || !r.hasStorage then []
      else [D.SendEnd(j.server.pending, j.format, S.DoSendObject(j.server, r).1 == S.Ok, size)]
    case EditEnded(h, found) =>
      if h.None? || h.value !in j.server.edits then [] else [D.SendEnd(h.value, found.format, true, found.size)]
    case Asked(_) => []
    case Misplaced(_) => []
    case Changed(c) => [c]
  }

  ghost function ExitTold(edits: seq<nat>, found: nat -> Found): seq<D.Event>
    decreases |edits|
  {
    if edits == [] then []
    else [D.SendEnd(edits[0], found(edits[0]).format, true, found(edits[0]).size)] + ExitTold(edits[1..], found)
  }

  ghost function AllTold(j: Joint, es: seq<Event>): seq<D.Event>
    requires forall e :: e in es ==> Sound(e)
    decreases |es|
  {
    if es == [] then [] else Told(j, es[0]) + AllTold(Next(j, es[0]), es[1..])
  }

  lemma {:induction false} RunConcat(s: D.Db, a: seq<D.Event>, b: seq<D.Event>)
    ensures D.Run(s, a + b) == D.Run(D.Run(s, a), b)
    ensures D.NoneOrphans(s, a + b) <==> D.NoneOrphans(s, a) && D.NoneOrphans(D.Run(s, a), b)
    decreases |a|
  {
    if a == [] {
      assert a + b == b;
    } else {
      assert (a + b)[1..] == a[1..] + b;
      RunConcat(D.Next(s, a[0]), a[1..], b);
    }
  }

  lemma StepTells(j: Joint, e: Event)
    requires Inv(j) && Sound(e) && j.db.next + Handles(e) <= D.ROOT
    ensures D.Run(j.db, Told(j, e)) == Next(j, e).db && D.NoneOrphans(j.db, Told(j, e))
  {
    var told := Told(j, e);
    if told != [] {
      OneStep(j.db, told);
      match e
      case ObjectSent(r, size) =>
        FileEndOrphansNothing(j.db, j.server.pending, j.format, S.DoSendObject(j.server, r).1 == S.Ok, size);
      case EditEnded(h, found) => CommitKeepsEntries(j.db, h.value, found);
      case _ =>
    }
  }

  /** A run of one or two events, unfolded. */
  lemma OneStep(s: D.Db, es: seq<D.Event>)
    requires 0 < |es| <= 2
    ensures D.Run(s, es) == if |es| == 1 then D.Next(s, es[0]) else D.Next(D.Next(s, es[0]), es[1])
    ensures D.NoneOrphans(s, es) <==> !D.Orphans(s, es[0]) && (|es| == 2 ==> !D.Orphans(D.Next(s, es[0]), es[1]))
  {
    var rest := es[1..];
    if |es| == 2 {
      assert rest == [es[1]] && rest[1..] == [];
      assert D.Run(s, es) == D.Run(D.Next(s, es[0]), rest);
      assert D.Run(D.Next(s, es[0]), rest) == D.Run(D.Next(D.Next(s, es[0]), es[1]), []);
      assert D.NoneOrphans(D.Next(s, es[0]), rest) <==> !D.Orphans(D.Next(s, es[0]), es[1]);
    }
  }

  /** In every state reached a sending settles the entry of the announced object: with the size found if it was
      complete, and gone after any other end; nothing else in the database changes. */
  lemma SendingSettlesEntry(j: Joint, r: S.Request, size: nat)
    requires Inv(j) && r.SendObject? && r.hasStorage
    ensures var h, before, after := j.server.pending, j.db.objects, Next(j, ObjectSent(r, size)).db.objects;
            if h == D.ROOT || h !in before then after == before
            else if r.header && r.openable && r.transfer == S.Complete then
              after == before[h := before[h].(size := size)]
            else after == before - {h}
  {
    S.SentTellsTheTruth(j.server, r);
  }

  /** The request the server gets in a step, if any, with what the database answers to it. */
  ghost function Requested(j: Joint, e: Event): seq<S.Turn> {
    match e
    case InfoSent(info, refusal, acceptable, made) =>
      var parent := D.GivenParent(j.db.objects, info.parent);
      var refused := if parent.None? then Some(INVALID_PARENT) else refusal;
      var given := if refused.Some? then D.ROOT else D.BeginSend(j.db, info, acceptable).1;
      [S.Turn(S.Done, S.SendObjectInfo(refused, given, info.format == D.ASSOCIATION, made), true, S.Done)]
    case ObjectSent(r, _) => [S.Turn(S.Done, r, true, S.Done)]
    case EditEnded(h, _) => [S.Turn(S.Done, S.EndEdit(h), true, S.Done)]
    case Asked(r) => [S.Turn(S.Done, r, true, S.Done)]
    case Misplaced(r) => [S.Turn(S.Done, r, false, S.Done)]
    case Changed(_) => []
  }

  ghost function AllRequested(j: Joint, es: seq<Event>): seq<S.Turn>
    requires forall e :: e in es ==> Sound(e)
    decreases |es|
  {
    if es == [] then [] else Requested(j, es[0]) + AllRequested(Next(j, es[0]), es[1..])
  }

  lemma StepRequests(j: Joint, e: Event, rest: seq<S.Turn>)
    requires Sound(e)
    ensures S.Serve(j.server, Requested(j, e) + rest) == S.Serve(Next(j, e).server, rest)
  {
    var turns := Requested(j, e);
    if turns == [] {
      assert turns + rest == rest;
    } else {
      assert (turns + rest)[0] == turns[0] && (turns + rest)[1..] == rest;
      assert S.Step(j.server, turns[0]) == (Next(j, e).server, true);
    }
  }

  /** The server makes a run of its own on the requests it gets. */
  lemma {:induction false} RunServes(j: Joint, es: seq<Event>)
    requires forall e :: e in es ==> Sound(e)
    ensures S.Serve(j.server, AllRequested(j, es)) == Run(j, es).server
    decreases |es|
  {
    if es != [] {
      StepRequests(j, es[0], AllRequested(Next(j, es[0]), es[1..]));
      RunServes(Next(j, es[0]), es[1..]);
    }
  }

  lemma {:induction false} RunTells(j: Joint, es: seq<Event>)
    requires Inv(j) && (forall e :: e in es ==> Sound(e)) && j.db.next + AllHandles(es) <= D.ROOT
    ensures Run(j, es).db == D.Run(j.db, AllTold(j, es))
    ensures D.NoneOrphans(j.db, AllTold(j, es)) && Inv(Run(j, es))
    decreases |es|
  {
    if es != [] {
      NextKeepsInv(j, es[0]);
      StepTells(j, es[0]);
      RunTells(Next(j, es[0]), es[1..]);
      RunConcat(j.db, Told(j, es[0]), AllTold(Next(j, es[0]), es[1..]));
    }
  }

  lemma {:induction false} ExitTells(s: D.Db, edits: seq<nat>, found: nat -> Found)
    requires D.Inv(s)
    ensures var r := AllCommitted(s, edits, found);
            && r == D.Run(s, ExitTold(edits, found)) && D.NoneOrphans(s, ExitTold(edits, found))
            && D.Inv(r) && r.objects.Keys == s.objects.Keys
    decreases |edits|
  {
    if edits != [] {
      var t := Committed(s, edits[0], found(edits[0]));
      var rest := ExitTold(edits[1..], found);
      CommitKeepsEntries(s, edits[0], found(edits[0]));
      ExitTells(t, edits[1..], found);
      assert ExitTold(edits, found)[1..] == rest;
    }
  }

  lemma {:induction false} ExitLogsNoSending(s: S.Server, i: nat)
    requires i <= |s.edits|
    ensures forall h, b :: S.Sent(h, b) in S.CommitAll(s, i).log <==> S.Sent(h, b) in s.log
    decreases |s.edits| - i
  {
    if i < |s.edits| {
      ExitLogsNoSending(S.Noted(S.Noted(s, S.Committed(s.edits[i])), S.Closed(s.edits[i])), i + 1);
    }
  }

  /** Server and database run together from the start up to and including the exit, with requests, device
      events and failures in any order: each makes a run of its own, the server on its requests and the database
      on what it is told, in which no failed end of sending orphans an entry, so the object tree keeps its
      parents; and an object whose sending was reported as failed is in the database no more. */
  lemma ServerKeepsTree(es: seq<Event>, found: nat -> Found)
    requires (forall e :: e in es ==> Sound(e)) && START.db.next + AllHandles(es) <= D.ROOT
    ensures var j := Run(START, es);
            var told := AllTold(START, es) + ExitTold(j.server.edits, found);
            && Exit(j, found).server == S.Run(AllRequested(START, es))
            && Exit(j, found).db == D.Run(START.db, told) && D.NoneOrphans(START.db, told)
            && Inv(j) && D.Inv(j.db) && D.Inv(Exit(j, found).db)
            && (forall h :: Failed(Exit(j, found), h) ==> h !in Exit(j, found).db.objects)
  {
    assert Inv(START);
    RunTells(START, es);
    RunServes(START, es);
    var j := Run(START, es);
    ExitTells(j.db, j.server.edits, found);
    RunConcat(START.db, AllTold(START, es), ExitTold(j.server.edits, found));
    ExitLogsNoSending(j.server, 0);
    forall h | Failed(Exit(j, found), h) ensures h !in Exit(j, found).db.objects {
      assert Failed(j, h);
    }
  }
}
