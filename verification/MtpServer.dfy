/** The MTP server's own state between requests: the session, the object announced for sending, and the
    objects open for editing. */
module MtpServer {
  import opened Basics

  const INVALID_HANDLE := 0xFFFF_FFFF

  datatype Response =
    | Ok
    | GeneralError
    | InvalidParameter
    | SessionAlreadyOpen
    | SessionNotOpen
    | NoValidObjectInfo
    | Cancelled
    | Refused(code: nat)

  /** What the database and the file descriptors get to see. `Announced` is a handle the database gave for
      an object to be sent, `Sent` the end of sending told by SendObject, `Committed` that told for an edit. */
  datatype Note =
    | SessionStarted
    | SessionEnded
    | Announced(handle: nat)
    | Sent(handle: nat, succeeded: bool)
    | Opened(handle: nat)
    | Committed(handle: nat)
    | Closed(handle: nat)

  datatype Server = Server(sessionOpen: bool, sessionId: nat, pending: nat, edits: seq<nat>, log: seq<Note>)

  /** Requests, with what the packet, the database and the file system answer. `refusal` is the first check
      of doSendObjectInfo that fails, if any; `found` the database's answer about the object. */
  datatype Request =
    | OpenSession(id: Option<nat>)
    | CloseSession
    | SendObjectInfo(refusal: Option<nat>, given: nat, folder: bool, made: bool)
    | SendObject(hasStorage: bool, header: bool, openable: bool, transfer: Transfer)
    | BeginEdit(handle: Option<nat>, found: Option<nat>, openable: bool)
    | EndEdit(handle: Option<nat>)
    | Anything(response: Response)

  datatype Transfer = Complete | Failed | Stopped

  const IDLE: Server := Server(false, 0, INVALID_HANDLE, [], [])

  function Noted(s: Server, n: Note): Server {
    s.(log := s.log + [n])
  }

  function DoOpenSession(s: Server, id: Option<nat>): (Server, Response) {
    if s.sessionOpen then (s, SessionAlreadyOpen)
    else if id.None? then (s, InvalidParameter)
    else (Noted(s.(sessionOpen := true, sessionId := id.value), SessionStarted), Ok)
  }

  function DoCloseSession(s: Server): (Server, Response) {
    if !s.sessionOpen then (s, SessionNotOpen)
    else (Noted(s.(sessionOpen := false, sessionId := 0), SessionEnded), Ok)
  }

  /** Only a file is left to be sent; a folder that cannot be made leaves its entry behind. */
  function DoSendObjectInfo(s: Server, r: Request): (Server, Response)
    requires r.SendObjectInfo?
  {
    if r.refusal.Some? then (s, Refused(r.refusal.value))
    else if r.given == INVALID_HANDLE then (s, GeneralError)
    else if r.folder then (s, if r.made then Ok else GeneralError)
    else (Noted(s.(pending := r.given), Announced(r.given)), Ok)
  }

  /** Without a storage the announced object stays announced; otherwise sending it is over, well or not. */
  function DoSendObject(s: Server, r: Request): (Server, Response)
    requires r.SendObject?
  {
    if !r.hasStorage then (s, GeneralError)
    else
      var result := if s.pending == INVALID_HANDLE then NoValidObjectInfo
                    else if !r.header || !r.openable then GeneralError
                    else match r.transfer
                         case Complete => Ok
                         case Failed => GeneralError
                         case Stopped => Cancelled;
      (Noted(s, Sent(s.pending, result == Ok)).(pending := INVALID_HANDLE), result)
  }

  function DoBeginEdit(s: Server, r: Request): (Server, Response)
    requires r.BeginEdit?
  {
    if r.handle.None? then (s, InvalidParameter)
    else if r.handle.value in s.edits then (s, GeneralError)
    else if r.found.Some? then (s, Refused(r.found.value))
    else if !r.openable then (s, GeneralError)
    else (Noted(s.(edits := s.edits + [r.handle.value]), Opened(r.handle.value)), Ok)
  }

  /** The list without the first edit of the handle. */
  function Without(edits: seq<nat>, i: nat, h: nat): seq<nat>
    requires i <= |edits|
    decreases |edits| - i
  {
    if i == |edits| then edits else if edits[i] == h then edits[..i] + edits[i + 1..] else Without(edits, i + 1, h)
  }

  function Finished(s: Server, h: nat): Server {
    Noted(Noted(s, Committed(h)), Closed(h)).(edits := Without(s.edits, 0, h))
  }

  function DoEndEdit(s: Server, h: Option<nat>): (Server, Response) {
    if h.None? then (s, InvalidParameter)
    else if h.value !in s.edits then (s, GeneralError)
    else (Finished(s, h.value), Ok)
  }

  function Perform(s: Server, r: Request): (Server, Response) {
    match r
    case OpenSession(id) => DoOpenSession(s, id)
    case CloseSession => DoCloseSession(s)
    case SendObjectInfo(_, _, _, _) => DoSendObjectInfo(s, r)
    case SendObject(_, _, _, _) => DoSendObject(s, r)
    case BeginEdit(_, _, _) => DoBeginEdit(s, r)
    case EndEdit(h) => DoEndEdit(s, h)
    case Anything(response) => (s, response)
  }

  /** An announced object is forgotten when anything but SendObject comes, a packet of the wrong kind
      included. The result says whether a response is due. */
  function Handle(s: Server, r: Request, command: bool): (Server, bool) {
    var t := if s.pending != INVALID_HANDLE && !r.SendObject? then s.(pending := INVALID_HANDLE) else s;
    if !command then (t, false)
    else var (u, response) := Perform(t, r); (u, response != Cancelled)
  }

  /** How an exchange with the driver goes: a cancelled one starts the loop over, a broken one ends it. */
  datatype Exchange = Done | Aborted | Broken

  /** One time round the loop: reading the request and its data, and writing the answer. */
  datatype Turn = Turn(reading: Exchange, request: Request, command: bool, writing: Exchange)

  /** The state after a turn, and whether the loop goes on. */
  function Step(s: Server, t: Turn): (Server, bool) {
    if t.reading != Done then (s, t.reading == Aborted)
    else
      var (u, due) := Handle(s, t.request, t.command);
      (u, !due || t.writing != Broken)
  }

  function Serve(s: Server, turns: seq<Turn>): Server
    decreases |turns|
  {
    if turns == [] then s
    else var (t, more) := Step(s, turns[0]); if more then Serve(t, turns[1..]) else t
  }

  /** The exit path: open edits are committed and closed, in order, and an open session ends. */
  function CommitAll(s: Server, i: nat): Server
    requires i <= |s.edits|
    decreases |s.edits| - i
  {
    if i == |s.edits| then s
    else CommitAll(Noted(Noted(s, Committed(s.edits[i])), Closed(s.edits[i])), i + 1)
  }

  function Exit(s: Server): Server {
    var t := CommitAll(s, 0).(edits := []);
    if s.sessionOpen then Noted(t, SessionEnded) else t
  }

  function Run(turns: seq<Turn>): Server {
    Exit(Serve(IDLE, turns))
  }

  /** The life of one handle's edit as the log tells it: opened, committed, closed, in that order. */
  datatype Phase = Idle | Editing | Saved | Wrong

  function EditPhase(log: seq<Note>, h: nat): Phase {
    if log == [] then Idle
    else EditStep(EditPhase(log[..|log| - 1], h), log[|log| - 1], h)
  }

  function EditStep(p: Phase, n: Note, h: nat): Phase {
    match n
    case Opened(k) => if k != h then p else if p == Idle then Editing else Wrong
    case Committed(k) => if k != h then p else if p == Editing then Saved else Wrong
    case Closed(k) => if k != h then p else if p == Saved then Idle else Wrong
    case _ => p
  }

  /** Whether a session is on; None once a session was started twice or ended without one. */
  function SessionOn(log: seq<Note>): Option<bool> {
    if log == [] then Some(false) else SessionStep(SessionOn(log[..|log| - 1]), log[|log| - 1])
  }

  function SessionStep(on: Option<bool>, n: Note): Option<bool> {
    if n.SessionStarted? then if on == Some(false) then Some(true) else None
    else if n.SessionEnded? then if on == Some(true) then Some(false) else None
    else on
  }

  /** The handle last announced and not reported since; None once a handle was reported that was not it. */
  function Outstanding(log: seq<Note>): Option<nat> {
    if log == [] then Some(INVALID_HANDLE) else SendStep(Outstanding(log[..|log| - 1]), log[|log| - 1])
  }

  function SendStep(o: Option<nat>, n: Note): Option<nat> {
    if o.None? then None
    else
      match n
      case Announced(h) => Some(h)
      case Sent(h, _) => if h == o.value then Some(INVALID_HANDLE) else if h == INVALID_HANDLE then o else None
      case _ => o
  }

  ghost predicate Inv(s: Server) {
    && (forall i, j :: 0 <= i < j < |s.edits| ==> s.edits[i] != s.edits[j])
    && (forall h :: EditPhase(s.log, h) == if h in s.edits then Editing else Idle)
    && SessionOn(s.log) == Some(s.sessionOpen)
    && Outstanding(s.log).Some? && (s.pending != INVALID_HANDLE ==> Outstanding(s.log) == Some(s.pending))
  }

  lemma LogAppend(log: seq<Note>, n: Note)
    ensures forall h :: EditPhase(log + [n], h) == EditStep(EditPhase(log, h), n, h)
    ensures SessionOn(log + [n]) == SessionStep(SessionOn(log), n)
    ensures Outstanding(log + [n]) == SendStep(Outstanding(log), n)
  {
    assert (log + [n])[..|log|] == log;
  }

  lemma {:induction false} WithoutRemoves(edits: seq<nat>, i: nat, h: nat)
    requires forall a, b :: 0 <= a < b < |edits| ==> edits[a] != edits[b]
    requires i <= |edits| && forall a :: 0 <= a < i ==> edits[a] != h
    ensures var r := Without(edits, i, h);
            && (forall a, b :: 0 <= a < b < |r| ==> r[a] != r[b])
            && (forall k :: k in r <==> k in edits && k != h)
    decreases |edits| - i
  {
    if i < |edits| {
      if edits[i] == h {
        CutRemoves(edits, i);
      } else {
        WithoutRemoves(edits, i + 1, h);
      }
    }
  }

  lemma CutRemoves(edits: seq<nat>, i: nat)
    requires forall a, b :: 0 <= a < b < |edits| ==> edits[a] != edits[b]
    requires i < |edits|
    ensures var r := edits[..i] + edits[i + 1..];
            && (forall a, b :: 0 <= a < b < |r| ==> r[a] != r[b])
            && (forall k :: k in r <==> k in edits && k != edits[i])
  {
    SplitAt(edits, i);
    var r := edits[..i] + edits[i + 1..];
    forall k ensures k in r <==> k in edits && k != edits[i] {
      if k in edits && k != edits[i] {
        var j :| 0 <= j < |edits| && edits[j] == k;
        assert r[if j < i then j else j - 1] == k;
      }
    }
  }

  lemma FinishedKeepsInv(s: Server, h: nat)
    requires Inv(s) && h in s.edits
    ensures Inv(Finished(s, h))
  {
    LogAppend(s.log, Committed(h));
    LogAppend(s.log + [Committed(h)], Closed(h));
    WithoutRemoves(s.edits, 0, h);
  }

  lemma PerformKeepsInv(s: Server, r: Request)
    requires Inv(s) && (s.pending == INVALID_HANDLE || r.SendObject?)
    ensures Inv(Perform(s, r).0)
  {
    match r
    case OpenSession(id) => LogAppend(s.log, SessionStarted);
    case CloseSession => LogAppend(s.log, SessionEnded);
    case SendObjectInfo(_, h, _, _) => AnnouncedKeepsInv(s, h);
    case SendObject(_, _, _, _) =>
      SentKeepsInv(s, true);
      SentKeepsInv(s, false);
    case BeginEdit(h, _, _) => if h.Some? { OpenedKeepsInv(s, h.value); }
    case EndEdit(h) => if h.Some? && h.value in s.edits { FinishedKeepsInv(s, h.value); }
    case Anything(_) =>
  }

  lemma AnnouncedKeepsInv(s: Server, h: nat)
    requires Inv(s)
    ensures Inv(Noted(s.(pending := h), Announced(h)))
  {
    LogAppend(s.log, Announced(h));
  }

  lemma SentKeepsInv(s: Server, succeeded: bool)
    requires Inv(s)
    ensures Inv(Noted(s, Sent(s.pending, succeeded)).(pending := INVALID_HANDLE))
  {
    LogAppend(s.log, Sent(s.pending, succeeded));
  }

  lemma OpenedKeepsInv(s: Server, h: nat)
    requires Inv(s)
    ensures h !in s.edits ==> Inv(Noted(s.(edits := s.edits + [h]), Opened(h)))
  {
    LogAppend(s.log, Opened(h));
  }

  lemma {:induction false} ServeKeepsInv(s: Server, turns: seq<Turn>)
    requires Inv(s)
    ensures Inv(Serve(s, turns))
    decreases |turns|
  {
    if turns != [] {
      var t := turns[0];
      if t.reading == Done && t.command {
        var u := if s.pending != INVALID_HANDLE && !t.request.SendObject? then s.(pending := INVALID_HANDLE) else s;
        PerformKeepsInv(u, t.request);
      }
      assert Inv(Step(s, t).0);
      ServeKeepsInv(Step(s, t).0, turns[1..]);
    }
  }

  /** Committing the edits from the i-th on. */
  lemma {:induction false} CommitAllCloses(s: Server, i: nat)
    requires i <= |s.edits| && forall a, b :: 0 <= a < b < |s.edits| ==> s.edits[a] != s.edits[b]
    requires forall h :: EditPhase(s.log, h) == if h in s.edits[i..] then Editing else Idle
    ensures var r := CommitAll(s, i);
            && (forall h :: EditPhase(r.log, h) == Idle)
            && SessionOn(r.log) == SessionOn(s.log) && Outstanding(r.log) == Outstanding(s.log)
            && r.sessionOpen == s.sessionOpen
    decreases |s.edits| - i
  {
    if i < |s.edits| {
      var h := s.edits[i];
      var t := Noted(Noted(s, Committed(h)), Closed(h));
      LogAppend(s.log, Committed(h));
      LogAppend(s.log + [Committed(h)], Closed(h));
      forall k ensures EditPhase(t.log, k) == if k in t.edits[i + 1..] then Editing else Idle {
        TailMembers(s.edits, i, k);
      }
      CommitAllCloses(t, i + 1);
    }
  }

  lemma TailMembers(edits: seq<nat>, i: nat, k: nat)
    requires i < |edits| && forall a, b :: 0 <= a < b < |edits| ==> edits[a] != edits[b]
    ensures k in edits[i..] <==> k == edits[i] || k in edits[i + 1..]
    ensures edits[i] in edits[i..] && edits[i] !in edits[i + 1..]
  {
    assert edits[i..] == [edits[i]] + edits[i + 1..];
  }

  /** Over every run, whatever fails in it: each successful BeginEdit is followed by exactly one commit and
      then one close, at the latest on exit, and no handle is open twice; sessions start and end in turn and
      none is left on; and SendObject reports a handle only if it is the one last announced and not yet
      reported. */
  lemma RunsBalance(turns: seq<Turn>)
    ensures var log := Run(turns).log;
            && (forall h :: EditPhase(log, h) == Idle)
            && SessionOn(log) == Some(false)
            && Outstanding(log).Some?
            && Run(turns).edits == []
  {
    assert Inv(IDLE);
    ServeKeepsInv(IDLE, turns);
    var s := Serve(IDLE, turns);
    assert s.edits[0..] == s.edits;
    CommitAllCloses(s, 0);
    LogAppend(CommitAll(s, 0).log, SessionEnded);
  }

  /** While it runs, an edit is open exactly for the handles opened and not yet committed. */
  lemma EditsAreThoseOpen(turns: seq<Turn>, h: nat)
    ensures var s := Serve(IDLE, turns);
            && (h in s.edits <==> EditPhase(s.log, h) == Editing)
            && (forall i, j :: 0 <= i < j < |s.edits| ==> s.edits[i] != s.edits[j])
            && SessionOn(s.log) == Some(s.sessionOpen)
  {
    assert Inv(IDLE);
    ServeKeepsInv(IDLE, turns);
  }

  function Announcements(log: seq<Note>, h: nat): nat {
    if log == [] then 0
    else Announcements(log[..|log| - 1], h) + if log[|log| - 1] == Announced(h) then 1 else 0
  }

  function Reports(log: seq<Note>, h: nat): nat {
    if log == [] then 0
    else
      var n := log[|log| - 1];
      Reports(log[..|log| - 1], h) + if n.Sent? && n.handle == h then 1 else 0
  }

  /** In any log in which only outstanding handles are reported, a handle is reported at most as often as it
      was announced, and less often while it is outstanding. */
  lemma {:induction false} ReportsBounded(log: seq<Note>, h: nat)
    requires Outstanding(log).Some? && h != INVALID_HANDLE
    ensures Reports(log, h) + (if Outstanding(log) == Some(h) then 1 else 0) <= Announcements(log, h)
  {
    if log != [] { ReportsBounded(log[..|log| - 1], h); }
  }

  lemma EachAnnouncementReportedOnce(turns: seq<Turn>, h: nat)
    requires h != INVALID_HANDLE
    ensures Reports(Run(turns).log, h) <= Announcements(Run(turns).log, h)
  {
    RunsBalance(turns);
    ReportsBounded(Run(turns).log, h);
  }

  /** What an announced object comes to: SendObject reports it just when the server has a storage; any other
      request forgets it unreported. */
  lemma PendingFate(s: Server, t: Turn)
    requires s.pending != INVALID_HANDLE && t.reading == Done && t.command
    ensures var u := Step(s, t).0;
            && (t.request.SendObject? && t.request.hasStorage ==>
                  u.pending == INVALID_HANDLE && |u.log| == |s.log| + 1
                  && u.log[|s.log|].Sent? && u.log[|s.log|].handle == s.pending)
            && (t.request.SendObject? && !t.request.hasStorage ==> u == s)
            && (!t.request.SendObject? ==> forall b :: Sent(s.pending, b) !in u.log[|s.log|..])
            && (u.pending == s.pending && !(t.request.SendObject? && !t.request.hasStorage) ==>
                t.request.SendObjectInfo?)
  {
  }

  /** How often the handle was announced and then forgotten for a request that is not SendObject. */
  function Forgotten(s: Server, turns: seq<Turn>, h: nat): nat
    decreases |turns|
  {
    if turns == [] then 0
    else
      var (t, more) := Step(s, turns[0]);
      Forgets(s, turns[0], h) + if more then Forgotten(t, turns[1..], h) else 0
  }

  function Forgets(s: Server, t: Turn, h: nat): nat {
    if t.reading == Done && !t.request.SendObject? && s.pending == h then 1 else 0
  }

  function Pends(s: Server, h: nat): nat {
    if s.pending == h then 1 else 0
  }

  lemma CountsAppend(log: seq<Note>, n: Note, h: nat)
    ensures Announcements(log + [n], h) == Announcements(log, h) + if n == Announced(h) then 1 else 0
    ensures Reports(log + [n], h) == Reports(log, h) + if n.Sent? && n.handle == h then 1 else 0
  {
    assert (log + [n])[..|log|] == log;
  }

  /** What the log and the announced object say of a handle: announced, and neither reported nor pending. */
  function Unaccounted(s: Server, h: nat): int {
    Balance(s.log, h) - Pends(s, h)
  }

  function Balance(log: seq<Note>, h: nat): int {
    Announcements(log, h) - Reports(log, h)
  }

  predicate Neutral(n: Note) {
    !n.Announced? && !n.Sent?
  }

  lemma NeutralKeeps(log: seq<Note>, n: Note, h: nat)
    requires Neutral(n)
    ensures Balance(log + [n], h) == Balance(log, h)
  {
    CountsAppend(log, n, h);
  }

  lemma AnnouncedAccounts(s: Server, r: Request, h: nat)
    requires r.SendObjectInfo? && h != INVALID_HANDLE && s.pending == INVALID_HANDLE
    ensures Unaccounted(DoSendObjectInfo(s, r).0, h) == Unaccounted(s, h)
  {
    CountsAppend(s.log, Announced(r.given), h);
  }

  lemma SentAccounts(s: Server, r: Request, h: nat)
    requires r.SendObject? && h != INVALID_HANDLE
    ensures Unaccounted(DoSendObject(s, r).0, h) == Unaccounted(s, h)
  {
    CountsAppend(s.log, Sent(s.pending, DoSendObject(s, r).1 == Ok), h);
  }

  lemma FinishedAccounts(s: Server, k: nat, h: nat)
    ensures Unaccounted(Finished(s, k), h) == Unaccounted(s, h)
  {
    NeutralKeeps(s.log, Committed(k), h);
    NeutralKeeps(s.log + [Committed(k)], Closed(k), h);
  }

  lemma SessionAccounts(s: Server, r: Request, h: nat)
    requires r.OpenSession? || r.CloseSession?
    ensures Unaccounted(Perform(s, r).0, h) == Unaccounted(s, h)
  {
    NeutralKeeps(s.log, SessionStarted, h);
    NeutralKeeps(s.log, SessionEnded, h);
  }

  lemma EditAccounts(s: Server, r: Request, h: nat)
    requires r.BeginEdit? || r.EndEdit?
    ensures Unaccounted(Perform(s, r).0, h) == Unaccounted(s, h)
  {
    if r.handle.Some? {
      NeutralKeeps(s.log, Opened(r.handle.value), h);
      FinishedAccounts(s, r.handle.value, h);
    }
  }

  lemma PerformAccounts(s: Server, r: Request, h: nat)
    requires h != INVALID_HANDLE && (s.pending == INVALID_HANDLE || r.SendObject?)
    ensures Unaccounted(Perform(s, r).0, h) == Unaccounted(s, h)
  {
    match r
    case SendObjectInfo(_, _, _, _) => AnnouncedAccounts(s, r, h);
    case SendObject(_, _, _, _) => SentAccounts(s, r, h);
    case BeginEdit(_, _, _) => EditAccounts(s, r, h);
    case EndEdit(_) => EditAccounts(s, r, h);
    case Anything(_) =>
    case _ => SessionAccounts(s, r, h);
  }

  lemma StepAccounts(s: Server, t: Turn, h: nat)
    requires h != INVALID_HANDLE
    ensures Unaccounted(Step(s, t).0, h) == Unaccounted(s, h) + Forgets(s, t, h)
  {
    if t.reading == Done {
      var u := if s.pending != INVALID_HANDLE && !t.request.SendObject? then s.(pending := INVALID_HANDLE) else s;
      PerformAccounts(u, t.request, h);
    }
  }

  lemma {:induction false} ServeAccounts(s: Server, turns: seq<Turn>, h: nat)
    requires h != INVALID_HANDLE
    ensures Unaccounted(Serve(s, turns), h) == Unaccounted(s, h) + Forgotten(s, turns, h)
    decreases |turns|
  {
    if turns != [] {
      StepAccounts(s, turns[0], h);
      ServeAccounts(Step(s, turns[0]).0, turns[1..], h);
    }
  }

  lemma {:induction false} CommitAccounts(s: Server, i: nat, h: nat)
    requires i <= |s.edits|
    ensures Balance(CommitAll(s, i).log, h) == Balance(s.log, h)
    decreases |s.edits| - i
  {
    if i < |s.edits| {
      var k := s.edits[i];
      NeutralKeeps(s.log, Committed(k), h);
      NeutralKeeps(s.log + [Committed(k)], Closed(k), h);
      CommitAccounts(Noted(Noted(s, Committed(k)), Closed(k)), i + 1, h);
    }
  }

  /** Over every run up to exit each announcement of a handle comes to exactly one end: SendObject reported
      it, another request made the server forget it, or it was still pending when the loop ended. */
  lemma AnnouncementsAccounted(turns: seq<Turn>, h: nat)
    requires h != INVALID_HANDLE
    ensures var log := Run(turns).log;
            Announcements(log, h)
            == Reports(log, h) + Forgotten(IDLE, turns, h) + Pends(Serve(IDLE, turns), h)
  {
    var s := Serve(IDLE, turns);
    ServeAccounts(IDLE, turns, h);
    CommitAccounts(s, 0, h);
    NeutralKeeps(CommitAll(s, 0).log, SessionEnded, h);
  }

  /** An object is announced, sent while there is no storage, and still announced. */
  lemma NoStorageKeepsPending()
    ensures var info := Turn(Done, SendObjectInfo(None, 5, false, true), true, Done);
            var send := Turn(Done, SendObject(false, true, true, Complete), true, Done);
            Serve(IDLE, [info, send]).pending == 5
  {
    var info := Turn(Done, SendObjectInfo(None, 5, false, true), true, Done);
    var send := Turn(Done, SendObject(false, true, true, Complete), true, Done);
    var s := Step(IDLE, info).0;
    PendingFate(s, send);
    assert [info, send][1..] == [send] && [send][1..] == [];
    assert Serve(IDLE, [info, send]) == Serve(s, [send]) == Serve(Step(s, send).0, []);
  }

  // ---- What the answers tell ---------------------------------------------------------------------------

  /** With a storage the end of a sending is told once, of the announced object, and as a success exactly when
      there is one, its header was read, its file opened and the transfer complete; the answer says the same. */
  lemma SentTellsTheTruth(s: Server, r: Request)
    requires r.SendObject?
    ensures var (u, response) := DoSendObject(s, r);
            var begun := s.pending != INVALID_HANDLE && r.header && r.openable;
            && (r.hasStorage ==>
                  u == s.(log := s.log + [Sent(s.pending, begun && r.transfer == Complete)], pending := INVALID_HANDLE))
            && (!r.hasStorage ==> u == s)
            && response == if !r.hasStorage then GeneralError else if s.pending == INVALID_HANDLE then NoValidObjectInfo
                           else if !begun || r.transfer == Failed then GeneralError
                           else if r.transfer == Stopped then Cancelled else Ok
  {
  }

  /** A file is announced, and nothing else, exactly when the answer to SendObjectInfo is a success for a file. */
  lemma InfoAnnounces(s: Server, r: Request)
    requires r.SendObjectInfo? && s.pending == INVALID_HANDLE
    ensures var (u, response) := DoSendObjectInfo(s, r);
            && (response == Ok <==> r.refusal.None? && r.given != INVALID_HANDLE && (r.folder ==> r.made))
            && (response != Ok ==> response == if r.refusal.Some? then Refused(r.refusal.value) else GeneralError)
            && u == if response == Ok && !r.folder then Noted(s.(pending := r.given), Announced(r.given)) else s
  {
  }

  /** The answer, and the server after it, as the log of what happened before tells: a session is opened when none
      is on and closed when one is, an edit begins when the handle has none, and ends when it has. */
  lemma AnswersTellHistory(s: Server, r: Request)
    requires Inv(s)
    ensures var (u, response) := Perform(s, r);
            var on := SessionOn(s.log) == Some(true);
            match r
            case OpenSession(id) =>
              && response == (if on then SessionAlreadyOpen else if id.None? then InvalidParameter else Ok)
              && (response == Ok ==> SessionOn(u.log) == Some(true) && u.sessionId == id.value)
              && (response != Ok ==> u == s)
            case CloseSession =>
              && response == (if on then Ok else SessionNotOpen)
              && (response == Ok ==> SessionOn(u.log) == Some(false) && u.sessionId == 0)
              && (response != Ok ==> u == s)
            case BeginEdit(h, found, openable) =>
              && response == (if h.None? then InvalidParameter
                              else if EditPhase(s.log, h.value) != Idle then GeneralError
                              else if found.Some? then Refused(found.value) else if !openable then GeneralError else Ok)
              && (response == Ok ==> EditPhase(u.log, h.value) == Editing) && (response != Ok ==> u == s)
            case EndEdit(h) =>
              && response == (if h.None? then InvalidParameter
                              else if EditPhase(s.log, h.value) != Editing then GeneralError else Ok)
              && (response == Ok ==> EditPhase(u.log, h.value) == Idle) && (response != Ok ==> u == s)
            case Anything(answer) => u == s && response == answer
            case _ => true
  {
    match r
    case OpenSession(id) => LogAppend(s.log, SessionStarted);
    case CloseSession => LogAppend(s.log, SessionEnded);
    case BeginEdit(h, _, _) => if h.Some? { LogAppend(s.log, Opened(h.value)); }
    case EndEdit(h) =>
      if h.Some? && h.value in s.edits {
        FinishedKeepsInv(s, h.value);
        WithoutRemoves(s.edits, 0, h.value);
      }
    case _ =>
  }

  /** Every request of the turns handled, one after the other. */
  function HandleAll(s: Server, turns: seq<Turn>): Server
    decreases |turns|
  {
    if turns == [] then s
    else if turns[0].reading != Done then HandleAll(s, turns[1..])
    else HandleAll(Handle(s, turns[0].request, turns[0].command).0, turns[1..])
  }

  predicate Unbroken(t: Turn) {
    t.reading != Broken && t.writing != Broken
  }

  /** The loop handles every request until an exchange breaks: a broken reading ends it before the request. */
  lemma {:induction false} ServesUntilBroken(s: Server, turns: seq<Turn>, rest: seq<Turn>)
    requires (forall t :: t in turns ==> Unbroken(t)) && (rest != [] ==> rest[0].reading == Broken)
    ensures Serve(s, turns + rest) == HandleAll(s, turns)
    decreases |turns|
  {
    if turns == [] {
      assert turns + rest == rest;
    } else {
      assert (turns + rest)[0] == turns[0] && (turns + rest)[1..] == turns[1..] + rest;
      assert turns[0] in turns && Unbroken(turns[0]) && Step(s, turns[0]).1;
      assert Serve(s, turns + rest) == Serve(Step(s, turns[0]).0, turns[1..] + rest);
      ServesUntilBroken(Step(s, turns[0]).0, turns[1..], rest);
    }
  }

  /** A broken writing ends it after the request, if an answer to it was to be written: to every command but a
      cancelled one. */
  lemma BrokenAnswerEnds(s: Server, t: Turn, rest: seq<Turn>)
    requires t.reading == Done && t.writing == Broken
    ensures var u := Handle(s, t.request, t.command).0;
            var cancelled := t.request.SendObject? && t.request.hasStorage && s.pending != INVALID_HANDLE
                             && t.request.header && t.request.openable && t.request.transfer == Stopped;
            t.request.Anything? ||
            Serve(s, [t] + rest) == if t.command && !cancelled then u else Serve(u, rest)
  {
    assert ([t] + rest)[1..] == rest;
  }

  class ObjectEdit {
    const handle: nat

    constructor (h: nat)
      ensures handle == h
    {
      handle := h;
    }
  }

  /** The server object. `log` is only there for the proofs. */
  class RequestServer {
    var sessionOpen: bool
    var sessionId: nat
    var sendObjectHandle: nat
    var objectEditList: seq<ObjectEdit>
    ghost var log: seq<Note>

    ghost function View(): Server
      reads this
    {
      Server(sessionOpen, sessionId, sendObjectHandle, Handles(objectEditList), log)
    }

    ghost function Handles(list: seq<ObjectEdit>): (hs: seq<nat>)
      ensures |hs| == |list|
    {
      seq(|list|, i requires 0 <= i < |list| => list[i].handle)
    }

    constructor ()
      ensures View() == IDLE
    {
      sessionOpen, sessionId, sendObjectHandle, objectEditList, log := false, 0, INVALID_HANDLE, [], [];
    }

    method GetEditObject(handle: nat) returns (edit: ObjectEdit?)
      ensures edit != null <==> handle in View().edits
      ensures edit != null ==> edit.handle == handle
    {
      for i := 0 to |objectEditList|
        invariant forall k :: 0 <= k < i ==> View().edits[k] != handle
      {
        if objectEditList[i].handle == handle {
          assert View().edits[i] == handle;
          return objectEditList[i];
        }
      }
      edit := null;
    }

    method AddEditObject(handle: nat)
      modifies this
      ensures View() == Noted(old(View()).(edits := old(View()).edits + [handle]), Opened(handle))
    {
      var edit := new ObjectEdit(handle);
      objectEditList := objectEditList + [edit];
      log := log + [Opened(handle)];
      assert View().edits == old(View()).edits + [handle];
    }

    method CommitEdit(edit: ObjectEdit)
      modifies `log
      ensures View() == Noted(old(View()), Committed(edit.handle))
    {
      log := log + [Committed(edit.handle)];
    }

    /** Deleting the edit closes its file. */
    method RemoveEditObject(handle: nat)
      requires handle in View().edits
      modifies this
      ensures View() == Noted(old(View()).(edits := Without(old(View()).edits, 0, handle)), Closed(handle))
    {
      ghost var hs := View().edits;
      var i := 0;
      while i < |objectEditList|
        invariant i <= |objectEditList| && Without(hs, i, handle) == Without(hs, 0, handle)
        invariant forall k :: 0 <= k < i ==> hs[k] != handle
      {
        if objectEditList[i].handle == handle {
          log := log + [Closed(handle)];
          objectEditList := objectEditList[..i] + objectEditList[i + 1..];
          assert Handles(objectEditList) == hs[..i] + hs[i + 1..];
          return;
        }
        i := i + 1;
      }
      assert false;
    }

    method OpenSession(id: Option<nat>) returns (response: Response)
      modifies this
      ensures (View(), response) == DoOpenSession(old(View()), id)
    {
      if sessionOpen {
        return SessionAlreadyOpen;
      }
      if id.None? {
        return InvalidParameter;
      }
      sessionId := id.value;
      sessionOpen := true;
      log := log + [SessionStarted];
      response := Ok;
    }

    method CloseSession() returns (response: Response)
      modifies this
      ensures (View(), response) == DoCloseSession(old(View()))
    {
      if !sessionOpen {
        return SessionNotOpen;
      }
      sessionId := 0;
      sessionOpen := false;
      log := log + [SessionEnded];
      response := Ok;
    }

    method SendObjectInfo(refusal: Option<nat>, handle: nat, folder: bool, made: bool) returns (response: Response)
      modifies this
      ensures (View(), response) == DoSendObjectInfo(old(View()), Request.SendObjectInfo(refusal, handle, folder, made))
    {
      if refusal.Some? {
        return Refused(refusal.value);
      }
      if handle == INVALID_HANDLE {
        return GeneralError;
      }
      if folder {
        if !made {
          return GeneralError;
        }
      } else {
        sendObjectHandle := handle;
        log := log + [Announced(handle)];
      }
      response := Ok;
    }

    method SendObject(hasStorage: bool, header: bool, openable: bool, transfer: Transfer) returns (result: Response)
      modifies this
      ensures (View(), result) == DoSendObject(old(View()), Request.SendObject(hasStorage, header, openable, transfer))
    {
      if !hasStorage {
        return GeneralError;
      }
      if sendObjectHandle == INVALID_HANDLE {
        result := NoValidObjectInfo;
      } else if !header {
        result := GeneralError;
      } else if !openable {
        result := GeneralError;
      } else {
        match transfer {
          case Complete => result := Ok;
          case Failed => result := GeneralError;
          case Stopped => result := Cancelled;
        }
      }
      log := log + [Sent(sendObjectHandle, result == Ok)];
      sendObjectHandle := INVALID_HANDLE;
    }

    method BeginEdit(handle: Option<nat>, found: Option<nat>, openable: bool) returns (response: Response)
      modifies this
      ensures (View(), response) == DoBeginEdit(old(View()), Request.BeginEdit(handle, found, openable))
    {
      if handle.None? {
        return InvalidParameter;
      }
      var edit := GetEditObject(handle.value);
      if edit != null {
        return GeneralError;
      }
      if found.Some? {
        return Refused(found.value);
      }
      if !openable {
        return GeneralError;
      }
      AddEditObject(handle.value);
      response := Ok;
    }

    method EndEdit(handle: Option<nat>) returns (response: Response)
      modifies this
      ensures (View(), response) == DoEndEdit(old(View()), handle)
    {
      if handle.None? {
        return InvalidParameter;
      }
      var edit := GetEditObject(handle.value);
      if edit == null {
        return GeneralError;
      }
      CommitEdit(edit);
      RemoveEditObject(handle.value);
      response := Ok;
    }

    method HandleRequest(request: Request, command: bool) returns (due: bool)
      modifies this
      ensures (View(), due) == Handle(old(View()), request, command)
    {
      if sendObjectHandle != INVALID_HANDLE && !request.SendObject? {
        sendObjectHandle := INVALID_HANDLE;
      }
      if !command {
        return false;
      }
      var response;
      match request {
        case OpenSession(id) => response := OpenSession(id);
        case CloseSession => response := CloseSession();
        case SendObjectInfo(refusal, given, folder, made) => response := SendObjectInfo(refusal, given, folder, made);
        case SendObject(hasStorage, header, openable, transfer) =>
          response := SendObject(hasStorage, header, openable, transfer);
        case BeginEdit(handle, found, openable) => response := BeginEdit(handle, found, openable);
        case EndEdit(handle) => response := EndEdit(handle);
        case Anything(r) => response := r;
      }
      due := response != Cancelled;
    }

    /** The loop, until an exchange breaks or the server is stopped. */
    method ServeRequests(turns: seq<Turn>)
      modifies this
      ensures View() == Serve(old(View()), turns)
    {
      ghost var goal := Serve(View(), turns);
      var rest := turns;
      while |rest| > 0
        invariant Serve(View(), rest) == goal
        decreases |rest|
      {
        var turn := rest[0];
        rest := rest[1..];
        if turn.reading == Aborted {
          continue;
        }
        if turn.reading == Broken {
          break;
        }
        var due := HandleRequest(turn.request, turn.command);
        if due && turn.writing == Broken {
          break;
        }
      }
    }

    /** Commits and closes what is still open, and ends an open session. */
    method CommitOpenEdits()
      modifies this
      ensures View() == CommitAll(old(View()), 0).(edits := [])
    {
      ghost var goal := CommitAll(View(), 0);
      var count := |objectEditList|;
      for i := 0 to count
        invariant count == |objectEditList| && CommitAll(View(), i) == goal
      {
        var edit := objectEditList[i];
        CommitEdit(edit);
        log := log + [Closed(edit.handle)];
      }
      objectEditList := [];
    }

    method RunLoop(turns: seq<Turn>)
      requires View() == IDLE
      modifies this
      ensures log == Run(turns).log && objectEditList == []
    {
      ServeRequests(turns);
      CommitOpenEdits();
      if sessionOpen {
        log := log + [SessionEnded];
      }
      CommitKeepsSession(Serve(IDLE, turns), 0);
    }
  }

  lemma {:induction false} CommitKeepsSession(s: Server, i: nat)
    requires i <= |s.edits|
    ensures CommitAll(s, i).sessionOpen == s.sessionOpen
    decreases |s.edits| - i
  {
    if i < |s.edits| {
      CommitKeepsSession(Noted(Noted(s, Committed(s.edits[i])), Closed(s.edits[i])), i + 1);
    }
  }
}
