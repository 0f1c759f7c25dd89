/** One thread's side of the binder protocol: incoming transactions are executed while the thread waits for
    its own replies, to any depth, and every level puts back the caller identity it found. */
module IpcThread {
  import opened Basics

  const UNKNOWN_ERROR: int := -0x8000_0000
  const FAILED_TRANSACTION: int := UNKNOWN_ERROR + 2
  const DEAD_OBJECT: int := -32
  const UNKNOWN_TRANSACTION: int := -74
  const BAD_VALUE: int := -22
  const BAD_FD: int := -9
  const TIMED_OUT: int := -110
  const TF_ONE_WAY: bv32 := 1

  /** Process and user of the caller, both 32 bits wide, the strict-mode policy, and the flags of the
      transaction being handled. */
  datatype Identity = Identity(pid: bv32, uid: bv32, policy: int, flags: bv32)

  /** What code run on the thread can do to it. `Ask` is a look at the identity; `sound` is the error check of
      the parcel to be sent. */
  datatype Act =
    | Ask
    | Clear
    | Restore(token: bv64)
    | SetPolicy(policy: int)
    | SetFlags(flags: bv32)
    | Call(oneWay: bool, sound: bool)

  /** What the driver hands to the thread. A transaction comes with what its handler will do and return; a
      death notice with what the recipients will do; a fault is a failing exchange with the driver. `Plain`
      is any command that only yields a result. */
  datatype Command =
    | Plain(result: int)
    | Transaction(id: nat, pid: bv32, uid: bv32, flags: bv32, alive: bool, body: seq<Act>, error: int)
    | DeadBinder(body: seq<Act>)
    | Complete
    | DeadReply
    | FailedReply
    | AcquireResult
    | Reply(status: int)
    | Fault(error: int)

  /** Two-way transactions taken, replies written, calls written, and what code that asked was told. */
  datatype Step = Took(id: nat) | Answered(id: nat, status: int) | Sent(oneWay: bool) | Told(identity: Identity)

  datatype Thread = Thread(
    input: seq<Command>, identity: Identity, lastError: int, log: seq<Step>, pid: bv32, uid: bv32)

  predicate OneWay(c: Command)
    requires c.Transaction?
  {
    c.flags & TF_ONE_WAY != 0
  }

  /** The user in the upper half, or-ed with the sign-extended process id. */
  function Token(pid: bv32, uid: bv32): bv64 {
    ((uid as bv64) << 32) | SignExtend(pid)
  }

  function SignExtend(v: bv32): bv64 {
    if v & 0x8000_0000 == 0 then v as bv64 else (v as bv64) | 0xFFFF_FFFF_0000_0000
  }

  function TokenUid(token: bv64): bv32 {
    (token >> 32) as bv32
  }

  function TokenPid(token: bv64): bv32 {
    (token & 0xFFFF_FFFF) as bv32
  }

  function LocalAct(a: Act, i: Identity, pid: bv32, uid: bv32): Identity {
    match a
    case Clear => i.(pid := pid, uid := uid)
    case Restore(token) => i.(pid := TokenPid(token), uid := TokenUid(token))
    case SetPolicy(p) => i.(policy := p)
    case SetFlags(f) => i.(flags := f)
    case _ => i
  }

  /** What the acts alone make of an identity, as if every call out came back without anything happening. */
  function Local(acts: seq<Act>, i: Identity, pid: bv32, uid: bv32): Identity {
    if acts == [] then i else Local(acts[1..], LocalAct(acts[0], i, pid, uid), pid, uid)
  }

  /** How waitForResponse ends. */
  function Finish(t: Thread, error: int): (Thread, int) {
    (if error != 0 then t.(lastError := error) else t, error)
  }

  function DoAct(a: Act, t: Thread): (r: Thread)
    ensures |r.input| <= |t.input| && r.pid == t.pid && r.uid == t.uid
    decreases |t.input|, 1, 0
  {
    match a
    case Ask => t.(log := t.log + [Told(t.identity)])
    case Call(oneWay, sound) =>
      if !sound then t.(lastError := BAD_VALUE) else Wait(t.(log := t.log + [Sent(oneWay)]), !oneWay).0
    case _ => t.(identity := LocalAct(a, t.identity, t.pid, t.uid))
  }

  function DoActs(acts: seq<Act>, t: Thread): (r: Thread)
    ensures |r.input| <= |t.input| && r.pid == t.pid && r.uid == t.uid
    decreases |t.input|, 1, |acts|
  {
    if acts == [] then t else DoActs(acts[1..], DoAct(acts[0], t))
  }

  /** waitForResponse: with a reply wanted it waits for one, otherwise for the driver's word that the
      transaction is complete; other commands are executed meanwhile. */
  function Wait(t: Thread, wantReply: bool): (r: (Thread, int))
    ensures |r.0.input| <= |t.input| && r.0.pid == t.pid && r.0.uid == t.uid
    decreases |t.input|, 0, 0
  {
    if t.input == [] then Finish(t, BAD_FD)
    else
      var u := t.(input := t.input[1..]);
      match t.input[0]
      case Fault(e) => if e < 0 then Finish(u, e) else Wait(u, wantReply)
      case Complete => if wantReply then Wait(u, wantReply) else Finish(u, 0)
      case DeadReply => Finish(u, DEAD_OBJECT)
      case FailedReply => Finish(u, FAILED_TRANSACTION)
      case AcquireResult => Wait(u, wantReply)
      case Reply(status) => if wantReply then Finish(u, status) else Wait(u, wantReply)
      case _ =>
        var (v, e) := Execute(t.input[0], u);
        if e != 0 then Finish(v, e) else Wait(v, wantReply)
  }

  function ReplyTo(t: Thread, id: nat, error: int): (r: Thread)
    ensures |r.input| <= |t.input| && r.pid == t.pid && r.uid == t.uid
    decreases |t.input|, 1, 0
  {
    Wait(t.(log := t.log + [Answered(id, if error < 0 then error else 0)]), false).0
  }

  /** The thread as the handler of a transaction finds it. */
  function Entered(c: Command, t: Thread): Thread
    requires c.Transaction?
  {
    t.(identity := Identity(c.pid, c.uid, t.identity.policy, c.flags),
       log := if OneWay(c) then t.log else t.log + [Took(c.id)])
  }

  /** Handler and reply; a target that is already gone is not run. */
  function Handled(c: Command, t: Thread): (r: Thread)
    requires c.Transaction?
    ensures |r.input| <= |t.input| && r.pid == t.pid && r.uid == t.uid
    decreases |t.input|, 2, 0
  {
    var b := if c.alive then DoActs(c.body, Entered(c, t)) else Entered(c, t);
    if OneWay(c) then b else ReplyTo(b, c.id, if c.alive then c.error else UNKNOWN_TRANSACTION)
  }

  function Execute(c: Command, t: Thread): (r: (Thread, int))
    ensures |r.0.input| <= |t.input| && r.0.pid == t.pid && r.0.uid == t.uid
    decreases |t.input|, 3, 0
  {
    match c
    case Plain(result) => Finish(t, result)
    case Transaction(_, _, _, _, _, _, _) => (Handled(c, t).(identity := t.identity), 0)
    case DeadBinder(body) => (DoActs(body, t), 0)
    case _ => Finish(t, UNKNOWN_ERROR)
  }

  /** The thread pool loop, until an error or, for a spare thread, until the driver lets it go. */
  function Serve(t: Thread, isMain: bool): (r: Thread)
    decreases |t.input|
  {
    if t.input == [] then t
    else
      var u := t.(input := t.input[1..]);
      match t.input[0]
      case Fault(e) => if Leaves(e, isMain) then u else Serve(u, isMain)
      case c => var (v, e) := Execute(c, u); if Leaves(e, isMain) then v else Serve(v, isMain)
  }

  predicate Leaves(result: int, isMain: bool) {
    result < 0 && !(result == TIMED_OUT && isMain)
  }

  // ---- Caller identity -------------------------------------------------------------------------

  /** The acts that run as the thread itself when the command is executed: those of death recipients, and of
      the recipients of notices that come in while those call out. Nested transactions have none. */
  ghost function CommandActs(c: Command, t: Thread): seq<Act>
    decreases |t.input|, 3, 0
  {
    if c.DeadBinder? then ActsRun(c.body, t) else []
  }

  /** An act, or for a call out the acts of the recipients that run until it is over. */
  ghost function ActRun(a: Act, t: Thread): seq<Act>
    decreases |t.input|, 1, 0
  {
    if !a.Call? then [a]
    else if !a.sound then []
    else WaitActs(t.(log := t.log + [Sent(a.oneWay)]), !a.oneWay)
  }

  ghost function ActsRun(acts: seq<Act>, t: Thread): seq<Act>
    decreases |t.input|, 1, |acts|
  {
    if acts == [] then [] else ActRun(acts[0], t) + ActsRun(acts[1..], DoAct(acts[0], t))
  }

  /** The acts of the death recipients that run while the thread waits. */
  ghost function WaitActs(t: Thread, wantReply: bool): seq<Act>
    decreases |t.input|, 0, 0
  {
    if t.input == [] then []
    else
      var u := t.(input := t.input[1..]);
      match t.input[0]
      case Fault(e) => if e < 0 then [] else WaitActs(u, wantReply)
      case Complete => if wantReply then WaitActs(u, wantReply) else []
      case DeadReply => []
      case FailedReply => []
      case AcquireResult => WaitActs(u, wantReply)
      case Reply(_) => if wantReply then [] else WaitActs(u, wantReply)
      case c => CommandActs(c, u) + RestActs(Execute(c, u), wantReply, |u.input|)
  }

  /** What is left to run once a command has been executed, unless its result ends the wait. */
  ghost function RestActs(r: (Thread, int), wantReply: bool, bound: nat): seq<Act>
    requires |r.0.input| <= bound
    decreases bound, 4, 0
  {
    if r.1 != 0 then [] else WaitActs(r.0, wantReply)
  }

  /** The acts of the death recipients that run in the thread pool loop itself. */
  ghost function ServeActs(t: Thread, isMain: bool): seq<Act>
    decreases |t.input|
  {
    if t.input == [] then []
    else
      var u := t.(input := t.input[1..]);
      match t.input[0]
      case Fault(e) => if Leaves(e, isMain) then [] else ServeActs(u, isMain)
      case c =>
        var (v, e) := Execute(c, u);
        CommandActs(c, u) + if Leaves(e, isMain) then [] else ServeActs(v, isMain)
  }

  lemma LocalOfConcat(a: seq<Act>, b: seq<Act>, i: Identity, pid: bv32, uid: bv32)
    ensures Local(a + b, i, pid, uid) == Local(b, Local(a, i, pid, uid), pid, uid)
  {
    if a == [] {
      assert a + b == b;
    } else {
      assert (a + b)[1..] == a[1..] + b;
      LocalOfConcat(a[1..], b, LocalAct(a[0], i, pid, uid), pid, uid);
    }
  }

  /** At the end of a wait the identity is what the recipients that ran meanwhile made of it. */
  lemma {:induction false} WaitIdentity(t: Thread, wantReply: bool)
    ensures Wait(t, wantReply).0.identity == Local(WaitActs(t, wantReply), t.identity, t.pid, t.uid)
    decreases |t.input|, 0, 0
  {
    if t.input != [] {
      var u := t.(input := t.input[1..]);
      var c := t.input[0];
      match c
      case Fault(e) => if e >= 0 { WaitIdentity(u, wantReply); }
      case Complete => if wantReply { WaitIdentity(u, wantReply); }
      case DeadReply =>
      case FailedReply =>
      case AcquireResult => WaitIdentity(u, wantReply);
      case Reply(status) => if !wantReply { WaitIdentity(u, wantReply); }
      case _ =>
        var r := Execute(c, u);
        CommandIdentity(c, u);
        LocalOfConcat(CommandActs(c, u), RestActs(r, wantReply, |u.input|), t.identity, t.pid, t.uid);
        if r.1 == 0 { WaitIdentity(r.0, wantReply); }
    }
  }

  lemma {:induction false} ActIdentity(a: Act, t: Thread)
    ensures DoAct(a, t).identity == Local(ActRun(a, t), t.identity, t.pid, t.uid)
    decreases |t.input|, 1, 0
  {
    if a.Call? {
      if a.sound { WaitIdentity(t.(log := t.log + [Sent(a.oneWay)]), !a.oneWay); }
    } else {
      assert [a][1..] == [];
    }
  }

  lemma {:induction false} ActsIdentity(acts: seq<Act>, t: Thread)
    ensures DoActs(acts, t).identity == Local(ActsRun(acts, t), t.identity, t.pid, t.uid)
    decreases |t.input|, 1, |acts|
  {
    if acts != [] {
      var u := DoAct(acts[0], t);
      ActIdentity(acts[0], t);
      ActsIdentity(acts[1..], u);
      LocalOfConcat(ActRun(acts[0], t), ActsRun(acts[1..], u), t.identity, t.pid, t.uid);
    }
  }

  lemma {:induction false} CommandIdentity(c: Command, t: Thread)
    ensures Execute(c, t).0.identity == Local(CommandActs(c, t), t.identity, t.pid, t.uid)
    decreases |t.input|, 3, 0
  {
    if c.DeadBinder? { ActsIdentity(c.body, t); }
  }

  lemma {:induction false} ServeIdentity(t: Thread, isMain: bool)
    ensures Serve(t, isMain).identity == Local(ServeActs(t, isMain), t.identity, t.pid, t.uid)
    decreases |t.input|
  {
    if t.input != [] {
      var u := t.(input := t.input[1..]);
      var c := t.input[0];
      if c.Fault? {
        if !Leaves(c.error, isMain) { ServeIdentity(u, isMain); }
      } else {
        var (v, e) := Execute(c, u);
        var rest := if Leaves(e, isMain) then [] else ServeActs(v, isMain);
        CommandIdentity(c, u);
        LocalOfConcat(CommandActs(c, u), rest, t.identity, t.pid, t.uid);
        if !Leaves(e, isMain) { ServeIdentity(v, isMain); }
      }
    }
  }

  /** The caller that the last clearing or restoring among the acts leaves. */
  function LastCaller(acts: seq<Act>, pid: bv32, uid: bv32): Option<(bv32, bv32)> {
    if acts == [] then None
    else
      match acts[|acts| - 1]
      case Clear => Some((pid, uid))
      case Restore(token) => Some((TokenPid(token), TokenUid(token)))
      case _ => LastCaller(acts[..|acts| - 1], pid, uid)
  }

  function LastPolicy(acts: seq<Act>): Option<int> {
    if acts == [] then None
    else if acts[|acts| - 1].SetPolicy? then Some(acts[|acts| - 1].policy)
    else LastPolicy(acts[..|acts| - 1])
  }

  function LastFlags(acts: seq<Act>): Option<bv32> {
    if acts == [] then None
    else if acts[|acts| - 1].SetFlags? then Some(acts[|acts| - 1].flags)
    else LastFlags(acts[..|acts| - 1])
  }

  function Latest<T>(last: Option<T>, before: T): T {
    if last.Some? then last.value else before
  }

  /** Whoever was last to change the caller, the policy or the flags put back what is in the identity. */
  predicate Settled(acts: seq<Act>, i: Identity, pid: bv32, uid: bv32) {
    && Latest(LastCaller(acts, pid, uid), (i.pid, i.uid)) == (i.pid, i.uid)
    && Latest(LastPolicy(acts), i.policy) == i.policy
    && Latest(LastFlags(acts), i.flags) == i.flags
  }

  lemma LocalOfLast(acts: seq<Act>, i: Identity, pid: bv32, uid: bv32)
    requires acts != []
    ensures Local(acts, i, pid, uid)
         == LocalAct(acts[|acts| - 1], Local(acts[..|acts| - 1], i, pid, uid), pid, uid)
  {
    var init, a := acts[..|acts| - 1], acts[|acts| - 1];
    assert acts == init + [a];
    LocalOfConcat(init, [a], i, pid, uid);
    assert [a][1..] == [];
  }

  ghost predicate LastsAre(acts: seq<Act>, i: Identity, r: Identity, pid: bv32, uid: bv32) {
    && Latest(LastCaller(acts, pid, uid), (i.pid, i.uid)) == (r.pid, r.uid)
    && Latest(LastPolicy(acts), i.policy) == r.policy
    && Latest(LastFlags(acts), i.flags) == r.flags
  }

  lemma LastCallerStep(init: seq<Act>, a: Act, pid: bv32, uid: bv32)
    ensures LastCaller(init + [a], pid, uid)
            == match a
               case Clear => Some((pid, uid))
               case Restore(token) => Some((TokenPid(token), TokenUid(token)))
               case _ => LastCaller(init, pid, uid)
  {
    assert (init + [a])[..|init|] == init;
  }

  lemma CallerStep(init: seq<Act>, a: Act, i: Identity, r: Identity, pid: bv32, uid: bv32)
    requires Latest(LastCaller(init, pid, uid), (i.pid, i.uid)) == (r.pid, r.uid)
    ensures var n := LocalAct(a, r, pid, uid);
            Latest(LastCaller(init + [a], pid, uid), (i.pid, i.uid)) == (n.pid, n.uid)
  {
    LastCallerStep(init, a, pid, uid);
  }

  lemma PolicyStep(init: seq<Act>, a: Act, i: Identity, r: Identity, pid: bv32, uid: bv32)
    requires Latest(LastPolicy(init), i.policy) == r.policy
    ensures Latest(LastPolicy(init + [a]), i.policy) == LocalAct(a, r, pid, uid).policy
  {
    assert (init + [a])[..|init|] == init;
  }

  lemma FlagsStep(init: seq<Act>, a: Act, i: Identity, r: Identity, pid: bv32, uid: bv32)
    requires Latest(LastFlags(init), i.flags) == r.flags
    ensures Latest(LastFlags(init + [a]), i.flags) == LocalAct(a, r, pid, uid).flags
  {
    assert (init + [a])[..|init|] == init;
  }

  /** Of all changes to an identity the last one of each part is left. */
  lemma {:induction false} LastChangeCounts(acts: seq<Act>, i: Identity, pid: bv32, uid: bv32)
    ensures LastsAre(acts, i, Local(acts, i, pid, uid), pid, uid)
    decreases |acts|
  {
    if acts != [] {
      var init, a := acts[..|acts| - 1], acts[|acts| - 1];
      LastChangeCounts(init, i, pid, uid);
      var r := Local(init, i, pid, uid);
      CallerStep(init, a, i, r, pid, uid);
      PolicyStep(init, a, i, r, pid, uid);
      FlagsStep(init, a, i, r, pid, uid);
      assert acts == init + [a];
      LocalOfLast(acts, i, pid, uid);
    }
  }

  lemma SettledIff(acts: seq<Act>, i: Identity, pid: bv32, uid: bv32)
    ensures Local(acts, i, pid, uid) == i <==> Settled(acts, i, pid, uid)
  {
    LastChangeCounts(acts, i, pid, uid);
  }

  /** A call out, waiting for its reply, returns with the identity it was made under exactly when the
      recipients of the death notices that come in meanwhile leave it so: nested transactions do not show,
      however deep. */
  lemma WaitKeepsIdentity(t: Thread, wantReply: bool)
    ensures Wait(t, wantReply).0.identity == t.identity
       <==> Settled(WaitActs(t, wantReply), t.identity, t.pid, t.uid)
  {
    WaitIdentity(t, wantReply);
    SettledIff(WaitActs(t, wantReply), t.identity, t.pid, t.uid);
  }

  /** At every call out among the acts the recipients leave the identity of that moment. */
  ghost predicate CallsSettled(acts: seq<Act>, t: Thread)
    decreases |acts|
  {
    acts != [] ==>
      && (acts[0].Call? ==> Settled(ActRun(acts[0], t), t.identity, t.pid, t.uid))
      && CallsSettled(acts[1..], DoAct(acts[0], t))
  }

  /** The identity of a handler after its first k acts is what those acts alone make of its sender's. */
  ghost predicate OwnIdentity(acts: seq<Act>, t: Thread, k: nat)
    requires k <= |acts|
  {
    DoActs(acts[..k], t).identity == Local(acts[..k], t.identity, t.pid, t.uid)
  }

  lemma CallSettled(a: Act, t: Thread)
    ensures DoAct(a, t).identity == LocalAct(a, t.identity, t.pid, t.uid)
       <==> (a.Call? ==> Settled(ActRun(a, t), t.identity, t.pid, t.uid))
  {
    ActIdentity(a, t);
    SettledIff(ActRun(a, t), t.identity, t.pid, t.uid);
  }

  lemma PrefixStep(acts: seq<Act>, t: Thread, k: nat)
    requires 0 < k <= |acts|
    ensures DoActs(acts[..k], t) == DoActs(acts[1..][..k - 1], DoAct(acts[0], t))
    ensures Local(acts[..k], t.identity, t.pid, t.uid)
         == Local(acts[1..][..k - 1], LocalAct(acts[0], t.identity, t.pid, t.uid), t.pid, t.uid)
  {
    assert acts[..k][1..] == acts[1..][..k - 1];
  }

  lemma FirstActOwn(acts: seq<Act>, t: Thread)
    requires acts != []
    ensures OwnIdentity(acts, t, 1) <==> DoAct(acts[0], t).identity == LocalAct(acts[0], t.identity, t.pid, t.uid)
  {
    PrefixStep(acts, t, 1);
    assert acts[1..][..0] == [];
  }

  /** However many transactions come in while a handler's calls are out, the handler's identity is at every
      point what its own acts made of its sender's, exactly when at each of its calls the recipients of the
      death notices executed there leave the identity of that moment. */
  lemma {:induction false} HandlerKeepsOwnIdentity(acts: seq<Act>, t: Thread)
    ensures (forall k :: 0 <= k <= |acts| ==> OwnIdentity(acts, t, k)) <==> CallsSettled(acts, t)
    decreases |acts|
  {
    if acts == [] {
      assert acts[..0] == [];
    } else {
      var rest, u := acts[1..], DoAct(acts[0], t);
      CallSettled(acts[0], t);
      FirstActOwn(acts, t);
      HandlerKeepsOwnIdentity(rest, u);
      if OwnIdentity(acts, t, 1) {
        forall k | 0 < k <= |acts| ensures OwnIdentity(acts, t, k) == OwnIdentity(rest, u, k - 1) {
          PrefixStep(acts, t, k);
        }
        assert OwnIdentity(acts, t, 0) by {
          assert acts[..0] == [];
        }
        assert forall j :: 0 <= j <= |rest| ==> OwnIdentity(rest, u, j) == OwnIdentity(acts, t, j + 1);
      }
    }
  }

  /** What does not make a thread leave the pool: success, and for the main thread a timeout. */
  predicate Stays(c: Command, isMain: bool) {
    match c
    case Plain(result) => result >= 0 || (result == -110 && isMain)
    case Fault(error) => error >= 0 || (error == -110 && isMain)
    case _ => false
  }

  /** The pool loop ends with the first failing result, a timeout counting as one for a spare thread only. */
  lemma {:induction false} ServeEndsAt(t: Thread, isMain: bool, skipped: seq<Command>, c: Command, rest: seq<Command>)
    requires t.input == skipped + [c] + rest && (c.Plain? || c.Fault?) && !Stays(c, isMain)
    requires forall d :: d in skipped ==> Stays(d, isMain)
    ensures Serve(t, isMain).input == rest && (c.Plain? ==> Serve(t, isMain).lastError == c.result)
    decreases |skipped|
  {
    var u := t.(input := t.input[1..]);
    if skipped == [] {
      assert t.input[0] == c && u.input == rest;
    } else {
      var d := skipped[0];
      assert t.input[0] == d && d in skipped && u.input == skipped[1..] + [c] + rest;
      ServeEndsAt(if d.Plain? then Execute(d, u).0 else u, isMain, skipped[1..], c, rest);
    }
  }

  // ---- What a handler sees, and what becomes of it ----------------------------------------------

  lemma LogGrows(before: seq<Step>, step: Step, after: seq<Step>)
    requires before + [step] <= after
    ensures before <= after
  {
    assert before <= before + [step];
  }

  lemma {:induction false} WaitGrows(t: Thread, wantReply: bool)
    ensures t.log <= Wait(t, wantReply).0.log
    decreases |t.input|, 0, 0
  {
    if t.input != [] {
      var u := t.(input := t.input[1..]);
      var c := t.input[0];
      match c
      case Fault(e) => if e >= 0 { WaitGrows(u, wantReply); }
      case Complete => if wantReply { WaitGrows(u, wantReply); }
      case DeadReply =>
      case FailedReply =>
      case AcquireResult => WaitGrows(u, wantReply);
      case Reply(status) => if !wantReply { WaitGrows(u, wantReply); }
      case _ =>
        ExecuteGrows(c, u);
        if Execute(c, u).1 == 0 { WaitGrows(Execute(c, u).0, wantReply); }
    }
  }

  lemma {:induction false} ActGrows(a: Act, t: Thread)
    ensures t.log <= DoAct(a, t).log
    decreases |t.input|, 1, 0
  {
    if a.Call? && a.sound {
      WaitGrows(t.(log := t.log + [Sent(a.oneWay)]), !a.oneWay);
      LogGrows(t.log, Sent(a.oneWay), DoAct(a, t).log);
    }
  }

  lemma {:induction false} ActsGrow(acts: seq<Act>, t: Thread)
    ensures t.log <= DoActs(acts, t).log
    decreases |t.input|, 1, |acts|
  {
    if acts != [] {
      ActGrows(acts[0], t);
      ActsGrow(acts[1..], DoAct(acts[0], t));
    }
  }

  lemma {:induction false} ExecuteGrows(c: Command, t: Thread)
    ensures t.log <= Execute(c, t).0.log
    decreases |t.input|, 3, 0
  {
    match c
    case Transaction(_, _, _, _, _, _, _) =>
      HandledGrows(c, t);
      assert t.log <= Entered(c, t).log;
    case DeadBinder(body) => ActsGrow(body, t);
    case _ =>
  }

  /** The thread after the handler of a transaction, or after none if its target is gone. */
  function AfterHandler(c: Command, t: Thread): (r: Thread)
    requires c.Transaction?
    ensures |r.input| <= |t.input|
  {
    if c.alive then DoActs(c.body, Entered(c, t)) else Entered(c, t)
  }

  /** What the sender of a two-way transaction is answered: the handler's error, if it is one. */
  function AnswerTo(c: Command): Step
    requires c.Transaction?
  {
    Answered(c.id, if !c.alive then UNKNOWN_TRANSACTION else if c.error < 0 then c.error else 0)
  }

  lemma {:induction false} HandledGrows(c: Command, t: Thread)
    requires c.Transaction?
    ensures Entered(c, t).log <= AfterHandler(c, t).log <= Handled(c, t).log
    ensures !OneWay(c) ==> AfterHandler(c, t).log + [AnswerTo(c)] <= Handled(c, t).log
    decreases |t.input|, 2, 0
  {
    var b := AfterHandler(c, t);
    if c.alive { ActsGrow(c.body, Entered(c, t)); }
    if !OneWay(c) {
      var error := if c.alive then c.error else UNKNOWN_TRANSACTION;
      assert Answered(c.id, if error < 0 then error else 0) == AnswerTo(c);
      assert Handled(c, t) == ReplyTo(b, c.id, error);
      WaitGrows(b.(log := b.log + [AnswerTo(c)]), false);
      LogGrows(b.log, AnswerTo(c), Handled(c, t).log);
    }
  }

  lemma {:induction false} DoActsConcat(a: seq<Act>, b: seq<Act>, t: Thread)
    ensures DoActs(a + b, t) == DoActs(b, DoActs(a, t))
    decreases |a|
  {
    if a == [] {
      assert a + b == b;
    } else {
      assert (a + b)[1..] == a[1..] + b;
      DoActsConcat(a[1..], b, DoAct(a[0], t));
    }
  }

  /** Where a handler asks for its caller it is told, whatever else goes on at its calls, its sender's process
      and user, with the policy of the thread and the flags of the transaction, as changed by its own acts so
      far; as long as death recipients leave the identity of each of its calls. */
  lemma HandlerIsToldSender(c: Command, t: Thread, k: nat)
    requires c.Transaction? && c.alive && k < |c.body| && c.body[k].Ask? && CallsSettled(c.body, Entered(c, t))
    ensures var own := Local(c.body[..k], Identity(c.pid, c.uid, t.identity.policy, c.flags), t.pid, t.uid);
            DoActs(c.body[..k], Entered(c, t)).log + [Told(own)] <= Execute(c, t).0.log
  {
    var e := Entered(c, t);
    var v := DoActs(c.body[..k], e);
    HandlerKeepsOwnIdentity(c.body, e);
    assert OwnIdentity(c.body, e, k);
    var rest := c.body[k..];
    assert c.body == c.body[..k] + rest && rest[0] == c.body[k];
    DoActsConcat(c.body[..k], rest, e);
    ActsGrow(rest[1..], DoAct(Ask, v));
    HandledGrows(c, t);
  }

  /** The sender of a two-way transaction is answered, right after the handler, with the handler's error if it
      is one and with success otherwise; a target that is gone is not run, and is an unknown transaction. */
  lemma SenderIsAnswered(c: Command, t: Thread)
    requires c.Transaction?
    ensures c.flags & 1 == 0 ==> AfterHandler(c, t).log + [AnswerTo(c)] <= Execute(c, t).0.log
    ensures c.flags & 1 != 0 ==> Execute(c, t).0.log == AfterHandler(c, t).log
    ensures Execute(c, t).1 == 0 && (!c.alive ==> Execute(c, t) == Execute(c.(body := []), t))
  {
    HandledGrows(c, t);
  }

  /** A call out of a sound parcel is written to the driver, as one that wants a reply or not; an unsound one is not
      written, and keeps its error. */
  lemma CallIsWritten(t: Thread, oneWay: bool, sound: bool)
    ensures var r := DoAct(Call(oneWay, sound), t);
            if sound then t.log + [Sent(oneWay)] <= r.log else r == t.(lastError := -22)
  {
    if sound { WaitGrows(t.(log := t.log + [Sent(oneWay)]), !oneWay); }
  }

  /** What is neither a transaction nor a death notice nor known to only yield a result is an error, and does nothing
      else. */
  lemma UnknownCommandFails(c: Command, t: Thread)
    requires !c.Plain? && !c.Transaction? && !c.DeadBinder?
    ensures Execute(c, t) == (t.(lastError := -0x8000_0000), -0x8000_0000)
  {
  }

  /** What a wait passes over without anything happening. */
  predicate Passing(c: Command, wantReply: bool) {
    match c
    case Plain(result) => result == 0
    case Complete => wantReply
    case AcquireResult => true
    case Reply(_) => !wantReply
    case Fault(error) => error >= 0
    case _ => false
  }

  lemma PassesOver(t: Thread, wantReply: bool)
    requires t.input != [] && Passing(t.input[0], wantReply)
    ensures Wait(t, wantReply) == Wait(t.(input := t.input[1..]), wantReply)
  {
    if t.input[0].Plain? { assert Execute(t.input[0], t.(input := t.input[1..])).1 == 0; }
  }

  /** A wait that the driver has nothing to end fails. */
  lemma {:induction false} WaitOnNothing(t: Thread, wantReply: bool)
    requires forall d :: d in t.input ==> Passing(d, wantReply)
    ensures Wait(t, wantReply) == (t.(input := [], lastError := -9), -9)
    decreases |t.input|
  {
    if t.input != [] {
      assert t.input[0] in t.input;
      PassesOver(t, wantReply);
      WaitOnNothing(t.(input := t.input[1..]), wantReply);
    } else {
      assert t == t.(input := []);
    }
  }

  /** With what result a command ends a wait. */
  predicate EndsWith(c: Command, wantReply: bool, result: int) {
    match c
    case Reply(status) => wantReply && result == status
    case Complete => !wantReply && result == 0
    case DeadReply => result == -32
    case FailedReply => result == -0x7FFF_FFFE
    case Fault(error) => result == error < 0
    case Plain(error) => result == error != 0
    case _ => false
  }

  /** A call that wants a reply comes back with the status of the first reply, one that does not with the
      driver's word; a dead or failed target, a fault and a failing command end both. An error is kept. */
  lemma {:induction false} WaitEndsWith(t: Thread, skipped: seq<Command>, c: Command, rest: seq<Command>,
        wantReply: bool, result: int)
    requires t.input == skipped + [c] + rest && EndsWith(c, wantReply, result)
    requires forall d :: d in skipped ==> Passing(d, wantReply)
    ensures var (r, e) := Wait(t, wantReply);
            e == result && r.input == rest && r.log == t.log && r.identity == t.identity
            && r.lastError == if e != 0 then e else t.lastError
    decreases |skipped|
  {
    if skipped == [] {
      assert t.input[0] == c && t.input[1..] == rest;
    } else {
      var u := t.(input := t.input[1..]);
      assert t.input[0] == skipped[0] && u.input == skipped[1..] + [c] + rest;
      PassesOver(t, wantReply);
      WaitEndsWith(u, skipped[1..], c, rest, wantReply, result);
    }
  }

  /** Executing any command, to any depth of nesting, returns with the caller identity, policy and flags of
      its entry exactly when the death recipients that run as the thread itself leave them so; for an incoming
      transaction that is always, whatever its handler and all recipients do. */
  lemma ExecuteKeepsIdentity(c: Command, t: Thread)
    ensures Execute(c, t).0.identity == t.identity <==> Settled(CommandActs(c, t), t.identity, t.pid, t.uid)
    ensures c.Transaction? ==> Execute(c, t).0.identity == t.identity
  {
    CommandIdentity(c, t);
    SettledIff(CommandActs(c, t), t.identity, t.pid, t.uid);
  }

  /** The thread pool loop ends with the identity it began with exactly when the death recipients it runs
      leave it so. */
  lemma ServeKeepsIdentity(t: Thread, isMain: bool)
    ensures Serve(t, isMain).identity == t.identity
       <==> Settled(ServeActs(t, isMain), t.identity, t.pid, t.uid)
  {
    ServeIdentity(t, isMain);
    SettledIff(ServeActs(t, isMain), t.identity, t.pid, t.uid);
  }

  /** A recipient that clears the identity and does not restore it: the thread then goes on as itself. */
  lemma DeathRecipientCanLeak()
    ensures var t := Thread([DeadBinder([Clear]), Complete], Identity(7, 10007, 0, 0), 0, [], 1, 1000);
            DoAct(Call(true, true), t).identity == Identity(1, 1000, 0, 0)
  {
    var t := Thread([DeadBinder([Clear]), Complete], Identity(7, 10007, 0, 0), 0, [], 1, 1000);
    var s := t.(log := t.log + [Sent(true)]);
    var u := s.(input := [Complete]);
    assert s.input[1..] == [Complete];
    var v := u.(identity := Identity(1, 1000, 0, 0));
    assert DoActs([Clear], u) == v by {
      assert DoAct(Clear, u) == v;
      assert [Clear][1..] == [];
    }
    assert Execute(DeadBinder([Clear]), u) == (v, 0);
    assert Wait(v, false).0.identity == v.identity by {
      assert v.input[0] == Complete;
    }
    assert Wait(s, false) == Wait(v, false);
  }

  /** The process id always comes back out of a token; the user does exactly when the process id is not
      negative, or the user is all ones anyway. */
  lemma TokenRoundTrip(pid: bv32, uid: bv32)
    ensures TokenPid(Token(pid, uid)) == pid
    ensures TokenUid(Token(pid, uid)) == uid <==> pid & 0x8000_0000 == 0 || uid == 0xFFFF_FFFF
  {
    TokenHalves(pid, uid, Token(pid, uid));
  }

  /** A caller with a negative process id comes back as another user. */
  lemma NegativePidLosesUser()
    ensures TokenUid(Token(0xFFFF_FFFE, 1000)) == 0xFFFF_FFFF
  {
    TokenRoundTrip(0xFFFF_FFFE, 1000);
    TokenHalves(0xFFFF_FFFE, 1000, Token(0xFFFF_FFFE, 1000));
  }

  lemma TokenHalves(pid: bv32, uid: bv32, token: bv64)
    requires token == Token(pid, uid)
    ensures TokenPid(token) == pid
    ensures TokenUid(token) == if pid & 0x8000_0000 == 0 then uid else 0xFFFF_FFFF
  {
    Joined(pid, uid, pid & 0x8000_0000 == 0, SignExtend(pid), token);
  }

  lemma Joined(pid: bv32, uid: bv32, positive: bool, p: bv64, token: bv64)
    requires p == if positive then pid as bv64 else pid as bv64 | 0xFFFF_FFFF_0000_0000
    requires token == (uid as bv64 << 32) | p
    ensures TokenPid(token) == pid
    ensures TokenUid(token) == if positive then uid else 0xFFFF_FFFF
  {
    if positive {
      PositiveHalves(pid, uid, pid as bv64, uid as bv64);
    } else {
      NegativeHalves(pid, uid, pid as bv64, uid as bv64);
    }
  }

  lemma Widened(v: bv32)
    ensures v as bv64 <= 0xFFFF_FFFF && (v as bv64) as bv32 == v
  {
  }

  lemma PositiveHalves(pid: bv32, uid: bv32, p: bv64, u: bv64)
    requires p == pid as bv64 && u == uid as bv64
    ensures TokenPid((u << 32) | p) == pid && TokenUid((u << 32) | p) == uid
  {
    Widened(pid);
    Widened(uid);
    PositiveBits(u, p);
  }

  lemma NegativeHalves(pid: bv32, uid: bv32, p: bv64, u: bv64)
    requires p == pid as bv64 && u == uid as bv64
    ensures TokenPid((u << 32) | (p | 0xFFFF_FFFF_0000_0000)) == pid
    ensures TokenUid((u << 32) | (p | 0xFFFF_FFFF_0000_0000)) == 0xFFFF_FFFF
  {
    Widened(pid);
    Widened(uid);
    NegativeBits(u, p);
  }

  lemma PositiveBits(u: bv64, p: bv64)
    requires u <= 0xFFFF_FFFF && p <= 0xFFFF_FFFF
    ensures ((u << 32) | p) & 0xFFFF_FFFF == p && ((u << 32) | p) >> 32 == u
  {
  }

  lemma NegativeBits(u: bv64, p: bv64)
    requires u <= 0xFFFF_FFFF && p <= 0xFFFF_FFFF
    ensures ((u << 32) | (p | 0xFFFF_FFFF_0000_0000)) & 0xFFFF_FFFF == p
    ensures ((u << 32) | (p | 0xFFFF_FFFF_0000_0000)) >> 32 == 0xFFFF_FFFF
  {
  }

  /** Clearing the identity, doing anything at all and restoring the token: the caller is back, whatever
      nested transactions and death recipients did, exactly when its token is faithful. A death recipient
      that goes about it like this leaves its thread's caller alone. */
  lemma {:induction false} ClearedIdentityComesBack(acts: seq<Act>, t: Thread)
    ensures var c := t.identity;
            var all := [Clear] + acts + [Restore(Token(c.pid, c.uid))];
            && (DoActs(all, t).identity == c
                <==> && (c.pid & 0x8000_0000 == 0 || c.uid == 0xFFFF_FFFF)
                     && Latest(LastPolicy(ActsRun(all, t)), c.policy) == c.policy
                     && Latest(LastFlags(ActsRun(all, t)), c.flags) == c.flags)
            && Execute(DeadBinder(all), t).0 == DoActs(all, t)
            && DoActs(all, t).identity.pid == c.pid
            && (DoActs(all, t).identity.uid == c.uid <==> c.pid & 0x8000_0000 == 0 || c.uid == 0xFFFF_FFFF)
  {
    var c := t.identity;
    var token := Token(c.pid, c.uid);
    var before := [Clear] + acts;
    var run := ActsRun(before + [Restore(token)], t);
    RunOfConcat(before, [Restore(token)], t);
    ActsIdentity(before + [Restore(token)], t);
    LastChangeCounts(run, c, t.pid, t.uid);
    var v := DoActs(before, t);
    assert ActsRun([Restore(token)], v) == [Restore(token)] + [];
    assert run[|run| - 1] == Restore(token);
    TokenRoundTrip(c.pid, c.uid);
  }

  lemma {:induction false} RunOfConcat(a: seq<Act>, b: seq<Act>, t: Thread)
    ensures ActsRun(a + b, t) == ActsRun(a, t) + ActsRun(b, DoActs(a, t))
    decreases |a|
  {
    if a == [] {
      assert a + b == b;
    } else {
      assert (a + b)[1..] == a[1..] + b;
      RunOfConcat(a[1..], b, DoAct(a[0], t));
    }
  }

  /** The transactions not yet answered, innermost last; None once a reply has gone to the wrong one. */
  function Open(log: seq<Step>): Option<seq<nat>> {
    if log == [] then Some([]) else OpenStep(Open(log[..|log| - 1]), log[|log| - 1])
  }

  function OpenStep(open: Option<seq<nat>>, s: Step): Option<seq<nat>> {
    if open.None? then None
    else
      match s
      case Took(id) => Some(open.value + [id])
      case Answered(id, _) =>
        var n := |open.value|;
        if n > 0 && open.value[n - 1] == id then Some(open.value[..n - 1]) else None
      case _ => open
  }

  lemma OpenAppend(log: seq<Step>, s: Step)
    ensures Open(log + [s]) == OpenStep(Open(log), s)
  {
    assert (log + [s])[..|log|] == log;
  }

  lemma {:induction false} WaitKeepsOpen(t: Thread, wantReply: bool)
    ensures Open(Wait(t, wantReply).0.log) == Open(t.log)
    decreases |t.input|, 0, 0
  {
    if t.input != [] {
      var u := t.(input := t.input[1..]);
      var c := t.input[0];
      match c
      case Fault(e) => if e >= 0 { WaitKeepsOpen(u, wantReply); }
      case Complete => if wantReply { WaitKeepsOpen(u, wantReply); }
      case DeadReply =>
      case FailedReply =>
      case AcquireResult => WaitKeepsOpen(u, wantReply);
      case Reply(status) => if !wantReply { WaitKeepsOpen(u, wantReply); }
      case _ =>
        RepliesNest(c, u);
        if Execute(c, u).1 == 0 { WaitKeepsOpen(Execute(c, u).0, wantReply); }
    }
  }

  lemma {:induction false} ActsKeepOpen(acts: seq<Act>, t: Thread)
    ensures Open(DoActs(acts, t).log) == Open(t.log)
    decreases |t.input|, 1, |acts|
  {
    if acts != [] {
      var u := DoAct(acts[0], t);
      if acts[0].Ask? {
        OpenAppend(t.log, Told(t.identity));
      } else if acts[0].Call? && acts[0].sound {
        OpenAppend(t.log, Sent(acts[0].oneWay));
        WaitKeepsOpen(t.(log := t.log + [Sent(acts[0].oneWay)]), !acts[0].oneWay);
      }
      assert Open(u.log) == Open(t.log);
      ActsKeepOpen(acts[1..], u);
    }
  }

  lemma {:induction false} HandledKeepsOpen(c: Command, t: Thread)
    requires c.Transaction?
    ensures Open(Handled(c, t).log) == Open(t.log)
    decreases |t.input|, 2, 0
  {
    var a := Entered(c, t);
    var b := if c.alive then DoActs(c.body, a) else a;
    assert Open(b.log) == Open(a.log) by {
      if c.alive { ActsKeepOpen(c.body, a); }
    }
    if !OneWay(c) {
      var error := if c.alive then c.error else UNKNOWN_TRANSACTION;
      var answer := Answered(c.id, if error < 0 then error else 0);
      AnswerCloses(t.log, b.log, c.id, answer);
      WaitKeepsOpen(b.(log := b.log + [answer]), false);
    }
  }

  lemma AnswerCloses(before: seq<Step>, after: seq<Step>, id: nat, answer: Step)
    requires Open(after) == Open(before + [Took(id)]) && answer.Answered? && answer.id == id
    ensures Open(after + [answer]) == Open(before)
  {
    OpenAppend(before, Took(id));
    OpenAppend(after, answer);
    PushPop(Open(before), id, answer);
  }

  lemma PushPop(open: Option<seq<nat>>, id: nat, answer: Step)
    requires answer.Answered? && answer.id == id
    ensures OpenStep(OpenStep(open, Took(id)), answer) == open
  {
    if open.Some? {
      assert (open.value + [id])[..|open.value|] == open.value;
    }
  }

  /** Replies nest: while a command is executed every two-way transaction taken is answered once, innermost
      first, whatever the handlers do and even when the driver fails, so a reply never goes to the sender of
      another transaction. */
  lemma {:induction false} RepliesNest(c: Command, t: Thread)
    ensures Open(Execute(c, t).0.log) == Open(t.log)
    decreases |t.input|, 3, 0
  {
    match c
    case Transaction(_, _, _, _, _, _, _) => HandledKeepsOpen(c, t);
    case DeadBinder(body) => ActsKeepOpen(body, t);
    case _ =>
  }

  /** The thread object. `input` is what the driver will hand over; `log` is only there for the proofs. */
  class IpcThreadState {
    const pid: bv32
    const uid: bv32
    var input: seq<Command>
    var callingPid: bv32
    var callingUid: bv32
    var strictModePolicy: int
    var lastTransactionBinderFlags: bv32
    var lastError: int
    ghost var log: seq<Step>

    ghost function View(): Thread
      reads this
    {
      Thread(input, Identity(callingPid, callingUid, strictModePolicy, lastTransactionBinderFlags), lastError, log,
          pid, uid)
    }

    constructor (processId: bv32, userId: bv32, commands: seq<Command>)
      ensures View() == Thread(commands, Identity(processId, userId, 0, 0), 0, [], processId, userId)
    {
      pid, uid, input, log := processId, userId, commands, [];
      callingPid, callingUid, strictModePolicy, lastTransactionBinderFlags, lastError := processId, userId, 0, 0, 0;
    }

    method ClearCallingIdentity() returns (token: bv64)
      modifies this
      ensures View() == old(View()).(identity := LocalAct(Clear, old(View()).identity, pid, uid))
      ensures token == Token(old(callingPid), old(callingUid))
    {
      token := ((callingUid as bv64) << 32) | SignExtend(callingPid);
      callingPid, callingUid := pid, uid;
    }

    method RestoreCallingIdentity(token: bv64)
      modifies this
      ensures View() == old(View()).(identity := LocalAct(Restore(token), old(View()).identity, pid, uid))
    {
      callingUid := (token >> 32) as bv32;
      callingPid := (token & 0xFFFF_FFFF) as bv32;
    }

    /** The code of a handler or of death recipients. */
    method RunHandler(body: seq<Act>)
      modifies this
      ensures View() == DoActs(body, old(View()))
      decreases |input|, 1, |body|
    {
      var acts := body;
      ghost var goal := DoActs(body, View());
      while acts != []
        invariant DoActs(acts, View()) == goal && |input| <= old(|input|)
        decreases |acts|
      {
        Perform(acts[0]);
        acts := acts[1..];
      }
    }

    method Perform(act: Act)
      modifies this
      ensures View() == DoAct(act, old(View()))
      decreases |input|, 1, 0
    {
      match act
      case Ask =>
        log := log + [Told(Identity(callingPid, callingUid, strictModePolicy, lastTransactionBinderFlags))];
      case Clear => var token := ClearCallingIdentity();
      case Restore(token) => RestoreCallingIdentity(token);
      case SetPolicy(policy) => strictModePolicy := policy;
      case SetFlags(flags) => lastTransactionBinderFlags := flags;
      case Call(oneWay, sound) => var error := Transact(oneWay, sound);
    }

    method Transact(oneWay: bool, sound: bool) returns (error: int)
      modifies this
      ensures View() == DoAct(Call(oneWay, sound), old(View()))
      ensures sound ==> error == Wait(old(View()).(log := old(log) + [Sent(oneWay)]), !oneWay).1
      ensures !sound ==> error == BAD_VALUE
      decreases |input|, 0, 1
    {
      if !sound {
        lastError := BAD_VALUE;
        return BAD_VALUE;
      }
      log := log + [Sent(oneWay)];
      error := WaitForResponse(!oneWay);
    }

    method WaitForResponse(wantReply: bool) returns (error: int)
      modifies this
      ensures (View(), error) == Wait(old(View()), wantReply)
      decreases |input|, 0, 0
    {
      ghost var goal := Wait(View(), wantReply);
      while true
        invariant Wait(View(), wantReply) == goal && |input| <= old(|input|)
        decreases |input|
      {
        if |input| == 0 {
          error := BAD_FD;
          break;
        }
        var cmd := input[0];
        input := input[1..];
        match cmd {
          case Fault(e) =>
            if e < 0 {
              error := e;
              break;
            }
          case Complete =>
            if !wantReply {
              error := 0;
              break;
            }
          case DeadReply =>
            error := DEAD_OBJECT;
            break;
          case FailedReply =>
            error := FAILED_TRANSACTION;
            break;
          case AcquireResult =>
          case Reply(status) =>
            if wantReply {
              error := status;
              break;
            }
          case _ =>
            error := ExecuteCommand(cmd);
            if error != 0 {
              break;
            }
        }
      }
      if error != 0 {
        lastError := error;
      }
    }

    method SendReply(id: nat, error: int)
      modifies this
      ensures View() == ReplyTo(old(View()), id, error)
      decreases |input|, 1, 0
    {
      log := log + [Answered(id, if error < 0 then error else 0)];
      var status := WaitForResponse(false);
    }

    /** The BR_TRANSACTION case of executeCommand. */
    method ExecuteTransaction(cmd: Command)
      requires cmd.Transaction?
      modifies this
      ensures View() == Handled(cmd, old(View())).(identity := old(View()).identity)
      decreases |input|, 2, 1
    {
      var origPid, origUid := callingPid, callingUid;
      var origPolicy, origFlags := strictModePolicy, lastTransactionBinderFlags;
      HandleTransaction(cmd);
      callingPid, callingUid, strictModePolicy, lastTransactionBinderFlags := origPid, origUid, origPolicy, origFlags;
    }

    /** The handler under its sender's identity, and the reply. */
    method HandleTransaction(cmd: Command)
      requires cmd.Transaction?
      modifies this
      ensures View() == Handled(cmd, old(View()))
      decreases |input|, 2, 0
    {
      callingPid, callingUid, lastTransactionBinderFlags := cmd.pid, cmd.uid, cmd.flags;
      if !OneWay(cmd) {
        log := log + [Took(cmd.id)];
      }
      assert View() == Entered(cmd, old(View()));
      var error := UNKNOWN_TRANSACTION;
      if cmd.alive {
        RunHandler(cmd.body);
        error := cmd.error;
      }
      if !OneWay(cmd) {
        SendReply(cmd.id, error);
      }
    }

    method ExecuteCommand(cmd: Command) returns (result: int)
      modifies this
      ensures (View(), result) == Execute(cmd, old(View()))
      decreases |input|, 3, 0
    {
      result := 0;
      match cmd {
        case Plain(r) => result := r;
        case Transaction(_, _, _, _, _, _, _) => ExecuteTransaction(cmd);
        case DeadBinder(body) => RunHandler(body);
        case _ => result := UNKNOWN_ERROR;
      }
      if result != 0 {
        lastError := result;
      }
    }

    method JoinThreadPool(isMain: bool)
      modifies this
      ensures View() == Serve(old(View()), isMain)
    {
      ghost var goal := Serve(View(), isMain);
      while |input| > 0
        invariant Serve(View(), isMain) == goal
        decreases |input|
      {
        var cmd := input[0];
        input := input[1..];
        var result;
        if cmd.Fault? {
          result := cmd.error;
        } else {
          result := ExecuteCommand(cmd);
        }
        if Leaves(result, isMain) {
          return;
        }
      }
    }
  }
}
