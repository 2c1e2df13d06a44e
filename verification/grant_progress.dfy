/** What the protocol achieves: a proper GO is accepted, and an undisturbed attempt ends
    in success. */
module GrantProgress {
  import opened Basics
  import opened SessionChild
  import opened GrantProtocol

  /** A lease id that may be written into a file: 1 to 128 letters, digits and `._:-`,
      starting with a letter or digit. */
  predicate IsLeaseText(s: string) {
    && 1 <= |s| && |s| <= 128
    && ('a' <= s[0] <= 'z' || 'A' <= s[0] <= 'Z' || '0' <= s[0] <= '9')
    && forall k :: 0 <= k < |s| ==>
         || 'a' <= s[k] <= 'z' || 'A' <= s[k] <= 'Z' || '0' <= s[k] <= '9'
         || s[k] == '.' || s[k] == '_' || s[k] == ':' || s[k] == '-'
  }

  /** A polling child accepts exactly a complete GO for its own identity and lease, issued
      by the deadline and read before it, while nobody has asked it to terminate. */
  lemma AcceptsExactly(req: Request, d: Dir, pid: nat, c: Child, wall: int, ch: Choice)
    requires c.pc == AwaitingGo
    ensures ChildStep(req, d, pid, c, wall, ch).1.pc == Accepted <==>
              && !d.terminate && d.go.Full?
              && var g := d.go.value;
              && g.id.attempt == req.attempt && g.id.digest == req.digest && g.id.pid == pid
              && g.id.source == c.source && g.id.interpreter == c.interpreter
              && c.lease == Some(g.lease) && IsLeaseText(g.lease)
              && g.issuedAt <= req.deadline && wall < req.deadline
  {
    if d.go.Full? {
      LeaseTextIsPortable(d.go.value.lease);
    }
    hide IsPortable, IsLeaseText;
  }

  lemma LeaseTextIsPortable(s: string)
    ensures IsPortable(s) <==> IsLeaseText(s)
  {
  }

  // The undisturbed attempt

  /** Everything that the surroundings decide about an attempt that goes well. */
  datatype Attempt = Attempt(req: Request, pid: nat, lease: string, fingerprint: string,
                             issued: int, polled: int, early: nat, late: nat)

  /** The deadlines leave time: the parent decides before its own, and the GO is issued
      by and polled before the one it names, while the wall clock does not run back. */
  predicate LeavesTime(a: Attempt) {
    && a.early < a.req.deadlineMono && a.issued <= a.polled && a.polled < a.req.deadline
    && IsLeaseText(a.lease) && IsFingerprint(a.fingerprint)
  }

  function GoodWorld(a: Attempt): World {
    World(true, true, Found, Some(a.fingerprint), Armed, true, Disarmed, true, false)
  }

  const GOOD_ENDING := Ending(true, true, true)
  const GOOD_FILES := Files(true, true, 0, false, true)

  function Ours(a: Attempt): Identity {
    Identity(a.req.attempt, a.req.digest, a.pid, a.req.source, a.req.interpreter)
  }

  function ByChild(a: Attempt, ch: Choice): Action {
    ChildAction(a.pid, ch)
  }

  /** Launch, some time, and the child's look at the empty directory. */
  function Launching(a: Attempt): seq<Action> {
    [Launch(a.pid, a.req.source, a.req.interpreter), Clocks(a.issued, a.early), ByChild(a, Proceed)]
  }

  function Thrice(x: Action): seq<Action> {
    [x, x, x]
  }

  /** The lease, and READY. */
  function Leasing(a: Attempt): seq<Action> {
    [ByChild(a, GetsLease(a.lease)), ByChild(a, Proceed), ByChild(a, Proceed)]
  }

  /** Some time, the poll that finds the GO, and the start of the work. */
  function Polling(a: Attempt): seq<Action> {
    [Clocks(a.polled, a.late), ByChild(a, Proceed), ByChild(a, Works(GoodWorld(a)))]
  }

  /** The release, and the result. */
  function Finishing(a: Attempt): seq<Action> {
    [ByChild(a, Ends(GOOD_ENDING)), ByChild(a, Proceed), ByChild(a, Proceed)]
  }

  /** The parent reads the result and the exit code, and reports. */
  const REPORTING: seq<Action> := [ParentAction(Proceed), ParentAction(Proceed), ParentAction(GOOD_FILES)]

  /** Claim by the child, READY and claim checked by the parent, GO by the parent, work
      by the child, and both ends. */
  function UndisturbedRun(a: Attempt): seq<Action> {
    Launching(a) + Thrice(ByChild(a, Proceed)) + Leasing(a)
    + Thrice(ParentAction(Proceed)) + Thrice(ParentAction(Proceed))
    + Polling(a) + Thrice(ByChild(a, Proceed)) + Thrice(ByChild(a, Proceed)) + Finishing(a) + REPORTING
  }

  // Its stages

  function Only(a: Attempt, d: Dir, c: Child, p: Parent, wall: int, mono: int): System {
    System(a.req, d, map[a.pid := c], p, wall, mono)
  }

  lemma ChildMoves(a: Attempt, d: Dir, c: Child, p: Parent, wall: int, mono: int, ch: Choice)
    ensures var r := ChildStep(a.req, d, a.pid, c, wall, ch);
            Next(Only(a, d, c, p, wall, mono), ByChild(a, ch)) == Only(a, r.0, r.1, p, wall, mono)
  {
    hide ChildStep;
    var r := ChildStep(a.req, d, a.pid, c, wall, ch);
    assert map[a.pid := c][a.pid := r.1] == map[a.pid := r.1];
  }

  lemma ParentMoves(a: Attempt, d: Dir, c: Child, p: Parent, wall: int, mono: int, ch: Choice)
    ensures var r := ParentStep(Only(a, d, c, p, wall, mono), ch);
            Next(Only(a, d, c, p, wall, mono), ParentAction(ch)) == Only(a, r.0, c, r.1, wall, mono)
  {
    hide ParentStep;
  }

  lemma ExecThree(s: System, x: Action, y: Action, z: Action)
    ensures Exec(s, [x, y, z]) == Next(Next(Next(s, x), y), z)
  {
    hide Next;
    assert [x, y, z][1..] == [y, z] && [y, z][1..] == [z] && [z][1..] == [];
    assert Exec(s, [x, y, z]) == Exec(Next(s, x), [y, z]);
    assert Exec(Next(s, x), [y, z]) == Exec(Next(Next(s, x), y), [z]);
  }

  lemma {:induction false} ExecAppend(s: System, a: seq<Action>, b: seq<Action>)
    ensures Exec(s, a + b) == Exec(Exec(s, a), b)
    decreases |a|
  {
    hide Next;
    if a == [] {
      assert a + b == b;
    } else {
      assert (a + b)[1..] == a[1..] + b;
      ExecAppend(Next(s, a[0]), a[1..], b);
    }
  }

  /** Three moves of the child, or of the parent. */
  lemma ThreeOfChild(a: Attempt, d: Dir, c: Child, p: Parent, wall: int, mono: int, x: Choice, y: Choice, z: Choice)
    ensures var r := ChildStep(a.req, d, a.pid, c, wall, x);
            var q := ChildStep(a.req, r.0, a.pid, r.1, wall, y);
            var t := ChildStep(a.req, q.0, a.pid, q.1, wall, z);
            Exec(Only(a, d, c, p, wall, mono), [ByChild(a, x), ByChild(a, y), ByChild(a, z)]) == Only(a, t.0, t.1, p, wall, mono)
  {
    hide ChildStep, Exec;
    ExecThree(Only(a, d, c, p, wall, mono), ByChild(a, x), ByChild(a, y), ByChild(a, z));
    hide Next;
    var r := ChildStep(a.req, d, a.pid, c, wall, x);
    var q := ChildStep(a.req, r.0, a.pid, r.1, wall, y);
    ChildMoves(a, d, c, p, wall, mono, x);
    ChildMoves(a, r.0, r.1, p, wall, mono, y);
    ChildMoves(a, q.0, q.1, p, wall, mono, z);
  }

  lemma ThreeOfParent(a: Attempt, d: Dir, c: Child, p: Parent, wall: int, mono: int, x: Choice, y: Choice, z: Choice)
    ensures var r := ParentStep(Only(a, d, c, p, wall, mono), x);
            var q := ParentStep(Only(a, r.0, c, r.1, wall, mono), y);
            var t := ParentStep(Only(a, q.0, c, q.1, wall, mono), z);
            Exec(Only(a, d, c, p, wall, mono), [ParentAction(x), ParentAction(y), ParentAction(z)])
            == Only(a, t.0, c, t.1, wall, mono)
  {
    hide ParentStep, Exec;
    ExecThree(Only(a, d, c, p, wall, mono), ParentAction(x), ParentAction(y), ParentAction(z));
    hide Next;
    var r := ParentStep(Only(a, d, c, p, wall, mono), x);
    var q := ParentStep(Only(a, r.0, c, r.1, wall, mono), y);
    ParentMoves(a, d, c, p, wall, mono, x);
    ParentMoves(a, r.0, c, r.1, wall, mono, y);
    ParentMoves(a, q.0, c, q.1, wall, mono, z);
  }

  function ChildAt(a: Attempt, pc: ChildPc): Child {
    Child(a.req.source, a.req.interpreter, pc, None, false, None, [], None)
  }

  function Leased(a: Attempt, pc: ChildPc): Child {
    ChildAt(a, pc).(lease := Some(a.lease), holds := true)
  }

  function Granted(a: Attempt, pc: ChildPc, log: seq<Op>): Child {
    Leased(a, pc).(grant := Some((GoOf(a), a.polled)), log := log)
  }

  function GoOf(a: Attempt): Go {
    Go(Ours(a), a.lease, a.issued)
  }

  function Claimed(a: Attempt): Dir {
    EMPTY_DIR.(claim := Full(ChildW(a.pid), Ours(a)))
  }

  function ReadyDir(a: Attempt): Dir {
    Claimed(a).(ready := Full(ChildW(a.pid), Ready(Ours(a), a.lease)))
  }

  function GoDir(a: Attempt): Dir {
    ReadyDir(a).(go := Full(ParentW, GoOf(a)))
  }

  function Waits(a: Attempt): Parent {
    Parent(WaitReady, a.pid, None, false, false, None, None, "")
  }

  function Checked(a: Attempt): Parent {
    Waits(a).(pc := Deciding, ready := Some(Ready(Ours(a), a.lease)), claimVerified := true)
  }

  function Grants(a: Attempt): Parent {
    Checked(a).(pc := WaitResult, goWritten := true)
  }

  lemma LaunchStage(a: Attempt)
    ensures Exec(Init(a.req), Launching(a)) == Only(a, EMPTY_DIR, ChildAt(a, Listed), Waits(a), a.issued, a.early)
  {
    var x, y, z := Launching(a)[0], Launching(a)[1], Launching(a)[2];
    ExecThree(Init(a.req), x, y, z);
    hide Exec;
    assert map[][a.pid := ChildAt(a, Boot)] == map[a.pid := ChildAt(a, Boot)];
    assert Next(Init(a.req), x) == Only(a, EMPTY_DIR, ChildAt(a, Boot), Waits(a), 0, 0);
    ChildMoves(a, EMPTY_DIR, ChildAt(a, Boot), Waits(a), a.issued, a.early, Proceed);
  }

  lemma ClaimStage(a: Attempt)
    ensures Exec(Only(a, EMPTY_DIR, ChildAt(a, Listed), Waits(a), a.issued, a.early), Thrice(ByChild(a, Proceed)))
         == Only(a, Claimed(a), ChildAt(a, Reserved), Waits(a), a.issued, a.early)
  {
    hide Exec;
    ThreeOfChild(a, EMPTY_DIR, ChildAt(a, Listed), Waits(a), a.issued, a.early, Proceed, Proceed, Proceed);
  }

  lemma LeaseStage(a: Attempt)
    ensures Exec(Only(a, Claimed(a), ChildAt(a, Reserved), Waits(a), a.issued, a.early), Leasing(a))
         == Only(a, ReadyDir(a), Leased(a, AwaitingGo), Waits(a), a.issued, a.early)
  {
    hide Exec;
    ThreeOfChild(a, Claimed(a), ChildAt(a, Reserved), Waits(a), a.issued, a.early, GetsLease(a.lease), Proceed, Proceed);
  }

  lemma CheckStage(a: Attempt)
    requires LeavesTime(a)
    ensures Exec(Only(a, ReadyDir(a), Leased(a, AwaitingGo), Waits(a), a.issued, a.early), Thrice(ParentAction(Proceed)))
         == Only(a, ReadyDir(a), Leased(a, AwaitingGo), Checked(a), a.issued, a.early)
  {
    hide Exec;
    LeaseTextIsPortable(a.lease);
    hide IsPortable;
    ThreeOfParent(a, ReadyDir(a), Leased(a, AwaitingGo), Waits(a), a.issued, a.early, Proceed, Proceed, Proceed);
  }

  lemma GoStage(a: Attempt)
    requires LeavesTime(a)
    ensures Exec(Only(a, ReadyDir(a), Leased(a, AwaitingGo), Checked(a), a.issued, a.early), Thrice(ParentAction(Proceed)))
         == Only(a, GoDir(a), Leased(a, AwaitingGo), Grants(a), a.issued, a.early)
  {
    hide Exec;
    ThreeOfParent(a, ReadyDir(a), Leased(a, AwaitingGo), Checked(a), a.issued, a.early, Proceed, Proceed, Proceed);
  }

  lemma PollStage(a: Attempt)
    requires LeavesTime(a)
    ensures Exec(Only(a, GoDir(a), Leased(a, AwaitingGo), Grants(a), a.issued, a.early), Polling(a))
         == Only(a, GoDir(a), Granted(a, Working(GoodWorld(a), 0), []), Grants(a), a.polled, a.early + a.late)
  {
    LeaseTextIsPortable(a.lease);
    var x, y, z := Polling(a)[0], Polling(a)[1], Polling(a)[2];
    var s := Only(a, GoDir(a), Leased(a, AwaitingGo), Grants(a), a.issued, a.early);
    ExecThree(s, x, y, z);
    hide Exec, IsPortable;
    var mono := a.early + a.late;
    assert Next(s, x) == Only(a, GoDir(a), Leased(a, AwaitingGo), Grants(a), a.polled, mono);
    hide Next;
    ChildMoves(a, GoDir(a), Leased(a, AwaitingGo), Grants(a), a.polled, mono, Proceed);
    ChildMoves(a, GoDir(a), Granted(a, Accepted, []), Grants(a), a.polled, mono, Works(GoodWorld(a)));
  }

  lemma GoodWork(a: Attempt)
    ensures var p := Work(GoodWorld(a));
            && p.log == FULL_LOG[..5] && p.outcome == "ok" && p.errors == {} && p.options && p.trace == Trace(true, true)
            && p.facts == Facts(1, 1, 1, true, false, 1, 0, Some(a.fingerprint))
  {
  }

  lemma WorkStages(a: Attempt)
    ensures var mono := a.early + a.late;
            var s := Only(a, GoDir(a), Granted(a, Working(GoodWorld(a), 0), []), Grants(a), a.polled, mono);
            Exec(Exec(s, Thrice(ByChild(a, Proceed))), Thrice(ByChild(a, Proceed)))
            == Only(a, GoDir(a), Granted(a, GrantProtocol.Finishing(Work(GoodWorld(a))), FULL_LOG[..5]), Grants(a), a.polled, mono)
  {
    var mono := a.early + a.late;
    var w := GoodWorld(a);
    GoodWork(a);
    hide Exec, Work;
    ThreeOfChild(a, GoDir(a), Granted(a, Working(w, 0), []), Grants(a), a.polled, mono, Proceed, Proceed, Proceed);
    ThreeOfChild(a, GoDir(a), Granted(a, Working(w, 3), Work(w).log[..3]), Grants(a), a.polled, mono, Proceed, Proceed, Proceed);
  }

  function GoodProgress(a: Attempt): Progress {
    Finish(Work(GoodWorld(a)), true, GOOD_ENDING)
  }

  function GoodResult(a: Attempt): Result {
    ResultOf(Ours(a), Some(a.lease), GoodProgress(a))
  }

  lemma GoodEnd(a: Attempt)
    requires LeavesTime(a)
    ensures GoodProgress(a).log == FULL_LOG && GoodResult(a).ok && ResultIsOk(GoodResult(a))
    ensures ValidateResult(GoodResult(a), Ours(a), Some(a.lease))
    ensures GoodResult(a).trace.armed && GoodResult(a).trace.cancelled
  {
    GoodWork(a);
    LeaseTextIsPortable(a.lease);
    hide Work, IsPortable, IsFingerprint;
    assert FULL_LOG[..5] + [ReleaseLease] == FULL_LOG;
  }

  function EndDir(a: Attempt): Dir {
    GoDir(a).(result := Full(ChildW(a.pid), GoodResult(a)))
  }

  function Done(a: Attempt): Child {
    Granted(a, Exited(0), FULL_LOG).(holds := false, wrote := Some(GoodResult(a)))
  }

  lemma FinishStage(a: Attempt)
    requires LeavesTime(a)
    ensures var mono := a.early + a.late;
            Exec(Only(a, GoDir(a), Granted(a, GrantProtocol.Finishing(Work(GoodWorld(a))), FULL_LOG[..5]), Grants(a), a.polled, mono),
                 Finishing(a))
            == Only(a, EndDir(a), Done(a), Grants(a), a.polled, mono)
  {
    GoodEnd(a);
    hide Exec, Work, Finish, ResultOf, ResultIsOk, ValidateResult, PollGo, WorkOn, IsPortable, IsFingerprint;
    ThreeOfChild(a, GoDir(a), Granted(a, GrantProtocol.Finishing(Work(GoodWorld(a))), FULL_LOG[..5]), Grants(a), a.polled,
                 a.early + a.late, Ends(GOOD_ENDING), Proceed, Proceed);
  }

  lemma ReportStage(a: Attempt)
    requires LeavesTime(a)
    ensures var s := Exec(Only(a, EndDir(a), Done(a), Grants(a), a.polled, a.early + a.late), REPORTING);
            s.parent.pc == Reported(true, 0) && s.children == map[a.pid := Done(a)]
  {
    GoodEnd(a);
    hide Exec, Work, Finish, ResultOf, ResultIsOk, ValidateResult, IsPortable, IsFingerprint;
    ThreeOfParent(a, EndDir(a), Done(a), Grants(a), a.polled, a.early + a.late, Proceed, Proceed, GOOD_FILES);
  }

  /** Whenever the deadlines leave time, the undisturbed attempt of any pid under any
      lease ends in success, with one of each backend operation in order. */
  lemma UndisturbedSucceeds(a: Attempt)
    requires LeavesTime(a)
    ensures var s := Exec(Init(a.req), UndisturbedRun(a));
            && s.parent.pc == Reported(true, 0)
            && a.pid in s.children && s.children[a.pid].log == FULL_LOG && s.children[a.pid].pc == Exited(0)
  {
    hide *;
    LaunchStage(a);
    ClaimStage(a);
    LeaseStage(a);
    CheckStage(a);
    GoStage(a);
    PollStage(a);
    WorkStages(a);
    FinishStage(a);
    ReportStage(a);
    RunSplits(a);
    DoneIsDone(a);
  }

  lemma DoneIsDone(a: Attempt)
    ensures Done(a).log == FULL_LOG && Done(a).pc == Exited(0)
  {
  }

  /** The run is its stages. */
  lemma RunSplits(a: Attempt)
    ensures var ready := Exec(Exec(Exec(Init(a.req), Launching(a)), Thrice(ByChild(a, Proceed))), Leasing(a));
            var granted := Exec(Exec(ready, Thrice(ParentAction(Proceed))), Thrice(ParentAction(Proceed)));
            var worked := Exec(Exec(Exec(granted, Polling(a)), Thrice(ByChild(a, Proceed))), Thrice(ByChild(a, Proceed)));
            Exec(Init(a.req), UndisturbedRun(a)) == Exec(Exec(worked, Finishing(a)), REPORTING)
  {
    var x1, x2, x3 := Launching(a), Thrice(ByChild(a, Proceed)), Leasing(a);
    var x4 := Thrice(ParentAction(Proceed));
    var x6, x9 := Polling(a), Finishing(a);
    hide Exec, Launching, Thrice, Leasing, Polling, Finishing;
    var s := Init(a.req);
    ExecAppend(s, x1, x2);
    ExecAppend(s, x1 + x2, x3);
    ExecAppend(s, x1 + x2 + x3, x4);
    ExecAppend(s, x1 + x2 + x3 + x4, x4);
    ExecAppend(s, x1 + x2 + x3 + x4 + x4, x6);
    ExecAppend(s, x1 + x2 + x3 + x4 + x4 + x6, x2);
    ExecAppend(s, x1 + x2 + x3 + x4 + x4 + x6 + x2, x2);
    ExecAppend(s, x1 + x2 + x3 + x4 + x4 + x6 + x2 + x2, x9);
    ExecAppend(s, x1 + x2 + x3 + x4 + x4 + x6 + x2 + x2 + x9, REPORTING);
  }
}
