/** The one-shot grant: a parent and any number of children that share nothing but
    exclusively created files, with crashes, cancellation and clocks in any order. */
module GrantProtocol {
  import opened Basics
  import opened SessionChild

  datatype Writer = ParentW | ChildW(pid: nat)

  /** A run file. Exclusive creation gives it one writer; until that writer is done
      (or if it dies first) readers see an incomplete record. */
  datatype File<+T> = Absent | Partial(writer: Writer) | Full(writer: Writer, value: T)

  datatype Ready = Ready(id: Identity, lease: string)
  datatype Go = Go(id: Identity, lease: string, issuedAt: int)

  datatype Dir = Dir(
    claim: File<Identity>,
    ready: File<Ready>,
    go: File<Go>,
    result: File<Result>,
    terminate: bool)

  /** What the request and the parent's own command line fix for the attempt. */
  datatype Request = Request(attempt: int, digest: int, deadline: int, source: int, interpreter: int, deadlineMono: int)

  datatype ChildPc =
    | Boot
    | Listed
    | CreatingClaim
    | Claimed
    | Reserved
    | Leased
    | CreatingReady
    | AwaitingGo
    | Accepted
    | Working(world: World, done: nat)
    | Finishing(progress: Progress)
    | CreatingResult(result: Result)
    | WritingResult(result: Result)
    | Exited(code: int)
    | Refused
    | Dead

  /** `grant` is the accepted GO and the wall time of acceptance, `log` what the
      child really did, `wrote` the result that its file holds. */
  datatype Child = Child(
    source: int,
    interpreter: int,
    pc: ChildPc,
    lease: Option<string>,
    holds: bool,
    grant: Option<(Go, int)>,
    log: seq<Op>,
    wrote: Option<Result>)

  datatype ParentPc =
    | NotLaunched
    | WaitReady
    | WaitClaim
    | LookAround
    | Deciding
    | CreatingGo
    | WritingGo
    | WaitResult
    | WaitExit
    | Ended
    | Reported(ok: bool, exitCode: int)

  datatype Parent = Parent(
    pc: ParentPc,
    launched: nat,
    ready: Option<Ready>,
    claimVerified: bool,
    goWritten: bool,
    result: Option<Result>,
    returncode: Option<int>,
    outcome: string)

  datatype System = System(req: Request, dir: Dir, children: map<nat, Child>, parent: Parent, wall: int, mono: int)

  /** How the surroundings answer one step. A write that fails may have left all bytes
      behind, when only flushing or closing the file raises. */
  datatype Choice =
    | Proceed
    | WriteFails(complete: bool)
    | GetsLease(lease: string)
    | NoLease(outcome: string)
    | Works(world: World)
    | Ends(ending: Ending)
    | Cancelled
    | ChildGone
    | Unexpected
    | Files(eventsVerified: bool, tracebackSized: bool, errors: nat, alive: bool, reportWritten: bool)

  datatype Action =
    | Launch(pid: nat, source: int, interpreter: int)
    | Stray(pid: nat, source: int, interpreter: int)
    | ChildAction(pid: nat, choice: Choice)
    | ParentAction(choice: Choice)
    | RequestTermination
    | Kill(pid: nat)
    | Clocks(wall: int, elapsed: nat)

  const EMPTY_DIR := Dir(Absent, Absent, Absent, Absent, false)

  function Init(req: Request): System {
    System(req, EMPTY_DIR, map[], Parent(NotLaunched, 0, None, false, false, None, None, ""), 0, 0)
  }

  function IdOf(req: Request, pid: nat, c: Child): Identity {
    Identity(req.attempt, req.digest, pid, c.source, c.interpreter)
  }

  /** The identity the parent expects of the child it launched. */
  function Expected(req: Request, p: Parent): Identity {
    Identity(req.attempt, req.digest, p.launched, req.source, req.interpreter)
  }

  function NewChild(source: int, interpreter: int): Child {
    Child(source, interpreter, Boot, None, false, None, [], None)
  }

  function Ungranted(c: Child, outcome: string, errors: set<ErrorKey>): Child {
    c.(pc := Finishing(NEW_PROGRESS.(outcome := outcome, errors := errors)))
  }

  /** What a completing write leaves of the writer's file. */
  function Written<T>(ch: Choice, file: File<T>, full: File<T>): File<T> {
    if ch.WriteFails? && !ch.complete then file else full
  }

  /** `_await_go`, one poll. */
  function PollGo(req: Request, d: Dir, id: Identity, c: Child, wall: int): Child {
    if d.terminate then Ungranted(c, "cancelled-before-go", {})
    else if d.go.Full? then
      var g := d.go.value;
      if g.id != id || !IsPortable(g.lease) then Ungranted(c, "go-identity-mismatch", {GoKey})
      else if Some(g.lease) != c.lease then Ungranted(c, "go-lease-mismatch", {GoKey})
      else if g.issuedAt > req.deadline || wall >= req.deadline then Ungranted(c, "go-expired", {GoKey})
      else c.(pc := Accepted, grant := Some((g, wall)))
    else if wall >= req.deadline then Ungranted(c, "go-timeout", {GoKey})
    else c
  }

  /** The next operation of the granted work, or its end. */
  function WorkOn(c: Child, w: World, n: nat): Child {
    var p := Work(w);
    if n < |p.log| then c.(pc := Working(w, n + 1), log := p.log[..n + 1])
    else c.(pc := Finishing(p), log := p.log)
  }

  /** Releasing the lease and settling the result. */
  function EndWork(id: Identity, c: Child, p: Progress, e: Ending): Child {
    var q := Finish(p, c.lease.Some?, e);
    c.(pc := CreatingResult(ResultOf(id, c.lease, q)), log := q.log, holds := c.holds && !e.releases)
  }

  /** One step of a child, as `child_main` orders them. */
  function ChildStep(req: Request, d: Dir, pid: nat, c: Child, wall: int, ch: Choice): (Dir, Child) {
    var me := ChildW(pid);
    var id := IdOf(req, pid, c);
    match c.pc
    case Boot =>
      if d == EMPTY_DIR then (d, c.(pc := Listed)) else (d, c.(pc := Refused))
    case Listed =>
      if d.claim.Absent? then (d.(claim := Partial(me)), c.(pc := CreatingClaim)) else (d, c.(pc := Refused))
    case CreatingClaim =>
      (d.(claim := Written(ch, d.claim, Full(me, id))), c.(pc := if ch.WriteFails? then Refused else Claimed))
    case Claimed =>
      if d.claim.Full? && d.claim.value == id then (d, c.(pc := Reserved)) else (d, c.(pc := Refused))
    case Reserved =>
      if ch.GetsLease? then (d, c.(pc := Leased, lease := Some(ch.lease), holds := true))
      else if ch.NoLease? then (d, Ungranted(c, if ch.outcome == "busy" then "busy" else "lease-error", {LeaseKey}))
      else (d, c)
    case Leased =>
      if d.ready.Absent? then (d.(ready := Partial(me)), c.(pc := CreatingReady))
      else (d, Ungranted(c, "ready-write-failed", {ReadyKey}))
    case CreatingReady =>
      if c.lease.None? then (d, Ungranted(c, "ready-write-failed", {ReadyKey}))
      else
        (d.(ready := Written(ch, d.ready, Full(me, Ready(id, c.lease.value)))),
         if ch.WriteFails? then Ungranted(c, "ready-write-failed", {ReadyKey}) else c.(pc := AwaitingGo))
    case AwaitingGo => (d, PollGo(req, d, id, c, wall))
    case Accepted => if ch.Works? then (d, c.(pc := Working(ch.world, 0))) else (d, c)
    case Working(w, n) => (d, WorkOn(c, w, n))
    case Finishing(p) => if ch.Ends? then (d, EndWork(id, c, p, ch.ending)) else (d, c)
    case CreatingResult(r) =>
      if d.result.Absent? then (d.(result := Partial(me)), c.(pc := WritingResult(r))) else (d, c.(pc := Exited(6)))
    case WritingResult(r) =>
      (d.(result := Written(ch, d.result, Full(me, r))),
       c.(pc := Exited(if r.ok && !ch.WriteFails? then 0 else 6),
          wrote := if ch.WriteFails? && !ch.complete then c.wrote else Some(r)))
    case Exited(_) => (d, c)
    case Refused => (d, c)
    case Dead => (d, c)
  }

  function Stop(p: Parent, outcome: string): Parent {
    p.(pc := Ended, outcome := outcome)
  }

  /** `_exit_code`. */
  function ExitCode(outcome: string, ok: bool, errors: nat): int {
    if ok then 0
    else if outcome == "cancelled" then 5
    else if errors > 0 || outcome == "ok" then 7
    else if outcome in {"readiness-timeout", "work-timeout", "exit-timeout"} then 4
    else if outcome in {"child-exited", "child-nonzero-exit", "result-mismatch", "result-invalid"} then 6
    else 3
  }

  /** The attempt report's verdict; a lost report is never a success. */
  function ReportOf(p: Parent, f: Choice): ParentPc
    requires f.Files?
  {
    var ok := && p.outcome == "ok" && p.ready.Some? && p.claimVerified && p.goWritten
              && p.returncode == Some(0) && !f.alive
              && p.result.Some? && ResultIsOk(p.result.value)
              && f.eventsVerified && p.result.value.trace.armed && p.result.value.trace.cancelled
              && f.tracebackSized && f.errors == 0;
    if f.reportWritten then Reported(ok, ExitCode(p.outcome, ok, f.errors)) else Reported(false, 7)
  }

  /** One step of the parent, as `run_attempt` orders them. */
  function ParentStep(s: System, ch: Choice): (Dir, Parent) {
    var d, p := s.dir, s.parent;
    var expected := Expected(s.req, p);
    match p.pc
    case NotLaunched => (d, p)
    case WaitReady =>
      if ch.Cancelled? then (d, Stop(p, "cancelled"))
      else if d.ready.Full? then
        if d.ready.value.id == expected && IsPortable(d.ready.value.lease)
        then (d, p.(pc := WaitClaim, ready := Some(d.ready.value)))
        else (d, Stop(p, "readiness-mismatch"))
      else if s.mono >= s.req.deadlineMono then (d, Stop(p, "readiness-timeout"))
      else if ch.ChildGone? then (d, Stop(p, "startup-exited"))
      else (d, p)
    case WaitClaim =>
      if ch.Cancelled? then (d, Stop(p, "cancelled"))
      else if d.claim.Full? then
        if d.claim.value == expected then (d, p.(pc := LookAround, claimVerified := true))
        else (d, Stop(p, "readiness-mismatch"))
      else if s.mono >= s.req.deadlineMono || ch.ChildGone? then (d, Stop(p, "readiness-mismatch"))
      else (d, p)
    case LookAround =>
      if ch.Unexpected? then (d, Stop(p, "readiness-mismatch")) else (d, p.(pc := Deciding))
    case Deciding =>
      if ch.Cancelled? || d.terminate then (d, Stop(p, "cancelled"))
      else if s.mono >= s.req.deadlineMono then (d, Stop(p, "readiness-timeout"))
      else (d, p.(pc := CreatingGo))
    case CreatingGo =>
      if d.go.Absent? then (d.(go := Partial(ParentW)), p.(pc := WritingGo)) else (d, Stop(p, "grant-failed"))
    case WritingGo =>
      if p.ready.None? then (d, Stop(p, "grant-failed"))
      else
        (d.(go := Written(ch, d.go, Full(ParentW, Go(expected, p.ready.value.lease, s.wall)))),
         if ch.WriteFails? then Stop(p, "grant-failed") else p.(pc := WaitResult, goWritten := true))
    case WaitResult =>
      if ch.Cancelled? || p.ready.None? then (d, Stop(p, "cancelled"))
      else if d.result.Full? then
        if ValidateResult(d.result.value, expected, Some(p.ready.value.lease))
        then (d, p.(pc := WaitExit, result := Some(d.result.value)))
        else (d, Stop(p, "result-mismatch"))
      else if s.mono >= s.req.deadlineMono then (d, Stop(p, "work-timeout"))
      else if ch.ChildGone? then (d, Stop(p, "child-exited"))
      else (d, p)
    case WaitExit =>
      if ch.Cancelled? || d.terminate then (d, Stop(p, "cancelled"))
      else if p.launched in s.children && s.children[p.launched].pc.Exited? then
        var code := s.children[p.launched].pc.code;
        (d, Stop(p.(returncode := Some(code)), if code == 0 then "ok" else "child-nonzero-exit"))
      else if s.mono >= s.req.deadlineMono then (d, Stop(p, "exit-timeout"))
      else (d, p)
    case Ended => if ch.Files? then (d, p.(pc := ReportOf(p, ch))) else (d, p)
    case Reported(_, _) => (d, p)
  }

  /** Actions that do not apply leave the system as it is. */
  function Next(s: System, a: Action): System {
    match a
    case Launch(pid, source, interpreter) =>
      if s.parent.pc != NotLaunched || pid in s.children then s
      else s.(children := s.children[pid := NewChild(source, interpreter)], parent := s.parent.(pc := WaitReady, launched := pid))
    case Stray(pid, source, interpreter) =>
      if pid in s.children then s else s.(children := s.children[pid := NewChild(source, interpreter)])
    case ChildAction(pid, ch) =>
      if pid !in s.children then s
      else
        var r := ChildStep(s.req, s.dir, pid, s.children[pid], s.wall, ch);
        s.(dir := r.0, children := s.children[pid := r.1])
    case ParentAction(ch) =>
      var r := ParentStep(s, ch);
      s.(dir := r.0, parent := r.1)
    case RequestTermination => s.(dir := s.dir.(terminate := true))
    case Kill(pid) =>
      if pid !in s.children || s.children[pid].pc.Exited? then s
      else s.(children := s.children[pid := s.children[pid].(pc := Dead)])
    case Clocks(wall, elapsed) => s.(wall := wall, mono := s.mono + elapsed)
  }

  function Exec(s: System, actions: seq<Action>): System
    decreases |actions|
  {
    if actions == [] then s else Exec(Next(s, actions[0]), actions[1..])
  }

  // Files have one writer

  /** One writer's step on one file: create it, complete its own, or nothing. */
  ghost predicate FileStep<T>(a: File<T>, b: File<T>, w: Writer) {
    b == a || (a.Absent? && b == Partial(w)) || (a == Partial(w) && b.Full? && b.writer == w)
  }

  ghost predicate DirStep(a: Dir, b: Dir, w: Writer) {
    && FileStep(a.claim, b.claim, w) && FileStep(a.ready, b.ready, w)
    && FileStep(a.go, b.go, w) && FileStep(a.result, b.result, w)
  }

  // Invariants

  /** The child made its reservation and still lives by it. */
  ghost predicate PastClaim(pc: ChildPc) {
    !(pc.Boot? || pc.Listed? || pc.CreatingClaim? || pc.Refused? || pc.Dead?)
  }

  /** A grant is the parent's GO for exactly this child, accepted in time. */
  ghost predicate GrantHolds(req: Request, d: Dir, pid: nat, c: Child) {
    c.grant.Some? ==>
      && d.go == Full(ParentW, c.grant.value.0)
      && c.grant.value.0.id == IdOf(req, pid, c)
      && c.lease == Some(c.grant.value.0.lease)
      && c.grant.value.0.issuedAt <= req.deadline && c.grant.value.1 < req.deadline
      && d.claim == Full(ChildW(pid), IdOf(req, pid, c))
  }

  /** A result the parent would call successful was written by a granted child
      that did everything once. */
  ghost predicate Honest(req: Request, pid: nat, c: Child, r: Result) {
    r.id == IdOf(req, pid, c) && (ResultIsOk(r) ==> c.log == FULL_LOG && c.grant.Some?)
  }

  ghost predicate PcHolds(req: Request, d: Dir, pid: nat, c: Child) {
    match c.pc
    case CreatingClaim => d.claim == Partial(ChildW(pid)) && c.grant.None? && c.log == []
    case Leased => c.grant.None? && c.lease.Some? && c.holds && c.log == []
    case CreatingReady => c.grant.None? && c.lease.Some? && c.holds && d.ready == Partial(ChildW(pid)) && c.log == []
    case AwaitingGo => c.grant.None? && c.lease.Some? && c.holds && c.log == []
    case Accepted => c.grant.Some? && c.holds && c.log == []
    case Working(w, n) => c.grant.Some? && c.holds && n <= |Work(w).log| && c.log == Work(w).log[..n]
    case Finishing(p) => c.log == p.log && if c.grant.Some? then exists w :: p == Work(w) else p.facts == NEW_FACTS && p.log == []
    case CreatingResult(r) => Honest(req, pid, c, r)
    case WritingResult(r) => Honest(req, pid, c, r) && d.result == Partial(ChildW(pid))
    case Exited(code) => code == 0 ==> c.wrote.Some? && c.wrote.value.ok
    case Refused => c.log == []
    case Dead => true
    case _ => c.grant.None? && c.log == []
  }

  ghost predicate ChildInv(req: Request, d: Dir, pid: nat, c: Child) {
    && (PastClaim(c.pc) ==> d.claim == Full(ChildW(pid), IdOf(req, pid, c)))
    && (AcquireDriver in c.log ==> c.grant.Some?) && multiset(c.log)[AcquireDriver] <= 1
    && GrantHolds(req, d, pid, c)
    && (c.wrote.Some? ==> Honest(req, pid, c, c.wrote.value) && d.result == Full(ChildW(pid), c.wrote.value)
                          && (c.pc.Exited? || c.pc.Dead?))
    && PcHolds(req, d, pid, c)
  }

  /** GO exists only after a validated READY and claim of the launched child. */
  ghost predicate GoHolds(req: Request, d: Dir, p: Parent) {
    && (!d.go.Absent? ==>
          && d.go.writer == ParentW && p.pc != NotLaunched && p.ready.Some? && p.claimVerified)
    && (d.go.Full? ==> d.go.value.id == Expected(req, p) && p.ready.Some? && d.go.value.lease == p.ready.value.lease)
    && (p.goWritten ==> d.go.Full?)
  }

  ghost predicate ParentInv(req: Request, d: Dir, children: map<nat, Child>, p: Parent) {
    && GoHolds(req, d, p)
    && (p.pc == NotLaunched ==> p.ready.None? && !p.claimVerified && p.result.None? && p.returncode.None?)
    && (p.ready.Some? ==> d.ready.Full? && d.ready.value == p.ready.value && p.ready.value.id == Expected(req, p))
    && (p.claimVerified ==> d.claim.Full? && d.claim.value == Expected(req, p))
    && (p.result.Some? ==> d.result.Full? && d.result.value == p.result.value && p.result.value.id == Expected(req, p))
    && (p.returncode.Some? ==> p.launched in children && children[p.launched].pc == Exited(p.returncode.value))
    && match p.pc
       case WaitClaim => p.ready.Some?
       case LookAround => p.ready.Some? && p.claimVerified
       case Deciding => p.ready.Some? && p.claimVerified
       case CreatingGo => p.ready.Some? && p.claimVerified
       case WritingGo => p.ready.Some? && p.claimVerified && d.go == Partial(ParentW)
       case Reported(ok, code) =>
         && (ok <==> code == 0)
         && (ok ==> p.ready.Some? && p.claimVerified && p.goWritten && p.returncode == Some(0)
                    && p.result.Some? && ResultIsOk(p.result.value))
       case _ => true
  }

  /** Children write results and the parent does not. */
  ghost predicate ResultHolds(d: Dir, children: map<nat, Child>) {
    && (!d.result.Absent? ==> d.result.writer.ChildW?)
    && (d.result.Full? ==> d.result.writer.pid in children && children[d.result.writer.pid].wrote == Some(d.result.value))
    && (!d.claim.Absent? ==> d.claim.writer.ChildW? && d.claim.writer.pid in children)
    && (!d.ready.Absent? ==> d.ready.writer.ChildW? && d.ready.writer.pid in children)
  }

  ghost predicate Inv(s: System) {
    && (forall pid :: pid in s.children ==> ChildInv(s.req, s.dir, pid, s.children[pid]))
    && ParentInv(s.req, s.dir, s.children, s.parent)
    && ResultHolds(s.dir, s.children)
  }

  // Children keep the invariant

  lemma ChildStepFrame(req: Request, d: Dir, pid: nat, c: Child, wall: int, ch: Choice)
    requires ChildInv(req, d, pid, c)
    ensures var r := ChildStep(req, d, pid, c, wall, ch);
            && DirStep(d, r.0, ChildW(pid)) && r.0.go == d.go && r.0.terminate == d.terminate
            && (r.0.result != d.result ==>
                  r.0.result == Partial(ChildW(pid)) || (r.1.wrote.Some? && r.0.result == Full(ChildW(pid), r.1.wrote.value)))
            && (c.wrote.Some? ==> r.1.wrote == c.wrote)
            && (c.pc.Exited? ==> r.1 == c)
  {
    hide Work, Finish, ResultOf, Honest, GrantHolds, IsPortable;
  }

  lemma OtherChildSurvives(req: Request, a: Dir, b: Dir, w: Writer, pid: nat, c: Child)
    requires ChildInv(req, a, pid, c) && DirStep(a, b, w) && w != ChildW(pid)
    ensures ChildInv(req, b, pid, c)
  {
  }

  lemma ChildStepKeeps(req: Request, d: Dir, pid: nat, c: Child, wall: int, ch: Choice)
    requires ChildInv(req, d, pid, c)
    requires !d.go.Absent? ==> d.go.writer == ParentW
    ensures var r := ChildStep(req, d, pid, c, wall, ch); ChildInv(req, r.0, pid, r.1)
  {
    match c.pc {
      case AwaitingGo =>
        PollKeeps(req, d, pid, c, wall);
        hide PollGo, ChildInv;
      case Accepted =>
        if ch.Works? {
          WorkStarts(req, d, pid, c, ch.world);
        }
        hide Work, ChildInv;
      case Working(w, n) =>
        WorkOnKeeps(req, d, pid, c, w, n);
        hide WorkOn, ChildInv;
      case Finishing(p) =>
        if ch.Ends? {
          EndWorkKeeps(req, d, pid, c, p, ch.ending);
        }
        hide EndWork, ChildInv;
      case _ =>
        FileStepKeeps(req, d, pid, c, wall, ch);
        hide ChildStep, ChildInv;
    }
  }

  lemma WorkStarts(req: Request, d: Dir, pid: nat, c: Child, w: World)
    requires ChildInv(req, d, pid, c) && c.pc.Accepted?
    ensures ChildInv(req, d, pid, c.(pc := Working(w, 0)))
  {
    assert c.log == Work(w).log[..0];
    hide Work, Honest;
  }

  lemma WorkOnKeeps(req: Request, d: Dir, pid: nat, c: Child, w: World, n: nat)
    requires ChildInv(req, d, pid, c) && c.pc == Working(w, n)
    ensures ChildInv(req, d, pid, WorkOn(c, w, n))
  {
    hide Work, Honest;
    var p := Work(w);
    assert p.log[..|p.log|] == p.log;
    WorkAcquiresOnce(w, if n < |p.log| then n + 1 else n);
  }

  lemma FileStepKeeps(req: Request, d: Dir, pid: nat, c: Child, wall: int, ch: Choice)
    requires ChildInv(req, d, pid, c) && !c.pc.AwaitingGo? && !c.pc.Accepted? && !c.pc.Working? && !c.pc.Finishing?
    ensures var r := ChildStep(req, d, pid, c, wall, ch); ChildInv(req, r.0, pid, r.1)
  {
    hide Work, Finish, ResultOf, ResultIsOk;
    if c.pc.CreatingResult? || c.pc.WritingResult? || c.pc.Exited? {
      ResultStepOfChild(req, d, pid, c, wall, ch);
    } else {
      hide Honest;
    }
  }

  lemma ResultStepOfChild(req: Request, d: Dir, pid: nat, c: Child, wall: int, ch: Choice)
    requires ChildInv(req, d, pid, c) && (c.pc.CreatingResult? || c.pc.WritingResult? || c.pc.Exited?)
    ensures var r := ChildStep(req, d, pid, c, wall, ch); ChildInv(req, r.0, pid, r.1)
  {
    var n := ChildStep(req, d, pid, c, wall, ch).1;
    assert n == c.(pc := n.pc, wrote := n.wrote);
    forall r: Result
      ensures Honest(req, pid, n, r) <==> Honest(req, pid, c, r)
    {
    }
    hide Work, Finish, ResultOf, ResultIsOk, Honest;
  }

  lemma PollKeeps(req: Request, d: Dir, pid: nat, c: Child, wall: int)
    requires ChildInv(req, d, pid, c) && c.pc.AwaitingGo?
    requires !d.go.Absent? ==> d.go.writer == ParentW
    ensures ChildInv(req, d, pid, PollGo(req, d, IdOf(req, pid, c), c, wall))
  {
  }

  lemma EndWorkKeeps(req: Request, d: Dir, pid: nat, c: Child, p: Progress, e: Ending)
    requires ChildInv(req, d, pid, c) && c.pc == Finishing(p)
    ensures ChildInv(req, d, pid, EndWork(IdOf(req, pid, c), c, p, e))
  {
    hide Work, Finish, ResultOf, ResultIsOk, Honest;
    FinishAcquiresNothing(p, c.lease.Some?, e);
    EndWorkIsHonest(req, d, pid, c, p, e);
  }

  /** The end of a run acquires nothing. */
  lemma FinishAcquiresNothing(p: Progress, hasLease: bool, e: Ending)
    ensures var q := Finish(p, hasLease, e);
            && (AcquireDriver in q.log <==> AcquireDriver in p.log)
            && multiset(q.log)[AcquireDriver] == multiset(p.log)[AcquireDriver]
  {
    assert multiset(p.log + [ReleaseLease]) == multiset(p.log) + multiset{ReleaseLease};
  }

  lemma EndWorkIsHonest(req: Request, d: Dir, pid: nat, c: Child, p: Progress, e: Ending)
    requires ChildInv(req, d, pid, c) && c.pc == Finishing(p)
    ensures var n := EndWork(IdOf(req, pid, c), c, p, e); Honest(req, pid, n, n.pc.result)
  {
    var id, q := IdOf(req, pid, c), Finish(p, c.lease.Some?, e);
    if c.grant.Some? {
      var w :| p == Work(w);
      if ResultIsOk(ResultOf(id, c.lease, q)) {
        SuccessIsComplete(id, c.lease, w, e);
      }
      hide Work, Finish, ResultIsOk;
    } else {
      NothingIsNoSuccess(id, c.lease, p, e);
      hide Finish, ResultIsOk;
    }
  }

  lemma NothingIsNoSuccess(id: Identity, lease: Option<string>, p: Progress, e: Ending)
    requires p.facts == NEW_FACTS
    ensures !ResultIsOk(ResultOf(id, lease, Finish(p, lease.Some?, e)))
    ensures ResultOf(id, lease, Finish(p, lease.Some?, e)).id == id
  {
  }

  // The parent keeps the invariant

  lemma ParentStepFrame(s: System, ch: Choice)
    requires Inv(s)
    ensures var r := ParentStep(s, ch);
            && DirStep(s.dir, r.0, ParentW)
            && r.0 == s.dir.(go := r.0.go)
  {
    hide ChildInv, ResultHolds, ReportOf, ValidateResult, IsPortable;
  }

  lemma ParentStepKeeps(s: System, ch: Choice)
    requires Inv(s)
    ensures var r := ParentStep(s, ch); ParentInv(s.req, r.0, s.children, r.1)
  {
    match s.parent.pc {
      case CreatingGo => GoStepKeeps(s, ch);
      case WritingGo => GoStepKeeps(s, ch);
      case WaitResult => ResultStepKeeps(s, ch);
      case WaitExit => ExitStepKeeps(s, ch);
      case Ended => EndStepKeeps(s, ch);
      case WaitClaim => ClaimStepKeeps(s, ch);
      case LookAround => ClaimStepKeeps(s, ch);
      case Deciding => ClaimStepKeeps(s, ch);
      case _ => ReadyStepKeeps(s, ch);
    }
    hide ParentStep, ParentInv;
  }

  lemma EndStepKeeps(s: System, ch: Choice)
    requires ParentInv(s.req, s.dir, s.children, s.parent) && s.parent.pc.Ended?
    ensures var r := ParentStep(s, ch); ParentInv(s.req, r.0, s.children, r.1)
  {
    if ch.Files? {
      ReportKeeps(s.parent, ch);
    }
    hide ReportOf, ValidateResult, IsPortable, ResultIsOk;
  }

  lemma ReadyStepKeeps(s: System, ch: Choice)
    requires ParentInv(s.req, s.dir, s.children, s.parent)
    requires s.parent.pc.NotLaunched? || s.parent.pc.WaitReady? || s.parent.pc.Reported?
    ensures var r := ParentStep(s, ch); ParentInv(s.req, r.0, s.children, r.1)
  {
    hide ResultIsOk, IsPortable, ReportOf, ValidateResult;
    assert ParentStep(s, ch).0 == s.dir;
  }

  lemma ClaimStepKeeps(s: System, ch: Choice)
    requires ParentInv(s.req, s.dir, s.children, s.parent)
    requires s.parent.pc.WaitClaim? || s.parent.pc.LookAround? || s.parent.pc.Deciding?
    ensures var r := ParentStep(s, ch); ParentInv(s.req, r.0, s.children, r.1)
  {
    hide ResultIsOk, IsPortable, ReportOf, ValidateResult;
    assert ParentStep(s, ch).0 == s.dir;
  }

  lemma GoStepKeeps(s: System, ch: Choice)
    requires ParentInv(s.req, s.dir, s.children, s.parent) && (s.parent.pc.CreatingGo? || s.parent.pc.WritingGo?)
    ensures var r := ParentStep(s, ch); ParentInv(s.req, r.0, s.children, r.1)
  {
    hide ReportOf, ValidateResult, IsPortable, ResultIsOk;
  }

  lemma ResultStepKeeps(s: System, ch: Choice)
    requires ParentInv(s.req, s.dir, s.children, s.parent) && s.parent.pc.WaitResult?
    ensures var r := ParentStep(s, ch); ParentInv(s.req, r.0, s.children, r.1)
  {
    if s.dir.result.Full? && s.parent.ready.Some? {
      ValidResultIsExpected(s.dir.result.value, Expected(s.req, s.parent), Some(s.parent.ready.value.lease));
    }
    hide ValidateResult, ReportOf, IsPortable, ResultIsOk, GoHolds;
  }

  lemma ExitStepKeeps(s: System, ch: Choice)
    requires ParentInv(s.req, s.dir, s.children, s.parent) && s.parent.pc.WaitExit?
    ensures var r := ParentStep(s, ch); ParentInv(s.req, r.0, s.children, r.1)
  {
    hide ReportOf, ValidateResult, IsPortable, ResultIsOk;
  }

  lemma ValidResultIsExpected(r: Result, expected: Identity, lease: Option<string>)
    ensures ValidateResult(r, expected, lease) ==> r.id == expected
  {
  }

  /** The exit code is 0 exactly for a successful report. */
  lemma ReportKeeps(p: Parent, f: Choice)
    requires f.Files?
    ensures var r := ReportOf(p, f);
            && r.Reported? && (r.ok <==> r.exitCode == 0)
            && (r.ok ==> p.ready.Some? && p.claimVerified && p.goWritten && p.returncode == Some(0)
                         && p.result.Some? && ResultIsOk(p.result.value))
  {
  }

  lemma ParentSurvives(req: Request, a: Dir, b: Dir, cs: map<nat, Child>, pid: nat, c: Child, p: Parent)
    requires ParentInv(req, a, cs, p) && DirStep(a, b, ChildW(pid)) && a.go == b.go
    requires pid in cs ==> (cs[pid].pc.Exited? ==> c == cs[pid])
    ensures ParentInv(req, b, cs[pid := c], p)
  {
  }

  lemma NextKeeps(s: System, a: Action)
    requires Inv(s)
    ensures Inv(Next(s, a))
  {
    match a {
      case ChildAction(pid, ch) =>
        if pid in s.children {
          ChildActionKeeps(s, pid, ch);
        }
      case ParentAction(ch) =>
        ParentStepFrame(s, ch);
        ParentStepKeeps(s, ch);
        hide ParentStep;
        var t := Next(s, a);
        forall pid | pid in t.children
          ensures ChildInv(t.req, t.dir, pid, t.children[pid])
        {
          OtherChildSurvives(s.req, s.dir, t.dir, ParentW, pid, s.children[pid]);
        }
      case _ => OtherActionKeeps(s, a);
    }
  }

  lemma ResultSurvives(a: Dir, b: Dir, cs: map<nat, Child>, pid: nat, c: Child)
    requires ResultHolds(a, cs) && DirStep(a, b, ChildW(pid)) && pid in cs
    requires b.result != a.result ==>
               b.result == Partial(ChildW(pid)) || (c.wrote.Some? && b.result == Full(ChildW(pid), c.wrote.value))
    requires cs[pid].wrote.Some? ==> c.wrote == cs[pid].wrote
    ensures ResultHolds(b, cs[pid := c])
  {
  }

  lemma GoIsTheParents(s: System)
    requires Inv(s)
    ensures !s.dir.go.Absent? ==> s.dir.go.writer == ParentW
  {
    hide ChildInv, ResultHolds;
  }

  lemma ChildActionKeeps(s: System, pid: nat, ch: Choice)
    requires Inv(s) && pid in s.children
    ensures Inv(Next(s, ChildAction(pid, ch)))
  {
    var c := s.children[pid];
    GoIsTheParents(s);
    hide ChildStep, ParentInv, ChildInv, ResultHolds, DirStep;
    ChildStepFrame(s.req, s.dir, pid, c, s.wall, ch);
    ChildStepKeeps(s.req, s.dir, pid, c, s.wall, ch);
    var r := ChildStep(s.req, s.dir, pid, c, s.wall, ch);
    ParentSurvives(s.req, s.dir, r.0, s.children, pid, r.1, s.parent);
    ResultSurvives(s.dir, r.0, s.children, pid, r.1);
    var t := Next(s, ChildAction(pid, ch));
    forall q | q in t.children
      ensures ChildInv(t.req, t.dir, q, t.children[q])
    {
      if q != pid {
        OtherChildSurvives(s.req, s.dir, t.dir, ChildW(pid), q, s.children[q]);
      }
    }
  }

  lemma OtherActionKeeps(s: System, a: Action)
    requires Inv(s) && !a.ChildAction? && !a.ParentAction?
    ensures Inv(Next(s, a))
  {
    hide Inv;
    match a {
      case Launch(pid, source, interpreter) => NewChildKeeps(s, pid, source, interpreter);
      case Stray(pid, source, interpreter) => NewChildKeeps(s, pid, source, interpreter);
      case Kill(pid) => KillActionKeeps(s, pid);
      case RequestTermination => TerminationKeeps(s);
      case Clocks(wall, elapsed) => ClocksKeep(s, wall, elapsed);
    }
  }

  lemma ClocksKeep(s: System, wall: int, elapsed: nat)
    requires Inv(s)
    ensures Inv(Next(s, Clocks(wall, elapsed)))
  {
    hide ChildInv, ParentInv, ResultHolds;
  }

  lemma KillActionKeeps(s: System, pid: nat)
    requires Inv(s)
    ensures Inv(Next(s, Kill(pid)))
  {
    if pid in s.children && !s.children[pid].pc.Exited? {
      hide ChildInv;
      KillKeeps(s.req, s.dir, pid, s.children[pid]);
    }
  }

  lemma TerminationKeeps(s: System)
    requires Inv(s)
    ensures Inv(Next(s, RequestTermination))
  {
    hide ChildInv;
    forall pid | pid in s.children
      ensures ChildInv(s.req, s.dir.(terminate := true), pid, s.children[pid])
    {
      OtherChildSurvives(s.req, s.dir, s.dir.(terminate := true), ParentW, pid, s.children[pid]);
    }
  }

  lemma KillKeeps(req: Request, d: Dir, pid: nat, c: Child)
    requires ChildInv(req, d, pid, c) && !c.pc.Exited?
    ensures ChildInv(req, d, pid, c.(pc := Dead))
  {
  }

  lemma NewChildKeeps(s: System, pid: nat, source: int, interpreter: int)
    requires Inv(s)
    ensures Inv(Next(s, Launch(pid, source, interpreter))) && Inv(Next(s, Stray(pid, source, interpreter)))
  {
    assert ChildInv(s.req, s.dir, pid, NewChild(source, interpreter));
    hide ChildInv;
  }

  lemma {:induction false} ExecKeeps(s: System, actions: seq<Action>)
    requires Inv(s)
    ensures Inv(Exec(s, actions))
    decreases |actions|
  {
    if actions != [] {
      NextKeeps(s, actions[0]);
      hide Next, Inv;
      ExecKeeps(Next(s, actions[0]), actions[1..]);
    }
  }

  // Main results

  lemma InitIsSafe(req: Request)
    ensures Inv(Init(req))
  {
  }

  /** A completed claim is never replaced. */
  lemma {:induction false} ClaimIsForever(s: System, actions: seq<Action>)
    requires Inv(s) && s.dir.claim.Full?
    ensures Exec(s, actions).dir.claim == s.dir.claim
    decreases |actions|
  {
    if actions != [] {
      NextKeeps(s, actions[0]);
      assert Next(s, actions[0]).dir.claim == s.dir.claim by {
        match actions[0] {
          case ChildAction(pid, ch) =>
            if pid in s.children {
              ChildStepFrame(s.req, s.dir, pid, s.children[pid], s.wall, ch);
            }
          case ParentAction(ch) => ParentStepFrame(s, ch);
          case _ =>
        }
      }
      hide Next, Inv;
      ClaimIsForever(Next(s, actions[0]), actions[1..]);
    }
  }

  /** However many children run and whenever: over a whole run and all that
      follows, at most one of them gets past the claim. */
  lemma OneChildPassesTheClaim(req: Request, actions: seq<Action>, more: seq<Action>, a: nat, b: nat)
    requires var s := Exec(Init(req), actions); a in s.children && PastClaim(s.children[a].pc)
    requires var t := Exec(Exec(Init(req), actions), more); b in t.children && PastClaim(t.children[b].pc)
    ensures a == b
  {
    InitIsSafe(req);
    ExecKeeps(Init(req), actions);
    var s := Exec(Init(req), actions);
    ExecKeeps(s, more);
    assert ChildInv(s.req, s.dir, a, s.children[a]);
    ClaimIsForever(s, more);
    var t := Exec(s, more);
    assert ChildInv(t.req, t.dir, b, t.children[b]);
  }

  /** Driver acquisition, in every reachable state: only the launched child has one,
      and it has one at most; its GO is the parent's, names its pid, request, source
      and lease, and was accepted before the deadline; and the parent wrote it after
      validating that child's READY and claim. */
  lemma GrantSafety(req: Request, actions: seq<Action>, pid: nat)
    requires var s := Exec(Init(req), actions); pid in s.children && AcquireDriver in s.children[pid].log
    ensures var s := Exec(Init(req), actions);
            var c := s.children[pid];
            && pid == s.parent.launched && multiset(c.log)[AcquireDriver] == 1
            && (forall q :: q in s.children && AcquireDriver in s.children[q].log ==> q == pid)
            && s.dir.claim == Full(ChildW(pid), IdOf(req, pid, c))
            && c.source == req.source && c.interpreter == req.interpreter
            && c.grant.Some?
            && var (g, at) := c.grant.value;
            && s.dir.go == Full(ParentW, g)
            && g.id == Identity(req.attempt, req.digest, pid, req.source, req.interpreter)
            && c.lease == Some(g.lease)
            && g.issuedAt <= req.deadline && at < req.deadline
            && s.parent.claimVerified && s.parent.ready == Some(Ready(g.id, g.lease))
  {
    InitIsSafe(req);
    ExecKeeps(Init(req), actions);
    RequestIsFixed(Init(req), actions);
    var s := Exec(Init(req), actions);
    assert ChildInv(s.req, s.dir, pid, s.children[pid]);
    forall q | q in s.children && AcquireDriver in s.children[q].log
      ensures q == pid
    {
      assert ChildInv(s.req, s.dir, q, s.children[q]);
    }
  }

  lemma {:induction false} RequestIsFixed(s: System, actions: seq<Action>)
    ensures Exec(s, actions).req == s.req
    decreases |actions|
  {
    if actions != [] {
      RequestIsFixed(Next(s, actions[0]), actions[1..]);
    }
  }

  /** The step that acquires the driver is the accepted child's, while it holds the
      lease its GO names. */
  lemma AcquiresUnderLease(req: Request, actions: seq<Action>, a: Action, pid: nat)
    requires var s := Exec(Init(req), actions);
             var t := Next(s, a);
             && pid in t.children && AcquireDriver in t.children[pid].log
             && (pid in s.children ==> AcquireDriver !in s.children[pid].log)
    ensures var s := Exec(Init(req), actions);
            && a.ChildAction? && a.pid == pid && pid in s.children
            && var c := s.children[pid];
            c.pc.Working? && c.holds && c.grant.Some? && c.lease == Some(c.grant.value.0.lease)
  {
    InitIsSafe(req);
    ExecKeeps(Init(req), actions);
    var s := Exec(Init(req), actions);
    if pid in s.children {
      assert ChildInv(s.req, s.dir, pid, s.children[pid]);
      if a.ChildAction? && a.pid == pid {
        ChildAcquires(s.req, s.dir, pid, s.children[pid], s.wall, a.choice);
      }
      hide ChildStep, ParentStep, ChildInv, ParentInv, ResultHolds;
    }
  }

  /** Only the work after an accepted GO adds an acquisition to a child's log. */
  lemma ChildAcquires(req: Request, d: Dir, pid: nat, c: Child, wall: int, ch: Choice)
    requires ChildInv(req, d, pid, c) && AcquireDriver !in c.log
    ensures AcquireDriver in ChildStep(req, d, pid, c, wall, ch).1.log ==>
              c.pc.Working? && c.holds && c.grant.Some? && c.lease == Some(c.grant.value.0.lease)
  {
    FinishAddsNoAcquisition(c);
    hide Work, Finish;
  }

  lemma FinishAddsNoAcquisition(c: Child)
    ensures forall e :: c.pc.Finishing? ==>
              (AcquireDriver in Finish(c.pc.progress, c.lease.Some?, e).log <==> AcquireDriver in c.pc.progress.log)
  {
  }

  /** A successful report is truthful: the launched child exited 0 after exactly one
      of each backend operation, in order, and an error-free lease release, under
      the one GO; no other child acquired a driver. Exit code 0 means success. */
  lemma SuccessIsTruthful(req: Request, actions: seq<Action>)
    requires Exec(Init(req), actions).parent.pc.Reported?
    ensures var s := Exec(Init(req), actions);
            var (ok, code) := (s.parent.pc.ok, s.parent.pc.exitCode);
            && (ok <==> code == 0)
            && (ok ==>
                  && s.parent.launched in s.children
                  && var c := s.children[s.parent.launched];
                  && c.pc == Exited(0) && c.log == FULL_LOG
                  && c.grant.Some? && s.dir.go == Full(ParentW, c.grant.value.0)
                  && forall q :: q in s.children && AcquireDriver in s.children[q].log ==> q == s.parent.launched)
  {
    InitIsSafe(req);
    ExecKeeps(Init(req), actions);
    var s := Exec(Init(req), actions);
    if s.parent.pc.ok {
      var q := s.dir.result.writer.pid;
      assert ChildInv(s.req, s.dir, q, s.children[q]);
      forall r | r in s.children && AcquireDriver in s.children[r].log
        ensures r == s.parent.launched
      {
        assert ChildInv(s.req, s.dir, r, s.children[r]);
      }
    }
  }
}
