/** What a granted child does and reports, and what the parent accepts of it. */
module SessionChild {
  import opened Basics

  /** The identity every run record carries. */
  datatype Identity = Identity(attempt: int, digest: int, pid: nat, source: int, interpreter: int)

  /** Backend operations as they really happen, in order. */
  datatype Op = AcquireDriver | Enumerate | Select | ConstructSession | CloseSession | ReleaseLease

  datatype Facts = Facts(
    driverAcquired: nat,
    enumerations: nat,
    selections: nat,
    sessionConstructed: bool,
    sessionOpened: bool,
    sessionClosed: nat,
    forbiddenCalls: nat,
    fingerprint: Option<string>)

  datatype ErrorKey =
    | LeaseKey | ReadyKey | GoKey | ConstructionKey | SessionCloseKey | TracebackArmKey | TracebackCancelKey
    | TracebackCloseKey | LeaseReleaseKey | HealthKey | EventsKey | ResultKey | InternalKey

  datatype Trace = Trace(armed: bool, cancelled: bool)

  /** `errors` is the set of keys whose code is not null. */
  datatype Result = Result(
    id: Identity,
    lease: Option<string>,
    outcome: string,
    ok: bool,
    facts: Facts,
    options: bool,
    trace: Trace,
    errors: set<ErrorKey>)

  const RESULT_OUTCOMES: set<string> := {
    "ok", "busy", "lease-error", "ready-write-failed", "startup-aborted", "go-timeout", "go-lease-mismatch", "go-expired",
    "cancelled-before-go", "go-identity-mismatch", "driver-error", "selection-error", "construct-error",
    "cancelled-after-go", "internal-error" }

  /** `_select_probe`: it fails with one of the selection codes after enumerating, or
      with any other error before or after it. */
  datatype Selection = Found | NoMatch | FailedBefore | FailedAfter
  datatype Arming = Armed | OpenFailed | ArmFailed
  datatype Disarming = Disarmed | CancelFailed | CloseFailed | StatFailed

  /** How each call of the surroundings turns out. `fingerprint` is `None` when the
      fingerprint itself raises. */
  datatype World = World(
    backend: bool,
    driver: bool,
    selection: Selection,
    fingerprint: Option<string>,
    arming: Arming,
    constructs: bool,
    disarming: Disarming,
    closes: bool,
    terminated: bool)

  /** The child's mutable record between steps. */
  datatype Progress = Progress(
    outcome: string,
    facts: Facts,
    options: bool,
    trace: Trace,
    errors: set<ErrorKey>,
    log: seq<Op>)

  const NEW_FACTS := Facts(0, 0, 0, false, false, 0, 0, None)
  const NEW_PROGRESS := Progress("internal-error", NEW_FACTS, false, Trace(false, false), {}, [])

  /** `_construct_and_close`. */
  function ConstructAndClose(w: World, p: Progress): Progress {
    if w.arming != Armed then p.(errors := p.errors + {TracebackArmKey})
    else
      var made := if w.constructs
                  then p.(facts := p.facts.(sessionConstructed := true), log := p.log + [ConstructSession])
                  else p.(errors := p.errors + {ConstructionKey});
      var traced := made.(
        trace := Trace(true, w.disarming != CancelFailed),
        errors := made.errors + (match w.disarming
                                 case Disarmed => {}
                                 case CancelFailed => {TracebackCancelKey}
                                 case _ => {TracebackCloseKey}));
      if !w.constructs then traced
      else if w.closes then traced.(facts := traced.facts.(sessionClosed := 1), log := traced.log + [CloseSession])
      else traced.(errors := traced.errors + {SessionCloseKey})
  }

  /** The child's work between an accepted GO and the release of its lease. */
  function Work(w: World): Progress {
    var p := NEW_PROGRESS;
    if !w.backend || !w.driver then p.(errors := {ConstructionKey}, outcome := "driver-error")
    else
      var acquired := p.(facts := p.facts.(driverAcquired := 1), log := [AcquireDriver]);
      match w.selection
      case NoMatch =>
        acquired.(facts := acquired.facts.(enumerations := 1), log := acquired.log + [Enumerate],
                  errors := {ConstructionKey}, outcome := "selection-error")
      case FailedBefore => acquired.(errors := {ConstructionKey}, outcome := "driver-error")
      case FailedAfter =>
        acquired.(log := acquired.log + [Enumerate], errors := {ConstructionKey}, outcome := "driver-error")
      case Found =>
        var selected := acquired.(facts := acquired.facts.(enumerations := 1, selections := 1),
                                  log := acquired.log + [Enumerate, Select]);
        if w.fingerprint.None? then selected.(errors := {InternalKey}, outcome := "internal-error")
        else
          var named := selected.(facts := selected.facts.(fingerprint := w.fingerprint), options := true);
          var done := ConstructAndClose(w, named);
          done.(outcome := if w.terminated then "cancelled-after-go"
                           else if done.facts.sessionConstructed then "ok" else "construct-error")
  }

  /** How the ending turns out: lease release, health stop, event record. */
  datatype Ending = Ending(releases: bool, healthStops: bool, eventsWritten: bool)

  function ChildOk(p: Progress): bool {
    && p.outcome == "ok" && p.facts.driverAcquired == 1 && p.facts.enumerations == 1 && p.facts.selections == 1
    && p.facts.sessionConstructed && !p.facts.sessionOpened && p.facts.sessionClosed == 1 && p.facts.forbiddenCalls == 0
    && p.trace.armed && p.trace.cancelled && p.errors == {}
  }

  /** Cleanup errors are recorded before success is decided. */
  function Finish(p: Progress, hasLease: bool, e: Ending): Progress {
    var released := if !hasLease then p
                    else if e.releases then p.(log := p.log + [ReleaseLease])
                    else p.(errors := p.errors + {LeaseReleaseKey});
    released.(errors := released.errors
                        + (if e.healthStops then {} else {HealthKey})
                        + (if e.eventsWritten then {} else {EventsKey}))
  }

  function ResultOf(id: Identity, lease: Option<string>, p: Progress): Result {
    var ok := ChildOk(p);
    Result(id, lease, if p.outcome == "ok" && !ok then "internal-error" else p.outcome, ok, p.facts, p.options, p.trace, p.errors)
  }

  // The parent's side

  predicate IsPortable(s: string) {
    && 1 <= |s| <= 128 && (IsLetter(s[0]) || '0' <= s[0] <= '9')
    && forall k :: 0 <= k < |s| ==> IsLetter(s[k]) || '0' <= s[k] <= '9' || s[k] in {'.', '_', ':', '-'}
  }

  predicate IsFingerprint(s: string) {
    |s| == 64 && forall k :: 0 <= k < |s| ==> '0' <= s[k] <= '9' || 'a' <= s[k] <= 'f'
  }

  /** `_validate_result`; a record of this type already has the closed key sets,
      the schema, safe error codes and the expected session options. */
  predicate ValidateResult(r: Result, expected: Identity, lease: Option<string>) {
    && r.id == expected
    && (if lease.None? then r.lease.Some? ==> IsPortable(r.lease.value) else r.lease == lease)
    && r.outcome in RESULT_OUTCOMES
    && r.facts.driverAcquired <= 8 && r.facts.enumerations <= 8 && r.facts.selections <= 8 && r.facts.sessionClosed <= 8
    && !r.facts.sessionOpened
    && (r.facts.fingerprint.Some? ==> IsFingerprint(r.facts.fingerprint.value))
  }

  /** `_result_is_ok`. */
  predicate ResultIsOk(r: Result) {
    && r.ok && r.outcome == "ok"
    && r.facts.driverAcquired == 1 && r.facts.enumerations == 1 && r.facts.selections == 1
    && r.facts.sessionConstructed && !r.facts.sessionOpened && r.facts.sessionClosed == 1 && r.facts.forbiddenCalls == 0
    && r.options && r.trace.armed && r.trace.cancelled && r.errors == {}
  }

  const FULL_LOG: seq<Op> := [AcquireDriver, Enumerate, Select, ConstructSession, CloseSession, ReleaseLease]

  /** Facts are what happened: each counter counts its operations in the log, and
      nothing happens twice. */
  predicate Truthful(p: Progress) {
    var done := multiset(p.log);
    && p.facts.driverAcquired == done[AcquireDriver] <= 1
    && p.facts.enumerations == done[Enumerate] <= 1
    && p.facts.selections == done[Select] <= 1
    && (if p.facts.sessionConstructed then 1 else 0) == done[ConstructSession]
    && p.facts.sessionClosed == done[CloseSession] <= 1
    && done[ReleaseLease] <= 1
    && !p.facts.sessionOpened
  }

  function Flag(b: bool): nat {
    if b then 1 else 0
  }

  /** The log is a prefix of the full run and the facts tell how long it is. */
  predicate AtStage(p: Progress) {
    var n := |p.log|;
    && n <= 5 && p.log == FULL_LOG[..n] && !p.facts.sessionOpened
    && p.facts.driverAcquired == Flag(n >= 1) && p.facts.enumerations == Flag(n >= 2) && p.facts.selections == Flag(n >= 3)
    && p.facts.sessionConstructed == (n >= 4) && p.facts.sessionClosed == Flag(n >= 5)
  }

  lemma ConstructionStage(w: World, p: Progress)
    requires AtStage(p) && |p.log| == 3
    ensures AtStage(ConstructAndClose(w, p))
  {
    assert FULL_LOG[..3] + [ConstructSession] == FULL_LOG[..4];
    assert FULL_LOG[..4] + [CloseSession] == FULL_LOG[..5];
  }

  /** The one case in which an operation happens and is not counted: the enumeration
      succeeds and the selection then fails with another error. */
  predicate LosesEnumeration(w: World) {
    w.backend && w.driver && w.selection.FailedAfter?
  }

  lemma WorkStage(w: World)
    requires !LosesEnumeration(w)
    ensures AtStage(Work(w))
  {
    assert [AcquireDriver] == FULL_LOG[..1];
    assert [AcquireDriver] + [Enumerate] == FULL_LOG[..2];
    assert [AcquireDriver] + [Enumerate, Select] == FULL_LOG[..3];
    var named := Progress("internal-error", NEW_FACTS.(driverAcquired := 1, enumerations := 1, selections := 1, fingerprint := w.fingerprint),
                          true, Trace(false, false), {}, [AcquireDriver] + [Enumerate, Select]);
    ConstructionStage(w, named);
    hide ConstructAndClose;
  }

  lemma WorkLog(w: World)
    ensures |Work(w).log| <= 5 && Work(w).log == FULL_LOG[..|Work(w).log|]
  {
    if LosesEnumeration(w) {
      assert Work(w).log == [AcquireDriver, Enumerate] == FULL_LOG[..2];
    } else {
      WorkStage(w);
      hide Work;
    }
  }

  /** Every prefix of the work holds at most one acquisition, and it comes first. */
  lemma WorkAcquiresOnce(w: World, k: nat)
    requires k <= |Work(w).log|
    ensures multiset(Work(w).log[..k])[AcquireDriver] <= 1
    ensures AcquireDriver in Work(w).log[..k] <==> k > 0
  {
    WorkLog(w);
    var log := Work(w).log;
    hide Work;
    if k > 0 {
      assert log[..k] == [AcquireDriver] + FULL_LOG[1..k];
      assert AcquireDriver !in FULL_LOG[1..k];
    }
  }

  lemma StageIsTruthful(p: Progress, released: bool)
    requires AtStage(p)
    ensures Truthful(if released then p.(log := p.log + [ReleaseLease]) else p)
  {
    PrefixCounts(|p.log|);
    assert multiset(p.log + [ReleaseLease]) == multiset(p.log) + multiset{ReleaseLease};
  }

  /** How often each operation stands in the first `n` of a full run. */
  lemma PrefixCounts(n: nat)
    requires n <= 5
    ensures var done := multiset(FULL_LOG[..n]);
            && done[AcquireDriver] == Flag(n >= 1) && done[Enumerate] == Flag(n >= 2) && done[Select] == Flag(n >= 3)
            && done[ConstructSession] == Flag(n >= 4) && done[CloseSession] == Flag(n >= 5) && done[ReleaseLease] == 0
  {
    if n > 0 {
      PrefixCounts(n - 1);
      assert FULL_LOG[..n] == FULL_LOG[..n - 1] + [FULL_LOG[n - 1]];
    } else {
      assert FULL_LOG[..0] == [];
    }
  }

  lemma LostEnumeration(w: World, hasLease: bool, e: Ending)
    requires LosesEnumeration(w)
    ensures var p := Finish(Work(w), hasLease, e);
            !Truthful(p) && Truthful(p.(facts := p.facts.(enumerations := 1))) && !ChildOk(p)
  {
    var p := Work(w);
    assert p.log == [AcquireDriver, Enumerate] == FULL_LOG[..2];
    assert p.facts.enumerations == 0 && p.errors != {};
    StageIsTruthful(p.(facts := p.facts.(enumerations := 1)), hasLease && e.releases);
    hide Work;
  }

  /** However the surroundings behave, the finished record is truthful, exactly unless
      an enumeration was lost; then only its count is wrong, and the child does not
      report success. */
  lemma WorkIsTruthful(w: World, hasLease: bool, e: Ending)
    ensures Truthful(Finish(Work(w), hasLease, e)) <==> !LosesEnumeration(w)
    ensures var p := Finish(Work(w), hasLease, e);
            LosesEnumeration(w) ==> Truthful(p.(facts := p.facts.(enumerations := 1))) && !ChildOk(p)
    ensures Truthful(Finish(NEW_PROGRESS, hasLease, e))
  {
    StageIsTruthful(NEW_PROGRESS, hasLease && e.releases);
    if LosesEnumeration(w) {
      LostEnumeration(w, hasLease, e);
      hide Work, Finish, Truthful;
    } else {
      WorkStage(w);
      StageIsTruthful(Work(w), hasLease && e.releases);
      hide Work;
    }
  }

  /** A record of which the child reports success is truthful in every case. */
  lemma SuccessIsCounted(w: World, hasLease: bool, e: Ending)
    requires ChildOk(Finish(Work(w), hasLease, e))
    ensures Truthful(Finish(Work(w), hasLease, e))
  {
    WorkIsTruthful(w, hasLease, e);
  }

  /** A result the parent calls successful stands for exactly one of each backend
      operation in order, and a released lease. */
  lemma SuccessIsComplete(id: Identity, lease: Option<string>, w: World, e: Ending)
    requires ResultIsOk(ResultOf(id, lease, Finish(Work(w), lease.Some?, e)))
    ensures lease.Some? ==> Finish(Work(w), lease.Some?, e).log == FULL_LOG
    ensures e.releases || lease.None?
  {
    var p := Work(w);
    assert Finish(p, lease.Some?, e).errors == {};
    assert p.errors == {} by {
      assert p.errors <= Finish(p, lease.Some?, e).errors;
    }
    assert lease.Some? && !e.releases ==> LeaseReleaseKey in Finish(p, lease.Some?, e).errors;
  }

  /** The child's own verdict and the parent's are the same. */
  lemma VerdictsAgree(id: Identity, lease: Option<string>, w: World, e: Ending)
    ensures var p := Finish(Work(w), lease.Some?, e);
            ResultIsOk(ResultOf(id, lease, p)) <==> ChildOk(p)
  {
  }

  /** Outcomes of a child that was never granted. */
  const UNGRANTED: set<string> := {
    "busy", "lease-error", "ready-write-failed", "go-timeout", "go-lease-mismatch", "go-expired", "cancelled-before-go",
    "go-identity-mismatch", "internal-error" }

  /** Every result a child can write passes the parent's validator, given a
      well-formed lease id and fingerprint. */
  lemma WrittenResultsValidate(id: Identity, lease: Option<string>, seen: Option<string>, w: World, granted: bool,
                               outcome: string, errors: set<ErrorKey>, e: Ending)
    requires lease.Some? ==> IsPortable(lease.value)
    requires seen.Some? ==> seen == lease
    requires w.fingerprint.Some? ==> IsFingerprint(w.fingerprint.value)
    requires !granted ==> outcome in UNGRANTED
    ensures var p := if granted then Work(w) else NEW_PROGRESS.(outcome := outcome, errors := errors);
            ValidateResult(ResultOf(id, lease, Finish(p, lease.Some?, e)), id, seen)
  {
    hide IsPortable, IsFingerprint;
  }

  /** The granted part of `child_main`, updating its record step by step. */
  method RunGranted(w: World) returns (p: Progress)
    ensures p == Work(w)
  {
    var outcome := "internal-error";
    var facts, options, trace := NEW_FACTS, false, Trace(false, false);
    var errors: set<ErrorKey> := {};
    var log: seq<Op> := [];
    if !w.backend || !w.driver {
      errors := errors + {ConstructionKey};
      return Progress("driver-error", facts, options, trace, errors, log);
    }
    facts := facts.(driverAcquired := 1);
    log := log + [AcquireDriver];
    match w.selection {
      case NoMatch =>
        facts := facts.(enumerations := 1);
        log := log + [Enumerate];
        errors := errors + {ConstructionKey};
        outcome := "selection-error";
      case FailedBefore =>
        errors := errors + {ConstructionKey};
        outcome := "driver-error";
      case FailedAfter =>
        log := log + [Enumerate];
        errors := errors + {ConstructionKey};
        outcome := "driver-error";
      case Found =>
        facts := facts.(enumerations := 1, selections := 1);
        log := log + [Enumerate, Select];
        if w.fingerprint.None? {
          errors := errors + {InternalKey};
          return Progress("internal-error", facts, options, trace, errors, log);
        }
        facts := facts.(fingerprint := w.fingerprint);
        options := true;
        if w.arming != Armed {
          errors := errors + {TracebackArmKey};
        } else {
          trace := Trace(true, false);
          if w.constructs {
            facts := facts.(sessionConstructed := true);
            log := log + [ConstructSession];
          } else {
            errors := errors + {ConstructionKey};
          }
          if w.disarming == CancelFailed {
            errors := errors + {TracebackCancelKey};
          } else {
            trace := Trace(true, true);
            if w.disarming != Disarmed {
              errors := errors + {TracebackCloseKey};
            }
          }
          if w.constructs {
            if w.closes {
              facts := facts.(sessionClosed := 1);
              log := log + [CloseSession];
            } else {
              errors := errors + {SessionCloseKey};
            }
          }
        }
        outcome := if facts.sessionConstructed then "ok" else "construct-error";
        if w.terminated {
          outcome := "cancelled-after-go";
        }
    }
    return Progress(outcome, facts, options, trace, errors, log);
  }
}
