/** Runs of one exporter that may crash anywhere, and what recovery leaves of them. */
module ExportRuns {
  import opened Basics
  import opened ExportStreams
  import opened ExportQuota
  import opened ExportRecovery

  /** Where `create_export` stands. Files written before the rename are not visible. */
  datatype Phase = Idle | Writing(id: nat) | Published(id: nat, bytes: nat)

  /** `finals` are the final directories that check out, with their data's size;
      `used` are the ids drawn so far. */
  datatype World = World(rows: seq<Record>, finals: map<nat, nat>, used: set<nat>, phase: Phase)

  datatype Event =
    | Reserve(id: nat, created: int)
    | Publish(bytes: nat)
    | Finish
    | GiveUp
    | LeavePending
    | Crash
    | Recover(id: nat)

  const EMPTY := World([], map[], {}, Idle)

  predicate Room(rows: seq<Record>) {
    |rows| < MAX_WORKSPACE_EXPORTS && Accounted(rows) + RESERVATION <= MAX_WORKSPACE_EXPORT_BYTES
  }

  /** One step; an event that cannot happen changes nothing. Ids are never drawn
      twice. A failed export deletes its row before its files, so a crash in between
      leaves files without a row, never a row without its files. */
  function Step(w: World, e: Event): World {
    match e
    case Reserve(id, created) =>
      if w.phase.Idle? && id !in w.used && Room(w.rows) then
        World(w.rows + [Record(id, created, true, RESERVATION)], w.finals, w.used + {id}, Writing(id))
      else w
    case Publish(bytes) =>
      if w.phase.Writing? && bytes <= MAX_EXPORT_BYTES then
        w.(finals := w.finals[w.phase.id := bytes], phase := Published(w.phase.id, bytes))
      else w
    case Finish =>
      if w.phase.Published? && IsPending(w.rows, w.phase.id) && ReadyFits(w.rows, w.phase.id, w.phase.bytes) then
        w.(rows := Readied(w.rows, w.phase.id, w.phase.bytes), phase := Idle)
      else w
    case GiveUp =>
      if w.phase.Writing? then w.(rows := Dropped(w.rows, w.phase.id), phase := Idle) else w
    case LeavePending =>
      if w.phase.Published? then w.(phase := Idle) else w
    case Crash => w.(phase := Idle)
    case Recover(id) =>
      if w.phase.Idle? && IsPending(w.rows, id) then
        if id in w.finals then w.(rows := Readied(w.rows, id, w.finals[id])) else w.(rows := Dropped(w.rows, id))
      else w
  }

  function Exec(w: World, events: seq<Event>): World
    decreases |events|
  {
    if events == [] then w else Exec(Step(w, events[0]), events[1..])
  }

  /** Every ready record has a final directory that checks out with its size. */
  ghost predicate ReadyVerified(rows: seq<Record>, finals: map<nat, nat>) {
    forall k :: 0 <= k < |rows| && !rows[k].pending ==> rows[k].id in finals && finals[rows[k].id] == rows[k].bytes
  }

  ghost predicate Known(w: World) {
    && (forall k :: 0 <= k < |w.rows| ==> w.rows[k].id in w.used)
    && (forall id :: id in w.finals ==> id in w.used && w.finals[id] <= MAX_EXPORT_BYTES)
  }

  ghost predicate PhaseHolds(w: World) {
    match w.phase
    case Idle => true
    case Writing(id) => IsPending(w.rows, id) && id !in w.finals
    case Published(id, bytes) => IsPending(w.rows, id) && id in w.finals && w.finals[id] == bytes
  }

  ghost predicate Inv(w: World) {
    WithinQuota(w.rows) && ReadyVerified(w.rows, w.finals) && Known(w) && PhaseHolds(w)
  }

  lemma ReadiedVerified(rows: seq<Record>, finals: map<nat, nat>, id: nat, bytes: nat)
    requires ReadyVerified(rows, finals) && id in finals && finals[id] == bytes
    ensures ReadyVerified(Readied(rows, id, bytes), finals)
  {
    hide Readied;
  }

  lemma ReadiedHolds(w: World, id: nat, bytes: nat)
    requires Inv(w) && IsPending(w.rows, id) && id in w.finals && w.finals[id] == bytes
    ensures Inv(w.(rows := Readied(w.rows, id, bytes), phase := Idle))
  {
    hide WithinQuota, Readied, ReadyFits, IsPending, ReadyVerified;
    ReadyNeverRefused(w.rows, id, bytes);
    ReadiedVerified(w.rows, w.finals, id, bytes);
    var rows := Readied(w.rows, id, bytes);
    assert forall k :: 0 <= k < |rows| ==> rows[k].id == w.rows[k].id;
  }

  lemma DroppedHolds(w: World, id: nat)
    requires Inv(w)
    ensures Inv(w.(rows := Dropped(w.rows, id), phase := Idle))
  {
    DropKeepsQuota(w.rows, id);
    var rows := Dropped(w.rows, id);
    hide WithinQuota, Dropped;
    forall k | 0 <= k < |rows|
      ensures rows[k].id in w.used
      ensures !rows[k].pending ==> rows[k].id in w.finals && w.finals[rows[k].id] == rows[k].bytes
    {
      assert rows[k] in rows;
      var j :| 0 <= j < |w.rows| && w.rows[j] == rows[k];
    }
  }

  lemma ReserveHolds(w: World, id: nat, created: int)
    requires Inv(w) && w.phase.Idle? && id !in w.used && Room(w.rows)
    ensures Inv(Step(w, Reserve(id, created)))
  {
    AccountedAppend(w.rows, Record(id, created, true, RESERVATION));
    var rows := w.rows + [Record(id, created, true, RESERVATION)];
    assert rows[|w.rows|] == Record(id, created, true, RESERVATION);
    assert forall k :: 0 <= k < |w.rows| ==> rows[k] == w.rows[k] && rows[k].id != id;
    hide Accounted;
  }

  lemma PublishHolds(w: World, bytes: nat)
    requires Inv(w) && w.phase.Writing? && bytes <= MAX_EXPORT_BYTES
    ensures Inv(Step(w, Publish(bytes)))
  {
    var id := w.phase.id;
    var k :| 0 <= k < |w.rows| && w.rows[k].id == id && w.rows[k].pending;
    assert forall j :: 0 <= j < |w.rows| && !w.rows[j].pending ==> w.rows[j].id != id by {
      hide Accounted;
    }
    hide WithinQuota;
  }

  lemma StepKeeps(w: World, e: Event)
    requires Inv(w)
    ensures Inv(Step(w, e))
  {
    match e {
      case Reserve(id, created) =>
        if w.phase.Idle? && id !in w.used && Room(w.rows) {
          ReserveHolds(w, id, created);
        }
      case Publish(bytes) =>
        if w.phase.Writing? && bytes <= MAX_EXPORT_BYTES {
          PublishHolds(w, bytes);
        }
      case Finish =>
        if w.phase.Published? {
          ReadiedHolds(w, w.phase.id, w.phase.bytes);
        }
      case GiveUp =>
        if w.phase.Writing? {
          DroppedHolds(w, w.phase.id);
        }
      case LeavePending => hide WithinQuota;
      case Crash => hide WithinQuota;
      case Recover(id) =>
        if w.phase.Idle? && IsPending(w.rows, id) {
          DroppedHolds(w, id);
          if id in w.finals {
            ReadiedHolds(w, id, w.finals[id]);
          }
        }
    }
  }

  /** In every run, with a crash after any step, the quota holds, at most three records
      are pending, every ready record is backed by its files, and the quota check of a
      published export cannot refuse it. */
  lemma {:induction false} RunsAreSafe(w: World, events: seq<Event>)
    requires Inv(w)
    ensures var t := Exec(w, events);
            && Inv(t) && PendingCount(t.rows) <= 3
            && (t.phase.Published? ==> ReadyFits(t.rows, t.phase.id, t.phase.bytes))
    decreases |events|
  {
    if events == [] {
      AtMostThreePending(w.rows);
      if w.phase.Published? {
        ReadyNeverRefused(w.rows, w.phase.id, w.phase.bytes);
      }
    } else {
      StepKeeps(w, events[0]);
      hide Inv;
      RunsAreSafe(Step(w, events[0]), events[1..]);
    }
  }

  /** What a full recovery owes the rows it finds. */
  ghost predicate Settled(before: seq<Record>, after: seq<Record>, finals: map<nat, nat>) {
    && (forall r :: r in after ==> !r.pending && r.id in finals && finals[r.id] == r.bytes)
    && (forall r :: r in before && !r.pending ==> r in after)
    && (forall r :: r in before && r.pending && r.id in finals ==> r.(pending := false, bytes := finals[r.id]) in after)
    && (forall r :: r in after ==> exists b :: b in before && b.id == r.id)
  }

  lemma {:induction false} RecoverySettles(rows: seq<Record>, todo: set<nat>, finals: map<nat, nat>)
    requires ReadyVerified(rows, finals) && forall id :: IsPending(rows, id) ==> id in todo
    ensures Settled(rows, Recovered(rows, todo, finals), finals)
  {
    if rows != [] {
      PendingFirst(rows);
      RecoverySettles(rows[1..], todo, finals);
      SettledFront(rows[0], rows[1..], Recovered(rows[1..], todo, finals), finals,
                   if !rows[0].pending then [rows[0]]
                   else if rows[0].id in finals then [rows[0].(pending := false, bytes := finals[rows[0].id])] else []);
    }
  }

  lemma SettledFront(first: Record, rest: seq<Record>, after: seq<Record>, finals: map<nat, nat>, kept: seq<Record>)
    requires Settled(rest, after, finals)
    requires !first.pending ==> first.id in finals && finals[first.id] == first.bytes
    requires kept == if !first.pending then [first]
                     else if first.id in finals then [first.(pending := false, bytes := finals[first.id])] else []
    ensures Settled([first] + rest, kept + after, finals)
  {
    forall r | r in kept + after
      ensures !r.pending && r.id in finals && finals[r.id] == r.bytes
      ensures exists b :: b in [first] + rest && b.id == r.id
    {
      if r in after {
        var b :| b in rest && b.id == r.id;
        assert b in [first] + rest;
      } else {
        assert first in [first] + rest;
      }
    }
  }

  /** After any run and crash, a full recovery leaves every record ready with verified
      files or removed: nothing stays pending and no published export is lost. */
  lemma CrashThenRecover(events: seq<Event>)
    ensures var w := Step(Exec(EMPTY, events), Crash);
            var after := Recovered(w.rows, Elements(PendingIds(w.rows)), w.finals);
            Settled(w.rows, after, w.finals) && forall id :: !IsPending(after, id)
  {
    assert Inv(EMPTY);
    RunsAreSafe(EMPTY, events);
    var w := Step(Exec(EMPTY, events), Crash);
    var todo := Elements(PendingIds(w.rows));
    assert ReadyVerified(w.rows, w.finals);
    RecoverySettles(w.rows, todo, w.finals);
    forall id
      ensures !IsPending(Recovered(w.rows, todo, w.finals), id)
    {
      StillPending(w.rows, todo, w.finals, id);
    }
  }
}
