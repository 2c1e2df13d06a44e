/** Replay ingest as atomic steps of any number of workers on one operation's
    evidence roots and history, with crashes at any point. */
module ReplayProtocol {
  import opened Basics
  import opened HistoryPages
  import opened ReplayWindows

  /** Content-addressed evidence, which roots point at. */
  datatype Artifact = Transcript(intent: Intent) | ReferenceFile(intent: Intent)

  datatype Store = Store(
    evidence: set<Artifact>,
    root: Option<Intent>,
    reference: Option<Intent>,
    history: seq<Projected>)

  datatype Failure = IntegrityFailure | Conflict

  /** The next atomic action of a call; `existing` is whether it saw history. */
  datatype Pc =
    | ReadRoot
    | ReadReference(root: Option<Intent>)
    | LoadHistory(root: Option<Intent>, reference: Option<Intent>)
    | PublishTranscript(reference: Option<Intent>)
    | PutRoot(reference: Option<Intent>)
    | PublishReference(existing: bool)
    | PutReference(existing: bool)
    | ResolveRace(existing: bool)
    | Append
    | Returned
    | Refused(failure: Failure)
    | Crashed

  datatype Worker = Worker(intent: Intent, pc: Pc)

  /** After the transcript root is known to be this intent's. */
  function AfterRoot(reference: Option<Intent>, existing: bool): Pc {
    if reference.None? then PublishReference(existing) else if existing then Returned else Append
  }

  /** `_validate_existing_root` and `_validate_existing_reference_root`. */
  function Validate(st: Store, i: Intent, root: Option<Intent>, reference: Option<Intent>): Option<Failure> {
    if root.None? && reference.Some? then Some(IntegrityFailure)
    else if root.Some? && root.value != i then Some(Conflict)
    else if root.Some? && Transcript(i) !in st.evidence then Some(IntegrityFailure)
    else if reference.Some? && reference.value != i then Some(Conflict)
    else if reference.Some? && ReferenceFile(i) !in st.evidence then Some(IntegrityFailure)
    else None
  }

  /** How `_load_existing_batches` fails, if it does: without a page it ends as an
      environment failure, and a window that one page does not hold is a conflict. */
  function LoadFailure(page: PageResult): Option<Pc> {
    if page.Corrupt? then Some(Crashed)
    else if page.next.Some? || exists s :: s in page.slices && !IsWhole(s) then Some(Refused(Conflict))
    else None
  }

  /** What follows once the history is loaded. */
  ghost function AfterHistory(st: Store, i: Intent, root: Option<Intent>, reference: Option<Intent>): Pc {
    var page := LoadPage(i.session.id, st.history);
    if LoadFailure(page).Some? then LoadFailure(page).value
    else
      var existing := AllRebuilt(page.slices);
      if root.None? then if existing != [] then Refused(Conflict) else PublishTranscript(reference)
      else if existing != [] && existing != i.batches then Refused(Conflict)
      else AfterRoot(reference, existing != [])
  }

  /** The unique index on run and sequence rejects a repeated row. */
  predicate RowExists(history: seq<Projected>, batches: seq<Projected>) {
    exists a, b :: 0 <= a < |history| && 0 <= b < |batches| && history[a].sequence == batches[b].sequence
  }

  /** One atomic step of a call. */
  ghost function Step(st: Store, w: Worker): (Store, Worker) {
    var i := w.intent;
    match w.pc
    case ReadRoot => (st, w.(pc := ReadReference(st.root)))
    case ReadReference(root) =>
      if root.None? && st.reference.Some? then (st, w.(pc := Refused(IntegrityFailure)))
      else (st, w.(pc := LoadHistory(root, st.reference)))
    case LoadHistory(root, reference) =>
      var bad := Validate(st, i, root, reference);
      if bad.Some? then (st, w.(pc := Refused(bad.value)))
      else (st, w.(pc := AfterHistory(st, i, root, reference)))
    case PublishTranscript(reference) =>
      (st.(evidence := st.evidence + {Transcript(i)}), w.(pc := PutRoot(reference)))
    case PutRoot(reference) =>
      if st.root.Some? && st.root.value != i then (st, w.(pc := Refused(Conflict)))
      else (st.(root := Some(i)), w.(pc := AfterRoot(reference, false)))
    case PublishReference(existing) =>
      (st.(evidence := st.evidence + {ReferenceFile(i)}), w.(pc := PutReference(existing)))
    case PutReference(existing) =>
      if st.reference.Some? && st.reference.value != i then (st, w.(pc := ResolveRace(existing)))
      else (st.(reference := Some(i)), w.(pc := if existing then Returned else Append))
    case ResolveRace(existing) =>
      if st.reference != Some(i) then (st, w.(pc := Refused(Conflict)))
      else (st, w.(pc := if existing then Returned else Append))
    case Append =>
      if RowExists(st.history, i.batches) then (st, w.(pc := Refused(Conflict)))
      else (st.(history := st.history + i.batches), w.(pc := Returned))
    case Returned => (st, w)
    case Refused(_) => (st, w)
    case Crashed => (st, w)
  }

  predicate Finished(pc: Pc) {
    pc.Returned? || pc.Refused? || pc.Crashed?
  }

  // Many workers

  datatype System = System(store: Store, workers: map<nat, Worker>)

  datatype Action = Start(id: nat, intent: Intent) | Advance(id: nat) | Crash(id: nat)

  const EMPTY := System(Store({}, None, None, []), map[])

  /** Actions that do not apply leave the system as it is. An environment failure
      ends a call like a crash. */
  ghost function Next(s: System, a: Action): System {
    match a
    case Start(id, intent) =>
      if id in s.workers || !ValidIntent(intent) then s
      else s.(workers := s.workers[id := Worker(intent, ReadRoot)])
    case Advance(id) =>
      if id !in s.workers then s
      else
        var r := Step(s.store, s.workers[id]);
        System(r.0, s.workers[id := r.1])
    case Crash(id) =>
      if id !in s.workers || Finished(s.workers[id].pc) then s
      else s.(workers := s.workers[id := s.workers[id].(pc := Crashed)])
  }

  ghost function Exec(s: System, actions: seq<Action>): System
    decreases |actions|
  {
    if actions == [] then s else Exec(Next(s, actions[0]), actions[1..])
  }

  // Invariant

  /** The store alone: the reference root is the transcript root's, what a root
      names has been published, and history is empty or the root's projection. */
  predicate StoreInv(st: Store) {
    && (st.reference.Some? ==> st.root == st.reference && ReferenceFile(st.reference.value) in st.evidence)
    && (st.root.Some? ==> Transcript(st.root.value) in st.evidence && ValidIntent(st.root.value))
    && (st.history != [] ==> st.root.Some? && st.history == st.root.value.batches)
  }

  /** What a worker between two steps relies on. */
  predicate WorkerInv(st: Store, w: Worker) {
    && ValidIntent(w.intent)
    && match w.pc
       case ReadRoot => true
       case ReadReference(root) => root.Some? ==> st.root == root
       case LoadHistory(root, reference) =>
         && (root.Some? ==> st.root == root)
         && (reference.Some? ==> root.Some? && st.reference == reference)
       case PublishTranscript(reference) => reference.None?
       case PutRoot(reference) => reference.None? && Transcript(w.intent) in st.evidence
       case PublishReference(existing) => st.root == Some(w.intent) && (existing ==> st.history != [])
       case PutReference(existing) =>
         st.root == Some(w.intent) && ReferenceFile(w.intent) in st.evidence && (existing ==> st.history != [])
       case ResolveRace(_) => false
       case Append => st.root == Some(w.intent) && st.reference == Some(w.intent)
       case Returned => st.root == Some(w.intent) && st.reference == Some(w.intent) && st.history != []
       case Refused(failure) => failure.IntegrityFailure? ==> st.root.Some? && st.root == st.reference
       case Crashed => true
  }

  predicate Inv(s: System) {
    StoreInv(s.store) && forall id :: id in s.workers ==> WorkerInv(s.store, s.workers[id])
  }

  /** Roots are write-once, evidence grows and history is written once. */
  predicate Grows(a: Store, b: Store) {
    && a.evidence <= b.evidence
    && (a.root.Some? ==> b.root == a.root)
    && (a.reference.Some? ==> b.reference == a.reference)
    && (a.history != [] ==> b.history == a.history)
  }

  lemma WorkerInvSurvives(a: Store, b: Store, w: Worker)
    requires WorkerInv(a, w) && Grows(a, b)
    ensures WorkerInv(b, w)
  {
  }

  lemma StepKeepsInv(st: Store, w: Worker)
    requires StoreInv(st) && WorkerInv(st, w)
    ensures var r := Step(st, w); StoreInv(r.0) && WorkerInv(r.0, r.1) && Grows(st, r.0)
    ensures var r := Step(st, w); r.0.history != st.history ==> st.root == Some(w.intent)
  {
    hide AfterHistory, ValidIntent, RowExists, Validate;
    if w.pc.Append? {
      RowsOfTheRoot(st, w.intent);
    } else if w.pc.LoadHistory? {
      LoadKeepsInv(st, w);
    }
  }

  lemma LoadKeepsInv(st: Store, w: Worker)
    requires StoreInv(st) && WorkerInv(st, w) && w.pc.LoadHistory?
    ensures var r := Step(st, w); r.0 == st && WorkerInv(st, r.1)
  {
    hide AfterHistory, ValidIntent, WindowFits, RowExists;
    var root, reference := w.pc.root, w.pc.reference;
    if Validate(st, w.intent, root, reference).None? {
      if root.Some? {
        LoadsOwn(st, w.intent, reference);
      } else {
        LoadsWithoutRoot(st, w.intent, reference);
      }
    }
  }

  /** The load of an intent that has the root: its own window or nothing. */
  lemma LoadsOwn(st: Store, i: Intent, reference: Option<Intent>)
    requires StoreInv(st) && st.root == Some(i)
    ensures AfterHistory(st, i, Some(i), reference) ==
            if st.history != [] && !WindowFits(i.batches) then Refused(Conflict) else AfterRoot(reference, st.history != [])
  {
    if st.history != [] {
      WindowsAreLoadable(i);
    }
    LoadWindow(i.session.id, st.history);
    hide LoadPage, ValidIntent;
  }

  /** A call that saw no root never goes past it when there is history of its session. */
  lemma LoadsWithoutRoot(st: Store, i: Intent, reference: Option<Intent>)
    ensures var pc := AfterHistory(st, i, None, reference);
            pc == Crashed || pc == Refused(Conflict) || pc == PublishTranscript(reference)
    ensures st.history == [] ==> AfterHistory(st, i, None, reference) == PublishTranscript(reference)
  {
    if st.history == [] {
      LoadWindow(i.session.id, []);
    }
    hide LoadPage;
  }

  lemma RowsOfTheRoot(st: Store, i: Intent)
    requires StoreInv(st) && st.root == Some(i)
    ensures i.batches != [] && (RowExists(st.history, i.batches) <==> st.history != [])
    ensures st.history == [] ==> st.history + i.batches == i.batches
  {
    if st.history != [] {
      assert st.history[0].sequence == i.batches[0].sequence;
    }
  }

  lemma NextKeepsInv(s: System, a: Action)
    requires Inv(s)
    ensures Inv(Next(s, a)) && Grows(s.store, Next(s, a).store)
  {
    if a.Advance? && a.id in s.workers {
      StepKeepsInv(s.store, s.workers[a.id]);
      hide Step;
      var t := Next(s, a);
      forall id | id in t.workers
        ensures WorkerInv(t.store, t.workers[id])
      {
        if id != a.id {
          WorkerInvSurvives(s.store, t.store, s.workers[id]);
        }
      }
    }
  }

  /** Safety over every run from any safe state: all workers' promises hold at the
      end, and nothing published or recorded before it has changed. */
  lemma {:induction false} ExecKeepsInv(s: System, actions: seq<Action>)
    requires Inv(s)
    ensures Inv(Exec(s, actions)) && Grows(s.store, Exec(s, actions).store)
    decreases |actions|
  {
    if actions != [] {
      NextKeepsInv(s, actions[0]);
      hide Next;
      ExecKeepsInv(Next(s, actions[0]), actions[1..]);
    }
  }

  /** In every reachable state: a reference root implies the matching transcript
      root and both files, history is the root's projection or empty, and a call
      that returned its reference has everything published and recorded. A call
      that reports an integrity failure does so on a store with both roots in place. */
  lemma ReachableIsSafe(actions: seq<Action>)
    ensures var s := Exec(EMPTY, actions);
            && (s.store.reference.Some? ==>
                  && s.store.root == s.store.reference
                  && Transcript(s.store.root.value) in s.store.evidence
                  && ReferenceFile(s.store.root.value) in s.store.evidence)
            && (s.store.history != [] ==> s.store.root.Some? && s.store.history == s.store.root.value.batches)
            && forall id :: id in s.workers && s.workers[id].pc.Returned? ==>
                 && s.store.root == s.store.reference == Some(s.workers[id].intent)
                 && s.store.history == s.workers[id].intent.batches
    ensures var s := Exec(EMPTY, actions);
            forall id :: id in s.workers && s.workers[id].pc == Refused(IntegrityFailure) ==>
              s.store.root.Some? && s.store.root == s.store.reference
  {
    hide Exec, ValidIntent;
    InitialInv();
    ExecKeepsInv(EMPTY, actions);
  }

  lemma InitialInv()
    ensures Inv(EMPTY)
  {
  }

  /** A call whose intent is not the root's never appends, and never replaces a root. */
  lemma LosersChangeNothing(actions: seq<Action>, a: Action)
    ensures var s := Exec(EMPTY, actions);
            var t := Next(s, a);
            && (t.store.history != s.store.history ==>
                  a.Advance? && a.id in s.workers && s.store.root == Some(s.workers[a.id].intent)
                  && s.store.history == [] && t.store.history == s.store.root.value.batches)
            && (s.store.root.Some? ==> t.store.root == s.store.root)
            && (s.store.reference.Some? ==> t.store.reference == s.store.reference)
  {
    ExecKeepsInv(EMPTY, actions);
    var s := Exec(EMPTY, actions);
    NextKeepsInv(s, a);
    if a.Advance? && a.id in s.workers {
      StepKeepsInv(s.store, s.workers[a.id]);
      if s.workers[a.id].pc.Append? {
        RowsOfTheRoot(s.store, s.workers[a.id].intent);
      }
    }
  }

  // Retry

  function Rank(pc: Pc): nat {
    match pc
    case ReadRoot => 9
    case ReadReference(_) => 8
    case LoadHistory(_, _) => 7
    case PublishTranscript(_) => 6
    case PutRoot(_) => 5
    case PublishReference(_) => 4
    case PutReference(_) => 3
    case ResolveRace(_) => 2
    case Append => 1
    case _ => 0
  }

  /** A call run to its end with nobody else stepping. */
  ghost function RunAlone(st: Store, w: Worker): (Store, Worker)
    decreases Rank(w.pc)
  {
    if Finished(w.pc) then (st, w)
    else
      StepDescends(st, w);
      var r := Step(st, w);
      RunAlone(r.0, r.1)
  }

  function Advances(n: nat, id: nat): seq<Action> {
    seq(n, _ => Advance(id))
  }

  lemma StepDescends(st: Store, w: Worker)
    requires !Finished(w.pc)
    ensures Rank(Step(st, w).1.pc) < Rank(w.pc)
  {
    hide Validate, RowExists, AfterHistory;
    LoadDescends(st, w.intent);
  }

  lemma LoadDescends(st: Store, i: Intent)
    ensures forall root, reference :: Rank(AfterHistory(st, i, root, reference)) < 7
  {
    hide LoadPage;
  }

  lemma OneMoreAdvance(s: System, id: nat, n: nat)
    ensures Exec(s, Advances(n + 1, id)) == Exec(Next(s, Advance(id)), Advances(n, id))
  {
    assert Advances(n + 1, id)[1..] == Advances(n, id);
  }

  /** A solo call is one of the system's runs. */
  lemma {:induction false} AloneIsARun(s: System, id: nat)
    requires id in s.workers
    ensures exists n: nat ::
              var r := RunAlone(s.store, s.workers[id]);
              Exec(s, Advances(n, id)) == System(r.0, s.workers[id := r.1])
    decreases Rank(s.workers[id].pc)
  {
    var w := s.workers[id];
    var r := RunAlone(s.store, w);
    if Finished(w.pc) {
      assert s.workers[id := w] == s.workers;
      assert Exec(s, Advances(0, id)) == System(r.0, s.workers[id := r.1]);
    } else {
      var t := Next(s, Advance(id));
      StepDescends(s.store, w);
      hide Step;
      assert RunAlone(t.store, t.workers[id]) == r;
      hide RunAlone;
      AloneIsARun(t, id);
      var n: nat :| Exec(t, Advances(n, id)) == System(r.0, t.workers[id := r.1]);
      OneMoreAdvance(s, id, n);
      assert t.workers[id := r.1] == s.workers[id := r.1];
      assert Exec(s, Advances(n + 1, id)) == System(r.0, s.workers[id := r.1]);
    }
  }

  /** An uninterrupted call from any safe store returns exactly if no other intent has
      the root and what is recorded fits in one page; then everything is published and
      recorded, and else nothing changes. */
  lemma SoloCall(st: Store, i: Intent)
    requires StoreInv(st) && ValidIntent(i)
    ensures var r := RunAlone(st, Worker(i, ReadRoot));
            && (r.1.pc == Returned <==> (st.root.None? || st.root.value == i) && (st.history == [] || WindowFits(i.batches)))
            && (if r.1.pc == Returned then r.0.root == r.0.reference == Some(i) && r.0.history == i.batches
                else r.0 == st && r.1.pc == Refused(Conflict))
  {
    var w := Worker(i, ReadRoot);
    var w1 := w.(pc := ReadReference(st.root));
    var w2 := w.(pc := LoadHistory(st.root, st.reference));
    assert RunAlone(st, w) == RunAlone(st, w1) == RunAlone(st, w2);
    if st.root.Some? && st.root.value != i {
      assert RunAlone(st, w2) == (st, w.(pc := Refused(Conflict)));
    } else {
      SoloLoaded(st, i);
    }
    hide AfterHistory, WindowFits;
  }

  /** The rest of an uninterrupted call that holds the root or found none. */
  lemma SoloLoaded(st: Store, i: Intent)
    requires StoreInv(st) && ValidIntent(i) && (st.root.None? || st.root.value == i)
    ensures var r := RunAlone(st, Worker(i, LoadHistory(st.root, st.reference)));
            if st.history == [] || WindowFits(i.batches)
            then r.1.pc == Returned && r.0.root == r.0.reference == Some(i) && r.0.history == i.batches
            else r.0 == st && r.1.pc == Refused(Conflict)
  {
    var w := Worker(i, LoadHistory(st.root, st.reference));
    var w3 := w.(pc := AfterHistory(st, i, st.root, st.reference));
    assert RunAlone(st, w) == RunAlone(st, w3);
    if st.root.None? {
      LoadsWithoutRoot(st, i, None);
      hide AfterHistory, WindowFits, ValidIntent;
      var st4 := st.(evidence := st.evidence + {Transcript(i)});
      var st5 := st4.(root := Some(i));
      assert RunAlone(st, w3) == RunAlone(st4, w.(pc := PutRoot(None)));
      assert RunAlone(st4, w.(pc := PutRoot(None))) == RunAlone(st5, w.(pc := PublishReference(false)));
      SoloPublish(st5, i, false);
    } else {
      LoadsOwn(st, i, st.reference);
      hide AfterHistory, WindowFits, ValidIntent;
      if w3.pc.PublishReference? {
        SoloPublish(st, i, w3.pc.existing);
      } else if w3.pc.Append? {
        SoloAppend(st, i);
      }
    }
  }

  lemma SoloPublish(st: Store, i: Intent, existing: bool)
    requires StoreInv(st) && st.root == Some(i) && st.reference.None? && existing == (st.history != [])
    ensures var r := RunAlone(st, Worker(i, PublishReference(existing)));
            r.1.pc == Returned && r.0.root == r.0.reference == Some(i) && r.0.history == i.batches
  {
    hide AfterHistory, ValidIntent, RowExists, Validate;
    var w := Worker(i, PublishReference(existing));
    var st1 := st.(evidence := st.evidence + {ReferenceFile(i)});
    var st2 := st1.(reference := Some(i));
    var next := w.(pc := if existing then Returned else Append);
    assert RunAlone(st, w) == RunAlone(st1, w.(pc := PutReference(existing))) == RunAlone(st2, next);
    if !existing {
      SoloAppend(st2, i);
    }
  }

  lemma SoloAppend(st: Store, i: Intent)
    requires StoreInv(st) && st.root == st.reference == Some(i) && st.history == []
    ensures var r := RunAlone(st, Worker(i, Append));
            r.1.pc == Returned && r.0.root == r.0.reference == Some(i) && r.0.history == i.batches
  {
    RowsOfTheRoot(st, i);
    assert RunAlone(st, Worker(i, Append)) ==
           RunAlone(st.(history := st.history + i.batches), Worker(i, Returned));
  }

  /** With everything in place a call changes nothing; it returns exactly if the
      window fits. */
  lemma SecondRetry(st: Store, i: Intent)
    requires StoreInv(st) && st.root == st.reference == Some(i) && st.history == i.batches
    ensures RunAlone(st, Worker(i, ReadRoot)) == (st, Worker(i, if WindowFits(i.batches) then Returned else Refused(Conflict)))
  {
    var w := Worker(i, ReadRoot);
    var w1 := w.(pc := ReadReference(st.root));
    var w2 := w.(pc := LoadHistory(st.root, st.reference));
    assert RunAlone(st, w) == RunAlone(st, w1) == RunAlone(st, w2);
    LoadsOwn(st, i, st.reference);
    hide AfterHistory, WindowFits, ValidIntent;
    var w3 := w.(pc := if WindowFits(i.batches) then Returned else Refused(Conflict));
    assert RunAlone(st, w2) == RunAlone(st, w3);
  }

  /** What an uninterrupted retry of the winning intent leaves. */
  ghost predicate Retried(st: Store, i: Intent) {
    var r := RunAlone(st, Worker(i, ReadRoot));
    r.1.pc == Returned && r.0.root == r.0.reference == Some(i) && r.0.history == i.batches
  }

  /** Whatever happened before, a fresh uninterrupted retry of the winning intent
      returns its reference exactly if nothing is recorded yet or the window fits in
      one page; after that, every further one returns it exactly if the window fits. */
  lemma WinnerCanRetry(actions: seq<Action>, i: Intent)
    requires Exec(EMPTY, actions).store.root == Some(i)
    ensures var st := Exec(EMPTY, actions).store;
            var after := RunAlone(st, Worker(i, ReadRoot)).0;
            && ValidIntent(i) && (Retried(st, i) <==> st.history == [] || WindowFits(i.batches))
            && (Retried(st, i) ==> (Retried(after, i) <==> WindowFits(i.batches)))
  {
    ExecKeepsInv(EMPTY, actions);
    var st := Exec(EMPTY, actions).store;
    hide Exec, RunAlone, WindowFits, ValidIntent;
    SoloCall(st, i);
    if Retried(st, i) {
      SoloIsSafe(st, i);
      SecondRetry(RunAlone(st, Worker(i, ReadRoot)).0, i);
    }
  }

  lemma SoloIsSafe(st: Store, i: Intent)
    requires StoreInv(st) && ValidIntent(i)
    ensures StoreInv(RunAlone(st, Worker(i, ReadRoot)).0)
  {
    var s := System(st, map[0 := Worker(i, ReadRoot)]);
    hide RunAlone, Exec, ValidIntent;
    AloneIsARun(s, 0);
    var n: nat :| var r := RunAlone(st, Worker(i, ReadRoot));
                  Exec(s, Advances(n, 0)) == System(r.0, s.workers[0 := r.1]);
    ExecKeepsInv(s, Advances(n, 0));
  }

  /** With a session id of up to 12,000 bytes the winner can always retry. */
  lemma WinnerAlwaysRetries(actions: seq<Action>, i: Intent)
    requires Exec(EMPTY, actions).store.root == Some(i) && i.session.bytes <= 12_000
    ensures var st := Exec(EMPTY, actions).store;
            Retried(st, i) && Retried(RunAlone(st, Worker(i, ReadRoot)).0, i)
  {
    ExecKeepsInv(EMPTY, actions);
    hide Exec, RunAlone, WindowFits;
    ShortSessionsFit(i);
    WinnerCanRetry(actions, i);
  }

  // What the code does not promise

  /** An input within the limits whose first call returns and whose retry is refused: its
      own window does not fit in the page that the retry reads. */
  lemma RetryCanConflict()
    ensures var i := LongIntent();
            && ValidIntent(i) && Retried(EMPTY.store, i)
            && RunAlone(RunAlone(EMPTY.store, Worker(i, ReadRoot)).0, Worker(i, ReadRoot)).1.pc == Refused(Conflict)
  {
    var i := LongIntent();
    LongIntentOverflows();
    hide RunAlone, WindowFits, LongIntent, ValidIntent;
    SoloCall(EMPTY.store, i);
    SoloIsSafe(EMPTY.store, i);
    SecondRetry(RunAlone(EMPTY.store, Worker(i, ReadRoot)).0, i);
  }

  /** The two root reads are not one atomic read: a call that finds no transcript
      root can find a reference root that was published in between, together with
      its transcript root, and then reports an integrity failure on a sound store. */
  lemma IntegrityFailureCanBeSpurious(i: Intent)
    requires ValidIntent(i)
    ensures exists actions ::
              var s := Exec(EMPTY, actions);
              && StoreInv(s.store) && s.store.root == s.store.reference == Some(i)
              && 0 in s.workers && s.workers[0] == Worker(i, Refused(IntegrityFailure))
  {
    hide AfterHistory, WindowFits, ValidIntent, RowExists, Validate, RunAlone;
    var s0 := System(EMPTY.store, map[0 := Worker(i, ReadReference(None)), 1 := Worker(i, ReadRoot)]);
    var head := [Start(0, i), Advance(0), Start(1, i)];
    assert head[1..] == [Advance(0), Start(1, i)] && head[1..][1..] == [Start(1, i)] && head[1..][1..][1..] == [];
    var a := Next(EMPTY, Start(0, i));
    var b := Next(a, Advance(0));
    assert Next(b, Start(1, i)) == s0;
    assert Exec(EMPTY, head) == Exec(a, head[1..]) == Exec(b, head[1..][1..]) == Exec(s0, []);
    ExecKeepsInv(EMPTY, head);
    SoloCall(EMPTY.store, i);
    AloneIsARun(s0, 1);
    var r := RunAlone(s0.store, s0.workers[1]);
    var n: nat :| Exec(s0, Advances(n, 1)) == System(r.0, s0.workers[1 := r.1]);
    var middle := Advances(n, 1);
    ExecKeepsInv(s0, middle);
    ExecAppend(EMPTY, head, middle);
    ExecAppend(EMPTY, head + middle, [Advance(0)]);
    var s1 := System(r.0, s0.workers[1 := r.1]);
    assert Exec(s1, [Advance(0)]) == Next(s1, Advance(0)) by {
      assert [Advance(0)][1..] == [];
    }
    var s := Exec(EMPTY, head + middle + [Advance(0)]);
    assert s.workers[0] == Worker(i, Refused(IntegrityFailure));
  }

  lemma {:induction false} ExecAppend(s: System, a: seq<Action>, b: seq<Action>)
    ensures Exec(s, a + b) == Exec(Exec(s, a), b)
    decreases |a|
  {
    if a == [] {
      assert a + b == b;
    } else {
      assert (a + b)[1..] == a[1..] + b;
      ExecAppend(Next(s, a[0]), a[1..], b);
    }
  }

  // Integrity failures

  /** The system before action `n` of a run. */
  ghost function At(actions: seq<Action>, n: nat): System
    requires n <= |actions|
  {
    Exec(EMPTY, actions[..n])
  }

  lemma AtNext(actions: seq<Action>, n: nat)
    requires n < |actions|
    ensures At(actions, n + 1) == Next(At(actions, n), actions[n])
  {
    assert actions[..n + 1] == actions[..n] + [actions[n]];
    ExecAppend(EMPTY, actions[..n], [actions[n]]);
    assert [actions[n]][1..] == [];
    assert Exec(At(actions, n), [actions[n]]) == Exec(Next(At(actions, n), actions[n]), []);
  }

  /** Action `n` is the call's read of its transcript root. */
  ghost predicate ReadsRootAt(actions: seq<Action>, id: nat, n: nat) {
    && n < |actions| && actions[n] == Advance(id)
    && id in At(actions, n).workers && At(actions, n).workers[id].pc.ReadRoot?
  }

  /** Action `n` is the call's read of its reference root. */
  ghost predicate ReadsReferenceAt(actions: seq<Action>, id: nat, n: nat) {
    && n < |actions| && actions[n] == Advance(id)
    && id in At(actions, n).workers && At(actions, n).workers[id].pc.ReadReference?
  }

  /** Within the first `n` actions the call has read that there is no transcript root. */
  ghost predicate SawNoRoot(actions: seq<Action>, id: nat, n: nat)
    requires n <= |actions|
  {
    exists k :: 0 <= k < n && ReadsRootAt(actions, id, k) && At(actions, k).store.root.None?
  }

  /** Within the first `n` actions the call has read a reference root. */
  ghost predicate SawReference(actions: seq<Action>, id: nat, n: nat)
    requires n <= |actions|
  {
    exists m :: 0 <= m < n && ReadsReferenceAt(actions, id, m) && At(actions, m).store.reference.Some?
  }

  /** What the place of a call tells about its two reads. */
  ghost predicate ReadsTell(actions: seq<Action>, id: nat, n: nat)
    requires n <= |actions|
  {
    var s := At(actions, n);
    var noRoot, reference := SawNoRoot(actions, id, n), SawReference(actions, id, n);
    if id !in s.workers || s.workers[id].pc.ReadRoot? then !noRoot && !reference
    else if s.workers[id].pc.ReadReference? then (noRoot <==> s.workers[id].pc.root.None?) && !reference
    else s.workers[id].pc == Refused(IntegrityFailure) <==> noRoot && reference
  }

  lemma ReadsGrow(actions: seq<Action>, id: nat, n: nat)
    requires n < |actions|
    ensures SawNoRoot(actions, id, n + 1) <==>
              SawNoRoot(actions, id, n) || (ReadsRootAt(actions, id, n) && At(actions, n).store.root.None?)
    ensures SawReference(actions, id, n + 1) <==>
              SawReference(actions, id, n) || (ReadsReferenceAt(actions, id, n) && At(actions, n).store.reference.Some?)
  {
    hide At, ReadsRootAt, ReadsReferenceAt;
  }

  lemma {:induction false} PlacesTell(actions: seq<Action>, id: nat, n: nat)
    requires n <= |actions|
    ensures ReadsTell(actions, id, n)
  {
    if n > 0 {
      PlacesTell(actions, id, n - 1);
      ExecKeepsInv(EMPTY, actions[..n - 1]);
      hide Exec, Step, Inv;
      PlaceMoves(actions, id, n - 1);
    }
  }

  lemma InvGives(s: System, id: nat)
    requires Inv(s) && id in s.workers
    ensures StoreInv(s.store) && WorkerInv(s.store, s.workers[id])
  {
    hide StoreInv, WorkerInv;
  }

  lemma PlaceMoves(actions: seq<Action>, id: nat, n: nat)
    requires n < |actions| && ReadsTell(actions, id, n) && Inv(At(actions, n))
    ensures ReadsTell(actions, id, n + 1)
  {
    hide At, Step, SawNoRoot, SawReference, Inv;
    AtNext(actions, n);
    ReadsGrow(actions, id, n);
    var s, a := At(actions, n), actions[n];
    if id in s.workers && a == Advance(id) {
      InvGives(s, id);
      StepTells(s.store, s.workers[id]);
      assert At(actions, n + 1).workers[id] == Step(s.store, s.workers[id]).1;
    } else {
      assert !ReadsRootAt(actions, id, n) && !ReadsReferenceAt(actions, id, n);
    }
  }

  /** Only the second read can report an integrity failure. */
  lemma StepTells(st: Store, w: Worker)
    requires StoreInv(st) && WorkerInv(st, w)
    ensures var pc := Step(st, w).1.pc;
            match w.pc
            case ReadRoot => pc == ReadReference(st.root)
            case ReadReference(root) =>
              && !pc.ReadRoot? && !pc.ReadReference?
              && (pc == Refused(IntegrityFailure) <==> root.None? && st.reference.Some?)
            case _ =>
              && !pc.ReadRoot? && !pc.ReadReference?
              && (pc == Refused(IntegrityFailure) <==> w.pc == Refused(IntegrityFailure))
  {
    hide AfterHistory, ValidIntent, WindowFits, RowExists;
    if w.pc.LoadHistory? {
      LoadTells(st, w);
      hide Validate;
    }
  }

  lemma LoadTells(st: Store, w: Worker)
    requires StoreInv(st) && WorkerInv(st, w) && w.pc.LoadHistory?
    ensures var pc := Step(st, w).1.pc;
            !pc.ReadRoot? && !pc.ReadReference? && pc != Refused(IntegrityFailure)
  {
    hide AfterHistory, ValidIntent, WindowFits, RowExists;
    if w.pc.root == Some(w.intent) {
      LoadsOwn(st, w.intent, w.pc.reference);
    } else {
      LoadsWithoutRoot(st, w.intent, w.pc.reference);
    }
  }

  /** In every run, a call reports an integrity failure exactly if its first read saw
      no transcript root and its second read saw a reference root. */
  lemma IntegrityFailureExactly(actions: seq<Action>, id: nat)
    ensures var s := Exec(EMPTY, actions);
            (id in s.workers && s.workers[id].pc == Refused(IntegrityFailure)) <==>
            SawNoRoot(actions, id, |actions|) && SawReference(actions, id, |actions|)
  {
    hide Exec, SawNoRoot, SawReference;
    PlacesTell(actions, id, |actions|);
    assert actions[..|actions|] == actions;
  }

  lemma NextKeepsWorkers(s: System, a: Action)
    ensures s.workers.Keys <= Next(s, a).workers.Keys
  {
    hide Step;
  }

  lemma GrowsTwice(a: Store, b: Store, c: Store)
    requires Grows(a, b) && Grows(b, c)
    ensures Grows(a, c)
  {
  }

  lemma {:induction false} AtGrows(actions: seq<Action>, k: nat, n: nat)
    requires k <= n <= |actions|
    ensures Grows(At(actions, k).store, At(actions, n).store)
    ensures At(actions, k).workers.Keys <= At(actions, n).workers.Keys
    decreases n - k
  {
    if k < n {
      AtGrows(actions, k, n - 1);
      ExecKeepsInv(EMPTY, actions[..n - 1]);
      hide Exec, Inv, Step, Next, Grows;
      AtNext(actions, n - 1);
      NextKeepsInv(At(actions, n - 1), actions[n - 1]);
      NextKeepsWorkers(At(actions, n - 1), actions[n - 1]);
      GrowsTwice(At(actions, k).store, At(actions, n - 1).store, At(actions, n).store);
    } else {
      hide At;
    }
  }

  /** A call that starts when the transcript root is in place never reports one. */
  lemma NoFailureAfterRoot(actions: seq<Action>, id: nat, start: nat)
    requires start <= |actions| && id !in At(actions, start).workers && At(actions, start).store.root.Some?
    ensures var s := Exec(EMPTY, actions); id in s.workers ==> s.workers[id].pc != Refused(IntegrityFailure)
  {
    IntegrityFailureExactly(actions, id);
    hide Exec, Grows;
    if SawNoRoot(actions, id, |actions|) {
      var k :| 0 <= k < |actions| && ReadsRootAt(actions, id, k) && At(actions, k).store.root.None?;
      if k <= start {
        AtGrows(actions, k, start);
        assert false;
      } else {
        RootStays(actions, start, k);
      }
    }
  }

  lemma RootStays(actions: seq<Action>, k: nat, n: nat)
    requires k <= n <= |actions| && At(actions, k).store.root.Some?
    ensures At(actions, n).store.root.Some?
  {
    AtGrows(actions, k, n);
    hide At;
  }

  /** Action `n` publishes the reference root. */
  ghost predicate PublishesAt(actions: seq<Action>, n: nat) {
    n < |actions| && At(actions, n + 1).store.reference != At(actions, n).store.reference
  }

  lemma {:induction false} SomePublication(actions: seq<Action>, k: nat, m: nat) returns (n: nat)
    requires k <= m <= |actions| && At(actions, k).store.reference.None? && At(actions, m).store.reference.Some?
    ensures k <= n < m && PublishesAt(actions, n)
    decreases m - k
  {
    if PublishesAt(actions, k) {
      n := k;
    } else {
      n := SomePublication(actions, k + 1, m);
    }
  }

  /** The run shows a race: a reference root is published between the call's read of
      no transcript root and its read of the reference root. */
  ghost predicate Races(actions: seq<Action>, id: nat, k: nat, n: nat, m: nat) {
    && k < n < m < |actions| && ReadsRootAt(actions, id, k) && At(actions, k).store.root.None?
    && PublishesAt(actions, n) && ReadsReferenceAt(actions, id, m)
  }

  /** In every run, a call reports an integrity failure exactly in such a race; a call
      during whose reads nobody publishes a reference root never reports one. */
  lemma IntegrityFailureIsARace(actions: seq<Action>, id: nat)
    ensures var s := Exec(EMPTY, actions);
            (id in s.workers && s.workers[id].pc == Refused(IntegrityFailure)) <==> exists k, n, m :: Races(actions, id, k, n, m)
  {
    IntegrityFailureExactly(actions, id);
    hide Exec, ReadsRootAt, ReadsReferenceAt;
    if SawNoRoot(actions, id, |actions|) && SawReference(actions, id, |actions|) {
      var k :| 0 <= k < |actions| && ReadsRootAt(actions, id, k) && At(actions, k).store.root.None?;
      var m :| 0 <= m < |actions| && ReadsReferenceAt(actions, id, m) && At(actions, m).store.reference.Some?;
      RaceBetween(actions, id, k, m);
    }
    if exists k, n, m :: Races(actions, id, k, n, m) {
      var k, n, m :| Races(actions, id, k, n, m);
      PublishedStays(actions, n, m);
      assert SawReference(actions, id, |actions|);
      assert SawNoRoot(actions, id, |actions|);
    }
  }

  lemma RaceBetween(actions: seq<Action>, id: nat, k: nat, m: nat)
    requires ReadsRootAt(actions, id, k) && At(actions, k).store.root.None?
    requires ReadsReferenceAt(actions, id, m) && At(actions, m).store.reference.Some?
    ensures exists n :: Races(actions, id, k, n, m)
  {
    ExecKeepsInv(EMPTY, actions[..k]);
    hide Exec;
    assert At(actions, k).store.reference.None?;
    if m <= k {
      PublishedRemains(actions, m, k);
    }
    var n := SomePublication(actions, k, m);
    if n == k {
      AtNext(actions, k);
    }
    assert Races(actions, id, k, n, m);
  }

  lemma PublishedRemains(actions: seq<Action>, n: nat, m: nat)
    requires n <= m <= |actions| && At(actions, n).store.reference.Some?
    ensures At(actions, m).store.reference.Some?
  {
    AtGrows(actions, n, m);
    hide At;
  }

  lemma PublishedStays(actions: seq<Action>, n: nat, m: nat)
    requires PublishesAt(actions, n) && n < m <= |actions|
    ensures At(actions, m).store.reference.Some?
  {
    AtGrows(actions, n, n + 1);
    hide At;
    PublishedRemains(actions, n + 1, m);
  }
}
