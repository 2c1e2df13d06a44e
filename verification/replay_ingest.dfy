/** The ingest call itself, running alone over the stores it updates. */
module ReplayIngest {
  import opened Basics
  import opened HistoryPages
  import opened HistoryQueries
  import opened HistoryCache
  import opened ReplayWindows
  import opened ReplayProtocol

  /** The evidence store's two roots for one operation and its history rows. */
  class OperationStores {
    var evidence: set<Artifact>
    var root: Option<Intent>
    var reference: Option<Intent>
    var history: seq<Projected>

    constructor ()
      ensures Contents() == EMPTY.store
    {
      evidence, root, reference, history := {}, None, None, [];
    }

    ghost function Contents(): Store
      reads this
    {
      Store(evidence, root, reference, history)
    }

    /** `put_root` on the transcript root: create it or accept an equal one. */
    method PutTranscriptRoot(i: Intent) returns (ok: bool)
      modifies this`root
      ensures ok == (old(root).None? || old(root) == Some(i))
      ensures root == if ok then Some(i) else old(root)
    {
      if root.Some? && root.value != i {
        return false;
      }
      root := Some(i);
      return true;
    }

    method PutReferenceRoot(i: Intent) returns (ok: bool)
      modifies this`reference
      ensures ok == (old(reference).None? || old(reference) == Some(i))
      ensures reference == if ok then Some(i) else old(reference)
    {
      if reference.Some? && reference.value != i {
        return false;
      }
      reference := Some(i);
      return true;
    }

    /** `append_batches`: one transaction, rolled back when a row already exists. */
    method AppendBatches(batches: seq<Projected>) returns (ok: bool)
      modifies this`history
      ensures ok == !RowExists(old(history), batches)
      ensures history == if ok then old(history) + batches else old(history)
    {
      var inserted: seq<Projected> := [];
      for b := 0 to |batches|
        invariant inserted == batches[..b]
        invariant forall a, k :: 0 <= a < |history| && 0 <= k < b ==> history[a].sequence != batches[k].sequence
      {
        for a := 0 to |history|
          invariant forall x :: 0 <= x < a ==> history[x].sequence != batches[b].sequence
        {
          if history[a].sequence == batches[b].sequence {
            return false;
          }
        }
        inserted := inserted + [batches[b]];
      }
      assert inserted == batches;
      history := history + inserted;
      return true;
    }

    /** `_load_existing_batches`: one page of the session's rows of the run, which must
        be all of them, each slice rebuilt into its batch. */
    method LoadExistingBatches(session: int) returns (failed: Option<Pc>, existing: seq<Projected>)
      requires Stored(RowsOf(history))
      ensures failed == LoadFailure(LoadPage(session, history))
      ensures failed.None? ==> existing == AllRebuilt(LoadPage(session, history).slices)
    {
      existing := [];
      var response, pending := ReadPage(LoadQuery(session), None, RowsOf(history), []);
      if !response.Answer? {
        return Some(Crashed), existing;
      }
      var slices := response.page.slices;
      if response.page.next.Some? {
        return Some(Refused(Conflict)), existing;
      }
      for k := 0 to |slices|
        invariant forall j :: 0 <= j < k ==> IsWhole(slices[j])
        invariant existing == AllRebuilt(slices[..k])
      {
        if !IsWhole(slices[k]) {
          return Some(Refused(Conflict)), existing;
        }
        assert slices[..k + 1] == slices[..k] + [slices[k]];
        existing := existing + [Rebuilt(slices[k])];
      }
      assert slices[..|slices|] == slices;
      return None, existing;
    }

    /** `ingest_monitor_replay` after the document has been projected, uninterrupted:
        it ends exactly as the step-by-step call does. */
    method IngestMonitorReplay(i: Intent) returns (outcome: Pc)
      requires ValidIntent(i) && StoreInv(Contents())
      modifies this
      ensures RunAlone(old(Contents()), Worker(i, ReadRoot)) == (Contents(), Worker(i, outcome))
      ensures StoreInv(Contents()) && Grows(old(Contents()), Contents())
    {
      hide AfterHistory, ValidIntent, RowExists, WindowFits;
      ghost var w := Worker(i, ReadRoot);
      ghost var w1 := w.(pc := ReadReference(root));
      ghost var w2 := w.(pc := LoadHistory(root, reference));
      assert RunAlone(Contents(), w) == RunAlone(Contents(), w1);
      var seenRoot := root;
      var seenReference := reference;
      if seenRoot.None? && seenReference.Some? {
        return Refused(IntegrityFailure);
      }
      assert RunAlone(Contents(), w1) == RunAlone(Contents(), w2);
      ghost var bad := Validate(Contents(), i, root, reference);
      if bad.Some? {
        assert Step(Contents(), w2) == (Contents(), w.(pc := Refused(bad.value)));
        assert RunAlone(Contents(), w2) == RunAlone(Contents(), w.(pc := Refused(bad.value)));
      }
      if seenRoot.Some? {
        if seenRoot.value != i {
          assert bad == Some(Conflict);
          return Refused(Conflict);
        }
        if Transcript(i) !in evidence {
          return Refused(IntegrityFailure);
        }
      }
      if seenReference.Some? {
        if seenReference.value != i {
          return Refused(Conflict);
        }
        if ReferenceFile(i) !in evidence {
          return Refused(IntegrityFailure);
        }
      }
      outcome := ContinueIngest(i, seenRoot, seenReference);
    }

    /** The history preflight and the transcript, once both roots are validated. */
    method ContinueIngest(i: Intent, seenRoot: Option<Intent>, seenReference: Option<Intent>) returns (outcome: Pc)
      requires ValidIntent(i) && StoreInv(Contents()) && seenRoot == root && seenReference == reference
      requires Validate(Contents(), i, root, reference).None?
      modifies this
      ensures RunAlone(old(Contents()), Worker(i, LoadHistory(seenRoot, seenReference))) == (Contents(), Worker(i, outcome))
      ensures StoreInv(Contents()) && Grows(old(Contents()), Contents())
    {
      hide AfterRoot, ValidIntent, RowExists, WindowFits, LoadPage, LoadFailure;
      ghost var w2 := Worker(i, LoadHistory(root, reference));
      ghost var w3 := w2.(pc := AfterHistory(Contents(), i, root, reference));
      assert RunAlone(Contents(), w2) == RunAlone(Contents(), w3);
      RowsAreStored(Contents());
      var failed, rows := LoadExistingBatches(i.session.id);
      if failed.Some? {
        FailureEnds(LoadPage(i.session.id, history));
        return failed.value;
      }
      var existing := rows != [];
      if seenRoot.None? {
        if existing {
          return Refused(Conflict);
        }
        PublishTranscriptRoot(i);
      } else {
        if existing && rows != i.batches {
          return Refused(Conflict);
        }
        ExistingIsHistory(Contents(), i);
      }
      outcome := FinishIngest(i, seenReference, existing);
    }

    /** `_publish_transcript` and the transcript root of a call that found neither. */
    method PublishTranscriptRoot(i: Intent)
      requires ValidIntent(i) && StoreInv(Contents()) && root.None?
      modifies this
      ensures root == Some(i) && reference.None? && history == []
      ensures RunAlone(old(Contents()), Worker(i, PublishTranscript(None))) == RunAlone(Contents(), Worker(i, AfterRoot(None, false)))
      ensures StoreInv(Contents()) && Grows(old(Contents()), Contents())
    {
      hide AfterHistory, ValidIntent, RowExists;
      ghost var before := Contents();
      evidence := evidence + {Transcript(i)};
      ghost var published := Contents();
      assert RunAlone(before, Worker(i, PublishTranscript(None))) == RunAlone(published, Worker(i, PutRoot(None)));
      var ok := PutTranscriptRoot(i);
      assert RunAlone(published, Worker(i, PutRoot(None))) == RunAlone(Contents(), Worker(i, AfterRoot(None, false)));
    }

    /** The reference and the history, once the transcript root is this intent's. */
    method FinishIngest(i: Intent, seenReference: Option<Intent>, existing: bool) returns (outcome: Pc)
      requires StoreInv(Contents()) && root == Some(i) && seenReference == reference && existing == (history != [])
      modifies this
      ensures RunAlone(old(Contents()), Worker(i, AfterRoot(seenReference, existing))) == (Contents(), Worker(i, outcome))
      ensures StoreInv(Contents()) && Grows(old(Contents()), Contents())
    {
      hide Step, StoreInv, ValidIntent;
      ReferenceIsRoot(Contents(), i);
      if seenReference.None? {
        PublishReferenceRoot(i, existing);
      }
      if existing {
        return Returned;
      }
      outcome := AppendWindow(i);
    }

    /** `_publish_reference`: no other reference root can stand in the way. */
    method PublishReferenceRoot(i: Intent, existing: bool)
      requires StoreInv(Contents()) && root == Some(i) && reference.None?
      modifies this`evidence, this`reference
      ensures reference == Some(i)
      ensures RunAlone(old(Contents()), Worker(i, PublishReference(existing)))
           == RunAlone(Contents(), Worker(i, if existing then Returned else Append))
      ensures StoreInv(Contents()) && Grows(old(Contents()), Contents())
    {
      hide AfterHistory, ValidIntent, RowExists;
      ghost var before := Contents();
      evidence := evidence + {ReferenceFile(i)};
      ghost var published := Contents();
      assert RunAlone(before, Worker(i, PublishReference(existing))) == RunAlone(published, Worker(i, PutReference(existing)));
      var ok := PutReferenceRoot(i);
      assert RunAlone(published, Worker(i, PutReference(existing)))
          == RunAlone(Contents(), Worker(i, if existing then Returned else Append));
    }

    method AppendWindow(i: Intent) returns (outcome: Pc)
      requires StoreInv(Contents()) && root == reference == Some(i) && history == []
      modifies this`history
      ensures RunAlone(old(Contents()), Worker(i, Append)) == (Contents(), Worker(i, outcome))
      ensures StoreInv(Contents()) && Grows(old(Contents()), Contents())
    {
      RowsOfTheRoot(Contents(), i);
      hide AfterHistory, ValidIntent, RowExists;
      ghost var before := Contents();
      var appended := AppendBatches(i.batches);
      outcome := if appended then Returned else Refused(Conflict);
      assert RunAlone(before, Worker(i, Append)) == RunAlone(Contents(), Worker(i, outcome));
    }
  }

  lemma ReferenceIsRoot(st: Store, i: Intent)
    requires StoreInv(st) && st.root == Some(i)
    ensures st.reference.Some? ==> st.reference == Some(i)
  {
  }

  lemma RowsAreStored(st: Store)
    requires StoreInv(st)
    ensures Stored(RowsOf(st.history))
  {
  }

  lemma FailureEnds(page: PageResult)
    ensures LoadFailure(page).Some? ==> Finished(LoadFailure(page).value)
  {
  }

  /** What the root's own intent loads is the history. */
  lemma ExistingIsHistory(st: Store, i: Intent)
    requires StoreInv(st) && st.root == Some(i)
    ensures var page := LoadPage(i.session.id, st.history);
            LoadFailure(page).None? ==> AllRebuilt(page.slices) == st.history
  {
    if st.history != [] {
      WindowsAreLoadable(i);
    }
    LoadWindow(i.session.id, st.history);
    hide LoadPage;
  }
}
