/** Crash recovery of exports: one exporter at a time, crashes anywhere. */
module ExportRecovery {
  import opened Basics
  import opened ExportStreams
  import opened ExportQuota

  /** ORDER BY created_at_utc, export_id. */
  predicate Before(a: Record, b: Record) {
    a.created < b.created || (a.created == b.created && a.id <= b.id)
  }

  function InsertRow(x: Record, rows: seq<Record>): (r: seq<Record>)
    ensures multiset(r) == multiset(rows) + multiset{x}
  {
    if rows == [] then [x]
    else if Before(x, rows[0]) then [x] + rows
    else
      assert rows == [rows[0]] + rows[1..];
      [rows[0]] + InsertRow(x, rows[1..])
  }

  /** The pending rows as the query of a pass lists them. */
  function PendingRows(rows: seq<Record>): seq<Record> {
    if rows == [] then []
    else if rows[0].pending then InsertRow(rows[0], PendingRows(rows[1..]))
    else PendingRows(rows[1..])
  }

  function IdsOf(rows: seq<Record>): seq<nat> {
    seq(|rows|, i requires 0 <= i < |rows| => rows[i].id)
  }

  function PendingIds(rows: seq<Record>): (r: seq<nat>)
    ensures forall id :: id in r <==> IsPending(rows, id)
  {
    PendingIdsAreExact(rows);
    IdsOf(PendingRows(rows))
  }

  ghost predicate InOrder(rows: seq<Record>) {
    forall j, k :: 0 <= j < k < |rows| ==> Before(rows[j], rows[k])
  }

  lemma {:induction false} InsertKeepsOrder(x: Record, rows: seq<Record>)
    requires InOrder(rows)
    ensures InOrder(InsertRow(x, rows))
  {
    if rows != [] && !Before(x, rows[0]) {
      InsertKeepsOrder(x, rows[1..]);
      var rest := InsertRow(x, rows[1..]);
      forall k | 0 <= k < |rest|
        ensures Before(rows[0], rest[k])
      {
        assert rest[k] in multiset(rest);
        if rest[k] != x {
          var j :| 0 <= j < |rows[1..]| && rows[1..][j] == rest[k];
        }
      }
    }
  }

  /** The query lists exactly the pending rows, each once, by creation time and id. */
  lemma {:induction false} PendingRowsAreSorted(rows: seq<Record>)
    ensures InOrder(PendingRows(rows))
    ensures forall x :: multiset(PendingRows(rows))[x] == if x.pending then multiset(rows)[x] else 0
  {
    if rows != [] {
      PendingRowsAreSorted(rows[1..]);
      assert rows == [rows[0]] + rows[1..];
      if rows[0].pending {
        InsertKeepsOrder(rows[0], PendingRows(rows[1..]));
      }
    }
  }

  lemma PendingIdsAreExact(rows: seq<Record>)
    ensures forall id :: id in IdsOf(PendingRows(rows)) <==> IsPending(rows, id)
  {
    PendingRowsAreSorted(rows);
    var sorted := PendingRows(rows);
    forall id
      ensures id in IdsOf(sorted) <==> IsPending(rows, id)
    {
      if id in IdsOf(sorted) {
        var j :| 0 <= j < |sorted| && sorted[j].id == id;
        assert sorted[j] in multiset(sorted);
        assert sorted[j] in multiset(rows);
        var k :| 0 <= k < |rows| && rows[k] == sorted[j];
      }
      if IsPending(rows, id) {
        var k :| 0 <= k < |rows| && rows[k].id == id && rows[k].pending;
        assert rows[k] in multiset(rows);
        assert rows[k] in multiset(sorted);
        var j :| 0 <= j < |sorted| && sorted[j] == rows[k];
        assert IdsOf(sorted)[j] == id;
      }
    }
  }

  lemma PendingFirst(rows: seq<Record>)
    requires rows != []
    ensures forall id :: IsPending(rows, id) <==> (rows[0].pending && rows[0].id == id) || IsPending(rows[1..], id)
  {
    forall id
      ensures IsPending(rows, id) <==> (rows[0].pending && rows[0].id == id) || IsPending(rows[1..], id)
    {
      if IsPending(rows[1..], id) {
        var k :| 0 <= k < |rows[1..]| && rows[1..][k].id == id && rows[1..][k].pending;
        assert rows[k + 1] == rows[1..][k];
      }
      if IsPending(rows, id) {
        var k :| 0 <= k < |rows| && rows[k].id == id && rows[k].pending;
        assert k > 0 ==> rows[1..][k - 1] == rows[k];
      }
    }
  }

  function Elements(ids: seq<nat>): set<nat> {
    set id | id in ids
  }

  lemma ElementsGrow(ids: seq<nat>, i: nat)
    requires i < |ids|
    ensures Elements(ids[..i + 1]) == Elements(ids[..i]) + {ids[i]}
  {
    assert ids[..i + 1] == ids[..i] + [ids[i]];
  }

  lemma {:induction false} RecoverNone(rows: seq<Record>, verified: map<nat, nat>)
    ensures Recovered(rows, {}, verified) == rows
  {
    if rows != [] {
      RecoverNone(rows[1..], verified);
    }
  }

  ghost predicate SmallEnough(verified: map<nat, nat>) {
    forall id :: id in verified ==> verified[id] <= MAX_EXPORT_BYTES
  }

  lemma {:induction false} DistinctPending(rows: seq<Record>)
    requires DistinctIds(rows)
    ensures DistinctIds(PendingRows(rows))
  {
    if rows != [] {
      var rest := rows[1..];
      assert forall j :: 0 <= j < |rest| ==> rest[j] == rows[j + 1];
      DistinctPending(rest);
      PendingRowsAreSorted(rest);
      if rows[0].pending {
        var listed := PendingRows(rest);
        forall k | 0 <= k < |listed|
          ensures listed[k].id != rows[0].id
        {
          assert listed[k] in multiset(listed);
          assert listed[k] in multiset(rest);
          var j :| 0 <= j < |rest| && rest[j] == listed[k];
        }
        InsertKeepsDistinct(rows[0], listed);
      }
    }
  }

  lemma {:induction false} InsertKeepsDistinct(x: Record, rows: seq<Record>)
    requires DistinctIds(rows) && forall k :: 0 <= k < |rows| ==> rows[k].id != x.id
    ensures DistinctIds(InsertRow(x, rows))
  {
    if rows != [] && !Before(x, rows[0]) {
      var rest := rows[1..];
      InsertKeepsDistinct(x, rest);
      var after := InsertRow(x, rest);
      forall k | 0 <= k < |after|
        ensures after[k].id != rows[0].id
      {
        assert after[k] in multiset(after);
        if after[k] != x {
          var j :| 0 <= j < |rest| && rest[j] == after[k];
        }
      }
    }
  }

  /** A pending row that was not reached stays pending. */
  lemma {:induction false} StillPending(rows: seq<Record>, todo: set<nat>, verified: map<nat, nat>, id: nat)
    ensures IsPending(Recovered(rows, todo, verified), id) <==> IsPending(rows, id) && id !in todo
  {
    if rows != [] {
      StillPending(rows[1..], todo, verified, id);
      var after := Recovered(rows, todo, verified);
      var rest := Recovered(rows[1..], todo, verified);
      PendingFirst(rows);
      if after != rest {
        assert after[1..] == rest;
        PendingFirst(after);
      } else {
        assert [] + rest == rest;
      }
    }
  }

  /** One pass: the ten oldest pending rows, or as many as the time budget allows. */
  method RecoverPending(t: ExportTable, verified: map<nat, nat>, inTime: nat) returns (more: bool)
    requires WithinQuota(t.rows) && SmallEnough(verified)
    modifies t
    ensures WithinQuota(t.rows)
    ensures var ids := PendingIds(old(t.rows));
            var n := if |ids| <= inTime && |ids| <= 10 then |ids| else if inTime <= 10 then inTime else 10;
            n <= |ids| && t.rows == Recovered(old(t.rows), Elements(ids[..n]), verified)
    ensures more <==> exists id :: IsPending(t.rows, id)
  {
    assert MAX_RECOVERY_RECORDS == 10;
    hide *;
    ghost var before := t.rows;
    var ids := PendingIds(t.rows);
    NothingRecovered(t.rows, verified, ids);
    var i := 0;
    while i < |ids| && i < MAX_RECOVERY_RECORDS && i < inTime
      invariant 0 <= i <= |ids| && i <= MAX_RECOVERY_RECORDS && i <= inTime
      invariant WithinQuota(t.rows) && t.rows == Recovered(before, Elements(ids[..i]), verified)
    {
      RecoverRow(t, verified, ids[i], before, ids, i);
      i := i + 1;
    }
    var left := PendingIds(t.rows);
    more := left != [];
    if more {
      assert left[0] in left;
    }
  }

  lemma NothingRecovered(rows: seq<Record>, verified: map<nat, nat>, ids: seq<nat>)
    ensures Recovered(rows, Elements(ids[..0]), verified) == rows
  {
    RecoverNone(rows, verified);
    assert Elements(ids[..0]) == {};
  }

  /** One pending row: finished when its directory checks out, else deleted. */
  method RecoverRow(t: ExportTable, verified: map<nat, nat>, id: nat, ghost before: seq<Record>, ghost ids: seq<nat>, ghost i: nat)
    requires WithinQuota(t.rows) && SmallEnough(verified) && WithinQuota(before)
    requires i < |ids| && ids[i] == id && ids == PendingIds(before)
    requires t.rows == Recovered(before, Elements(ids[..i]), verified)
    modifies t
    ensures WithinQuota(t.rows) && t.rows == Recovered(before, Elements(ids[..i + 1]), verified)
  {
    DistinctPending(before);
    assert id !in Elements(ids[..i]);
    assert IsPending(before, id) by {
      assert id in ids;
    }
    StillPending(before, Elements(ids[..i]), verified, id);
    ElementsGrow(ids, i);
    RecoverOne(before, Elements(ids[..i]), verified, id);
    hide WithinQuota, Recovered, Elements, IsPending;
    if id in verified {
      var reply := t.MarkReady(id, verified[id]);
    } else {
      t.DeletePending(id);
    }
  }

  /** Recovering in two steps is recovering at once. */
  lemma {:induction false} RecoverTwice(rows: seq<Record>, a: set<nat>, b: set<nat>, verified: map<nat, nat>)
    ensures Recovered(Recovered(rows, a, verified), b, verified) == Recovered(rows, a + b, verified)
  {
    if rows != [] {
      var rest := Recovered(rows[1..], a, verified);
      RecoverTwice(rows[1..], a, b, verified);
      var after := Recovered(rows, a, verified);
      if after != rest {
        assert after[1..] == rest;
      } else {
        assert [] + rest == rest;
      }
    }
  }

  /** Every recovered row is one pending row less. */
  lemma {:induction false} FewerPending(rows: seq<Record>, todo: set<nat>, verified: map<nat, nat>)
    ensures PendingCount(Recovered(rows, todo, verified)) <= PendingCount(rows)
    ensures (exists id :: id in todo && IsPending(rows, id)) ==>
              PendingCount(Recovered(rows, todo, verified)) < PendingCount(rows)
  {
    if rows != [] {
      var rest := Recovered(rows[1..], todo, verified);
      FewerPending(rows[1..], todo, verified);
      PendingFirst(rows);
      var after := Recovered(rows, todo, verified);
      if after != rest {
        assert after[1..] == rest;
      } else {
        assert [] + rest == rest;
      }
    }
  }

  /** `_recover_all_pending`, with the number of rows each pass has time for. When every
      pass has time for one row, no row is left pending. */
  method RecoverAllPending(t: ExportTable, verified: map<nat, nat>, inTime: seq<nat>)
    requires WithinQuota(t.rows) && SmallEnough(verified) && |inTime| == MAX_WORKSPACE_EXPORTS + 1
    modifies t
    ensures WithinQuota(t.rows)
    ensures (forall i :: 0 <= i < |inTime| ==> inTime[i] >= 1) ==>
              t.rows == Recovered(old(t.rows), Elements(PendingIds(old(t.rows))), verified)
              && forall id :: !IsPending(t.rows, id)
  {
    ghost var before := t.rows;
    ghost var handled: set<nat> := {};
    RecoverNone(before, verified);
    AtMostThreePending(before);
    var i := 0;
    while i < MAX_WORKSPACE_EXPORTS + 1
      invariant 0 <= i <= MAX_WORKSPACE_EXPORTS + 1 && WithinQuota(t.rows)
      invariant t.rows == Recovered(before, handled, verified) && handled <= Elements(PendingIds(before))
      invariant (forall j :: 0 <= j < i ==> inTime[j] >= 1) ==> PendingCount(t.rows) + i <= 3
      invariant i < MAX_WORKSPACE_EXPORTS + 1 || exists j :: 0 <= j < i && inTime[j] == 0
    {
      ghost var rows, ids := t.rows, PendingIds(t.rows);
      var more := RecoverPending(t, verified, inTime[i]);
      ghost var n := if |ids| <= inTime[i] && |ids| <= MAX_RECOVERY_RECORDS then |ids|
                     else if inTime[i] <= MAX_RECOVERY_RECORDS then inTime[i] else MAX_RECOVERY_RECORDS;
      PassAdds(before, handled, ids, n, verified);
      handled := handled + Elements(ids[..n]);
      if !more {
        AllHandled(before, handled, verified);
        return;
      }
      StillSome(rows, ids, n, verified);
      i := i + 1;
    }
  }

  lemma PassAdds(before: seq<Record>, handled: set<nat>, ids: seq<nat>, n: nat, verified: map<nat, nat>)
    requires handled <= Elements(PendingIds(before)) && ids == PendingIds(Recovered(before, handled, verified)) && n <= |ids|
    ensures Recovered(Recovered(before, handled, verified), Elements(ids[..n]), verified)
         == Recovered(before, handled + Elements(ids[..n]), verified)
    ensures handled + Elements(ids[..n]) <= Elements(PendingIds(before))
  {
    RecoverTwice(before, handled, Elements(ids[..n]), verified);
    forall id | id in ids[..n]
      ensures id in PendingIds(before)
    {
      StillPending(before, handled, verified, id);
    }
  }

  /** No row pending means that every pending row was handled. */
  lemma AllHandled(before: seq<Record>, handled: set<nat>, verified: map<nat, nat>)
    requires handled <= Elements(PendingIds(before))
    requires forall id :: !IsPending(Recovered(before, handled, verified), id)
    ensures handled == Elements(PendingIds(before))
  {
    forall id | id in PendingIds(before)
      ensures id in handled
    {
      StillPending(before, handled, verified, id);
    }
  }

  /** A pass that leaves a pending row and had time for one has recovered one. */
  lemma StillSome(rows: seq<Record>, ids: seq<nat>, n: nat, verified: map<nat, nat>)
    requires ids == PendingIds(rows) && n <= |ids|
    ensures n > 0 ==> PendingCount(Recovered(rows, Elements(ids[..n]), verified)) < PendingCount(rows)
    ensures ids == [] ==> forall id :: !IsPending(Recovered(rows, Elements(ids[..n]), verified), id)
  {
    FewerPending(rows, Elements(ids[..n]), verified);
    if n > 0 {
      assert ids[0] in ids[..n] && ids[0] in ids;
    }
    if ids == [] {
      forall id
        ensures !IsPending(Recovered(rows, Elements(ids[..n]), verified), id)
      {
        StillPending(rows, Elements(ids[..n]), verified, id);
        assert id !in ids;
      }
    }
  }
}
