/** Export records under their quota: reserving, finishing, deleting and recovering. */
module ExportQuota {
  import opened Basics
  import opened ExportStreams

  const MAX_WORKSPACE_EXPORTS: nat := 100
  const MAX_WORKSPACE_EXPORT_BYTES: nat := 512 * 1024 * 1024
  const MAX_MANIFEST_BYTES: nat := 16 * 1024
  const MAX_RECOVERY_RECORDS: nat := 10
  const RESERVATION: nat := MAX_EXPORT_BYTES + MAX_MANIFEST_BYTES

  /** A row of the table; a pending row's `bytes` is its reservation. */
  datatype Record = Record(id: nat, created: int, pending: bool, bytes: nat)

  function Cost(r: Record): nat {
    if r.pending then r.bytes else r.bytes + MAX_MANIFEST_BYTES
  }

  /** The SUM of the quota queries. */
  function Accounted(rows: seq<Record>): nat {
    if rows == [] then 0 else Cost(rows[0]) + Accounted(rows[1..])
  }

  /** What each row counts for: its reservation, or its bytes and a manifest. */
  function CostsOf(rows: seq<Record>): (r: seq<nat>)
    ensures |r| == |rows|
    ensures forall k :: 0 <= k < |rows| ==> r[k] == if rows[k].pending then rows[k].bytes else rows[k].bytes + 16_384
  {
    seq(|rows|, k requires 0 <= k < |rows| => if rows[k].pending then rows[k].bytes else rows[k].bytes + 16_384)
  }

  lemma {:induction false} AccountedExactly(rows: seq<Record>)
    ensures Accounted(rows) == Sum(CostsOf(rows))
  {
    if rows != [] {
      AccountedExactly(rows[1..]);
      assert CostsOf(rows)[1..] == CostsOf(rows[1..]);
    }
  }

  /** In numbers: at most 100 exports in 512 MiB, none above 160 MiB, and 16 KiB for a
      manifest beside each. */
  lemma QuotaExactly(rows: seq<Record>)
    ensures WithinQuota(rows) <==>
              && |rows| <= 100 && Sum(CostsOf(rows)) <= 536_870_912
              && (forall j, k :: 0 <= j < k < |rows| ==> rows[j].id != rows[k].id)
              && forall k :: 0 <= k < |rows| ==> if rows[k].pending then rows[k].bytes == 167_788_544 else rows[k].bytes <= 167_772_160
  {
    AccountedExactly(rows);
    hide Accounted, Sum;
  }

  function Without(rows: seq<Record>, id: nat): (r: seq<Record>)
    ensures forall x :: x in r <==> x in rows && x.id != id
    ensures |r| <= |rows|
  {
    if rows == [] then [] else (if rows[0].id == id then [] else [rows[0]]) + Without(rows[1..], id)
  }

  /** The UPDATE of a pending row to ready. */
  function Readied(rows: seq<Record>, id: nat, bytes: nat): (r: seq<Record>)
    ensures |r| == |rows|
    ensures forall k :: 0 <= k < |rows| ==>
              r[k] == if rows[k].id == id && rows[k].pending then rows[k].(pending := false, bytes := bytes) else rows[k]
  {
    if rows == [] then []
    else
      [if rows[0].id == id && rows[0].pending then rows[0].(pending := false, bytes := bytes) else rows[0]]
      + Readied(rows[1..], id, bytes)
  }

  /** The DELETE of a pending row. */
  function Dropped(rows: seq<Record>, id: nat): (r: seq<Record>)
    ensures forall x :: x in r <==> x in rows && !(x.id == id && x.pending)
    ensures |r| <= |rows|
  {
    if rows == [] then [] else (if rows[0].id == id && rows[0].pending then [] else [rows[0]]) + Dropped(rows[1..], id)
  }

  predicate IsPending(rows: seq<Record>, id: nat) {
    exists k :: 0 <= k < |rows| && rows[k].id == id && rows[k].pending
  }

  ghost predicate DistinctIds(rows: seq<Record>) {
    forall j, k :: 0 <= j < k < |rows| ==> rows[j].id != rows[k].id
  }

  /** The quota, and what each row may claim of it. */
  ghost predicate WithinQuota(rows: seq<Record>) {
    && |rows| <= MAX_WORKSPACE_EXPORTS && Accounted(rows) <= MAX_WORKSPACE_EXPORT_BYTES
    && DistinctIds(rows)
    && forall k :: 0 <= k < |rows| ==> if rows[k].pending then rows[k].bytes == RESERVATION else rows[k].bytes <= MAX_EXPORT_BYTES
  }

  function PendingCount(rows: seq<Record>): nat {
    if rows == [] then 0 else (if rows[0].pending then 1 else 0) + PendingCount(rows[1..])
  }

  lemma {:induction false} PendingCosts(rows: seq<Record>)
    requires forall k :: 0 <= k < |rows| ==> rows[k].pending ==> rows[k].bytes == RESERVATION
    ensures PendingCount(rows) * RESERVATION <= Accounted(rows)
  {
    if rows != [] {
      PendingCosts(rows[1..]);
    }
  }

  /** At most three exports are pending at any time. */
  lemma AtMostThreePending(rows: seq<Record>)
    requires WithinQuota(rows)
    ensures PendingCount(rows) <= 3
  {
    PendingCosts(rows);
  }

  lemma {:induction false} AccountedAppend(rows: seq<Record>, r: Record)
    ensures Accounted(rows + [r]) == Accounted(rows) + Cost(r)
  {
    if rows == [] {
      assert rows + [r] == [r];
    } else {
      assert (rows + [r])[1..] == rows[1..] + [r];
      AccountedAppend(rows[1..], r);
    }
  }

  lemma WithoutFirst(rows: seq<Record>, id: nat)
    requires rows != []
    ensures rows[0].id == id ==> Without(rows, id) == Without(rows[1..], id)
    ensures rows[0].id != id ==> Accounted(Without(rows, id)) == Cost(rows[0]) + Accounted(Without(rows[1..], id))
  {
    assert [] + Without(rows[1..], id) == Without(rows[1..], id);
    assert ([rows[0]] + Without(rows[1..], id))[1..] == Without(rows[1..], id);
  }

  lemma {:induction false} NothingWithout(rows: seq<Record>, id: nat)
    requires forall x :: x in rows ==> x.id != id
    ensures Without(rows, id) == rows
  {
    if rows != [] {
      assert rows[0] in rows;
      NothingWithout(rows[1..], id);
    }
  }

  /** A row's share of the account. */
  lemma {:induction false} AccountSplits(rows: seq<Record>, k: nat)
    requires DistinctIds(rows) && k < |rows|
    ensures Accounted(rows) == Accounted(Without(rows, rows[k].id)) + Cost(rows[k])
  {
    var rest := rows[1..];
    WithoutFirst(rows, rows[k].id);
    assert forall j :: 0 <= j < |rest| ==> rest[j] == rows[j + 1];
    if k == 0 {
      NothingWithout(rest, rows[0].id);
    } else {
      AccountSplits(rest, k - 1);
    }
  }

  lemma {:induction false} ReadiedElsewhere(rows: seq<Record>, id: nat, bytes: nat)
    ensures Without(Readied(rows, id, bytes), id) == Without(rows, id)
  {
    if rows != [] {
      ReadiedElsewhere(rows[1..], id, bytes);
      WithoutFirst(rows, id);
      var after := Readied(rows, id, bytes);
      assert after[1..] == Readied(rows[1..], id, bytes);
      assert Without(after, id) == (if after[0].id == id then [] else [after[0]]) + Without(after[1..], id);
    }
  }

  /** What the quota check of a finishing export adds up, and what it compares. */
  predicate ReadyFits(rows: seq<Record>, id: nat, bytes: nat) {
    Accounted(Without(rows, id)) + bytes + MAX_MANIFEST_BYTES <= MAX_WORKSPACE_EXPORT_BYTES
  }

  lemma ReadiedAccount(rows: seq<Record>, id: nat, bytes: nat, k: nat)
    requires DistinctIds(rows) && k < |rows| && rows[k].id == id && rows[k].pending
    ensures Accounted(rows) == Accounted(Without(rows, id)) + rows[k].bytes
    ensures Accounted(Readied(rows, id, bytes)) == Accounted(Without(rows, id)) + bytes + MAX_MANIFEST_BYTES
    ensures DistinctIds(Readied(rows, id, bytes))
  {
    var after := Readied(rows, id, bytes);
    hide Accounted, Without, Readied;
    AccountSplits(rows, k);
    assert DistinctIds(after);
    hide DistinctIds;
    ReadiedElsewhere(rows, id, bytes);
    AccountSplits(after, k);
    assert after[k] == rows[k].(pending := false, bytes := bytes);
  }

  /** While its row is pending, an export within the byte limit always passes the quota
      check, and finishing it keeps the quota. */
  lemma ReadyNeverRefused(rows: seq<Record>, id: nat, bytes: nat)
    requires WithinQuota(rows) && IsPending(rows, id) && bytes <= MAX_EXPORT_BYTES
    ensures ReadyFits(rows, id, bytes) && WithinQuota(Readied(rows, id, bytes))
  {
    hide Accounted, Without, Readied, DistinctIds;
    var k :| 0 <= k < |rows| && rows[k].id == id && rows[k].pending;
    ReadiedAccount(rows, id, bytes, k);
  }

  lemma {:induction false} DroppedCosts(rows: seq<Record>, id: nat)
    ensures Accounted(Dropped(rows, id)) <= Accounted(rows)
  {
    if rows != [] {
      DroppedCosts(rows[1..], id);
      DroppedFront(rows, id);
    }
  }

  lemma DroppedFront(rows: seq<Record>, id: nat)
    requires rows != []
    ensures var rest := Dropped(rows[1..], id);
            if rows[0].id == id && rows[0].pending then Dropped(rows, id) == rest
            else Dropped(rows, id) == [rows[0]] + rest && Dropped(rows, id)[1..] == rest
  {
    var rest := Dropped(rows[1..], id);
    assert [] + rest == rest && ([rows[0]] + rest)[1..] == rest;
  }

  lemma {:induction false} DroppedDistinct(rows: seq<Record>, id: nat)
    requires DistinctIds(rows)
    ensures DistinctIds(Dropped(rows, id))
  {
    if rows != [] {
      var rest := Dropped(rows[1..], id);
      assert forall j :: 0 <= j < |rows[1..]| ==> rows[1..][j] == rows[j + 1];
      DroppedDistinct(rows[1..], id);
      DroppedFront(rows, id);
      forall k | 0 <= k < |rest|
        ensures rows[0].id != rest[k].id
      {
        assert rest[k] in rest;
        var j :| 0 <= j < |rows[1..]| && rows[1..][j] == rest[k];
      }
    }
  }

  lemma DropKeepsQuota(rows: seq<Record>, id: nat)
    requires WithinQuota(rows)
    ensures WithinQuota(Dropped(rows, id))
  {
    DroppedCosts(rows, id);
    DroppedDistinct(rows, id);
    var after := Dropped(rows, id);
    forall k | 0 <= k < |after|
      ensures if after[k].pending then after[k].bytes == RESERVATION else after[k].bytes <= MAX_EXPORT_BYTES
    {
      assert after[k] in after;
      var j :| 0 <= j < |rows| && rows[j] == after[k];
    }
  }

  // The table

  datatype Reply = Done | QuotaExceeded | StateChanged

  class ExportTable {
    var rows: seq<Record>

    constructor ()
      ensures rows == [] && WithinQuota(rows)
    {
      rows := [];
    }

    /** Room for a whole export is set aside, or nothing changes. */
    method ReservePending(id: nat, created: int) returns (reply: Reply)
      requires WithinQuota(rows) && forall k :: 0 <= k < |rows| ==> rows[k].id != id
      modifies this
      ensures WithinQuota(rows)
      ensures reply == if |old(rows)| < 100 && Accounted(old(rows)) + 167_788_544 <= 536_870_912 then Done else QuotaExceeded
      ensures rows == if reply.Done? then old(rows) + [Record(id, created, true, 167_788_544)] else old(rows)
    {
      var count, reserved := |rows|, 0;
      var i := 0;
      while i < |rows|
        invariant 0 <= i <= |rows| && reserved + Accounted(rows[i..]) == Accounted(rows)
      {
        assert rows[i..][1..] == rows[i + 1..];
        reserved := reserved + Cost(rows[i]);
        i := i + 1;
      }
      if count >= MAX_WORKSPACE_EXPORTS || reserved + RESERVATION > MAX_WORKSPACE_EXPORT_BYTES {
        return QuotaExceeded;
      }
      AccountedAppend(rows, Record(id, created, true, RESERVATION));
      rows := rows + [Record(id, created, true, RESERVATION)];
      return Done;
    }

    /** `_mark_ready`: a pending export is always finished. Only for a row that is no
        longer pending can the quota check speak before the state check. */
    method MarkReady(id: nat, bytes: nat) returns (reply: Reply)
      requires WithinQuota(rows) && bytes <= MAX_EXPORT_BYTES
      modifies this
      ensures WithinQuota(rows)
      ensures reply == if IsPending(old(rows), id) then Done
                       else if !ReadyFits(old(rows), id, bytes) then QuotaExceeded else StateChanged
      ensures rows == if reply.Done? then Readied(old(rows), id, bytes) else old(rows)
    {
      if IsPending(rows, id) {
        ReadyNeverRefused(rows, id, bytes);
      }
      var others := Without(rows, id);
      if Accounted(others) + bytes + MAX_MANIFEST_BYTES > MAX_WORKSPACE_EXPORT_BYTES {
        return QuotaExceeded;
      }
      if !IsPending(rows, id) {
        return StateChanged;
      }
      rows := Readied(rows, id, bytes);
      return Done;
    }

    method DeletePending(id: nat)
      requires WithinQuota(rows)
      modifies this
      ensures WithinQuota(rows) && rows == Dropped(old(rows), id)
    {
      DropKeepsQuota(rows, id);
      rows := Dropped(rows, id);
    }
  }

  // Recovery

  /** What recovery makes of the pending rows in `todo`: `verified` gives the size of
      every final directory whose manifest and data check out. */
  function Recovered(rows: seq<Record>, todo: set<nat>, verified: map<nat, nat>): seq<Record> {
    if rows == [] then []
    else
      (if !rows[0].pending || rows[0].id !in todo then [rows[0]]
       else if rows[0].id in verified then [rows[0].(pending := false, bytes := verified[rows[0].id])]
       else [])
      + Recovered(rows[1..], todo, verified)
  }

  /** Rows that are not pending or not reached stay; of the others, those whose directory
      checks out stay with its size. */
  lemma {:induction false} RecoveredExactly(rows: seq<Record>, todo: set<nat>, verified: map<nat, nat>, x: Record)
    ensures x in Recovered(rows, todo, verified) <==>
              || (x in rows && !(x.pending && x.id in todo))
              || (!x.pending && x.id in todo && x.id in verified && x.bytes == verified[x.id]
                  && exists y :: y in rows && y.pending && y.id == x.id && y.created == x.created)
  {
    if rows != [] {
      RecoveredExactly(rows[1..], todo, verified, x);
      var first := rows[0];
      assert forall y :: y in rows <==> y == first || y in rows[1..];
    }
  }

  /** Recovering one more pending row is finishing or deleting it. */
  lemma {:induction false} RecoverOne(rows: seq<Record>, todo: set<nat>, verified: map<nat, nat>, id: nat)
    requires DistinctIds(rows) && id !in todo
    ensures var before := Recovered(rows, todo, verified);
            Recovered(rows, todo + {id}, verified) ==
            if id in verified then Readied(before, id, verified[id]) else Dropped(before, id)
  {
    if rows != [] {
      var rest := rows[1..];
      assert forall j :: 0 <= j < |rest| ==> rest[j] == rows[j + 1];
      RecoverOne(rest, todo, verified, id);
      RecoverFront(rows[0], Recovered(rest, todo, verified), todo, verified, id);
    }
  }

  lemma RecoverFront(first: Record, before: seq<Record>, todo: set<nat>, verified: map<nat, nat>, id: nat)
    requires id !in todo
    ensures var kept := if !first.pending || first.id !in todo then [first]
                        else if first.id in verified then [first.(pending := false, bytes := verified[first.id])] else [];
            var more := if !first.pending || first.id !in todo + {id} then [first]
                        else if first.id in verified then [first.(pending := false, bytes := verified[first.id])] else [];
            (if id in verified then Readied(kept + before, id, verified[id]) else Dropped(kept + before, id))
            == more + (if id in verified then Readied(before, id, verified[id]) else Dropped(before, id))
  {
    assert ([first] + before)[1..] == before;
    assert [] + before == before;
    if first.id in verified {
      assert ([first.(pending := false, bytes := verified[first.id])] + before)[1..] == before;
    }
    assert [] + Dropped(before, id) == Dropped(before, id);
  }
}
