/** Bounded retention passes over the batch table. */
module Retention {
  import opened Basics

  const RETENTION_AGE_NS: nat := 7 * 24 * 60 * 60 * 1_000_000_000
  const RETENTION_LOGICAL_BYTES: nat := 256 * 1024 * 1024
  const RETENTION_DELETE_BATCHES: nat := 100
  const RETENTION_DELETE_VALUES: nat := 512

  /** A batch's key, value count and share of the logical bytes. */
  datatype Row = Row(id: nat, captured: nat, values: nat, bytes: nat)

  predicate Before(a: Row, b: Row) {
    a.captured < b.captured || (a.captured == b.captured && a.id < b.id)
  }

  /** The order of every retention query. */
  predicate Ordered(rows: seq<Row>) {
    forall j, k :: 0 <= j < k < |rows| ==> Before(rows[j], rows[k])
  }

  function LogicalBytes(rows: seq<Row>): nat {
    if rows == [] then 0 else rows[0].bytes + LogicalBytes(rows[1..])
  }

  function ValueSum(rows: seq<Row>): nat {
    if rows == [] then 0 else ValueSum(rows[..|rows| - 1]) + rows[|rows| - 1].values
  }

  function Cutoff(now: nat): nat {
    if now >= RETENTION_AGE_NS then now - RETENTION_AGE_NS else 0
  }

  predicate AnyExpired(rows: seq<Row>, cutoff: nat) {
    exists k :: 0 <= k < |rows| && rows[k].captured < cutoff
  }

  predicate OverCap(rows: seq<Row>) {
    LogicalBytes(rows) > RETENTION_LOGICAL_BYTES
  }

  /** Whether a pass at this time has anything to do. */
  predicate Due(rows: seq<Row>, cutoff: nat) {
    AnyExpired(rows, cutoff) || (OverCap(rows) && rows != [])
  }

  /** A pass may delete these first `n` rows: a bounded, non-empty prefix, of expired
      rows only when there are any. */
  predicate MayDelete(rows: seq<Row>, cutoff: nat, n: nat) {
    && 1 <= n <= |rows| && n <= RETENTION_DELETE_BATCHES
    && (n == 1 || ValueSum(rows[..n]) <= RETENTION_DELETE_VALUES)
    && (if AnyExpired(rows, cutoff) then forall k :: 0 <= k < n ==> rows[k].captured < cutoff else OverCap(rows))
  }

  /** The longest prefix a pass may delete. */
  predicate Deletes(rows: seq<Row>, cutoff: nat, n: nat) {
    if Due(rows, cutoff) then
      MayDelete(rows, cutoff, n) && forall m :: n < m <= |rows| ==> !MayDelete(rows, cutoff, m)
    else n == 0
  }

  lemma {:induction false} ValueSumGrows(rows: seq<Row>, n: nat)
    requires n < |rows|
    ensures ValueSum(rows[..n + 1]) == ValueSum(rows[..n]) + rows[n].values
  {
    assert rows[..n + 1][..n] == rows[..n];
  }

  lemma {:induction false} ValueSumMonotone(rows: seq<Row>, n: nat, m: nat)
    requires n <= m <= |rows|
    ensures ValueSum(rows[..n]) <= ValueSum(rows[..m])
    decreases m - n
  {
    if n < m {
      ValueSumGrows(rows, n);
      ValueSumMonotone(rows, n + 1, m);
    }
  }

  datatype Evidence = Busy | Passed(deleted: nat, logical: nat, moreWork: bool, earliest: Option<nat>)

  /** What a pass over `before` answers and leaves. A pass that is out of time before it
      counts changes nothing; otherwise it deletes the longest prefix it may. */
  predicate PassGives(before: seq<Row>, now: nat, outOfTime: (bool, bool, bool), e: Evidence, after: seq<Row>) {
    if outOfTime.0 || outOfTime.1 then e.Busy? && after == before
    else
      && e.Passed? && e.deleted <= |before| && Deletes(before, Cutoff(now), e.deleted)
      && after == before[e.deleted..]
      && e.logical == LogicalBytes(after)
      && (e.moreWork <==> Due(after, Cutoff(now)) || (outOfTime.2 && after != []))
      && e.earliest == (if after == [] then None else Some(after[0].captured))
  }

  // A pass in plain numbers

  function BytesOf(rows: seq<Row>): seq<nat> {
    seq(|rows|, k requires 0 <= k < |rows| => rows[k].bytes)
  }

  function ValuesOf(rows: seq<Row>): seq<nat> {
    seq(|rows|, k requires 0 <= k < |rows| => rows[k].values)
  }

  /** More than seven days old. */
  predicate IsOld(r: Row, now: nat) {
    r.captured + 604_800_000_000_000 < now
  }

  ghost predicate SomeOld(rows: seq<Row>, now: nat) {
    exists k :: 0 <= k < |rows| && IsOld(rows[k], now)
  }

  /** What a pass in time deletes: at most 100 batches and, but for a single one, at most
      512 values; old ones only when there are any, and else some only when the table
      holds more than 256 MiB. It stops for no other reason. */
  ghost predicate DeletesFirst(before: seq<Row>, now: nat, n: nat) {
    && n <= |before| && n <= 100 && (n <= 1 || Sum(ValuesOf(before[..n])) <= 512)
    && (n > 0 <==> SomeOld(before, now) || (before != [] && Sum(BytesOf(before)) > 268_435_456))
    && (SomeOld(before, now) ==> forall k :: 0 <= k < n ==> IsOld(before[k], now))
    && (n > 0 && n < |before| && n < 100 && (SomeOld(before, now) ==> IsOld(before[n], now)) ==>
          Sum(ValuesOf(before[..n + 1])) > 512)
  }

  lemma {:induction false} BytesAreSum(rows: seq<Row>)
    ensures LogicalBytes(rows) == Sum(BytesOf(rows))
  {
    if rows != [] {
      BytesAreSum(rows[1..]);
      assert BytesOf(rows)[1..] == BytesOf(rows[1..]);
    }
  }

  lemma {:induction false} SumBack(ns: seq<nat>)
    requires ns != []
    ensures Sum(ns) == Sum(ns[..|ns| - 1]) + ns[|ns| - 1]
  {
    if |ns| > 1 {
      SumBack(ns[1..]);
      assert ns[1..][..|ns| - 2] == ns[..|ns| - 1][1..];
    }
  }

  lemma {:induction false} ValuesAreSum(rows: seq<Row>)
    ensures ValueSum(rows) == Sum(ValuesOf(rows))
  {
    if rows != [] {
      ValuesAreSum(rows[..|rows| - 1]);
      SumBack(ValuesOf(rows));
      assert ValuesOf(rows)[..|rows| - 1] == ValuesOf(rows[..|rows| - 1]);
    }
  }

  lemma OldIsExpired(rows: seq<Row>, now: nat)
    ensures forall k :: 0 <= k < |rows| ==> (IsOld(rows[k], now) <==> rows[k].captured < Cutoff(now))
    ensures SomeOld(rows, now) <==> AnyExpired(rows, Cutoff(now))
  {
  }

  /** Deleting the longest allowed prefix is just that. */
  lemma DeletesExactly(rows: seq<Row>, now: nat, n: nat)
    requires Ordered(rows) && n <= |rows| && Deletes(rows, Cutoff(now), n)
    ensures DeletesFirst(rows, now, n)
  {
    OldIsExpired(rows, now);
    BytesAreSum(rows);
    ValuesAreSum(rows[..n]);
    if n < |rows| {
      ValuesAreSum(rows[..n + 1]);
      if Due(rows, Cutoff(now)) {
        assert !MayDelete(rows, Cutoff(now), n + 1);
      }
    }
    hide Sum, ValueSum, LogicalBytes, BytesOf, ValuesOf, Cutoff;
  }

  /** The rows that go are older than those that stay, by capture time and then id. */
  predicate OlderGo(before: seq<Row>, n: nat) {
    forall j, k :: 0 <= j < n <= k < |before| ==>
      before[j].captured < before[k].captured || (before[j].captured == before[k].captured && before[j].id < before[k].id)
  }

  lemma OrderedGo(rows: seq<Row>, n: nat)
    requires Ordered(rows)
    ensures OlderGo(rows, n)
  {
  }

  class BatchTable {
    /** In query order. */
    var rows: seq<Row>
    /** The counter that triggers keep. */
    var logicalBytes: nat

    ghost predicate Valid()
      reads this
    {
      Ordered(rows) && logicalBytes == LogicalBytes(rows)
    }

    /** One pass. `outOfTime` are the answers of the time checks: before selecting, before
        counting, and at the end. A pass that runs out of time changes nothing. */
    method RunRetention(now: nat, outOfTime: (bool, bool, bool)) returns (e: Evidence)
      requires Valid()
      modifies this
      ensures Valid() && PassGives(old(rows), now, outOfTime, e, rows)
      ensures e.Passed? ==> DeletesFirst(old(rows), now, e.deleted) && OlderGo(old(rows), e.deleted)
    {
      hide DeletesFirst, OlderGo, LogicalBytes, Cutoff, MayDelete;
      var cutoff := Cutoff(now);
      var expired := CountExpired(cutoff);
      var candidates := expired;
      if expired == 0 && logicalBytes > RETENTION_LOGICAL_BYTES {
        candidates := |rows|;
      }
      if candidates > RETENTION_DELETE_BATCHES {
        candidates := RETENTION_DELETE_BATCHES;
      }
      if outOfTime.0 {
        return Busy;
      }
      var n := SelectPrefix(candidates);
      Longest(rows, cutoff, expired, candidates, n);
      DeletesExactly(rows, now, n);
      OrderedGo(rows, n);
      if outOfTime.1 {
        return Busy;
      }
      DeleteFirst(n);
      var left := CountExpired(cutoff);
      var moreWork := left > 0 || (logicalBytes > RETENTION_LOGICAL_BYTES && rows != []);
      if outOfTime.2 && rows != [] {
        moreWork := true;
      }
      return Passed(n, logicalBytes, moreWork, if rows == [] then None else Some(rows[0].captured));
    }

    /** The DELETE, row by row; the triggers keep the counter. */
    method DeleteFirst(n: nat)
      requires Valid() && n <= |rows|
      modifies this
      ensures Valid() && rows == old(rows)[n..]
    {
      var i := 0;
      while i < n
        invariant 0 <= i <= n && rows == old(rows)[i..] && logicalBytes == LogicalBytes(rows)
      {
        logicalBytes := logicalBytes - rows[0].bytes;
        rows := rows[1..];
        i := i + 1;
      }
    }

    /** The expired rows are the first ones. */
    method CountExpired(cutoff: nat) returns (n: nat)
      requires Ordered(rows)
      ensures n <= |rows| && (forall k :: 0 <= k < |rows| ==> (rows[k].captured < cutoff <==> k < n))
      ensures n > 0 <==> AnyExpired(rows, cutoff)
    {
      n := 0;
      while n < |rows| && rows[n].captured < cutoff
        invariant 0 <= n <= |rows| && forall k :: 0 <= k < n ==> rows[k].captured < cutoff
      {
        n := n + 1;
      }
    }

    /** The selection loop: the first candidate always, more while the values fit. */
    method SelectPrefix(candidates: nat) returns (n: nat)
      requires candidates <= |rows|
      ensures n <= candidates && (candidates > 0 ==> n >= 1)
      ensures n <= 1 || ValueSum(rows[..n]) <= RETENTION_DELETE_VALUES
      ensures n < candidates ==> ValueSum(rows[..n + 1]) > RETENTION_DELETE_VALUES
    {
      n := 0;
      var values := 0;
      while n < candidates
        invariant 0 <= n <= candidates && values == ValueSum(rows[..n])
        invariant n <= 1 || values <= RETENTION_DELETE_VALUES
      {
        ValueSumGrows(rows, n);
        if n > 0 && values + rows[n].values > RETENTION_DELETE_VALUES {
          break;
        }
        values := values + rows[n].values;
        n := n + 1;
      }
    }
  }

  /** The selected prefix is the longest allowed one. */
  lemma Longest(rows: seq<Row>, cutoff: nat, expired: nat, candidates: nat, n: nat)
    requires expired <= |rows| && forall k :: 0 <= k < |rows| ==> (rows[k].captured < cutoff <==> k < expired)
    requires candidates == (var c := if expired == 0 && OverCap(rows) then |rows| else expired;
                            if c > RETENTION_DELETE_BATCHES then RETENTION_DELETE_BATCHES else c)
    requires n <= candidates && (candidates > 0 ==> n >= 1)
    requires n <= 1 || ValueSum(rows[..n]) <= RETENTION_DELETE_VALUES
    requires n < candidates ==> ValueSum(rows[..n + 1]) > RETENTION_DELETE_VALUES
    ensures Deletes(rows, cutoff, n)
  {
    assert expired > 0 ==> rows[0].captured < cutoff;
    if Due(rows, cutoff) {
      forall m | n < m <= |rows|
        ensures !MayDelete(rows, cutoff, m)
      {
        if n < candidates {
          ValueSumMonotone(rows, n + 1, m);
        } else if expired > 0 && m > expired {
          assert rows[expired].captured >= cutoff;
        }
      }
    }
  }

  // Convergence

  /** Nothing left to do: nothing is expired, and the cap is met or the table empty. */
  predicate Settled(rows: seq<Row>, cutoff: nat) {
    && (forall k :: 0 <= k < |rows| ==> rows[k].captured >= cutoff)
    && (LogicalBytes(rows) <= RETENTION_LOGICAL_BYTES || rows == [])
  }

  lemma SettledMeansNotDue(rows: seq<Row>, cutoff: nat)
    ensures Settled(rows, cutoff) <==> !Due(rows, cutoff)
  {
  }

  /** A pass with work to do deletes at least one batch; without, none. */
  lemma DueMeansProgress(rows: seq<Row>, cutoff: nat, n: nat)
    requires Deletes(rows, cutoff, n)
    ensures Due(rows, cutoff) <==> n >= 1
  {
  }

  /** Work is due exactly when the evidence of a pass shows it. */
  predicate EvidentlyDue(e: Evidence, cutoff: nat) {
    e.Passed? && e.earliest.Some? && (e.earliest.value < cutoff || e.logical > RETENTION_LOGICAL_BYTES)
  }

  lemma DueIsEvident(before: seq<Row>, now: nat, outOfTime: (bool, bool, bool), e: Evidence, after: seq<Row>)
    requires Ordered(before) && PassGives(before, now, outOfTime, e, after) && e.Passed?
    ensures Due(after, Cutoff(now)) <==> EvidentlyDue(e, Cutoff(now))
  {
    if AnyExpired(after, Cutoff(now)) {
      var k :| 0 <= k < |after| && after[k].captured < Cutoff(now);
      assert after[0] == before[e.deleted] && after[k] == before[e.deleted + k];
      assert k > 0 ==> Before(before[e.deleted], before[e.deleted + k]);
    }
  }

  /** When `moreWork` can be relied on: it implies that the next pass at the same time
      deletes at least one batch exactly when the first pass was in time at its end, left
      nothing, or its evidence shows work. */
  lemma MoreWorkIsKept(before: seq<Row>, now: nat, late: bool, e: Evidence, after: seq<Row>, slow: bool, next: Evidence, last: seq<Row>)
    requires Ordered(before)
    requires PassGives(before, now, (false, false, late), e, after)
    requires PassGives(after, now, (false, false, slow), next, last)
    ensures (e.moreWork ==> next.deleted >= 1) <==> !late || e.earliest.None? || EvidentlyDue(e, Cutoff(now))
  {
    DueIsEvident(before, now, (false, false, late), e, after);
    DueMeansProgress(after, Cutoff(now), next.deleted);
  }

  /** The failing case: one recent batch and a pass that is out of time at its end. It
      announces more work, and the next pass deletes nothing. */
  lemma SlowPassMayAnnounceNothing(now: nat)
    ensures var rows := [Row(1, now, 1, 1)];
            && PassGives(rows, now, (false, false, true), Passed(0, 1, true, Some(now)), rows)
            && forall e, after :: PassGives(rows, now, (false, false, false), e, after) ==> e.deleted == 0 && after == rows
  {
    var rows := [Row(1, now, 1, 1)];
    assert LogicalBytes(rows) == 1 + LogicalBytes([]);
    assert !Due(rows, Cutoff(now));
    forall e, after | PassGives(rows, now, (false, false, false), e, after)
      ensures e.deleted == 0 && after == rows
    {
      DueMeansProgress(rows, Cutoff(now), e.deleted);
    }
  }

  /** Every deleted batch was expired, or stood at the head of a table over the cap. */
  ghost predicate OnlyDue(rows: seq<Row>, cutoff: nat, d: nat)
    requires d <= |rows|
  {
    forall k :: 0 <= k < d ==> rows[k].captured < cutoff || exists from :: 0 <= from <= k && OverCap(rows[from..])
  }

  lemma PassIsDue(rows: seq<Row>, cutoff: nat, d: nat, n: nat)
    requires d <= |rows| && OnlyDue(rows, cutoff, d) && n <= |rows[d..]| && Deletes(rows[d..], cutoff, n)
    ensures d + n <= |rows| && OnlyDue(rows, cutoff, d + n) && rows[d..][n..] == rows[d + n..]
  {
    var left := rows[d..];
    forall k | d <= k < d + n
      ensures rows[k].captured < cutoff || exists from :: 0 <= from <= k && OverCap(rows[from..])
    {
      assert left[k - d] == rows[k];
      if !AnyExpired(left, cutoff) {
        assert OverCap(rows[d..]);
      }
    }
  }

  /** One pass leads from `a` to `b`. */
  ghost predicate PassTo(a: seq<Row>, b: seq<Row>, cutoff: nat) {
    exists n :: 0 <= n <= |a| && Deletes(a, cutoff, n) && b == a[n..]
  }

  /** The tables that repeated passes at one time go through. */
  ghost predicate Passes(states: seq<seq<Row>>, cutoff: nat) {
    states != [] && forall i :: 0 <= i < |states| - 1 ==> PassTo(states[i], states[i + 1], cutoff)
  }

  /** `last` is settled or has lost a batch with every pass; all that went was due. */
  ghost predicate Progressed(first: seq<Row>, last: seq<Row>, passes: nat, cutoff: nat) {
    && (Settled(last, cutoff) || |last| + passes <= |first|)
    && exists d :: 0 <= d <= |first| && last == first[d..] && OnlyDue(first, cutoff, d)
  }

  lemma OnePassMore(first: seq<Row>, a: seq<Row>, b: seq<Row>, passes: nat, cutoff: nat)
    requires Progressed(first, a, passes, cutoff) && PassTo(a, b, cutoff)
    ensures Progressed(first, b, passes + 1, cutoff)
  {
    hide Deletes, Settled, OnlyDue, Due;
    var n :| 0 <= n <= |a| && Deletes(a, cutoff, n) && b == a[n..];
    var d :| 0 <= d <= |first| && a == first[d..] && OnlyDue(first, cutoff, d);
    PassIsDue(first, cutoff, d, n);
    assert n == 0 ==> b == a;
    SettledMeansNotDue(a, cutoff);
    DueMeansProgress(a, cutoff, n);
  }

  /** Repeated passes at one time settle the table within as many passes as it has
      batches; a settled table stays as it is. What is left is a suffix, and every
      batch that went was due. */
  lemma {:induction false} RepeatedPassesSettle(states: seq<seq<Row>>, cutoff: nat)
    requires Passes(states, cutoff)
    ensures var last := states[|states| - 1];
            && (|states| > |states[0]| ==> Settled(last, cutoff))
            && (Settled(last, cutoff) || |last| + |states| <= |states[0]| + 1)
            && exists d :: 0 <= d <= |states[0]| && last == states[0][d..] && OnlyDue(states[0], cutoff, d)
    decreases |states|
  {
    PassesProgress(states, cutoff);
    hide Passes, OnlyDue;
  }

  lemma {:induction false} PassesProgress(states: seq<seq<Row>>, cutoff: nat)
    requires Passes(states, cutoff)
    ensures Progressed(states[0], states[|states| - 1], |states| - 1, cutoff)
    decreases |states|
  {
    var k := |states| - 1;
    if k == 0 {
      assert states[0][0..] == states[0] && OnlyDue(states[0], cutoff, 0);
    } else {
      var before := states[..k];
      assert forall i :: 0 <= i < |before| ==> before[i] == states[i];
      assert PassTo(states[k - 1], states[k], cutoff);
      hide Progressed, PassTo;
      PassesProgress(before, cutoff);
      OnePassMore(states[0], states[k - 1], states[k], k - 1, cutoff);
    }
  }
}
