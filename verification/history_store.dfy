/** The history store object: rows, the verified-batch cache, the page cache and the
    query that answers from any mix of them exactly as from storage alone. */
module HistoryStores {
  import opened Basics
  import opened PageSize
  import opened HistoryPages
  import opened HistoryQueries

  const VERIFIED_HISTORY_CACHE_BATCHES: nat := 512

  predicate UniqueWatches(b: Batch) {
    forall x, y :: 0 <= x < y < |b.values| ==> b.values[x].watch != b.values[y].watch
  }

  /** A selector matches at most one value of a batch. */
  lemma {:induction false} NoSecondMatch(q: Query, b: Batch, o: nat, from: nat)
    requires UniqueWatches(b) && q.watch.Some? && o < |b.values| && Matches(q, b.values[o]) && o < from
    ensures MatchItems(q, b, from) == []
    decreases |b.values| - from
  {
    if from < |b.values| {
      NoSecondMatch(q, b, o, from + 1);
    }
  }

  lemma {:induction false} AllMatch(q: Query, b: Batch, from: nat)
    requires q.watch.None? && from <= |b.values|
    ensures |MatchItems(q, b, from)| == |b.values| - from
    decreases |b.values| - from
  {
    if from < |b.values| {
      AllMatch(q, b, from + 1);
    }
  }

  lemma MatchThenRest(q: Query, b: Batch, from: nat, rest: seq<Item>)
    requires ItemsValid(rest)
    ensures ItemsValid(MatchItems(q, b, from) + rest)
  {
    MatchItemsFacts(q, b, from);
  }

  lemma FitsIsSize(acc: Acc, s: nat)
    requires IsLeastSize(FixedBytes(acc.bytes, acc.count, false), s)
    ensures FitsWithoutCursor(acc) <==> s <= MAX_HISTORY_PAGE_BYTES
  {
  }

  /** One value of the per-value loop: what the greedy selection does with it. */
  lemma ValueStep(q: Query, b: Batch, o: nat, acc: Acc, rest: seq<Item>, lastRow: bool)
    requires o < |b.values| && Matches(q, b.values[o]) && ItemsValid(rest)
    requires ItemsValid(MatchItems(q, b, o) + rest)
    requires Unfiltered(q) ==> (lastRow <==> rest == [])
    ensures ItemsValid(MatchItems(q, b, o + 1) + rest)
    ensures var items := MatchItems(q, b, o) + rest;
            var next := AddItem(acc, Item(b, o));
            var alone := Unfiltered(q) && o + 1 == |b.values| && lastRow;
            Select(q, items, acc) ==
            if acc.count >= Limit(q) then (acc, true)
            else if Estimate(next) > MAX_HISTORY_PAGE_BYTES && !(alone && FitsWithoutCursor(next)) then (acc, true)
            else Select(q, MatchItems(q, b, o + 1) + rest, next)
  {
    var items := MatchItems(q, b, o) + rest;
    assert items == [Item(b, o)] + (MatchItems(q, b, o + 1) + rest);
    assert items[1..] == MatchItems(q, b, o + 1) + rest;
    if Unfiltered(q) {
      AllMatch(q, b, o);
    }
    hide AddItem, Estimate, FitsWithoutCursor, MatchItems;
  }

  /** Take a batch's matching values from `start` on into the selection; `lastRow`
      is the answer of the look-ahead for a further row. */
  method TakeValues(q: Query, b: Batch, start: nat, acc0: Acc, lastRow: bool, ghost rest: seq<Item>)
    returns (acc: Acc, more: bool)
    requires UniqueWatches(b) && start <= |b.values| && q.limit >= 1
    requires acc0.slices != [] ==> Last(acc0.slices).batch != b
    requires ItemsValid(rest) && ItemsValid(MatchItems(q, b, start) + rest)
    requires Unfiltered(q) ==> (lastRow <==> rest == [])
    ensures Select(q, MatchItems(q, b, start) + rest, acc0) == if more then (acc, true) else Select(q, rest, acc)
    ensures acc == acc0 || (acc.slices != [] && Last(acc.slices).batch == b)
  {
    acc, more := acc0, false;
    var limit := Limit(q);
    if q.watch.None? && start < |b.values| && acc.count < limit {
      var take := if |b.values| - start < limit - acc.count then |b.values| - start else limit - acc.count;
      var whole := TakeWhole(b, start, take, acc);
      if Estimate(whole) <= MAX_HISTORY_PAGE_BYTES {
        WholeTaken(q, b, start, take, acc, rest);
        return whole, start + take < |b.values|;
      }
    }
    acc, more := TakeEach(q, b, start, acc0, lastRow, rest);
  }

  /** The arithmetic of the whole-batch form. */
  method TakeWhole(b: Batch, start: nat, take: nat, acc: Acc) returns (whole: Acc)
    requires start + take <= |b.values| && take >= 1
    ensures whole == WithRun(acc, b, start, take)
  {
    var encodedSliceBase := b.fixed + 1;
    var sliceBytes := encodedSliceBase - 1 + Digits(start) + b.values[start].bytes;
    var o := start + 1;
    assert b.values[start..start + 1] == [b.values[start]];
    while o < start + take
      invariant start < o <= start + take
      invariant sliceBytes == b.fixed + Digits(start) + Joined(b.values[start..o])
    {
      assert b.values[start..o + 1] == b.values[start..o] + [b.values[o]];
      JoinedGrows(b.values[start..o], b.values[o]);
      sliceBytes := sliceBytes + 1 + b.values[o].bytes;
      o := o + 1;
    }
    return Acc(acc.slices + [Slice(b, start, b.values[start..start + take])],
               acc.bytes + (if acc.slices != [] then 1 else 0) + sliceBytes,
               acc.count + take);
  }

  lemma WholeTaken(q: Query, b: Batch, start: nat, take: nat, acc: Acc, rest: seq<Item>)
    requires q.watch.None? && take >= 1 && start + take <= |b.values| && acc.count + take <= Limit(q)
    requires take == |b.values| - start || acc.count + take == Limit(q)
    requires acc.slices != [] ==> Last(acc.slices).batch != b
    requires ItemsValid(rest) && ItemsValid(MatchItems(q, b, start) + rest)
    requires Estimate(WithRun(acc, b, start, take)) <= MAX_HISTORY_PAGE_BYTES
    ensures var whole := WithRun(acc, b, start, take);
            Select(q, MatchItems(q, b, start) + rest, acc) ==
            if start + take < |b.values| then (whole, true) else Select(q, rest, whole)
  {
    var whole := WithRun(acc, b, start, take);
    MatchThenRest(q, b, start + take, rest);
    WholeRunIsGreedy(q, acc, b, start, 0, take, rest);
    assert whole.count == acc.count + take;
    if start + take == |b.values| {
      assert MatchItems(q, b, start + take) + rest == rest;
    } else {
      AllMatch(q, b, start + take);
    }
  }

  /** The per-value loop. */
  method TakeEach(q: Query, b: Batch, start: nat, acc0: Acc, lastRow: bool, ghost rest: seq<Item>)
    returns (acc: Acc, more: bool)
    requires UniqueWatches(b) && start <= |b.values|
    requires acc0.slices != [] ==> Last(acc0.slices).batch != b
    requires ItemsValid(rest) && ItemsValid(MatchItems(q, b, start) + rest)
    requires Unfiltered(q) ==> (lastRow <==> rest == [])
    ensures Select(q, MatchItems(q, b, start) + rest, acc0) == if more then (acc, true) else Select(q, rest, acc)
    ensures acc == acc0 || (acc.slices != [] && Last(acc.slices).batch == b)
  {
    hide AddItem, Estimate, FitsWithoutCursor, ItemsValid, Select, UniqueWatches, Unfiltered, Limit;
    acc, more := acc0, false;
    var o := start;
    while o < |b.values|
      invariant start <= o <= |b.values| && !more
      invariant ItemsValid(MatchItems(q, b, o) + rest)
      invariant Select(q, MatchItems(q, b, start) + rest, acc0) == Select(q, MatchItems(q, b, o) + rest, acc)
      invariant acc == acc0 || (acc.slices != [] && Last(acc.slices).batch == b)
      invariant acc.slices != [] && Last(acc.slices).batch == b ==>
                  if q.watch.None? then Last(acc.slices).start + |Last(acc.slices).values| == o else MatchItems(q, b, o) == []
    {
      if Matches(q, b.values[o]) {
        ValueStep(q, b, o, acc, rest, lastRow);
        var taken, next := TakeOne(q, b, o, acc, lastRow);
        if !taken {
          return acc, true;
        }
        if q.watch.Some? {
          NoSecondMatch(q, b, o, o + 1);
        }
        acc := next;
      } else {
        assert MatchItems(q, b, o) == [] + MatchItems(q, b, o + 1) == MatchItems(q, b, o + 1);
      }
      MatchThenRest(q, b, o + 1, rest);
      o := o + 1;
    }
    assert MatchItems(q, b, o) + rest == rest;
  }

  /** The decision on one value, with the look-ahead for an overlong last value. */
  method TakeOne(q: Query, b: Batch, o: nat, acc: Acc, lastRow: bool) returns (taken: bool, next: Acc)
    requires o < |b.values|
    requires acc.slices != [] && Last(acc.slices).batch == b ==> Last(acc.slices).start + |Last(acc.slices).values| == o
    ensures var n := AddItem(acc, Item(b, o));
            taken <==>
              && acc.count < Limit(q)
              && (Estimate(n) <= MAX_HISTORY_PAGE_BYTES
                  || (Unfiltered(q) && o + 1 == |b.values| && lastRow && FitsWithoutCursor(n)))
    ensures taken ==> next == AddItem(acc, Item(b, o)) && next.slices != [] && Last(next.slices).batch == b
    ensures taken ==> Last(next.slices).start + |Last(next.slices).values| == o + 1
  {
    hide Estimate, FitsWithoutCursor, IsLeastSize, AddItem;
    if acc.count >= Limit(q) {
      return false, acc;
    }
    next := Extended(acc, b, o);
    taken := Estimate(next) <= MAX_HISTORY_PAGE_BYTES;
    if !taken && Unfiltered(q) && o + 1 == |b.values| && lastRow {
      var s := EncodedSize(FixedBytes(next.bytes, next.count, false));
      FitsIsSize(next, s);
      taken := s <= MAX_HISTORY_PAGE_BYTES;
    }
  }

  /** One more value: the code extends the last slice when it is this batch's. */
  method Extended(acc: Acc, b: Batch, o: nat) returns (next: Acc)
    requires o < |b.values|
    requires acc.slices != [] && Last(acc.slices).batch == b ==> Last(acc.slices).start + |Last(acc.slices).values| == o
    ensures next == AddItem(acc, Item(b, o))
    ensures next.slices != [] && Last(next.slices).batch == b
    ensures Last(next.slices).start + |Last(next.slices).values| == o + 1
  {
    var v := b.values[o];
    var n := |acc.slices|;
    if n > 0 && acc.slices[n - 1].batch == b {
      var last := acc.slices[n - 1];
      return Acc(acc.slices[..n - 1] + [Slice(b, last.start, last.values + [v])], acc.bytes + 1 + v.bytes, acc.count + 1);
    }
    var sliceBytes := b.fixed + Digits(o) + v.bytes;
    return Acc(acc.slices + [Slice(b, o, [v])], acc.bytes + (if n > 0 then 1 else 0) + sliceBytes, acc.count + 1);
  }

  /** Read one batch from the payload and index streams and check it. */
  method FetchBatch(row: Batch, payload: seq<Batch>, index: seq<IndexRow>)
    returns (batch: Option<Batch>, payload': seq<Batch>, index': seq<IndexRow>)
    ensures batch.Some? <==>
              && payload != [] && payload[0].id == row.id && |payload[0].values| == |row.values| <= |index|
              && forall o :: 0 <= o < |row.values| ==> index[o] == IndexRow(row.id, o, payload[0].values[o])
    ensures batch.Some? ==> batch.value == payload[0] && payload' == payload[1..] && index' == index[|row.values|..]
    ensures forall rows: seq<Batch> :: rows != [] && rows[0] == row && payload == rows && index == IndexRows(rows) ==>
              batch == Some(row) && payload' == rows[1..] && index' == IndexRows(rows[1..])
  {
    payload', index' := payload, index;
    if payload == [] || payload[0].id != row.id {
      return None, payload, index;
    }
    var decoded := payload[0];
    payload' := payload[1..];
    var count := |row.values|;
    IndexHead(row, payload, index);
    if |index| < count {
      return None, payload', index;
    }
    var o := 0;
    while o < count
      invariant 0 <= o <= count
      invariant forall k :: 0 <= k < o ==> k < |decoded.values| && index[k] == IndexRow(row.id, k, decoded.values[k])
    {
      if index[o].batch != row.id || index[o].ordinal != o || o >= |decoded.values| || index[o].value != decoded.values[o] {
        return None, payload', index;
      }
      o := o + 1;
    }
    if |decoded.values| != count {
      return None, payload', index;
    }
    return Some(decoded), payload', index[count..];
  }

  lemma IndexHead(row: Batch, rows: seq<Batch>, index: seq<IndexRow>)
    ensures rows != [] && rows[0] == row && index == IndexRows(rows) ==>
              && |index| >= |row.values| && index[|row.values|..] == IndexRows(rows[1..])
              && forall o :: 0 <= o < |row.values| ==> index[o] == IndexRow(row.id, o, row.values[o])
  {
  }
}
