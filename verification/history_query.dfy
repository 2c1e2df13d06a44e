/** One history query: a metadata stream, a verified cache for its first rows, and a
    payload and an index stream that are opened at the first miss and then read in
    lockstep. */
module HistoryQueries {
  import opened Basics
  import opened PageSize
  import opened HistoryPages

  datatype Response = InvalidCursor | CorruptStorage | Answer(page: PageResult)

  /** One row of the index table. */
  datatype IndexRow = IndexRow(batch: nat, ordinal: nat, value: Value)

  // Rows

  predicate RowSelected(q: Query, b: Batch, c: Option<Cursor>) {
    SqlSelects(q, b) && (c.Some? ==> b.id >= c.value.batch)
  }

  /** The batches the row query returns, in id order. */
  function Rows(q: Query, store: seq<Batch>, c: Option<Cursor>): (r: seq<Batch>)
    ensures forall k :: 0 <= k < |r| ==> r[k] in store && RowSelected(q, r[k], c)
  {
    if store == [] then []
    else (if RowSelected(q, store[0], c) then [store[0]] else []) + Rows(q, store[1..], c)
  }

  lemma {:induction false} RowsIncrease(q: Query, store: seq<Batch>, c: Option<Cursor>)
    requires Stored(store)
    ensures Stored(Rows(q, store, c))
    decreases |store|
  {
    if store != [] {
      hide RowSelected, SqlSelects, GroupSelects, Stored;
      var rest := Rows(q, store[1..], c);
      StoredRest(store);
      RowsIncrease(q, store[1..], c);
      forall k | 0 <= k < |rest|
        ensures store[0].id < rest[k].id
      {
        assert rest[k] in store[1..];
      }
      StoredFront(store[0], rest);
    }
  }

  lemma StoredRest(store: seq<Batch>)
    requires Stored(store) && store != []
    ensures Stored(store[1..]) && Stored([store[0]])
    ensures forall b :: b in store[1..] ==> store[0].id < b.id
  {
    assert forall k :: 0 <= k < |store[1..]| ==> store[1..][k] == store[k + 1];
    assert [store[0]][0] == store[0];
  }

  lemma StoredFront(b: Batch, rest: seq<Batch>)
    requires Stored(rest) && Stored([b]) && forall k :: 0 <= k < |rest| ==> b.id < rest[k].id
    ensures Stored([b] + rest)
  {
    var all := [b] + rest;
    assert forall i :: 0 <= i < |all| ==> all[i] == if i == 0 then b else rest[i - 1];
    assert [b][0] == b;
  }

  /** The matching values of a run of rows. */
  function RowItems(q: Query, rows: seq<Batch>, c: Option<Cursor>): seq<Item> {
    if rows == [] then []
    else (if GroupSelects(q, rows[0]) then MatchItems(q, rows[0], StartIn(rows[0], c)) else []) + RowItems(q, rows[1..], c)
  }

  lemma {:induction false} RowsHoldTheItems(q: Query, store: seq<Batch>, c: Option<Cursor>)
    ensures RowItems(q, Rows(q, store, c), c) == ItemsAfter(q, store, c)
  {
    if store != [] {
      RowsHoldTheItems(q, store[1..], c);
      FirstRow(q, store, c);
    }
  }

  lemma FirstRow(q: Query, store: seq<Batch>, c: Option<Cursor>)
    requires store != []
    requires RowItems(q, Rows(q, store[1..], c), c) == ItemsAfter(q, store[1..], c)
    ensures RowItems(q, Rows(q, store, c), c) == ItemsAfter(q, store, c)
  {
    hide SqlSelects, GroupSelects, MatchItems, StartIn;
    var rest := Rows(q, store[1..], c);
    if RowSelected(q, store[0], c) {
      assert Rows(q, store, c) == [store[0]] + rest;
      assert ([store[0]] + rest)[1..] == rest;
      if !GroupSelects(q, store[0]) {
        assert [] + RowItems(q, rest, c) == RowItems(q, rest, c);
      }
    } else {
      assert [] + rest == rest;
    }
  }

  /** `None` when the first row proves the cursor, else how the query refuses it. */
  function CheckCursor(q: Query, rows: seq<Batch>, c: Option<Cursor>): Option<Response> {
    if c.None? then None
    else if rows == [] || rows[0].id != c.value.batch || !GroupSelects(q, rows[0]) then Some(InvalidCursor)
    else if c.value.ordinal + 1 > |rows[0].values| then Some(CorruptStorage)
    else if !Matches(q, rows[0].values[c.value.ordinal]) then Some(InvalidCursor)
    else None
  }

  /** What a query answers, read straight from storage. */
  ghost function Respond(q: Query, store: seq<Batch>, c: Option<Cursor>): Response {
    var bad := CheckCursor(q, Rows(q, store, c), c);
    if bad.Some? then bad.value
    else if QueryPage(q, store, c).Corrupt? then CorruptStorage
    else Answer(QueryPage(q, store, c))
  }

  function IndexOf(b: Batch): seq<IndexRow> {
    seq(|b.values|, o requires 0 <= o < |b.values| => IndexRow(b.id, o, b.values[o]))
  }

  function IndexRows(rows: seq<Batch>): seq<IndexRow> {
    if rows == [] then [] else IndexOf(rows[0]) + IndexRows(rows[1..])
  }

  // The whole-batch fast form

  /** A selection after the first `n` values of a batch from `start` on. */
  function WithRun(acc: Acc, b: Batch, start: nat, n: nat): Acc
    requires start + n <= |b.values|
  {
    if n == 0 then acc
    else
      var s := Slice(b, start, b.values[start..start + n]);
      Acc(acc.slices + [s], acc.bytes + (if acc.slices != [] then 1 else 0) + SliceBytes(s), acc.count + n)
  }

  lemma SliceGrows(b: Batch, start: nat, vs: seq<Value>, v: Value)
    requires vs != []
    ensures SliceBytes(Slice(b, start, vs + [v])) == SliceBytes(Slice(b, start, vs)) + 1 + v.bytes
  {
    JoinedGrows(vs, v);
  }

  lemma RunGrows(acc: Acc, b: Batch, start: nat, n: nat)
    requires start + n < |b.values| && (acc.slices != [] ==> Last(acc.slices).batch != b)
    ensures AddItem(WithRun(acc, b, start, n), Item(b, start + n)) == WithRun(acc, b, start, n + 1)
  {
    var v := b.values[start + n];
    var vs := b.values[start..start + n];
    assert b.values[start..start + n + 1] == vs + [v];
    if n > 0 {
      SliceGrows(b, start, vs, v);
      hide SliceBytes;
      var s := Slice(b, start, vs);
      assert (acc.slices + [s])[..|acc.slices|] == acc.slices;
      assert Last(acc.slices + [s]) == s;
    } else {
      hide SliceBytes;
      assert vs + [v] == [v];
    }
  }

  lemma EstimateMonotone(a: Acc, b: Acc)
    requires a.bytes <= b.bytes && a.count <= b.count
    ensures Estimate(a) <= Estimate(b)
  {
    DigitsMonotone(a.count, b.count);
    var x, y := a.bytes + CURSOR_PAGE_FIXED_BYTES + Digits(a.count), b.bytes + CURSOR_PAGE_FIXED_BYTES + Digits(b.count);
    DigitsMonotone(x + 8, y + 8);
  }

  lemma RunsIncrease(acc: Acc, b: Batch, start: nat, n: nat)
    requires start + n < |b.values|
    ensures WithRun(acc, b, start, n).bytes <= WithRun(acc, b, start, n + 1).bytes
    ensures WithRun(acc, b, start, n).count <= WithRun(acc, b, start, n + 1).count
  {
    assert b.values[start..start + n + 1] == b.values[start..start + n] + [b.values[start + n]];
    if n > 0 {
      JoinedGrows(b.values[start..start + n], b.values[start + n]);
    }
  }

  /** When a whole run fits, the greedy selection takes it value by value: the fast
      form refines the simple one. */
  lemma {:induction false} WholeRunIsGreedy(q: Query, acc: Acc, b: Batch, start: nat, n: nat, take: nat, rest: seq<Item>)
    requires q.watch.None? && n <= take && start + take <= |b.values| && acc.count + take <= Limit(q)
    requires acc.slices != [] ==> Last(acc.slices).batch != b
    requires Estimate(WithRun(acc, b, start, take)) <= MAX_HISTORY_PAGE_BYTES
    requires ItemsValid(MatchItems(q, b, start + n) + rest) && ItemsValid(MatchItems(q, b, start + take) + rest)
    ensures Select(q, MatchItems(q, b, start + n) + rest, WithRun(acc, b, start, n))
         == Select(q, MatchItems(q, b, start + take) + rest, WithRun(acc, b, start, take))
    decreases take - n
  {
    hide Estimate, ItemsValid, WithRun, Select, MatchItems, Limit;
    if n < take {
      RunStep(q, acc, b, start, n, take, rest);
      WholeRunIsGreedy(q, acc, b, start, n + 1, take, rest);
    }
  }

  lemma MatchesFront(q: Query, b: Batch, from: nat, rest: seq<Item>)
    requires q.watch.None? && from < |b.values|
    ensures var items := MatchItems(q, b, from) + rest;
            items != [] && items[0] == Item(b, from) && items[1..] == MatchItems(q, b, from + 1) + rest
  {
    hide MatchItems;
    OneMatches(q, b, from);
    assert [Item(b, from)] + MatchItems(q, b, from + 1) + rest == [Item(b, from)] + (MatchItems(q, b, from + 1) + rest);
  }

  lemma OneMatches(q: Query, b: Batch, from: nat)
    requires q.watch.None? && from < |b.values|
    ensures MatchItems(q, b, from) == [Item(b, from)] + MatchItems(q, b, from + 1)
  {
  }

  lemma RunStep(q: Query, acc: Acc, b: Batch, start: nat, n: nat, take: nat, rest: seq<Item>)
    requires q.watch.None? && n < take && start + take <= |b.values| && acc.count + take <= Limit(q)
    requires acc.slices != [] ==> Last(acc.slices).batch != b
    requires Estimate(WithRun(acc, b, start, take)) <= MAX_HISTORY_PAGE_BYTES
    requires ItemsValid(MatchItems(q, b, start + n) + rest)
    ensures ItemsValid(MatchItems(q, b, start + n + 1) + rest)
    ensures Select(q, MatchItems(q, b, start + n) + rest, WithRun(acc, b, start, n))
         == Select(q, MatchItems(q, b, start + n + 1) + rest, WithRun(acc, b, start, n + 1))
  {
    hide Estimate, ItemsValid, AddItem, WithRun, SliceBytes, MatchItems, Select;
    var items := MatchItems(q, b, start + n) + rest;
    MatchesFront(q, b, start + n, rest);
    RunGrows(acc, b, start, n);
    RunFits(acc, b, start, n, take);
    RunFits(acc, b, start, n + 1, take);
    SelectStepOf(q, items, WithRun(acc, b, start, n));
  }

  lemma SelectStepOf(q: Query, items: seq<Item>, acc: Acc)
    requires ItemsValid(items) && items != [] && acc.count < Limit(q)
    requires Estimate(AddItem(acc, items[0])) <= MAX_HISTORY_PAGE_BYTES
    ensures ItemsValid(items[1..]) && Select(q, items, acc) == Select(q, items[1..], AddItem(acc, items[0]))
  {
  }

  lemma {:induction false} RunFits(acc: Acc, b: Batch, start: nat, n: nat, take: nat)
    requires n <= take && start + take <= |b.values|
    ensures Estimate(WithRun(acc, b, start, n)) <= Estimate(WithRun(acc, b, start, take))
    ensures WithRun(acc, b, start, n).count == acc.count + n
    decreases take - n
  {
    if n < take {
      RunsIncrease(acc, b, start, n);
      EstimateMonotone(WithRun(acc, b, start, n), WithRun(acc, b, start, n + 1));
      RunFits(acc, b, start, n + 1, take);
    }
  }
}
