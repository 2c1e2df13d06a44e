/** The history window of one replay operation: what its projected batches weigh in a
    page, and exactly when one page holds them all. */
module ReplayWindows {
  import opened Basics
  import opened PageSize
  import opened HistoryPages
  import opened HistoryQueries
  import opened PagingRoundTrip

  const MAX_SIGNED_INT64: nat := 0x7FFF_FFFF_FFFF_FFFF

  const START_ORDINAL := "\"startOrdinal\":,"
  const BATCH_VALUE_COUNT := "\"batchValueCount\":,"

  /** A projected batch of the operation's run: `bytes` is the length of its JSON
      without the values, session id included, and `rest` all other fields. */
  datatype Projected = Projected(session: int, sequence: nat, captured: int, rest: int, bytes: nat, values: seq<Value>)

  /** What a page's slice adds to a batch, apart from its own start ordinal. */
  function SliceFields(count: nat): nat {
    |START_ORDINAL| + |BATCH_VALUE_COUNT| + Digits(count)
  }

  function RowOf(p: Projected, id: nat): Batch {
    Batch(id, Meta(p.session, 0, p.sequence, p.captured, 0, p.rest), p.bytes + SliceFields(|p.values|), p.values)
  }

  /** The history rows of the run, in the order of their insertion. */
  function RowsFrom(id: nat, ps: seq<Projected>): (r: seq<Batch>)
    ensures |r| == |ps|
  {
    seq(|ps|, k requires 0 <= k < |ps| => RowOf(ps[k], id + k))
  }

  function RowsOf(ps: seq<Projected>): (r: seq<Batch>) {
    RowsFrom(1, ps)
  }

  /** The batch rebuilt from a slice of its row. */
  function Rebuilt(s: Slice): Projected {
    var m, extra := s.batch.meta, SliceFields(|s.batch.values|);
    Projected(m.session, m.sequence, m.captured, m.rest, if extra <= s.batch.fixed then s.batch.fixed - extra else 0, s.values)
  }

  function AllRebuilt(slices: seq<Slice>): (r: seq<Projected>)
    ensures |r| == |slices|
  {
    seq(|slices|, k requires 0 <= k < |slices| => Rebuilt(slices[k]))
  }

  predicate IsWhole(s: Slice) {
    s.start == 0 && |s.values| == |s.batch.values|
  }

  /** The query of `_load_existing_batches`. */
  function LoadQuery(session: int): Query {
    Query(session, 0, MAX_SIGNED_INT64, MAX_HISTORY_VALUES, Some(0), None, None)
  }

  ghost function LoadPage(session: int, history: seq<Projected>): PageResult {
    QueryPage(LoadQuery(session), RowsOf(history), None)
  }

  // What a window weighs

  function ValueCount(ps: seq<Projected>): nat {
    if ps == [] then 0 else |ps[0].values| + ValueCount(ps[1..])
  }

  /** The JSON of the batches alone. */
  function TextBytes(ps: seq<Projected>): nat {
    if ps == [] then 0 else ps[0].bytes + Joined(ps[0].values) + TextBytes(ps[1..])
  }

  /** The slice that holds the first `n` values of a batch. */
  function PartBytes(p: Projected, n: nat): nat
    requires n <= |p.values|
  {
    if n == 0 then 0 else p.bytes + SliceFields(|p.values|) + Digits(0) + Joined(p.values[..n])
  }

  /** The slices of whole batches behind `before` bytes, with the commas between. */
  function WindowBytes(before: nat, ps: seq<Projected>): nat
    decreases |ps|
  {
    if ps == [] then before
    else WindowBytes(before + (if before > 0 then 1 else 0) + PartBytes(ps[0], |ps[0].values|), ps[1..])
  }

  /** The same window without its last value. */
  function ButLastBytes(ps: seq<Projected>): nat
    requires ps != [] && ps[|ps| - 1].values != []
  {
    var front, last := WindowBytes(0, ps[..|ps| - 1]), ps[|ps| - 1];
    if |last.values| == 1 then front
    else front + (if front > 0 then 1 else 0) + PartBytes(last, |last.values| - 1)
  }

  function WithCursor(bytes: nat, count: nat): nat {
    Estimate(Acc([], bytes, count))
  }

  /** One page holds the window: with room for a cursor, or else, if all but the last
      value leave that room, without one. */
  ghost predicate WindowFits(ps: seq<Projected>)
    requires forall k :: 0 <= k < |ps| ==> ps[k].values != []
  {
    || ps == []
    || WithCursor(WindowBytes(0, ps), ValueCount(ps)) <= MAX_HISTORY_PAGE_BYTES
    || (WithCursor(ButLastBytes(ps), ValueCount(ps) - 1) <= MAX_HISTORY_PAGE_BYTES
        && TheSize(FixedBytes(WindowBytes(0, ps), ValueCount(ps), false)) <= MAX_HISTORY_PAGE_BYTES)
  }

  // Taking everything

  function AddAll(acc: Acc, items: seq<Item>): Acc
    requires ItemsValid(items)
    decreases |items|
  {
    if items == [] then acc else AddAll(AddItem(acc, items[0]), items[1..])
  }

  lemma AddItemGrows(acc: Acc, it: Item)
    requires it.ordinal < |it.batch.values|
    ensures AddItem(acc, it).count == acc.count + 1 && Estimate(acc) <= Estimate(AddItem(acc, it))
  {
    EstimateMonotone(acc, AddItem(acc, it));
    hide Estimate;
  }

  lemma {:induction false} AddAllGrows(acc: Acc, items: seq<Item>)
    requires ItemsValid(items)
    ensures AddAll(acc, items).count == acc.count + |items| && Estimate(acc) <= Estimate(AddAll(acc, items))
    decreases |items|
  {
    if items != [] {
      AddItemGrows(acc, items[0]);
      AddAllGrows(AddItem(acc, items[0]), items[1..]);
    }
  }

  lemma {:induction false} AddAllSplits(acc: Acc, a: seq<Item>, b: seq<Item>)
    requires ItemsValid(a) && ItemsValid(b)
    ensures ItemsValid(a + b) && AddAll(acc, a + b) == AddAll(AddAll(acc, a), b)
    decreases |a|
  {
    if a == [] {
      assert a + b == b;
    } else {
      assert (a + b)[1..] == a[1..] + b;
      AddAllSplits(AddItem(acc, a[0]), a[1..], b);
    }
  }

  /** Everything goes into the page. */
  ghost predicate TakesAll(acc: Acc, items: seq<Item>)
    requires ItemsValid(items) && items != []
  {
    var n := |items|;
    || Estimate(AddAll(acc, items)) <= MAX_HISTORY_PAGE_BYTES
    || (Estimate(AddAll(acc, items[..n - 1])) <= MAX_HISTORY_PAGE_BYTES && FitsWithoutCursor(AddAll(acc, items)))
  }

  /** The greedy selection of an unfiltered query leaves nothing exactly when all
      values fit together. */
  lemma {:induction false} SelectAll(q: Query, items: seq<Item>, acc: Acc)
    requires ItemsValid(items) && items != [] && Unfiltered(q) && acc.count + |items| <= Limit(q)
    requires Estimate(acc) <= MAX_HISTORY_PAGE_BYTES
    ensures var r := Select(q, items, acc);
            (!r.1 <==> TakesAll(acc, items)) && (!r.1 ==> r.0 == AddAll(acc, items))
    decreases |items|
  {
    hide AddItem, Estimate, FitsWithoutCursor, Select;
    var next, n := AddItem(acc, items[0]), |items|;
    AddItemGrows(acc, items[0]);
    SelectStep(q, items, acc);
    if n == 1 {
      assert items[..0] == [] && items[1..] == [];
      assert AddAll(acc, items) == AddAll(next, []) == next;
      assert AddAll(acc, items[..0]) == acc;
      SelectNone(q, next);
    } else {
      var rest := items[1..];
      assert items[..n - 1][1..] == rest[..n - 2] && items[..n - 1][0] == items[0];
      assert AddAll(acc, items[..n - 1]) == AddAll(next, rest[..n - 2]);
      if Estimate(next) <= MAX_HISTORY_PAGE_BYTES {
        SelectAll(q, rest, next);
      } else {
        AddAllGrows(next, rest);
        AddAllGrows(next, rest[..n - 2]);
      }
    }
  }

  lemma SelectNone(q: Query, acc: Acc)
    ensures Select(q, [], acc) == (acc, false)
  {
  }

  // Taking rows

  lemma AddOne(acc: Acc, it: Item)
    requires ItemsValid([it])
    ensures AddAll(acc, [it]) == AddItem(acc, it)
  {
    assert [it][1..] == [];
  }

  lemma BatchItemsNext(b: Batch, n: nat)
    requires n < |b.values|
    ensures BatchItems(b, 0)[..n + 1] == BatchItems(b, 0)[..n] + [Item(b, n)] && ItemsValid([Item(b, n)])
  {
  }

  lemma {:induction false} AddRun(acc: Acc, b: Batch, n: nat)
    requires n <= |b.values| && (acc.slices != [] ==> Last(acc.slices).batch != b)
    ensures ItemsValid(BatchItems(b, 0)[..n]) && AddAll(acc, BatchItems(b, 0)[..n]) == WithRun(acc, b, 0, n)
  {
    if n > 0 {
      AddRun(acc, b, n - 1);
      hide AddAll, AddItem, WithRun, BatchItems, ItemsValid;
      BatchItemsNext(b, n - 1);
      AddAllSplits(acc, BatchItems(b, 0)[..n - 1], [Item(b, n - 1)]);
      AddOne(WithRun(acc, b, 0, n - 1), Item(b, n - 1));
      RunGrows(acc, b, 0, n - 1);
    } else {
      assert BatchItems(b, 0)[..0] == [];
    }
  }

  function AddRows(acc: Acc, rows: seq<Batch>): Acc
    decreases |rows|
  {
    if rows == [] then acc else AddRows(WithRun(acc, rows[0], 0, |rows[0].values|), rows[1..])
  }

  /** Rows that differ from each other and from what was taken before. */
  predicate FreshRows(acc: Acc, rows: seq<Batch>) {
    && (forall k :: 0 <= k < |rows| ==> rows[k].values != [] && (acc.slices != [] ==> Last(acc.slices).batch != rows[k]))
    && (forall j, k :: 0 <= j < k < |rows| ==> rows[j] != rows[k])
  }

  lemma {:induction false} AddAllRows(acc: Acc, rows: seq<Batch>)
    requires FreshRows(acc, rows)
    ensures ItemsValid(AllItems(rows)) && AddAll(acc, AllItems(rows)) == AddRows(acc, rows)
    decreases |rows|
  {
    if rows != [] {
      var b := rows[0];
      AddRun(acc, b, |b.values|);
      assert BatchItems(b, 0)[..|b.values|] == BatchItems(b, 0);
      var next := WithRun(acc, b, 0, |b.values|);
      assert Last(next.slices).batch == b;
      AddAllRows(next, rows[1..]);
      AddAllSplits(acc, BatchItems(b, 0), AllItems(rows[1..]));
    }
  }

  function WholeSlices(rows: seq<Batch>): (r: seq<Slice>)
    ensures |r| == |rows|
  {
    seq(|rows|, k requires 0 <= k < |rows| => Slice(rows[k], 0, rows[k].values))
  }

  lemma RowsFront(id: nat, ps: seq<Projected>)
    requires ps != []
    ensures RowsFrom(id, ps)[0] == RowOf(ps[0], id) && RowsFrom(id, ps)[1..] == RowsFrom(id + 1, ps[1..])
    ensures RowsFrom(id, ps) == [RowOf(ps[0], id)] + RowsFrom(id + 1, ps[1..])
  {
  }

  lemma WholeFront(rows: seq<Batch>)
    requires rows != []
    ensures WholeSlices(rows) == [Slice(rows[0], 0, rows[0].values)] + WholeSlices(rows[1..])
  {
  }

  predicate NoneEmpty(ps: seq<Projected>) {
    forall k :: 0 <= k < |ps| ==> ps[k].values != []
  }

  lemma RunWeighs(acc: Acc, p: Projected, id: nat, n: nat)
    requires n <= |p.values| && (acc.slices == [] <==> acc.bytes == 0)
    ensures var r := WithRun(acc, RowOf(p, id), 0, n);
            && r.bytes == acc.bytes + (if n > 0 && acc.bytes > 0 then 1 else 0) + PartBytes(p, n)
            && r.count == acc.count + n && (r.slices == [] <==> r.bytes == 0)
            && (n > 0 ==> r.slices == acc.slices + [Slice(RowOf(p, id), 0, p.values[..n])])
  {
  }

  lemma {:induction false} RowsWeigh(acc: Acc, id: nat, ps: seq<Projected>)
    requires NoneEmpty(ps) && (acc.slices == [] <==> acc.bytes == 0)
    ensures var r := AddRows(acc, RowsFrom(id, ps));
            && r == Acc(acc.slices + WholeSlices(RowsFrom(id, ps)), WindowBytes(acc.bytes, ps), acc.count + ValueCount(ps))
            && (r.slices == [] <==> r.bytes == 0)
    decreases |ps|
  {
    var rows := RowsFrom(id, ps);
    if ps == [] {
      assert acc.slices + WholeSlices(rows) == acc.slices;
    } else {
      hide WithRun, PartBytes, WholeSlices, RowsFrom;
      RunWeighs(acc, ps[0], id, |ps[0].values|);
      RowsFront(id, ps);
      WholeFront(rows);
      var next := WithRun(acc, rows[0], 0, |rows[0].values|);
      assert ps[0].values[..|ps[0].values|] == ps[0].values;
      RowsWeigh(next, id + 1, ps[1..]);
      var whole := Slice(rows[0], 0, rows[0].values);
      assert acc.slices + [whole] + WholeSlices(rows[1..]) == acc.slices + ([whole] + WholeSlices(rows[1..]));
    }
  }

  lemma {:induction false} AllItemsSplit(rows: seq<Batch>)
    requires rows != []
    ensures AllItems(rows) == AllItems(rows[..|rows| - 1]) + BatchItems(rows[|rows| - 1], 0)
  {
    hide BatchItems;
    if |rows| > 1 {
      AllItemsSplit(rows[1..]);
      var front := rows[..|rows| - 1];
      assert front[1..] == rows[1..][..|rows| - 2];
      assert AllItems(front) == BatchItems(rows[0], 0) + AllItems(front[1..]);
      var a, b, c := BatchItems(rows[0], 0), AllItems(front[1..]), BatchItems(rows[|rows| - 1], 0);
      assert a + (b + c) == a + b + c;
    } else {
      assert rows[1..] == [] && rows[..0] == [];
    }
  }

  lemma FreshRowsOf(id: nat, ps: seq<Projected>)
    requires NoneEmpty(ps)
    ensures FreshRows(NOTHING, RowsFrom(id, ps))
  {
    var rows := RowsFrom(id, ps);
    forall j, k | 0 <= j < k < |rows|
      ensures rows[j] != rows[k]
    {
      assert rows[j].id < rows[k].id;
    }
  }

  /** The page of a whole window. */
  lemma WholeWindow(ps: seq<Projected>)
    requires NoneEmpty(ps)
    ensures ItemsValid(AllItems(RowsOf(ps)))
    ensures AddAll(NOTHING, AllItems(RowsOf(ps))) == Acc(WholeSlices(RowsOf(ps)), WindowBytes(0, ps), ValueCount(ps))
  {
    FreshRowsOf(1, ps);
    AddAllRows(NOTHING, RowsOf(ps));
    RowsWeigh(NOTHING, 1, ps);
    assert [] + WholeSlices(RowsOf(ps)) == WholeSlices(RowsOf(ps));
  }

  lemma {:induction false} CountSplits(ps: seq<Projected>, p: Projected)
    ensures ValueCount(ps + [p]) == ValueCount(ps) + |p.values|
  {
    if ps == [] {
      assert [] + [p] == [p];
    } else {
      assert (ps + [p])[1..] == ps[1..] + [p];
      CountSplits(ps[1..], p);
    }
  }

  /** The page of all but the last value. */
  lemma ButLast(ps: seq<Projected>)
    requires ps != [] && NoneEmpty(ps)
    ensures var items := AllItems(RowsOf(ps));
            && |items| > 0 && ItemsValid(items[..|items| - 1])
            && AddAll(NOTHING, items[..|items| - 1]).bytes == ButLastBytes(ps)
            && AddAll(NOTHING, items[..|items| - 1]).count == ValueCount(ps) - 1
  {
    var rows, m := RowsOf(ps), |ps| - 1;
    var front, last := ps[..m], ps[m];
    assert rows[..m] == RowsOf(front) && rows[m] == RowOf(last, m + 1) && front + [last] == ps;
    ItemsButLast(rows);
    CountSplits(front, last);
    PartOfNone(last);
    LastPart(front, last);
    hide AddAll, AllItems, WithRun, PartBytes, WindowBytes, ValueCount, BatchItems, ItemsValid;
  }

  lemma ItemsButLast(rows: seq<Batch>)
    requires rows != [] && rows[|rows| - 1].values != []
    ensures var items, last := AllItems(rows), rows[|rows| - 1];
            && |items| > 0
            && items[..|items| - 1] == AllItems(rows[..|rows| - 1]) + BatchItems(last, 0)[..|last.values| - 1]
  {
    AllItemsSplit(rows);
    hide AllItems;
  }

  /** A window followed by a part of one more batch. */
  lemma LastPart(front: seq<Projected>, last: Projected)
    requires NoneEmpty(front) && last.values != []
    ensures var row, n := RowOf(last, |front| + 1), |last.values| - 1;
            var items := AllItems(RowsOf(front)) + BatchItems(row, 0)[..n];
            && ItemsValid(items)
            && AddAll(NOTHING, items).count == ValueCount(front) + n
            && AddAll(NOTHING, items).bytes == WindowBytes(0, front)
                                               + (if n > 0 && WindowBytes(0, front) > 0 then 1 else 0) + PartBytes(last, n)
  {
    var row, n := RowOf(last, |front| + 1), |last.values| - 1;
    WholeWindow(front);
    FrontWeighs(front);
    var before := AddAll(NOTHING, AllItems(RowsOf(front)));
    NotTheLast(front, row);
    hide AddAll, AllItems, WithRun, PartBytes, WindowBytes, ValueCount, BatchItems, RowsOf, WholeSlices, NoneEmpty;
    AddRun(before, row, n);
    RunWeighs(before, last, |front| + 1, n);
    AddAllSplits(NOTHING, AllItems(RowsOf(front)), BatchItems(row, 0)[..n]);
  }

  lemma NotTheLast(front: seq<Projected>, row: Batch)
    requires row.id == |front| + 1
    ensures var slices := WholeSlices(RowsOf(front)); slices != [] ==> Last(slices).batch != row
  {
  }

  lemma FrontWeighs(ps: seq<Projected>)
    requires NoneEmpty(ps)
    ensures WholeSlices(RowsOf(ps)) == [] <==> WindowBytes(0, ps) == 0
  {
    RowsWeigh(NOTHING, 1, ps);
    assert [] + WholeSlices(RowsOf(ps)) == WholeSlices(RowsOf(ps));
  }

  lemma PartOfNone(p: Projected)
    ensures PartBytes(p, 0) == 0
  {
  }

  // Loading

  /** What the load needs of the rows it selects. */
  predicate Loadable(session: int, ps: seq<Projected>) {
    && NoneEmpty(ps) && ValueCount(ps) <= MAX_HISTORY_VALUES
    && (forall k :: 0 <= k < |ps| ==> ps[k].session == session && 0 <= ps[k].captured < MAX_SIGNED_INT64)
    && (ps != [] ==> WithCursor(PartBytes(ps[0], 1), 1) <= MAX_HISTORY_PAGE_BYTES)
  }

  lemma RowIsSelected(session: int, id: nat, p: Projected)
    requires p.session == session && 0 <= p.captured < MAX_SIGNED_INT64
    ensures SqlSelects(LoadQuery(session), RowOf(p, id)) && GroupSelects(LoadQuery(session), RowOf(p, id))
  {
  }

  lemma {:induction false} AllSelected(session: int, id: nat, ps: seq<Projected>)
    requires forall k :: 0 <= k < |ps| ==> ps[k].session == session && 0 <= ps[k].captured < MAX_SIGNED_INT64
    ensures Selected(LoadQuery(session), RowsFrom(id, ps)) == RowsFrom(id, ps)
    decreases |ps|
  {
    hide SqlSelects, GroupSelects, RowOf, RowsFrom;
    if ps != [] {
      RowsFront(id, ps);
      RowIsSelected(session, id, ps[0]);
      AllSelected(session, id + 1, ps[1..]);
    } else {
      assert RowsFrom(id, ps) == [];
    }
  }

  lemma RebuiltAll(ps: seq<Projected>)
    ensures AllRebuilt(WholeSlices(RowsOf(ps))) == ps
    ensures forall k :: 0 <= k < |ps| ==> IsWhole(WholeSlices(RowsOf(ps))[k])
  {
  }

  lemma {:induction false} AllItemsCount(id: nat, ps: seq<Projected>)
    ensures |AllItems(RowsFrom(id, ps))| == ValueCount(ps)
    decreases |ps|
  {
    if ps != [] {
      assert RowsFrom(id, ps)[1..] == RowsFrom(id + 1, ps[1..]);
      AllItemsCount(id + 1, ps[1..]);
    }
  }

  lemma OnlyBytesCount(acc: Acc)
    ensures Estimate(acc) == WithCursor(acc.bytes, acc.count)
    ensures FitsWithoutCursor(acc) <==> TheSize(FixedBytes(acc.bytes, acc.count, false)) <= MAX_HISTORY_PAGE_BYTES
  {
    var fixed := FixedBytes(acc.bytes, acc.count, false);
    var s := TheSize(fixed);
    if FitsWithoutCursor(acc) {
      var t: nat :| IsLeastSize(fixed, t) && t <= MAX_HISTORY_PAGE_BYTES;
      assert s == t;
    }
  }

  lemma FitsIsTakesAll(ps: seq<Projected>)
    requires ps != [] && NoneEmpty(ps)
    ensures var items := AllItems(RowsOf(ps));
            ItemsValid(items) && items != [] && (TakesAll(NOTHING, items) <==> WindowFits(ps))
  {
    hide AddAll, Estimate, WithCursor, AllItems, FitsWithoutCursor, ButLastBytes, WindowBytes, ValueCount, FixedBytes, IsLeastSize;
    WholeWindow(ps);
    ButLast(ps);
    var items := AllItems(RowsOf(ps));
    OnlyBytesCount(AddAll(NOTHING, items));
    OnlyBytesCount(AddAll(NOTHING, items[..|items| - 1]));
  }

  /** The first value is always taken, so that the page is never reported corrupt. */
  lemma FirstIsTaken(ps: seq<Projected>)
    requires ps != [] && NoneEmpty(ps)
    ensures var items := AllItems(RowsOf(ps));
            && ItemsValid(items) && items != []
            && Estimate(AddItem(NOTHING, items[0])) == WithCursor(PartBytes(ps[0], 1), 1)
  {
    hide *;
    WholeWindow(ps);
    FirstRowOf(ps);
    FirstItem(RowsOf(ps));
    OneItem(ps[0], 1);
  }

  lemma FirstRowOf(ps: seq<Projected>)
    requires ps != [] && NoneEmpty(ps)
    ensures RowsOf(ps) != [] && RowsOf(ps)[0] == RowOf(ps[0], 1) && ps[0].values != [] && RowOf(ps[0], 1).values == ps[0].values
  {
  }

  lemma OneItem(p: Projected, id: nat)
    requires p.values != [] && RowOf(p, id).values == p.values
    ensures Estimate(AddItem(NOTHING, Item(RowOf(p, id), 0))) == WithCursor(PartBytes(p, 1), 1)
  {
    hide Estimate, WithCursor, SliceFields, Joined, Digits;
    assert p.values[..1] == [p.values[0]];
    OnlyBytesCount(AddItem(NOTHING, Item(RowOf(p, id), 0)));
  }

  lemma FirstItem(rows: seq<Batch>)
    requires rows != [] && rows[0].values != []
    ensures AllItems(rows) != [] && AllItems(rows)[0] == Item(rows[0], 0)
  {
  }

  /** The load answers with a page; it leaves nothing behind exactly when the window
      fits, and then gives the stored batches back. */
  lemma LoadWindow(session: int, ps: seq<Projected>)
    requires Loadable(session, ps)
    ensures var page := LoadPage(session, ps);
            && page.Page? && (page.next.None? <==> WindowFits(ps))
            && (page.next.None? ==> AllRebuilt(page.slices) == ps && forall s :: s in page.slices ==> IsWhole(s))
  {
    var q, rows := LoadQuery(session), RowsOf(ps);
    ItemsOfSelected(q, rows);
    AllSelected(session, 1, ps);
    ItemsAreValid(q, rows, None);
    var items := AllItems(rows);
    if ps == [] {
      assert items == [];
    } else {
      AllItemsCount(1, ps);
      FirstIsTaken(ps);
      FitsIsTakesAll(ps);
      WholeWindow(ps);
      RebuiltAll(ps);
      LoadItems(q, items);
    }
  }

  /** A selection that starts with a value that fits is a page, with a next cursor
      exactly when values remain. */
  lemma SelectionIsPage(q: Query, items: seq<Item>)
    requires ItemsValid(items) && items != [] && q.limit >= 1
    requires Estimate(AddItem(NOTHING, items[0])) <= MAX_HISTORY_PAGE_BYTES
    ensures var s := Select(q, items, NOTHING);
            var page := PageOf(s.0, s.1);
            page.Page? && (page.next.None? <==> !s.1) && page.slices == s.0.slices
  {
    hide *;
    FirstFits(q, items);
    NothingIsExact(items);
    SelectTakesPrefix(q, items, NOTHING);
    var s, n := Select(q, items, NOTHING), Taken(q, items, NOTHING);
    PrefixFacts(q, items);
    PageFromPrefix(q, items, s.0, s.1, n);
    PageKeepsSlices(s.0, s.1);
  }

  lemma PrefixFacts(q: Query, items: seq<Item>)
    requires ItemsValid(items) && TakesPrefix(q, items, NOTHING) && Taken(q, items, NOTHING) >= 1
    ensures var s, n := Select(q, items, NOTHING), Taken(q, items, NOTHING);
            && n <= |items| && Exact(s.0) && Bounded(s.0, s.1) && Flat(s.0.slices) == Flat([]) + items[..n] && (s.1 <==> n < |items|)
            && s.0.slices != [] && CursorAt(s.0.slices) == Cursor(items[n - 1].batch.id, items[n - 1].ordinal)
  {
    hide Select, Taken, Exact, Bounded, Flat, CursorAt, ItemsValid;
  }

  lemma PageKeepsSlices(acc: Acc, more: bool)
    ensures PageOf(acc, more).Page? ==> PageOf(acc, more).slices == acc.slices
  {
  }

  lemma LoadItems(q: Query, items: seq<Item>)
    requires ItemsValid(items) && items != [] && Unfiltered(q) && |items| <= Limit(q) && q.limit >= 1
    requires Estimate(AddItem(NOTHING, items[0])) <= MAX_HISTORY_PAGE_BYTES
    ensures var s := Select(q, items, NOTHING);
            var page := PageOf(s.0, s.1);
            && page.Page? && (page.next.None? <==> TakesAll(NOTHING, items))
            && (page.next.None? ==> page.slices == AddAll(NOTHING, items).slices)
  {
    hide *;
    NothingEstimate();
    SelectAll(q, items, NOTHING);
    SelectionIsPage(q, items);
  }

  lemma NothingEstimate()
    ensures Estimate(NOTHING) <= MAX_HISTORY_PAGE_BYTES && NOTHING.count == 0
  {
    EightDigits(CURSOR_PAGE_FIXED_BYTES + 1 + 8);
  }

  // Documents

  const MAX_REPLAY_DOCUMENT_BYTES: nat := 1024 * 1024
  const MAX_REPLAY_BATCHES: nat := 1024
  const MAX_REPLAY_JSON_NODES: nat := 10_000
  const MAX_SESSION_BYTES: nat := 500_000

  /** JSON nodes of a document, of one batch with its binding, and of one value. */
  const DOCUMENT_NODES: nat := 23
  const BATCH_NODES: nat := 31
  const VALUE_NODES: nat := 8

  datatype Session = Session(id: int, bytes: nat)

  /** What one call intends: the document bytes, and their projection into a session.
      Everything else a call publishes (reference, envelopes, root records) is a
      function of these, so an intent stands for its roots. */
  datatype Intent = Intent(raw: seq<Byte>, session: Session, batches: seq<Projected>)

  predicate UniqueWatches(vs: seq<Value>) {
    forall a, b :: 0 <= a < b < |vs| ==> vs[a].watch != vs[b].watch
  }

  /** The chain of batches that a document must hold. */
  predicate IsChain(session: Session, ps: seq<Projected>) {
    && 1 <= |ps| <= MAX_REPLAY_BATCHES && NoneEmpty(ps)
    && (forall k :: 0 <= k < |ps| ==>
          && ps[k].session == session.id && session.bytes <= ps[k].bytes && UniqueWatches(ps[k].values)
          && ps[k].sequence == ps[0].sequence + k && 0 <= ps[k].captured < MAX_SIGNED_INT64)
    && forall j, k :: 0 <= j < k < |ps| ==> ps[j].captured < ps[k].captured
  }

  /** An intent a caller can have. Every batch stands in the document with its own
      binding, and only the session id is replaced by the projection. */
  predicate ValidIntent(i: Intent) {
    && IsChain(i.session, i.batches) && 1 <= i.session.bytes <= MAX_SESSION_BYTES
    && |i.raw| <= MAX_REPLAY_DOCUMENT_BYTES
    && DOCUMENT_NODES + BATCH_NODES * |i.batches| + VALUE_NODES * ValueCount(i.batches) <= MAX_REPLAY_JSON_NODES
    && TextBytes(i.batches) <= |i.raw| + |i.batches| * i.session.bytes
  }

  lemma {:induction false} ManyValues(ps: seq<Projected>)
    requires NoneEmpty(ps)
    ensures |ps| <= ValueCount(ps) && forall k :: 0 <= k < |ps| ==> |ps[k].values| <= ValueCount(ps)
  {
    if ps != [] {
      ManyValues(ps[1..]);
      assert forall k :: 1 <= k < |ps| ==> ps[k] == ps[1..][k - 1];
    }
  }

  lemma SliceFieldsAreSmall(count: nat)
    requires count <= MAX_HISTORY_VALUES
    ensures 35 < SliceFields(count) <= 40
  {
    DigitsMonotone(count, MAX_HISTORY_VALUES);
    assert Digits(10) == 2 && Digits(100) == 3 && Digits(1000) == 4 && Digits(10_000) == 5;
  }

  /** A page adds at most 42 bytes to each batch. */
  lemma {:induction false} WindowBounds(before: nat, ps: seq<Projected>)
    requires NoneEmpty(ps) && forall k :: 0 <= k < |ps| ==> |ps[k].values| <= MAX_HISTORY_VALUES
    ensures before + TextBytes(ps) <= WindowBytes(before, ps) <= before + TextBytes(ps) + 42 * |ps|
    decreases |ps|
  {
    if ps != [] {
      var p := ps[0];
      SliceFieldsAreSmall(|p.values|);
      assert p.values[..|p.values|] == p.values;
      WindowBounds(before + (if before > 0 then 1 else 0) + PartBytes(p, |p.values|), ps[1..]);
    }
  }

  lemma EstimateIsClose(bytes: nat, count: nat)
    requires count <= MAX_HISTORY_VALUES && bytes <= MAX_HISTORY_PAGE_BYTES
    ensures bytes < WithCursor(bytes, count) <= bytes + 200
    ensures TheSize(FixedBytes(bytes, count, false)) > bytes
  {
    EightDigits(count);
    var fixed := bytes + CURSOR_PAGE_FIXED_BYTES + Digits(count);
    EightDigits(fixed + 8);
  }

  lemma TooManyBytes(bytes: nat, count: nat)
    requires bytes > MAX_HISTORY_PAGE_BYTES
    ensures WithCursor(bytes, count) > MAX_HISTORY_PAGE_BYTES
    ensures TheSize(FixedBytes(bytes, count, false)) > MAX_HISTORY_PAGE_BYTES
  {
  }

  /** At most 255 batches stand in a document. */
  lemma FewBatches(i: Intent)
    requires ValidIntent(i)
    ensures |i.batches| <= 255 && ValueCount(i.batches) <= MAX_HISTORY_VALUES
    ensures forall k :: 0 <= k < |i.batches| ==> |i.batches[k].values| <= MAX_HISTORY_VALUES
  {
    ManyValues(i.batches);
  }

  /** Document bytes and session ids bound the window: it fits whenever the session id,
      repeated in every batch, leaves room. */
  lemma ModestWindowsFit(i: Intent)
    requires ValidIntent(i) && |i.batches| * i.session.bytes + 42 * |i.batches| + 200 <= 3 * 1024 * 1024
    ensures WindowFits(i.batches)
  {
    FewBatches(i);
    WindowBounds(0, i.batches);
    EstimateIsClose(WindowBytes(0, i.batches), ValueCount(i.batches));
    hide WithCursor;
  }

  lemma ProductBound(a: nat, b: nat, x: nat, y: nat)
    requires a <= x && b <= y
    ensures a * b <= x * y
  {
    assert a * b <= x * b <= x * y;
  }

  /** No session id of up to 12,000 bytes overflows the page, whatever the document. */
  lemma ShortSessionsFit(i: Intent)
    requires ValidIntent(i) && i.session.bytes <= 12_000
    ensures WindowFits(i.batches)
  {
    FewBatches(i);
    hide ValidIntent;
    ProductBound(|i.batches|, i.session.bytes, 255, 12_000);
    ModestWindowsFit(i);
  }

  lemma {:induction false} SessionsInText(n: nat, ps: seq<Projected>)
    requires forall k :: 0 <= k < |ps| ==> n <= ps[k].bytes
    ensures |ps| * n <= TextBytes(ps)
  {
    if ps != [] {
      SessionsInText(n, ps[1..]);
      OneMore(|ps| - 1, n);
    }
  }

  lemma OneMore(a: nat, n: nat)
    ensures (a + 1) * n == n + a * n
  {
  }

  /** A session id that, repeated, takes up a whole page always overflows it. */
  lemma LongSessionsOverflow(i: Intent)
    requires ValidIntent(i) && |i.batches| * i.session.bytes > MAX_HISTORY_PAGE_BYTES
    ensures !WindowFits(i.batches)
  {
    FewBatches(i);
    WindowBounds(0, i.batches);
    SessionsInText(i.session.bytes, i.batches);
    TooManyBytes(WindowBytes(0, i.batches), ValueCount(i.batches));
  }

  lemma FirstPartSmall(p: Projected)
    requires 1 <= |p.values| <= MAX_HISTORY_VALUES
    ensures PartBytes(p, 1) <= p.bytes + Joined(p.values) + 41
  {
    SliceFieldsAreSmall(|p.values|);
    JoinedPrefix(p.values, 1);
  }

  lemma {:induction false} JoinedPrefix(vs: seq<Value>, n: nat)
    requires n <= |vs|
    ensures Joined(vs[..n]) <= Joined(vs)
  {
    if n < |vs| {
      JoinedPrefix(vs[..|vs| - 1], n);
      assert vs[..|vs| - 1][..n] == vs[..n];
    } else {
      assert vs[..n] == vs;
    }
  }

  lemma FirstBatchSmall(i: Intent)
    requires ValidIntent(i)
    ensures i.batches[0].bytes + Joined(i.batches[0].values) <= |i.raw| + i.session.bytes
  {
    SessionsInText(i.session.bytes, i.batches[1..]);
    OneMore(|i.batches| - 1, i.session.bytes);
    hide Joined;
  }

  /** Every intent's window can be loaded: no value is too large for a page. */
  lemma WindowsAreLoadable(i: Intent)
    requires ValidIntent(i)
    ensures Loadable(i.session.id, i.batches)
  {
    FewBatches(i);
    FirstBatchSmall(i);
    FirstPartSmall(i.batches[0]);
    hide WithCursor, PartBytes, TextBytes, Joined;
    EstimateIsClose(PartBytes(i.batches[0], 1), 1);
  }

  // A window that overflows

  const LONG_SESSION := Session(1, 20_000)

  function LongBatches(n: nat): (r: seq<Projected>)
    ensures |r| == n
  {
    seq(n, k requires 0 <= k < n => Projected(1, k, k, 0, 21_500, [Value(0, 200, 0)]))
  }

  /** An input within every modelled limit: 255 small batches, projected into a session
      with a long id. The document's bytes stand for its length only. */
  function LongIntent(): Intent {
    Intent(seq(MAX_REPLAY_DOCUMENT_BYTES, _ => 32 as Byte), LONG_SESSION, LongBatches(255))
  }

  lemma {:induction false} LongText(n: nat)
    ensures TextBytes(LongBatches(n)) == 21_700 * n && ValueCount(LongBatches(n)) == n
  {
    if n > 0 {
      var ps := LongBatches(n);
      LongText(n - 1);
      TextSplits(ps[..n - 1], ps[n - 1]);
      CountSplits(ps[..n - 1], ps[n - 1]);
      assert ps[..n - 1] == LongBatches(n - 1) && ps[..n - 1] + [ps[n - 1]] == ps;
    }
  }

  lemma {:induction false} TextSplits(ps: seq<Projected>, p: Projected)
    ensures TextBytes(ps + [p]) == TextBytes(ps) + p.bytes + Joined(p.values)
  {
    if ps == [] {
      assert [] + [p] == [p];
    } else {
      assert (ps + [p])[1..] == ps[1..] + [p];
      TextSplits(ps[1..], p);
    }
  }

  /** An input within every modelled limit whose window does not fit in one page. */
  lemma LongIntentOverflows()
    ensures ValidIntent(LongIntent()) && !WindowFits(LongIntent().batches)
  {
    LongText(255);
    LongChain(255);
    hide LongBatches, IsChain, TextBytes, ValueCount;
    LongSessionsOverflow(LongIntent());
  }

  lemma LongChain(n: nat)
    requires 1 <= n <= MAX_REPLAY_BATCHES
    ensures IsChain(LONG_SESSION, LongBatches(n))
  {
  }
}
