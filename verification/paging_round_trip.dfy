/** End to end: the pages of a window, followed to the end and glued by either
    consumer, are exactly the stored batches of the window. */
module PagingRoundTrip {
  import opened Basics
  import opened PageSize
  import opened HistoryPages
  import opened HistoryQueries
  import opened HistoryStores
  import opened HistoryCache
  import opened Reassembly
  import opened ReassemblyWindow

  function HeaderOf(b: Batch): Header {
    Header(b.meta.session, b.meta.run, b.meta.sequence, b.meta, |b.values|)
  }

  function FragmentOf(s: Slice): Fragment {
    Fragment(HeaderOf(s.batch), s.start, s.values)
  }

  function Fragments(slices: seq<Slice>): (r: seq<Fragment>)
    ensures |r| == |slices|
  {
    seq(|slices|, i requires 0 <= i < |slices| => FragmentOf(slices[i]))
  }

  function WholeOf(b: Batch): Whole {
    Whole(HeaderOf(b), b.values)
  }

  function Wholes(bs: seq<Batch>): (r: seq<Whole>)
    ensures |r| == |bs|
  {
    seq(|bs|, k requires 0 <= k < |bs| => WholeOf(bs[k]))
  }

  /** Batches that a consumer can tell apart. */
  predicate DistinctBatches(wide: bool, bs: seq<Batch>) {
    && (forall k :: 0 <= k < |bs| ==> bs[k].values != [])
    && (forall j, k :: 0 <= j < k < |bs| ==> !SameKey(wide, HeaderOf(bs[j]), HeaderOf(bs[k])))
  }

  function BatchItems(b: Batch, from: nat): seq<Item>
    requires from <= |b.values|
  {
    seq(|b.values| - from, k requires 0 <= k < |b.values| - from => Item(b, from + k))
  }

  function AllItems(bs: seq<Batch>): seq<Item> {
    if bs == [] then [] else BatchItems(bs[0], 0) + AllItems(bs[1..])
  }

  /** The gluing of the first `n` values of some batches. */
  function Partly(bs: seq<Batch>, n: nat): seq<Whole> {
    if bs == [] || n == 0 then []
    else if n < |bs[0].values| then [Whole(HeaderOf(bs[0]), bs[0].values[..n])]
    else [WholeOf(bs[0])] + Partly(bs[1..], n - |bs[0].values|)
  }

  lemma {:induction false} PartlyAll(bs: seq<Batch>)
    requires forall k :: 0 <= k < |bs| ==> bs[k].values != []
    ensures Partly(bs, |AllItems(bs)|) == Wholes(bs)
  {
    if bs != [] {
      PartlyAll(bs[1..]);
      assert Wholes(bs) == [WholeOf(bs[0])] + Wholes(bs[1..]);
    }
  }

  /** The slice that lies at position `n` of the values. */
  ghost predicate LiesAt(bs: seq<Batch>, n: nat, s: Slice) {
    && SliceValid(s) && n + |s.values| <= |AllItems(bs)|
    && AllItems(bs)[n] == Item(s.batch, s.start)
  }

  /** A slice at its place is accepted, and gluing it moves on by its values. */
  lemma {:induction false} SliceGlues(wide: bool, bs: seq<Batch>, n: nat, s: Slice)
    requires DistinctBatches(wide, bs) && LiesAt(bs, n, s)
    ensures Accepts(wide, Partly(bs, n), FragmentOf(s)) && s.batch in bs
    ensures Glue(wide, Partly(bs, n), FragmentOf(s)) == Partly(bs, n + |s.values|)
    decreases |bs|
  {
    hide *;
    LiesAtGives(bs, n, s);
    FirstItems(bs, n);
    var b := bs[0];
    if n < |b.values| {
      SliceOfFirst(wide, bs, n, s);
    } else {
      var rest, m := bs[1..], n - |b.values|;
      RestDistinct(wide, bs);
      LiesInRest(bs, n, s);
      SliceGlues(wide, rest, m, s);
      OtherBatch(wide, bs, s);
      PartlyBehind(bs, n);
      PartlyBehind(bs, n + |s.values|);
      GluePrepend(wide, WholeOf(b), Partly(rest, m), FragmentOf(s));
    }
  }

  lemma FirstItems(bs: seq<Batch>, n: nat)
    requires n < |AllItems(bs)|
    ensures bs != [] && AllItems(bs)[n] == if n < |bs[0].values| then Item(bs[0], n) else AllItems(bs[1..])[n - |bs[0].values|]
  {
  }

  lemma LiesAtGives(bs: seq<Batch>, n: nat, s: Slice)
    requires LiesAt(bs, n, s)
    ensures SliceValid(s) && n < |AllItems(bs)| && AllItems(bs)[n] == Item(s.batch, s.start)
  {
    hide AllItems;
    assert s.values != [] by {
      hide LiesAt;
    }
  }

  lemma PartlyBehind(bs: seq<Batch>, n: nat)
    requires bs != [] && n >= |bs[0].values| > 0
    ensures Partly(bs, n) == [WholeOf(bs[0])] + Partly(bs[1..], n - |bs[0].values|)
  {
  }

  lemma LiesInRest(bs: seq<Batch>, n: nat, s: Slice)
    requires LiesAt(bs, n, s) && bs != [] && n >= |bs[0].values|
    ensures LiesAt(bs[1..], n - |bs[0].values|, s)
  {
  }

  lemma RestDistinct(wide: bool, bs: seq<Batch>)
    requires bs != [] && DistinctBatches(wide, bs)
    ensures DistinctBatches(wide, bs[1..]) && |bs[0].values| > 0
  {
  }

  lemma OtherBatch(wide: bool, bs: seq<Batch>, s: Slice)
    requires bs != [] && DistinctBatches(wide, bs) && s.batch in bs[1..]
    ensures !SameKey(wide, WholeOf(bs[0]).header, FragmentOf(s).header)
  {
    var k :| 0 <= k < |bs[1..]| && bs[1..][k] == s.batch;
    assert bs[k + 1] == s.batch;
  }

  lemma SliceOfFirst(wide: bool, bs: seq<Batch>, n: nat, s: Slice)
    requires bs != [] && n < |bs[0].values| && SliceValid(s) && s.batch == bs[0] && s.start == n
    ensures Accepts(wide, Partly(bs, n), FragmentOf(s))
    ensures Glue(wide, Partly(bs, n), FragmentOf(s)) == Partly(bs, n + |s.values|)
  {
    var b := bs[0];
    var end := n + |s.values|;
    assert b.values[..n] + s.values == b.values[..end];
    assert b.values[..|b.values|] == b.values;
    assert Partly(bs, end) == [Whole(HeaderOf(b), b.values[..end])];
    assert n == 0 ==> s.values == b.values[..end];
  }

  lemma GluePrepend(wide: bool, w: Whole, g: seq<Whole>, f: Fragment)
    requires Accepts(wide, g, f) && !SameKey(wide, w.header, f.header)
    ensures Accepts(wide, [w] + g, f) && Glue(wide, [w] + g, f) == [w] + Glue(wide, g, f)
  {
    var h := [w] + g;
    if g != [] {
      assert h[|h| - 1] == g[|g| - 1];
      assert h[..|h| - 1] == [w] + g[..|g| - 1];
    }
  }

  /** Any cut of whole batches into consecutive slices is coherent and glues back into
      exactly those batches: reassembly inverts slicing. */
  lemma SlicesGlueBack(wide: bool, bs: seq<Batch>, slices: seq<Slice>)
    requires DistinctBatches(wide, bs) && SlicesValid(slices) && Flat(slices) == AllItems(bs)
    ensures Coherent(wide, Fragments(slices)) && Glued(wide, Fragments(slices)) == Wholes(bs)
    ensures Count(Fragments(slices)) == |AllItems(bs)|
  {
    PrefixGlues(wide, bs, slices, |slices|);
    assert slices[..|slices|] == slices;
    PartlyAll(bs);
    assert AllComplete(Wholes(bs));
    CompleteMeans(wide, Fragments(slices));
  }

  lemma {:induction false} PrefixGlues(wide: bool, bs: seq<Batch>, slices: seq<Slice>, p: nat)
    requires DistinctBatches(wide, bs) && SlicesValid(slices) && p <= |slices|
    requires Flat(slices) == AllItems(bs)
    ensures var fs := Fragments(slices[..p]);
            Started(wide, fs) && Glued(wide, fs) == Partly(bs, |Flat(slices[..p])|) && Count(fs) == |Flat(slices[..p])|
    decreases p
  {
    hide Flat, SlicesValid, Started, Partly, Glued, DistinctBatches, Count, Fragments;
    if p > 0 {
      var s, before := slices[p - 1], slices[..p - 1];
      PrefixGlues(wide, bs, slices, p - 1);
      FlatAt(slices, p - 1);
      assert slices[..p] == before + [s];
      StepGlues(wide, bs, before, s, |Flat(before)|);
    } else {
      assert slices[..0] == [];
      NothingGlues(wide, bs);
    }
  }

  lemma NothingGlues(wide: bool, bs: seq<Batch>)
    ensures Started(wide, Fragments([])) && Glued(wide, Fragments([])) == Partly(bs, |Flat([])|) && Count(Fragments([])) == 0
    ensures Flat([]) == []
  {
  }

  lemma StepGlues(wide: bool, bs: seq<Batch>, before: seq<Slice>, s: Slice, n: nat)
    requires DistinctBatches(wide, bs) && LiesAt(bs, n, s)
    requires var fs := Fragments(before); Started(wide, fs) && Glued(wide, fs) == Partly(bs, n) && Count(fs) == n
    ensures var fs, m := Fragments(before + [s]), n + |s.values|;
            Started(wide, fs) && Glued(wide, fs) == Partly(bs, m) && Count(fs) == m
  {
    SliceGlues(wide, bs, n, s);
    FragmentsGrow(before, s);
    hide DistinctBatches, Started, Accepts, Glue, LiesAt, Partly, Glued, Fragments, Count;
    StartedNext(wide, Fragments(before), FragmentOf(s));
  }

  lemma FragmentsGrow(before: seq<Slice>, s: Slice)
    ensures Fragments(before + [s]) == Fragments(before) + [FragmentOf(s)]
    ensures Count(Fragments(before + [s])) == Count(Fragments(before)) + |s.values|
  {
    var fs := Fragments(before + [s]);
    assert fs == Fragments(before) + [FragmentOf(s)];
    assert fs[..|fs| - 1] == Fragments(before);
  }

  lemma {:induction false} FlatPrefix(slices: seq<Slice>, p: nat)
    requires p <= |slices|
    ensures |Flat(slices[..p])| <= |Flat(slices)| && Flat(slices)[..|Flat(slices[..p])|] == Flat(slices[..p])
    decreases |slices|
  {
    if p < |slices| {
      var front := slices[..|slices| - 1];
      FlatPrefix(front, p);
      assert front[..p] == slices[..p];
      assert Flat(slices) == Flat(front) + SliceItems(Last(slices));
    } else {
      assert slices[..p] == slices;
    }
  }

  /** A slice lies behind the values of the slices before it. */
  lemma FlatAt(slices: seq<Slice>, p: nat)
    requires p < |slices| && SlicesValid(slices)
    ensures var n := |Flat(slices[..p])|;
            && |Flat(slices[..p + 1])| == n + |slices[p].values| <= |Flat(slices)|
            && SliceValid(slices[p]) && Flat(slices)[n] == Item(slices[p].batch, slices[p].start)
  {
    var part := slices[..p + 1];
    FlatPrefix(slices, p + 1);
    assert part[..p] == slices[..p];
    assert Flat(part) == Flat(part[..p]) + SliceItems(slices[p]);
    var n := |Flat(slices[..p])|;
    assert Flat(slices)[n] == Flat(part)[n] == SliceItems(slices[p])[0];
  }

  // Cursors of a page are proven by the next query

  /** The item at a position comes from a row that the query selects. */
  lemma {:induction false} ItemsAreSelected(q: Query, store: seq<Batch>, k: nat)
    requires k < |ItemsAfter(q, store, None)|
    ensures var it := ItemsAfter(q, store, None)[k];
            && it.batch in store && SqlSelects(q, it.batch) && GroupSelects(q, it.batch)
            && it.ordinal < |it.batch.values| && Matches(q, it.batch.values[it.ordinal])
    decreases |store|
  {
    var b := store[0];
    var mine := if SqlSelects(q, b) && GroupSelects(q, b) then MatchItems(q, b, 0) else [];
    assert ItemsAfter(q, store, None) == mine + ItemsAfter(q, store[1..], None);
    MatchItemsFacts(q, b, 0);
    hide SqlSelects, GroupSelects, Matches, MatchItems;
    if k >= |mine| {
      ItemsAreSelected(q, store[1..], k - |mine|);
    }
  }

  /** The row of a cursor is the first row of the resumed query. */
  lemma {:induction false} CursorRowIsFirst(q: Query, store: seq<Batch>, b: Batch, o: nat)
    requires Stored(store) && b in store && SqlSelects(q, b)
    ensures var rows := Rows(q, store, Some(Cursor(b.id, o))); rows != [] && rows[0] == b
    decreases |store|
  {
    FirstOfRows(q, store, Some(Cursor(b.id, o)));
    if store[0] != b {
      var j :| 0 <= j < |store| && store[j] == b;
      assert store[0].id < store[j].id && store[1..][j - 1] == b;
      assert Stored(store[1..]);
      hide Stored, SqlSelects, Rows;
      CursorRowIsFirst(q, store[1..], b, o);
    }
  }

  lemma FirstRowProves(q: Query, rows: seq<Batch>, b: Batch, o: nat)
    requires rows != [] && rows[0] == b && GroupSelects(q, b) && o < |b.values| && Matches(q, b.values[o])
    ensures CheckCursor(q, rows, Some(Cursor(b.id, o))).None?
  {
  }

  /** A cursor that a page hands out is accepted by the next query. */
  lemma CursorIsProven(q: Query, store: seq<Batch>, k: nat)
    requires Stored(store) && k <= |ItemsAfter(q, store, None)|
    ensures var c := CursorBefore(ItemsAfter(q, store, None), k); CheckCursor(q, Rows(q, store, c), c).None?
  {
    if k > 0 {
      hide Rows, ItemsAfter, Stored, SqlSelects, GroupSelects, Matches, CheckCursor;
      ItemsAreSelected(q, store, k - 1);
      var it := ItemsAfter(q, store, None)[k - 1];
      CursorRowIsFirst(q, store, it.batch, it.ordinal);
      FirstRowProves(q, Rows(q, store, Some(Cursor(it.batch.id, it.ordinal))), it.batch, it.ordinal);
    } else {
      hide Rows, ItemsAfter;
    }
  }

  /** The row a cursor points into, field by field. */
  predicate IsCursorRow(q: Query, b: Batch, c: Cursor) {
    && b.id == c.batch && b.meta.session == q.session && q.start <= b.meta.captured && b.meta.captured < q.end
    && (q.run == None || q.run == Some(b.meta.run))
    && (q.watch == None || exists o :: 0 <= o < |b.values| && q.watch == Some(b.values[o].watch))
  }

  /** A cursor into a row is refused exactly if the row's group is another one or the
      value there has another watch, and is corrupt exactly if the row is too short. */
  lemma CursorRowDecides(q: Query, store: seq<Batch>, b: Batch, c: Cursor)
    requires Stored(store) && b in store && IsCursorRow(q, b, c)
    ensures CheckCursor(q, Rows(q, store, Some(c)), Some(c)) ==
            if q.group != None && q.group != Some(b.meta.group) then Some(InvalidCursor)
            else if c.ordinal >= |b.values| then Some(CorruptStorage)
            else if q.watch != None && q.watch != Some(b.values[c.ordinal].watch) then Some(InvalidCursor)
            else None
  {
    CursorRowIsFirst(q, store, b, c.ordinal);
    hide Rows, Stored;
  }

  /** A cursor that points into no such row is refused. */
  lemma NoCursorRow(q: Query, store: seq<Batch>, c: Cursor)
    requires forall b :: b in store ==> !IsCursorRow(q, b, c)
    ensures CheckCursor(q, Rows(q, store, Some(c)), Some(c)) == Some(InvalidCursor)
  {
    hide IsCursorRow;
    var rows := Rows(q, store, Some(c));
    if rows != [] && rows[0].id == c.batch {
      SelectedIsCursorRow(q, rows[0], c);
    }
  }

  lemma SelectedIsCursorRow(q: Query, b: Batch, c: Cursor)
    requires RowSelected(q, b, Some(c)) && b.id == c.batch
    ensures IsCursorRow(q, b, c)
  {
  }

  /** Different positions have different cursors. */
  lemma CursorsDiffer(q: Query, store: seq<Batch>, j: nat, k: nat)
    requires Stored(store) && j < k <= |ItemsAfter(q, store, None)|
    ensures CursorBefore(ItemsAfter(q, store, None), j) != CursorBefore(ItemsAfter(q, store, None), k)
  {
    if j > 0 {
      CursorResumes(q, store, j - 1);
      CursorResumes(q, store, k - 1);
    }
  }

  ghost predicate EveryValueFits(q: Query, store: seq<Batch>) {
    var all := ItemsAfter(q, store, None);
    ItemsValid(all) && EachFits(all)
  }

  /** Cursors seen so far belong to earlier positions. */
  ghost predicate SeenBefore(seen: set<Cursor>, all: seq<Item>, from: nat)
    requires from <= |all|
  {
    forall c :: c in seen ==> exists j :: 0 <= j <= from && CursorBefore(all, j) == Some(c)
  }

  lemma NotSeen(q: Query, store: seq<Batch>, seen: set<Cursor>, from: nat, next: nat)
    requires Stored(store) && from < next <= |ItemsAfter(q, store, None)|
    requires SeenBefore(seen, ItemsAfter(q, store, None), from)
    ensures var c := CursorBefore(ItemsAfter(q, store, None), next);
            c.Some? && c.value !in seen && SeenBefore(seen + {c.value}, ItemsAfter(q, store, None), next)
  {
    var all := ItemsAfter(q, store, None);
    forall j | 0 <= j <= from
      ensures CursorBefore(all, j) != CursorBefore(all, next)
    {
      CursorsDiffer(q, store, j, next);
    }
    assert CursorBefore(all, next).Some?;
    hide Stored, ItemsAfter, CursorBefore;
  }

  /** A page at a position answers the run from there. */
  lemma PageAnswers(q: Query, store: seq<Batch>, from: nat)
    requires Stored(store) && q.limit >= 1 && EveryValueFits(q, store) && from <= |ItemsAfter(q, store, None)|
    ensures var all := ItemsAfter(q, store, None);
            var r := Respond(q, store, CursorBefore(all, from));
            r.Answer? && IsRun(all, from, r.page)
  {
    PageIsARun(q, store, from);
    CursorIsProven(q, store, from);
    hide IsRun, EachFits, ItemsValid, Stored, CheckCursor;
  }

  lemma {:induction false} FlatAppend(a: seq<Slice>, b: seq<Slice>)
    ensures Flat(a + b) == Flat(a) + Flat(b)
    decreases |b|
  {
    if b == [] {
      assert a + b == a;
    } else {
      var front := b[..|b| - 1];
      FlatAppend(a, front);
      assert (a + b)[..|a + b| - 1] == a + front;
      assert Flat(a + b) == Flat(a) + Flat(front) + SliceItems(Last(b));
    }
  }

  /** The run of a page extends the slices read so far. */
  lemma PageExtends(all: seq<Item>, from: nat, slices: seq<Slice>, p: PageResult)
    requires from <= |all| && IsRun(all, from, p) && Flat(slices) == all[..from] && SlicesValid(slices)
    ensures p.Page? && from + p.count <= |all| && Flat(slices + p.slices) == all[..from + p.count] && SlicesValid(slices + p.slices)
    ensures p.next.Some? ==> p.count > 0 && p.next == CursorBefore(all, from + p.count)
    ensures p.next.None? ==> from + p.count == |all|
  {
    FlatAppend(slices, p.slices);
    assert all[..from] + all[from..from + p.count] == all[..from + p.count];
    hide Flat, IsLeastSize, TotalBytes, FixedBytes;
  }

  lemma NothingCollected(all: seq<Item>, store: seq<Batch>)
    ensures CursorBefore(all, 0) == None && SlicesValid([]) && Flat([]) == all[..0] && SeenBefore({}, all, 0)
    ensures Within([], store)
  {
  }

  /** Both consumers' paging loop: it ends, no cursor repeats, no page is refused, and
      the slices hold exactly the matching values. */
  method CollectSlices(q: Query, store: seq<Batch>) returns (r: Option<seq<Slice>>)
    requires Stored(store) && q.limit >= 1 && EveryValueFits(q, store)
    ensures r.Some? && SlicesValid(r.value) && Flat(r.value) == ItemsAfter(q, store, None)
  {
    ghost var all := ItemsAfter(q, store, None);
    ghost var from := 0;
    var slices, cursor, seen := [], None, {};
    hide *;
    NothingCollected(all, store);
    while true
      invariant 0 <= from <= |all| && cursor == CursorBefore(all, from)
      invariant SlicesValid(slices) && Flat(slices) == all[..from] && SeenBefore(seen, all, from)
      decreases |all| - from
    {
      PageAnswers(q, store, from);
      var answer, pending := ReadPage(q, cursor, store, []);
      if !answer.Answer? {
        return None;
      }
      var page := answer.page;
      PageExtends(all, from, slices, page);
      slices := slices + page.slices;
      if page.next.None? {
        assert all[..|all|] == all;
        return Some(slices);
      }
      NotSeen(q, store, seen, from, from + page.count);
      if page.next.value in seen {
        return None;
      }
      seen := seen + {page.next.value};
      cursor, from := page.next, from + page.count;
    }
  }

  // The batches of a window

  /** The stored batches of a window. */
  function Selected(q: Query, store: seq<Batch>): (r: seq<Batch>)
    ensures forall b :: b in r ==> b in store && SqlSelects(q, b)
  {
    if store == [] then []
    else (if SqlSelects(q, store[0]) && GroupSelects(q, store[0]) then [store[0]] else []) + Selected(q, store[1..])
  }

  lemma {:induction false} AllOfBatch(q: Query, b: Batch, from: nat)
    requires q.watch.None? && from <= |b.values|
    ensures MatchItems(q, b, from) == BatchItems(b, from)
    decreases |b.values| - from
  {
    if from < |b.values| {
      AllOfBatch(q, b, from + 1);
      assert BatchItems(b, from) == [Item(b, from)] + BatchItems(b, from + 1);
    }
  }

  lemma {:induction false} ItemsOfSelected(q: Query, store: seq<Batch>)
    requires q.watch.None?
    ensures ItemsAfter(q, store, None) == AllItems(Selected(q, store))
  {
    if store != [] {
      ItemsOfSelected(q, store[1..]);
      AllOfBatch(q, store[0], 0);
      var rest := Selected(q, store[1..]);
      assert ([store[0]] + rest)[1..] == rest && [] + rest == rest;
      hide SqlSelects, GroupSelects, MatchItems, BatchItems;
      assert Selected(q, store) == if SqlSelects(q, store[0]) && GroupSelects(q, store[0]) then [store[0]] + rest else rest;
    }
  }

  /** The table's unique key: run and sequence. */
  predicate UniqueSequences(store: seq<Batch>) {
    forall j, k :: 0 <= j < k < |store| ==>
      !(store[j].meta.run == store[k].meta.run && store[j].meta.sequence == store[k].meta.sequence)
  }

  lemma UniqueRest(wide: bool, store: seq<Batch>)
    requires store != [] && UniqueSequences(store)
    ensures UniqueSequences(store[1..])
    ensures forall b :: b in store[1..] ==> !SameKey(wide, HeaderOf(store[0]), HeaderOf(b))
  {
    var rest := store[1..];
    assert forall k :: 0 <= k < |rest| ==> rest[k] == store[k + 1];
  }

  lemma DistinctFront(wide: bool, b: Batch, rest: seq<Batch>)
    requires DistinctBatches(wide, rest) && b.values != []
    requires forall k :: 0 <= k < |rest| ==> !SameKey(wide, HeaderOf(b), HeaderOf(rest[k]))
    ensures DistinctBatches(wide, [b] + rest)
  {
    hide SameKey;
  }

  /** Stored batches are told apart by either consumer's key. */
  lemma {:induction false} SelectedAreDistinct(wide: bool, q: Query, store: seq<Batch>)
    requires Stored(store) && UniqueSequences(store)
    ensures DistinctBatches(wide, Selected(q, store))
  {
    if store != [] {
      assert store[0].values != [];
      hide SqlSelects, GroupSelects, Stored, UniqueSequences, DistinctBatches, SameKey;
      var rest := Selected(q, store[1..]);
      StoredRest(store);
      UniqueRest(wide, store);
      SelectedAreDistinct(wide, q, store[1..]);
      forall k | 0 <= k < |rest|
        ensures !SameKey(wide, HeaderOf(store[0]), HeaderOf(rest[k]))
      {
        assert rest[k] in rest;
      }
      DistinctFront(wide, store[0], rest);
      assert [] + rest == rest;
    }
  }

  /** What a consumer returns for a stored window. */
  function StoredWindow(q: Query, store: seq<Batch>, w: Wanted, atMost: nat): Option<seq<Whole>> {
    var bs := Selected(q, store);
    if bs != [] && |bs| <= atMost && |AllItems(bs)| <= MAX_HISTORY_VALUES && Named(Wholes(bs)) == Expected(w.run, w.from, w.to)
    then Some(Wholes(bs)) else None
  }

  /** A stored batch of the window, field by field. */
  predicate InWindow(q: Query, b: Batch) {
    && b.meta.session == q.session && q.start <= b.meta.captured && b.meta.captured < q.end
    && (q.run == None || q.run == Some(b.meta.run))
    && (q.group == None || q.group == Some(b.meta.group))
    && (q.watch == None || exists o :: 0 <= o < |b.values| && q.watch == Some(b.values[o].watch))
  }

  lemma {:induction false} SelectedExactly(q: Query, store: seq<Batch>)
    ensures forall b :: b in Selected(q, store) <==> b in store && InWindow(q, b)
  {
    if store != [] {
      SelectedExactly(q, store[1..]);
      assert store == [store[0]] + store[1..];
    }
  }

  /** An accepted window holds exactly the wanted sequences of the run, each once and in
      order, with all values of the stored batches. */
  lemma WindowExactly(q: Query, store: seq<Batch>, w: Wanted, atMost: nat)
    requires StoredWindow(q, store, w, atMost).Some?
    ensures var ws := StoredWindow(q, store, w, atMost).value;
            && w.from < w.to && |ws| == w.to - w.from <= atMost
            && forall k :: 0 <= k < |ws| ==>
                 && ws[k].header.run == w.run && ws[k].header.sequence == w.from + k
                 && exists b :: b in store && InWindow(q, b) && b.meta.run == w.run && b.meta.sequence == w.from + k
                                && ws[k].values == b.values && ws[k].header == HeaderOf(b)
  {
    var bs := Selected(q, store);
    SelectedExactly(q, store);
    hide InWindow, Selected;
    NamesExactly(bs, w);
    forall k | 0 <= k < |bs|
      ensures exists b :: b in store && InWindow(q, b) && b.meta.run == w.run && b.meta.sequence == w.from + k
                          && Wholes(bs)[k].values == b.values && Wholes(bs)[k].header == HeaderOf(b)
    {
      assert bs[k] in bs && Wholes(bs)[k] == WholeOf(bs[k]);
    }
  }

  lemma NamesExactly(bs: seq<Batch>, w: Wanted)
    requires Named(Wholes(bs)) == Expected(w.run, w.from, w.to)
    ensures |bs| == if w.from <= w.to then w.to - w.from else 0
    ensures forall k :: 0 <= k < |bs| ==> bs[k].meta.run == w.run && bs[k].meta.sequence == w.from + k
  {
    forall k | 0 <= k < |bs|
      ensures bs[k].meta.run == w.run && bs[k].meta.sequence == w.from + k
    {
      assert Named(Wholes(bs))[k] == Expected(w.run, w.from, w.to)[k];
    }
  }

  /** And a window of stored batches that holds just these is accepted. */
  lemma WindowIsAccepted(q: Query, store: seq<Batch>, w: Wanted, atMost: nat)
    requires var bs := Selected(q, store);
             && bs != [] && |bs| <= atMost && |AllItems(bs)| <= 10_000 && |bs| == w.to - w.from
             && forall k :: 0 <= k < |bs| ==> bs[k].meta.run == w.run && bs[k].meta.sequence == w.from + k
    ensures StoredWindow(q, store, w, atMost) == Some(Wholes(Selected(q, store)))
  {
    hide Selected;
    var bs := Selected(q, store);
    assert Named(Wholes(bs)) == Expected(w.run, w.from, w.to);
  }

  lemma SlicesDecide(wide: bool, q: Query, store: seq<Batch>, slices: seq<Slice>, w: Wanted, atMost: nat)
    requires Stored(store) && UniqueSequences(store) && q.watch.None?
    requires SlicesValid(slices) && Flat(slices) == ItemsAfter(q, store, None)
    ensures Window(wide, Fragments(slices), w, atMost) == StoredWindow(q, store, w, atMost)
  {
    var bs := Selected(q, store);
    SelectedAreDistinct(wide, q, store);
    ItemsOfSelected(q, store);
    SlicesGlueBack(wide, bs, slices);
    assert slices == [] <==> bs == [] by {
      assert |Glued(wide, Fragments(slices))| == |bs|;
      GluedMirrors(wide, Fragments(slices));
    }
    hide Stored, UniqueSequences, Coherent, Glued, Selected, Flat, DistinctBatches, AllItems;
  }

  /** The physical consumer, end to end. */
  method PhysicalHistoryBatches(q: Query, store: seq<Batch>, w: Wanted) returns (r: Option<seq<Whole>>)
    requires Stored(store) && UniqueSequences(store) && q.limit >= 1 && q.watch.None? && EveryValueFits(q, store)
    ensures r == StoredWindow(q, store, w, MAX_REPLAY_BATCHES)
  {
    var slices := CollectSlices(q, store);
    SlicesDecide(true, q, store, slices.value, w, MAX_REPLAY_BATCHES);
    r := GluePhysical(Fragments(slices.value), w);
  }

  /** The analysis consumer, end to end. */
  method QueryWindow(q: Query, store: seq<Batch>, w: Wanted) returns (r: Option<seq<Whole>>)
    requires Stored(store) && UniqueSequences(store) && q.limit >= 1 && q.watch.None? && EveryValueFits(q, store)
    requires w.from < w.to
    ensures r == StoredWindow(q, store, w, w.to - w.from)
  {
    var slices := CollectSlices(q, store);
    SlicesDecide(false, q, store, slices.value, w, w.to - w.from);
    r := GlueWindow(Fragments(slices.value), w);
  }
}
