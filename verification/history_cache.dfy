/** The store object: a log of storage versions, the verified-batch cache, the page
    cache, and the query that mixes them with the row streams. */
module HistoryCache {
  import opened Basics
  import opened PageSize
  import opened HistoryPages
  import opened HistoryQueries
  import opened HistoryAnswers
  import opened HistoryStores

  // The row streams

  lemma FirstOfRows(q: Query, store: seq<Batch>, c: Option<Cursor>)
    requires store != []
    ensures Rows(q, store, c) == (if RowSelected(q, store[0], c) then [store[0]] else []) + Rows(q, store[1..], c)
  {
  }

  /** The streams opened at a row are the row stream from that row on. */
  lemma {:induction false} StreamsStartHere(q: Query, store: seq<Batch>, c: Option<Cursor>, i: nat)
    requires Stored(store) && i < |Rows(q, store, c)|
    ensures Rows(q, store, Some(Cursor(Rows(q, store, c)[i].id, 0))) == Rows(q, store, c)[i..]
    decreases |store|
  {
    NoRowsOfNothing(q, store, c);
    hide Rows, SqlSelects, Stored, RowSelected;
    var rows, rest := Rows(q, store, c), Rows(q, store[1..], c);
    var b := store[0];
    StoredRest(store);
    FirstOfRows(q, store, c);
    FirstOfRows(q, store, Some(Cursor(rows[i].id, 0)));
    SelectedByCursor(q, b, c, rows[i].id);
    if RowSelected(q, store[0], c) {
      assert rows == [store[0]] + rest;
      if i == 0 {
        AllBehind(q, store[1..], c, store[0].id);
      } else {
        StreamsStartHere(q, store[1..], c, i - 1);
      }
    } else {
      assert rows == rest;
      StreamsStartHere(q, store[1..], c, i);
    }
  }

  lemma NoRowsOfNothing(q: Query, store: seq<Batch>, c: Option<Cursor>)
    ensures store == [] ==> Rows(q, store, c) == []
  {
  }

  /** Which first rows the streams opened at `id` keep. */
  lemma SelectedByCursor(q: Query, b: Batch, c: Option<Cursor>, id: nat)
    ensures RowSelected(q, b, c) ==> RowSelected(q, b, Some(Cursor(b.id, 0))) && (c.Some? ==> c.value.batch <= b.id)
    ensures b.id < id ==> !RowSelected(q, b, Some(Cursor(id, 0)))
  {
  }

  lemma {:induction false} AllBehind(q: Query, store: seq<Batch>, c: Option<Cursor>, id: nat)
    requires forall i :: 0 <= i < |store| ==> id < store[i].id
    requires c.Some? ==> c.value.batch <= id
    ensures Rows(q, store, Some(Cursor(id, 0))) == Rows(q, store, c)
  {
    if store != [] {
      AllBehind(q, store[1..], c, id);
    }
  }

  /** The verified batch of an id in the cache. */
  function Find(cache: seq<Batch>, id: nat): (r: Option<Batch>)
    ensures r.Some? ==> r.value in cache && r.value.id == id
    ensures r.None? ==> forall b :: b in cache ==> b.id != id
  {
    if cache == [] then None else if cache[0].id == id then Some(cache[0]) else Find(cache[1..], id)
  }

  ghost predicate Within(cache: seq<Batch>, store: seq<Batch>) {
    forall b :: b in cache ==> b in store
  }

  /** A cached batch is the row's batch: ids are unique. */
  lemma HitIsTheRow(store: seq<Batch>, cache: seq<Batch>, row: Batch)
    requires Stored(store) && Within(cache, store) && row in store
    ensures Find(cache, row.id).Some? ==> Find(cache, row.id).value == row
  {
  }

  /** Behind the first row every value counts, and no batch is empty. */
  lemma RestIsNonEmpty(q: Query, rows: seq<Batch>, i: nat, c: Option<Cursor>)
    requires Stored(rows) && i + 1 < |rows| && Unfiltered(q)
    requires c.Some? ==> rows[0].id == c.value.batch
    ensures RowItems(q, rows[i + 1..], c) != []
  {
    var b := rows[i + 1];
    assert rows[0].id < b.id;
    assert rows[i + 1..][0] == b;
    AllMatch(q, b, 0);
  }

  lemma {:induction false} RowItemsValid(q: Query, rows: seq<Batch>, c: Option<Cursor>)
    ensures ItemsValid(RowItems(q, rows, c))
  {
    if rows != [] {
      RowItemsValid(q, rows[1..], c);
      MatchItemsFacts(q, rows[0], StartIn(rows[0], c));
    }
  }

  /** One row of the items, and what a row that its group filters out adds. */
  lemma RowHead(q: Query, rows: seq<Batch>, i: nat, c: Option<Cursor>)
    requires i < |rows|
    ensures RowItems(q, rows[i..], c) ==
            (if GroupSelects(q, rows[i]) then MatchItems(q, rows[i], StartIn(rows[i], c)) else []) + RowItems(q, rows[i + 1..], c)
    ensures !GroupSelects(q, rows[i]) ==> RowItems(q, rows[i..], c) == RowItems(q, rows[i + 1..], c)
    ensures ItemsValid(RowItems(q, rows[i..], c)) && ItemsValid(RowItems(q, rows[i + 1..], c))
    ensures IndexRows(rows[i..]) == IndexOf(rows[i]) + IndexRows(rows[i + 1..])
  {
    assert rows[i..][1..] == rows[i + 1..];
    RowItemsValid(q, rows[i..], c);
    RowItemsValid(q, rows[i + 1..], c);
  }

  lemma LeastIsUnique(fixed: nat, s: nat)
    requires IsLeastSize(fixed, s)
    ensures s == TheSize(fixed)
  {
  }

  /** The page of a finished selection. */
  method FinishPage(acc: Acc, more: bool) returns (r: Response)
    requires acc.slices != [] ==> SliceValid(Last(acc.slices))
    ensures r == if PageOf(acc, more).Corrupt? then CorruptStorage else Answer(PageOf(acc, more))
  {
    if acc.slices == [] && more {
      return CorruptStorage;
    }
    var next := if more then Some(CursorAt(acc.slices)) else None;
    var fixed := FixedBytes(acc.bytes, acc.count, next.Some?);
    var size := EncodedSize(fixed);
    LeastIsUnique(fixed, size);
    return Answer(Page(acc.slices, acc.count, next, size));
  }

  /** The streams opened at the first row that is not cached. */
  datatype Streams = Closed | Open(payload: seq<Batch>, index: seq<IndexRow>)

  /** Streams stay aligned with the row stream, batch by batch. */
  ghost predicate Aligned(streams: Streams, rows: seq<Batch>, i: nat)
    requires i <= |rows|
  {
    streams.Open? ==> streams.payload == rows[i..] && streams.index == IndexRows(rows[i..])
  }

  /** One row's verified batch: from the cache while no stream is open, else from the
      streams, which stay aligned. */
  method NextBatch(q: Query, c: Option<Cursor>, store: seq<Batch>, cache: seq<Batch>, rows: seq<Batch>, i: nat, streams: Streams)
    returns (batch: Option<Batch>, streams': Streams, fetched: seq<Batch>)
    requires Stored(store) && Within(cache, store) && rows == Rows(q, store, c) && i < |rows| && Aligned(streams, rows, i)
    ensures batch == Some(rows[i]) && Aligned(streams', rows, i + 1) && Within(fetched, store)
  {
    var row := rows[i];
    streams', fetched := streams, [];
    HitIsTheRow(store, cache, row);
    if streams.Closed? && Find(cache, row.id).Some? {
      return Find(cache, row.id), streams', fetched;
    }
    if streams'.Closed? {
      StreamsStartHere(q, store, c, i);
      var from := Rows(q, store, Some(Cursor(row.id, 0)));
      streams' := Open(from, IndexRows(from));
    }
    var payload, index;
    assert rows[i..][0] == row && rows[i..][1..] == rows[i + 1..];
    hide Stored, IndexRows, Rows, RowSelected;
    batch, payload, index := FetchBatch(row, streams'.payload, streams'.index);
    streams' := Open(payload, index);
    if batch.Some? {
      fetched := [batch.value];
    }
  }

  /** Only the first row can be the cursor's. */
  lemma OnlyFirstAtCursor(rows: seq<Batch>, i: nat, c: Cursor)
    requires Stored(rows) && i < |rows| && rows[i].id == c.batch
    requires i > 0 ==> rows[0].id == c.batch
    ensures i == 0
  {
  }

  /** A selection's last slice belongs to an earlier row. */
  ghost predicate Behind(acc: Acc, rows: seq<Batch>, i: nat)
    requires i <= |rows|
  {
    acc.slices != [] ==> exists k :: 0 <= k < i && Last(acc.slices).batch == rows[k]
  }

  lemma StillBehind(acc: Acc, rows: seq<Batch>, i: nat)
    requires i < |rows| && Behind(acc, rows, i)
    ensures Behind(acc, rows, i + 1)
  {
  }

  lemma NothingWithin(store: seq<Batch>)
    ensures Within([], store)
  {
  }

  lemma WithinBoth(a: seq<Batch>, b: seq<Batch>, store: seq<Batch>)
    requires Within(a, store) && Within(b, store)
    ensures Within(a + b, store)
  {
  }

  /** Take one row's values, with the look-ahead for a further row. */
  method TakeRow(q: Query, rows: seq<Batch>, i: nat, c: Option<Cursor>, acc0: Acc) returns (acc: Acc, more: bool)
    requires Stored(rows) && i < |rows| && q.limit >= 1 && GroupSelects(q, rows[i])
    requires c.Some? ==> rows[0].id == c.value.batch
    requires StartIn(rows[i], c) <= |rows[i].values|
    requires Behind(acc0, rows, i)
    requires ItemsValid(RowItems(q, rows[i..], c)) && ItemsValid(RowItems(q, rows[i + 1..], c))
    ensures Select(q, RowItems(q, rows[i..], c), acc0) == if more then (acc, true) else Select(q, RowItems(q, rows[i + 1..], c), acc)
    ensures Behind(acc, rows, i + 1)
  {
    RowHead(q, rows, i, c);
    var lastRow := i + 1 == |rows|;
    if lastRow {
      assert rows[i + 1..] == [];
    } else if Unfiltered(q) {
      RestIsNonEmpty(q, rows, i, c);
    }
    assert UniqueWatches(rows[i]);
    assert forall k :: 0 <= k < i ==> rows[k].id < rows[i].id;
    hide Stored, RowItems, Select, ItemsValid, UniqueWatches, Unfiltered, MatchItems;
    acc, more := TakeValues(q, rows[i], StartIn(rows[i], c), acc0, lastRow, RowItems(q, rows[i + 1..], c));
  }

  lemma BadCursor(q: Query, store: seq<Batch>, c: Option<Cursor>)
    ensures CheckCursor(q, Rows(q, store, c), c).Some? ==> Respond(q, store, c) == CheckCursor(q, Rows(q, store, c), c).value
    ensures Rows(q, store, c) == [] && c.Some? ==> Respond(q, store, c) == InvalidCursor
    ensures c.None? ==> CheckCursor(q, Rows(q, store, c), c).None?
  {
  }

  /** At the end of the rows nothing remains to be selected or read. */
  lemma NoRows(q: Query, c: Option<Cursor>, acc: Acc)
    ensures RowItems(q, [], c) == [] && ItemsValid([]) && Select(q, [], acc) == (acc, false) && IndexRows([]) == []
  {
  }

  /** A finished selection is the answer of a proven cursor. */
  lemma PageIsTheAnswer(q: Query, store: seq<Batch>, c: Option<Cursor>, acc: Acc, more: bool)
    requires CheckCursor(q, Rows(q, store, c), c).None?
    requires ItemsValid(RowItems(q, Rows(q, store, c), c))
    requires Select(q, RowItems(q, Rows(q, store, c), c), NOTHING) == (acc, more)
    ensures acc.slices != [] ==> SliceValid(Last(acc.slices))
    ensures Respond(q, store, c) == if PageOf(acc, more).Corrupt? then CorruptStorage else Answer(PageOf(acc, more))
  {
    RowsHoldTheItems(q, store, c);
    SelectTakesPrefix(q, ItemsAfter(q, store, c), NOTHING);
  }

  /** The cursor checks on one row. */
  method CheckRow(q: Query, rows: seq<Batch>, i: nat, c: Option<Cursor>, validated: bool) returns (refused: Option<Response>)
    requires Stored(rows) && i < |rows|
    requires validated <==> c.None? || i > 0
    requires i > 0 ==> CheckCursor(q, rows, c).None?
    ensures refused == CheckCursor(q, rows, c)
    ensures refused.None? && c.Some? ==> rows[0].id == c.value.batch
    ensures refused.None? ==> StartIn(rows[i], c) <= |rows[i].values|
  {
    var b := rows[i];
    var atCursor := c.Some? && b.id == c.value.batch;
    if atCursor {
      OnlyFirstAtCursor(rows, i, c.value);
    }
    if !validated && !atCursor {
      return Some(InvalidCursor);
    }
    if !GroupSelects(q, b) {
      return if atCursor then Some(InvalidCursor) else None;
    }
    if StartIn(b, c) > |b.values| {
      return Some(CorruptStorage);
    }
    if !validated && !Matches(q, b.values[c.value.ordinal]) {
      return Some(InvalidCursor);
    }
    return None;
  }

  lemma StartReading(q: Query, store: seq<Batch>, c: Option<Cursor>)
    requires Stored(store)
    ensures var rows := Rows(q, store, c);
            && Stored(rows) && ItemsValid(RowItems(q, rows, c)) && Behind(NOTHING, rows, 0)
            && Aligned(Closed, rows, 0) && Within([], store)
            && (CheckCursor(q, rows, c).Some? ==> Respond(q, store, c) == CheckCursor(q, rows, c).value)
            && (rows == [] && c.Some? ==> Respond(q, store, c) == InvalidCursor)
            && (c.None? ==> CheckCursor(q, rows, c).None?)
  {
    RowsIncrease(q, store, c);
    RowItemsValid(q, Rows(q, store, c), c);
    BadCursor(q, store, c);
    hide Rows, RowItems, Stored, ItemsValid, CheckCursor, Respond;
  }

  lemma EndAligned(streams: Streams, rows: seq<Batch>)
    requires Aligned(streams, rows, |rows|)
    ensures streams.Open? ==> streams.payload == [] && streams.index == []
  {
    assert rows[|rows|..] == [];
  }

  /** The row loop of a query inside one read transaction. */
  method ReadPage(q: Query, c: Option<Cursor>, store: seq<Batch>, cache: seq<Batch>)
    returns (r: Response, pending: seq<Batch>)
    requires Stored(store) && Within(cache, store) && q.limit >= 1
    ensures r == Respond(q, store, c)
    ensures Within(pending, store)
  {
    hide *;
    pending := [];
    var rows := Rows(q, store, c);
    StartReading(q, store, c);
    ghost var whole := Select(q, RowItems(q, rows, c), NOTHING);
    var streams, acc, more, validated, i := Closed, NOTHING, false, c.None?, 0;
    assert rows[0..] == rows;
    while i < |rows| && !more
      invariant 0 <= i <= |rows| && Aligned(streams, rows, i) && Within(pending, store)
      invariant (validated <==> c.None? || i > 0) && (more ==> i > 0)
      invariant i > 0 ==> CheckCursor(q, rows, c).None?
      invariant ItemsValid(RowItems(q, rows[i..], c))
      invariant whole == if more then (acc, true) else Select(q, RowItems(q, rows[i..], c), acc)
      invariant Behind(acc, rows, i)
      decreases |rows| - i
    {
      var batch, fetched;
      batch, streams, fetched := NextBatch(q, c, store, cache, rows, i, streams);
      WithinBoth(pending, fetched, store);
      pending := pending + fetched;
      RowHead(q, rows, i, c);
      var refused := CheckRow(q, rows, i, c, validated);
      if refused.Some? {
        return refused.value, pending;
      }
      validated := true;
      if !GroupSelects(q, batch.value) {
        StillBehind(acc, rows, i);
        i := i + 1;
        continue;
      }
      acc, more := TakeRow(q, rows, i, c, acc);
      i := i + 1;
    }
    NoRows(q, c, acc);
    if i == |rows| {
      assert rows[i..] == [];
      EndAligned(streams, rows);
    }
    if !more && streams.Open? && (streams.index != [] || streams.payload != []) {
      return CorruptStorage, pending;
    }
    if !validated {
      return InvalidCursor, pending;
    }
    PageIsTheAnswer(q, store, c, acc, more);
    r := FinishPage(acc, more);
  }

  // Limits above the page maximum are one page key

  function PageKey(q: Query): Query {
    q.(limit := Limit(q))
  }

  lemma {:induction false} KeySelects(q: Query, items: seq<Item>, acc: Acc)
    requires ItemsValid(items) && q.limit >= 1
    ensures Select(PageKey(q), items, acc) == Select(q, items, acc)
    decreases |items|
  {
    if items != [] {
      KeySelects(q, items[1..], AddItem(acc, items[0]));
    }
  }

  lemma {:induction false} KeyRows(q: Query, store: seq<Batch>, c: Option<Cursor>)
    ensures Rows(PageKey(q), store, c) == Rows(q, store, c)
  {
    if store != [] {
      KeyRows(q, store[1..], c);
    }
  }

  lemma {:induction false} KeyMatches(q: Query, b: Batch, from: nat)
    ensures MatchItems(PageKey(q), b, from) == MatchItems(q, b, from)
    decreases |b.values| - from
  {
    if from < |b.values| {
      KeyMatches(q, b, from + 1);
    }
  }

  lemma {:induction false} KeyItems(q: Query, store: seq<Batch>, c: Option<Cursor>)
    ensures ItemsAfter(PageKey(q), store, c) == ItemsAfter(q, store, c)
  {
    if store != [] {
      KeyItems(q, store[1..], c);
      KeyMatches(q, store[0], StartIn(store[0], c));
      assert SqlSelects(PageKey(q), store[0]) == SqlSelects(q, store[0]);
    }
  }

  /** Queries with equal page keys have equal answers: the key forgets nothing. */
  lemma KeyAnswers(q: Query, store: seq<Batch>, c: Option<Cursor>)
    requires q.limit >= 1
    ensures Respond(PageKey(q), store, c) == Respond(q, store, c)
  {
    KeyRows(q, store, c);
    KeyItems(q, store, c);
    ItemsAreValid(q, store, c);
    KeySelects(q, ItemsAfter(q, store, c), NOTHING);
    assert CheckCursor(PageKey(q), Rows(q, store, c), c) == CheckCursor(q, Rows(q, store, c), c);
    hide Select, ItemsAfter, Rows, CheckCursor, PageOf, ItemsValid;
  }

  // The store object

  /** An observation of the storage files that is certain: their fingerprint, as the
      version it identifies, and whether that version's integrity was verified. */
  datatype Seen = Seen(version: nat, trusted: bool)

  /** A page answered at some version. */
  datatype PageEntry = PageEntry(key: Query, cursor: Option<Cursor>, version: nat, page: PageResult)

  /** The cache without an id. */
  function Without(cache: seq<Batch>, id: nat): (r: seq<Batch>)
    ensures |r| <= |cache| && forall b :: b in r ==> b in cache
  {
    if cache == [] then [] else (if cache[0].id == id then [] else [cache[0]]) + Without(cache[1..], id)
  }

  /** The pending batches go behind the cached ones, the oldest beyond the capacity
      out. */
  method Merge(cache: seq<Batch>, pending: seq<Batch>, ghost store: seq<Batch>) returns (kept: seq<Batch>)
    requires Within(cache, store) && Within(pending, store)
    ensures Within(kept, store) && |kept| <= VERIFIED_HISTORY_CACHE_BATCHES
  {
    kept := cache;
    var i := 0;
    while i < |pending|
      invariant 0 <= i <= |pending| && Within(kept, store)
    {
      kept := Without(kept, pending[i].id) + [pending[i]];
      i := i + 1;
    }
    while |kept| > VERIFIED_HISTORY_CACHE_BATCHES
      invariant Within(kept, store)
    {
      kept := kept[1..];
    }
  }

  class HistoryStore {
    /** Every storage version so far; other writers extend it between steps. */
    ghost var log: seq<seq<Batch>>
    /** Verified batches, least recently inserted first, and their version. */
    var cache: seq<Batch>
    var cacheVersion: Option<nat>
    var pageCache: Option<PageEntry>

    /** The caches hold what storage held at their versions. */
    ghost predicate Valid()
      reads this
    {
      && (forall v :: 0 <= v < |log| ==> Stored(log[v]))
      && |cache| <= VERIFIED_HISTORY_CACHE_BATCHES
      && (if cacheVersion.Some? then cacheVersion.value < |log| && Within(cache, log[cacheVersion.value]) else cache == [])
      && (pageCache.Some? ==>
            && pageCache.value.version < |log|
            && Respond(pageCache.value.key, log[pageCache.value.version], pageCache.value.cursor) == Answer(pageCache.value.page))
    }

    constructor (store: seq<Batch>)
      requires Stored(store)
      ensures Valid() && log == [store] && cache == [] && pageCache == None
    {
      log := [store];
      cache, cacheVersion, pageCache := [], None, None;
    }

    /** Any writer commits a new version: the caches stay valid untouched. */
    ghost method Commit(store: seq<Batch>)
      requires Valid() && Stored(store)
      modifies this`log
      ensures Valid() && log == old(log) + [store]
    {
      hide Stored, Respond, Within;
      log := log + [store];
    }

    /** The page-cache answer, when one applies. */
    method CachedPage(q: Query, c: Option<Cursor>, before: Option<Seen>, after: Option<Seen>) returns (r: Option<PageResult>)
      requires Valid() && q.limit >= 1
      requires before.Some? ==> before.value.version < |log|
      ensures r.Some? ==> before.Some? && Respond(q, log[before.value.version], c) == Answer(r.value)
    {
      hide Stored, Respond, Within, Limit;
      if before.Some? && before.value.trusted && pageCache.Some? {
        var e := pageCache.value;
        if e.key == PageKey(q) && e.cursor == c && e.version == before.value.version && after == before {
          KeyAnswers(q, log[e.version], c);
          return Some(e.page);
        }
      }
      return None;
    }

    /** A query: answered from the page cache, or read at the storage version `at`,
        partly from the batch cache. Whatever the caches hold, the answer is that of
        plain storage at a version current during the call. */
    method QueryHistory(q: Query, c: Option<Cursor>, before: Option<Seen>, after: Option<Seen>,
                        ghost at: nat, store: seq<Batch>, seen: Option<Seen>, identity: Option<nat>)
      returns (r: Response)
      requires Valid() && q.limit >= 1
      requires before.Some? ==> before.value.version < |log|
      requires at < |log| && store == log[at] && (seen.Some? ==> seen.value.version == at)
      modifies this`cache, this`cacheVersion, this`pageCache
      ensures Valid()
      ensures r == Respond(q, log[at], c) || (before.Some? && r == Respond(q, log[before.value.version], c))
      ensures r.Answer? ==>
                AnswersQuery(q, log[at], c, r.page) || (before.Some? && AnswersQuery(q, log[before.value.version], c, r.page))
    {
      var hit := CachedPage(q, c, before, after);
      if hit.Some? {
        AnswerIsWanted(q, log[before.value.version], c);
        return Answer(hit.value);
      }
      var trusted := [];
      if seen.Some? && seen.value.trusted && cacheVersion == Some(seen.value.version) {
        trusted := cache;
      }
      var pending;
      r, pending := ReadPage(q, c, store, trusted);
      if r.Answer? {
        AnswerIsWanted(q, store, c);
      }
      hide Stored, Respond, AnswersQuery;
      if seen.Some? && r.Answer? {
        var stable := before.Some? && before.value.trusted && before.value.version == seen.value.version
                      && identity == Some(seen.value.version);
        Remember(q, c, seen.value.version, stable, pending, r.page);
      }
    }

    /** Keep what a stable read verified, up to the capacity; forget all otherwise. */
    method Remember(q: Query, c: Option<Cursor>, version: nat, stable: bool, pending: seq<Batch>, page: PageResult)
      requires Valid() && version < |log| && Within(pending, log[version]) && q.limit >= 1
      requires Respond(q, log[version], c) == Answer(page)
      modifies this`cache, this`cacheVersion, this`pageCache
      ensures Valid()
      ensures if stable then cacheVersion == Some(version) else cache == [] && cacheVersion == None && pageCache == None
    {
      KeyAnswers(q, log[version], c);
      hide Stored, Respond, Limit, Within;
      assert Within([], log[version]) by {
        NothingWithin(log[version]);
      }
      if !stable {
        cache, cacheVersion, pageCache := [], None, None;
        return;
      }
      var kept := Merge(if cacheVersion == Some(version) then cache else [], pending, log[version]);
      KeepBatches(version, kept);
      if page.Page? && page.slices != [] {
        KeepPage(PageEntry(PageKey(q), c, version, page));
      }
    }

    method KeepBatches(version: nat, kept: seq<Batch>)
      requires Valid() && version < |log| && Within(kept, log[version]) && |kept| <= VERIFIED_HISTORY_CACHE_BATCHES
      modifies this`cache, this`cacheVersion
      ensures Valid() && cache == kept && cacheVersion == Some(version)
    {
      hide Stored, Respond, Within;
      cache, cacheVersion := kept, Some(version);
    }

    method KeepPage(e: PageEntry)
      requires Valid() && e.version < |log| && Respond(e.key, log[e.version], e.cursor) == Answer(e.page)
      modifies this`pageCache
      ensures Valid() && pageCache == Some(e)
    {
      hide Stored, Respond, Within;
      pageCache := Some(e);
    }
  }
}
