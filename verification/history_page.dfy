/** History pages as a greedy prefix of the matching values, and what following the
    cursor to the end yields. */
module HistoryPages {
  import opened Basics
  import opened PageSize

  const MAX_HISTORY_VALUES: nat := 10_000

  /** A stored value: its watch and the length of its JSON. */
  datatype Value = Value(watch: int, bytes: nat, payload: int)

  /** Everything a slice repeats about its batch. */
  datatype Meta = Meta(session: int, run: int, sequence: nat, captured: int, group: int, rest: int)

  /** `fixed` is the length of a slice's JSON without the start ordinal and values. */
  datatype Batch = Batch(id: nat, meta: Meta, fixed: nat, values: seq<Value>)

  /** Filters of a query; `limit` is the caller's, at least 1. */
  datatype Query = Query(session: int, start: int, end: int, limit: nat, run: Option<int>, group: Option<int>, watch: Option<int>)

  datatype Cursor = Cursor(batch: nat, ordinal: nat)

  /** One matching value, by its batch and position. */
  datatype Item = Item(batch: Batch, ordinal: nat)

  datatype Slice = Slice(batch: Batch, start: nat, values: seq<Value>)

  predicate Matches(q: Query, v: Value) {
    q.watch.None? || v.watch == q.watch.value
  }

  /** The clauses of the row query: window, run and, with a selector, a match. */
  predicate SqlSelects(q: Query, b: Batch) {
    && b.meta.session == q.session && q.start <= b.meta.captured < q.end
    && (q.run.Some? ==> b.meta.run == q.run.value)
    && (q.watch.Some? ==> exists o :: 0 <= o < |b.values| && b.values[o].watch == q.watch.value)
  }

  predicate GroupSelects(q: Query, b: Batch) {
    q.group.Some? ==> b.meta.group == q.group.value
  }

  /** What storage guarantees: ids increase from 1, no batch is empty and, since a
      group's watches are unique, no batch repeats a watch. */
  predicate Stored(store: seq<Batch>) {
    && (forall i :: 0 <= i < |store| ==> store[i].id >= 1 && store[i].values != [])
    && (forall i, j :: 0 <= i < j < |store| ==> store[i].id < store[j].id)
    && (forall i, a, b :: 0 <= i < |store| && 0 <= a < b < |store[i].values| ==>
          store[i].values[a].watch != store[i].values[b].watch)
  }

  function MatchItems(q: Query, b: Batch, from: nat): seq<Item>
    decreases |b.values| - from
  {
    if from >= |b.values| then []
    else (if Matches(q, b.values[from]) then [Item(b, from)] else []) + MatchItems(q, b, from + 1)
  }

  function StartIn(b: Batch, c: Option<Cursor>): nat {
    if c.Some? && b.id == c.value.batch then c.value.ordinal + 1 else 0
  }

  /** The matching values behind a cursor, in (batch, ordinal) order. */
  function ItemsAfter(q: Query, store: seq<Batch>, c: Option<Cursor>): seq<Item> {
    if store == [] then []
    else
      var b, rest := store[0], ItemsAfter(q, store[1..], c);
      if !SqlSelects(q, b) || !GroupSelects(q, b) || (c.Some? && b.id < c.value.batch) then rest
      else MatchItems(q, b, StartIn(b, c)) + rest
  }

  // Serialized sizes

  function Joined(vs: seq<Value>): nat {
    if vs == [] then 0 else if |vs| == 1 then vs[0].bytes else Joined(vs[..|vs| - 1]) + 1 + vs[|vs| - 1].bytes
  }

  /** The length of a slice's JSON. */
  function SliceBytes(s: Slice): nat {
    s.batch.fixed + Digits(s.start) + Joined(s.values)
  }

  /** The length of the slices' JSON with commas between them. */
  function TotalBytes(slices: seq<Slice>): nat {
    if slices == [] then 0
    else if |slices| == 1 then SliceBytes(slices[0])
    else TotalBytes(slices[..|slices| - 1]) + 1 + SliceBytes(slices[|slices| - 1])
  }

  /** What a page has selected so far, with its running byte and value counts. */
  datatype Acc = Acc(slices: seq<Slice>, bytes: nat, count: nat)

  const NOTHING := Acc([], 0, 0)

  function Last(slices: seq<Slice>): Slice
    requires slices != []
  {
    slices[|slices| - 1]
  }

  predicate Extends(slices: seq<Slice>, it: Item) {
    slices != [] && Last(slices).batch == it.batch && it.ordinal == Last(slices).start + |Last(slices).values|
  }

  function AddItem(acc: Acc, it: Item): Acc
    requires it.ordinal < |it.batch.values|
  {
    var v := it.batch.values[it.ordinal];
    var n := |acc.slices|;
    if Extends(acc.slices, it) then
      Acc(acc.slices[..n - 1] + [Last(acc.slices).(values := Last(acc.slices).values + [v])],
          acc.bytes + 1 + v.bytes, acc.count + 1)
    else
      var s := Slice(it.batch, it.ordinal, [v]);
      Acc(acc.slices + [s], acc.bytes + (if n > 0 then 1 else 0) + SliceBytes(s), acc.count + 1)
  }

  /** The size reserved for a page that still needs a cursor. */
  function Estimate(acc: Acc): nat {
    var fixed := acc.bytes + CURSOR_PAGE_FIXED_BYTES + Digits(acc.count);
    fixed + Digits(fixed + 8)
  }

  predicate Unfiltered(q: Query) {
    q.watch.None? && q.group.None?
  }

  ghost predicate FitsWithoutCursor(acc: Acc) {
    exists s: nat :: IsLeastSize(FixedBytes(acc.bytes, acc.count, false), s) && s <= MAX_HISTORY_PAGE_BYTES
  }

  predicate ItemsValid(items: seq<Item>) {
    forall k :: 0 <= k < |items| ==> items[k].ordinal < |items[k].batch.values|
  }

  function Limit(q: Query): nat {
    if q.limit < MAX_HISTORY_VALUES then q.limit else MAX_HISTORY_VALUES
  }

  /** The greedy selection: take values while they fit, and an overlong last value
      of an unfiltered query when the page fits without a cursor. The flag tells
      whether values remain. */
  ghost function Select(q: Query, items: seq<Item>, acc: Acc): (r: (Acc, bool))
    requires ItemsValid(items)
    decreases |items|
  {
    if items == [] then (acc, false)
    else if acc.count >= Limit(q) then (acc, true)
    else
      var next := AddItem(acc, items[0]);
      if Estimate(next) > MAX_HISTORY_PAGE_BYTES && !(Unfiltered(q) && |items| == 1 && FitsWithoutCursor(next)) then (acc, true)
      else Select(q, items[1..], next)
  }

  /** A page, or the corruption report for a value that fits no page. */
  datatype PageResult = Corrupt | Page(slices: seq<Slice>, count: nat, next: Option<Cursor>, size: nat)

  ghost function TheSize(fixed: nat): (s: nat)
    ensures IsLeastSize(fixed, s)
  {
    SizeFrom(fixed, fixed + 1);
    LeastSizeExists(fixed);
    var s: nat :| IsLeastSize(fixed, s);
    s
  }

  lemma LeastSizeExists(fixed: nat)
    requires exists t: nat :: IsSize(fixed, t)
    ensures exists s: nat :: IsLeastSize(fixed, s)
  {
    var t: nat :| IsSize(fixed, t);
    LeastFrom(fixed, t);
  }

  lemma LeastFrom(fixed: nat, t: nat)
    requires IsSize(fixed, t)
    ensures exists s: nat :: IsLeastSize(fixed, s)
    decreases t
  {
    if !IsLeastSize(fixed, t) {
      var u: nat :| IsSize(fixed, u) && u < t;
      LeastFrom(fixed, u);
    }
  }

  function CursorAt(slices: seq<Slice>): Cursor
    requires slices != [] && Last(slices).start + |Last(slices).values| >= 1
  {
    Cursor(Last(slices).batch.id, Last(slices).start + |Last(slices).values| - 1)
  }

  /** The slices of a selection hold batch values in place. */
  predicate SliceValid(s: Slice) {
    && s.values != [] && s.start + |s.values| <= |s.batch.values|
    && s.values == s.batch.values[s.start..s.start + |s.values|]
  }

  predicate SlicesValid(slices: seq<Slice>) {
    forall k :: 0 <= k < |slices| ==> SliceValid(slices[k])
  }

  ghost function PageOf(acc: Acc, more: bool): PageResult {
    if acc.slices == [] && more then Corrupt
    else
      var next := if more && SliceValid(Last(acc.slices)) then Some(CursorAt(acc.slices)) else None;
      Page(acc.slices, acc.count, next, TheSize(FixedBytes(acc.bytes, acc.count, next.Some?)))
  }

  /** The page a query and cursor call for. */
  ghost function QueryPage(q: Query, store: seq<Batch>, c: Option<Cursor>): PageResult
  {
    ItemsAreValid(q, store, c);
    var r := Select(q, ItemsAfter(q, store, c), NOTHING);
    PageOf(r.0, r.1)
  }

  // Items

  lemma {:induction false} MatchItemsFacts(q: Query, b: Batch, from: nat)
    ensures forall k :: 0 <= k < |MatchItems(q, b, from)| ==>
              var it := MatchItems(q, b, from)[k];
              it.batch == b && from <= it.ordinal < |b.values| && Matches(q, b.values[it.ordinal])
    decreases |b.values| - from
  {
    if from < |b.values| {
      MatchItemsFacts(q, b, from + 1);
    }
  }

  lemma {:induction false} ItemsAreValid(q: Query, store: seq<Batch>, c: Option<Cursor>)
    ensures ItemsValid(ItemsAfter(q, store, c))
  {
    if store != [] {
      ItemsAreValid(q, store[1..], c);
      MatchItemsFacts(q, store[0], StartIn(store[0], c));
    }
  }

  // Flattening

  function SliceItems(s: Slice): seq<Item> {
    seq(|s.values|, i requires 0 <= i < |s.values| => Item(s.batch, s.start + i))
  }

  function Flat(slices: seq<Slice>): seq<Item> {
    if slices == [] then [] else Flat(slices[..|slices| - 1]) + SliceItems(Last(slices))
  }

  /** A selection accounts for itself: valid slices, exact bytes and count. */
  ghost predicate Exact(acc: Acc) {
    SlicesValid(acc.slices) && acc.bytes == TotalBytes(acc.slices) && acc.count == |Flat(acc.slices)|
  }

  lemma AddItemIsExact(acc: Acc, it: Item)
    requires Exact(acc) && it.ordinal < |it.batch.values|
    ensures Exact(AddItem(acc, it)) && Flat(AddItem(acc, it).slices) == Flat(acc.slices) + [it]
    ensures AddItem(acc, it).slices != [] && SliceValid(Last(AddItem(acc, it).slices))
    ensures CursorAt(AddItem(acc, it).slices) == Cursor(it.batch.id, it.ordinal)
  {
    if Extends(acc.slices, it) {
      LastGrows(acc, it);
    } else {
      NewSlice(acc, it);
    }
  }

  lemma LastGrows(acc: Acc, it: Item)
    requires Exact(acc) && it.ordinal < |it.batch.values| && Extends(acc.slices, it)
    ensures Exact(AddItem(acc, it)) && Flat(AddItem(acc, it).slices) == Flat(acc.slices) + [it]
    ensures AddItem(acc, it).slices != [] && SliceValid(Last(AddItem(acc, it).slices))
    ensures CursorAt(AddItem(acc, it).slices) == Cursor(it.batch.id, it.ordinal)
  {
    hide Digits, Joined;
    var next := AddItem(acc, it);
    var n := |acc.slices|;
    var v := it.batch.values[it.ordinal];
    var last := Last(acc.slices);
    assert SliceValid(last);
    var grown := last.(values := last.values + [v]);
    assert next.slices[..n - 1] == acc.slices[..n - 1];
    assert SliceItems(grown) == SliceItems(last) + [it];
    JoinedGrows(last.values, v);
    assert SliceValid(grown);
  }

  lemma NewSlice(acc: Acc, it: Item)
    requires Exact(acc) && it.ordinal < |it.batch.values| && !Extends(acc.slices, it)
    ensures Exact(AddItem(acc, it)) && Flat(AddItem(acc, it).slices) == Flat(acc.slices) + [it]
    ensures AddItem(acc, it).slices != [] && SliceValid(Last(AddItem(acc, it).slices))
    ensures CursorAt(AddItem(acc, it).slices) == Cursor(it.batch.id, it.ordinal)
  {
    var next := AddItem(acc, it);
    hide Digits, Joined, SliceBytes;
    assert next.slices[..|acc.slices|] == acc.slices;
    assert SliceItems(Last(next.slices)) == [it];
  }

  lemma JoinedGrows(vs: seq<Value>, v: Value)
    requires vs != []
    ensures Joined(vs + [v]) == Joined(vs) + 1 + v.bytes
  {
    assert (vs + [v])[..|vs|] == vs;
  }

  /** How many of the items a selection takes. */
  ghost function Taken(q: Query, items: seq<Item>, acc: Acc): (n: nat)
    requires ItemsValid(items)
    ensures n <= |items|
    decreases |items|
  {
    if items == [] || acc.count >= Limit(q) then 0
    else
      var next := AddItem(acc, items[0]);
      if Estimate(next) > MAX_HISTORY_PAGE_BYTES && !(Unfiltered(q) && |items| == 1 && FitsWithoutCursor(next)) then 0
      else 1 + Taken(q, items[1..], next)
  }

  /** The size promise of a selection: it fits with a cursor, or it is complete and
      fits without one. */
  ghost predicate Bounded(acc: Acc, more: bool) {
    acc.slices == [] || Estimate(acc) <= MAX_HISTORY_PAGE_BYTES || (!more && FitsWithoutCursor(acc))
  }

  /** A selection is exact, takes a prefix of the items and says whether any remain. */
  ghost predicate TakesPrefix(q: Query, items: seq<Item>, acc: Acc)
    requires ItemsValid(items)
  {
    var (r, more) := Select(q, items, acc);
    var n := Taken(q, items, acc);
    && Bounded(r, more) && Exact(r)
    && Flat(r.slices) == Flat(acc.slices) + items[..n] && (more <==> n < |items|)
    && (n > 0 ==> r.slices != [] && CursorAt(r.slices) == Cursor(items[n - 1].batch.id, items[n - 1].ordinal))
    && (n == 0 ==> r == acc)
  }

  /** Whether the selection goes on past the first item. */
  ghost predicate Takes(q: Query, items: seq<Item>, acc: Acc)
    requires ItemsValid(items)
  {
    && items != [] && acc.count < Limit(q)
    && var next := AddItem(acc, items[0]);
    Estimate(next) <= MAX_HISTORY_PAGE_BYTES || (Unfiltered(q) && |items| == 1 && FitsWithoutCursor(next))
  }

  lemma SelectStep(q: Query, items: seq<Item>, acc: Acc)
    requires ItemsValid(items)
    ensures if Takes(q, items, acc) then
              && ItemsValid(items[1..])
              && Select(q, items, acc) == Select(q, items[1..], AddItem(acc, items[0]))
              && Taken(q, items, acc) == 1 + Taken(q, items[1..], AddItem(acc, items[0]))
            else Select(q, items, acc) == (acc, items != []) && Taken(q, items, acc) == 0
  {
  }

  lemma {:induction false} SelectTakesPrefix(q: Query, items: seq<Item>, acc: Acc)
    requires ItemsValid(items) && Exact(acc) && Bounded(acc, items != [])
    ensures TakesPrefix(q, items, acc)
    decreases |items|
  {
    SelectStep(q, items, acc);
    if Takes(q, items, acc) {
      var next := AddItem(acc, items[0]);
      AddItemIsExact(acc, items[0]);
      assert items[1..] == [] || Estimate(next) <= MAX_HISTORY_PAGE_BYTES;
      hide AddItem, Exact, Select, Taken, TakesPrefix, Takes, Flat, Estimate, FitsWithoutCursor;
      SelectTakesPrefix(q, items[1..], next);
      PrefixGrows(q, items, acc, next);
    } else {
      assert items[..0] == [];
    }
  }

  lemma PrefixGrows(q: Query, items: seq<Item>, acc: Acc, next: Acc)
    requires ItemsValid(items) && items != [] && ItemsValid(items[1..]) && TakesPrefix(q, items[1..], next)
    requires Select(q, items, acc) == Select(q, items[1..], next) && Taken(q, items, acc) == 1 + Taken(q, items[1..], next)
    requires Flat(next.slices) == Flat(acc.slices) + [items[0]]
    requires next.slices != [] && SliceValid(Last(next.slices))
    requires CursorAt(next.slices) == Cursor(items[0].batch.id, items[0].ordinal)
    ensures TakesPrefix(q, items, acc)
  {
    hide Select, Taken, Exact, Flat, Bounded, CursorAt;
    var n := Taken(q, items[1..], next);
    assert items[..n + 1] == [items[0]] + items[1..][..n];
    var r := Select(q, items, acc).0;
    assert Flat(r.slices) == Flat(acc.slices) + [items[0]] + items[1..][..n] == Flat(acc.slices) + items[..n + 1];
  }

  // Cursors

  /** The items of a batch in order of their ordinals, from any starting point. */
  lemma {:induction false} MatchItemsAt(q: Query, b: Batch, from: nat, k: nat)
    requires k < |MatchItems(q, b, from)|
    ensures MatchItems(q, b, MatchItems(q, b, from)[k].ordinal + 1) == MatchItems(q, b, from)[k + 1..]
    decreases |b.values| - from
  {
    if Matches(q, b.values[from]) {
      if k > 0 {
        MatchItemsAt(q, b, from + 1, k - 1);
      }
    } else {
      MatchItemsAt(q, b, from + 1, k);
    }
  }

  /** A cursor before every batch of the rest of the store has no effect on it. */
  lemma {:induction false} CursorBehind(q: Query, store: seq<Batch>, c: Cursor)
    requires forall i :: 0 <= i < |store| ==> c.batch < store[i].id
    ensures ItemsAfter(q, store, Some(c)) == ItemsAfter(q, store, None)
  {
    if store != [] {
      CursorBehind(q, store[1..], c);
    }
  }

  lemma {:induction false} ItemsComeFromTheStore(q: Query, store: seq<Batch>, c: Option<Cursor>)
    ensures forall k :: 0 <= k < |ItemsAfter(q, store, c)| ==> ItemsAfter(q, store, c)[k].batch in store
  {
    if store != [] {
      ItemsComeFromTheStore(q, store[1..], c);
      MatchItemsFacts(q, store[0], StartIn(store[0], c));
    }
  }

  /** The cursor of a value resumes right behind it: what follows is the rest. */
  lemma {:induction false} CursorResumes(q: Query, store: seq<Batch>, k: nat)
    requires forall i, j :: 0 <= i < j < |store| ==> store[i].id < store[j].id
    requires k < |ItemsAfter(q, store, None)|
    ensures var all := ItemsAfter(q, store, None);
            ItemsAfter(q, store, Some(Cursor(all[k].batch.id, all[k].ordinal))) == all[k + 1..]
    decreases |store|
  {
    hide *;
    StoreHead(q, store);
    var all := ItemsAfter(q, store, None);
    var rest := ItemsAfter(q, store[1..], None);
    var mine := FirstItems(q, store[0]);
    if k < |mine| {
      CursorInFirst(q, store, mine, k);
      assert all[k + 1..] == mine[k + 1..] + rest;
    } else {
      var m := k - |mine|;
      assert all[k] == rest[m] && all[k + 1..] == rest[m + 1..];
      CursorResumes(q, store[1..], m);
      CursorPastFirst(q, store, rest, m);
    }
  }

  function FirstItems(q: Query, b: Batch): seq<Item> {
    if SqlSelects(q, b) && GroupSelects(q, b) then MatchItems(q, b, 0) else []
  }

  lemma StoreHead(q: Query, store: seq<Batch>)
    ensures store == [] ==> ItemsAfter(q, store, None) == []
    ensures store != [] ==> ItemsAfter(q, store, None) == FirstItems(q, store[0]) + ItemsAfter(q, store[1..], None)
  {
    hide SqlSelects, GroupSelects, MatchItems;
  }

  lemma CursorInFirst(q: Query, store: seq<Batch>, mine: seq<Item>, k: nat)
    requires store != [] && forall i, j :: 0 <= i < j < |store| ==> store[i].id < store[j].id
    requires mine == FirstItems(q, store[0]) && k < |mine|
    ensures ItemsAfter(q, store, Some(Cursor(mine[k].batch.id, mine[k].ordinal))) ==
            mine[k + 1..] + ItemsAfter(q, store[1..], None)
  {
    MatchItemsFacts(q, store[0], 0);
    MatchItemsAt(q, store[0], 0, k);
    CursorBehind(q, store[1..], Cursor(store[0].id, mine[k].ordinal));
  }

  lemma CursorPastFirst(q: Query, store: seq<Batch>, rest: seq<Item>, m: nat)
    requires store != [] && forall i, j :: 0 <= i < j < |store| ==> store[i].id < store[j].id
    requires rest == ItemsAfter(q, store[1..], None) && m < |rest|
    ensures var c := Some(Cursor(rest[m].batch.id, rest[m].ordinal));
            ItemsAfter(q, store, c) == ItemsAfter(q, store[1..], c)
  {
    ItemsComeFromTheStore(q, store[1..], None);
    var j :| 0 <= j < |store[1..]| && store[1..][j] == rest[m].batch;
    assert store[0].id < store[j + 1].id;
  }

  /** The code needs every single value to fit alone in a page. */
  ghost predicate EachFits(items: seq<Item>)
    requires ItemsValid(items)
  {
    forall k :: 0 <= k < |items| ==> Estimate(AddItem(NOTHING, items[k])) <= MAX_HISTORY_PAGE_BYTES
  }

  /** `p` is the exact run of `all` from position `from` on: at least one value when
      any remain, a next cursor exactly when more remain and resuming right there,
      and a true size that is within the page limit. */
  ghost predicate IsRun(all: seq<Item>, from: nat, p: PageResult)
    requires from <= |all|
  {
    && p.Page?
    && var n := p.count;
    && from + n <= |all| && Flat(p.slices) == all[from..from + n] && SlicesValid(p.slices)
    && (n == 0 <==> from == |all|)
    && p.next == (if from + n < |all| then CursorBefore(all, from + n) else None)
    && IsLeastSize(FixedBytes(TotalBytes(p.slices), n, p.next.Some?), p.size)
    && (n > 0 ==> p.size <= MAX_HISTORY_PAGE_BYTES)
  }

  /** The page from any position's cursor is the exact run from that position. */
  lemma PageIsARun(q: Query, store: seq<Batch>, from: nat)
    requires Stored(store) && q.limit >= 1
    requires from <= |ItemsAfter(q, store, None)|
    requires ItemsValid(ItemsAfter(q, store, None)) && EachFits(ItemsAfter(q, store, None))
    ensures var all := ItemsAfter(q, store, None);
            IsRun(all, from, QueryPage(q, store, CursorBefore(all, from)))
  {
    hide Select, Exact, ItemsAfter, IsRun, PageOf, Estimate, AddItem;
    var all := ItemsAfter(q, store, None);
    var c := CursorBefore(all, from);
    if from > 0 {
      CursorResumes(q, store, from - 1);
    }
    var items := ItemsAfter(q, store, c);
    assert items == all[from..];
    ItemsAreValid(q, store, c);
    assert items != [] ==> items[0] == all[from];
    RestIsARun(q, all, from, items);
  }

  lemma NothingIsExact(items: seq<Item>)
    ensures Exact(NOTHING) && Bounded(NOTHING, items != [])
  {
  }

  lemma RestIsARun(q: Query, all: seq<Item>, from: nat, items: seq<Item>)
    requires q.limit >= 1 && from <= |all| && items == all[from..] && ItemsValid(items)
    requires items != [] ==> Estimate(AddItem(NOTHING, items[0])) <= MAX_HISTORY_PAGE_BYTES
    ensures var s := Select(q, items, NOTHING); IsRun(all, from, PageOf(s.0, s.1))
  {
    hide Select, Taken, Exact, Bounded, Flat, CursorAt, IsLeastSize, FixedBytes, PageOf, TotalBytes, Estimate, AddItem;
    FirstFits(q, items);
    NothingIsExact(items);
    SelectTakesPrefix(q, items, NOTHING);
    var n := Taken(q, items, NOTHING);
    var s := Select(q, items, NOTHING);
    assert n <= |items| && Exact(s.0) && Bounded(s.0, s.1) && Flat(s.0.slices) == Flat([]) + items[..n];
    PageFromPrefix(q, items, s.0, s.1, n);
    hide TakesPrefix;
    assert all[from..from + n] == items[..n];
    assert n > 0 ==> items[n - 1] == all[from + n - 1];
  }

  /** No cursor, or the cursor of the value before position `k`. */
  function CursorBefore(all: seq<Item>, k: nat): Option<Cursor>
    requires k <= |all|
  {
    if k == 0 then None else Some(Cursor(all[k - 1].batch.id, all[k - 1].ordinal))
  }

  lemma FirstFits(q: Query, items: seq<Item>)
    requires ItemsValid(items) && q.limit >= 1
    requires items != [] ==> Estimate(AddItem(NOTHING, items[0])) <= MAX_HISTORY_PAGE_BYTES
    ensures items != [] ==> Taken(q, items, NOTHING) >= 1
  {
    SelectStep(q, items, NOTHING);
  }

  lemma PageFromPrefix(q: Query, items: seq<Item>, r: Acc, more: bool, n: nat)
    requires n <= |items| && Exact(r) && Bounded(r, more) && Flat(r.slices) == Flat([]) + items[..n]
    requires (more <==> n < |items|) && (items != [] ==> n >= 1)
    requires n > 0 ==> r.slices != [] && CursorAt(r.slices) == Cursor(items[n - 1].batch.id, items[n - 1].ordinal)
    ensures var p := PageOf(r, more);
            && p.Page? && p.count == n && Flat(p.slices) == items[..n] && SlicesValid(p.slices)
            && (p.next == if more then Some(Cursor(items[n - 1].batch.id, items[n - 1].ordinal)) else None)
            && IsLeastSize(FixedBytes(TotalBytes(p.slices), n, p.next.Some?), p.size)
            && (n > 0 ==> p.size <= MAX_HISTORY_PAGE_BYTES)
  {
    assert Flat([]) + items[..n] == items[..n];
    if n > 0 {
      assert SliceValid(Last(r.slices));
      SizeIsBounded(r, more);
    }
  }

  lemma SizeIsBounded(r: Acc, more: bool)
    requires Bounded(r, more) && r.slices != []
    ensures TheSize(FixedBytes(r.bytes, r.count, more)) <= MAX_HISTORY_PAGE_BYTES
  {
    var with, without := FixedBytes(r.bytes, r.count, true), FixedBytes(r.bytes, r.count, false);
    if Estimate(r) <= MAX_HISTORY_PAGE_BYTES {
      var s := TheSize(with);
      EstimateCovers(with, s);
      SizeGrows(without, with, TheSize(without), s);
    }
  }

  // Following cursors to the end

  /** All pages from position `from` of the matching values on. */
  ghost function Follow(q: Query, store: seq<Batch>, from: nat): seq<PageResult>
    requires Stored(store) && q.limit >= 1
    requires from <= |ItemsAfter(q, store, None)|
    requires ItemsValid(ItemsAfter(q, store, None)) && EachFits(ItemsAfter(q, store, None))
    decreases |ItemsAfter(q, store, None)| - from
  {
    var all := ItemsAfter(q, store, None);
    var p := QueryPage(q, store, CursorBefore(all, from));
    PageIsARun(q, store, from);
    if p.next.None? then [p] else [p] + Follow(q, store, from + p.count)
  }

  function PagedItems(pages: seq<PageResult>): seq<Item> {
    if pages == [] then []
    else (if pages[0].Page? then Flat(pages[0].slices) else []) + PagedItems(pages[1..])
  }

  lemma FollowStep(q: Query, store: seq<Batch>, from: nat)
    requires Stored(store) && q.limit >= 1
    requires from <= |ItemsAfter(q, store, None)|
    requires ItemsValid(ItemsAfter(q, store, None)) && EachFits(ItemsAfter(q, store, None))
    ensures var all := ItemsAfter(q, store, None);
            var p := QueryPage(q, store, CursorBefore(all, from));
            && IsRun(all, from, p)
            && Follow(q, store, from) == if from + p.count == |all| then [p] else [p] + Follow(q, store, from + p.count)
  {
    hide ItemsAfter, EachFits, Stored, ItemsValid, IsLeastSize, Flat, QueryPage, TotalBytes, FixedBytes, SlicesValid;
    PageIsARun(q, store, from);
  }

  /** Paging is exactly-once: the pages up to the one without a cursor hold exactly
      the filtered values, each once and in (batch, ordinal) order. */
  lemma {:induction false} PagingIsExactlyOnce(q: Query, store: seq<Batch>, from: nat)
    requires Stored(store) && q.limit >= 1
    requires from <= |ItemsAfter(q, store, None)|
    requires ItemsValid(ItemsAfter(q, store, None)) && EachFits(ItemsAfter(q, store, None))
    ensures PagedItems(Follow(q, store, from)) == ItemsAfter(q, store, None)[from..]
    decreases |ItemsAfter(q, store, None)| - from
  {
    hide EachFits, Stored, ItemsValid, ItemsAfter, QueryPage, Follow, Flat, IsLeastSize;
    var all := ItemsAfter(q, store, None);
    var p := QueryPage(q, store, CursorBefore(all, from));
    FollowStep(q, store, from);
    if from + p.count == |all| {
      LastPage(all, from, p);
    } else {
      assert p.count > 0;
      PagingIsExactlyOnce(q, store, from + p.count);
      PageThenRest(all, from, p, Follow(q, store, from + p.count));
    }
  }

  lemma LastPage(all: seq<Item>, from: nat, p: PageResult)
    requires from <= |all| && IsRun(all, from, p) && from + p.count == |all|
    ensures PagedItems([p]) == all[from..]
  {
    assert [p][1..] == [];
    assert Flat(p.slices) + PagedItems([]) == Flat(p.slices);
    assert all[from..|all|] == all[from..];
  }

  lemma PageThenRest(all: seq<Item>, from: nat, p: PageResult, rest: seq<PageResult>)
    requires from <= |all| && IsRun(all, from, p) && PagedItems(rest) == all[from + p.count..]
    ensures PagedItems([p] + rest) == all[from..]
  {
    assert ([p] + rest)[1..] == rest;
    assert all[from..] == all[from..from + p.count] + all[from + p.count..];
  }
}
