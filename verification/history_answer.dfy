/** What a history query answers, field by field. */
module HistoryAnswers {
  import opened Basics
  import opened PageSize
  import opened HistoryPages
  import opened HistoryQueries

  /** Behind a position in (batch, ordinal) order. */
  predicate IsBehind(it: Item, batch: nat, ordinal: nat) {
    it.batch.id > batch || (it.batch.id == batch && it.ordinal > ordinal)
  }

  /** A stored value that the query asks for, behind its cursor. */
  predicate Wanted(q: Query, store: seq<Batch>, c: Option<Cursor>, it: Item) {
    var m := it.batch.meta;
    && it.batch in store && it.ordinal < |it.batch.values|
    && m.session == q.session && q.start <= m.captured && m.captured < q.end
    && (q.run == None || q.run == Some(m.run))
    && (q.group == None || q.group == Some(m.group))
    && (q.watch == None || q.watch == Some(it.batch.values[it.ordinal].watch))
    && (c == None || IsBehind(it, c.value.batch, c.value.ordinal))
  }

  lemma {:induction false} MatchesExactly(q: Query, b: Batch, from: nat, it: Item)
    ensures it in MatchItems(q, b, from) <==>
              && it.batch == b && from <= it.ordinal < |b.values|
              && (q.watch == None || q.watch == Some(b.values[it.ordinal].watch))
    decreases |b.values| - from
  {
    if from < |b.values| {
      MatchesExactly(q, b, from + 1, it);
    }
  }

  /** A batch's share of the items behind a cursor. */
  function Share(q: Query, b: Batch, c: Option<Cursor>): seq<Item> {
    if !SqlSelects(q, b) || !GroupSelects(q, b) || (c.Some? && b.id < c.value.batch) then []
    else MatchItems(q, b, StartIn(b, c))
  }

  lemma ShareExactly(q: Query, b: Batch, c: Option<Cursor>, it: Item)
    ensures it in Share(q, b, c) <==> it.batch == b && Wanted(q, [b], c, it)
  {
    MatchesExactly(q, b, StartIn(b, c), it);
    hide MatchItems;
    assert it.batch == b ==> it.batch in [b];
  }

  lemma ItemsFront(q: Query, store: seq<Batch>, c: Option<Cursor>)
    requires store != []
    ensures ItemsAfter(q, store, c) == Share(q, store[0], c) + ItemsAfter(q, store[1..], c)
  {
    hide SqlSelects, GroupSelects, MatchItems;
  }

  lemma WantedFront(q: Query, store: seq<Batch>, c: Option<Cursor>, it: Item)
    requires store != []
    ensures Wanted(q, store, c, it) <==> (it.batch == store[0] && Wanted(q, [store[0]], c, it)) || Wanted(q, store[1..], c, it)
  {
    assert it.batch in store <==> it.batch == store[0] || it.batch in store[1..];
    assert it.batch in [store[0]] <==> it.batch == store[0];
    hide IsBehind;
  }

  /** The items of a query are exactly the values it asks for. */
  lemma {:induction false} ItemsExactly(q: Query, store: seq<Batch>, c: Option<Cursor>, it: Item)
    ensures it in ItemsAfter(q, store, c) <==> Wanted(q, store, c, it)
  {
    if store != [] {
      hide *;
      ItemsFront(q, store, c);
      ShareExactly(q, store[0], c, it);
      WantedFront(q, store, c, it);
      ItemsExactly(q, store[1..], c, it);
    } else {
      assert ItemsAfter(q, store, c) == [];
    }
  }

  predicate IsBefore(a: Item, b: Item) {
    IsBehind(b, a.batch.id, a.ordinal)
  }

  ghost predicate Ascend(items: seq<Item>) {
    forall j, k :: 0 <= j < k < |items| ==> IsBefore(items[j], items[k])
  }

  lemma {:induction false} MatchesAscend(q: Query, b: Batch, from: nat)
    ensures Ascend(MatchItems(q, b, from))
    decreases |b.values| - from
  {
    if from < |b.values| {
      MatchesAscend(q, b, from + 1);
      MatchItemsFacts(q, b, from + 1);
    }
  }

  lemma JoinAscends(a: seq<Item>, b: seq<Item>)
    requires Ascend(a) && Ascend(b) && forall x, y :: x in a && y in b ==> IsBefore(x, y)
    ensures Ascend(a + b)
  {
    hide IsBefore;
    var all := a + b;
    forall j, k | 0 <= j < k < |all|
      ensures IsBefore(all[j], all[k])
    {
      if j < |a| <= k {
        assert all[j] in a && all[k] == b[k - |a|] && all[k] in b;
      }
    }
  }

  lemma {:induction false} ItemsAscend(q: Query, store: seq<Batch>, c: Option<Cursor>)
    requires Stored(store)
    ensures Ascend(ItemsAfter(q, store, c))
  {
    if store != [] {
      var share, rest := Share(q, store[0], c), ItemsAfter(q, store[1..], c);
      StoredRest(store);
      ItemsFront(q, store, c);
      MatchesAscend(q, store[0], StartIn(store[0], c));
      forall x, y | x in share && y in rest
        ensures IsBefore(x, y)
      {
        ShareExactly(q, store[0], c, x);
        ItemsExactly(q, store[1..], c, y);
      }
      assert Ascend(share);
      hide Stored, ItemsAfter, Share, Ascend, MatchItems;
      ItemsAscend(q, store[1..], c);
      JoinAscends(share, rest);
    }
  }

  /** A page holds exactly the values asked for up to its next cursor, in order, and has
      a next cursor exactly if values are left behind it. */
  ghost predicate AnswersQuery(q: Query, store: seq<Batch>, c: Option<Cursor>, p: PageResult) {
    && p.Page? && SlicesValid(p.slices) && p.count == |Flat(p.slices)| && Ascend(Flat(p.slices))
    && (forall it :: it in Flat(p.slices) <==>
          Wanted(q, store, c, it) && !(p.next.Some? && IsBehind(it, p.next.value.batch, p.next.value.ordinal)))
    && (p.next.Some? ==> exists it :: Wanted(q, store, c, it) && IsBehind(it, p.next.value.batch, p.next.value.ordinal))
  }

  /** A prefix of the items and the cursor behind it. */
  lemma PrefixAnswers(q: Query, store: seq<Batch>, c: Option<Cursor>, items: seq<Item>, n: nat, p: PageResult)
    requires Stored(store) && items == ItemsAfter(q, store, c) && n <= |items| && (n == 0 ==> items == [])
    requires p.Page? && SlicesValid(p.slices) && p.count == n && Flat(p.slices) == items[..n]
    requires p.next == if n < |items| then Some(Cursor(items[n - 1].batch.id, items[n - 1].ordinal)) else None
    ensures AnswersQuery(q, store, c, p)
  {
    ItemsAscend(q, store, c);
    hide ItemsAfter, Stored, Flat, SlicesValid, Wanted;
    forall it
      ensures it in items[..n] <==>
                Wanted(q, store, c, it) && !(p.next.Some? && IsBehind(it, p.next.value.batch, p.next.value.ordinal))
    {
      ItemsExactly(q, store, c, it);
      InPrefix(items, n, it);
    }
    if n < |items| {
      ItemsExactly(q, store, c, items[n]);
      assert IsBefore(items[n - 1], items[n]);
    }
    assert forall j, k :: 0 <= j < k < n ==> items[..n][j] == items[j] && items[..n][k] == items[k];
  }

  lemma NotEarlier(items: seq<Item>, n: nat, k: nat)
    requires Ascend(items) && n <= k < |items|
    ensures items[k] !in items[..n]
  {
  }

  lemma InPrefix(items: seq<Item>, n: nat, it: Item)
    requires Ascend(items) && n <= |items| && (n == 0 ==> items == [])
    ensures it in items[..n] <==> it in items && !(n < |items| && IsBehind(it, items[n - 1].batch.id, items[n - 1].ordinal))
  {
    if it in items {
      var k :| 0 <= k < |items| && items[k] == it;
      if k < n {
        assert items[..n][k] == it;
        assert k < n - 1 ==> IsBefore(items[k], items[n - 1]);
      } else {
        assert IsBefore(items[n - 1], items[k]);
        NotEarlier(items, n, k);
      }
    }
  }

  /** Whatever a query answers holds exactly what it asks for. */
  lemma AnswerIsWanted(q: Query, store: seq<Batch>, c: Option<Cursor>)
    requires Stored(store) && q.limit >= 1 && Respond(q, store, c).Answer?
    ensures AnswersQuery(q, store, c, Respond(q, store, c).page)
  {
    hide *;
    RespondIsPage(q, store, c);
    ItemsAreValid(q, store, c);
    var items := ItemsAfter(q, store, c);
    NothingIsExact(items);
    SelectTakesPrefix(q, items, NOTHING);
    PrefixIsPage(q, items);
    PrefixAnswers(q, store, c, items, Taken(q, items, NOTHING), QueryPage(q, store, c));
  }

  lemma RespondIsPage(q: Query, store: seq<Batch>, c: Option<Cursor>)
    requires Respond(q, store, c).Answer?
    ensures ItemsValid(ItemsAfter(q, store, c))
    ensures Respond(q, store, c).page == QueryPage(q, store, c) && QueryPage(q, store, c).Page?
    ensures var s := Select(q, ItemsAfter(q, store, c), NOTHING); QueryPage(q, store, c) == PageOf(s.0, s.1)
  {
    ItemsAreValid(q, store, c);
    hide Select, PageOf, ItemsAfter;
  }

  lemma PrefixIsPage(q: Query, items: seq<Item>)
    requires ItemsValid(items) && TakesPrefix(q, items, NOTHING)
    requires var s := Select(q, items, NOTHING); PageOf(s.0, s.1).Page?
    ensures var s, n := Select(q, items, NOTHING), Taken(q, items, NOTHING);
            var p := PageOf(s.0, s.1);
            && n <= |items| && (n == 0 ==> items == [])
            && SlicesValid(p.slices) && p.count == n && Flat(p.slices) == items[..n]
            && p.next == if n < |items| then Some(Cursor(items[n - 1].batch.id, items[n - 1].ordinal)) else None
  {
    hide Select, Taken, Bounded, CursorAt, TotalBytes, ItemsValid, SliceValid;
    var s, n := Select(q, items, NOTHING), Taken(q, items, NOTHING);
    assert Flat([]) + items[..n] == items[..n];
    if n > 0 {
      LastIsValid(s.0.slices);
    }
  }

  lemma LastIsValid(slices: seq<Slice>)
    requires SlicesValid(slices) && slices != []
    ensures SliceValid(Last(slices))
  {
    hide SliceValid;
  }
}
