/** What a page's size is, as text, and how full a page is. */
module PageExact {
  import opened Basics
  import opened PageSize
  import opened HistoryPages
  import opened HistoryQueries
  import opened HistoryAnswers

  // The text of a page

  predicate AllDigits(s: string) {
    forall i :: 0 <= i < |s| ==> '0' <= s[i] <= '9'
  }

  function Decimal(n: nat): (s: string)
    ensures s != "" && AllDigits(s)
  {
    var digit := (48 + n % 10) as char;
    if n < 10 then [digit] else Decimal(n / 10) + [digit]
  }

  /** The number a text of digits stands for. */
  function Reading(s: string): nat
    requires AllDigits(s)
  {
    if s == "" then 0 else Reading(s[..|s| - 1]) * 10 + (s[|s| - 1] as int - '0' as int)
  }

  lemma ReadingGrows(s: string, d: nat)
    requires AllDigits(s) && d < 10
    ensures AllDigits(s + [(48 + d) as char])
    ensures Reading(s + [(48 + d) as char]) == Reading(s) * 10 + d
  {
    var t := s + [(48 + d) as char];
    assert t[..|t| - 1] == s;
  }

  lemma {:induction false} DecimalReads(n: nat)
    ensures Reading(Decimal(n)) == n && |Decimal(n)| == Digits(n)
  {
    hide Reading;
    if n < 10 {
      ReadingGrows("", n);
      NothingReads();
      assert "" + [(48 + n) as char] == Decimal(n);
    } else {
      DecimalReads(n / 10);
      ReadingGrows(Decimal(n / 10), n % 10);
    }
  }

  lemma NothingReads()
    ensures Reading("") == 0
  {
  }

  /** A page: its slices' JSON, the count, the next cursor or null, and its own size. */
  function PageText(batches: string, count: nat, token: Option<string>, size: nat): string {
    "{\"batches\":[" + batches + "],\"valueCount\":" + Decimal(count)
    + ",\"nextCursor\":" + (if token.Some? then "\"v1." + token.value + "\"" else "null")
    + ",\"serializedBytes\":" + Decimal(size) + "}"
  }

  /** A page names its own length: with any slices of the counted bytes and any token of
      107 characters, the text is as long as it says, and nothing smaller would do. */
  lemma SizeIsLength(batches: string, count: nat, token: Option<string>, size: nat)
    requires token.Some? ==> |token.value| == 107
    requires IsLeastSize(FixedBytes(|batches|, count, token.Some?), size)
    ensures |PageText(batches, count, token, size)| == size
    ensures forall t: nat :: |PageText(batches, count, token, t)| == t ==> size <= t
  {
    DecimalReads(count);
    hide Decimal, Digits;
    forall t: nat
      ensures IsSize(FixedBytes(|batches|, count, token.Some?), t) <==> |PageText(batches, count, token, t)| == t
    {
      DecimalReads(t);
    }
  }

  // How full a page is

  /** The estimate a value is taken by is at most one byte above the true size. */
  lemma EstimateIsTight(fixed: nat, s: nat)
    requires IsLeastSize(fixed, s)
    ensures fixed + Digits(fixed + 8) <= s + 1
  {
    DigitsMonotone(fixed, s);
    DigitsBelow(s);
    EightMore(fixed);
  }

  lemma EightMore(n: nat)
    ensures Digits(n + 8) <= Digits(n) + 1
  {
    TenMore(n);
    DigitsMonotone(n + 8, n + 10);
  }

  lemma TenMore(n: nat)
    ensures Digits(n + 10) <= Digits(n) + 1
  {
    if n >= 10 {
      OneMoreDigit(n / 10);
    }
  }

  /** The slices hold these items, and with a next cursor they would make a page of
      4,194,304 bytes or more. */
  ghost predicate Overflows(slices: seq<Slice>, items: seq<Item>) {
    && SlicesValid(slices) && Flat(slices) == items
    && TheSize(FixedBytes(TotalBytes(slices), |items|, true)) >= 4_194_304
  }

  ghost predicate OverflowsPage(items: seq<Item>) {
    exists slices :: Overflows(slices, items)
  }

  /** A selection stops early only where the count is reached or the next value would
      overflow the page. */
  ghost predicate IsFull(q: Query, items: seq<Item>, n: nat)
    requires n <= |items|
  {
    && n <= (if q.limit < 10_000 then q.limit else 10_000)
    && (n < |items| && n < q.limit && n < 10_000 ==> OverflowsPage(items[..n + 1]))
  }

  lemma NextOverflows(acc: Acc, taken: seq<Item>, it: Item)
    requires Exact(acc) && it.ordinal < |it.batch.values| && Flat(acc.slices) == taken
    requires Estimate(AddItem(acc, it)) > MAX_HISTORY_PAGE_BYTES
    ensures OverflowsPage(taken + [it])
  {
    AddItemIsExact(acc, it);
    var next := AddItem(acc, it);
    var fixed := FixedBytes(next.bytes, next.count, true);
    EstimateIsTight(fixed, TheSize(fixed));
    hide AddItem, Flat, SlicesValid, TotalBytes, IsLeastSize, Digits;
    assert Overflows(next.slices, taken + [it]);
  }

  lemma CountGrows(acc: Acc, it: Item)
    requires it.ordinal < |it.batch.values|
    ensures AddItem(acc, it).count == acc.count + 1
  {
  }

  lemma ItemsFront(taken: seq<Item>, items: seq<Item>)
    requires items != []
    ensures taken + items == taken + [items[0]] + items[1..]
    ensures (taken + items)[..|taken| + 1] == taken + [items[0]]
  {
  }

  lemma StopIsFull(q: Query, items: seq<Item>, acc: Acc, taken: seq<Item>)
    requires ItemsValid(items) && Exact(acc) && Flat(acc.slices) == taken && acc.count == |taken| <= Limit(q)
    requires !Takes(q, items, acc)
    ensures IsFull(q, taken + items, |taken|)
  {
    hide AddItem, Exact, Flat, Estimate, FitsWithoutCursor, OverflowsPage;
    if items != [] && acc.count < Limit(q) {
      ItemsFront(taken, items);
      NextOverflows(acc, taken, items[0]);
    }
  }

  lemma {:induction false} SelectionIsFull(q: Query, items: seq<Item>, acc: Acc, taken: seq<Item>)
    requires ItemsValid(items) && Exact(acc) && Flat(acc.slices) == taken && acc.count == |taken| <= Limit(q)
    ensures IsFull(q, taken + items, |taken| + Taken(q, items, acc))
    decreases |items|
  {
    hide AddItem, Exact, Select, Taken, Flat, Estimate, FitsWithoutCursor, IsFull;
    SelectStep(q, items, acc);
    if Takes(q, items, acc) {
      AddItemIsExact(acc, items[0]);
      CountGrows(acc, items[0]);
      ItemsFront(taken, items);
      SelectionIsFull(q, items[1..], AddItem(acc, items[0]), taken + [items[0]]);
    } else {
      StopIsFull(q, items, acc, taken);
    }
  }

  /** A page never stops early. It holds at most 10,000 values, at most the limit, and
      fewer while values remain only if one more would overflow it. */
  lemma PageIsFull(q: Query, store: seq<Batch>, c: Option<Cursor>)
    requires QueryPage(q, store, c).Page?
    ensures QueryPage(q, store, c).count <= |ItemsAfter(q, store, c)|
    ensures IsFull(q, ItemsAfter(q, store, c), QueryPage(q, store, c).count)
  {
    var items := ItemsAfter(q, store, c);
    ItemsAreValid(q, store, c);
    NothingIsExact(items);
    hide Select, Taken, Exact, Bounded, CursorAt, TotalBytes, ItemsValid, SliceValid, ItemsAfter, IsFull, TakesPrefix, PageOf;
    SelectTakesPrefix(q, items, NOTHING);
    PrefixIsPage(q, items);
    assert Flat([]) == [] && [] + items == items;
    SelectionIsFull(q, items, NOTHING, []);
  }
}
