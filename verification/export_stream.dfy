/** Streaming a history window as JSON lines: a buffered writer with a byte limit, and
    rows spliced from a prefix that is rendered once per batch. */
module ExportStreams {
  import opened Basics
  import opened HistoryPages
  import opened HistoryQueries
  import opened HistoryStores
  import opened HistoryCache
  import opened PagingRoundTrip

  const MAX_EXPORT_VALUES: nat := 1_000_000
  const MAX_EXPORT_BYTES: nat := 160 * 1024 * 1024
  const WRITE_BUFFER_BYTES: nat := 4 * 1024 * 1024

  // Rows

  /** A rendered `"name":value`. */
  type Member = seq<Byte>

  function JoinMembers(ms: seq<Member>): seq<Byte> {
    if ms == [] then [] else if |ms| == 1 then ms[0] else ms[0] + [','  as int] + JoinMembers(ms[1..])
  }

  /** A compact JSON object. */
  function EncodeObject(ms: seq<Member>): seq<Byte> {
    ['{' as int] + JoinMembers(ms) + ['}' as int]
  }

  /** How a batch's own fields and a value's fields are rendered; neither is ever
      empty. */
  datatype Rendering = Rendering(ofBatch: Batch -> seq<Member>, ofValue: (Value, nat) -> seq<Member>)

  ghost predicate Renders(r: Rendering) {
    && (forall b :: r.ofBatch(b) != [])
    && (forall v, o :: r.ofValue(v, o) != [])
  }

  /** The simple form of a row: one object with all its fields, and a newline. */
  function Row(r: Rendering, it: Item): seq<Byte>
    requires it.ordinal < |it.batch.values|
  {
    EncodeObject(r.ofBatch(it.batch) + r.ofValue(it.batch.values[it.ordinal], it.ordinal)) + [10]
  }

  function Document(r: Rendering, items: seq<Item>): seq<Byte>
    requires ItemsValid(items)
  {
    if items == [] then [] else Document(r, items[..|items| - 1]) + Row(r, items[|items| - 1])
  }

  lemma {:induction false} JoinAppends(a: seq<Member>, b: seq<Member>)
    requires a != [] && b != []
    ensures JoinMembers(a + b) == JoinMembers(a) + [',' as int] + JoinMembers(b)
  {
    assert (a + b)[1..] == a[1..] + b;
    if |a| > 1 {
      JoinAppends(a[1..], b);
    }
  }

  /** Two objects spliced with a comma are one object with the fields of both. */
  lemma SplicedObjects(a: seq<Member>, b: seq<Member>)
    requires a != [] && b != []
    ensures var x, y := EncodeObject(a), EncodeObject(b);
            x[..|x| - 1] + [',' as int] + y[1..] == EncodeObject(a + b)
  {
    JoinAppends(a, b);
  }

  lemma DocumentGrows(r: Rendering, items: seq<Item>, p: nat)
    requires ItemsValid(items) && p < |items|
    ensures ItemsValid(items[..p]) && ItemsValid(items[..p + 1])
    ensures Document(r, items[..p + 1]) == Document(r, items[..p]) + Row(r, items[p])
  {
    assert items[..p + 1][..p] == items[..p];
  }

  lemma {:induction false} DocumentPrefix(r: Rendering, items: seq<Item>, p: nat)
    requires ItemsValid(items) && p <= |items|
    ensures ItemsValid(items[..p]) && |Document(r, items[..p])| <= |Document(r, items)|
    decreases |items| - p
  {
    if p < |items| {
      DocumentGrows(r, items, p);
      DocumentPrefix(r, items, p + 1);
    } else {
      assert items[..p] == items;
    }
  }

  /** A row in bytes: a brace, the batch's members, a comma, the value's members, a brace
      and a newline. */
  function RowBytes(ofBatch: seq<Byte>, ofValue: seq<Byte>): seq<Byte> {
    [123] + ofBatch + [44] + ofValue + [125, 10]
  }

  lemma RowIsObject(r: Rendering, it: Item)
    requires Renders(r) && it.ordinal < |it.batch.values|
    ensures Row(r, it) ==
            RowBytes(JoinMembers(r.ofBatch(it.batch)), JoinMembers(r.ofValue(it.batch.values[it.ordinal], it.ordinal)))
  {
    JoinAppends(r.ofBatch(it.batch), r.ofValue(it.batch.values[it.ordinal], it.ordinal));
  }

  /** Row `k` of a document lies right behind the rows in front of it, and the last row
      ends the document; the limits count the rows and bytes of the whole. */
  lemma DocumentExactly(r: Rendering, items: seq<Item>, k: nat)
    requires Renders(r) && ItemsValid(items) && k < |items|
    ensures ItemsValid(items[..k]) && ItemsValid(items[..k + 1])
    ensures var it, all := items[k], Document(r, items);
            var row := RowBytes(JoinMembers(r.ofBatch(it.batch)), JoinMembers(r.ofValue(it.batch.values[it.ordinal], it.ordinal)));
            var (start, end) := (|Document(r, items[..k])|, |Document(r, items[..k + 1])|);
            && end == start + |row| && end <= |all| && all[start..end] == row
            && (k == 0 ==> start == 0) && (k == |items| - 1 ==> end == |all|)
            && (WithinLimits(r, items) <==> |items| <= 1_000_000 && |all| <= 167_772_160)
  {
    hide Row, RowBytes, JoinMembers;
    DocumentGrows(r, items, k);
    DocumentBegins(r, items, k + 1);
    RowIsObject(r, items[k]);
    var before, row := Document(r, items[..k]), Row(r, items[k]);
    assert (before + row)[|before|..] == row;
    assert items[..|items|] == items;
  }

  lemma {:induction false} DocumentBegins(r: Rendering, items: seq<Item>, p: nat)
    requires ItemsValid(items) && p <= |items|
    ensures ItemsValid(items[..p]) && Document(r, items[..p]) <= Document(r, items)
    decreases |items| - p
  {
    if p < |items| {
      DocumentGrows(r, items, p);
      DocumentBegins(r, items, p + 1);
    } else {
      assert items[..p] == items;
    }
  }

  // The writer

  /** Bytes go to the stream in large blocks; what was hashed stands for the digest. */
  class LimitedHashWriter {
    var stream: seq<Byte>
    var hashed: seq<Byte>
    var buffer: seq<Byte>
    var byteCount: nat

    /** Streamed and buffered bytes are what was hashed and counted. */
    predicate Valid()
      reads this
    {
      && stream + buffer == hashed && byteCount == |hashed| <= MAX_EXPORT_BYTES
      && |buffer| < WRITE_BUFFER_BYTES
    }

    constructor ()
      ensures Valid() && hashed == []
    {
      stream, hashed, buffer, byteCount := [], [], [], 0;
    }

    /** Refused exactly when the limit would be passed; the digest and the count are
        those of all accepted writes, whatever was buffered. */
    method Write(data: seq<Byte>) returns (ok: bool)
      requires Valid()
      modifies this
      ensures Valid()
      ensures ok <==> |old(hashed)| + |data| <= MAX_EXPORT_BYTES
      ensures hashed == if ok then old(hashed) + data else old(hashed)
    {
      var newSize := byteCount + |data|;
      if newSize > MAX_EXPORT_BYTES {
        return false;
      }
      hashed := hashed + data;
      byteCount := newSize;
      if |buffer| + |data| >= WRITE_BUFFER_BYTES {
        if buffer != [] {
          stream := stream + buffer;
          buffer := [];
        }
        if |data| >= WRITE_BUFFER_BYTES {
          stream := stream + data;
          return true;
        }
      }
      buffer := buffer + data;
      return true;
    }

    method Finish()
      requires Valid()
      modifies this
      ensures Valid() && hashed == old(hashed) && stream == hashed && buffer == []
    {
      if buffer != [] {
        stream := stream + buffer;
        buffer := [];
      }
    }
  }

  // The stream

  /** A value that does not open its batch follows a value of the same batch. */
  lemma {:induction false} AdjacentItems(bs: seq<Batch>, p: nat)
    requires 0 < p < |AllItems(bs)|
    ensures AllItems(bs)[p].ordinal > 0 ==> AllItems(bs)[p - 1].batch == AllItems(bs)[p].batch
    decreases |bs|
  {
    var first, rest := BatchItems(bs[0], 0), bs[1..];
    assert AllItems(bs) == first + AllItems(rest);
    if p > |first| {
      AdjacentItems(rest, p - |first|);
    } else if p == |first| {
      FirstItemOpens(rest);
    }
  }

  lemma {:induction false} FirstItemOpens(bs: seq<Batch>)
    requires AllItems(bs) != []
    ensures AllItems(bs)[0].ordinal == 0
    decreases |bs|
  {
    if bs[0].values == [] {
      assert AllItems(bs) == AllItems(bs[1..]);
      FirstItemOpens(bs[1..]);
    }
  }

  datatype Outcome = TooLarge | CorruptHistory | Streamed(count: nat)

  /** The rendering state between rows. */
  datatype Rows = Rows(started: bool, prefix: seq<Byte>, buffer: seq<Byte>, count: nat)

  function Prefix(r: Rendering, b: Batch): seq<Byte> {
    var x := EncodeObject(r.ofBatch(b)); x[..|x| - 1] + [',' as int]
  }

  /** Everything before position `p` is written or buffered, and the prefix is the one
      of the batch at `p - 1`. */
  ghost predicate Rendered(r: Rendering, items: seq<Item>, p: nat, written: seq<Byte>, s: Rows)
    requires ItemsValid(items) && p <= |items|
  {
    && s.count == p <= MAX_EXPORT_VALUES && (s.started <==> p > 0)
    && ItemsValid(items[..p]) && written + s.buffer == Document(r, items[..p])
    && (p > 0 ==> s.prefix == Prefix(r, items[p - 1].batch))
  }

  /** Both limits of an export. */
  ghost predicate WithinLimits(r: Rendering, items: seq<Item>)
    requires ItemsValid(items)
  {
    |items| <= MAX_EXPORT_VALUES && |Document(r, items)| <= MAX_EXPORT_BYTES
  }

  lemma Appended(a: seq<Byte>, b: seq<Byte>, row: seq<Byte>)
    ensures a + (b + row) == a + b + row
  {
  }

  /** The row spliced from a prefix is the simple row. */
  lemma SplicedRow(r: Rendering, it: Item, prefix: seq<Byte>)
    requires Renders(r) && it.ordinal < |it.batch.values| && prefix == Prefix(r, it.batch)
    ensures var y := EncodeObject(r.ofValue(it.batch.values[it.ordinal], it.ordinal));
            prefix + y[1..] + [10] == Row(r, it)
  {
    SplicedObjects(r.ofBatch(it.batch), r.ofValue(it.batch.values[it.ordinal], it.ordinal));
  }

  /** Where a batch opens, flush and render its prefix. */
  method OpenBatch(r: Rendering, w: LimitedHashWriter, it: Item, s: Rows, ghost items: seq<Item>, ghost p: nat)
    returns (ok: bool, s': Rows)
    requires w.Valid() && ItemsValid(items) && p < |items| && items[p] == it && Rendered(r, items, p, w.hashed, s)
    requires p > 0 && it.ordinal > 0 ==> items[p - 1].batch == it.batch
    modifies w
    ensures w.Valid()
    ensures ok ==> w.hashed + s'.buffer == old(w.hashed) + s.buffer && s'.count == s.count && s'.prefix == Prefix(r, it.batch)
    ensures !ok ==> !WithinLimits(r, items)
  {
    DocumentPrefix(r, items, p);
    hide Document, Prefix;
    if s.started && it.ordinal != 0 {
      return true, s;
    }
    if s.buffer != [] {
      ok := w.Write(s.buffer);
      if !ok {
        return false, s;
      }
    }
    return true, Rows(true, Prefix(r, it.batch), [], s.count);
  }

  /** One value. */
  method WriteRow(r: Rendering, w: LimitedHashWriter, it: Item, s: Rows, ghost items: seq<Item>, ghost p: nat)
    returns (ok: bool, s': Rows)
    requires Renders(r) && w.Valid() && ItemsValid(items) && p < |items| && items[p] == it
    requires Rendered(r, items, p, w.hashed, s)
    requires p > 0 && it.ordinal > 0 ==> items[p - 1].batch == it.batch
    modifies w
    ensures w.Valid()
    ensures ok ==> Rendered(r, items, p + 1, w.hashed, s')
    ensures !ok ==> !WithinLimits(r, items)
  {
    DocumentGrows(r, items, p);
    if s.count >= MAX_EXPORT_VALUES {
      return false, s;
    }
    ok, s' := OpenBatch(r, w, it, s, items, p);
    if !ok {
      return;
    }
    SplicedRow(r, it, s'.prefix);
    hide Document, Prefix, Row, EncodeObject;
    var line := s'.prefix + EncodeObject(r.ofValue(it.batch.values[it.ordinal], it.ordinal))[1..] + [10];
    Appended(w.hashed, s'.buffer, line);
    s' := Rows(true, s'.prefix, s'.buffer + line, s'.count + 1);
  }

  lemma NothingRendered(r: Rendering, items: seq<Item>, written: seq<Byte>, s: Rows)
    requires ItemsValid(items) && written == [] && s == Rows(false, [], [], 0)
    ensures Rendered(r, items, 0, written, s)
  {
    assert items[..0] == [];
  }

  lemma AllValid(q: Query, store: seq<Batch>)
    requires EveryValueFits(q, store)
    ensures ItemsValid(ItemsAfter(q, store, None))
  {
  }

  lemma CursorMoves(q: Query, store: seq<Batch>, from: nat, p: PageResult)
    requires Stored(store) && from <= |ItemsAfter(q, store, None)| && IsRun(ItemsAfter(q, store, None), from, p)
    ensures p.Page? && p.next.Some? ==> p.count > 0 && p.next != CursorBefore(ItemsAfter(q, store, None), from)
  {
    if p.next.Some? {
      CursorsDiffer(q, store, from, from + p.count);
    }
  }

  lemma PageItems(all: seq<Item>, from: nat, p: PageResult)
    requires from <= |all| && IsRun(all, from, p)
    ensures p.Page? && from + p.count <= |all| && Flat(p.slices) == all[from..from + p.count]
  {
  }

  /** The rows of one page. */
  method WritePage(q: Query, store: seq<Batch>, r: Rendering, w: LimitedHashWriter, page: seq<Item>, s0: Rows,
                   ghost all: seq<Item>, ghost from: nat)
    returns (ok: bool, s: Rows)
    requires q.watch.None? && all == ItemsAfter(q, store, None) && ItemsValid(all) && Renders(r) && w.Valid()
    requires from + |page| <= |all| && page == all[from..from + |page|]
    requires Rendered(r, all, from, w.hashed, s0)
    modifies w
    ensures w.Valid()
    ensures ok ==> Rendered(r, all, from + |page|, w.hashed, s)
    ensures !ok ==> !WithinLimits(r, all)
  {
    hide *;
    ok, s := true, s0;
    ItemsOfSelected(q, store);
    var i := 0;
    while i < |page|
      invariant 0 <= i <= |page| && ok && w.Valid() && Rendered(r, all, from + i, w.hashed, s)
    {
      if from + i > 0 {
        AdjacentItems(Selected(q, store), from + i);
      }
      ok, s := WriteRow(r, w, page[i], s, all, from + i);
      if !ok {
        return;
      }
      i := i + 1;
    }
  }

  /** What remains buffered, and the end of the stream. */
  method FinishStream(r: Rendering, w: LimitedHashWriter, s: Rows, ghost all: seq<Item>) returns (out: Outcome)
    requires ItemsValid(all) && w.Valid() && Rendered(r, all, |all|, w.hashed, s)
    modifies w
    ensures w.Valid()
    ensures out == if WithinLimits(r, all) then Streamed(|all|) else TooLarge
    ensures out.Streamed? ==> w.stream == w.hashed == Document(r, all)
  {
    assert all[..|all|] == all;
    if s.buffer != [] {
      var ok := w.Write(s.buffer);
      if !ok {
        return TooLarge;
      }
    }
    w.Finish();
    return Streamed(s.count);
  }

  /** The export of a window: it succeeds exactly when both limits hold, and then the
      file holds one row per stored value, in order, each with its own batch's fields. */
  method StreamHistory(q: Query, store: seq<Batch>, r: Rendering, w: LimitedHashWriter) returns (out: Outcome)
    requires Stored(store) && q.limit >= 1 && q.watch.None? && EveryValueFits(q, store) && Renders(r)
    requires w.Valid() && w.hashed == []
    modifies w
    ensures w.Valid()
    ensures var items := ItemsAfter(q, store, None);
            out == if WithinLimits(r, items) then Streamed(|items|) else TooLarge
    ensures out.Streamed? ==> w.stream == w.hashed == Document(r, ItemsAfter(q, store, None))
  {
    hide *;
    ghost var all := ItemsAfter(q, store, None);
    ghost var from := 0;
    ghost var slices: seq<Slice> := [];
    var cursor, s := None, Rows(false, [], [], 0);
    AllValid(q, store);
    NothingCollected(all, store);
    NothingRendered(r, all, w.hashed, s);
    while true
      invariant 0 <= from <= |all| && cursor == CursorBefore(all, from)
      invariant SlicesValid(slices) && Flat(slices) == all[..from]
      invariant w.Valid() && Rendered(r, all, from, w.hashed, s)
      decreases |all| - from
    {
      PageAnswers(q, store, from);
      var answer, pending := ReadPage(q, cursor, store, []);
      if !answer.Answer? {
        return CorruptHistory;
      }
      var page := answer.page;
      PageExtends(all, from, slices, page);
      CursorMoves(q, store, from, page);
      if page.next.Some? && (page.next == cursor || page.count == 0) {
        return CorruptHistory;
      }
      PageItems(all, from, page);
      var ok;
      ok, s := WritePage(q, store, r, w, Flat(page.slices), s, all, from);
      if !ok {
        return TooLarge;
      }
      slices := slices + page.slices;
      from := from + page.count;
      if page.next.None? {
        break;
      }
      cursor := page.next;
    }
    out := FinishStream(r, w, s, all);
  }
}
