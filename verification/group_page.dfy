/** Watch groups: admission limits, pages bounded in bytes, and cursors that belong to
    one revision of the whole list. */
module GroupPages {
  import opened Basics
  import opened PageSize
  import Utf8

  const MAX_GROUPS: nat := 128
  const MAX_ITEMS_PER_GROUP: nat := 256
  const MAX_TOTAL_ITEMS: nat := 4_096
  const MAX_GROUP_PAGE_GROUPS: nat := 16
  const MAX_GROUP_PAGE_BYTES: nat := 1024 * 1024 - 4096
  const MAX_SELECTOR_CHARS: nat := 512
  const MAX_GROUP_NAME_CHARS: nat := 128
  const MAX_DESCRIPTION_CHARS: nat := 1024
  const MAX_INTERVAL_MS: nat := 5_000
  const MAX_SIGNED_INT64: nat := 0x7FFF_FFFF_FFFF_FFFF

  datatype Watch = Variable(expression: string) | Register(path: string) | U16le(low: string, high: string)

  /** `key` is the position of the folded name in the order of names. */
  datatype Group = Group(id: int, key: int, name: string, description: string, interval: nat, items: seq<Watch>, revision: nat)

  /** Normalized text without control characters. */
  predicate TextOk(s: string, most: nat) {
    |s| <= most && forall k :: 0 <= k < |s| ==> s[k] >= ' '
  }

  predicate WatchOk(w: Watch) {
    match w
    case Variable(s) => TextOk(s, MAX_SELECTOR_CHARS)
    case Register(s) => TextOk(s, MAX_SELECTOR_CHARS)
    case U16le(a, b) => TextOk(a, MAX_SELECTOR_CHARS) && TextOk(b, MAX_SELECTOR_CHARS)
  }

  /** What a group object guarantees by itself. */
  predicate GroupOk(g: Group) {
    && TextOk(g.name, MAX_GROUP_NAME_CHARS) && TextOk(g.description, MAX_DESCRIPTION_CHARS)
    && g.interval <= MAX_INTERVAL_MS && 1 <= g.revision <= MAX_SIGNED_INT64
    && forall k :: 0 <= k < |g.items| ==> WatchOk(g.items[k])
  }

  // Serialized sizes, in bytes of UTF-8

  function CharBytes(c: char): (n: nat)
    ensures n <= 4
  {
    if c == '"' || c == '\\' then 2 else |Utf8.Encode(c)|
  }

  function TextBytes(s: string): nat {
    if s == "" then 0 else CharBytes(s[0]) + TextBytes(s[1..])
  }

  /** A JSON string with its quotes. */
  function StringBytes(s: string): nat {
    2 + TextBytes(s)
  }

  function WatchBytes(w: Watch): nat {
    match w
    case Variable(s) => |"{\"kind\":\"variable\",\"expression\":}"| + StringBytes(s)
    case Register(s) => |"{\"kind\":\"register\",\"registerPath\":}"| + StringBytes(s)
    case U16le(a, b) => |"{\"kind\":\"u16le\",\"lowExpression\":,\"highExpression\":}"| + StringBytes(a) + StringBytes(b)
  }

  function WatchesBytes(ws: seq<Watch>): nat {
    if ws == [] then 0 else if |ws| == 1 then WatchBytes(ws[0]) else WatchBytes(ws[0]) + 1 + WatchesBytes(ws[1..])
  }

  const GROUP_FIXED_BYTES: nat :=
    |"{\"groupId\":\"00000000-0000-0000-0000-000000000000\",\"name\":,\"description\":,\"intervalMs\":"|
    + |",\"items\":[],\"revision\":"|
    + |",\"createdAtUtc\":\"0000-00-00T00:00:00.000000Z\",\"updatedAtUtc\":\"0000-00-00T00:00:00.000000Z\"}"|

  function GroupBytes(g: Group): nat {
    GROUP_FIXED_BYTES + StringBytes(g.name) + StringBytes(g.description) + Digits(g.interval)
    + WatchesBytes(g.items) + Digits(g.revision)
  }

  function GroupsBytes(gs: seq<Group>): nat {
    if gs == [] then 0 else if |gs| == 1 then GroupBytes(gs[0]) else GroupBytes(gs[0]) + 1 + GroupsBytes(gs[1..])
  }

  const HEX_BYTES: nat := 64

  /** The signed text behind a cursor, and its unpadded base64 form. */
  function CursorPayload(offset: nat): nat {
    |"{\"i\":"| + Digits(offset) + |",\"r\":\""| + HEX_BYTES + |"\",\"v\":1,\"w\":\""| + HEX_BYTES + |"\"}"| + 1 + HEX_BYTES
  }

  function CursorBytes(offset: nat): nat {
    (4 * CursorPayload(offset) + 2) / 3
  }

  const PAGE_FIXED_BYTES: nat := |"{\"groups\":[],\"nextCursor\":,\"revision\":\"\"}"| + HEX_BYTES

  function PageBytes(gs: seq<Group>, next: Option<nat>): nat {
    PAGE_FIXED_BYTES + GroupsBytes(gs) + (if next.Some? then 2 + CursorBytes(next.value) else |"null"|)
  }

  // Admission

  function ItemCount(gs: seq<Group>): nat {
    if gs == [] then 0 else |gs[0].items| + ItemCount(gs[1..])
  }

  predicate HasPair(g: Group) {
    exists k :: 0 <= k < |g.items| && g.items[k].U16le?
  }

  /** `_require_group_response_bound`: only groups with byte pairs are measured, behind
      the longest cursor there can be. */
  predicate BoundChecked(g: Group) {
    HasPair(g) ==> PageBytes([g], Some(MAX_GROUPS)) <= MAX_GROUP_PAGE_BYTES
  }

  predicate Admitted(g: Group) {
    GroupOk(g) && |g.items| <= MAX_ITEMS_PER_GROUP && BoundChecked(g)
  }

  lemma {:induction false} TextBytesAtMost(s: string)
    ensures TextBytes(s) <= 4 * |s|
  {
    if s != "" {
      TextBytesAtMost(s[1..]);
    }
  }

  /** A watch without a byte pair takes at most 2100 bytes, with its comma. */
  lemma PlainWatchBytes(w: Watch)
    requires WatchOk(w) && !w.U16le?
    ensures WatchBytes(w) + 1 <= 2100
  {
    TextBytesAtMost(if w.Variable? then w.expression else w.path);
  }

  lemma {:induction false} PlainWatchesBytes(ws: seq<Watch>)
    requires forall k :: 0 <= k < |ws| ==> WatchOk(ws[k]) && !ws[k].U16le?
    ensures WatchesBytes(ws) <= 2100 * |ws|
  {
    if ws != [] {
      PlainWatchBytes(ws[0]);
      PlainWatchesBytes(ws[1..]);
    }
  }

  lemma TwelveDigits()
    ensures Digits(922337203685) == 12
  {
    assert Digits(9) == 1 && Digits(92) == 2 && Digits(922) == 3 && Digits(9223) == 4 && Digits(92233) == 5;
    assert Digits(922337) == 6 && Digits(9223372) == 7 && Digits(92233720) == 8 && Digits(922337203) == 9;
    assert Digits(9223372036) == 10 && Digits(92233720368) == 11;
  }

  lemma SmallDigits(n: nat)
    ensures n <= MAX_SIGNED_INT64 ==> Digits(n) <= 19
    ensures n < 1000 ==> Digits(n) <= 3
  {
    if n <= MAX_SIGNED_INT64 {
      assert Digits(MAX_SIGNED_INT64) == 19 by {
        TwelveDigits();
        assert Digits(9223372036854) == 13 && Digits(92233720368547) == 14 && Digits(922337203685477) == 15;
        assert Digits(9223372036854775) == 16 && Digits(92233720368547758) == 17 && Digits(922337203685477580) == 18;
      }
      DigitsMonotone(n, MAX_SIGNED_INT64);
    }
    if n < 1000 {
      assert Digits(9) == 1 && Digits(99) == 2 && Digits(999) == 3;
      DigitsMonotone(n, 999);
    }
  }

  /** Cursors of a page are at most as long as the one the check uses, and within the
      512 characters a page accepts. */
  lemma CursorsAreShort(offset: nat)
    requires offset <= MAX_GROUPS
    ensures CursorBytes(offset) <= CursorBytes(MAX_GROUPS) <= 512
  {
    DigitsMonotone(offset, MAX_GROUPS);
    SmallDigits(MAX_GROUPS);
  }

  /** Every admitted group fits alone in a page, whatever its cursor: groups with byte
      pairs because they were measured, the others by their limits. */
  lemma AdmittedFitsAlone(g: Group, next: Option<nat>)
    requires Admitted(g) && (next.Some? ==> next.value <= MAX_GROUPS)
    ensures PageBytes([g], next) <= MAX_GROUP_PAGE_BYTES
  {
    CursorsAreShort(if next.Some? then next.value else 0);
    if !HasPair(g) {
      PlainWatchesBytes(g.items);
      TextBytesAtMost(g.name);
      TextBytesAtMost(g.description);
      SmallDigits(g.revision);
      SmallDigits(g.interval);
      DigitsMonotone(g.interval, MAX_SIGNED_INT64);
      SmallDigits(MAX_SIGNED_INT64);
    }
  }

  // Pages

  /** The revision of a list is a digest of its ids and revisions; the list of those
      stands for the digest. */
  function Revision(gs: seq<Group>): (r: seq<(int, nat)>)
    ensures |r| == |gs|
  {
    seq(|gs|, k requires 0 <= k < |gs| => (gs[k].id, gs[k].revision))
  }

  datatype Cursor = Cursor(revision: seq<(int, nat)>, offset: nat)

  datatype PageReply = Invalid | TooLarge | Page(groups: seq<Group>, next: Option<Cursor>)

  /** The next offset when groups remain. */
  function NextOffset(gs: seq<Group>, end: nat): Option<nat> {
    if end < |gs| then Some(end) else None
  }

  /** The first `k` groups from `offset` on fit in a page with the cursor behind them. */
  predicate Fits(gs: seq<Group>, offset: nat, k: nat)
    requires offset + k <= |gs|
  {
    PageBytes(gs[offset..offset + k], NextOffset(gs, offset + k)) <= MAX_GROUP_PAGE_BYTES
  }

  /** How many groups from `offset` on a page takes: as many as fit, each prefix with
      its own cursor. */
  function Taken(gs: seq<Group>, offset: nat, limit: nat, n: nat): (r: nat)
    requires offset + n <= |gs| && n <= limit
    ensures n <= r <= limit && offset + r <= |gs|
    decreases limit - n
  {
    if n == limit || offset + n == |gs| || !Fits(gs, offset, n + 1) then n else Taken(gs, offset, limit, n + 1)
  }

  /** Every prefix that is taken fits, and one group more would not. */
  lemma {:induction false} TakenIsLongest(gs: seq<Group>, offset: nat, limit: nat, n: nat)
    requires offset + n <= |gs| && n <= limit
    ensures var r := Taken(gs, offset, limit, n);
            && (forall k :: n < k <= r ==> Fits(gs, offset, k))
            && (r < limit && offset + r < |gs| ==> !Fits(gs, offset, r + 1))
    decreases limit - n
  {
    hide Fits;
    if n < limit && offset + n < |gs| && Fits(gs, offset, n + 1) {
      TakenIsLongest(gs, offset, limit, n + 1);
    }
  }

  /** What a list query answers. A cursor is refused when the list's revision is not
      its own, or when nothing is left behind it. */
  function Listed(gs: seq<Group>, cursor: Option<Cursor>, limit: nat): PageReply {
    if limit < 1 || limit > MAX_GROUP_PAGE_GROUPS then Invalid
    else if cursor.Some? && (cursor.value.revision != Revision(gs) || cursor.value.offset < 1 || cursor.value.offset >= |gs|) then Invalid
    else
      var offset := if cursor.Some? then cursor.value.offset else 0;
      var n := Taken(gs, offset, limit, 0);
      if n == 0 && offset < |gs| then TooLarge
      else Page(gs[offset..offset + n], if offset + n < |gs| then Some(Cursor(Revision(gs), offset + n)) else None)
  }

  /** `list_group_page`. */
  method ListGroupPage(gs: seq<Group>, cursor: Option<Cursor>, limit: nat) returns (r: PageReply)
    ensures r == Listed(gs, cursor, limit)
  {
    hide Taken, Fits, Revision, PageBytes;
    if limit < 1 || limit > MAX_GROUP_PAGE_GROUPS {
      return Invalid;
    }
    var revision := Revision(gs);
    var offset := 0;
    if cursor.Some? {
      if cursor.value.revision != revision || cursor.value.offset < 1 {
        return Invalid;
      }
      offset := cursor.value.offset;
    }
    if offset > |gs| || (offset == |gs| && gs != []) {
      return Invalid;
    }
    var selected := SelectGroups(gs, offset, limit);
    if selected == [] && offset < |gs| {
      return TooLarge;
    }
    var end := offset + |selected|;
    return Page(selected, if end < |gs| then Some(Cursor(revision, end)) else None);
  }

  /** The selection loop: group by group while the page still fits. */
  method SelectGroups(gs: seq<Group>, offset: nat, limit: nat) returns (selected: seq<Group>)
    requires offset <= |gs|
    ensures selected == gs[offset..offset + Taken(gs, offset, limit, 0)]
  {
    hide PageBytes, NextOffset, Taken;
    selected := [];
    var i := 0;
    while i < limit && offset + i < |gs|
      invariant 0 <= i <= limit && offset + i <= |gs| && selected == gs[offset..offset + i]
      invariant Taken(gs, offset, limit, 0) == Taken(gs, offset, limit, i)
    {
      TakenStep(gs, offset, limit, i);
      var candidate := selected + [gs[offset + i]];
      assert candidate == gs[offset..offset + (i + 1)];
      if PageBytes(candidate, NextOffset(gs, offset + (i + 1))) > MAX_GROUP_PAGE_BYTES {
        assert !Fits(gs, offset, i + 1);
        return;
      }
      assert Fits(gs, offset, i + 1);
      selected := candidate;
      i := i + 1;
    }
    TakenStep(gs, offset, limit, i);
  }

  lemma TakenStep(gs: seq<Group>, offset: nat, limit: nat, n: nat)
    requires offset + n <= |gs| && n <= limit
    ensures n < limit && offset + n < |gs| ==>
              Taken(gs, offset, limit, n) == if Fits(gs, offset, n + 1) then Taken(gs, offset, limit, n + 1) else n
    ensures n == limit || offset + n == |gs| ==> Taken(gs, offset, limit, n) == n
  {
    hide Fits;
  }

  ghost predicate AllAdmitted(gs: seq<Group>) {
    |gs| <= MAX_GROUPS && forall k :: 0 <= k < |gs| ==> Admitted(gs[k])
  }

  lemma FirstFits(gs: seq<Group>, offset: nat)
    requires AllAdmitted(gs) && offset < |gs|
    ensures Fits(gs, offset, 1)
  {
    assert gs[offset..offset + 1] == [gs[offset]];
    AdmittedFitsAlone(gs[offset], NextOffset(gs, offset + 1));
    hide PageBytes, Admitted;
  }

  /** A page of admitted groups always moves on and is within the byte limit. */
  lemma PagesProgress(gs: seq<Group>, offset: nat, limit: nat)
    requires AllAdmitted(gs) && offset < |gs| && 1 <= limit <= MAX_GROUP_PAGE_GROUPS
    ensures var n := Taken(gs, offset, limit, 0);
            n >= 1 && Fits(gs, offset, n)
  {
    hide *;
    FirstFits(gs, offset);
    TakenIsLongest(gs, offset, limit, 0);
  }

  /** The cursor of position `offset`. */
  function CursorOf(gs: seq<Group>, offset: nat): Option<Cursor> {
    if offset == 0 then None else Some(Cursor(Revision(gs), offset))
  }

  /** Following the cursors of an unchanged list from `offset` on. */
  function FollowGroups(gs: seq<Group>, offset: nat, limit: nat): seq<PageReply>
    requires offset <= |gs|
    decreases |gs| - offset
  {
    var r := Listed(gs, CursorOf(gs, offset), limit);
    if r.Page? && r.next.Some? && offset < r.next.value.offset <= |gs| then [r] + FollowGroups(gs, r.next.value.offset, limit) else [r]
  }

  function PagedGroups(pages: seq<PageReply>): seq<Group> {
    if pages == [] then []
    else (if pages[0].Page? then pages[0].groups else []) + PagedGroups(pages[1..])
  }

  /** At constant revision the pages end and concatenate to the whole list. */
  lemma {:induction false} GroupPagingIsComplete(gs: seq<Group>, offset: nat, limit: nat)
    requires AllAdmitted(gs) && 1 <= limit <= MAX_GROUP_PAGE_GROUPS
    requires offset < |gs| || (offset == 0 && gs == [])
    ensures var pages := FollowGroups(gs, offset, limit);
            && PagedGroups(pages) == gs[offset..]
            && (forall k :: 0 <= k < |pages| ==> pages[k].Page?)
            && pages[|pages| - 1].next == None
    decreases |gs| - offset
  {
    hide *;
    if gs == [] {
      EmptyListing(limit);
      assert gs[0..] == [];
    } else {
      PagesProgress(gs, offset, limit);
      ListedPage(gs, offset, limit);
      var end := offset + Taken(gs, offset, limit, 0);
      var r := Page(gs[offset..end], CursorNext(gs, end));
      FollowStep(gs, offset, limit, end);
      if end < |gs| {
        GroupPagingIsComplete(gs, end, limit);
        PagedStep(r, FollowGroups(gs, end, limit));
        assert gs[offset..] == gs[offset..end] + gs[end..];
      } else {
        PagedStep(r, []);
        assert gs[offset..end] + [] == gs[offset..];
      }
    }
  }

  lemma EmptyListing(limit: nat)
    requires 1 <= limit <= MAX_GROUP_PAGE_GROUPS
    ensures FollowGroups([], 0, limit) == [Page([], None)] && PagedGroups([Page([], None)]) == []
  {
    var none: seq<Group> := [];
    assert Listed(none, CursorOf(none, 0), limit) == Page([], None) by {
      hide Revision;
      assert none[0..0] == [];
    }
    var pages := [Page([], None)];
    assert pages[1..] == [];
  }

  lemma PagedStep(r: PageReply, rest: seq<PageReply>)
    requires r.Page?
    ensures PagedGroups([r] + rest) == r.groups + PagedGroups(rest) && PagedGroups([]) == []
    ensures [r] + [] == [r]
  {
    assert ([r] + rest)[1..] == rest;
  }

  /** One step of following the cursors. */
  lemma FollowStep(gs: seq<Group>, offset: nat, limit: nat, end: nat)
    requires offset < end <= |gs|
    requires Listed(gs, CursorOf(gs, offset), limit) == Page(gs[offset..end], CursorNext(gs, end))
    ensures FollowGroups(gs, offset, limit) ==
            if end < |gs| then [Page(gs[offset..end], CursorNext(gs, end))] + FollowGroups(gs, end, limit)
            else [Page(gs[offset..end], CursorNext(gs, end))]
    ensures (end == |gs|) == CursorNext(gs, end).None?
  {
    hide Listed, Revision;
  }

  lemma ListedPage(gs: seq<Group>, offset: nat, limit: nat)
    requires offset < |gs| && 1 <= limit <= MAX_GROUP_PAGE_GROUPS && Taken(gs, offset, limit, 0) >= 1
    ensures var end := offset + Taken(gs, offset, limit, 0);
            Listed(gs, CursorOf(gs, offset), limit) == Page(gs[offset..end], CursorNext(gs, end))
  {
    hide Taken, Fits;
  }

  function CursorNext(gs: seq<Group>, end: nat): Option<Cursor> {
    if end < |gs| then Some(Cursor(Revision(gs), end)) else None
  }

  /** A cursor works on a list exactly when the list has the ids and revisions of the
      list it came from. */
  lemma StaleCursorsAreRefused(before: seq<Group>, after: seq<Group>, offset: nat, limit: nat)
    requires 1 <= offset < |before| && 1 <= limit <= MAX_GROUP_PAGE_GROUPS
    ensures Listed(after, Some(Cursor(Revision(before), offset)), limit).Invalid? <==> Revision(before) != Revision(after)
  {
  }

  /** Field by field: it is refused exactly if a group was added, removed, moved or
      replaced, or its revision changed. */
  lemma StaleExactly(before: seq<Group>, after: seq<Group>, offset: nat, limit: nat)
    requires 1 <= offset < |before| && 1 <= limit <= MAX_GROUP_PAGE_GROUPS
    ensures Listed(after, Some(Cursor(Revision(before), offset)), limit).Invalid? <==>
              || |before| != |after|
              || exists k :: 0 <= k < |before| && (before[k].id != after[k].id || before[k].revision != after[k].revision)
  {
    hide Taken, Revision;
    RevisionExactly(before, after);
  }

  lemma RevisionExactly(a: seq<Group>, b: seq<Group>)
    ensures Revision(a) == Revision(b) <==>
              |a| == |b| && forall k :: 0 <= k < |a| ==> a[k].id == b[k].id && a[k].revision == b[k].revision
  {
    if Revision(a) == Revision(b) {
      forall k | 0 <= k < |a|
        ensures a[k].id == b[k].id && a[k].revision == b[k].revision
      {
        assert Revision(a)[k] == Revision(b)[k];
      }
    }
  }

  /** The size of a page of `k` groups from `from` on, with its cursor. */
  function SizeOf(gs: seq<Group>, from: nat, k: nat): nat
    requires from + k <= |gs|
  {
    PageBytes(gs[from..from + k], if from + k < |gs| then Some(from + k) else None)
  }

  /** What a page without a cursor, or with a good one, holds: the groups from there on,
      as many as fit one by one, up to the limit. */
  lemma ListedExactly(gs: seq<Group>, cursor: Option<Cursor>, limit: nat)
    requires Listed(gs, cursor, limit).Page?
    ensures var p := Listed(gs, cursor, limit);
            var from := if cursor.Some? then cursor.value.offset else 0;
            var n := |p.groups|;
            && 1 <= limit <= 16 && (cursor.Some? ==> 1 <= from < |gs|)
            && n <= limit && from + n <= |gs| && (n == 0 <==> gs == [])
            && (forall k :: 0 <= k < n ==> p.groups[k] == gs[from + k])
            && (forall k :: 0 < k <= n ==> SizeOf(gs, from, k) <= 1_044_480)
            && (n < limit && from + n < |gs| ==> SizeOf(gs, from, n + 1) > 1_044_480)
            && (p.next.Some? <==> from + n < |gs|) && (p.next.Some? ==> p.next.value.offset == from + n)
  {
    hide *;
    ListedTakes(gs, cursor, limit);
    TakenFits(gs, if cursor.Some? then cursor.value.offset else 0, limit);
  }

  lemma ListedTakes(gs: seq<Group>, cursor: Option<Cursor>, limit: nat)
    requires Listed(gs, cursor, limit).Page?
    ensures var p := Listed(gs, cursor, limit);
            var from := if cursor.Some? then cursor.value.offset else 0;
            && 1 <= limit <= 16 && (cursor.Some? ==> 1 <= from < |gs|) && from <= |gs|
            && var n := Taken(gs, from, limit, 0);
            && from + n <= |gs| && p.groups == gs[from..from + n] && (n == 0 <==> gs == [])
            && (p.next.Some? <==> from + n < |gs|) && (p.next.Some? ==> p.next.value.offset == from + n)
  {
    hide Taken, Revision;
  }

  lemma TakenFits(gs: seq<Group>, from: nat, limit: nat)
    requires from <= |gs|
    ensures var n := Taken(gs, from, limit, 0);
            && n <= limit && from + n <= |gs| && (forall k :: 0 < k <= n ==> SizeOf(gs, from, k) <= 1_044_480)
            && (n < limit && from + n < |gs| ==> SizeOf(gs, from, n + 1) > 1_044_480)
  {
    TakenIsLongest(gs, from, limit, 0);
    hide Taken, PageBytes;
    forall k | 0 < k <= Taken(gs, from, limit, 0)
      ensures SizeOf(gs, from, k) <= 1_044_480
    {
      assert Fits(gs, from, k);
    }
  }
}
