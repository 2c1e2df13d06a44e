/** The JSON text of watch groups and their pages: what the sizes are sizes of. */
module GroupTexts {
  import opened Basics
  import opened PageSize
  import opened PageExact
  import opened GroupPages
  import Utf8

  /** Bytes of a text in UTF-8. */
  function Length(s: string): nat {
    if s == "" then 0 else |Utf8.Encode(s[0])| + Length(s[1..])
  }

  lemma {:induction false} LengthJoins(a: string, b: string)
    ensures Length(a + b) == Length(a) + Length(b)
  {
    if a == "" {
      assert a + b == b;
    } else {
      assert (a + b)[1..] == a[1..] + b;
      LengthJoins(a[1..], b);
    }
  }

  predicate AllAscii(s: string) {
    forall k :: 0 <= k < |s| ==> s[k] < '\U{80}'
  }

  lemma {:induction false} AsciiLength(s: string)
    requires AllAscii(s)
    ensures Length(s) == |s|
  {
    if s != "" {
      assert !NonAscii(s[0]);
      AsciiLength(s[1..]);
    }
  }

  lemma DecimalLength(n: nat)
    ensures Length(Decimal(n)) == Digits(n)
  {
    DecimalReads(n);
    AsciiLength(Decimal(n));
  }

  // Texts

  /** Quotes and backslashes take a backslash in front; control characters do not occur. */
  function Escape(s: string): string {
    if s == "" then ""
    else (if s[0] == '"' then "\\\"" else if s[0] == '\\' then "\\\\" else [s[0]]) + Escape(s[1..])
  }

  function Quote(s: string): string {
    "\"" + Escape(s) + "\""
  }

  function WatchText(w: Watch): string {
    match w
    case Variable(s) => "{\"kind\":\"variable\",\"expression\":" + Quote(s) + "}"
    case Register(s) => "{\"kind\":\"register\",\"registerPath\":" + Quote(s) + "}"
    case U16le(a, b) => "{\"kind\":\"u16le\",\"lowExpression\":" + Quote(a) + ",\"highExpression\":" + Quote(b) + "}"
  }

  function Commas(ts: seq<string>): string {
    if ts == [] then "" else if |ts| == 1 then ts[0] else ts[0] + "," + Commas(ts[1..])
  }

  function WatchTexts(ws: seq<Watch>): seq<string> {
    seq(|ws|, k requires 0 <= k < |ws| => WatchText(ws[k]))
  }

  // The fixed parts of a page

  const GROUP_ID := "{\"groupId\":\""
  const NAME := "\",\"name\":"
  const DESCRIPTION := ",\"description\":"
  const INTERVAL := ",\"intervalMs\":"
  const ITEMS := ",\"items\":["
  const REVISION := "],\"revision\":"
  const CREATED := ",\"createdAtUtc\":\""
  const UPDATED := "\",\"updatedAtUtc\":\""
  const END := "\"}"
  const GROUPS := "{\"groups\":["
  const NEXT := "],\"nextCursor\":"
  const LIST_REVISION := ",\"revision\":\""

  /** The identity and times of a group in text. */
  datatype Stamp = Stamp(id: string, created: string, updated: string)

  predicate StampOk(s: Stamp) {
    && AllAscii(s.id) && AllAscii(s.created) && AllAscii(s.updated)
    && |s.id| == |"00000000-0000-0000-0000-000000000000"|
    && |s.created| == |"0000-00-00T00:00:00.000000Z"| && |s.updated| == |s.created|
  }

  function GroupHead(g: Group, s: Stamp): string {
    GROUP_ID + s.id + NAME + Quote(g.name) + DESCRIPTION + Quote(g.description)
  }

  function GroupMiddle(g: Group): string {
    INTERVAL + Decimal(g.interval) + ITEMS + Commas(WatchTexts(g.items)) + REVISION + Decimal(g.revision)
  }

  function GroupTail(s: Stamp): string {
    CREATED + s.created + UPDATED + s.updated + END
  }

  function GroupText(g: Group, s: Stamp): string {
    GroupHead(g, s) + GroupMiddle(g) + GroupTail(s)
  }

  function GroupTextsOf(gs: seq<Group>, stamps: seq<Stamp>): seq<string>
    requires |stamps| == |gs|
  {
    seq(|gs|, k requires 0 <= k < |gs| => GroupText(gs[k], stamps[k]))
  }

  /** What a cursor's token is the base64 form of: offset, revision, version and
      workspace, and the signature. */
  function CursorText(offset: nat, revision: string, workspace: string, signature: string): string {
    "{\"i\":" + Decimal(offset) + ",\"r\":\"" + revision + "\",\"v\":1,\"w\":\"" + workspace + "\"}." + signature
  }

  function TokenText(token: Option<string>): string {
    if token.Some? then "\"" + token.value + "\"" else "null"
  }

  function PageJson(gs: seq<Group>, stamps: seq<Stamp>, token: Option<string>, revision: string): string
    requires |stamps| == |gs|
  {
    GROUPS + Commas(GroupTextsOf(gs, stamps)) + NEXT
    + TokenText(token) + LIST_REVISION + revision + END
  }

  // Lengths

  lemma {:induction false} EscapeLength(s: string)
    ensures Length(Escape(s)) == TextBytes(s)
  {
    if s != "" {
      EscapeLength(s[1..]);
      var first := if s[0] == '"' then "\\\"" else if s[0] == '\\' then "\\\\" else [s[0]];
      LengthJoins(first, Escape(s[1..]));
      FirstLength(s[0], first);
    }
  }

  lemma FirstLength(c: char, first: string)
    requires first == if c == '"' then "\\\"" else if c == '\\' then "\\\\" else [c]
    ensures Length(first) == CharBytes(c)
  {
    if c == '"' || c == '\\' {
      AsciiLength(first);
    } else {
      assert first[1..] == "";
    }
  }

  lemma QuoteLength(s: string)
    ensures Length(Quote(s)) == StringBytes(s)
  {
    EscapeLength(s);
    AsciiLength("\"");
    hide Length, Escape;
    LengthJoins("\"", Escape(s));
    LengthJoins("\"" + Escape(s), "\"");
  }

  lemma ThreeLength(a: string, b: string, c: string)
    ensures Length(a + b + c) == Length(a) + Length(b) + Length(c)
  {
    hide Length;
    LengthJoins(a, b);
    LengthJoins(a + b, c);
  }

  lemma WatchLength(w: Watch)
    ensures Length(WatchText(w)) == WatchBytes(w)
  {
    hide Length, Quote, StringBytes;
    match w {
      case Variable(s) =>
        QuoteLength(s);
        AsciiLength("{\"kind\":\"variable\",\"expression\":");
        AsciiLength("}");
        ThreeLength("{\"kind\":\"variable\",\"expression\":", Quote(s), "}");
      case Register(s) =>
        QuoteLength(s);
        AsciiLength("{\"kind\":\"register\",\"registerPath\":");
        AsciiLength("}");
        ThreeLength("{\"kind\":\"register\",\"registerPath\":", Quote(s), "}");
      case U16le(a, b) =>
        QuoteLength(a);
        QuoteLength(b);
        AsciiLength("{\"kind\":\"u16le\",\"lowExpression\":");
        AsciiLength(",\"highExpression\":");
        AsciiLength("}");
        ThreeLength("{\"kind\":\"u16le\",\"lowExpression\":", Quote(a), ",\"highExpression\":");
        ThreeLength("{\"kind\":\"u16le\",\"lowExpression\":" + Quote(a) + ",\"highExpression\":", Quote(b), "}");
    }
  }

  lemma CommasLength(first: string, rest: string)
    ensures Length(first + "," + rest) == Length(first) + 1 + Length(rest)
  {
    AsciiLength(",");
    ThreeLength(first, ",", rest);
  }

  lemma {:induction false} WatchesLength(ws: seq<Watch>)
    ensures Length(Commas(WatchTexts(ws))) == WatchesBytes(ws)
  {
    if ws != [] {
      var ts := WatchTexts(ws);
      assert ts[1..] == WatchTexts(ws[1..]);
      WatchesLength(ws[1..]);
      WatchLength(ws[0]);
      hide Length, WatchText, WatchBytes;
      CommasLength(ts[0], Commas(ts[1..]));
    }
  }

  /** Six texts in a row. */
  lemma SixLength(a: string, b: string, c: string, d: string, e: string, f: string)
    ensures Length(a + b + c + d + e + f) == Length(a) + Length(b) + Length(c) + Length(d) + Length(e) + Length(f)
  {
    hide Length;
    ThreeLength(a, b, c);
    ThreeLength(a + b + c, d, e);
    LengthJoins(a + b + c + d + e, f);
  }

  lemma GroupIdLength()
    ensures Length(GROUP_ID) == 12
  {
    hide Length;
    AsciiLength(GROUP_ID);
  }

  lemma NameLength()
    ensures Length(NAME) == 9
  {
    hide Length;
    AsciiLength(NAME);
  }

  lemma DescriptionLength()
    ensures Length(DESCRIPTION) == 15
  {
    hide Length;
    AsciiLength(DESCRIPTION);
  }

  lemma IntervalLength()
    ensures Length(INTERVAL) == 14
  {
    hide Length;
    AsciiLength(INTERVAL);
  }

  lemma ItemsLength()
    ensures Length(ITEMS) == 10
  {
    hide Length;
    AsciiLength(ITEMS);
  }

  lemma RevisionLength()
    ensures Length(REVISION) == 13
  {
    hide Length;
    AsciiLength(REVISION);
  }

  lemma CreatedLength()
    ensures Length(CREATED) == 17
  {
    hide Length;
    AsciiLength(CREATED);
  }

  lemma UpdatedLength()
    ensures Length(UPDATED) == 18
  {
    hide Length;
    AsciiLength(UPDATED);
  }

  lemma EndLength()
    ensures Length(END) == 2
  {
    hide Length;
    AsciiLength(END);
  }

  lemma GroupsLabelLength()
    ensures Length(GROUPS) == 11
  {
    hide Length;
    AsciiLength(GROUPS);
  }

  lemma NextLength()
    ensures Length(NEXT) == 15
  {
    hide Length;
    AsciiLength(NEXT);
  }

  lemma ListRevisionLength()
    ensures Length(LIST_REVISION) == 13
  {
    hide Length;
    AsciiLength(LIST_REVISION);
  }

  lemma HeadLength(g: Group, s: Stamp)
    requires StampOk(s)
    ensures Length(GroupHead(g, s)) == 12 + 36 + 9 + StringBytes(g.name) + 15 + StringBytes(g.description)
  {
    hide Length, Quote, StringBytes, GROUP_ID, NAME, DESCRIPTION;
    QuoteLength(g.name);
    QuoteLength(g.description);
    GroupIdLength();
    AsciiLength(s.id);
    NameLength();
    DescriptionLength();
    SixLength(GROUP_ID, s.id, NAME, Quote(g.name), DESCRIPTION, Quote(g.description));
  }

  lemma MiddleLength(g: Group)
    ensures Length(GroupMiddle(g)) == 14 + Digits(g.interval) + 10 + WatchesBytes(g.items) + 13 + Digits(g.revision)
  {
    hide Length, Decimal, Digits, Commas, WatchTexts, WatchesBytes, INTERVAL, ITEMS, REVISION;
    DecimalLength(g.interval);
    DecimalLength(g.revision);
    WatchesLength(g.items);
    IntervalLength();
    ItemsLength();
    RevisionLength();
    SixLength(INTERVAL, Decimal(g.interval), ITEMS, Commas(WatchTexts(g.items)), REVISION, Decimal(g.revision));
  }

  lemma TailLength(s: Stamp)
    requires StampOk(s)
    ensures Length(GroupTail(s)) == 17 + 27 + 18 + 27 + 2
  {
    hide Length, CREATED, UPDATED, END;
    CreatedLength();
    AsciiLength(s.created);
    UpdatedLength();
    AsciiLength(s.updated);
    EndLength();
    ThreeLength(CREATED, s.created, UPDATED);
    ThreeLength(CREATED + s.created + UPDATED, s.updated, END);
  }

  lemma GroupLength(g: Group, s: Stamp)
    requires StampOk(s)
    ensures Length(GroupText(g, s)) == GroupBytes(g)
  {
    HeadLength(g, s);
    MiddleLength(g);
    TailLength(s);
    hide Length, GroupHead, GroupMiddle, GroupTail, StringBytes, WatchesBytes, Digits;
    ThreeLength(GroupHead(g, s), GroupMiddle(g), GroupTail(s));
  }

  lemma {:induction false} GroupsLength(gs: seq<Group>, stamps: seq<Stamp>)
    requires |stamps| == |gs| && forall k :: 0 <= k < |gs| ==> StampOk(stamps[k])
    ensures Length(Commas(GroupTextsOf(gs, stamps))) == GroupsBytes(gs)
  {
    if gs != [] {
      var ts := GroupTextsOf(gs, stamps);
      assert ts[1..] == GroupTextsOf(gs[1..], stamps[1..]);
      GroupsLength(gs[1..], stamps[1..]);
      GroupLength(gs[0], stamps[0]);
      hide Length, GroupText, GroupBytes, StampOk;
      CommasLength(ts[0], Commas(ts[1..]));
    }
  }

  /** The measured size of a page is the length of its JSON in UTF-8, for any identities
      and times of the groups and any token as long as the base64 form of a cursor with a
      revision, a workspace and a signature of 64 characters. */
  lemma PageIsItsText(gs: seq<Group>, stamps: seq<Stamp>, token: Option<string>, next: Option<nat>, revision: string,
                      r: string, w: string, signature: string)
    requires |stamps| == |gs| && forall k :: 0 <= k < |gs| ==> StampOk(stamps[k])
    requires AllAscii(revision) && |revision| == |r| == |w| == |signature| == 64
    requires token.Some? == next.Some?
    requires token.Some? ==> AllAscii(token.value) && |token.value| == (4 * |CursorText(next.value, r, w, signature)| + 2) / 3
    ensures Length(PageJson(gs, stamps, token, revision)) == PageBytes(gs, next)
  {
    hide Length, Commas, GroupTextsOf, GroupsBytes, CursorText, TokenText, GROUPS, NEXT, LIST_REVISION, END, StampOk, AllAscii;
    GroupsLength(gs, stamps);
    if token.Some? {
      CursorLength(next.value, r, w, signature);
    }
    TokenLength(token);
    GroupsLabelLength();
    NextLength();
    ListRevisionLength();
    AsciiLength(revision);
    EndLength();
    SixLength(GROUPS, Commas(GroupTextsOf(gs, stamps)), NEXT, TokenText(token), LIST_REVISION, revision);
    LengthJoins(GROUPS + Commas(GroupTextsOf(gs, stamps)) + NEXT + TokenText(token) + LIST_REVISION + revision, END);
  }

  lemma TokenLength(token: Option<string>)
    requires token.Some? ==> AllAscii(token.value)
    ensures Length(TokenText(token)) == if token.Some? then 2 + |token.value| else 4
  {
    AsciiLength(TokenText(token));
  }

  lemma CursorLength(offset: nat, r: string, w: string, signature: string)
    requires |r| == |w| == |signature| == 64
    ensures |CursorText(offset, r, w, signature)| == CursorPayload(offset)
  {
    DecimalReads(offset);
    hide Decimal, Digits;
  }
}
