/** The comment locator over the spliced characters, as functions that return the
    next position and the trace of comments and alarms met on the way. It knows
    the lexical forms of ISO/IEC 9899:2018 sections 6.4.9 (comments) and 6.4.7
    (header names) and the C++ forms of header-unit imports. */
module Lexer {
  import opened Basics
  import opened Findings

  /** A comment's content range, or a non-ASCII character met outside comments. */
  datatype Event = Comment(start: nat, end: nat) | Alarm(at: nat)

  /** Where lexing goes on, or the form it refuses, after the events so far. */
  datatype Lexed =
    | Go(next: nat, events: seq<Event>, flag: bool)
    | Abort(code: Code, at: nat, events: seq<Event>)

  const HEADER_DIRECTIVES: set<string> := {"include", "include_next", "import", "embed"}
  const HEADER_OPERATORS: set<string> := {"__has_include", "__has_include_next", "__has_embed", "__has_embed_next"}
  const RAW_PREFIXES: set<string> := {"R", "u8R", "uR", "UR", "LR"}

  function After(events: seq<Event>, r: Lexed): Lexed {
    match r
    case Go(n, more, f) => Go(n, events + more, f)
    case Abort(c, a, more) => Abort(c, a, events + more)
  }

  lemma AfterNothing(r: Lexed)
    ensures After([], r) == r
  {
    assert [] + r.events == r.events;
  }

  lemma AfterAfter(a: seq<Event>, b: seq<Event>, r: Lexed)
    ensures After(a, After(b, r)) == After(a + b, r)
  {
    assert a + (b + r.events) == a + b + r.events;
  }

  function WithFlag(r: Lexed, flag: bool): Lexed {
    match r
    case Go(n, events, _) => Go(n, events, flag)
    case Abort(_, _, _) => r
  }

  predicate AbortsInside(s: string, r: Lexed) {
    r.Abort? ==> r.at < |s|
  }

  predicate Ahead(s: string, i: nat, r: Lexed) {
    r.Go? ==> i <= r.next <= |s|
  }

  function AlarmAt(s: string, i: nat): seq<Event>
    requires i < |s|
  {
    if NonAscii(s[i]) then [Alarm(i)] else []
  }

  predicate Pair(s: string, i: nat, a: char, b: char) {
    i + 1 < |s| && s[i] == a && s[i + 1] == b
  }

  function LineEnd(s: string, p: nat): (e: nat)
    requires p <= |s|
    ensures p <= e <= |s|
    decreases |s| - p
  {
    if p < |s| && !IsNewline(s[p]) then LineEnd(s, p + 1) else p
  }

  function LineComment(s: string, i: nat): (r: Lexed)
    requires i + 2 <= |s|
    ensures r.Go? && i + 2 <= r.next <= |s|
    ensures AbortsInside(s, r)
  {
    Go(LineEnd(s, i + 2), [Comment(i + 2, LineEnd(s, i + 2))], true)
  }

  function CommentClose(s: string, p: nat): (r: Option<nat>)
    requires p <= |s|
    ensures r.Some? ==> p <= r.value && Pair(s, r.value, '*', '/')
    decreases |s| - p
  {
    if p == |s| then None
    else if Pair(s, p, '*', '/') then Some(p)
    else CommentClose(s, p + 1)
  }

  predicate HasNewline(s: string, a: nat, b: nat)
    requires a <= b <= |s|
  {
    exists k :: a <= k < b && IsNewline(s[k])
  }

  /** The flag tells whether the comment spans a line. */
  function BlockComment(s: string, i: nat): (r: Lexed)
    requires i + 2 <= |s|
    ensures r.Go? ==> i + 4 <= r.next <= |s|
    ensures AbortsInside(s, r)
  {
    match CommentClose(s, i + 2)
    case None => Abort(UNTERMINATED_BLOCK_COMMENT, i, [])
    case Some(q) => Go(q + 2, [Comment(i + 2, q)], HasNewline(s, i + 2, q))
  }

  /** White space and comments between preprocessing tokens. The flag tells
      whether the line ended. */
  function SkipSpace(s: string, c: nat): (r: Lexed)
    requires c <= |s|
    ensures r.Go? && !r.flag ==> r.next < |s|
    ensures Ahead(s, c, r)
    ensures AbortsInside(s, r)
    decreases |s| - c
  {
    if c == |s| then Go(c, [], true)
    else if IsHSpace(s[c]) then SkipSpace(s, c + 1)
    else if IsNewline(s[c]) then Go(c, [], true)
    else if Pair(s, c, '/', '/') then LineComment(s, c)
    else if Pair(s, c, '/', '*') then
      var b := BlockComment(s, c);
      if b.Abort? then b else After(b.events, SkipSpace(s, b.next))
    else Go(c, [], false)
  }

  /** The rest of a header name opened at `open`. */
  function HeaderBody(s: string, p: nat, closer: char, open: nat): (r: Lexed)
    requires p <= |s| && open < |s|
    ensures Ahead(s, p + 1, r)
    ensures AbortsInside(s, r)
    decreases |s| - p
  {
    if p == |s| then Abort(UNTERMINATED_HEADER_NAME, open, [])
    else if s[p] == closer then Go(p + 1, [], true)
    else if IsNewline(s[p]) then Abort(UNTERMINATED_HEADER_NAME, open, [])
    else After(AlarmAt(s, p), HeaderBody(s, p + 1, closer, open))
  }

  /** A header name when one starts here; anything else is left to later lexing. */
  function Operand(s: string, c: nat): (r: Lexed)
    requires c <= |s|
    ensures Ahead(s, c, r)
    ensures AbortsInside(s, r)
  {
    if c < |s| && (s[c] == '<' || s[c] == '"') then HeaderBody(s, c + 1, if s[c] == '<' then '>' else '"', c)
    else Go(c, [], true)
  }

  function SpacedOperand(s: string, c: nat): (r: Lexed)
    requires c <= |s|
    ensures Ahead(s, c, r)
    ensures AbortsInside(s, r)
  {
    var k := SkipSpace(s, c);
    if k.Abort? || k.flag then k else After(k.events, Operand(s, k.next))
  }

  function IdentEnd(s: string, p: nat): (e: nat)
    requires p <= |s|
    ensures p <= e <= |s|
    decreases |s| - p
  {
    if p < |s| && IsIdent(s[p]) then IdentEnd(s, p + 1) else p
  }

  /** The operand an include-like directive must have on its line. */
  function IncludeOperand(s: string, nameStart: nat, c: nat): (r: Lexed)
    requires c <= |s| && nameStart < |s|
    ensures Ahead(s, c, r)
    ensures AbortsInside(s, r)
  {
    var k := SkipSpace(s, c);
    if k.Abort? then k
    else if k.flag then Abort(UNSUPPORTED_INCLUDE_FORM, nameStart, k.events)
    else After(k.events, Operand(s, k.next))
  }

  function DirectiveName(s: string, start: nat): (r: Lexed)
    requires start < |s|
    ensures Ahead(s, start, r)
    ensures AbortsInside(s, r)
  {
    var e := IdentEnd(s, start);
    if s[start..e] in HEADER_DIRECTIVES then IncludeOperand(s, start, e) else Go(e, [], true)
  }

  function Directive(s: string, i: nat, hashLength: nat): (r: Lexed)
    requires i + hashLength <= |s|
    ensures Ahead(s, i + hashLength, r)
    ensures AbortsInside(s, r)
  {
    var k := SkipSpace(s, i + hashLength);
    if k.Abort? || k.flag then k else After(k.events, DirectiveName(s, k.next))
  }

  function AfterExport(s: string, c: nat): (r: Lexed)
    requires c <= |s|
    ensures Ahead(s, c, r)
    ensures AbortsInside(s, r)
  {
    var e := IdentEnd(s, c);
    if s[c..e] == "import" then SpacedOperand(s, e) else Go(e, [], true)
  }

  /** `import` and `export import` header units at the start of a line. */
  function LineStartImport(s: string, i: nat): (r: Option<Lexed>)
    requires i < |s| && IsIdentStart(s[i])
    ensures r.Some? ==> Ahead(s, i + 1, r.value) && AbortsInside(s, r.value)
  {
    var e := IdentEnd(s, i);
    assert e >= i + 1;
    var word := s[i..e];
    if word == "import" then Some(SpacedOperand(s, e))
    else if word == "export" then
      var k := SkipSpace(s, e);
      Some(if k.Abort? || k.flag then k else After(k.events, AfterExport(s, k.next)))
    else None
  }

  /** The operand of `__has_include` and its kin. */
  function HeaderOperator(s: string, c: nat): (r: Lexed)
    requires c <= |s|
    ensures Ahead(s, c, r)
    ensures AbortsInside(s, r)
  {
    var k := SkipSpace(s, c);
    if k.Abort? || k.flag || k.next == |s| || s[k.next] != '(' then k
    else After(k.events, SpacedOperand(s, k.next + 1))
  }

  function Word(s: string, i: nat): (r: Lexed)
    requires i < |s| && IsIdentStart(s[i])
    ensures Ahead(s, i + 1, r)
    ensures AbortsInside(s, r)
  {
    var e := IdentEnd(s, i + 1);
    var word := s[i..e];
    if word in RAW_PREFIXES && e < |s| && s[e] == '"' then Abort(RAW_STRING_UNSUPPORTED, i, [])
    else if word in HEADER_OPERATORS then HeaderOperator(s, e)
    else Go(e, [], true)
  }

  function Unterminated(quote: char): Code {
    if quote == '"' then UNTERMINATED_STRING else UNTERMINATED_CHAR
  }

  /** The rest of a string or character literal opened at `open`. */
  function Quoted(s: string, p: nat, quote: char, open: nat): (r: Lexed)
    requires p <= |s| && open < |s|
    ensures Ahead(s, p, r)
    ensures AbortsInside(s, r)
    decreases |s| - p
  {
    if p == |s| then Abort(Unterminated(quote), open, [])
    else if s[p] == '\\' then
      if p + 1 == |s| || IsNewline(s[p + 1]) then Abort(Unterminated(quote), open, [])
      else After(AlarmAt(s, p + 1), Quoted(s, p + 2, quote, open))
    else if s[p] == quote then Go(p + 1, [], true)
    else if IsNewline(s[p]) then Abort(Unterminated(quote), open, [])
    else After(AlarmAt(s, p), Quoted(s, p + 1, quote, open))
  }

  /** The position a turn of the literal loop examines: behind a backslash, the
      escaped character. */
  function Examined(s: string, p: nat): nat {
    if p < |s| && s[p] == '\\' then p + 1 else p
  }

  predicate ClosesAt(s: string, p: nat, quote: char) {
    p < |s| && s[p] == quote && quote != '\\'
  }

  predicate BreaksAt(s: string, q: nat) {
    q >= |s| || IsNewline(s[q])
  }

  lemma QuotedStep(s: string, p: nat, quote: char, open: nat)
    requires p <= |s| && open < |s|
    ensures ClosesAt(s, p, quote) ==> Quoted(s, p, quote, open) == Go(p + 1, [], true)
    ensures !ClosesAt(s, p, quote) && BreaksAt(s, Examined(s, p)) ==>
              Quoted(s, p, quote, open) == Abort(Unterminated(quote), open, [])
    ensures !ClosesAt(s, p, quote) && !BreaksAt(s, Examined(s, p)) ==>
              Quoted(s, p, quote, open) ==
              After(AlarmAt(s, Examined(s, p)), Quoted(s, Examined(s, p) + 1, quote, open))
  {
  }

  function CharacterLiteral(s: string, i: nat): (r: Lexed)
    requires i < |s|
    ensures Ahead(s, i + 1, r)
    ensures AbortsInside(s, r)
  {
    if i + 1 == |s| then Abort(UNTERMINATED_CHAR, i, [])
    else if s[i + 1] == '\'' then Abort(MALFORMED_CHAR_LITERAL, i, [])
    else Quoted(s, i + 1, '\'', i)
  }

  /** A token that is not white space, a directive, an import or a comment. */
  function PlainToken(s: string, i: nat): (r: Lexed)
    requires i < |s|
    ensures Ahead(s, i + 1, r)
    ensures AbortsInside(s, r)
  {
    if s[i] == '\'' then CharacterLiteral(s, i)
    else if s[i] == '"' then Quoted(s, i + 1, '"', i)
    else if IsIdentStart(s[i]) then Word(s, i)
    else if s[i] == '\\' then Abort(STRAY_BACKSLASH, i, [])
    else Go(i + 1, AlarmAt(s, i), false)
  }

  /** One turn of the main loop. The flag tells whether only white space and
      comments have been seen on the line so far. */
  function Token(s: string, i: nat, lineStart: bool): (r: Lexed)
    requires i < |s|
    ensures Ahead(s, i + 1, r)
    ensures AbortsInside(s, r)
  {
    if IsNewline(s[i]) then Go(i + 1, [], true)
    else if lineStart && IsHSpace(s[i]) then Go(i + 1, [], true)
    else if lineStart && s[i] == '#' then WithFlag(Directive(s, i, 1), false)
    else if lineStart && Pair(s, i, '%', ':') then WithFlag(Directive(s, i, 2), false)
    else if lineStart && IsIdentStart(s[i]) && LineStartImport(s, i).Some? then
      WithFlag(LineStartImport(s, i).value, false)
    else if Pair(s, i, '/', '/') then WithFlag(LineComment(s, i), lineStart)
    else if Pair(s, i, '/', '*') then
      var b := BlockComment(s, i);
      WithFlag(b, lineStart || (b.Go? && b.flag))
    else WithFlag(PlainToken(s, i), false)
  }

  /** The whole scan from `i` on. */
  function Run(s: string, i: nat, lineStart: bool): (r: Lexed)
    requires i <= |s|
    ensures Ahead(s, i, r)
    ensures AbortsInside(s, r)
    decreases |s| - i
  {
    if i == |s| then Go(i, [], lineStart)
    else
      var t := Token(s, i, lineStart);
      if t.Abort? then t else After(t.events, Run(s, t.next, t.flag))
  }
}
