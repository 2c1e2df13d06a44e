/** What a text is made of, region by region and independently of the lexer: comments,
    literals, header names and words, each delimited by positions in the text, and the
    place on the line that decides between them (ISO/IEC 9899:2018 sections 6.4, 6.4.7
    and 6.4.9). */
module Regions {
  import opened Basics
  import opened Lexer

  datatype Kind =
    | NewlineK
    | SpaceK
    | LineCommentK
    | BlockCommentK
    | StringK
    | CharacterK
    | HeaderK
    | WordK
    | HashK
    | ParenK
    | OtherK

  datatype Region = Region(kind: Kind, start: nat, end: nat)

  /** What has been read last: nothing on this line, the `#` of a directive, an
      include-like word that takes a header name (which must follow if the word stands
      in a directive), `export` in front of a line, a header operator, or else. */
  datatype Place = LineStart | Middle | Hash | Wants(directive: Option<nat>) | Export | Operator

  // Lexemes, by positions

  predicate Newline(c: char) {
    c == '\r' || c == '\n'
  }

  predicate Blank(c: char) {
    c == ' ' || c == '\t' || c == '\U{0B}' || c == '\U{0C}'
  }

  predicate LetterOrUnderscore(c: char) {
    'a' <= c <= 'z' || 'A' <= c <= 'Z' || c == '_'
  }

  predicate WordChar(c: char) {
    LetterOrUnderscore(c) || '0' <= c <= '9'
  }

  predicate NoNewline(s: string, a: nat, b: nat) {
    forall k :: a <= k < b && k < |s| ==> !Newline(s[k])
  }

  predicate Opens(s: string, i: nat, second: char) {
    i + 1 < |s| && s[i] == '/' && s[i + 1] == second
  }

  predicate Closes(s: string, i: nat) {
    i + 1 < |s| && s[i] == '*' && s[i + 1] == '/'
  }

  /** From `//` up to the first newline or the end of the text. */
  predicate IsLineComment(s: string, a: nat, b: nat) {
    Opens(s, a, '/') && a + 2 <= b <= |s| && NoNewline(s, a + 2, b) && (b == |s| || Newline(s[b]))
  }

  /** From `/` and `*` up to and including the first `*` and `/` behind them. */
  predicate IsBlockComment(s: string, a: nat, b: nat) {
    && Opens(s, a, '*') && a + 4 <= b <= |s| && Closes(s, b - 2)
    && forall k :: a + 2 <= k < b - 2 ==> !Closes(s, k)
  }

  /** In a literal opened at `open`, a character is escaped by a backslash in front of it
      that is not escaped itself. */
  predicate Escaped(s: string, open: nat, k: nat)
    requires k <= |s|
  {
    k > open + 1 && s[k - 1] == '\\' && !Escaped(s, open, k - 1)
  }

  /** From a quote up to and including the first unescaped one behind it, on one line. */
  predicate IsLiteral(s: string, quote: char, a: nat, b: nat) {
    && a + 2 <= b <= |s| && s[a] == quote && s[b - 1] == quote && !Escaped(s, a, b - 1)
    && NoNewline(s, a + 1, b) && forall k :: a < k < b - 1 && s[k] == quote ==> Escaped(s, a, k)
  }

  /** From `<` or a quote up to and including the first closer, on one line. */
  predicate IsHeader(s: string, a: nat, b: nat) {
    && a + 2 <= b <= |s| && (s[a] == '<' || s[a] == '"')
    && var closer := if s[a] == '<' then '>' else '"';
    s[b - 1] == closer && NoNewline(s, a + 1, b) && forall k :: a < k < b - 1 ==> s[k] != closer
  }

  /** As many letters, digits and underscores as there are. */
  predicate IsWord(s: string, a: nat, b: nat) {
    a < b <= |s| && (forall k :: a <= k < b ==> WordChar(s[k])) && (b == |s| || !WordChar(s[b]))
  }

  predicate IsHash(s: string, a: nat, b: nat) {
    a < b <= |s| && (s[a..b] == "#" || s[a..b] == "%:")
  }

  predicate IsLexeme(s: string, r: Region) {
    var (a, b) := (r.start, r.end);
    && a < b <= |s|
    && match r.kind
       case NewlineK => b == a + 1 && Newline(s[a])
       case SpaceK => b == a + 1 && Blank(s[a])
       case LineCommentK => IsLineComment(s, a, b)
       case BlockCommentK => IsBlockComment(s, a, b)
       case StringK => IsLiteral(s, '"', a, b)
       case CharacterK => IsLiteral(s, '\'', a, b) && a + 2 < b
       case HeaderK => IsHeader(s, a, b)
       case WordK => IsWord(s, a, b)
       case HashK => IsHash(s, a, b)
       case ParenK => b == a + 1 && s[a] == '('
       case OtherK => b == a + 1
  }

  // Places

  predicate TakesHeader(w: string) {
    w == "include" || w == "include_next" || w == "import" || w == "embed"
  }

  predicate AsksForHeader(w: string) {
    w == "__has_include" || w == "__has_include_next" || w == "__has_embed" || w == "__has_embed_next"
  }

  predicate PrefixesRaw(w: string) {
    w == "R" || w == "u8R" || w == "uR" || w == "UR" || w == "LR"
  }

  /** Which lexeme is read at a place. A directive that needs its header name has it on
      the same line; a raw string literal and a stray backslash are no region at all. */
  predicate Belongs(s: string, p: Place, r: Region)
    requires IsLexeme(s, r)
  {
    var (a, b) := (r.start, r.end);
    match r.kind
    case NewlineK => !(p.Wants? && p.directive.Some?)
    case SpaceK => true
    case LineCommentK => !(p.Wants? && p.directive.Some?)
    case BlockCommentK => true
    case StringK => !p.Wants?
    case CharacterK => true
    case HeaderK => p.Wants?
    case WordK =>
      if p.Hash? || p.Export? then true
      else LetterOrUnderscore(s[a]) && !(PrefixesRaw(s[a..b]) && b < |s| && s[b] == '"')
    case HashK => p.LineStart?
    case ParenK => p.Operator?
    case OtherK =>
      && !Newline(s[a]) && !Blank(s[a]) && s[a] !in {'"', '\'', '\\'} && !LetterOrUnderscore(s[a])
      && !Opens(s, a, '/') && !Opens(s, a, '*')
      && (p.Hash? || p.Export? ==> !WordChar(s[a]))
      && (p.LineStart? ==> s[a] != '#' && !(s[a] == '%' && a + 1 < |s| && s[a + 1] == ':'))
      && (p.Wants? ==> s[a] != '<') && (p.Operator? ==> s[a] != '(')
  }

  function PlaceAfterWord(p: Place, start: nat, w: string): Place {
    if p.Hash? then if TakesHeader(w) then Wants(Some(start)) else Middle
    else if p.Export? then if w == "import" then Wants(None) else Middle
    else if p.LineStart? && w == "import" then Wants(None)
    else if p.LineStart? && w == "export" then Export
    else if AsksForHeader(w) then Operator
    else Middle
  }

  function PlaceAfter(s: string, p: Place, r: Region): Place
    requires IsLexeme(s, r)
  {
    match r.kind
    case NewlineK => LineStart
    case SpaceK => p
    case LineCommentK => if p.LineStart? then LineStart else Middle
    case BlockCommentK => if p.Middle? && !NoNewline(s, r.start, r.end) then LineStart else p
    case WordK => PlaceAfterWord(p, r.start, s[r.start..r.end])
    case HashK => Hash
    case ParenK => Wants(None)
    case _ => Middle
  }

  /** The regions tile the text from position `i` and place `p` on. */
  predicate Tiles(s: string, p: Place, i: nat, rs: seq<Region>)
    decreases |rs|
  {
    if rs == [] then i == |s| && !(p.Wants? && p.directive.Some?)
    else
      && rs[0].start == i && IsLexeme(s, rs[0]) && Belongs(s, p, rs[0])
      && Tiles(s, PlaceAfter(s, p, rs[0]), rs[0].end, rs[1..])
  }

  // What a tiling reports

  function AlarmsIn(s: string, a: nat, b: nat): seq<Event>
    requires b <= |s|
    decreases b - a
  {
    if a >= b then [] else (if s[a] as int > 127 then [Alarm(a)] else []) + AlarmsIn(s, a + 1, b)
  }

  /** A comment's content, or the non-ASCII characters of any other region. */
  function EventsOf(s: string, r: Region): seq<Event>
    requires r.end <= |s|
  {
    match r.kind
    case LineCommentK => [Comment(r.start + 2, r.end)]
    case BlockCommentK => if r.end >= 2 then [Comment(r.start + 2, r.end - 2)] else []
    case _ => AlarmsIn(s, r.start, r.end)
  }

  function AllEvents(s: string, rs: seq<Region>): seq<Event>
    requires forall r :: r in rs ==> r.end <= |s|
  {
    if rs == [] then [] else EventsOf(s, rs[0]) + AllEvents(s, rs[1..])
  }
}
