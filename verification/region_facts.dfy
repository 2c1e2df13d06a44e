/** The lexer reads exactly the regions of a text: a scan completes if and only if the
    text is tiled by regions, and then reports what the regions hold. */
module RegionFacts {
  import opened Basics
  import opened Findings
  import opened Lexer
  import opened Regions

  // The lexer's continuation at each place

  function Continue(s: string, r: Lexed): Lexed
    requires Ahead(s, 0, r)
  {
    if r.Abort? then r else After(r.events, Run(s, r.next, false))
  }

  predicate IsPending(p: Place) {
    p.Hash? || p.Wants? || p.Export? || p.Operator?
  }

  /** What is read behind the space that follows a pending word. */
  function ReadAt(s: string, p: Place, c: nat): (r: Lexed)
    requires IsPending(p) && c < |s|
    ensures Ahead(s, c, r)
  {
    match p
    case Hash => DirectiveName(s, c)
    case Wants(_) => Operand(s, c)
    case Export => AfterExport(s, c)
    case _ => if s[c] == '(' then SpacedOperand(s, c + 1) else Go(c, [], false)
  }

  function Settle(s: string, p: Place, k: Lexed): (r: Lexed)
    requires IsPending(p) && Ahead(s, 0, k) && (k.Go? && !k.flag ==> k.next < |s|)
    ensures Ahead(s, 0, r)
  {
    if k.Abort? then k
    else if k.flag then
      if p.Wants? && p.directive.Some? then Abort(UNSUPPORTED_INCLUDE_FORM, p.directive.value, k.events) else k
    else After(k.events, ReadAt(s, p, k.next))
  }

  function Pending(s: string, p: Place, i: nat): (r: Lexed)
    requires IsPending(p) && i <= |s|
    ensures Ahead(s, 0, r)
  {
    Settle(s, p, SkipSpace(s, i))
  }

  /** The scan from position `i` and place `p` on. */
  function Rest(s: string, p: Place, i: nat): Lexed
    requires i <= |s|
  {
    match p
    case LineStart => Run(s, i, true)
    case Middle => Run(s, i, false)
    case _ => Continue(s, Pending(s, p, i))
  }

  lemma SettleAfter(s: string, p: Place, events: seq<Event>, k: Lexed)
    requires IsPending(p) && Ahead(s, 0, k) && (k.Go? && !k.flag ==> k.next < |s|)
    ensures Continue(s, Settle(s, p, After(events, k))) == After(events, Continue(s, Settle(s, p, k)))
  {
    hide Run, ReadAt;
    if k.Go? && !k.flag {
      var r := ReadAt(s, p, k.next);
      AfterAfter(events, k.events, r);
      if r.Go? {
        AfterAfter(events, k.events + r.events, Run(s, r.next, false));
      }
      ContinueAfter(s, events, After(k.events, r));
    } else {
      ContinueAfter(s, events, Settle(s, p, k));
    }
  }

  lemma ContinueAfter(s: string, events: seq<Event>, r: Lexed)
    requires Ahead(s, 0, r)
    ensures Continue(s, After(events, r)) == After(events, Continue(s, r))
  {
    hide Run;
    if r.Go? {
      AfterAfter(events, r.events, Run(s, r.next, false));
    }
  }

  // Lexemes are what the lexer's loops stop at

  lemma SameChars(c: char)
    ensures Newline(c) <==> IsNewline(c)
    ensures Blank(c) <==> IsHSpace(c)
    ensures LetterOrUnderscore(c) <==> IsIdentStart(c)
    ensures WordChar(c) <==> IsIdent(c)
  {
  }

  lemma SameWords(w: string)
    ensures TakesHeader(w) <==> w in HEADER_DIRECTIVES
    ensures AsksForHeader(w) <==> w in HEADER_OPERATORS
    ensures PrefixesRaw(w) <==> w in RAW_PREFIXES
    ensures w == "" ==> !TakesHeader(w) && w != "import"
  {
  }

  lemma {:induction false} LineEndIs(s: string, p: nat, b: nat)
    requires p <= b <= |s| && NoNewline(s, p, b) && (b == |s| || Newline(s[b]))
    ensures LineEnd(s, p) == b
    decreases b - p
  {
    if p < b {
      LineEndIs(s, p + 1, b);
    }
  }

  lemma {:induction false} LineEndStops(s: string, p: nat)
    requires p <= |s|
    ensures var b := LineEnd(s, p); NoNewline(s, p, b) && (b == |s| || Newline(s[b]))
    decreases |s| - p
  {
    if p < |s| && !IsNewline(s[p]) {
      LineEndStops(s, p + 1);
    }
  }

  lemma {:induction false} CloseIs(s: string, p: nat, q: nat)
    requires p <= q && Closes(s, q) && forall k :: p <= k < q ==> !Closes(s, k)
    ensures CommentClose(s, p) == Some(q)
    decreases q - p
  {
    if p < q {
      assert !Closes(s, p);
      CloseIs(s, p + 1, q);
    }
  }

  lemma {:induction false} CloseIsFirst(s: string, p: nat)
    requires p <= |s| && CommentClose(s, p).Some?
    ensures var q := CommentClose(s, p).value; p <= q && Closes(s, q) && forall k :: p <= k < q ==> !Closes(s, k)
    decreases |s| - p
  {
    if p < |s| && !Pair(s, p, '*', '/') {
      CloseIsFirst(s, p + 1);
    }
  }

  lemma {:induction false} IdentEndIs(s: string, a: nat, b: nat)
    requires a <= b <= |s| && (forall k :: a <= k < b ==> WordChar(s[k])) && (b == |s| || !WordChar(s[b]))
    ensures IdentEnd(s, a) == b
    decreases b - a
  {
    if a < b {
      IdentEndIs(s, a + 1, b);
    }
  }

  lemma {:induction false} IdentEndStops(s: string, a: nat)
    requires a <= |s|
    ensures var b := IdentEnd(s, a); (forall k :: a <= k < b ==> WordChar(s[k])) && (b == |s| || !WordChar(s[b]))
    decreases |s| - a
  {
    if a < |s| && IsIdent(s[a]) {
      IdentEndStops(s, a + 1);
    }
  }

  lemma AlarmsFront(s: string, a: nat, b: nat)
    requires a < b <= |s|
    ensures AlarmsIn(s, a, b) == AlarmAt(s, a) + AlarmsIn(s, a + 1, b)
  {
  }

  lemma {:induction false} NoAlarms(s: string, a: nat, b: nat)
    requires a <= b <= |s| && forall k :: a <= k < b ==> s[k] as int <= 127
    ensures AlarmsIn(s, a, b) == []
    decreases b - a
  {
    if a < b {
      NoAlarms(s, a + 1, b);
    }
  }

  lemma {:induction false} HeaderIs(s: string, p: nat, b: nat, closer: char, open: nat)
    requires p < b <= |s| && open < |s| && s[b - 1] == closer && NoNewline(s, p, b) && closer as int <= 127
    requires forall k :: p <= k < b - 1 ==> s[k] != closer
    ensures HeaderBody(s, p, closer, open) == Go(b, AlarmsIn(s, p, b), true)
    decreases b - p
  {
    AlarmsFront(s, p, b);
    if p < b - 1 {
      assert !Newline(s[p]);
      HeaderIs(s, p + 1, b, closer, open);
    } else {
      NoAlarms(s, p, b);
    }
  }

  lemma {:induction false} HeaderStops(s: string, p: nat, closer: char, open: nat)
    requires p <= |s| && open < |s| && HeaderBody(s, p, closer, open).Go? && !Newline(closer)
    ensures var b := HeaderBody(s, p, closer, open).next;
            && p < b <= |s| && s[b - 1] == closer && NoNewline(s, p, b)
            && forall k :: p <= k < b - 1 ==> s[k] != closer
    decreases |s| - p
  {
    if p < |s| && s[p] != closer {
      HeaderStops(s, p + 1, closer, open);
    }
  }

  lemma {:induction false} QuotedIs(s: string, p: nat, quote: char, open: nat, b: nat)
    requires open < p < b <= |s| && !Escaped(s, open, p) && (quote == '"' || quote == '\'')
    requires s[b - 1] == quote && !Escaped(s, open, b - 1) && NoNewline(s, p, b)
    requires forall k :: p <= k < b - 1 && s[k] == quote ==> Escaped(s, open, k)
    ensures Quoted(s, p, quote, open) == Go(b, AlarmsIn(s, p, b), true)
    decreases b - p
  {
    AlarmsFront(s, p, b);
    assert !Newline(s[p]);
    if s[p] == '\\' {
      assert Escaped(s, open, p + 1) && p + 1 != b - 1;
      assert !Newline(s[p + 1]) && !Escaped(s, open, p + 2);
      AlarmsFront(s, p + 1, b);
      QuotedIs(s, p + 2, quote, open, b);
    } else if p == b - 1 {
      NoAlarms(s, p, b);
    } else {
      assert !Escaped(s, open, p + 1) && s[p] != quote;
      QuotedIs(s, p + 1, quote, open, b);
    }
  }

  lemma {:induction false} QuotedStops(s: string, p: nat, quote: char, open: nat)
    requires open < p <= |s| && !Escaped(s, open, p) && (quote == '"' || quote == '\'')
    requires Quoted(s, p, quote, open).Go?
    ensures var b := Quoted(s, p, quote, open).next;
            && p < b <= |s| && s[b - 1] == quote && !Escaped(s, open, b - 1) && NoNewline(s, p, b)
            && forall k :: p <= k < b - 1 && s[k] == quote ==> Escaped(s, open, k)
    decreases |s| - p
  {
    if s[p] == '\\' {
      assert Escaped(s, open, p + 1) && !Escaped(s, open, p + 2);
      QuotedStops(s, p + 2, quote, open);
    } else if s[p] != quote {
      assert !Escaped(s, open, p + 1);
      QuotedStops(s, p + 1, quote, open);
    }
  }

  // One region is one move of the lexer

  /** Reading region `r` at place `p` is what the lexer does there. */
  ghost predicate Moves(s: string, p: Place, r: Region)
    requires IsLexeme(s, r)
  {
    Rest(s, p, r.start) == After(EventsOf(s, r), Rest(s, PlaceAfter(s, p, r), r.end))
  }

  lemma RunStep(s: string, i: nat, lineStart: bool)
    requires i < |s|
    ensures var t := Token(s, i, lineStart);
            Run(s, i, lineStart) == if t.Abort? then t else After(t.events, Run(s, t.next, t.flag))
  {
  }

  lemma PlainHere(s: string, a: nat)
    requires a < |s|
    ensures s[a] as int <= 127 ==> AlarmsIn(s, a, a + 1) == []
    ensures AlarmsIn(s, a, a + 1) == AlarmAt(s, a)
  {
    assert AlarmsIn(s, a + 1, a + 1) == [];
  }

  lemma NewlineMoves(s: string, p: Place, r: Region)
    requires IsLexeme(s, r) && r.kind.NewlineK? && Belongs(s, p, r)
    ensures Moves(s, p, r)
  {
    var a := r.start;
    PlainHere(s, a);
    RunStep(s, a, true);
    RunStep(s, a, false);
    AfterNothing(Run(s, a + 1, true));
    hide Run;
    if IsPending(p) {
      assert SkipSpace(s, a) == Go(a, [], true);
      AfterNothing(Run(s, a, false));
    }
  }

  lemma SpaceMoves(s: string, p: Place, r: Region)
    requires IsLexeme(s, r) && r.kind.SpaceK?
    ensures Moves(s, p, r)
  {
    var a := r.start;
    PlainHere(s, a);
    AfterNothing(Rest(s, p, a + 1));
    if IsPending(p) {
      assert SkipSpace(s, a) == SkipSpace(s, a + 1);
    } else {
      RunStep(s, a, p.LineStart?);
      hide Run;
      assert !IsIdentStart(s[a]);
    }
  }

  lemma LineCommentMoves(s: string, p: Place, r: Region)
    requires IsLexeme(s, r) && r.kind.LineCommentK? && Belongs(s, p, r)
    ensures Moves(s, p, r)
  {
    var a := r.start;
    LineEndIs(s, a + 2, r.end);
    assert LineComment(s, a) == Go(r.end, [Comment(a + 2, r.end)], true);
    if IsPending(p) {
      assert SkipSpace(s, a) == LineComment(s, a);
    } else {
      RunStep(s, a, p.LineStart?);
      assert !IsIdentStart(s[a]);
    }
    hide Run, LineEnd;
  }

  lemma BlockCommentIs(s: string, a: nat, b: nat)
    requires IsBlockComment(s, a, b)
    ensures BlockComment(s, a) == Go(b, [Comment(a + 2, b - 2)], !NoNewline(s, a, b))
  {
    CloseIs(s, a + 2, b - 2);
    assert HasNewline(s, a + 2, b - 2) <==> !NoNewline(s, a, b) by {
      if !NoNewline(s, a, b) {
        var k :| a <= k < b && Newline(s[k]);
        assert a + 2 <= k < b - 2;
      }
    }
  }

  lemma BlockCommentToken(s: string, a: nat, lineStart: bool)
    requires Opens(s, a, '*')
    ensures var b := BlockComment(s, a);
            Token(s, a, lineStart) == WithFlag(b, lineStart || (b.Go? && b.flag))
    ensures var b := BlockComment(s, a);
            b.Go? ==> SkipSpace(s, a) == After(b.events, SkipSpace(s, b.next))
  {
    hide BlockComment;
    assert !IsIdentStart(s[a]);
  }

  lemma BlockCommentMoves(s: string, p: Place, r: Region)
    requires IsLexeme(s, r) && r.kind.BlockCommentK?
    ensures Moves(s, p, r)
  {
    var a := r.start;
    BlockCommentIs(s, a, r.end);
    BlockCommentToken(s, a, p.LineStart?);
    hide BlockComment, NoNewline, Token;
    if IsPending(p) {
      SettleAfter(s, p, EventsOf(s, r), SkipSpace(s, r.end));
    } else {
      RunStep(s, a, p.LineStart?);
    }
    hide Run, SkipSpace;
  }

  /** Anything else stands behind no further space. */
  lemma NoSpaceHere(s: string, a: nat)
    requires a < |s| && !Newline(s[a]) && !Blank(s[a]) && !Opens(s, a, '/') && !Opens(s, a, '*')
    ensures SkipSpace(s, a) == Go(a, [], false)
  {
  }

  lemma PendingReads(s: string, p: Place, a: nat)
    requires IsPending(p) && a < |s| && !Newline(s[a]) && !Blank(s[a]) && !Opens(s, a, '/') && !Opens(s, a, '*')
    ensures Rest(s, p, a) == Continue(s, ReadAt(s, p, a))
  {
    NoSpaceHere(s, a);
    AfterNothing(ReadAt(s, p, a));
    hide Run, ReadAt, SkipSpace;
  }

  /** A pending word that is not followed by what it waits for is a word like others. */
  lemma PendingGivesUp(s: string, p: Place, a: nat)
    requires IsPending(p) && a < |s| && !Newline(s[a]) && !Blank(s[a]) && !Opens(s, a, '/') && !Opens(s, a, '*')
    requires p.Hash? || p.Export? ==> !WordChar(s[a])
    requires p.Wants? ==> s[a] != '<' && s[a] != '"'
    requires p.Operator? ==> s[a] != '('
    ensures Rest(s, p, a) == Rest(s, Middle, a)
  {
    PendingReads(s, p, a);
    if p.Hash? || p.Export? {
      IdentEndIs(s, a, a);
      assert s[a..a] == "";
      SameWords("");
    }
    AfterNothing(Run(s, a, false));
    hide Run;
  }

  lemma LiteralIs(s: string, quote: char, a: nat, b: nat)
    requires IsLiteral(s, quote, a, b) && (quote == '"' || quote == '\'')
    ensures Quoted(s, a + 1, quote, a) == Go(b, AlarmsIn(s, a, b), true)
  {
    hide Quoted, AlarmsIn, NoNewline, Escaped;
    NotEscapedFirst(s, a);
    QuotedIs(s, a + 1, quote, a, b);
    AlarmsBehind(s, a, b);
  }

  lemma AlarmsBehind(s: string, a: nat, b: nat)
    requires a < b <= |s| && s[a] as int <= 127
    ensures AlarmsIn(s, a, b) == AlarmsIn(s, a + 1, b)
  {
    AlarmsFront(s, a, b);
    hide AlarmsIn;
    assert AlarmAt(s, a) + AlarmsIn(s, a + 1, b) == AlarmsIn(s, a + 1, b);
  }

  /** A quote in front of a token opens a literal. */
  lemma QuoteToken(s: string, a: nat, lineStart: bool)
    requires a < |s| && (s[a] == '"' || s[a] == '\'')
    ensures var q := Quoted(s, a + 1, s[a], a);
            var t := Token(s, a, lineStart);
            if s[a] == '\'' && (a + 1 == |s| || s[a + 1] == '\'') then t.Abort? else t == WithFlag(q, false)
  {
    hide Quoted;
    assert !IsIdentStart(s[a]);
  }

  lemma LiteralMoves(s: string, p: Place, r: Region)
    requires IsLexeme(s, r) && (r.kind.StringK? || r.kind.CharacterK?) && Belongs(s, p, r)
    ensures Moves(s, p, r)
  {
    var a := r.start;
    LiteralIs(s, s[a], a, r.end);
    if r.kind.CharacterK? {
      CharacterIsNotEmpty(s, a, r.end);
    }
    LiteralIsRead(s, p, a, r.end);
    MiddleIsRun(s, r.end);
    hide Quoted, IsLiteral, AlarmsIn, Rest, Token;
  }

  lemma LiteralIsRead(s: string, p: Place, a: nat, b: nat)
    requires a < |s| && b <= |s| && (s[a] == '\'' || (s[a] == '"' && !p.Wants?))
    requires s[a] == '\'' ==> a + 1 < |s| && s[a + 1] != '\''
    requires Quoted(s, a + 1, s[a], a) == Go(b, AlarmsIn(s, a, b), true)
    ensures Rest(s, p, a) == After(AlarmsIn(s, a, b), Run(s, b, false))
  {
    QuoteToken(s, a, p.LineStart?);
    hide Quoted, AlarmsIn, Token;
    if IsPending(p) {
      PendingGivesUp(s, p, a);
    }
    RunStep(s, a, p.LineStart?);
    MiddleIsRun(s, a);
    hide Run, Rest;
  }

  lemma CharacterIsNotEmpty(s: string, a: nat, b: nat)
    requires IsLiteral(s, '\'', a, b) && a + 2 < b
    ensures s[a + 1] != '\''
  {
    NotEscapedFirst(s, a);
  }

  lemma NotEscapedFirst(s: string, a: nat)
    requires a + 1 <= |s|
    ensures !Escaped(s, a, a + 1)
  {
  }

  lemma HeaderIsRead(s: string, p: Place, a: nat, b: nat)
    requires p.Wants? && IsHeader(s, a, b)
    ensures ReadAt(s, p, a) == Go(b, AlarmsIn(s, a, b), true)
  {
    HeaderIs(s, a + 1, b, if s[a] == '<' then '>' else '"', a);
    AlarmsBehind(s, a, b);
  }

  lemma HeaderMoves(s: string, p: Place, r: Region)
    requires IsLexeme(s, r) && r.kind.HeaderK? && Belongs(s, p, r)
    ensures Moves(s, p, r)
  {
    HeaderIsRead(s, p, r.start, r.end);
    PendingReads(s, p, r.start);
    MiddleIsRun(s, r.end);
    hide Run, AlarmsIn, Rest, ReadAt;
  }

  lemma MiddleIsRun(s: string, i: nat)
    requires i <= |s|
    ensures Rest(s, Middle, i) == Run(s, i, false) && Rest(s, LineStart, i) == Run(s, i, true)
  {
  }

  lemma WordAscii(s: string, r: Region)
    requires IsLexeme(s, r) && r.kind.WordK?
    ensures EventsOf(s, r) == []
  {
    NoAlarms(s, r.start, r.end);
  }

  /** The word behind a `#` or behind `export`. */
  lemma PendingWordMoves(s: string, p: Place, r: Region)
    requires IsLexeme(s, r) && r.kind.WordK? && (p.Hash? || p.Export?)
    ensures Moves(s, p, r)
  {
    var (a, b) := (r.start, r.end);
    var w := s[a..b];
    WordAscii(s, r);
    IdentEndIs(s, a, b);
    SameWords(w);
    PendingReads(s, p, a);
    hide Run, SkipSpace, IdentEnd;
    AfterNothing(Rest(s, PlaceAfter(s, p, r), b));
    if p.Hash? && TakesHeader(w) {
      assert ReadAt(s, p, a) == IncludeOperand(s, a, b) == Pending(s, Wants(Some(a)), b);
    } else if p.Export? && w == "import" {
      assert ReadAt(s, p, a) == SpacedOperand(s, b) == Pending(s, Wants(None), b);
    } else {
      assert ReadAt(s, p, a) == Go(b, [], true);
    }
  }

  /** `import` or `export` in front of a line. */
  lemma LineWordMoves(s: string, r: Region)
    requires IsLexeme(s, r) && r.kind.WordK? && LetterOrUnderscore(s[r.start])
    requires s[r.start..r.end] == "import" || s[r.start..r.end] == "export"
    ensures Moves(s, LineStart, r)
  {
    var (a, b) := (r.start, r.end);
    WordAscii(s, r);
    IdentEndIs(s, a, b);
    RunStep(s, a, true);
    hide Run, SkipSpace, IdentEnd;
    var next := PlaceAfter(s, LineStart, r);
    AfterNothing(Rest(s, next, b));
    if s[a..b] == "import" {
      assert LineStartImport(s, a) == Some(SpacedOperand(s, b)) && SpacedOperand(s, b) == Pending(s, Wants(None), b);
    } else {
      assert LineStartImport(s, a) == Some(Pending(s, Export, b));
    }
  }

  /** Any other word. */
  lemma MiddleWordMoves(s: string, lineStart: bool, r: Region)
    requires IsLexeme(s, r) && r.kind.WordK? && LetterOrUnderscore(s[r.start])
    requires !(PrefixesRaw(s[r.start..r.end]) && r.end < |s| && s[r.end] == '"')
    requires lineStart ==> s[r.start..r.end] != "import" && s[r.start..r.end] != "export"
    ensures Moves(s, if lineStart then LineStart else Middle, r)
  {
    var (a, b) := (r.start, r.end);
    var w := s[a..b];
    WordAscii(s, r);
    IdentEndIs(s, a, b);
    IdentEndIs(s, a + 1, b);
    SameWords(w);
    RunStep(s, a, lineStart);
    var p := if lineStart then LineStart else Middle;
    var next := PlaceAfter(s, p, r);
    hide Run, SkipSpace, IdentEnd;
    AfterNothing(Rest(s, next, b));
    assert Word(s, a) == if AsksForHeader(w) then HeaderOperator(s, b) else Go(b, [], true);
    assert Token(s, a, lineStart) == WithFlag(Word(s, a), false);
    if AsksForHeader(w) {
      OperatorIsPending(s, b);
    }
  }

  lemma OperatorIsPending(s: string, c: nat)
    requires c <= |s|
    ensures var r := HeaderOperator(s, c);
            Continue(s, r) == Continue(s, Pending(s, Operator, c))
    ensures Ahead(s, 0, HeaderOperator(s, c))
  {
    var k := SkipSpace(s, c);
    hide Run, SkipSpace, SpacedOperand;
    if k.Go? && !k.flag && s[k.next] != '(' {
      assert k.events + [] == k.events;
    }
  }

  lemma WordMoves(s: string, p: Place, r: Region)
    requires IsLexeme(s, r) && r.kind.WordK? && Belongs(s, p, r)
    ensures Moves(s, p, r)
  {
    var w := s[r.start..r.end];
    if p.Hash? || p.Export? {
      PendingWordMoves(s, p, r);
    } else if p.LineStart? && (w == "import" || w == "export") {
      LineWordMoves(s, r);
    } else {
      MiddleWordMoves(s, p.LineStart?, r);
      if IsPending(p) {
        PendingGivesUp(s, p, r.start);
      }
      hide Rest;
    }
  }

  lemma HashMoves(s: string, r: Region)
    requires IsLexeme(s, r) && r.kind.HashK?
    ensures Moves(s, LineStart, r)
  {
    var (a, b) := (r.start, r.end);
    assert s[a] == s[a..b][0] && (b > a + 1 ==> s[a + 1] == s[a..b][1]);
    NoAlarms(s, a, b);
    RunStep(s, a, true);
    hide Run, SkipSpace;
    AfterNothing(Rest(s, Hash, b));
    assert Directive(s, a, b - a) == Pending(s, Hash, b);
  }

  lemma ParenMoves(s: string, r: Region)
    requires IsLexeme(s, r) && r.kind.ParenK?
    ensures Moves(s, Operator, r)
  {
    var a := r.start;
    PlainHere(s, a);
    PendingReads(s, Operator, a);
    hide Run, SkipSpace;
    AfterNothing(Rest(s, Wants(None), r.end));
    assert SpacedOperand(s, r.end) == Pending(s, Wants(None), r.end);
  }

  lemma OtherToken(s: string, p: Place, r: Region)
    requires IsLexeme(s, r) && r.kind.OtherK? && Belongs(s, p, r)
    ensures Token(s, r.start, p.LineStart?) == Go(r.start + 1, AlarmAt(s, r.start), false)
  {
    assert !IsIdentStart(s[r.start]);
  }

  lemma OtherGivesUp(s: string, p: Place, r: Region)
    requires IsLexeme(s, r) && r.kind.OtherK? && Belongs(s, p, r) && IsPending(p)
    ensures Rest(s, p, r.start) == Rest(s, Middle, r.start)
  {
    PendingGivesUp(s, p, r.start);
  }

  lemma OtherIsRead(s: string, p: Place, r: Region)
    requires IsLexeme(s, r) && r.kind.OtherK? && Belongs(s, p, r)
    ensures Rest(s, p, r.start) == After(AlarmAt(s, r.start), Run(s, r.start + 1, false))
  {
    hide Rest, Run, Token;
    OtherToken(s, p, r);
    if IsPending(p) {
      OtherGivesUp(s, p, r);
    }
    RunStep(s, r.start, p.LineStart?);
    MiddleIsRun(s, r.start);
    assert p == LineStart || p == Middle || IsPending(p);
  }

  lemma OtherMoves(s: string, p: Place, r: Region)
    requires IsLexeme(s, r) && r.kind.OtherK? && Belongs(s, p, r)
    ensures Moves(s, p, r)
  {
    hide Rest, Run, Belongs, AlarmsIn;
    OtherIsRead(s, p, r);
    PlainHere(s, r.start);
    MiddleIsRun(s, r.start + 1);
  }

  lemma RegionMoves(s: string, p: Place, r: Region)
    requires IsLexeme(s, r) && Belongs(s, p, r)
    ensures Moves(s, p, r)
  {
    hide IsLexeme, Moves;
    match r.kind {
      case NewlineK => NewlineMoves(s, p, r);
      case SpaceK => SpaceMoves(s, p, r);
      case LineCommentK => LineCommentMoves(s, p, r);
      case BlockCommentK => BlockCommentMoves(s, p, r);
      case StringK => LiteralMoves(s, p, r);
      case CharacterK => LiteralMoves(s, p, r);
      case HeaderK => HeaderMoves(s, p, r);
      case WordK => WordMoves(s, p, r);
      case HashK => HashMoves(s, r);
      case ParenK => ParenMoves(s, r);
      case OtherK => OtherMoves(s, p, r);
    }
  }

  // A tiling is the scan

  lemma InRange(s: string, p: Place, i: nat, rs: seq<Region>)
    requires Tiles(s, p, i, rs)
    ensures forall r :: r in rs ==> r.end <= |s|
    decreases |rs|
  {
    if rs != [] {
      InRange(s, PlaceAfter(s, p, rs[0]), rs[0].end, rs[1..]);
      assert forall r :: r in rs ==> r == rs[0] || r in rs[1..];
    }
  }

  /** The scan of a tiled text completes and reports what the regions hold. */
  lemma {:induction false} TilingIsRest(s: string, p: Place, i: nat, rs: seq<Region>)
    requires i <= |s| && Tiles(s, p, i, rs)
    ensures forall r :: r in rs ==> r.end <= |s|
    ensures var t := Rest(s, p, i); t.Go? && t.next == |s| && t.events == AllEvents(s, rs)
    decreases |rs|
  {
    InRange(s, p, i, rs);
    if rs == [] {
      EndIsRest(s, p);
    } else {
      hide IsLexeme, Belongs, PlaceAfter, Rest;
      RegionMoves(s, p, rs[0]);
      TilingIsRest(s, PlaceAfter(s, p, rs[0]), rs[0].end, rs[1..]);
    }
  }

  lemma EndIsRest(s: string, p: Place)
    ensures if p.Wants? && p.directive.Some? then Rest(s, p, |s|).Abort?
            else Rest(s, p, |s|).Go? && Rest(s, p, |s|).next == |s| && Rest(s, p, |s|).events == []
  {
  }

  // A completed scan has a tiling

  /** A region of this kind is the next one. */
  ghost predicate IsNext(s: string, p: Place, i: nat, r: Region) {
    r.start == i && IsLexeme(s, r) && Belongs(s, p, r)
  }

  lemma SpaceIsNext(s: string, p: Place, i: nat) returns (r: Region)
    requires i < |s| && Rest(s, p, i).Go?
    requires Newline(s[i]) || Blank(s[i])
    ensures IsNext(s, p, i, r)
  {
    if Newline(s[i]) {
      r := Region(NewlineK, i, i + 1);
      assert IsPending(p) ==> SkipSpace(s, i) == Go(i, [], true);
    } else {
      r := Region(SpaceK, i, i + 1);
    }
  }

  lemma LineCommentIsNext(s: string, p: Place, i: nat) returns (r: Region)
    requires i < |s| && Rest(s, p, i).Go? && Opens(s, i, '/')
    ensures IsNext(s, p, i, r)
  {
    LineEndStops(s, i + 2);
    r := Region(LineCommentK, i, LineEnd(s, i + 2));
    if IsPending(p) {
      assert SkipSpace(s, i) == LineComment(s, i);
      hide Run, SkipSpace, LineEnd;
    }
  }

  /** A block comment that is not closed refuses the text at every place. */
  lemma BlockCommentCloses(s: string, p: Place, i: nat)
    requires i < |s| && Rest(s, p, i).Go? && Opens(s, i, '*')
    ensures CommentClose(s, i + 2).Some?
  {
    if IsPending(p) {
      assert BlockComment(s, i).Abort? ==> SkipSpace(s, i).Abort?;
      hide Run, SkipSpace, CommentClose;
    } else {
      RunStep(s, i, p.LineStart?);
      hide Run, CommentClose;
      assert !IsIdentStart(s[i]);
    }
  }

  lemma BlockCommentIsNext(s: string, p: Place, i: nat) returns (r: Region)
    requires i < |s| && Rest(s, p, i).Go? && Opens(s, i, '*')
    ensures IsNext(s, p, i, r)
  {
    BlockCommentCloses(s, p, i);
    CloseIsFirst(s, i + 2);
    hide Rest, CommentClose;
    r := Region(BlockCommentK, i, CommentClose(s, i + 2).value + 2);
  }

  lemma HeaderIsNext(s: string, p: Place, i: nat) returns (r: Region)
    requires i < |s| && Rest(s, p, i).Go? && p.Wants? && (s[i] == '<' || s[i] == '"')
    ensures IsNext(s, p, i, r)
  {
    PendingReads(s, p, i);
    var closer := if s[i] == '<' then '>' else '"';
    hide Run, SkipSpace;
    HeaderStops(s, i + 1, closer, i);
    r := Region(HeaderK, i, HeaderBody(s, i + 1, closer, i).next);
  }

  /** A literal that is not closed, or an empty character, refuses the text. */
  lemma LiteralCloses(s: string, p: Place, i: nat)
    requires i < |s| && Rest(s, p, i).Go? && (s[i] == '\'' || (s[i] == '"' && !p.Wants?))
    ensures Quoted(s, i + 1, s[i], i).Go?
    ensures s[i] == '\'' ==> i + 1 < |s| && s[i + 1] != '\''
  {
    QuoteToken(s, i, p.LineStart?);
    hide Token;
    if IsPending(p) {
      PendingGivesUp(s, p, i);
    }
    RunStep(s, i, p.LineStart?);
    MiddleIsRun(s, i);
    hide Run, Rest;
  }

  lemma LiteralEnds(s: string, i: nat) returns (b: nat)
    requires i < |s| && (s[i] == '\'' || s[i] == '"') && Quoted(s, i + 1, s[i], i).Go?
    ensures IsLiteral(s, s[i], i, b)
    ensures i + 1 < |s| && s[i + 1] != s[i] ==> i + 2 < b
  {
    NotEscapedFirst(s, i);
    QuotedStops(s, i + 1, s[i], i);
    b := Quoted(s, i + 1, s[i], i).next;
  }

  lemma LiteralIsNext(s: string, p: Place, i: nat) returns (r: Region)
    requires i < |s| && Rest(s, p, i).Go? && (s[i] == '\'' || (s[i] == '"' && !p.Wants?))
    ensures IsNext(s, p, i, r)
  {
    LiteralCloses(s, p, i);
    var b := LiteralEnds(s, i);
    hide Rest, Quoted, Escaped;
    r := Region(if s[i] == '"' then StringK else CharacterK, i, b);
    assert s[i] == '"' || i + 2 < b;
    assert IsLexeme(s, r);
  }

  lemma WordIsNext(s: string, p: Place, i: nat) returns (r: Region)
    requires i < |s| && Rest(s, p, i).Go?
    requires LetterOrUnderscore(s[i]) || (WordChar(s[i]) && (p.Hash? || p.Export?))
    ensures IsNext(s, p, i, r)
  {
    IdentEndStops(s, i);
    var e := IdentEnd(s, i);
    r := Region(WordK, i, e);
    if !(p.Hash? || p.Export?) {
      if IsPending(p) {
        PendingGivesUp(s, p, i);
      }
      IdentEndIs(s, i + 1, e);
      RunStep(s, i, p.LineStart?);
      SameWords(s[i..e]);
      hide Run, IdentEnd;
      assert PrefixesRaw(s[i..e]) ==> LineStartImport(s, i).None?;
    }
  }

  lemma OtherIsNext(s: string, p: Place, i: nat) returns (r: Region)
    requires i < |s| && Rest(s, p, i).Go?
    requires !Newline(s[i]) && !Blank(s[i]) && !Opens(s, i, '/') && !Opens(s, i, '*') && s[i] != '"' && s[i] != '\''
    requires !LetterOrUnderscore(s[i]) && (p.Hash? || p.Export? ==> !WordChar(s[i])) && (p.Wants? ==> s[i] != '<')
    ensures IsNext(s, p, i, r)
  {
    if p.LineStart? && s[i] == '#' {
      r := Region(HashK, i, i + 1);
      assert s[i..i + 1] == "#";
    } else if p.LineStart? && s[i] == '%' && i + 1 < |s| && s[i + 1] == ':' {
      r := Region(HashK, i, i + 2);
      assert s[i..i + 2] == "%:";
    } else if p.Operator? && s[i] == '(' {
      r := Region(ParenK, i, i + 1);
    } else {
      r := Region(OtherK, i, i + 1);
      if IsPending(p) {
        PendingGivesUp(s, p, i);
      }
      RunStep(s, i, p.LineStart?);
      hide Run;
    }
  }

  lemma SomethingIsNext(s: string, p: Place, i: nat) returns (r: Region)
    requires i < |s| && Rest(s, p, i).Go?
    ensures IsNext(s, p, i, r)
  {
    hide Rest, IsNext;
    var c := s[i];
    if Newline(c) || Blank(c) {
      r := SpaceIsNext(s, p, i);
    } else if Opens(s, i, '/') {
      r := LineCommentIsNext(s, p, i);
    } else if Opens(s, i, '*') {
      r := BlockCommentIsNext(s, p, i);
    } else if p.Wants? && (c == '<' || c == '"') {
      r := HeaderIsNext(s, p, i);
    } else if c == '\'' || c == '"' {
      r := LiteralIsNext(s, p, i);
    } else if LetterOrUnderscore(c) || (WordChar(c) && (p.Hash? || p.Export?)) {
      r := WordIsNext(s, p, i);
    } else {
      r := OtherIsNext(s, p, i);
    }
  }

  lemma {:induction false} RestHasTiling(s: string, p: Place, i: nat)
    requires i <= |s| && Rest(s, p, i).Go?
    ensures exists rs :: Tiles(s, p, i, rs)
    decreases |s| - i
  {
    if i == |s| {
      EndIsRest(s, p);
      assert Tiles(s, p, i, []);
    } else {
      var r := SomethingIsNext(s, p, i);
      RegionMoves(s, p, r);
      assert r.end > i && Rest(s, PlaceAfter(s, p, r), r.end).Go? by {
        hide Rest;
      }
      RestHasTiling(s, PlaceAfter(s, p, r), r.end);
      var rs :| Tiles(s, PlaceAfter(s, p, r), r.end, rs);
      assert ([r] + rs)[1..] == rs;
      assert Tiles(s, p, i, [r] + rs) by {
        hide Rest, Belongs, IsLexeme, PlaceAfter;
      }
    }
  }
}
