/** A scan cannot tell a text from one in which non-ASCII characters became question
    marks. */
module LexerFacts {
  import opened Basics
  import opened Findings
  import opened LogicalView
  import opened Lexer

  function Comments(events: seq<Event>): seq<Event> {
    if events == [] then []
    else if events[0].Comment? then [events[0]] + Comments(events[1..])
    else Comments(events[1..])
  }

  lemma {:induction false} CommentsAppend(a: seq<Event>, b: seq<Event>)
    ensures Comments(a + b) == Comments(a) + Comments(b)
  {
    if a == [] {
      assert a + b == b;
    } else {
      assert (a + b)[1..] == a[1..] + b;
      CommentsAppend(a[1..], b);
    }
  }

  /** Same control flow, same refusal and same comments; alarms may differ. */
  predicate Same(r: Lexed, q: Lexed) {
    && Comments(r.events) == Comments(q.events)
    && if r.Go? then q.Go? && r.next == q.next && r.flag == q.flag
       else q.Abort? && r.code == q.code && r.at == q.at
  }

  lemma SameAfter(a: seq<Event>, b: seq<Event>, r: Lexed, q: Lexed)
    requires Comments(a) == Comments(b) && Same(r, q)
    ensures Same(After(a, r), After(b, q))
  {
    CommentsAppend(a, r.events);
    CommentsAppend(b, q.events);
  }

  lemma SameAfterAlarm(s: string, t: string, i: nat, r: Lexed, q: Lexed)
    requires i < |s| == |t| && Same(r, q)
    ensures Same(After(AlarmAt(s, i), r), After(AlarmAt(t, i), q))
  {
    assert Comments([Alarm(i)]) == Comments([]);
    SameAfter(AlarmAt(s, i), AlarmAt(t, i), r, q);
  }

  lemma {:induction false} LineEndMasked(s: string, t: string, p: nat)
    requires Masked(s, t) && p <= |s|
    ensures LineEnd(s, p) == LineEnd(t, p)
    decreases |s| - p
  {
    if p < |s| {
      LineEndMasked(s, t, p + 1);
    }
  }

  lemma {:induction false} CommentCloseMasked(s: string, t: string, p: nat)
    requires Masked(s, t) && p <= |s|
    ensures CommentClose(s, p) == CommentClose(t, p)
    decreases |s| - p
  {
    if p < |s| {
      CommentCloseMasked(s, t, p + 1);
    }
  }

  lemma BlockCommentMasked(s: string, t: string, i: nat)
    requires Masked(s, t) && i + 2 <= |s|
    ensures BlockComment(s, i) == BlockComment(t, i)
  {
    CommentCloseMasked(s, t, i + 2);
    var q := CommentClose(s, i + 2);
    if q.Some? {
      assert forall k :: i + 2 <= k < q.value ==> IsNewline(s[k]) == IsNewline(t[k]);
      if HasNewline(s, i + 2, q.value) {
        var k :| i + 2 <= k < q.value && IsNewline(s[k]);
        assert IsNewline(t[k]);
      }
      if HasNewline(t, i + 2, q.value) {
        var k :| i + 2 <= k < q.value && IsNewline(t[k]);
        assert IsNewline(s[k]);
      }
    }
  }

  lemma {:induction false} SkipSpaceMasked(s: string, t: string, c: nat)
    requires Masked(s, t) && c <= |s|
    ensures Same(SkipSpace(s, c), SkipSpace(t, c))
    decreases |s| - c
  {
    if c < |s| {
      if IsHSpace(s[c]) {
        SkipSpaceMasked(s, t, c + 1);
      } else if Pair(s, c, '/', '/') {
        LineEndMasked(s, t, c + 2);
      } else if Pair(s, c, '/', '*') {
        BlockCommentMasked(s, t, c);
        var b := BlockComment(s, c);
        if b.Go? {
          SkipSpaceMasked(s, t, b.next);
          SameAfter(b.events, b.events, SkipSpace(s, b.next), SkipSpace(t, b.next));
        }
      }
    }
  }

  lemma {:induction false} HeaderBodyMasked(s: string, t: string, p: nat, closer: char, open: nat)
    requires Masked(s, t) && p <= |s| && open < |s| && (closer == '>' || closer == '"')
    ensures Same(HeaderBody(s, p, closer, open), HeaderBody(t, p, closer, open))
    decreases |s| - p
  {
    if p < |s| {
      HeaderBodyMasked(s, t, p + 1, closer, open);
      SameAfterAlarm(s, t, p, HeaderBody(s, p + 1, closer, open), HeaderBody(t, p + 1, closer, open));
    }
  }

  lemma OperandMasked(s: string, t: string, c: nat)
    requires Masked(s, t) && c <= |s|
    ensures Same(Operand(s, c), Operand(t, c))
  {
    if c < |s| {
      HeaderBodyMasked(s, t, c + 1, if s[c] == '<' then '>' else '"', c);
    }
  }

  lemma SpacedOperandMasked(s: string, t: string, c: nat)
    requires Masked(s, t) && c <= |s|
    ensures Same(SpacedOperand(s, c), SpacedOperand(t, c))
  {
    SkipSpaceMasked(s, t, c);
    var k := SkipSpace(s, c);
    if k.Go? && !k.flag {
      OperandMasked(s, t, k.next);
      SameAfter(k.events, SkipSpace(t, c).events, Operand(s, k.next), Operand(t, k.next));
    }
  }

  lemma {:induction false} IdentMasked(s: string, t: string, p: nat)
    requires Masked(s, t) && p <= |s|
    ensures IdentEnd(s, p) == IdentEnd(t, p) && s[p..IdentEnd(s, p)] == t[p..IdentEnd(s, p)]
    decreases |s| - p
  {
    if p < |s| && IsIdent(s[p]) {
      IdentMasked(s, t, p + 1);
      var e := IdentEnd(s, p);
      assert s[p] == t[p] && IdentEnd(t, p) == e;
      hide Masked;
      assert s[p..e] == [s[p]] + s[p + 1..e];
      assert t[p..e] == [t[p]] + t[p + 1..e];
    }
  }

  lemma IncludeOperandMasked(s: string, t: string, nameStart: nat, c: nat)
    requires Masked(s, t) && c <= |s| && nameStart < |s|
    ensures Same(IncludeOperand(s, nameStart, c), IncludeOperand(t, nameStart, c))
  {
    SkipSpaceMasked(s, t, c);
    var k := SkipSpace(s, c);
    if k.Go? && !k.flag {
      OperandMasked(s, t, k.next);
      SameAfter(k.events, SkipSpace(t, c).events, Operand(s, k.next), Operand(t, k.next));
    }
  }

  lemma DirectiveMasked(s: string, t: string, i: nat, hashLength: nat)
    requires Masked(s, t) && i + hashLength <= |s|
    ensures Same(Directive(s, i, hashLength), Directive(t, i, hashLength))
  {
    SkipSpaceMasked(s, t, i + hashLength);
    var k := SkipSpace(s, i + hashLength);
    if k.Go? && !k.flag {
      IdentMasked(s, t, k.next);
      IncludeOperandMasked(s, t, k.next, IdentEnd(s, k.next));
      SameAfter(k.events, SkipSpace(t, i + hashLength).events, DirectiveName(s, k.next), DirectiveName(t, k.next));
    }
  }

  lemma LineStartImportMasked(s: string, t: string, i: nat)
    requires Masked(s, t) && i < |s| && IsIdentStart(s[i])
    ensures LineStartImport(s, i).Some? == LineStartImport(t, i).Some?
    ensures LineStartImport(s, i).Some? ==> Same(LineStartImport(s, i).value, LineStartImport(t, i).value)
  {
    IdentMasked(s, t, i);
    var e := IdentEnd(s, i);
    SpacedOperandMasked(s, t, e);
    SkipSpaceMasked(s, t, e);
    var k := SkipSpace(s, e);
    if k.Go? && !k.flag {
      IdentMasked(s, t, k.next);
      SpacedOperandMasked(s, t, IdentEnd(s, k.next));
      SameAfter(k.events, SkipSpace(t, e).events, AfterExport(s, k.next), AfterExport(t, k.next));
    }
  }

  lemma HeaderOperatorMasked(s: string, t: string, c: nat)
    requires Masked(s, t) && c <= |s|
    ensures Same(HeaderOperator(s, c), HeaderOperator(t, c))
  {
    hide SkipSpace, SpacedOperand, After;
    SkipSpaceMasked(s, t, c);
    var k := SkipSpace(s, c);
    assert k.Go? && k.next < |s| ==> (s[k.next] == '(' <==> t[k.next] == '(');
    if k.Go? && k.next < |s| && s[k.next] == '(' {
      SpacedOperandMasked(s, t, k.next + 1);
      SameAfter(k.events, SkipSpace(t, c).events, SpacedOperand(s, k.next + 1), SpacedOperand(t, k.next + 1));
    }
  }

  lemma WordMasked(s: string, t: string, i: nat)
    requires Masked(s, t) && i < |s| && IsIdentStart(s[i])
    ensures Same(Word(s, i), Word(t, i))
  {
    IdentMasked(s, t, i + 1);
    var e := IdentEnd(s, i + 1);
    assert s[i..e] == [s[i]] + s[i + 1..e];
    assert t[i..e] == [t[i]] + t[i + 1..e];
    HeaderOperatorMasked(s, t, e);
  }

  lemma SameLength(s: string, t: string)
    requires Masked(s, t)
    ensures |s| == |t|
  {
  }

  /** What a literal tests at one place is the same in a masked text. */
  lemma QuotedTests(s: string, t: string, p: nat, quote: char)
    requires Masked(s, t) && p <= |s| && (quote == '\'' || quote == '"')
    ensures p <= Examined(s, p) == Examined(t, p) && ClosesAt(s, p, quote) == ClosesAt(t, p, quote)
    ensures BreaksAt(s, Examined(s, p)) == BreaksAt(t, Examined(s, p))
    ensures BreaksAt(s, Examined(s, p)) || Examined(s, p) < |s|
  {
  }

  lemma {:induction false} QuotedMasked(s: string, t: string, p: nat, quote: char, open: nat)
    requires Masked(s, t) && p <= |s| && open < |s| && (quote == '\'' || quote == '"')
    ensures Same(Quoted(s, p, quote, open), Quoted(t, p, quote, open))
    decreases |s| - p
  {
    hide *;
    SameLength(s, t);
    QuotedTests(s, t, p, quote);
    QuotedStep(s, p, quote, open);
    QuotedStep(t, p, quote, open);
    var q := Examined(s, p);
    if ClosesAt(s, p, quote) || BreaksAt(s, q) {
      SameItself(Quoted(s, p, quote, open));
    } else {
      QuotedMasked(s, t, q + 1, quote, open);
      SameAfterAlarm(s, t, q, Quoted(s, q + 1, quote, open), Quoted(t, q + 1, quote, open));
    }
  }

  lemma SameItself(r: Lexed)
    ensures Same(r, r)
  {
  }

  lemma PlainTokenMasked(s: string, t: string, i: nat)
    requires Masked(s, t) && i < |s|
    ensures Same(PlainToken(s, i), PlainToken(t, i))
  {
    if s[i] == '\'' || s[i] == '"' {
      QuotedMasked(s, t, i + 1, '\'', i);
      QuotedMasked(s, t, i + 1, '"', i);
    } else if IsIdentStart(s[i]) {
      WordMasked(s, t, i);
    } else if s[i] != '\\' {
      SameAfterAlarm(s, t, i, Go(i + 1, [], false), Go(i + 1, [], false));
      assert AlarmAt(s, i) + [] == AlarmAt(s, i) && AlarmAt(t, i) + [] == AlarmAt(t, i);
    }
  }

  lemma TokenMasked(s: string, t: string, i: nat, lineStart: bool)
    requires Masked(s, t) && i < |s|
    ensures Same(Token(s, i, lineStart), Token(t, i, lineStart))
  {
    hide Directive, LineStartImport, LineEnd, BlockComment, PlainToken;
    if lineStart && s[i] == '#' {
      DirectiveMasked(s, t, i, 1);
    } else if lineStart && Pair(s, i, '%', ':') {
      DirectiveMasked(s, t, i, 2);
    } else if Pair(s, i, '/', '/') {
      LineEndMasked(s, t, i + 2);
    } else if Pair(s, i, '/', '*') {
      BlockCommentMasked(s, t, i);
    } else {
      if lineStart && IsIdentStart(s[i]) {
        LineStartImportMasked(s, t, i);
      }
      PlainTokenMasked(s, t, i);
    }
  }

  /** The scan of a masked text meets the same comments and ends the same way. */
  lemma {:induction false} RunMasked(s: string, t: string, i: nat, lineStart: bool)
    requires Masked(s, t) && i <= |s|
    ensures Same(Run(s, i, lineStart), Run(t, i, lineStart))
    decreases |s| - i
  {
    if i < |s| {
      TokenMasked(s, t, i, lineStart);
      hide Token;
      var r, q := Token(s, i, lineStart), Token(t, i, lineStart);
      if r.Go? {
        RunMasked(s, t, r.next, r.flag);
        SameAfter(r.events, q.events, Run(s, r.next, r.flag), Run(t, q.next, q.flag));
      }
    }
  }
}
