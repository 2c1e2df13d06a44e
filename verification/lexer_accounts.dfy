/** The trace of a completed scan accounts for the text: comments appear in order
    behind their two-character openers, and every non-ASCII character is either
    inside a comment's content or raises exactly one alarm. */
module LexerAccounts {
  import opened Basics
  import opened Findings
  import opened Lexer

  predicate AllAscii(s: string, a: nat, b: nat) {
    forall k :: a <= k < b && k < |s| ==> !NonAscii(s[k])
  }

  predicate Traces(s: string, events: seq<Event>, from: nat, to: nat)
    requires to <= |s|
  {
    if events == [] then from <= to && AllAscii(s, from, to)
    else
      match events[0]
      case Comment(a, b) =>
        from + 2 <= a <= b <= to && AllAscii(s, from, a) && Traces(s, events[1..], b, to)
      case Alarm(a) =>
        from <= a < to && AllAscii(s, from, a) && NonAscii(s[a]) && Traces(s, events[1..], a + 1, to)
  }

  lemma {:induction false} TracesAppend(s: string, a: seq<Event>, b: seq<Event>, from: nat, mid: nat, to: nat)
    requires from <= mid <= to <= |s|
    requires Traces(s, a, from, mid) && Traces(s, b, mid, to)
    ensures Traces(s, a + b, from, to)
    decreases |a|
  {
    if a == [] {
      assert a + b == b;
      TracesExtendFront(s, b, from, mid, to);
    } else {
      assert (a + b)[1..] == a[1..] + b;
      var next := if a[0].Comment? then a[0].end else a[0].at + 1;
      TracesInRange(s, a[1..], next, mid);
      TracesAppend(s, a[1..], b, next, mid, to);
    }
  }

  lemma {:induction false} TracesInRange(s: string, a: seq<Event>, from: nat, to: nat)
    requires to <= |s| && Traces(s, a, from, to)
    ensures from <= to
  {
  }

  lemma TracesExtendFront(s: string, b: seq<Event>, from: nat, mid: nat, to: nat)
    requires from <= mid <= to <= |s| && AllAscii(s, from, mid) && Traces(s, b, mid, to)
    ensures Traces(s, b, from, to)
  {
  }

  /** A result whose trace accounts for everything from `from` to where it stops. */
  predicate Accounted(s: string, from: nat, r: Lexed) {
    r.Go? && r.next <= |s| ==> Traces(s, r.events, from, r.next)
  }

  lemma AccountedAfter(s: string, events: seq<Event>, from: nat, mid: nat, r: Lexed)
    requires from <= mid <= |s| && Traces(s, events, from, mid)
    requires Ahead(s, mid, r) && Accounted(s, mid, r)
    ensures Accounted(s, from, After(events, r))
  {
    if r.Go? {
      TracesAppend(s, events, r.events, from, mid, r.next);
    }
  }

  lemma AlarmAccounted(s: string, i: nat)
    requires i < |s|
    ensures Traces(s, AlarmAt(s, i), i, i + 1)
  {
    if NonAscii(s[i]) {
      assert [Alarm(i)][1..] == [];
    }
  }

  lemma OneComment(s: string, i: nat, q: nat, to: nat)
    requires i + 2 <= q <= to <= |s|
    requires AllAscii(s, i, i + 2) && AllAscii(s, q, to)
    ensures Traces(s, [Comment(i + 2, q)], i, to)
  {
    assert [Comment(i + 2, q)][1..] == [];
  }

  lemma {:induction false} SkipSpaceAccounted(s: string, c: nat)
    requires c <= |s|
    ensures Accounted(s, c, SkipSpace(s, c))
    decreases |s| - c
  {
    if c < |s| {
      if IsHSpace(s[c]) {
        SkipSpaceAccounted(s, c + 1);
        AccountedAfter(s, [], c, c + 1, SkipSpace(s, c + 1));
      } else if Pair(s, c, '/', '/') {
        OneComment(s, c, LineEnd(s, c + 2), LineEnd(s, c + 2));
      } else if Pair(s, c, '/', '*') {
        var b := BlockComment(s, c);
        if b.Go? {
          OneComment(s, c, b.next - 2, b.next);
          SkipSpaceAccounted(s, b.next);
          AccountedAfter(s, b.events, c, b.next, SkipSpace(s, b.next));
        }
      }
    }
  }

  lemma {:induction false} HeaderBodyAccounted(s: string, p: nat, closer: char, open: nat)
    requires p <= |s| && open < |s| && !NonAscii(closer)
    ensures Accounted(s, p, HeaderBody(s, p, closer, open))
    decreases |s| - p
  {
    if p < |s| {
      HeaderBodyAccounted(s, p + 1, closer, open);
      AlarmAccounted(s, p);
      AccountedAfter(s, AlarmAt(s, p), p, p + 1, HeaderBody(s, p + 1, closer, open));
    }
  }

  lemma OperandAccounted(s: string, c: nat)
    requires c <= |s|
    ensures Accounted(s, c, Operand(s, c))
  {
    if c < |s| {
      var closer := if s[c] == '<' then '>' else '"';
      HeaderBodyAccounted(s, c + 1, closer, c);
      var r := HeaderBody(s, c + 1, closer, c);
      if r.Go? && (s[c] == '<' || s[c] == '"') {
        TracesExtendFront(s, r.events, c, c + 1, r.next);
      }
    }
  }

  lemma SpacedOperandAccounted(s: string, c: nat)
    requires c <= |s|
    ensures Accounted(s, c, SpacedOperand(s, c))
    ensures forall nameStart: nat :: nameStart < |s| ==> Accounted(s, c, IncludeOperand(s, nameStart, c))
  {
    SkipSpaceAccounted(s, c);
    var k := SkipSpace(s, c);
    if k.Go? {
      OperandAccounted(s, k.next);
      AccountedAfter(s, k.events, c, k.next, Operand(s, k.next));
    }
  }

  lemma {:induction false} IdentIsAscii(s: string, p: nat)
    requires p <= |s|
    ensures AllAscii(s, p, IdentEnd(s, p))
    decreases |s| - p
  {
    if p < |s| && IsIdent(s[p]) {
      IdentIsAscii(s, p + 1);
    }
  }

  lemma AfterIdent(s: string, p: nat, r: Lexed)
    requires p <= |s| && Ahead(s, IdentEnd(s, p), r) && Accounted(s, IdentEnd(s, p), r)
    ensures Accounted(s, p, r)
  {
    IdentIsAscii(s, p);
    if r.Go? {
      TracesExtendFront(s, r.events, p, IdentEnd(s, p), r.next);
    }
  }

  lemma DirectiveAccounted(s: string, i: nat, hashLength: nat)
    requires i + hashLength <= |s| && AllAscii(s, i, i + hashLength)
    ensures Accounted(s, i, Directive(s, i, hashLength))
  {
    var c := i + hashLength;
    SkipSpaceAccounted(s, c);
    var k := SkipSpace(s, c);
    if k.Go? {
      TracesExtendFront(s, k.events, i, c, k.next);
      if !k.flag {
        SpacedOperandAccounted(s, IdentEnd(s, k.next));
        AfterIdent(s, k.next, DirectiveName(s, k.next));
        AccountedAfter(s, k.events, i, k.next, DirectiveName(s, k.next));
      }
    }
  }

  lemma AfterExportAccounted(s: string, c: nat)
    requires c <= |s|
    ensures Accounted(s, c, AfterExport(s, c))
  {
    SpacedOperandAccounted(s, IdentEnd(s, c));
    AfterIdent(s, c, AfterExport(s, c));
  }

  lemma LineStartImportAccounted(s: string, i: nat)
    requires i < |s| && IsIdentStart(s[i])
    ensures LineStartImport(s, i).Some? ==> Accounted(s, i, LineStartImport(s, i).value)
  {
    var e := IdentEnd(s, i);
    SpacedOperandAccounted(s, e);
    AfterIdent(s, i, SpacedOperand(s, e));
    SkipSpaceAccounted(s, e);
    var k := SkipSpace(s, e);
    AfterIdent(s, i, k);
    if k.Go? {
      AfterExportAccounted(s, k.next);
      AccountedAfter(s, k.events, i, k.next, AfterExport(s, k.next));
    }
  }

  lemma GoIsTraced(s: string, c: nat, r: Lexed)
    requires Accounted(s, c, r) && r.Go? && r.next <= |s|
    ensures Traces(s, r.events, c, r.next)
  {
  }

  lemma AccountedBehindParen(s: string, p: nat, r: Lexed)
    requires p < |s| && s[p] == '(' && Accounted(s, p + 1, r) && Ahead(s, p + 1, r)
    ensures Accounted(s, p, r)
  {
    if r.Go? {
      TracesExtendFront(s, r.events, p, p + 1, r.next);
    }
  }

  lemma HeaderOperatorAccounted(s: string, c: nat)
    requires c <= |s|
    ensures Accounted(s, c, HeaderOperator(s, c))
  {
    hide SkipSpace, SpacedOperand, After, Traces, Accounted;
    SkipSpaceAccounted(s, c);
    var k := SkipSpace(s, c);
    if k.Go? && k.next < |s| && s[k.next] == '(' {
      var r := SpacedOperand(s, k.next + 1);
      SpacedOperandAccounted(s, k.next + 1);
      AccountedBehindParen(s, k.next, r);
      GoIsTraced(s, c, k);
      AccountedAfter(s, k.events, c, k.next, r);
    }
  }

  lemma WordAccounted(s: string, i: nat)
    requires i < |s| && IsIdentStart(s[i])
    ensures Accounted(s, i, Word(s, i))
  {
    assert IdentEnd(s, i) == IdentEnd(s, i + 1);
    HeaderOperatorAccounted(s, IdentEnd(s, i));
    AfterIdent(s, i, Word(s, i));
  }

  lemma {:induction false} QuotedAccounted(s: string, p: nat, quote: char, open: nat)
    requires p <= |s| && open < |s| && !NonAscii(quote)
    ensures Accounted(s, p, Quoted(s, p, quote, open))
    decreases |s| - p
  {
    if p < |s| {
      if s[p] != '\\' {
        QuotedAccounted(s, p + 1, quote, open);
        AlarmAccounted(s, p);
        AccountedAfter(s, AlarmAt(s, p), p, p + 1, Quoted(s, p + 1, quote, open));
      } else if p + 1 < |s| {
        QuotedAccounted(s, p + 2, quote, open);
        AlarmAccounted(s, p + 1);
        TracesExtendFront(s, AlarmAt(s, p + 1), p, p + 1, p + 2);
        AccountedAfter(s, AlarmAt(s, p + 1), p, p + 2, Quoted(s, p + 2, quote, open));
      }
    }
  }

  lemma AfterOne(s: string, i: nat, r: Lexed)
    requires i < |s| && !NonAscii(s[i]) && Ahead(s, i + 1, r) && Accounted(s, i + 1, r)
    ensures Accounted(s, i, r)
  {
    if r.Go? {
      TracesExtendFront(s, r.events, i, i + 1, r.next);
    }
  }

  lemma PlainTokenAccounted(s: string, i: nat)
    requires i < |s|
    ensures Accounted(s, i, PlainToken(s, i))
  {
    if s[i] == '\'' || s[i] == '"' {
      QuotedAccounted(s, i + 1, '\'', i);
      QuotedAccounted(s, i + 1, '"', i);
      AfterOne(s, i, PlainToken(s, i));
    } else if IsIdentStart(s[i]) {
      WordAccounted(s, i);
    } else {
      AlarmAccounted(s, i);
    }
  }

  lemma TokenAccounted(s: string, i: nat, lineStart: bool)
    requires i < |s|
    ensures Accounted(s, i, Token(s, i, lineStart))
  {
    if lineStart && s[i] == '#' {
      DirectiveAccounted(s, i, 1);
    } else if lineStart && Pair(s, i, '%', ':') {
      DirectiveAccounted(s, i, 2);
    } else if Pair(s, i, '/', '/') {
      OneComment(s, i, LineEnd(s, i + 2), LineEnd(s, i + 2));
    } else if Pair(s, i, '/', '*') {
      var b := BlockComment(s, i);
      if b.Go? {
        OneComment(s, i, b.next - 2, b.next);
      }
    } else {
      hide Directive, LineStartImport, PlainToken;
      if lineStart && IsIdentStart(s[i]) {
        LineStartImportAccounted(s, i);
      }
      PlainTokenAccounted(s, i);
    }
  }

  lemma {:induction false} RunAccounted(s: string, i: nat, lineStart: bool)
    requires i <= |s|
    ensures Accounted(s, i, Run(s, i, lineStart))
    ensures Run(s, i, lineStart).Go? ==> Run(s, i, lineStart).next == |s|
    decreases |s| - i
  {
    if i < |s| {
      TokenAccounted(s, i, lineStart);
      hide Token;
      var t := Token(s, i, lineStart);
      if t.Go? {
        RunAccounted(s, t.next, t.flag);
        AccountedAfter(s, t.events, i, t.next, Run(s, t.next, t.flag));
      }
    }
  }
}
