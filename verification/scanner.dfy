/** The scanner object: it walks the spliced characters once, updating its fields
    at every comment and alarm, and is proved to follow the lexer functions. */
module Scanning {
  import opened Basics
  import opened DecodeUnits
  import opened Findings
  import opened Lexer
  import opened ScanState

  /** Where a method stopped, or the form that aborts the scan. */
  datatype Outcome = Next(index: nat, flag: bool) | Raised(code: Code, at: nat)

  function Ending(r: Lexed): Outcome {
    match r
    case Go(n, _, f) => Next(n, f)
    case Abort(c, a, _) => Raised(c, a)
  }

  class Scanner {
    const src: Source
    var findings: seq<Finding>
    var suppressed: nat
    var blockerCount: nat
    var blockerSuppressed: nat
    var contentIntervals: seq<(nat, nat)>
    var commentCount: nat
    var commentNonAscii: nat
    var changedUnits: nat
    var replacementRecords: seq<Record>
    var replacementOverflow: bool

    constructor (src: Source)
      ensures this.src == src && Fields() == START
    {
      this.src := src;
      findings, suppressed, blockerCount, blockerSuppressed := [], 0, 0, 0;
      contentIntervals, commentCount, commentNonAscii, changedUnits := [], 0, 0, 0;
      replacementRecords, replacementOverflow := [], false;
    }

    ghost function Fields(): State
      reads this
    {
      State(findings, suppressed, blockerCount, blockerSuppressed, contentIntervals, commentCount,
            commentNonAscii, changedUnits, replacementRecords, replacementOverflow)
    }

    /** The fields as a value. */
    method Snapshot() returns (st: State)
      ensures st == Fields()
    {
      return State(findings, suppressed, blockerCount, blockerSuppressed, contentIntervals, commentCount,
                   commentNonAscii, changedUnits, replacementRecords, replacementOverflow);
    }

    function Char(k: nat): (c: char)
      requires Wired(src) && k < |src.physical|
      ensures c == Logical(src)[k]
    {
      src.units[src.physical[k]].ch
    }

    /** The method obligation: fields moved by exactly the events of `r`. */
    twostate predicate Followed(r: Lexed)
      requires Wired(src)
      reads this
    {
      Fields() == ApplyAll(src, old(Fields()), r.events)
    }

    method AddFinding(f: Finding)
      modifies this
      ensures Fields() == Add(old(Fields()), f)
    {
      if f.severity == Blocker {
        blockerCount := blockerCount + 1;
      }
      if |findings| < MAX_FINDINGS {
        findings := findings + [f];
      } else {
        suppressed := suppressed + 1;
        if f.severity == Blocker {
          blockerSuppressed := blockerSuppressed + 1;
        }
      }
    }

    method AddFindings(fs: seq<Finding>)
      modifies this
      ensures Fields() == AddAll(old(Fields()), fs)
    {
      var j := 0;
      assert fs[0..] == fs;
      while j < |fs|
        invariant 0 <= j <= |fs|
        invariant AddAll(Fields(), fs[j..]) == AddAll(old(Fields()), fs)
      {
        assert fs[j..][1..] == fs[j + 1..];
        AddFinding(fs[j]);
        j := j + 1;
      }
    }

    method RecordReplacement(start: nat, end: nat, reason: Reason)
      requires start <= end
      modifies this
      ensures Fields() == AddRecord(old(Fields()), start, end, reason)
    {
      if |replacementRecords| >= MAX_REPLACEMENT_RECORDS {
        replacementOverflow := true;
        return;
      }
      replacementRecords := replacementRecords + [Record(start, end - start, reason)];
    }

    /** An undecodable span proven to be comment content. */
    method MarkOpaqueUnit(i: nat)
      requires Wired(src) && i < |src.units|
      modifies this
      ensures Fields() == MarkOpaque(src, old(Fields()), i)
    {
      var (start, end) := src.offsets[i];
      commentNonAscii := commentNonAscii + 1;
      changedUnits := changedUnits + 1;
      var raw := src.data[start..end];
      if EndsInBackslash(raw) && (end >= |src.data| || src.data[end] == 13 || src.data[end] == 10) {
        AddFinding(Finding(DBCS_TRAIL_BACKSLASH_UNSUPPORTED, Blocker, Some(start)));
      }
      RecordReplacement(start, end, InvalidByteUnit);
    }

    method MarkReplacedUnit(i: nat, reason: Reason)
      requires Wired(src) && i < |src.units|
      modifies this
      ensures Fields() == MarkReplaced(src, old(Fields()), i, reason)
    {
      hide ContentFindings, AddAll, Add, AddRecord;
      var (start, end) := src.offsets[i];
      commentNonAscii := commentNonAscii + 1;
      changedUnits := changedUnits + 1;
      AddFindings(ContentFindings(src, i, true));
      RecordReplacement(start, end, reason);
    }

    method MarkKeptUnit(i: nat)
      requires Wired(src) && i < |src.units|
      modifies this
      ensures Fields() == MarkKept(src, old(Fields()), i)
    {
      hide ContentFindings, AddAll, Add;
      commentNonAscii := commentNonAscii + 1;
      if src.legacy {
        changedUnits := changedUnits + 1;
      }
      AddFindings(ContentFindings(src, i, false));
    }

    method MarkContentAt(k: nat)
      requires Wired(src) && k < |src.physical|
      modifies this
      ensures Fields() == MarkContent(src, old(Fields()), k)
    {
      hide MarkReplaced, MarkKept, MarkOpaque;
      var i := src.physical[k];
      var character := src.units[i].ch;
      if src.units[i].isOpaque {
        MarkOpaqueUnit(i);
        return;
      }
      if !NonAscii(character) {
        return;
      }
      var reason := if src.replace then ReplacementReason(character) else None;
      if reason.Some? {
        MarkReplacedUnit(i, reason.value);
      } else {
        MarkKeptUnit(i);
      }
    }

    method AddCommentContent(start: nat, end: nat)
      requires Wired(src) && end <= |src.physical|
      modifies this
      ensures Fields() == AddContent(src, old(Fields()), start, end)
    {
      if end <= start {
        return;
      }
      var position := start;
      while position < end
        invariant start <= position <= end
        invariant MarkRange(src, Fields(), position, end) == MarkRange(src, old(Fields()), start, end)
      {
        MarkContentAt(position);
        position := position + 1;
      }
      var firstPhysical := src.physical[start];
      var lastPhysical := src.physical[end - 1] + 1;
      var n := |contentIntervals|;
      if n > 0 && firstPhysical <= contentIntervals[n - 1].1 {
        var previous := contentIntervals[n - 1];
        contentIntervals := contentIntervals[..n - 1]
                            + [(previous.0, if lastPhysical > previous.1 then lastPhysical else previous.1)];
      } else {
        contentIntervals := contentIntervals + [(firstPhysical, lastPhysical)];
      }
    }

    method CountComment(start: nat, end: nat)
      requires Wired(src) && end <= |src.physical|
      modifies this
      ensures Fields() == ApplyAll(src, old(Fields()), [Comment(start, end)])
    {
      AddCommentContent(start, end);
      commentCount := commentCount + 1;
      assert [Comment(start, end)][1..] == [];
    }

    /** `_non_comment_non_ascii`, called only on non-ASCII characters. */
    method NoteOutside(k: nat)
      requires Wired(src) && k < |src.physical|
      modifies this
      ensures NonAscii(Logical(src)[k]) ==> Followed(Go(0, AlarmAt(Logical(src), k), true))
      ensures !NonAscii(Logical(src)[k]) ==> Fields() == old(Fields())
    {
      if NonAscii(Char(k)) {
        var i := src.physical[k];
        var severity := if src.units[i].isOpaque || src.legacy then Blocker else Warning;
        AddFinding(Finding(NON_COMMENT_NON_ASCII, severity, Some(src.offsets[i].0)));
        assert [Alarm(k)][1..] == [];
      }
    }

    method ScanLineComment(index: nat) returns (next: nat)
      requires Wired(src) && index + 2 <= |src.physical|
      modifies this
      ensures var r := LineComment(Logical(src), index); next == r.next && Followed(r)
    {
      ghost var s := Logical(src);
      var position := index + 2;
      var start := position;
      while position < |src.physical| && !IsNewline(Char(position))
        invariant start <= position <= |src.physical|
        invariant LineEnd(s, position) == LineEnd(s, start)
      {
        position := position + 1;
      }
      CountComment(start, position);
      return position;
    }

    /** The loop of a block comment: up to its closer or the end of the text. */
    method FindClose(start: nat) returns (position: nat, sawNewline: bool)
      requires Wired(src) && start <= |src.physical|
      ensures start <= position <= |src.physical|
      ensures CommentClose(Logical(src), start) == if position < |src.physical| then Some(position) else None
      ensures sawNewline == HasNewline(Logical(src), start, position)
    {
      ghost var s := Logical(src);
      assert !HasNewline(s, start, start);
      hide Wired, HasNewline, CommentClose;
      position, sawNewline := start, false;
      CloseStep(s, position);
      while position < |src.physical|
        invariant start <= position <= |src.physical|
        invariant CommentClose(s, position) == CommentClose(s, start)
        invariant sawNewline == HasNewline(s, start, position)
      {
        var character := Char(position);
        CloseStep(s, position);
        if character == '*' && position + 1 < |src.physical| && Char(position + 1) == '/' {
          return;
        }
        NewlineGrows(s, start, position);
        if IsNewline(character) {
          sawNewline := true;
        }
        position := position + 1;
      }
      CloseStep(s, position);
    }

    method ScanBlockComment(index: nat) returns (o: Outcome)
      requires Wired(src) && index + 2 <= |src.physical|
      modifies this
      ensures var r := BlockComment(Logical(src), index); o == Ending(r) && Followed(r)
    {
      hide Wired, Apply, AddContent, HasNewline, CommentClose;
      var position, sawNewline := FindClose(index + 2);
      if position == |src.physical| {
        return Raised(UNTERMINATED_BLOCK_COMMENT, index);
      }
      CountComment(index + 2, position);
      return Next(position + 2, sawNewline);
    }

    method SkipPreprocessingSpace(index: nat) returns (o: Outcome)
      requires Wired(src) && index <= |src.physical|
      modifies this
      ensures var r := SkipSpace(Logical(src), index); o == Ending(r) && Followed(r)
    {
      hide Wired, Apply, AddContent, BlockComment, LineEnd;
      ghost var s := Logical(src);
      ghost var done: seq<Event> := [];
      AfterNothing(SkipSpace(s, index));
      var cursor := index;
      while cursor < |src.physical|
        invariant index <= cursor <= |src.physical|
        invariant SkipSpace(s, index) == After(done, SkipSpace(s, cursor))
        invariant Fields() == ApplyAll(src, old(Fields()), done)
      {
        var character := Char(cursor);
        if IsHSpace(character) {
          cursor := cursor + 1;
          continue;
        }
        if IsNewline(character) {
          assert done + [] == done;
          return Next(cursor, true);
        }
        if character == '/' && cursor + 1 < |src.physical| && Char(cursor + 1) == '/' {
          ApplyAllAppend(src, old(Fields()), done, LineComment(s, cursor).events);
          cursor := ScanLineComment(cursor);
          return Next(cursor, true);
        }
        if character == '/' && cursor + 1 < |src.physical| && Char(cursor + 1) == '*' {
          ghost var b := BlockComment(s, cursor);
          ApplyAllAppend(src, old(Fields()), done, b.events);
          if b.Go? {
            AfterAfter(done, b.events, SkipSpace(s, b.next));
          }
          var block := ScanBlockComment(cursor);
          if block.Raised? {
            return block;
          }
          done := done + b.events;
          cursor := block.index;
          continue;
        }
        assert done + [] == done;
        return Next(cursor, false);
      }
      assert done + [] == done;
      return Next(cursor, true);
    }

    /** A header name opened at `index`; comment openers inside it mean nothing. */
    method ParseHeader(index: nat) returns (o: Outcome)
      requires Wired(src) && index < |src.physical| && (Char(index) == '<' || Char(index) == '"')
      modifies this
      ensures var r := Operand(Logical(src), index); o == Ending(r) && Followed(r)
    {
      assert ApplyAll(src, Fields(), []) == Fields();
      hide Wired, Apply, AddContent, ApplyAll;
      ghost var s := Logical(src);
      var closer := if Char(index) == '<' then '>' else '"';
      var position := index + 1;
      ghost var done: seq<Event> := [];
      AfterNothing(HeaderBody(s, position, closer, index));
      while position < |src.physical|
        invariant index + 1 <= position <= |src.physical|
        invariant Operand(s, index) == After(done, HeaderBody(s, position, closer, index))
        invariant Fields() == ApplyAll(src, old(Fields()), done)
      {
        var character := Char(position);
        assert done + [] == done;
        if character == closer {
          return Next(position + 1, true);
        }
        if IsNewline(character) {
          return Raised(UNTERMINATED_HEADER_NAME, index);
        }
        AfterAfter(done, AlarmAt(s, position), HeaderBody(s, position + 1, closer, index));
        ApplyAllAppend(src, old(Fields()), done, AlarmAt(s, position));
        NoteOutside(position);
        done := done + AlarmAt(s, position);
        position := position + 1;
      }
      assert done + [] == done;
      return Raised(UNTERMINATED_HEADER_NAME, index);
    }

    method OptionalHeader(cursor: nat) returns (o: Outcome)
      requires Wired(src) && cursor <= |src.physical|
      modifies this
      ensures var r := Operand(Logical(src), cursor); o == Ending(r) && Followed(r)
    {
      if cursor < |src.physical| && (Char(cursor) == '<' || Char(cursor) == '"') {
        o := ParseHeader(cursor);
        return;
      }
      return Next(cursor, true);
    }

    method IdentifierEnd(index: nat) returns (end: nat, word: string)
      requires Wired(src) && index <= |src.physical|
      ensures end == IdentEnd(Logical(src), index) && word == Logical(src)[index..end]
    {
      ghost var s := Logical(src);
      end := index;
      word := "";
      while end < |src.physical| && IsIdent(Char(end))
        invariant index <= end <= |src.physical|
        invariant IdentEnd(s, end) == IdentEnd(s, index) && word == s[index..end]
      {
        word := word + [Char(end)];
        end := end + 1;
      }
    }

    method SpaceThenHeader(index: nat) returns (o: Outcome)
      requires Wired(src) && index <= |src.physical|
      modifies this
      ensures var r := SpacedOperand(Logical(src), index); o == Ending(r) && Followed(r)
    {
      ghost var s := Logical(src);
      o := SkipPreprocessingSpace(index);
      if o.Raised? || o.flag {
        return;
      }
      ghost var k := SkipSpace(s, index);
      ApplyAllAppend(src, old(Fields()), k.events, Operand(s, k.next).events);
      o := OptionalHeader(o.index);
    }

    method ScanDirective(index: nat, hashLength: nat) returns (o: Outcome)
      requires Wired(src) && index + hashLength <= |src.physical|
      modifies this
      ensures var r := Directive(Logical(src), index, hashLength); o == Ending(r) && Followed(r)
    {
      hide Wired, Apply, AddContent;
      ghost var s := Logical(src);
      o := SkipPreprocessingSpace(index + hashLength);
      if o.Raised? || o.flag {
        return;
      }
      var start := o.index;
      ghost var k := SkipSpace(s, index + hashLength);
      ApplyAllAppend(src, old(Fields()), k.events, DirectiveName(s, start).events);
      var cursor, name := IdentifierEnd(start);
      if name !in HEADER_DIRECTIVES {
        return Next(cursor, true);
      }
      ghost var middle := Fields();
      o := SkipPreprocessingSpace(cursor);
      if o.Raised? {
        return;
      }
      if o.flag {
        return Raised(UNSUPPORTED_INCLUDE_FORM, start);
      }
      ghost var k2 := SkipSpace(s, cursor);
      ApplyAllAppend(src, middle, k2.events, Operand(s, k2.next).events);
      o := OptionalHeader(o.index);
    }

    /** Header-unit imports; `None` leaves the word to ordinary lexing. */
    method ScanLineStartImport(index: nat) returns (o: Option<Outcome>)
      requires Wired(src) && index < |src.physical| && IsIdentStart(Char(index))
      modifies this
      ensures var r := LineStartImport(Logical(src), index);
              if r.None? then o.None? && Fields() == old(Fields())
              else o == Some(Ending(r.value)) && Followed(r.value)
    {
      ghost var s := Logical(src);
      var cursor, word := IdentifierEnd(index);
      if word != "import" && word != "export" {
        return None;
      }
      if word == "export" {
        var k := SkipPreprocessingSpace(cursor);
        if k.Raised? || k.flag {
          return Some(k);
        }
        ApplyAllAppend(src, old(Fields()), SkipSpace(s, cursor).events, AfterExport(s, k.index).events);
        var end, nextWord := IdentifierEnd(k.index);
        if nextWord != "import" {
          return Some(Next(end, true));
        }
        cursor := end;
      }
      var r := SpaceThenHeader(cursor);
      return Some(r);
    }

    method ScanHeaderOperator(end: nat) returns (o: Outcome)
      requires Wired(src) && end <= |src.physical|
      modifies this
      ensures var r := HeaderOperator(Logical(src), end); o == Ending(r) && Followed(r)
    {
      hide Wired, Apply, AddContent, SkipSpace, SpacedOperand;
      ghost var s := Logical(src);
      o := SkipPreprocessingSpace(end);
      if o.Raised? || o.flag {
        return;
      }
      var cursor := o.index;
      if cursor >= |src.physical| || Char(cursor) != '(' {
        return;
      }
      ApplyAllAppend(src, old(Fields()), SkipSpace(s, end).events, SpacedOperand(s, cursor + 1).events);
      o := SpaceThenHeader(cursor + 1);
    }

    method ScanWord(index: nat) returns (o: Outcome)
      requires Wired(src) && index < |src.physical| && IsIdentStart(Char(index))
      modifies this
      ensures var r := Word(Logical(src), index); o == Ending(r) && Followed(r)
    {
      ghost var s := Logical(src);
      assert IdentEnd(s, index) == IdentEnd(s, index + 1);
      var end, word := IdentifierEnd(index);
      if word in RAW_PREFIXES && end < |src.physical| && Char(end) == '"' {
        return Raised(RAW_STRING_UNSUPPORTED, index);
      }
      if word in HEADER_OPERATORS {
        o := ScanHeaderOperator(end);
        return;
      }
      return Next(end, true);
    }

    /** The literal loop shared by strings and character constants. */
    method ScanQuoted(start: nat, quote: char, open: nat) returns (o: Outcome)
      requires Wired(src) && start <= |src.physical| && open < |src.physical|
      modifies this
      ensures var r := Quoted(Logical(src), start, quote, open); o == Ending(r) && Followed(r)
    {
      var position := start;
      while position < |src.physical|
        invariant start <= position <= |src.physical|
        invariant LiteralGoesOn(src, old(Fields()), Fields(), start, position, quote, open)
      {
        var stop, next := ScanQuotedUnit(position, quote, open);
        if stop.Some? {
          return stop.value;
        }
        position := next;
      }
      return Raised(Unterminated(quote), open);
    }

    /** One turn of the literal loop: it ends the literal, refuses it or goes on. */
    method ScanQuotedUnit(position: nat, quote: char, open: nat) returns (stop: Option<Outcome>, next: nat)
      requires Wired(src) && position < |src.physical| && open < |src.physical|
      modifies this
      ensures stop.None? ==> position < next <= |src.physical|
      ensures stop.Some? ==> stop.value == Ending(Quoted(Logical(src), position, quote, open))
      ensures stop.Some? ==> Followed(Quoted(Logical(src), position, quote, open))
      ensures stop.None? ==> LiteralGoesOn(src, old(Fields()), Fields(), position, next, quote, open)
    {
      ghost var s := Logical(src);
      var character := Char(position);
      var examined := if character == '\\' then position + 1 else position;
      assert examined == Examined(s, position);
      QuotedStep(s, position, quote, open);
      assert ApplyAll(src, Fields(), []) == Fields();
      hide Wired, Apply, ApplyAll, Quoted, LiteralGoesOn, Examined;
      if character == quote && character != '\\' {
        return Some(Next(position + 1, true)), position;
      }
      if examined >= |src.physical| || IsNewline(Char(examined)) {
        return Some(Raised(Unterminated(quote), open)), position;
      }
      LiteralTurns(src, Fields(), position, examined, quote, open);
      NoteExamined(examined);
      return None, examined + 1;
    }

    method NoteExamined(k: nat)
      requires Wired(src) && k < |src.physical|
      modifies this
      ensures Followed(Go(0, AlarmAt(Logical(src), k), true))
    {
      NoteOutside(k);
    }

    method ScanCharacterLiteral(index: nat) returns (o: Outcome)
      requires Wired(src) && index < |src.physical|
      modifies this
      ensures var r := CharacterLiteral(Logical(src), index); o == Ending(r) && Followed(r)
    {
      var position := index + 1;
      if position >= |src.physical| {
        return Raised(UNTERMINATED_CHAR, index);
      }
      if Char(position) == '\'' {
        return Raised(MALFORMED_CHAR_LITERAL, index);
      }
      o := ScanQuoted(position, '\'', index);
    }

    method ScanPlain(index: nat) returns (o: Outcome)
      requires Wired(src) && index < |src.physical|
      modifies this
      ensures var r := PlainToken(Logical(src), index); o == Ending(WithFlag(r, o.Next? && o.flag)) && Followed(r)
    {
      var character := Char(index);
      if character == '\'' {
        o := ScanCharacterLiteral(index);
        return;
      }
      if character == '"' {
        o := ScanQuoted(index + 1, '"', index);
        return;
      }
      if IsIdentStart(character) {
        o := ScanWord(index);
        return;
      }
      if character == '\\' {
        return Raised(STRAY_BACKSLASH, index);
      }
      NoteOutside(index);
      return Next(index + 1, false);
    }

    /** The main loop. `None` means the whole text was scanned. */
    method RunScan() returns (aborted: Option<(Code, nat)>)
      requires Wired(src)
      modifies this
      ensures var r := Run(Logical(src), 0, true);
              && Followed(r)
              && aborted == if r.Abort? then Some((r.code, r.at)) else None
    {
      ghost var s := Logical(src);
      ghost var done: seq<Event> := [];
      AfterNothing(Run(s, 0, true));
      var index := 0;
      var atLineStart := true;
      while index < |src.physical|
        invariant 0 <= index <= |src.physical|
        invariant Run(s, 0, true) == After(done, Run(s, index, atLineStart))
        invariant Fields() == ApplyAll(src, old(Fields()), done)
      {
        ghost var t := Token(s, index, atLineStart);
        ApplyAllAppend(src, old(Fields()), done, t.events);
        if t.Go? {
          AfterAfter(done, t.events, Run(s, t.next, t.flag));
        }
        var o := ScanToken(index, atLineStart);
        if o.Raised? {
          return Some((o.code, o.at));
        }
        done := done + t.events;
        index, atLineStart := o.index, o.flag;
      }
      assert done + [] == done;
      return None;
    }

    /** One turn of the main loop. */
    method ScanToken(index: nat, atLineStart: bool) returns (o: Outcome)
      requires Wired(src) && index < |src.physical|
      modifies this
      ensures var r := Token(Logical(src), index, atLineStart); o == Ending(r) && Followed(r)
    {
      hide Wired, Apply, AddContent;
      var character := Char(index);
      if IsNewline(character) {
        return Next(index + 1, true);
      }
      if atLineStart && IsHSpace(character) {
        return Next(index + 1, true);
      }
      if atLineStart && character == '#' {
        o := ScanDirective(index, 1);
        o := Reflag(o, false);
        return;
      }
      if atLineStart && character == '%' && index + 1 < |src.physical| && Char(index + 1) == ':' {
        o := ScanDirective(index, 2);
        o := Reflag(o, false);
        return;
      }
      if atLineStart && IsIdentStart(character) {
        var consumed := ScanLineStartImport(index);
        if consumed.Some? {
          o := Reflag(consumed.value, false);
          return;
        }
      }
      if character == '/' && index + 1 < |src.physical| && Char(index + 1) == '/' {
        var next := ScanLineComment(index);
        return Next(next, atLineStart);
      }
      if character == '/' && index + 1 < |src.physical| && Char(index + 1) == '*' {
        o := ScanBlockComment(index);
        o := Reflag(o, atLineStart || (o.Next? && o.flag));
        return;
      }
      o := ScanPlain(index);
      o := Reflag(o, false);
    }
  }

  /** The literal read from `p` ends as the one read from `next`, and its events
      take `before` where the later ones take `after`. */
  ghost predicate LiteralGoesOn(src: Source, before: State, after: State, p: nat, next: nat, quote: char, open: nat)
    requires Wired(src) && p <= |src.physical| && next <= |src.physical| && open < |src.physical|
  {
    var r, q := Quoted(Logical(src), p, quote, open), Quoted(Logical(src), next, quote, open);
    Ending(r) == Ending(q) && ApplyAll(src, before, r.events) == ApplyAll(src, after, q.events)
  }

  lemma LiteralTurns(src: Source, st: State, p: nat, q: nat, quote: char, open: nat)
    requires Wired(src) && p <= q < |src.physical| && open < |src.physical|
    requires Quoted(Logical(src), p, quote, open) ==
             After(AlarmAt(Logical(src), q), Quoted(Logical(src), q + 1, quote, open))
    ensures LiteralGoesOn(src, st, ApplyAll(src, st, AlarmAt(Logical(src), q)), p, q + 1, quote, open)
  {
    hide Wired, Quoted, AlarmAt;
    ApplyAllAppend(src, st, AlarmAt(Logical(src), q), Quoted(Logical(src), q + 1, quote, open).events);
  }

  function Reflag(o: Outcome, flag: bool): Outcome {
    if o.Next? then Next(o.index, flag) else o
  }

  lemma NewlineGrows(s: string, a: nat, p: nat)
    requires a <= p < |s|
    ensures HasNewline(s, a, p + 1) <==> HasNewline(s, a, p) || IsNewline(s[p])
  {
    if HasNewline(s, a, p) {
      var k :| a <= k < p && IsNewline(s[k]);
      assert IsNewline(s[k]);
    }
    if IsNewline(s[p]) {
      assert a <= p < p + 1;
    }
  }

  lemma CloseStep(s: string, p: nat)
    requires p <= |s|
    ensures CommentClose(s, p) == if p == |s| then None else if Pair(s, p, '*', '/') then Some(p) else CommentClose(s, p + 1)
  {
  }
}
