/** When a file is ready and what its copy holds, stated over the decoded characters,
    the view without splices and the regions that tile it. */
module Readiness {
  import opened Basics
  import opened Codecs
  import opened DecodeUnits
  import opened DecodeSource
  import opened Findings
  import opened LogicalView
  import opened Lexer
  import opened LexerAccounts
  import opened ScanState
  import opened ScanFacts
  import opened Output
  import opened Analyze
  import opened Recheck
  import opened Regions
  import opened CommentRegions
  import opened SpliceExact
  import opened ScanTotals
  import opened OutsideExact
  import Utf8

  /** The characters at the listed positions. */
  function CharactersAt(text: string, physical: seq<nat>): (s: string)
    requires forall k :: k in physical ==> k < |text|
    ensures |s| == |physical|
    ensures forall k :: 0 <= k < |s| ==> physical[k] in physical && s[k] == text[physical[k]]
  {
    seq(|physical|, k requires 0 <= k < |physical| => assert physical[k] in physical; text[physical[k]])
  }

  /** The file decodes to `d`, has no refused splice, and regions tile what splicing
      leaves of it. */
  ghost predicate IsReading(cs: Charset, data: seq<Byte>, replace: bool, d: SourceText, physical: seq<nat>, rs: seq<Region>)
    requires Lawful(CodecOf(cs))
  {
    && Decode(cs, data, replace) == d && d.SourceText?
    && IsView(Text(d.units), 0, physical) && (forall i: nat :: !IsRefused(Text(d.units), i))
    && Tiles(CharactersAt(Text(d.units), physical), LineStart, 0, rs)
  }

  /** Position `k` is behind the opener and in front of the closer of a comment. */
  predicate InContent(rs: seq<Region>, k: nat) {
    || (exists r :: r in rs && r.kind.LineCommentK? && r.start + 2 <= k < r.end)
    || (exists r :: r in rs && r.kind.BlockCommentK? && r.start + 2 <= k && k + 2 < r.end)
  }

  lemma ContentEvents(s: string, rs: seq<Region>, k: nat)
    requires Tiles(s, LineStart, 0, rs)
    ensures Run(s, 0, true).Go?
    ensures InComment(Run(s, 0, true).events, k) <==> InContent(rs, k)
  {
    hide *;
    ReportIsTiling(s, rs);
    TilesLie(s, LineStart, 0, rs);
    EventsAreRegions(s, rs);
    var events := Run(s, 0, true).events;
    if InComment(events, k) {
      CommentHolds(events, k);
      var a: nat, b: nat :| Comment(a, b) in events && a <= k < b;
      var r :| r in rs && Comment(a, b) in EventsOf(s, r);
      EventContent(s, rs, r, a, b, k);
    }
    if InContent(rs, k) {
      var r := ContentRegion(rs, k);
      ReadIsLexeme(s, r);
      ContentEvent(s, r, k);
      var ev :| ev in EventsOf(s, r) && ev.Comment? && ev.start <= k < ev.end;
      assert ev in events;
      HoldsComment(events, ev, k);
    }
  }

  lemma CommentHolds(events: seq<Event>, k: nat)
    requires InComment(events, k)
    ensures exists a: nat, b: nat :: Comment(a, b) in events && a <= k < b
  {
    var j :| 0 <= j < |events| && events[j].Comment? && events[j].start <= k < events[j].end;
    assert Comment(events[j].start, events[j].end) in events;
  }

  lemma HoldsComment(events: seq<Event>, ev: Event, k: nat)
    requires ev in events && ev.Comment? && ev.start <= k < ev.end
    ensures InComment(events, k)
  {
    var j :| 0 <= j < |events| && events[j] == ev;
  }

  lemma EventContent(s: string, rs: seq<Region>, r: Region, a: nat, b: nat, k: nat)
    requires r in rs && IsRead(s, r) && r.end <= |s| && Comment(a, b) in EventsOf(s, r) && a <= k < b
    ensures InContent(rs, k)
  {
    EventOf(s, r, Comment(a, b));
    hide EventsOf, Belongs;
  }

  lemma ContentRegion(rs: seq<Region>, k: nat) returns (r: Region)
    requires InContent(rs, k)
    ensures r in rs && r.start + 2 <= k
    ensures if r.kind.LineCommentK? then k < r.end else r.kind.BlockCommentK? && k + 2 < r.end
  {
    if x :| x in rs && x.kind.LineCommentK? && x.start + 2 <= k < x.end {
      r := x;
    } else {
      r :| r in rs && r.kind.BlockCommentK? && r.start + 2 <= k && k + 2 < r.end;
    }
  }

  lemma ContentEvent(s: string, r: Region, k: nat)
    requires IsLexeme(s, r) && r.start + 2 <= k
    requires if r.kind.LineCommentK? then k < r.end else r.kind.BlockCommentK? && k + 2 < r.end
    ensures exists ev :: ev in EventsOf(s, r) && ev.Comment? && ev.start <= k < ev.end
  {
    var ev := if r.kind.LineCommentK? then Comment(r.start + 2, r.end) else Comment(r.start + 2, r.end - 2);
    EventOf(s, r, ev);
    hide EventsOf;
    assert ev in EventsOf(s, r);
  }

  /** An alarm stands for a non-ASCII character that is no comment content. */
  lemma AlarmEvents(s: string, rs: seq<Region>, k: nat)
    requires Tiles(s, LineStart, 0, rs)
    ensures Run(s, 0, true).Go?
    ensures Alarm(k) in Run(s, 0, true).events <==> k < |s| && s[k] as int > 127 && !InContent(rs, k)
  {
    hide *;
    AlarmsExactly(s, rs, k);
    TilesLie(s, LineStart, 0, rs);
    if InContent(rs, k) {
      var r := ContentRegion(rs, k);
      assert IsComment(r.kind) by {
        KindIsComment(r.kind);
      }
    } else if k < |s| && s[k] as int > 127 && Alarm(k) !in Run(s, 0, true).events {
      var r :| r in rs && IsComment(r.kind) && r.start <= k < r.end;
      ReadIsLexeme(s, r);
      DelimitersAreAscii(s, rs, r, k);
    }
  }

  lemma KindIsComment(k: Kind)
    ensures IsComment(k) <==> k.LineCommentK? || k.BlockCommentK?
  {
  }

  lemma DelimitersAreAscii(s: string, rs: seq<Region>, r: Region, k: nat)
    requires r in rs && IsComment(r.kind) && IsLexeme(s, r) && r.start <= k < r.end && s[k] as int > 127
    ensures InContent(rs, k)
  {
  }

  // From readings to passes

  /** What is scanned: the file, its units and where they lie, read as its charset says. */
  ghost function ScannedAs(cfg: Config, data: seq<Byte>, replace: bool, d: SourceText, physical: seq<nat>): Source
    requires d.SourceText?
  {
    Source(data, d.units, Offsets(d.prefix, d.units), physical, cfg.charset.LegacyText?,
           cfg.charset.LegacyText? && cfg.charset.doubleByte, replace, cfg.unassigned)
  }

  lemma ReadingScans(cfg: Config, data: seq<Byte>, replace: bool, d: SourceText, physical: seq<nat>, rs: seq<Region>)
    requires LawfulConfig(cfg) && IsReading(cfg.charset, data, replace, d, physical, rs)
    ensures var src := ScannedAs(cfg, data, replace, d, physical);
            && src == MakeSource(cfg, data, d, physical, replace) && Wired(src)
            && Logical(src) == CharactersAt(Text(d.units), physical)
            && Run(Logical(src), 0, true).Go?
            && FirstPass(cfg, data, replace) == ScanPass(cfg, data, replace, d, physical)
  {
    hide Lawful, Decode, Splice, Run, ScanPass, Tiles, IsSpliced, IsRefused, TextFindings, BlanksBehind;
    var text := Text(d.units);
    SplicedExactly(text, physical);
    DecodeFacts(cfg.charset, data, replace);
    PhysicalLies(text, physical);
    SourceIsWired(cfg, data, d, physical, replace);
    SpliceKeeps(text, 0);
    var src := MakeSource(cfg, data, d, physical, replace);
    assert Logical(src) == CharactersAt(text, physical);
    ReportIsTiling(Logical(src), rs);
  }

  lemma PhysicalLies(text: string, physical: seq<nat>)
    requires IsView(text, 0, physical)
    ensures forall k :: 0 <= k < |physical| ==> physical[k] in physical && physical[k] < |text|
  {
    forall k | 0 <= k < |physical|
      ensures physical[k] in physical && physical[k] < |text|
    {
      var p := physical[k];
      assert p in physical;
    }
  }

  /** A ready file has a reading. */
  lemma ReadyIsReading(cfg: Config, data: seq<Byte>, replace: bool, checkOutput: bool)
    requires LawfulConfig(cfg) && Analyse(cfg, data, replace, checkOutput).ready
    ensures exists d, physical, rs :: IsReading(cfg.charset, data, replace, d, physical, rs)
  {
    assert FirstPass(cfg, data, replace).complete by {
      hide Lawful, FirstPass;
    }
    hide *;
    CompletePass(cfg, data, replace);
    PassReads(cfg, data, replace, Decode(cfg.charset, data, replace));
  }

  lemma PassReads(cfg: Config, data: seq<Byte>, replace: bool, d: SourceText)
    requires LawfulConfig(cfg) && d.SourceText? && d == Decode(cfg.charset, data, replace) && Splice(Text(d.units), 0).Spliced?
    requires var physical := Splice(Text(d.units), 0).physical;
             && Wired(MakeSource(cfg, data, d, physical, replace))
             && Run(Logical(MakeSource(cfg, data, d, physical, replace)), 0, true).Go?
    ensures exists physical, rs :: IsReading(cfg.charset, data, replace, d, physical, rs)
  {
    hide Lawful, Decode, Splice, Run, Tiles, IsSpliced, IsRefused, Wired;
    var text := Text(d.units);
    var physical := Splice(text, 0).physical;
    var s := Logical(MakeSource(cfg, data, d, physical, replace));
    SplicedExactly(text, physical);
    ScanIsTiled(s);
    var rs :| Tiles(s, LineStart, 0, rs);
    assert s == CharactersAt(text, physical);
    assert IsReading(cfg.charset, data, replace, d, physical, rs);
  }

  // Blockers

  predicate IsHazardous(text: string, i: nat) {
    i + 3 <= |text| && (text[i..i + 3] == "??/" || text[i..i + 3] == "??=")
  }

  lemma HazardIs(text: string, i: nat)
    ensures IsHazardous(text, i) <==> IsHazard(text, i)
  {
    if i + 3 <= |text| {
      assert text[i..i + 3] == [text[i], text[i + 1], text[i + 2]];
    }
  }

  /** No search passes over a trigraph that could change what the lexer sees. */
  lemma {:induction false} HazardBlocks(text: string, offsets: seq<(nat, nat)>, i: nat, x: Trigraphs, k: nat)
    requires |offsets| == |text| && i <= k && IsHazard(text, k)
    ensures HasBlocker(FindTrigraphs(text, offsets, i, x).findings)
    decreases |text| - i
  {
    if !IsTrigraph(text, i) {
      HazardBlocks(text, offsets, i + 1, x, k);
    } else {
      var f := TrigraphFinding(text, i, offsets[i].0);
      if f.severity == Blocker {
        BlockerAppend(x.findings, f);
      } else {
        assert text[i + 2] != '?';
        HazardBlocks(text, offsets, i + 3, if |x.findings| < MAX_FINDINGS then x.(findings := x.findings + [f])
                                           else x.(suppressed := x.suppressed + 1), k);
      }
    }
  }

  lemma TextBlocksExactly(text: string, offsets: seq<(nat, nat)>)
    requires |offsets| == |text|
    ensures HasBlocker(TextFindings(text, offsets)) <==> '\0' in text || exists i: nat :: IsHazardous(text, i)
  {
    TextBlockers(text, offsets);
    hide TextFindings, FindTrigraphs, IsHazard, IsHazardous;
    forall i: nat
      ensures IsHazardous(text, i) <==> IsHazard(text, i)
    {
      HazardIs(text, i);
    }
    var none := Trigraphs([], 0);
    if i: nat :| IsHazardous(text, i) {
      HazardBlocks(text, offsets, 0, none, i);
    } else {
      NoHazardNoBlocker(text, offsets, 0, none);
    }
  }

  lemma ScanBlocksExactly(before: seq<Finding>, st: State)
    requires IsCounted(st)
    ensures Blocked(before + [] + ScanFindings(st), st) <==> HasBlocker(before) || st.overflow || st.blockerCount > 0
  {
    var bound := if st.overflow then [Finding(REPLACEMENT_BOUND_EXCEEDED, Blocker, None)]
                 else if st.records != [] then [Finding(REPLACEMENT_APPLIED, Info, None)] else [];
    var cut := if st.suppressed == 0 then []
               else [Finding(FINDINGS_TRUNCATED, if st.blockerSuppressed > 0 then Blocker else Warning, None)];
    assert before + [] == before;
    BlockerConcat(before, ScanFindings(st));
    BlockerConcat(st.findings + bound, cut);
    BlockerConcat(st.findings, bound);
    assert HasBlocker(bound) <==> st.overflow by {
      assert st.overflow ==> bound[0].severity == Blocker;
    }
    assert HasBlocker(cut) ==> st.blockerSuppressed > 0;
  }

  /** `found` lists, in order, the positions of comment content at which `p` holds. */
  ghost predicate AreContent(rs: seq<Region>, p: nat -> bool, found: seq<nat>) {
    Ascending(found) && forall k: nat :: k in found <==> InContent(rs, k) && p(k)
  }

  /** At most 512 characters are written as question marks. */
  ghost predicate FewReplaced(src: Source, rs: seq<Region>) {
    exists marks :: AreContent(rs, Replaced(src), marks) && |marks| <= 512
  }

  /** No character of the file blocks it, in a comment or outside. */
  ghost predicate NoUnitBlocks(src: Source, rs: seq<Region>) {
    && (forall k: nat :: InContent(rs, k) ==> !BlocksInside(src, k))
    && forall k: nat :: IsUnit(src, k) && src.units[src.physical[k]].ch as int > 127 && !InContent(rs, k) ==>
         !BlocksOutside(src, k)
  }

  lemma FoundContent(s: string, rs: seq<Region>, p: nat -> bool)
    requires Tiles(s, LineStart, 0, rs)
    ensures Run(s, 0, true).Go? && AreContent(rs, p, Inside(p, Run(s, 0, true).events))
  {
    hide *;
    ReportIsTiling(s, rs);
    RunAccounted(s, 0, true);
    var events := Run(s, 0, true).events;
    TraceOf(s);
    InsideExactly(s, p, events, 0);
    FoundIs(s, rs, p);
  }

  lemma TraceOf(s: string)
    requires Run(s, 0, true).Go?
    ensures Traces(s, Run(s, 0, true).events, 0, |s|)
  {
    hide Run, Traces;
    RunAccounted(s, 0, true);
  }

  lemma FoundIs(s: string, rs: seq<Region>, p: nat -> bool)
    requires Tiles(s, LineStart, 0, rs) && Run(s, 0, true).Go?
    requires Finds(p, Run(s, 0, true).events, 0, Inside(p, Run(s, 0, true).events))
    ensures AreContent(rs, p, Inside(p, Run(s, 0, true).events))
  {
    hide Run, Tiles, Inside, InComment, InContent;
    forall k: nat
      ensures InComment(Run(s, 0, true).events, k) <==> InContent(rs, k)
    {
      ContentEvents(s, rs, k);
    }
  }

  /** Two lists of the same characters are one. */
  lemma SameContent(rs: seq<Region>, p: nat -> bool, a: seq<nat>, b: seq<nat>)
    requires AreContent(rs, p, a) && AreContent(rs, p, b)
    ensures a == b
  {
    hide InContent;
    SameList(a, b);
  }

  lemma BlocksByRegion(src: Source, rs: seq<Region>)
    requires Wired(src) && Tiles(Logical(src), LineStart, 0, rs)
    ensures Run(Logical(src), 0, true).Go?
    ensures NothingBlocks(src, Run(Logical(src), 0, true).events) <==> NoUnitBlocks(src, rs)
  {
    var s := Logical(src);
    hide Run, Tiles, InComment, InContent, BlocksInside, BlocksOutside;
    ReportIsTiling(s, rs);
    var events := Run(s, 0, true).events;
    forall k: nat
      ensures InComment(events, k) <==> InContent(rs, k)
      ensures Alarm(k) in events <==> IsUnit(src, k) && src.units[src.physical[k]].ch as int > 127 && !InContent(rs, k)
    {
      ContentEvents(s, rs, k);
      AlarmEvents(s, rs, k);
    }
  }

  lemma {:induction false} TraceInRange(s: string, events: seq<Event>, from: nat)
    requires Traces(s, events, from, |s|)
    ensures AllInRange(|s|, events)
    decreases |events|
  {
    if events != [] {
      TraceInRange(s, events[1..], if events[0].Comment? then events[0].end else events[0].at + 1);
    }
  }

  /** The scanner's final state, in terms of the regions. */
  lemma ReadingTotals(src: Source, rs: seq<Region>)
    requires Wired(src) && Tiles(Logical(src), LineStart, 0, rs)
    ensures Run(Logical(src), 0, true).Go?
    ensures Totals(src, START, ApplyAll(src, START, Run(Logical(src), 0, true).events), Run(Logical(src), 0, true).events, [])
  {
    var s := Logical(src);
    ReportIsTiling(s, rs);
    TraceOf(s);
    hide Wired, Tiles, Run, Traces, Totals;
    TraceInRange(s, Run(s, 0, true).events, 0);
    assert Starts(src, START, []);
    ApplyAllIs(src, START, Run(s, 0, true).events, []);
  }

  /** What a scan counts and records: the comments, the non-ASCII characters of their
      content, those not written as they were, and the first 512 question marks. */
  lemma CountsExactly(src: Source, rs: seq<Region>, noted: seq<nat>, rewritten: seq<nat>, marks: seq<nat>)
    requires Wired(src) && Tiles(Logical(src), LineStart, 0, rs)
    requires AreContent(rs, Noted(src), noted) && AreContent(rs, Rewritten(src), rewritten)
    requires AreContent(rs, Replaced(src), marks)
    ensures Run(Logical(src), 0, true).Go?
    ensures var st := ApplyAll(src, START, Run(Logical(src), 0, true).events);
            && st.commentNonAscii == |noted| && st.changedUnits == |rewritten|
            && (st.overflow <==> |marks| > 512)
            && |st.records| == (if |marks| > 512 then 512 else |marks|)
            && (forall j :: 0 <= j < |st.records| ==>
                  marks[j] in marks && IsReplaced(src, marks[j]) && IsUnit(src, marks[j])
                  && UnitLies(src, marks[j]) && st.records[j] == RecordOf(src, marks[j]))
            && IsCounted(st) && (st.blockerCount == 0 <==> NoUnitBlocks(src, rs))
  {
    ReadingTotals(src, rs);
    var s := Logical(src);
    var events := Run(s, 0, true).events;
    hide Wired, Tiles, Run, ApplyAll, IsNoted, IsReplaced, IsRewritten, InContent, Inside, IsCounted, NothingBlocks, NoUnitBlocks;
    FoundContent(s, rs, Noted(src));
    FoundContent(s, rs, Rewritten(src));
    FoundContent(s, rs, Replaced(src));
    SameContent(rs, Noted(src), noted, Inside(Noted(src), events));
    SameContent(rs, Rewritten(src), rewritten, Inside(Rewritten(src), events));
    SameContent(rs, Replaced(src), marks, Inside(Replaced(src), events));
    BlocksByRegion(src, rs);
    assert [] + marks == marks;
    UnitsLie(src, marks);
  }

  predicate UnitLies(src: Source, k: nat) {
    IsUnit(src, k) && src.offsets[src.physical[k]].0 <= src.offsets[src.physical[k]].1
  }

  lemma UnitsLie(src: Source, marks: seq<nat>)
    requires Wired(src) && AreUnits(src, marks)
    ensures forall j :: 0 <= j < |marks| ==> marks[j] in marks && UnitLies(src, marks[j])
  {
  }

  // The copy

  /** A character of comment content as it is written: a question mark, or itself in UTF-8. */
  function WrittenUnit(u: Unit, replace: bool): Unit {
    if u.isOpaque || (replace && u.ch as int > 127 && IsSpecial(u.ch)) then Unit('?', [63], false)
    else Unit(u.ch, Utf8.Encode(u.ch), false)
  }

  /** Unit `i` is opaque or not ASCII, and comment content. */
  predicate IsWritten(src: Source, rs: seq<Region>, i: nat) {
    exists k: nat :: k < |src.physical| && src.physical[k] == i && InContent(rs, k) && IsNoted(src, k)
  }

  function WrittenUnits(src: Source, rs: seq<Region>): (r: seq<Unit>)
    ensures |r| == |src.units|
    ensures forall i :: 0 <= i < |r| ==> r[i] == if IsWritten(src, rs, i) then WrittenUnit(src.units[i], src.replace) else src.units[i]
  {
    seq(|src.units|, i requires 0 <= i < |src.units| =>
      if IsWritten(src, rs, i) then WrittenUnit(src.units[i], src.replace) else src.units[i])
  }

  /** The copy in full: the byte-order mark, if any, and every unit as it is or as
      comment content is written. */
  ghost function WrittenBytes(cfg: Config, data: seq<Byte>, replace: bool, d: SourceText, physical: seq<nat>, rs: seq<Region>): seq<Byte>
    requires d.SourceText?
  {
    (if |data| >= 3 && data[0] == 0xEF && data[1] == 0xBB && data[2] == 0xBF then data[..3] else [])
    + Bytes(WrittenUnits(ScannedAs(cfg, data, replace, d, physical), rs))
  }

  lemma HeadIs(data: seq<Byte>)
    ensures Head(data) == if |data| >= 3 && data[0] == 0xEF && data[1] == 0xBB && data[2] == 0xBF then data[..3] else []
  {
    if |data| >= 3 {
      assert data[..3] == [data[0], data[1], data[2]];
    }
  }

  lemma WrittenIs(u: Unit, replace: bool)
    requires u.isOpaque || NonAscii(u.ch)
    ensures Rewrite(u, replace) == WrittenUnit(u, replace)
  {
    SpecialIs(u.ch);
  }

  /** A unit of the copy. */
  lemma UnitIsWritten(cfg: Config, data: seq<Byte>, replace: bool, d: SourceText, physical: seq<nat>, rs: seq<Region>, i: nat)
    requires LawfulConfig(cfg) && IsReading(cfg.charset, data, replace, d, physical, rs) && i < |d.units|
    ensures var src := ScannedAs(cfg, data, replace, d, physical);
            OutUnits(d.units, FirstPass(cfg, data, replace).scan.intervals, replace)[i] == WrittenUnits(src, rs)[i]
  {
    hide Lawful, Decode, Splice, Run, ScanPass, Tiles, IsSpliced, IsRefused, TextFindings, BlanksBehind, InContent, FirstPass;
    hide WrittenUnit, Rewrite, Utf8.Encode, InComment, Wired;
    ReadingScans(cfg, data, replace, d, physical, rs);
    DecodeFacts(cfg.charset, data, replace);
    var src := ScannedAs(cfg, data, replace, d, physical);
    var s := Logical(src);
    SplicedExactly(Text(d.units), physical);
    SpliceKeeps(Text(d.units), 0);
    ScanPlaces(cfg, data, replace, d, physical);
    var u := d.units[i];
    assert u in d.units;
    if u.isOpaque || NonAscii(u.ch) {
      assert NonAscii(Text(d.units)[i]);
      var k :| 0 <= k < |physical| && physical[k] == i;
      assert NonAscii(s[k]);
      AlarmEvents(s, rs, k);
      ContentEvents(s, rs, k);
      WrittenIs(u, replace);
      OnlyPosition(src, rs, i, k);
    } else {
      PlainIsKept(src, rs, i, replace);
    }
  }

  lemma OnlyPosition(src: Source, rs: seq<Region>, i: nat, k: nat)
    requires Ascending(src.physical) && k < |src.physical| && src.physical[k] == i && IsNoted(src, k)
    ensures IsWritten(src, rs, i) <==> InContent(rs, k)
  {
    hide InContent;
  }

  lemma PlainIsKept(src: Source, rs: seq<Region>, i: nat, replace: bool)
    requires i < |src.units| && !src.units[i].isOpaque && !NonAscii(src.units[i].ch)
    ensures !IsWritten(src, rs, i) && Rewrite(src.units[i], replace) == src.units[i]
  {
    hide InContent;
  }

  /** The derived copy is exactly what is written. */
  lemma CopyExactly(cfg: Config, data: seq<Byte>, replace: bool, d: SourceText, physical: seq<nat>, rs: seq<Region>)
    requires Clear(cfg, data, replace) && IsReading(cfg.charset, data, replace, d, physical, rs)
    ensures CopyBytes(cfg, data, replace) == WrittenBytes(cfg, data, replace, d, physical, rs)
  {
    var src := ScannedAs(cfg, data, replace, d, physical);
    HeadIs(data);
    ReadingScans(cfg, data, replace, d, physical, rs);
    CompleteScan(cfg, data, replace, d, physical);
    hide Lawful, FirstPass, ScanPass, IsReading, Decode, WrittenUnit, Wired, Head;
    assert Copy(cfg, data, replace) == WrittenUnits(src, rs) by {
      forall i | 0 <= i < |d.units|
        ensures Copy(cfg, data, replace)[i] == WrittenUnits(src, rs)[i]
      {
        UnitIsWritten(cfg, data, replace, d, physical, rs, i);
      }
    }
  }

  /** The bytes hold three in a row. */
  predicate HoldsThree(b: seq<Byte>, x: Byte, y: Byte, z: Byte) {
    exists i :: 0 <= i && i + 3 <= |b| && b[i] == x && b[i + 1] == y && b[i + 2] == z
  }

  lemma HoldsIs(b: seq<Byte>, x: Byte, y: Byte, z: Byte)
    ensures HoldsThree(b, x, y, z) <==> Contains(b, [x, y, z])
  {
    if i :| 0 <= i && i + 3 <= |b| && b[i] == x && b[i + 1] == y && b[i + 2] == z {
      assert b[i..][..3] == [x, y, z];
      assert StartsWith(b[i..], [x, y, z]);
    }
    if i :| 0 <= i <= |b| && StartsWith(b[i..], [x, y, z]) {
      assert b[i..][..3][0] == x && b[i..][..3][1] == y && b[i..][..3][2] == z;
    }
  }

  /** When a file that can be read is ready, and what is written then. */
  lemma ReadyExactly(cfg: Config, data: seq<Byte>, replace: bool, checkOutput: bool, d: SourceText, physical: seq<nat>, rs: seq<Region>)
    requires LawfulConfig(cfg) && IsReading(cfg.charset, data, replace, d, physical, rs)
    ensures var src := ScannedAs(cfg, data, replace, d, physical);
            var a := Analyse(cfg, data, replace, checkOutput);
            var output := WrittenBytes(cfg, data, replace, d, physical, rs);
            && (a.ready <==>
                && '\0' !in Text(d.units) && (forall i: nat :: !IsHazardous(Text(d.units), i))
                && NoUnitBlocks(src, rs) && FewReplaced(src, rs)
                && !(replace && (HoldsThree(output, 63, 63, 47) || HoldsThree(output, 63, 63, 61))))
            && (a.ready ==> a.output == Some(output))
  {
    hide *;
    ClearExactly(cfg, data, replace, d, physical, rs);
    if Clear(cfg, data, replace) {
      RecheckNeverFires(cfg, data, replace, checkOutput);
      CopyExactly(cfg, data, replace, d, physical, rs);
      var output := CopyBytes(cfg, data, replace);
      HoldsIs(output, 63, 63, 47);
      HoldsIs(output, 63, 63, 61);
      HazardousIs(replace, output);
    } else {
      UnclearIsNotReady(cfg, data, replace, checkOutput);
    }
  }

  lemma HazardousIs(replace: bool, output: seq<Byte>)
    ensures Hazardous(replace, output) <==> replace && (Contains(output, [63, 63, 47]) || Contains(output, [63, 63, 61]))
  {
  }

  lemma UnclearIsNotReady(cfg: Config, data: seq<Byte>, replace: bool, checkOutput: bool)
    requires LawfulConfig(cfg) && !Clear(cfg, data, replace)
    ensures !Analyse(cfg, data, replace, checkOutput).ready
  {
    hide Lawful, FirstPass, Blocked;
  }

  lemma ClearExactly(cfg: Config, data: seq<Byte>, replace: bool, d: SourceText, physical: seq<nat>, rs: seq<Region>)
    requires LawfulConfig(cfg) && IsReading(cfg.charset, data, replace, d, physical, rs)
    ensures Clear(cfg, data, replace) <==>
              && '\0' !in Text(d.units) && (forall i: nat :: !IsHazardous(Text(d.units), i))
              && NoUnitBlocks(ScannedAs(cfg, data, replace, d, physical), rs)
              && FewReplaced(ScannedAs(cfg, data, replace, d, physical), rs)
  {
    var src := ScannedAs(cfg, data, replace, d, physical);
    ReadingTiles(cfg.charset, data, replace, d, physical, rs);
    hide *;
    ReadingScans(cfg, data, replace, d, physical, rs);
    var s := Logical(src);
    FoundContent(s, rs, Noted(src));
    FoundContent(s, rs, Rewritten(src));
    FoundContent(s, rs, Replaced(src));
    var events := Run(s, 0, true).events;
    CountsExactly(src, rs, Inside(Noted(src), events), Inside(Rewritten(src), events), Inside(Replaced(src), events));
    FewIs(src, rs, Inside(Replaced(src), events));
    PassIs(cfg, data, replace, d, physical);
  }

  lemma ReadingTiles(cs: Charset, data: seq<Byte>, replace: bool, d: SourceText, physical: seq<nat>, rs: seq<Region>)
    requires Lawful(CodecOf(cs)) && IsReading(cs, data, replace, d, physical, rs)
    ensures (forall k :: k in physical ==> k < |Text(d.units)|) && Tiles(CharactersAt(Text(d.units), physical), LineStart, 0, rs)
  {
    hide Lawful, Decode, Tiles, IsSpliced, IsRefused;
  }

  lemma FewIs(src: Source, rs: seq<Region>, marks: seq<nat>)
    requires AreContent(rs, Replaced(src), marks)
    ensures FewReplaced(src, rs) <==> |marks| <= 512
  {
    hide InContent, AreContent;
    if other :| AreContent(rs, Replaced(src), other) && |other| <= 512 {
      SameContent(rs, Replaced(src), marks, other);
    }
  }

  /** The pass of a completed scan blocks for the text, the scan or the bound. */
  lemma PassIs(cfg: Config, data: seq<Byte>, replace: bool, d: SourceText, physical: seq<nat>)
    requires LawfulConfig(cfg) && d.SourceText? && Wired(MakeSource(cfg, data, d, physical, replace))
    requires var src := MakeSource(cfg, data, d, physical, replace);
             && Run(Logical(src), 0, true).Go?
             && IsCounted(ApplyAll(src, START, Run(Logical(src), 0, true).events))
    requires FirstPass(cfg, data, replace) == ScanPass(cfg, data, replace, d, physical)
    ensures var src := MakeSource(cfg, data, d, physical, replace);
            var st := ApplyAll(src, START, Run(Logical(src), 0, true).events);
            Clear(cfg, data, replace) <==>
            '\0' !in Text(d.units) && (forall i: nat :: !IsHazardous(Text(d.units), i)) && !st.overflow && st.blockerCount == 0
  {
    hide Lawful, Run, ApplyAll, Wired, FirstPass, TextFindings, ScanFindings, IsCounted, IsHazardous, Logical, Blocked, HasBlocker;
    var src := MakeSource(cfg, data, d, physical, replace);
    var st := ApplyAll(src, START, Run(Logical(src), 0, true).events);
    TextBlocksExactly(Text(d.units), Offsets(d.prefix, d.units));
    ScanBlocksExactly(TextFindings(Text(d.units), Offsets(d.prefix, d.units)), st);
  }

  // The bytes outside comments

  /** Unit `i` lies between the first and the last character of a comment's content. */
  predicate SpansUnit(physical: seq<nat>, r: Region, i: nat) {
    || (r.kind.LineCommentK? && r.start + 2 < r.end <= |physical| && physical[r.start + 2] <= i <= physical[r.end - 1])
    || (r.kind.BlockCommentK? && r.start + 4 < r.end <= |physical| && physical[r.start + 2] <= i <= physical[r.end - 3])
  }

  predicate InSpan(physical: seq<nat>, rs: seq<Region>, i: nat) {
    exists r :: r in rs && SpansUnit(physical, r, i)
  }

  lemma SpanEvents(s: string, physical: seq<nat>, rs: seq<Region>, i: nat)
    requires Tiles(s, LineStart, 0, rs) && |s| == |physical|
    ensures Run(s, 0, true).Go?
    ensures AroundAny(physical, Run(s, 0, true).events, i) <==> InSpan(physical, rs, i)
  {
    hide *;
    ReportIsTiling(s, rs);
    TilesLie(s, LineStart, 0, rs);
    EventsAreRegions(s, rs);
    var events := Run(s, 0, true).events;
    AroundAnyIs(physical, events, i);
    InSpanIs(physical, rs, i);
    if ev :| ev in events && Around(physical, ev, i) {
      var r :| r in rs && ev in EventsOf(s, r);
      ReadIsLexeme(s, r);
      EventSpans(s, physical, r, ev, i);
    }
    if r :| r in rs && SpansUnit(physical, r, i) {
      ReadIsLexeme(s, r);
      RegionEvent(s, physical, r, i);
      var ev :| ev in EventsOf(s, r) && Around(physical, ev, i);
      assert ev in events;
    }
  }

  lemma AroundAnyIs(physical: seq<nat>, events: seq<Event>, i: nat)
    ensures AroundAny(physical, events, i) <==> exists ev :: ev in events && Around(physical, ev, i)
  {
  }

  lemma InSpanIs(physical: seq<nat>, rs: seq<Region>, i: nat)
    ensures InSpan(physical, rs, i) <==> exists r :: r in rs && SpansUnit(physical, r, i)
  {
  }

  lemma EventSpans(s: string, physical: seq<nat>, r: Region, ev: Event, i: nat)
    requires IsLexeme(s, r) && |s| == |physical| && ev in EventsOf(s, r) && Around(physical, ev, i)
    ensures SpansUnit(physical, r, i)
  {
    EventOf(s, r, ev);
    hide EventsOf;
  }

  lemma RegionEvent(s: string, physical: seq<nat>, r: Region, i: nat)
    requires IsLexeme(s, r) && |s| == |physical| && SpansUnit(physical, r, i)
    ensures exists ev :: ev in EventsOf(s, r) && Around(physical, ev, i)
  {
    var ev := if r.kind.LineCommentK? then Comment(r.start + 2, r.end) else Comment(r.start + 2, r.end - 2);
    EventOf(s, r, ev);
    hide EventsOf;
    assert ev in EventsOf(s, r) && Around(physical, ev, i);
  }

  function SpannedBy(physical: seq<nat>, rs: seq<Region>): nat -> bool {
    (i: nat) => InSpan(physical, rs, i)
  }

  /** The intervals of a file that can be read are the spans of its comments. */
  lemma IntervalsExactly(cfg: Config, data: seq<Byte>, replace: bool, d: SourceText, physical: seq<nat>, rs: seq<Region>, i: nat)
    requires LawfulConfig(cfg) && IsReading(cfg.charset, data, replace, d, physical, rs)
    ensures Covered(FirstPass(cfg, data, replace).scan.intervals, i) <==> InSpan(physical, rs, i)
  {
    ReadingTiles(cfg.charset, data, replace, d, physical, rs);
    hide Lawful, Decode, Splice, Run, ScanPass, Tiles, IsSpliced, IsRefused, TextFindings, BlanksBehind, FirstPass;
    hide Wired, Covered, Placed, InSpan, AroundAny, FoldIntervals, Traces, CharactersAt;
    ReadingScans(cfg, data, replace, d, physical, rs);
    DecodeFacts(cfg.charset, data, replace);
    SplicedExactly(Text(d.units), physical);
    SpliceKeeps(Text(d.units), 0);
    ScanPlaces(cfg, data, replace, d, physical);
    var s := Logical(ScannedAs(cfg, data, replace, d, physical));
    TraceOf(s);
    NothingBehind(physical, |d.units|);
    FoldCovers(s, physical, |d.units|, [], Run(s, 0, true).events, 0, i);
    NothingCovered(i);
    SpanEvents(s, physical, rs, i);
  }

  lemma NothingBehind(physical: seq<nat>, n: nat)
    ensures ScanFacts.Behind(physical, n, [], 0)
  {
  }

  lemma NothingCovered(i: nat)
    ensures !Covered([], i)
  {
  }

  /** The outside segments of a ready file hold, in order and none of them empty, the
      mark and the bytes of every unit that no comment's content spans. */
  lemma OutsideExactly(cfg: Config, data: seq<Byte>, replace: bool, checkOutput: bool, d: SourceText, physical: seq<nat>, rs: seq<Region>)
    requires LawfulConfig(cfg) && IsReading(cfg.charset, data, replace, d, physical, rs)
    requires Analyse(cfg, data, replace, checkOutput).ready
    ensures var a := Analyse(cfg, data, replace, checkOutput);
            && a.outside.Some? && (forall x :: x in a.outside.value ==> x != [])
            && Flatten(a.outside.value) ==
               (if |data| >= 3 && data[0] == 0xEF && data[1] == 0xBB && data[2] == 0xBF then data[..3] else [])
               + KeptBytes(d.units, SpannedBy(physical, rs), 0)
  {
    hide *;
    if !Clear(cfg, data, replace) {
      UnclearIsNotReady(cfg, data, replace, checkOutput);
    }
    RecheckNeverFires(cfg, data, replace, checkOutput);
    HeadIs(data);
    DecodedIs(cfg, data, replace, d, physical, rs);
    var ivs := FirstPass(cfg, data, replace).scan.intervals;
    OutsideIsKeptBytes(Head(data), d.units, ivs);
    forall i: nat
      ensures CoveredBy(ivs)(i) == SpannedBy(physical, rs)(i)
    {
      IntervalsExactly(cfg, data, replace, d, physical, rs, i);
      BothApply(ivs, physical, rs, i);
    }
    KeptAlike(d.units, CoveredBy(ivs), SpannedBy(physical, rs), 0);
  }

  lemma BothApply(ivs: seq<(nat, nat)>, physical: seq<nat>, rs: seq<Region>, i: nat)
    ensures CoveredBy(ivs)(i) == Covered(ivs, i) && SpannedBy(physical, rs)(i) == InSpan(physical, rs, i)
  {
  }

  lemma DecodedIs(cfg: Config, data: seq<Byte>, replace: bool, d: SourceText, physical: seq<nat>, rs: seq<Region>)
    requires LawfulConfig(cfg) && IsReading(cfg.charset, data, replace, d, physical, rs)
    ensures FirstPass(cfg, data, replace).decoded == d && d.SourceText?
  {
    ReadingScans(cfg, data, replace, d, physical, rs);
    CompleteScan(cfg, data, replace, d, physical);
    hide Lawful, FirstPass, ScanPass, Decode, Wired;
  }
}
