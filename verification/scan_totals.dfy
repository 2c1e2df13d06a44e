/** What a scan's counters, records and blockers amount to: sums over the characters
    that are comment content, in the order of the text. */
module ScanTotals {
  import opened Basics
  import opened DecodeUnits
  import opened Findings
  import opened Lexer
  import opened LexerAccounts
  import opened Regions
  import opened ScanState
  import opened ScanFacts
  import opened SpliceExact

  // What is said about one character of content, in code points and bytes

  /** Private use, C1 controls, U+FFFD and noncharacters. */
  predicate IsSpecial(c: char) {
    var n := c as int;
    || 0xE000 <= n <= 0xF8FF || 0xF_0000 <= n <= 0xF_FFFD || 0x10_0000 <= n <= 0x10_FFFD
    || 128 <= n <= 159 || n == 0xFFFD || 0xFDD0 <= n <= 0xFDEF || n % 65536 == 65534 || n % 65536 == 65535
  }

  predicate IsUnit(src: Source, k: nat) {
    k < |src.physical| && src.physical[k] < |src.units| == |src.offsets|
  }

  /** An opaque unit, or a non-ASCII character. */
  predicate IsNoted(src: Source, k: nat) {
    IsUnit(src, k) && var u := src.units[src.physical[k]]; u.isOpaque || u.ch as int > 127
  }

  /** Written as a question mark. */
  predicate IsReplaced(src: Source, k: nat) {
    IsNoted(src, k) && var u := src.units[src.physical[k]]; u.isOpaque || (src.replace && IsSpecial(u.ch))
  }

  /** Not written as it was: replaced, or recoded from a legacy charset. */
  predicate IsRewritten(src: Source, k: nat) {
    IsReplaced(src, k) || (IsNoted(src, k) && src.legacy)
  }

  /** The bytes end in a backslash and the line ends behind them. */
  predicate TrailsBackslash(src: Source, k: nat)
    requires IsUnit(src, k)
  {
    var i := src.physical[k];
    var (raw, end) := (src.units[i].bytes, src.offsets[i].1);
    && raw != [] && raw[|raw| - 1] == 92
    && if src.units[i].isOpaque then end >= |src.data| || src.data[end] == 13 || src.data[end] == 10
       else i + 1 == |src.units| || Newline(src.units[i + 1].ch)
  }

  /** Comment content that blocks the file: a trailing backslash byte, or a kept
      special character of a legacy charset. */
  predicate BlocksInside(src: Source, k: nat) {
    && IsNoted(src, k)
    && (TrailsBackslash(src, k)
        || (src.legacy && !src.replace && !src.units[src.physical[k]].isOpaque && IsSpecial(src.units[src.physical[k]].ch)))
  }

  /** A non-ASCII character outside comments blocks if it is opaque or recoded. */
  predicate BlocksOutside(src: Source, k: nat) {
    IsUnit(src, k) && (src.legacy || src.units[src.physical[k]].isOpaque)
  }

  function RecordOf(src: Source, k: nat): Record
    requires IsUnit(src, k) && src.offsets[src.physical[k]].0 <= src.offsets[src.physical[k]].1
  {
    var i := src.physical[k];
    var (u, start) := (src.units[i], src.offsets[i].0);
    var n := u.ch as int;
    Record(start, src.offsets[i].1 - start,
           if u.isOpaque then InvalidByteUnit
           else if 128 <= n <= 159 then C1Control
           else if n == 0xFFFD then ReplacementChar
           else if 0xFDD0 <= n <= 0xFDEF || n % 65536 >= 65534 then Noncharacter
           else PrivateUse)
  }

  // Characters of content, in order

  function Within(p: nat -> bool, a: nat, b: nat): seq<nat>
    decreases b - a
  {
    if a >= b then [] else (if p(a) then [a] else []) + Within(p, a + 1, b)
  }

  function Inside(p: nat -> bool, events: seq<Event>): seq<nat> {
    if events == [] then []
    else (if events[0].Comment? then Within(p, events[0].start, events[0].end) else []) + Inside(p, events[1..])
  }

  /** `found` lists the positions from `from` on at which content satisfies `p`. */
  ghost predicate Finds(p: nat -> bool, events: seq<Event>, from: nat, found: seq<nat>) {
    && Ascending(found)
    && (forall k: nat :: k in found <==> InComment(events, k) && p(k))
    && forall k: nat :: k in found ==> from <= k
  }

  lemma {:induction false} WithinExactly(p: nat -> bool, a: nat, b: nat)
    ensures Ascending(Within(p, a, b))
    ensures forall k: nat :: k in Within(p, a, b) <==> a <= k < b && p(k)
    decreases b - a
  {
    if a < b {
      WithinExactly(p, a + 1, b);
      var (first, rest) := (if p(a) then [a] else [], Within(p, a + 1, b));
      assert forall i :: 0 <= i < |rest| ==> rest[i] in rest;
      assert first + rest == Within(p, a, b);
    }
  }

  lemma AscendingJoin(a: seq<nat>, b: seq<nat>, m: nat)
    requires Ascending(a) && Ascending(b)
    requires (forall k :: k in a ==> k < m) && forall k :: k in b ==> m <= k
    ensures Ascending(a + b)
  {
    assert forall i :: 0 <= i < |a| ==> a[i] in a;
    assert forall i :: 0 <= i < |b| ==> b[i] in b;
  }

  lemma {:induction false} InsideExactly(s: string, p: nat -> bool, events: seq<Event>, from: nat)
    requires Traces(s, events, from, |s|)
    ensures Finds(p, events, from, Inside(p, events))
    decreases |events|
  {
    if events != [] {
      var ev := events[0];
      var next := if ev.Comment? then ev.end else ev.at + 1;
      InsideExactly(s, p, events[1..], next);
      hide Traces;
      var first := if ev.Comment? then Within(p, ev.start, ev.end) else [];
      if ev.Comment? {
        WithinExactly(p, ev.start, ev.end);
      }
      AscendingJoin(first, Inside(p, events[1..]), next);
      forall k: nat
        ensures InComment(events, k) <==> (ev.Comment? && ev.start <= k < ev.end) || InComment(events[1..], k)
      {
        CommentHere(events, k);
      }
      hide InComment, Within;
    }
  }

  lemma CommentHere(events: seq<Event>, k: nat)
    requires events != []
    ensures InComment(events, k) <==>
              (events[0].Comment? && events[0].start <= k < events[0].end) || InComment(events[1..], k)
  {
    if InComment(events[1..], k) {
      var j :| 0 <= j < |events[1..]| && events[1..][j].Comment? && events[1..][j].start <= k < events[1..][j].end;
      assert events[j + 1] == events[1..][j];
    }
  }

  // The state a scan builds

  /** The records are those of the marked characters, at most 512 of them. */
  ghost predicate IsRecorded(src: Source, st: State, marks: seq<nat>)
    requires Wired(src) && forall k :: k in marks ==> IsUnit(src, k)
  {
    && (st.overflow <==> |marks| > 512)
    && |st.records| == (if |marks| > 512 then 512 else |marks|)
    && forall j :: 0 <= j < |st.records| ==> st.records[j] == RecordOf(src, marks[j])
  }

  /** Every blocker a scan reports, keeps back or counts has been counted. */
  predicate IsCounted(st: State) {
    HasBlocker(st.findings) || st.blockerSuppressed > 0 ==> st.blockerCount > 0
  }

  predicate SameTotals(a: State, b: State) {
    && a.commentNonAscii == b.commentNonAscii && a.changedUnits == b.changedUnits
    && a.commentCount == b.commentCount && a.records == b.records && a.overflow == b.overflow
  }

  lemma AddIs(st: State, f: Finding)
    requires IsCounted(st)
    ensures var r := Add(st, f);
            SameTotals(r, st) && IsCounted(r) && (r.blockerCount == 0 <==> st.blockerCount == 0 && f.severity != Blocker)
  {
    var r := Add(st, f);
    if HasBlocker(r.findings) && f.severity != Blocker {
      var i :| 0 <= i < |r.findings| && r.findings[i].severity == Blocker;
      assert st.findings[i].severity == Blocker;
    }
  }

  lemma {:induction false} AddAllIs(st: State, fs: seq<Finding>)
    requires IsCounted(st)
    ensures var r := AddAll(st, fs);
            SameTotals(r, st) && IsCounted(r) && (r.blockerCount == 0 <==> st.blockerCount == 0 && !HasBlocker(fs))
    decreases |fs|
  {
    if fs != [] {
      AddIs(st, fs[0]);
      AddAllIs(Add(st, fs[0]), fs[1..]);
      assert HasBlocker(fs) <==> fs[0].severity == Blocker || HasBlocker(fs[1..]) by {
        if HasBlocker(fs[1..]) {
          var i :| 0 <= i < |fs[1..]| && fs[1..][i].severity == Blocker;
          assert fs[i + 1].severity == Blocker;
        }
        if i :| 0 < i < |fs| && fs[i].severity == Blocker {
          assert fs[1..][i - 1].severity == Blocker;
        }
      }
    }
  }

  lemma OneOf(a: seq<Finding>, b: seq<Finding>)
    ensures HasBlocker(a + b) <==> HasBlocker(a) || HasBlocker(b)
  {
    if HasBlocker(a) {
      var i :| 0 <= i < |a| && a[i].severity == Blocker;
      assert (a + b)[i].severity == Blocker;
    }
    if HasBlocker(b) {
      var i :| 0 <= i < |b| && b[i].severity == Blocker;
      assert (a + b)[|a| + i].severity == Blocker;
    }
  }

  lemma OneOfSeven(a: seq<Finding>, b: seq<Finding>, c: seq<Finding>, d: seq<Finding>,
                   e: seq<Finding>, f: seq<Finding>, g: seq<Finding>)
    ensures HasBlocker(a + b + c + d + e + f + g) <==>
              HasBlocker(a) || HasBlocker(b) || HasBlocker(c) || HasBlocker(d) || HasBlocker(e) || HasBlocker(f) || HasBlocker(g)
  {
    hide HasBlocker;
    OneOf(a, b);
    OneOf(a + b, c);
    OneOf(a + b + c, d);
    OneOf(a + b + c + d, e);
    OneOf(a + b + c + d + e, f);
    OneOf(a + b + c + d + e + f, g);
  }

  lemma WhenBlocks(b: bool, f: Finding)
    ensures HasBlocker(When(b, f)) <==> b && f.severity == Blocker
  {
    if b {
      assert When(b, f)[0] == f;
    }
  }

  lemma SpecialIs(c: char)
    ensures IsSpecial(c) && NonAscii(c) <==> ReplacementReason(c).Some?
    ensures ReplacementReason(c).Some? <==> IsPrivateUse(c) || IsC1(c) || c == '\U{FFFD}' || IsNoncharacter(c)
  {
  }

  /** Which findings of a character of content are blockers. */
  lemma FindingsBlock(src: Source, i: nat, replaced: bool)
    requires Wired(src) && i < |src.units|
    ensures var c := src.units[i].ch;
            HasBlocker(ContentFindings(src, i, replaced)) <==>
            || (src.legacy && !replaced && (IsPrivateUse(c) || IsC1(c) || c == '\U{FFFD}' || IsNoncharacter(c)))
            || (EndsInBackslash(src.units[i].bytes) && (i + 1 == |src.units| || IsNewline(src.units[i + 1].ch)))
  {
    var c := src.units[i].ch;
    var at := Some(src.offsets[i].0);
    var severity := if src.legacy then Blocker else Warning;
    var trails := EndsInBackslash(src.units[i].bytes) && (i + 1 == |src.units| || IsNewline(src.units[i + 1].ch));
    var f1, f2 := Finding(PRIVATE_USE_CODE_POINT, severity, at), Finding(C1_CONTROL_CODE_POINT, severity, at);
    var f3, f4 := Finding(REPLACEMENT_CODE_POINT, severity, at), Finding(NONCHARACTER_CODE_POINT, severity, at);
    var f5, f6 := Finding(UNASSIGNED_CODE_POINT, Warning, at), Finding(DBCS_TRAIL_BACKSLASH_UNSUPPORTED, Blocker, at);
    var f7 := Finding(MIXED_SINGLE_BYTE_ARTIFACT, Warning, at);
    hide Wired, HasBlocker, When, IsPrivateUse, IsC1, IsNoncharacter, EndsInBackslash, LooksMixed, IsNewline;
    WhenBlocks(!replaced && IsPrivateUse(c), f1);
    WhenBlocks(!replaced && IsC1(c), f2);
    WhenBlocks(!replaced && c == '\U{FFFD}', f3);
    WhenBlocks(!replaced && IsNoncharacter(c), f4);
    WhenBlocks(src.unassigned(c), f5);
    WhenBlocks(trails, f6);
    WhenBlocks(LooksMixed(src, i), f7);
    OneOfSeven(When(!replaced && IsPrivateUse(c), f1), When(!replaced && IsC1(c), f2),
               When(!replaced && c == '\U{FFFD}', f3), When(!replaced && IsNoncharacter(c), f4),
               When(src.unassigned(c), f5), When(trails, f6), When(LooksMixed(src, i), f7));
  }

  lemma ContentBlocks(src: Source, k: nat, replaced: bool)
    requires Wired(src) && IsUnit(src, k) && !src.units[src.physical[k]].isOpaque && NonAscii(src.units[src.physical[k]].ch)
    requires replaced <==> src.replace && IsSpecial(src.units[src.physical[k]].ch)
    ensures HasBlocker(ContentFindings(src, src.physical[k], replaced)) <==> BlocksInside(src, k)
  {
    FindingsBlock(src, src.physical[k], replaced);
    SpecialIs(src.units[src.physical[k]].ch);
    hide Wired, ContentFindings, HasBlocker, IsSpecial, ReplacementReason, IsPrivateUse, IsC1, IsNoncharacter;
  }

  /** How one step changes the totals. */
  ghost predicate Steps(src: Source, st: State, r: State, k: nat) {
    && IsCounted(r) && r.commentCount == st.commentCount
    && r.commentNonAscii == st.commentNonAscii + (if IsNoted(src, k) then 1 else 0)
    && r.changedUnits == st.changedUnits + (if IsRewritten(src, k) then 1 else 0)
    && (r.blockerCount == 0 <==> st.blockerCount == 0 && !BlocksInside(src, k))
  }

  lemma UnitHere(src: Source, k: nat)
    requires Wired(src) && k < |src.physical|
    ensures IsUnit(src, k) && var i := src.physical[k]; src.offsets[i].0 <= src.offsets[i].1 <= |src.data|
  {
  }

  /** Marking one character, whichever way it is marked. */
  lemma MarkIs(src: Source, st: State, k: nat)
    requires Wired(src) && k < |src.physical| && IsCounted(st)
    ensures Steps(src, st, MarkContent(src, st, k), k)
    ensures MarkContent(src, st, k).records ==
            if IsReplaced(src, k) && |st.records| < 512 then st.records + [RecordOf(src, k)] else st.records
    ensures MarkContent(src, st, k).overflow == (st.overflow || (IsReplaced(src, k) && |st.records| >= 512))
  {
    UnitHere(src, k);
    var i := src.physical[k];
    var u := src.units[i];
    if u.isOpaque {
      OpaqueIs(src, st, k);
    } else if NonAscii(u.ch) {
      SpecialIs(u.ch);
      if src.replace && IsSpecial(u.ch) {
        ReplacedIs(src, st, k);
      } else {
        KeptIs(src, st, k);
      }
    }
    hide Wired, MarkOpaque, MarkReplaced, MarkKept, IsSpecial, ReplacementReason, TrailsBackslash, RecordOf, HasBlocker;
  }

  lemma OpaqueIs(src: Source, st: State, k: nat)
    requires Wired(src) && IsUnit(src, k) && IsCounted(st) && src.units[src.physical[k]].isOpaque
    requires var i := src.physical[k]; src.offsets[i].0 <= src.offsets[i].1 <= |src.data|
    ensures var r := MarkOpaque(src, st, src.physical[k]);
            && Steps(src, st, r, k)
            && r.records == (if |st.records| < 512 then st.records + [RecordOf(src, k)] else st.records)
            && r.overflow == (st.overflow || |st.records| >= 512)
  {
    var at := src.offsets[src.physical[k]];
    var counted := st.(commentNonAscii := st.commentNonAscii + 1, changedUnits := st.changedUnits + 1);
    AddIs(counted, Finding(DBCS_TRAIL_BACKSLASH_UNSUPPORTED, Blocker, Some(at.0)));
    assert OpaqueTrail(src, src.physical[k]) <==> TrailsBackslash(src, k);
    hide Wired, Add, HasBlocker, OpaqueTrail, TrailsBackslash;
  }

  lemma ReasonIs(src: Source, k: nat)
    requires IsUnit(src, k) && src.offsets[src.physical[k]].0 <= src.offsets[src.physical[k]].1
    requires !src.units[src.physical[k]].isOpaque && ReplacementReason(src.units[src.physical[k]].ch).Some?
    ensures var i := src.physical[k];
            RecordOf(src, k) == Record(src.offsets[i].0, src.offsets[i].1 - src.offsets[i].0, ReplacementReason(src.units[i].ch).value)
  {
  }

  lemma ReplacedIs(src: Source, st: State, k: nat)
    requires Wired(src) && IsUnit(src, k) && IsCounted(st) && !src.units[src.physical[k]].isOpaque
    requires src.replace && ReplacementReason(src.units[src.physical[k]].ch).Some?
    requires var i := src.physical[k]; src.offsets[i].0 <= src.offsets[i].1 <= |src.data|
    ensures var i := src.physical[k];
            var r := MarkReplaced(src, st, i, ReplacementReason(src.units[i].ch).value);
            && Steps(src, st, r, k)
            && r.records == (if |st.records| < 512 then st.records + [RecordOf(src, k)] else st.records)
            && r.overflow == (st.overflow || |st.records| >= 512)
  {
    hide Wired, AddAll, ContentFindings, HasBlocker, IsSpecial, ReplacementReason, TrailsBackslash, RecordOf, BlocksInside, IsCounted, Steps;
    var i := src.physical[k];
    var (start, end) := src.offsets[i];
    SpecialIs(src.units[i].ch);
    ContentBlocks(src, k, true);
    ReasonIs(src, k);
    var counted := st.(commentNonAscii := st.commentNonAscii + 1, changedUnits := st.changedUnits + 1);
    SameBlockers(st, counted);
    AddAllIs(counted, ContentFindings(src, i, true));
    var added := AddAll(counted, ContentFindings(src, i, true));
    var reason := ReplacementReason(src.units[i].ch).value;
    ReplacedSteps(src, st, counted, added, AddRecord(added, start, end, reason), k, start, end, reason);
  }

  lemma ReplacedSteps(src: Source, st: State, counted: State, added: State, r: State, k: nat, start: nat, end: nat, reason: Reason)
    requires counted == st.(commentNonAscii := st.commentNonAscii + 1, changedUnits := st.changedUnits + 1)
    requires IsReplaced(src, k) && IsCounted(added) && SameTotals(added, counted)
    requires added.blockerCount == 0 <==> counted.blockerCount == 0 && !BlocksInside(src, k)
    requires start <= end && r == AddRecord(added, start, end, reason)
    ensures Steps(src, st, r, k)
    ensures r.records == if |st.records| < 512 then st.records + [Record(start, end - start, reason)] else st.records
    ensures r.overflow == (st.overflow || |st.records| >= 512)
  {
    SameBlockers(added, r);
    hide IsReplaced, IsCounted, BlocksInside;
    assert IsNoted(src, k) && IsRewritten(src, k) by {
      ReplacedIsNoted(src, k);
    }
  }

  lemma ReplacedIsNoted(src: Source, k: nat)
    requires IsReplaced(src, k)
    ensures IsNoted(src, k) && IsRewritten(src, k)
  {
  }

  lemma KeptIs(src: Source, st: State, k: nat)
    requires Wired(src) && IsUnit(src, k) && IsCounted(st) && !src.units[src.physical[k]].isOpaque
    requires NonAscii(src.units[src.physical[k]].ch) && !(src.replace && IsSpecial(src.units[src.physical[k]].ch))
    ensures var r := MarkKept(src, st, src.physical[k]);
            Steps(src, st, r, k) && r.records == st.records && r.overflow == st.overflow
  {
    hide Wired, AddAll, ContentFindings, HasBlocker, IsSpecial, TrailsBackslash, BlocksInside, IsCounted, Steps;
    var i := src.physical[k];
    ContentBlocks(src, k, false);
    var counted := st.(commentNonAscii := st.commentNonAscii + 1,
                       changedUnits := if src.legacy then st.changedUnits + 1 else st.changedUnits);
    SameBlockers(st, counted);
    AddAllIs(counted, ContentFindings(src, i, false));
    StepsFrom(src, st, counted, MarkKept(src, st, i), k);
  }

  lemma StepsFrom(src: Source, st: State, counted: State, r: State, k: nat)
    requires counted == st.(commentNonAscii := st.commentNonAscii + 1,
                            changedUnits := if src.legacy then st.changedUnits + 1 else st.changedUnits)
    requires IsNoted(src, k) && !IsReplaced(src, k) && IsCounted(r) && SameTotals(r, counted)
    requires r.blockerCount == 0 <==> counted.blockerCount == 0 && !BlocksInside(src, k)
    ensures Steps(src, st, r, k)
  {
    hide IsNoted, IsReplaced, IsCounted, BlocksInside;
  }

  lemma SameBlockers(st: State, r: State)
    requires IsCounted(st) && r.findings == st.findings
    requires r.blockerCount == st.blockerCount && r.blockerSuppressed == st.blockerSuppressed
    ensures IsCounted(r)
  {
  }

  function Noted(src: Source): nat -> bool {
    (k: nat) => IsNoted(src, k)
  }

  function Rewritten(src: Source): nat -> bool {
    (k: nat) => IsRewritten(src, k)
  }

  function Replaced(src: Source): nat -> bool {
    (k: nat) => IsReplaced(src, k)
  }

  ghost predicate AreUnits(src: Source, marks: seq<nat>) {
    forall k :: k in marks ==> IsUnit(src, k)
  }

  /** The state `r` adds to `st` the listed characters; `marks` were recorded before. */
  ghost predicate Adds(src: Source, st: State, r: State, noted: seq<nat>, rewritten: seq<nat>, marks: seq<nat>)
    requires Wired(src)
  {
    && IsCounted(r) && AreUnits(src, marks) && IsRecorded(src, r, marks)
    && r.commentNonAscii == st.commentNonAscii + |noted|
    && r.changedUnits == st.changedUnits + |rewritten|
  }

  ghost predicate Starts(src: Source, st: State, marks: seq<nat>)
    requires Wired(src)
  {
    IsCounted(st) && AreUnits(src, marks) && IsRecorded(src, st, marks)
  }

  lemma RecordsMore(src: Source, st: State, r: State, marks: seq<nat>, k: nat)
    requires Wired(src) && AreUnits(src, marks) && IsRecorded(src, st, marks) && k < |src.physical|
    requires r.records == if IsReplaced(src, k) && |st.records| < 512 then st.records + [RecordOf(src, k)] else st.records
    requires r.overflow == (st.overflow || (IsReplaced(src, k) && |st.records| >= 512))
    ensures var more := if IsReplaced(src, k) then [k] else [];
            AreUnits(src, marks + more) && IsRecorded(src, r, marks + more)
  {
    hide Wired, RecordOf;
    assert marks + [] == marks;
  }

  predicate NoneBlocks(src: Source, a: nat, b: nat) {
    forall k :: a <= k < b ==> !BlocksInside(src, k)
  }

  lemma NoneBlocksHere(src: Source, a: nat, b: nat)
    requires a < b
    ensures NoneBlocks(src, a, b) <==> !BlocksInside(src, a) && NoneBlocks(src, a + 1, b)
  {
    hide BlocksInside;
  }

  /** Marking a range adds the characters of the range, in order. */
  ghost predicate AddsRange(src: Source, st: State, r: State, a: nat, b: nat, marks: seq<nat>)
    requires Wired(src)
  {
    && Adds(src, st, r, Within(Noted(src), a, b), Within(Rewritten(src), a, b), marks + Within(Replaced(src), a, b))
    && r.commentCount == st.commentCount
    && (r.blockerCount == 0 <==> st.blockerCount == 0 && NoneBlocks(src, a, b))
  }

  lemma {:induction false} MarkRangeIs(src: Source, st: State, a: nat, b: nat, marks: seq<nat>)
    requires Wired(src) && b <= |src.physical| && Starts(src, st, marks)
    ensures AddsRange(src, st, MarkRange(src, st, a, b), a, b, marks)
    decreases b - a
  {
    if a < b {
      MarkIs(src, st, a);
      var next := MarkContent(src, st, a);
      RecordsMore(src, st, next, marks, a);
      var more := if IsReplaced(src, a) then [a] else [];
      assert Starts(src, next, marks + more);
      hide Wired, MarkContent, AddsRange, Starts, IsRecorded, AreUnits, IsNoted, IsReplaced, IsRewritten, BlocksInside, IsCounted;
      MarkRangeIs(src, next, a + 1, b, marks + more);
      FrontRange(src, st, next, MarkRange(src, st, a, b), a, b, marks);
    } else {
      assert marks + [] == marks;
    }
  }

  lemma FrontRange(src: Source, st: State, next: State, r: State, a: nat, b: nat, marks: seq<nat>)
    requires Wired(src) && a < b && Steps(src, st, next, a)
    requires AddsRange(src, next, r, a + 1, b, marks + if IsReplaced(src, a) then [a] else [])
    ensures AddsRange(src, st, r, a, b, marks)
  {
    hide Wired, IsRecorded, AreUnits, IsNoted, IsReplaced, IsRewritten, BlocksInside, IsCounted, NoneBlocks;
    var more := if IsReplaced(src, a) then [a] else [];
    NoneBlocksHere(src, a, b);
    WithinFront(Noted(src), a, b);
    WithinFront(Rewritten(src), a, b);
    WithinFront(Replaced(src), a, b);
    hide Within;
    assert marks + more + Within(Replaced(src), a + 1, b) == marks + Within(Replaced(src), a, b);
  }

  lemma WithinFront(p: nat -> bool, a: nat, b: nat)
    requires a < b
    ensures Within(p, a, b) == (if p(a) then [a] else []) + Within(p, a + 1, b)
  {
  }

  predicate AllInRange(n: nat, events: seq<Event>) {
    forall ev :: ev in events ==> EventInRange(n, ev)
  }

  /** Nothing the events name blocks the file. */
  ghost predicate NothingBlocks(src: Source, events: seq<Event>) {
    && (forall k: nat :: InComment(events, k) ==> !BlocksInside(src, k))
    && forall k: nat :: Alarm(k) in events ==> !BlocksOutside(src, k)
  }

  lemma NothingBlocksHere(src: Source, events: seq<Event>)
    requires events != []
    ensures NothingBlocks(src, events) <==> NothingBlocks(src, [events[0]]) && NothingBlocks(src, events[1..])
  {
    hide InComment, BlocksInside, BlocksOutside;
    var first := [events[0]];
    assert first[1..] == [];
    forall k: nat
      ensures InComment(events, k) <==> InComment(first, k) || InComment(events[1..], k)
    {
      CommentHere(events, k);
      CommentHere(first, k);
      NoComment(k);
    }
    assert forall ev :: ev in events <==> ev == events[0] || ev in events[1..];
    assert forall ev :: ev in [events[0]] <==> ev == events[0];
  }

  lemma NoComment(k: nat)
    ensures !InComment([], k)
  {
  }

  function CommentsIn(events: seq<Event>): nat {
    if events == [] then 0 else (if events[0].Comment? then 1 else 0) + CommentsIn(events[1..])
  }

  lemma FrontComments(events: seq<Event>)
    requires events != []
    ensures CommentsIn([events[0]]) == if events[0].Comment? then 1 else 0
    ensures CommentsIn(events) == CommentsIn([events[0]]) + CommentsIn(events[1..])
  {
    assert [events[0]][1..] == [];
    assert CommentsIn([events[0]][1..]) == 0;
  }

  /** What events add to a state. */
  ghost predicate Totals(src: Source, st: State, r: State, events: seq<Event>, marks: seq<nat>)
    requires Wired(src)
  {
    && Adds(src, st, r, Inside(Noted(src), events), Inside(Rewritten(src), events), marks + Inside(Replaced(src), events))
    && r.commentCount == st.commentCount + CommentsIn(events)
    && (r.blockerCount == 0 <==> st.blockerCount == 0 && NothingBlocks(src, events))
  }

  /** One event: a comment adds its content, an alarm may block. */
  lemma ApplyIs(src: Source, st: State, ev: Event, marks: seq<nat>)
    requires Wired(src) && EventInRange(|src.physical|, ev) && Starts(src, st, marks)
    ensures Totals(src, st, Apply(src, st, ev), [ev], marks)
  {
    match ev {
      case Comment(a, b) => CommentTotals(src, st, a, b, marks);
      case Alarm(a) => AlarmTotals(src, st, a, marks);
    }
    hide Wired, Totals, Starts, RaiseAlarm, AddContent;
  }

  lemma CommentTotals(src: Source, st: State, a: nat, b: nat, marks: seq<nat>)
    requires Wired(src) && b <= |src.physical| && Starts(src, st, marks)
    ensures var added := AddContent(src, st, a, b);
            Totals(src, st, added.(commentCount := added.commentCount + 1), [Comment(a, b)], marks)
  {
    hide Noted, Rewritten, Replaced, Wired, Inside, Within, IsRecorded, AreUnits, NoneBlocks, NothingBlocks, CommentsIn, AddContent;
    var ev := Comment(a, b);
    OnlyEvent(Noted(src), ev);
    OnlyEvent(Rewritten(src), ev);
    OnlyEvent(Replaced(src), ev);
    OnlyBlocks(src, ev);
    FrontComments([ev]);
    CommentAdds(src, st, a, b, marks);
    var added := AddContent(src, st, a, b);
    SameRecords(src, added, added.(commentCount := added.commentCount + 1), marks + Within(Replaced(src), a, b));
  }

  lemma SameRecords(src: Source, st: State, r: State, marks: seq<nat>)
    requires Wired(src) && AreUnits(src, marks)
    requires r.records == st.records && r.overflow == st.overflow
    ensures IsRecorded(src, r, marks) == IsRecorded(src, st, marks)
  {
    hide Wired, RecordOf, IsUnit;
  }

  lemma AlarmTotals(src: Source, st: State, a: nat, marks: seq<nat>)
    requires Wired(src) && a < |src.physical| && Starts(src, st, marks)
    ensures Totals(src, st, RaiseAlarm(src, st, a), [Alarm(a)], marks)
  {
    hide Noted, Rewritten, Replaced, Wired, Inside, IsRecorded, IsCounted, AreUnits, NothingBlocks, CommentsIn, RaiseAlarm;
    var ev := Alarm(a);
    OnlyEvent(Noted(src), ev);
    OnlyEvent(Rewritten(src), ev);
    OnlyEvent(Replaced(src), ev);
    OnlyBlocks(src, ev);
    FrontComments([ev]);
    AlarmIs(src, st, a, marks);
    assert marks + [] == marks;
  }

  lemma CommentAdds(src: Source, st: State, a: nat, b: nat, marks: seq<nat>)
    requires Wired(src) && b <= |src.physical| && Starts(src, st, marks)
    ensures AddsRange(src, st, AddContent(src, st, a, b), a, b, marks)
  {
    MarkRangeIs(src, st, a, b, marks);
    WithinEmpty(src, a, b);
    assert marks + [] == marks;
    hide Wired, MarkRange, Within, RecordOf, AreUnits, Noted, Rewritten, Replaced, BlocksInside;
  }

  lemma AlarmIs(src: Source, st: State, a: nat, marks: seq<nat>)
    requires Wired(src) && a < |src.physical| && Starts(src, st, marks)
    ensures var r := RaiseAlarm(src, st, a);
            && Starts(src, r, marks) && SameTotals(r, st)
            && (r.blockerCount == 0 <==> st.blockerCount == 0 && !BlocksOutside(src, a))
  {
    UnitHere(src, a);
    var i := src.physical[a];
    var severity := if src.units[i].isOpaque || src.legacy then Blocker else Warning;
    AddIs(st, Finding(NON_COMMENT_NON_ASCII, severity, Some(src.offsets[i].0)));
    hide Wired, Add, IsCounted, AreUnits, RecordOf;
  }

  lemma WithinEmpty(src: Source, a: nat, b: nat)
    ensures b <= a ==> Within(Noted(src), a, b) == [] && Within(Rewritten(src), a, b) == [] && Within(Replaced(src), a, b) == []
  {
  }

  lemma OnlyEvent(p: nat -> bool, ev: Event)
    ensures Inside(p, [ev]) == if ev.Comment? then Within(p, ev.start, ev.end) else []
  {
    assert [ev][1..] == [];
  }

  lemma OnlyBlocks(src: Source, ev: Event)
    ensures NothingBlocks(src, [ev]) <==>
              match ev
              case Comment(a, b) => NoneBlocks(src, a, b)
              case Alarm(a) => !BlocksOutside(src, a)
  {
    hide BlocksInside, BlocksOutside;
    assert [ev][1..] == [];
    forall k: nat
      ensures InComment([ev], k) <==> ev.Comment? && ev.start <= k < ev.end
    {
      CommentHere([ev], k);
      NoComment(k);
    }
    hide InComment;
    assert ev in [ev];
    assert forall k: nat :: Alarm(k) in [ev] <==> ev == Alarm(k);
  }

  /** A whole scan. */
  lemma {:induction false} ApplyAllIs(src: Source, st: State, events: seq<Event>, marks: seq<nat>)
    requires Wired(src) && AllInRange(|src.physical|, events) && Starts(src, st, marks)
    ensures Totals(src, st, ApplyAll(src, st, events), events, marks)
    decreases |events|
  {
    if events == [] {
      assert marks + [] == marks;
      NothingIsBlocked(src);
    } else {
      var ev, rest := events[0], events[1..];
      assert ev in events && forall e :: e in rest ==> e in events;
      ApplyIs(src, st, ev, marks);
      var more := Inside(Replaced(src), [ev]);
      assert Starts(src, Apply(src, st, ev), marks + more);
      hide Wired, Apply, Totals, Starts, Inside, EventInRange;
      ApplyAllIs(src, Apply(src, st, ev), rest, marks + more);
      JoinTotals(src, st, Apply(src, st, ev), ApplyAll(src, st, events), events, marks);
    }
  }

  lemma JoinTotals(src: Source, st: State, next: State, r: State, events: seq<Event>, marks: seq<nat>)
    requires Wired(src) && events != [] && Totals(src, st, next, [events[0]], marks)
    requires Totals(src, next, r, events[1..], marks + Inside(Replaced(src), [events[0]]))
    ensures Totals(src, st, r, events, marks)
  {
    hide Wired, IsCounted, IsRecorded, Inside, NothingBlocks, AreUnits, CommentsIn, Noted, Rewritten, Replaced;
    FrontInside(Noted(src), events);
    FrontInside(Rewritten(src), events);
    FrontInside(Replaced(src), events);
    NothingBlocksHere(src, events);
    FrontComments(events);
    JoinMarks(marks, Inside(Replaced(src), [events[0]]), Inside(Replaced(src), events[1..]));
  }

  lemma JoinMarks(a: seq<nat>, b: seq<nat>, c: seq<nat>)
    ensures a + b + c == a + (b + c)
  {
  }

  lemma FrontInside(p: nat -> bool, events: seq<Event>)
    requires events != []
    ensures Inside(p, events) == Inside(p, [events[0]]) + Inside(p, events[1..])
  {
    OnlyEvent(p, events[0]);
  }

  lemma NothingIsBlocked(src: Source)
    ensures NothingBlocks(src, [])
  {
    forall k: nat
      ensures !InComment([], k)
    {
      NoComment(k);
    }
  }
}
