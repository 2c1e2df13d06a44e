/** What one scan event does to the scanner's fields. */
module ScanState {
  import opened Basics
  import opened Codecs
  import opened DecodeUnits
  import opened Findings
  import opened Lexer

  const MAX_FINDINGS: nat := 200
  const MAX_REPLACEMENT_RECORDS: nat := 512

  datatype Reason = InvalidByteUnit | PrivateUse | C1Control | ReplacementChar | Noncharacter

  /** One reviewed replacement, by physical byte range and reason. */
  datatype Record = Record(offset: nat, length: nat, reason: Reason)

  /** The immutable inputs of a scan. `unassigned` is the interpreter's Unicode
      category test. */
  datatype Source = Source(
    data: seq<Byte>,
    units: seq<Unit>,
    offsets: seq<(nat, nat)>,
    physical: seq<nat>,
    legacy: bool,
    doubleByte: bool,
    replace: bool,
    unassigned: char -> bool)

  /** Every unit's byte range holds its bytes, and `physical` indexes units. */
  ghost predicate Wired(src: Source) {
    && |src.offsets| == |src.units|
    && (forall i :: 0 <= i < |src.units| ==>
          && src.offsets[i].0 <= src.offsets[i].1 <= |src.data|
          && src.data[src.offsets[i].0..src.offsets[i].1] == src.units[i].bytes)
    && (forall k :: 0 <= k < |src.physical| ==> src.physical[k] < |src.units|)
  }

  /** The spliced characters the lexer reads. */
  function Logical(src: Source): (s: string)
    requires Wired(src)
    ensures |s| == |src.physical|
    ensures forall k :: 0 <= k < |s| ==> s[k] == src.units[src.physical[k]].ch
  {
    seq(|src.physical|, k requires 0 <= k < |src.physical| => src.units[src.physical[k]].ch)
  }

  datatype State = State(
    findings: seq<Finding>,
    suppressed: nat,
    blockerCount: nat,
    blockerSuppressed: nat,
    intervals: seq<(nat, nat)>,
    commentCount: nat,
    commentNonAscii: nat,
    changedUnits: nat,
    records: seq<Record>,
    overflow: bool)

  const START := State([], 0, 0, 0, [], 0, 0, 0, [], false)

  predicate IsPrivateUse(c: char) {
    var n := c as int;
    0xE000 <= n <= 0xF8FF || 0xF_0000 <= n <= 0xF_FFFD || 0x10_0000 <= n <= 0x10_FFFD
  }

  predicate IsC1(c: char) {
    0x80 <= c as int <= 0x9F
  }

  /** `(codepoint & 0xFFFE) == 0xFFFE` or one of U+FDD0 to U+FDEF. */
  predicate IsNoncharacter(c: char) {
    var n := c as int;
    0xFDD0 <= n <= 0xFDEF || n % 0x1_0000 >= 0xFFFE
  }

  function ReplacementReason(c: char): (r: Option<Reason>)
    ensures r.Some? ==> NonAscii(c)
  {
    if IsPrivateUse(c) then Some(PrivateUse)
    else if IsC1(c) then Some(C1Control)
    else if c == '\U{FFFD}' then Some(ReplacementChar)
    else if IsNoncharacter(c) then Some(Noncharacter)
    else None
  }

  function Add(st: State, f: Finding): State {
    var counted := if f.severity == Blocker then st.(blockerCount := st.blockerCount + 1) else st;
    if |st.findings| < MAX_FINDINGS then counted.(findings := st.findings + [f])
    else if f.severity == Blocker then
      counted.(suppressed := st.suppressed + 1, blockerSuppressed := st.blockerSuppressed + 1)
    else counted.(suppressed := st.suppressed + 1)
  }

  function AddAll(st: State, fs: seq<Finding>): State
    decreases |fs|
  {
    if fs == [] then st else AddAll(Add(st, fs[0]), fs[1..])
  }

  function When(b: bool, f: Finding): seq<Finding> {
    if b then [f] else []
  }

  predicate EndsInBackslash(raw: seq<Byte>) {
    |raw| > 0 && raw[|raw| - 1] == '\\' as int
  }

  /** A DBCS pair with a 0x80-0x9F lead and an ASCII letter trail next to a letter. */
  predicate LooksMixed(src: Source, i: nat)
    requires i < |src.units|
  {
    var raw := src.units[i].bytes;
    && src.doubleByte && |raw| == 2 && 0x80 <= raw[0] <= 0x9F
    && (65 <= raw[1] <= 90 || 97 <= raw[1] <= 122)
    && i > 0 && IsLetter(src.units[i - 1].ch)
  }

  /** The findings of one kept or replaced non-ASCII comment character. */
  function ContentFindings(src: Source, i: nat, replaced: bool): seq<Finding>
    requires Wired(src) && i < |src.units|
  {
    var c := src.units[i].ch;
    var at := Some(src.offsets[i].0);
    var severity := if src.legacy then Blocker else Warning;
    When(!replaced && IsPrivateUse(c), Finding(PRIVATE_USE_CODE_POINT, severity, at))
    + When(!replaced && IsC1(c), Finding(C1_CONTROL_CODE_POINT, severity, at))
    + When(!replaced && c == '\U{FFFD}', Finding(REPLACEMENT_CODE_POINT, severity, at))
    + When(!replaced && IsNoncharacter(c), Finding(NONCHARACTER_CODE_POINT, severity, at))
    + When(src.unassigned(c), Finding(UNASSIGNED_CODE_POINT, Warning, at))
    + When(EndsInBackslash(src.units[i].bytes) && (i + 1 == |src.units| || IsNewline(src.units[i + 1].ch)),
           Finding(DBCS_TRAIL_BACKSLASH_UNSUPPORTED, Blocker, at))
    + When(LooksMixed(src, i), Finding(MIXED_SINGLE_BYTE_ARTIFACT, Warning, at))
  }

  function AddRecord(st: State, start: nat, end: nat, reason: Reason): State
    requires start <= end
  {
    if |st.records| >= MAX_REPLACEMENT_RECORDS then st.(overflow := true)
    else st.(records := st.records + [Record(start, end - start, reason)])
  }

  /** An opaque span that ends in a backslash byte at a physical line end. */
  predicate OpaqueTrail(src: Source, i: nat)
    requires Wired(src) && i < |src.units|
  {
    var end := src.offsets[i].1;
    && EndsInBackslash(src.units[i].bytes)
    && (end == |src.data| || src.data[end] == 13 || src.data[end] == 10)
  }

  function MarkOpaque(src: Source, st: State, i: nat): State
    requires Wired(src) && i < |src.units|
  {
    var at := src.offsets[i];
    var counted := st.(commentNonAscii := st.commentNonAscii + 1, changedUnits := st.changedUnits + 1);
    var warned := if OpaqueTrail(src, i)
                  then Add(counted, Finding(DBCS_TRAIL_BACKSLASH_UNSUPPORTED, Blocker, Some(at.0))) else counted;
    AddRecord(warned, at.0, at.1, InvalidByteUnit)
  }

  /** A comment character that is rewritten. */
  function MarkReplaced(src: Source, st: State, i: nat, reason: Reason): State
    requires Wired(src) && i < |src.units|
  {
    var counted := st.(commentNonAscii := st.commentNonAscii + 1, changedUnits := st.changedUnits + 1);
    AddRecord(AddAll(counted, ContentFindings(src, i, true)), src.offsets[i].0, src.offsets[i].1, reason)
  }

  /** A non-ASCII comment character that is kept; legacy files recode it. */
  function MarkKept(src: Source, st: State, i: nat): State
    requires Wired(src) && i < |src.units|
  {
    var counted := st.(commentNonAscii := st.commentNonAscii + 1,
                       changedUnits := if src.legacy then st.changedUnits + 1 else st.changedUnits);
    AddAll(counted, ContentFindings(src, i, false))
  }

  /** One character proven to be comment content. */
  function MarkContent(src: Source, st: State, k: nat): State
    requires Wired(src) && k < |src.physical|
  {
    var i := src.physical[k];
    var u := src.units[i];
    if u.isOpaque then MarkOpaque(src, st, i)
    else if !NonAscii(u.ch) then st
    else
      var reason := if src.replace then ReplacementReason(u.ch) else None;
      if reason.Some? then MarkReplaced(src, st, i, reason.value) else MarkKept(src, st, i)
  }

  function MarkRange(src: Source, st: State, a: nat, b: nat): State
    requires Wired(src) && b <= |src.physical|
    decreases b - a
  {
    if a >= b then st else MarkRange(src, MarkContent(src, st, a), a + 1, b)
  }

  /** Append a physical range, merging it into the last one when they touch. */
  function AddInterval(intervals: seq<(nat, nat)>, first: nat, last: nat): seq<(nat, nat)> {
    var n := |intervals|;
    if n > 0 && first <= intervals[n - 1].1 then
      intervals[..n - 1] + [(intervals[n - 1].0, if last > intervals[n - 1].1 then last else intervals[n - 1].1)]
    else intervals + [(first, last)]
  }

  function AddContent(src: Source, st: State, a: nat, b: nat): State
    requires Wired(src) && b <= |src.physical|
  {
    if b <= a then st
    else
      var marked := MarkRange(src, st, a, b);
      marked.(intervals := AddInterval(marked.intervals, src.physical[a], src.physical[b - 1] + 1))
  }

  function RaiseAlarm(src: Source, st: State, k: nat): State
    requires Wired(src) && k < |src.physical|
  {
    var i := src.physical[k];
    var severity := if src.units[i].isOpaque || src.legacy then Blocker else Warning;
    Add(st, Finding(NON_COMMENT_NON_ASCII, severity, Some(src.offsets[i].0)))
  }

  /** Events of a scan of `Logical(src)` always lie inside it. */
  predicate EventInRange(n: nat, ev: Event) {
    match ev
    case Comment(_, b) => b <= n
    case Alarm(a) => a < n
  }

  function Apply(src: Source, st: State, ev: Event): State
    requires Wired(src)
  {
    if !EventInRange(|src.physical|, ev) then st
    else
      match ev
      case Comment(a, b) =>
        var added := AddContent(src, st, a, b);
        added.(commentCount := added.commentCount + 1)
      case Alarm(a) => RaiseAlarm(src, st, a)
  }

  function ApplyAll(src: Source, st: State, events: seq<Event>): State
    requires Wired(src)
    decreases |events|
  {
    if events == [] then st else ApplyAll(src, Apply(src, st, events[0]), events[1..])
  }

  lemma {:induction false} ApplyAllAppend(src: Source, st: State, a: seq<Event>, b: seq<Event>)
    requires Wired(src)
    ensures ApplyAll(src, st, a + b) == ApplyAll(src, ApplyAll(src, st, a), b)
    decreases |a|
  {
    if a == [] {
      assert a + b == b;
    } else {
      assert (a + b)[1..] == a[1..] + b;
      ApplyAllAppend(src, Apply(src, st, a[0]), a[1..], b);
    }
  }
}
