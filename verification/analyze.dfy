/** One file's analysis: decode, refuse trigraphs, scan, derive the UTF-8 copy and
    analyse that copy again. */
module Analyze {
  import opened Basics
  import opened Codecs
  import opened DecodeUnits
  import opened DecodeSource
  import opened Findings
  import opened LogicalView
  import opened Lexer
  import opened ScanState
  import opened Output
  import opened Scanning
  import opened LexerAccounts
  import opened ScanFacts
  import Utf8

  const MAX_OUTPUT_BYTES: nat := 48 * 1024 * 1024

  /** The declared charset and the interpreter's category test. */
  datatype Config = Config(charset: Charset, unassigned: char -> bool)

  /** `output` and `outside` exist only for a ready file. */
  datatype Analysis = Analysis(
    findings: seq<Finding>,
    ready: bool,
    output: Option<seq<Byte>>,
    outside: Option<seq<seq<Byte>>>,
    scan: State)

  predicate IsTrigraph(text: string, i: nat) {
    && i + 2 < |text| && text[i] == '?' && text[i + 1] == '?'
    && text[i + 2] in {'=', '/', '\'', '(', ')', '!', '<', '>', '-'}
  }

  /** The trigraphs that could change what the lexer sees: of a backslash or `#`. */
  predicate IsHazard(text: string, i: nat) {
    i + 2 < |text| && text[i] == '?' && text[i + 1] == '?' && (text[i + 2] == '/' || text[i + 2] == '=')
  }

  datatype Trigraphs = Trigraphs(findings: seq<Finding>, suppressed: nat)

  function TrigraphFinding(text: string, i: nat, at: nat): Finding
    requires IsTrigraph(text, i)
  {
    if text[i + 2] == '/' then Finding(TRIGRAPH_BACKSLASH_UNSUPPORTED, Blocker, Some(at))
    else if text[i + 2] == '=' then Finding(TRIGRAPH_DIRECTIVE_UNSUPPORTED, Blocker, Some(at))
    else Finding(TRIGRAPH_SEQUENCE_REVIEW, Warning, Some(at))
  }

  /** The trigraph findings from `i` on; a hazard ends the search. */
  function FindTrigraphs(text: string, offsets: seq<(nat, nat)>, i: nat, sofar: Trigraphs): Trigraphs
    requires |offsets| == |text|
    decreases |text| - i
  {
    if i + 2 >= |text| then sofar
    else if !IsTrigraph(text, i) then FindTrigraphs(text, offsets, i + 1, sofar)
    else
      var f := TrigraphFinding(text, i, offsets[i].0);
      if f.severity == Blocker then sofar.(findings := sofar.findings + [f])
      else if |sofar.findings| < MAX_FINDINGS then
        FindTrigraphs(text, offsets, i + 3, sofar.(findings := sofar.findings + [f]))
      else FindTrigraphs(text, offsets, i + 3, sofar.(suppressed := sofar.suppressed + 1))
  }

  method ScanTrigraphs(text: string, offsets: seq<(nat, nat)>) returns (r: Trigraphs)
    requires |offsets| == |text|
    ensures r == FindTrigraphs(text, offsets, 0, Trigraphs([], 0))
  {
    var findings: seq<Finding> := [];
    var suppressed := 0;
    var index := 0;
    while index + 2 < |text|
      invariant FindTrigraphs(text, offsets, 0, Trigraphs([], 0))
                == FindTrigraphs(text, offsets, index, Trigraphs(findings, suppressed))
    {
      if IsTrigraph(text, index) {
        var f := TrigraphFinding(text, index, offsets[index].0);
        if f.severity == Blocker {
          return Trigraphs(findings + [f], suppressed);
        }
        if |findings| < MAX_FINDINGS {
          findings := findings + [f];
        } else {
          suppressed := suppressed + 1;
        }
        index := index + 3;
        continue;
      }
      index := index + 1;
    }
    return Trigraphs(findings, suppressed);
  }

  /** The offsets of units as a value, for the specification. */
  function Offsets(prefix: nat, us: seq<Unit>): (r: seq<(nat, nat)>)
    ensures |r| == |us|
    ensures forall i :: 0 <= i < |us| ==> r[i].0 == Offset(prefix, us, i) && r[i].1 == Offset(prefix, us, i + 1)
  {
    seq(|us|, i requires 0 <= i < |us| => (Offset(prefix, us, i), Offset(prefix, us, i + 1)))
  }

  function DecodeFinding(code: DecodeCode): Finding {
    match code
    case DecodeError => Finding(DECODE_ERROR, Blocker, None)
    case InvalidSpanAscii => Finding(INVALID_SPAN_ASCII_UNSUPPORTED, Blocker, None)
    case RecoveryBoundExceeded => Finding(RECOVERY_BOUND_EXCEEDED, Blocker, None)
  }

  function MakeSource(cfg: Config, data: seq<Byte>, d: SourceText, physical: seq<nat>, replace: bool): Source
    requires d.SourceText?
  {
    Source(data, d.units, Offsets(d.prefix, d.units), physical, cfg.charset.LegacyText?,
           cfg.charset.LegacyText? && cfg.charset.doubleByte, replace, cfg.unassigned)
  }

  lemma SourceIsWired(cfg: Config, data: seq<Byte>, d: SourceText, physical: seq<nat>, replace: bool)
    requires d.SourceText? && d.prefix <= |data| && data[d.prefix..] == Bytes(d.units)
    requires forall k :: 0 <= k < |physical| ==> physical[k] < |d.units|
    ensures Wired(MakeSource(cfg, data, d, physical, replace))
  {
    var src := MakeSource(cfg, data, d, physical, replace);
    forall i | 0 <= i < |src.units|
      ensures src.offsets[i].0 <= src.offsets[i].1 <= |src.data|
              && src.data[src.offsets[i].0..src.offsets[i].1] == src.units[i].bytes
    {
      SliceBytes(data, d.prefix, d.units, i, i + 1);
      OneUnit(d.units, i);
    }
  }

  /** Everything before output derivation: findings, scanner state, whether the
      scan reached the end, and the decoded text. */
  datatype Pass = Pass(findings: seq<Finding>, scan: State, complete: bool, decoded: SourceText)

  /** The findings a scan's final state adds. */
  function ScanFindings(st: State): seq<Finding> {
    st.findings
    + (if st.overflow then [Finding(REPLACEMENT_BOUND_EXCEEDED, Blocker, None)]
       else if st.records != [] then [Finding(REPLACEMENT_APPLIED, Info, None)] else [])
    + (if st.suppressed == 0 then []
       else [Finding(FINDINGS_TRUNCATED, if st.blockerSuppressed > 0 then Blocker else Warning, None)])
  }

  function TextFindings(text: string, offsets: seq<(nat, nat)>): seq<Finding>
    requires |offsets| == |text|
  {
    var t := FindTrigraphs(text, offsets, 0, Trigraphs([], 0));
    When('\0' in text, Finding(BINARY_OR_NUL_BYTE, Blocker, Some(0)))
    + t.findings
    + When(t.suppressed > 0, Finding(FINDINGS_TRUNCATED, Warning, None))
  }

  ghost predicate LawfulConfig(cfg: Config) {
    Lawful(CodecOf(cfg.charset))
  }

  ghost function ScanPass(cfg: Config, data: seq<Byte>, replace: bool, d: SourceText, physical: seq<nat>): Pass
    requires d.SourceText? && Wired(MakeSource(cfg, data, d, physical, replace))
  {
    var src := MakeSource(cfg, data, d, physical, replace);
    var r := Run(Logical(src), 0, true);
    var st := ApplyAll(src, START, r.events);
    var aborted := if r.Abort? then [Finding(r.code, Blocker, Some(src.offsets[physical[r.at]].0))] else [];
    Pass(TextFindings(Text(d.units), src.offsets) + aborted + ScanFindings(st), st, r.Go?, d)
  }

  ghost function FirstPass(cfg: Config, data: seq<Byte>, replace: bool): Pass
    requires LawfulConfig(cfg)
  {
    var d := Decode(cfg.charset, data, replace);
    if d.Undecoded? then Pass([DecodeFinding(d.code)], START, false, d)
    else
      var offsets := Offsets(d.prefix, d.units);
      match Splice(Text(d.units), 0)
      case HSpaceSplice(at) =>
        RefusedIsBackslash(Text(d.units), 0);
        Pass(TextFindings(Text(d.units), offsets)
             + [Finding(BACKSLASH_HSPACE_NEWLINE_UNSUPPORTED, Blocker, Some(offsets[at].0))], START, false, d)
      case Spliced(physical) =>
        DecodeFacts(cfg.charset, data, replace);
        SpliceKeeps(Text(d.units), 0);
        SourceIsWired(cfg, data, d, physical, replace);
        ScanPass(cfg, data, replace, d, physical)
  }

  predicate Blocked(fs: seq<Finding>, st: State) {
    HasBlocker(fs) || st.blockerCount > 0
  }

  predicate Contains(b: seq<Byte>, pattern: seq<Byte>) {
    exists i :: 0 <= i <= |b| && StartsWith(b[i..], pattern)
  }

  /** The findings of the checks on the derived bytes. */
  function OutputFindings(replace: bool, output: seq<Byte>): seq<Finding> {
    When(replace && (Contains(output, [63, 63, 47]) || Contains(output, [63, 63, 61])),
         Finding(REPLACEMENT_TRIGRAPH_HAZARD, Blocker, None))
    + When(|output| > MAX_OUTPUT_BYTES, Finding(OUTPUT_BOUND_EXCEEDED, Blocker, None))
    + When(Utf8.ScanBytes(output).Bad?, Finding(OUTPUT_NOT_UTF8, Blocker, None))
  }

  /** The finding, if any, of comparing the copy's own analysis with the copy. */
  function RecheckFindings(again: Analysis, output: seq<Byte>, outside: seq<seq<Byte>>): seq<Finding> {
    if !again.ready then [Finding(OUTPUT_NOT_STABLE, Blocker, None)]
    else if again.outside != Some(outside) then [Finding(OUTSIDE_COMMENT_DRIFT, Blocker, None)]
    else if again.output != Some(output) then [Finding(OUTPUT_NOT_IDEMPOTENT, Blocker, None)]
    else []
  }

  function Report(fs: seq<Finding>, st: State, output: seq<Byte>, outside: seq<seq<Byte>>): Analysis {
    if Blocked(fs, st) then Analysis(fs, false, None, None, st)
    else Analysis(fs, true, Some(output), Some(outside), st)
  }

  function AsUtf8(cfg: Config): Config {
    cfg.(charset := Utf8Text)
  }

  /** `analyze_bytes`. */
  ghost function Analyse(cfg: Config, data: seq<Byte>, replace: bool, checkOutput: bool): Analysis
    requires LawfulConfig(cfg)
    decreases checkOutput
  {
    var p := FirstPass(cfg, data, replace);
    if !p.complete || Blocked(p.findings, p.scan) then Analysis(p.findings, false, None, None, p.scan)
    else
      PassIsSound(cfg, data, replace);
      var us, head := p.decoded.units, data[..p.decoded.prefix];
      var output := head + Bytes(OutUnits(us, p.scan.intervals, replace));
      var outside := Outside(head, us, p.scan.intervals);
      var fs := p.findings + OutputFindings(replace, output);
      if checkOutput && !HasBlocker(fs) then
        Utf8.Utf8IsLawful();
        Report(fs + RecheckFindings(Analyse(AsUtf8(cfg), output, false, false), output, outside), p.scan, output, outside)
      else Report(fs, p.scan, output, outside)
  }

  /** A completed first pass: its decoded text, its logical view and its trace. */
  lemma CompletePass(cfg: Config, data: seq<Byte>, replace: bool)
    requires LawfulConfig(cfg) && FirstPass(cfg, data, replace).complete
    ensures var d := Decode(cfg.charset, data, replace);
            && d.SourceText? && Splice(Text(d.units), 0).Spliced?
            && var physical := Splice(Text(d.units), 0).physical;
            && Keeps(Text(d.units), 0, physical)
            && Wired(MakeSource(cfg, data, d, physical, replace))
            && Run(Logical(MakeSource(cfg, data, d, physical, replace)), 0, true).Go?
            && FirstPass(cfg, data, replace) == ScanPass(cfg, data, replace, d, physical)
  {
    hide Lawful, ScanPass;
    var d := Decode(cfg.charset, data, replace);
    var physical := Splice(Text(d.units), 0).physical;
    DecodeFacts(cfg.charset, data, replace);
    SpliceKeeps(Text(d.units), 0);
    SourceIsWired(cfg, data, d, physical, replace);
    CompleteScan(cfg, data, replace, d, physical);
  }

  lemma CompleteScan(cfg: Config, data: seq<Byte>, replace: bool, d: SourceText, physical: seq<nat>)
    requires d.SourceText? && Wired(MakeSource(cfg, data, d, physical, replace))
    ensures ScanPass(cfg, data, replace, d, physical).complete ==
            Run(Logical(MakeSource(cfg, data, d, physical, replace)), 0, true).Go?
    ensures ScanPass(cfg, data, replace, d, physical).decoded == d
  {
  }

  /** A scan's intervals are ordered ranges of units behind the first one, and
      place every non-ASCII character in a comment or under an alarm. */
  lemma PassIsSound(cfg: Config, data: seq<Byte>, replace: bool)
    requires LawfulConfig(cfg) && FirstPass(cfg, data, replace).complete
    ensures var p := FirstPass(cfg, data, replace);
            && p.decoded == Decode(cfg.charset, data, replace)
            && p.decoded.SourceText? && p.decoded.prefix <= |data|
            && WellFormed(p.scan.intervals, |p.decoded.units|)
            && !Covered(p.scan.intervals, 0)
  {
    var d := Decode(cfg.charset, data, replace);
    CompletePass(cfg, data, replace);
    DecodeFacts(cfg.charset, data, replace);
    var physical := Splice(Text(d.units), 0).physical;
    CompleteScan(cfg, data, replace, d, physical);
    ScanPlaces(cfg, data, replace, d, physical);
  }

  /** The trace of a completed scan and the intervals it leaves. */
  lemma ScanPlaces(cfg: Config, data: seq<Byte>, replace: bool, d: SourceText, physical: seq<nat>)
    requires d.SourceText? && Wired(MakeSource(cfg, data, d, physical, replace))
    requires Keeps(Text(d.units), 0, physical)
    requires Run(Logical(MakeSource(cfg, data, d, physical, replace)), 0, true).Go?
    ensures var s := Logical(MakeSource(cfg, data, d, physical, replace));
            var events := Run(s, 0, true).events;
            var ivs := ScanPass(cfg, data, replace, d, physical).scan.intervals;
            && ivs == FoldIntervals(physical, [], events)
            && WellFormed(ivs, |d.units|) && !Covered(ivs, 0)
            && Placed(s, physical, [], events, 0, ivs)
  {
    var src := MakeSource(cfg, data, d, physical, replace);
    var s := Logical(src);
    var events := Run(s, 0, true).events;
    RunAccounted(s, 0, true);
    ApplyAllKeeps(src, START, events);
    hide Run, ApplyAll, Wired, Traces;
    FoldFacts(s, physical, |d.units|, [], events, 0);
  }
}
