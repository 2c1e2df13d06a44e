/** The imperative analysis of one file, proved equal to its specification. */
module AnalyzeFile {
  import opened Basics
  import opened DecodeUnits
  import opened DecodeSource
  import opened Findings
  import opened LogicalView
  import opened Lexer
  import opened ScanState
  import opened Scanning
  import opened Output
  import opened Analyze
  import Utf8
  import opened Codecs

  /** Decode and scan: the first pass with the byte ranges it worked on. */
  method RunFirstPass(cfg: Config, data: seq<Byte>, replace: bool) returns (p: Pass, offsets: seq<(nat, nat)>)
    requires LawfulConfig(cfg)
    ensures p == FirstPass(cfg, data, replace)
    ensures p.complete ==> p.decoded.SourceText? && Laid(data, p.decoded.prefix, p.decoded.units, offsets)
  {
    var d;
    d, offsets := DecodeFile(cfg.charset, data, replace);
    if d.Undecoded? {
      return Pass([DecodeFinding(d.code)], START, false, d), offsets;
    }
    OffsetsAreUnique(data, d, offsets);
    DecodeFacts(cfg.charset, data, replace);
    hide Lawful, Decode, Splice, TextFindings, ScanPass, Wired, Laid, MakeSource, Accounts;
    var text := Text(d.units);
    var findings := CheckText(text, offsets);
    var view := FindLogicalView(text);
    if view.HSpaceSplice? {
      RefusedIsBackslash(text, 0);
      return Pass(findings + [Finding(BACKSLASH_HSPACE_NEWLINE_UNSUPPORTED, Blocker, Some(offsets[view.at].0))],
                  START, false, d), offsets;
    }
    SpliceKeeps(text, 0);
    SourceIsWired(cfg, data, d, view.physical, replace);
    p := ScanText(cfg, data, replace, d, offsets, view.physical, findings);
  }

  /** The checks on the decoded text before it is scanned. */
  method CheckText(text: string, offsets: seq<(nat, nat)>) returns (findings: seq<Finding>)
    requires |offsets| == |text|
    ensures findings == TextFindings(text, offsets)
  {
    findings := [];
    if '\0' in text {
      findings := findings + [Finding(BINARY_OR_NUL_BYTE, Blocker, Some(0))];
    }
    var trigraphs := ScanTrigraphs(text, offsets);
    findings := findings + trigraphs.findings;
    if trigraphs.suppressed > 0 {
      findings := findings + [Finding(FINDINGS_TRUNCATED, Warning, None)];
    }
  }

  lemma OffsetsAreUnique(data: seq<Byte>, d: SourceText, offsets: seq<(nat, nat)>)
    requires d.SourceText? && Laid(data, d.prefix, d.units, offsets)
    ensures offsets == Offsets(d.prefix, d.units)
  {
  }

  method ScanText(cfg: Config, data: seq<Byte>, replace: bool, d: SourceText, offsets: seq<(nat, nat)>,
                  physical: seq<nat>, before: seq<Finding>)
    returns (p: Pass)
    requires d.SourceText? && offsets == Offsets(d.prefix, d.units)
    requires Wired(MakeSource(cfg, data, d, physical, replace))
    requires before == TextFindings(Text(d.units), offsets)
    ensures p == ScanPass(cfg, data, replace, d, physical)
  {
    var legacy := cfg.charset.LegacyText?;
    var src := Source(data, d.units, offsets, physical, legacy, legacy && cfg.charset.doubleByte, replace, cfg.unassigned);
    var scanner := new Scanner(src);
    assert src == MakeSource(cfg, data, d, physical, replace);
    var aborted := scanner.RunScan();
    hide Run, ApplyAll, Wired, TextFindings, ScanFindings, Logical, MakeSource, Offsets;
    var abort := [];
    if aborted.Some? {
      abort := [Finding(aborted.value.0, Blocker, Some(offsets[physical[aborted.value.1]].0))];
    }
    var st := scanner.Snapshot();
    var findings := Collect(before, abort, st);
    return Pass(findings, st, aborted.None?, d);
  }

  /** Findings in the order they are reported: text checks, the abort, the scan. */
  method Collect(before: seq<Finding>, abort: seq<Finding>, st: State) returns (findings: seq<Finding>)
    ensures findings == before + abort + ScanFindings(st)
  {
    findings := before + abort;
    FindingsInOrder(before, abort, st);
    findings := findings + st.findings;
    if st.overflow {
      findings := findings + [Finding(REPLACEMENT_BOUND_EXCEEDED, Blocker, None)];
    } else if st.records != [] {
      findings := findings + [Finding(REPLACEMENT_APPLIED, Info, None)];
    }
    if st.suppressed > 0 {
      findings := findings + [Finding(FINDINGS_TRUNCATED, if st.blockerSuppressed > 0 then Blocker else Warning, None)];
    }
  }

  lemma FindingsInOrder(before: seq<Finding>, aborted: seq<Finding>, st: State)
    ensures var a := before + aborted + st.findings;
            var b := if st.overflow then a + [Finding(REPLACEMENT_BOUND_EXCEEDED, Blocker, None)]
                     else if st.records != [] then a + [Finding(REPLACEMENT_APPLIED, Info, None)] else a;
            (if st.suppressed > 0 then b + [Finding(FINDINGS_TRUNCATED, if st.blockerSuppressed > 0 then Blocker else Warning, None)]
             else b) == before + aborted + ScanFindings(st)
  {
  }

  /** `analyze_bytes`. */
  method AnalyzeBytes(cfg: Config, data: seq<Byte>, replace: bool, checkOutput: bool) returns (a: Analysis)
    requires LawfulConfig(cfg)
    ensures a == Analyse(cfg, data, replace, checkOutput)
    decreases checkOutput
  {
    hide FirstPass, Lawful, OutputFindings, RecheckFindings, Report, Outside, OutUnits, Bytes, WellFormed, Covered;
    var p, offsets := RunFirstPass(cfg, data, replace);
    if !p.complete || Blocked(p.findings, p.scan) {
      return Analysis(p.findings, false, None, None, p.scan);
    }
    PassIsSound(cfg, data, replace);
    DecodeFacts(cfg.charset, data, replace);
    var us, prefix, intervals := p.decoded.units, p.decoded.prefix, p.scan.intervals;
    var outside := OutsideSegments(data, us, offsets, intervals, prefix);
    var output := BuildOutput(data, us, offsets, intervals, prefix, replace);
    var checks := CheckOutput(replace, output);
    var findings := p.findings + checks;
    if checkOutput && !Blocked(findings, p.scan) {
      Utf8.Utf8IsLawful();
      var again := AnalyzeBytes(AsUtf8(cfg), output, false, false);
      findings := findings + RecheckFindings(again, output, outside);
    }
    return Report(findings, p.scan, output, outside);
  }

  method CheckOutput(replace: bool, output: seq<Byte>) returns (findings: seq<Finding>)
    ensures findings == OutputFindings(replace, output)
  {
    findings := [];
    var slash := ContainsBytes(output, [63, 63, 47]);
    var equals := ContainsBytes(output, [63, 63, 61]);
    if replace && (slash || equals) {
      findings := findings + [Finding(REPLACEMENT_TRIGRAPH_HAZARD, Blocker, None)];
    }
    if |output| > MAX_OUTPUT_BYTES {
      findings := findings + [Finding(OUTPUT_BOUND_EXCEEDED, Blocker, None)];
    }
    if Utf8.ScanBytes(output).Bad? {
      findings := findings + [Finding(OUTPUT_NOT_UTF8, Blocker, None)];
    }
  }

  method ContainsBytes(b: seq<Byte>, pattern: seq<Byte>) returns (found: bool)
    ensures found == Contains(b, pattern)
  {
    for i := 0 to |b| + 1
      invariant forall k :: 0 <= k < i ==> !StartsWith(b[k..], pattern)
    {
      if StartsWith(b[i..], pattern) {
        return true;
      }
    }
    return false;
  }
}
