/** The run-time re-check is a theorem. Whenever the first pass completes without a
    blocker and writing question marks forms no hazardous trigraph, the derived copy
    decodes as UTF-8 to the expected units, is scanned to the same intervals, keeps
    every byte outside them and converts to itself. */
module Recheck {
  import opened Basics
  import opened Codecs
  import opened DecodeUnits
  import opened DecodeSource
  import opened Findings
  import opened LogicalView
  import opened Lexer
  import opened LexerFacts
  import opened ScanState
  import opened ScanFacts
  import opened ScanBlockers
  import opened Output
  import opened Analyze
  import Utf8

  /** A first pass that neither stopped nor met a blocker. */
  ghost predicate Clear(cfg: Config, data: seq<Byte>, replace: bool) {
    LawfulConfig(cfg) && var p := FirstPass(cfg, data, replace); p.complete && !Blocked(p.findings, p.scan)
  }

  /** The units of the derived copy. */
  ghost function Copy(cfg: Config, data: seq<Byte>, replace: bool): seq<Unit>
    requires Clear(cfg, data, replace)
  {
    var p := FirstPass(cfg, data, replace);
    OutUnits(p.decoded.units, p.scan.intervals, replace)
  }

  ghost function Head(data: seq<Byte>): seq<Byte> {
    data[..PrefixLength(data)]
  }

  /** The outside segments of the file. */
  ghost function OutsideOf(cfg: Config, data: seq<Byte>, replace: bool): seq<seq<Byte>>
    requires Clear(cfg, data, replace)
  {
    PassIsSound(cfg, data, replace);
    var p := FirstPass(cfg, data, replace);
    Outside(Head(data), p.decoded.units, p.scan.intervals)
  }

  /** The derived copy as it is written. */
  ghost function CopyBytes(cfg: Config, data: seq<Byte>, replace: bool): seq<Byte>
    requires Clear(cfg, data, replace)
  {
    Head(data) + Bytes(Copy(cfg, data, replace))
  }

  /** Outside the intervals a clear file holds no opaque unit, and in a legacy
      charset nothing but ASCII. */
  lemma OutsideIsPlain(cfg: Config, data: seq<Byte>, replace: bool, i: nat)
    requires Clear(cfg, data, replace)
    requires var p := FirstPass(cfg, data, replace); i < |p.decoded.units| && !Covered(p.scan.intervals, i)
    ensures var u := FirstPass(cfg, data, replace).decoded.units[i];
            !u.isOpaque && (cfg.charset.LegacyText? ==> !NonAscii(u.ch))
  {
    hide Lawful;
    var d := Decode(cfg.charset, data, replace);
    CompletePass(cfg, data, replace);
    DecodeFacts(cfg.charset, data, replace);
    var physical := Splice(Text(d.units), 0).physical;
    CompleteScan(cfg, data, replace, d, physical);
    ScanPlaces(cfg, data, replace, d, physical);
    PlainOutside(cfg, data, replace, d, physical, i);
  }

  lemma PlainOutside(cfg: Config, data: seq<Byte>, replace: bool, d: SourceText, physical: seq<nat>, i: nat)
    requires d.SourceText? && Wired(MakeSource(cfg, data, d, physical, replace))
    requires Keeps(Text(d.units), 0, physical) && i < |d.units|
    requires forall u :: u in d.units && u.isOpaque ==> u.ch == OPAQUE_CHAR
    requires var s := Logical(MakeSource(cfg, data, d, physical, replace));
             var st := ScanPass(cfg, data, replace, d, physical).scan;
             && Placed(s, physical, [], Run(s, 0, true).events, 0, st.intervals)
             && !Covered(st.intervals, i) && st.blockerCount == 0
    ensures !d.units[i].isOpaque && (cfg.charset.LegacyText? ==> !NonAscii(d.units[i].ch))
  {
    var src := MakeSource(cfg, data, d, physical, replace);
    var s := Logical(src);
    hide Run, Wired, ApplyAll, Splice;
    assert d.units[i] in d.units;
    if NonAscii(d.units[i].ch) && (d.units[i].isOpaque || cfg.charset.LegacyText?) {
      assert NonAscii(Text(d.units)[i]);
      var k :| 0 <= k < |physical| && physical[k] == i;
      assert NonAscii(s[k]) && Alarm(k) in Run(s, 0, true).events;
      AlarmBlocks(src, START, Run(s, 0, true).events, k);
    }
  }

  /** A rewritten non-ASCII character is comment content. */
  lemma OnlyCommentsChange(cfg: Config, data: seq<Byte>, replace: bool, i: nat)
    requires Clear(cfg, data, replace)
    requires i < |FirstPass(cfg, data, replace).decoded.units|
    requires Copy(cfg, data, replace)[i] != FirstPass(cfg, data, replace).decoded.units[i]
    ensures var d := FirstPass(cfg, data, replace).decoded;
            && d.SourceText? && Splice(Text(d.units), 0).Spliced?
            && var physical := Splice(Text(d.units), 0).physical;
            && Wired(MakeSource(cfg, data, d, physical, replace))
            && exists k :: 0 <= k < |physical| && physical[k] == i
                 && InComment(Run(Logical(MakeSource(cfg, data, d, physical, replace)), 0, true).events, k)
  {
    hide Lawful;
    var d := Decode(cfg.charset, data, replace);
    CompletePass(cfg, data, replace);
    var physical := Splice(Text(d.units), 0).physical;
    CompleteScan(cfg, data, replace, d, physical);
    ScanPlaces(cfg, data, replace, d, physical);
    DecodeFacts(cfg.charset, data, replace);
    hide Run, Wired, Splice, ScanPass;
    assert d.units[i] in d.units;
    assert NonAscii(Text(d.units)[i]);
    var k :| 0 <= k < |physical| && physical[k] == i;
    var s := Logical(MakeSource(cfg, data, d, physical, replace));
    assert NonAscii(s[k]);
  }

  /** Every unit of the copy is its character's UTF-8 encoding. */
  ghost predicate IsPlain(us: seq<Unit>) {
    forall i :: 0 <= i < |us| ==> !us[i].isOpaque && us[i].bytes == Utf8.Encode(us[i].ch)
  }

  lemma CopyIsPlain(cfg: Config, data: seq<Byte>, replace: bool)
    requires Clear(cfg, data, replace)
    ensures IsPlain(Copy(cfg, data, replace))
  {
    hide Lawful, FirstPass, Rewrite, Blocked;
    PassIsSound(cfg, data, replace);
    var us := FirstPass(cfg, data, replace).decoded.units;
    DecodeFacts(cfg.charset, data, replace);
    forall i | 0 <= i < |us|
      ensures var o := Copy(cfg, data, replace)[i]; !o.isOpaque && o.bytes == Utf8.Encode(o.ch)
    {
      assert us[i] in us;
      var covered := Covered(FirstPass(cfg, data, replace).scan.intervals, i);
      if !covered {
        OutsideIsPlain(cfg, data, replace, i);
      }
      UnitIsPlain(cfg, us[i], replace, covered);
    }
  }

  lemma UnitIsPlain(cfg: Config, u: Unit, replace: bool, covered: bool)
    requires LawfulConfig(cfg)
    requires if u.isOpaque then u.ch == OPAQUE_CHAR else CodecOf(cfg.charset).encode(u.ch) == Some(u.bytes)
    requires !covered ==> !u.isOpaque && (cfg.charset.LegacyText? ==> !NonAscii(u.ch))
    ensures var o := if covered then Rewrite(u, replace) else u;
            !o.isOpaque && o.bytes == Utf8.Encode(o.ch)
  {
    if !NonAscii(u.ch) {
      AsciiIsItself(CodecOf(cfg.charset), u.ch);
    }
  }

  lemma CopyIsMasked(us: seq<Unit>, intervals: seq<(nat, nat)>, replace: bool)
    requires forall u :: u in us && u.isOpaque ==> u.ch == OPAQUE_CHAR
    ensures Masked(Text(us), Text(OutUnits(us, intervals, replace)))
    ensures !replace && (forall u :: u in us ==> !u.isOpaque) ==> Text(OutUnits(us, intervals, replace)) == Text(us)
  {
    forall i | 0 <= i < |us|
      ensures var o := OutUnits(us, intervals, replace)[i];
              && (o.ch == us[i].ch || (NonAscii(us[i].ch) && o.ch == '?'))
              && (!replace && !us[i].isOpaque ==> o.ch == us[i].ch)
    {
      assert us[i] in us;
    }
  }

  lemma {:induction false} PlainBytes(us: seq<Unit>)
    requires IsPlain(us)
    ensures |Bytes(us)| <= 4 * |us|
    ensures forall b :: b in Bytes(us) ==> b <= 0xF4
    decreases |us|
  {
    if us != [] {
      PlainBytes(us[1..]);
      assert us[0].bytes == Utf8.Encode(us[0].ch);
    }
  }

  /** No byte-order mark appears or disappears. */
  lemma CopyKeepsBom(cfg: Config, data: seq<Byte>, replace: bool)
    requires Clear(cfg, data, replace)
    ensures var output := CopyBytes(cfg, data, replace);
            PrefixLength(output) == PrefixLength(data) && !ForeignBom(output)
  {
    hide Lawful, FirstPass, ForeignBom, StartsWith, Bytes;
    PassIsSound(cfg, data, replace);
    DecodeFacts(cfg.charset, data, replace);
    CopyIsPlain(cfg, data, replace);
    BomIsKept(data, FirstPass(cfg, data, replace).decoded.units, Copy(cfg, data, replace));
  }

  lemma BomIsKept(data: seq<Byte>, us: seq<Unit>, out: seq<Unit>)
    requires data[PrefixLength(data)..] == Bytes(us) && |us| == |out| && IsPlain(out)
    requires us != [] ==> out[0] == us[0]
    ensures var output := Head(data) + Bytes(out);
            PrefixLength(output) == PrefixLength(data) && !ForeignBom(output)
  {
    var body := Bytes(out);
    if PrefixLength(data) == 3 {
      MarkStays(data, body);
    } else {
      NoMarkComes(data, us, out);
    }
  }

  lemma NoMarkComes(data: seq<Byte>, us: seq<Unit>, out: seq<Unit>)
    requires PrefixLength(data) == 0 && data == Bytes(us) && |us| == |out| && IsPlain(out)
    requires us != [] ==> out[0] == us[0]
    ensures Head(data) + Bytes(out) == Bytes(out)
    ensures PrefixLength(Bytes(out)) == 0 && !ForeignBom(Bytes(out))
  {
    hide Bytes, IsPlain, Utf8.Encode, ForeignBom;
    FirstUnitIsKept(data, us, out);
    PlainBytes(out);
    var body := Bytes(out);
    assert Head(data) + body == body;
    forall i | 0 <= i < |body|
      ensures body[i] <= 0xF4
    {
      assert body[i] in body;
    }
    NoForeignBom(body);
  }

  lemma MarkStays(data: seq<Byte>, body: seq<Byte>)
    requires PrefixLength(data) == 3
    ensures PrefixLength(Head(data) + body) == 3 && !ForeignBom(Head(data) + body)
  {
    assert data[..3] == BOM;
    assert (BOM + body)[..3] == BOM && (BOM + body)[0] == 0xEF;
  }

  lemma NoForeignBom(b: seq<Byte>)
    requires forall i :: 0 <= i < |b| ==> b[i] <= 0xF4
    ensures !ForeignBom(b)
  {
    var n := |b|;
    assert n >= 2 ==> b[..2][0] == b[0];
    assert n >= 4 ==> b[..4][0] == b[0] && b[..4][2] == b[2];
  }

  lemma FirstUnitIsKept(data: seq<Byte>, us: seq<Unit>, out: seq<Unit>)
    requires |us| == |out| && data == Bytes(us) && IsPlain(out) && PrefixLength(data) == 0
    requires us != [] ==> out[0] == us[0]
    ensures !StartsWith(Bytes(out), BOM)
  {
    if us != [] {
      var first := Utf8.Encode(out[0].ch);
      assert Bytes(out) == first + Bytes(out[1..]);
      assert data == first + Bytes(us[1..]);
      assert first[0] == 0xEF ==> |first| == 3;
      hide Bytes, Utf8.Encode;
      if |first| == 3 {
        assert Bytes(out)[..3] == first == data[..3];
      }
    }
  }

  /** The copy decodes strictly as UTF-8, to exactly the derived units. */
  lemma CopyDecodes(cfg: Config, data: seq<Byte>, replace: bool)
    requires Clear(cfg, data, replace) && Lawful(Utf8.UTF8)
    ensures var out := Copy(cfg, data, replace);
            var output := Head(data) + Bytes(out);
            && Decode(Utf8Text, output, false) == SourceText(PrefixLength(data), out)
            && Utf8.ScanBytes(output).Clean?
            && |output| <= MAX_OUTPUT_BYTES
  {
    hide Lawful, FirstPass, Tile, ForeignBom, StartsWith;
    var out := Copy(cfg, data, replace);
    var output := Head(data) + Bytes(out);
    PassIsSound(cfg, data, replace);
    DecodeFacts(cfg.charset, data, replace);
    CopyIsPlain(cfg, data, replace);
    CopyKeepsBom(cfg, data, replace);
    PlainBytes(out);
    EncodingScans(Utf8.UTF8, out);
    TileOfUnits(Utf8.UTF8, out);
    assert output[PrefixLength(data)..] == Bytes(out);
    HeadScans(data);
    Utf8.ScanRestarts(Head(data), Bytes(out));
  }

  lemma HeadScans(data: seq<Byte>)
    ensures Utf8.ScanBytes(Head(data)).Clean?
  {
    if PrefixLength(data) == 3 {
      assert Head(data) == Utf8.Encode('\U{FEFF}');
      Utf8.ScanOfEncoding('\U{FEFF}');
    }
  }

  // Trigraphs

  /** Trigraph findings differ only in their offsets between equal texts. */
  lemma {:induction false} TrigraphsByText(text: string, a: seq<(nat, nat)>, b: seq<(nat, nat)>, i: nat, x: Trigraphs, y: Trigraphs)
    requires |a| == |b| == |text|
    requires |x.findings| == |y.findings| && x.suppressed == y.suppressed && HasBlocker(x.findings) == HasBlocker(y.findings)
    ensures var r, q := FindTrigraphs(text, a, i, x), FindTrigraphs(text, b, i, y);
            HasBlocker(r.findings) == HasBlocker(q.findings)
    decreases |text| - i
  {
    if i + 2 < |text| {
      if !IsTrigraph(text, i) {
        TrigraphsByText(text, a, b, i + 1, x, y);
      } else {
        var f, g := TrigraphFinding(text, i, a[i].0), TrigraphFinding(text, i, b[i].0);
        BlockerAppend(x.findings, f);
        BlockerAppend(y.findings, g);
        TrigraphsByText(text, a, b, i + 3, x.(findings := x.findings + [f]), y.(findings := y.findings + [g]));
        TrigraphsByText(text, a, b, i + 3, x.(suppressed := x.suppressed + 1), y.(suppressed := y.suppressed + 1));
      }
    }
  }

  lemma BlockerAppend(fs: seq<Finding>, f: Finding)
    ensures HasBlocker(fs + [f]) <==> HasBlocker(fs) || f.severity == Blocker
  {
    BlockerConcat(fs, [f]);
    assert [f][0] == f;
  }

  lemma BlockerConcat(a: seq<Finding>, b: seq<Finding>)
    ensures HasBlocker(a + b) <==> HasBlocker(a) || HasBlocker(b)
  {
    if HasBlocker(a) {
      var i :| 0 <= i < |a| && a[i].severity == Blocker;
      assert (a + b)[i].severity == Blocker;
    }
    if HasBlocker(b) {
      var i :| 0 <= i < |b| && b[i].severity == Blocker;
      assert (a + b)[|a| + i].severity == Blocker;
    }
  }

  lemma {:induction false} NoHazardNoBlocker(text: string, offsets: seq<(nat, nat)>, i: nat, x: Trigraphs)
    requires |offsets| == |text| && !HasBlocker(x.findings)
    requires forall k: nat :: !IsHazard(text, k)
    ensures !HasBlocker(FindTrigraphs(text, offsets, i, x).findings)
    decreases |text| - i
  {
    if i + 2 < |text| {
      if !IsTrigraph(text, i) {
        NoHazardNoBlocker(text, offsets, i + 1, x);
      } else {
        assert !IsHazard(text, i);
        var f := TrigraphFinding(text, i, offsets[i].0);
        BlockerAppend(x.findings, f);
        NoHazardNoBlocker(text, offsets, i + 3, x.(findings := x.findings + [f]));
        NoHazardNoBlocker(text, offsets, i + 3, x.(suppressed := x.suppressed + 1));
      }
    }
  }

  /** A hazard in the copy's text shows in its bytes. */
  lemma HazardShows(head: seq<Byte>, us: seq<Unit>, k: nat)
    requires IsPlain(us) && IsHazard(Text(us), k)
    ensures Contains(head + Bytes(us), [63, 63, 47]) || Contains(head + Bytes(us), [63, 63, 61])
  {
    hide Bytes;
    var third := Text(us)[k + 2] as int;
    BytesAppend(us[..k], us[k..]);
    assert us == us[..k] + us[k..];
    ThreeUnits(us[k..]);
    var at := |head| + |Bytes(us[..k])|;
    assert (head + Bytes(us))[at..] == Bytes(us[k..]);
    assert StartsWith((head + Bytes(us))[at..], [63, 63, third]);
  }

  lemma ThreeUnits(us: seq<Unit>)
    requires |us| >= 3 && IsPlain(us) && forall i :: 0 <= i < 3 ==> !NonAscii(us[i].ch)
    ensures StartsWith(Bytes(us), [us[0].ch as int, us[1].ch as int, us[2].ch as int])
  {
    AsciiByte(us);
    AsciiByte(us[1..]);
    AsciiByte(us[1..][1..]);
    hide Bytes;
    ThreeInFront(us[0].ch as int, us[1].ch as int, us[2].ch as int, Bytes(us[1..][1..][1..]));
  }

  lemma ThreeInFront(x: Byte, y: Byte, z: Byte, rest: seq<Byte>)
    ensures StartsWith([x] + ([y] + ([z] + rest)), [x, y, z])
  {
    var all := [x] + ([y] + ([z] + rest));
    assert all[0] == x && all[1] == y && all[2] == z;
  }

  lemma AsciiByte(us: seq<Unit>)
    requires us != [] && IsPlain(us) && !NonAscii(us[0].ch)
    ensures Bytes(us) == [us[0].ch as int] + Bytes(us[1..])
  {
  }

  /** The copy's text raises no blocker before it is scanned. */
  lemma CopyTextIsCalm(cfg: Config, data: seq<Byte>, replace: bool, offsets: seq<(nat, nat)>)
    requires Clear(cfg, data, replace)
    requires var out := Copy(cfg, data, replace);
             !HasBlocker(OutputFindings(replace, Head(data) + Bytes(out))) && |offsets| == |out|
    ensures !HasBlocker(TextFindings(Text(Copy(cfg, data, replace)), offsets))
  {
    hide Lawful;
    var d := Decode(cfg.charset, data, replace);
    PassIsSound(cfg, data, replace);
    CompletePass(cfg, data, replace);
    DecodeFacts(cfg.charset, data, replace);
    PassTextIsCalm(cfg, data, replace, d, Splice(Text(d.units), 0).physical);
    CopyIsPlain(cfg, data, replace);
    hide FirstPass, ScanPass, Splice, FindTrigraphs, TextFindings, OutputFindings;
    RewrittenTextIsCalm(d, FirstPass(cfg, data, replace).scan.intervals, replace, Head(data), offsets);
  }

  lemma RewrittenTextIsCalm(d: SourceText, intervals: seq<(nat, nat)>, replace: bool, head: seq<Byte>, offsets: seq<(nat, nat)>)
    requires d.SourceText? && |offsets| == |d.units| && IsPlain(OutUnits(d.units, intervals, replace))
    requires forall u :: u in d.units && u.isOpaque ==> replace && u.ch == OPAQUE_CHAR
    requires '\0' !in Text(d.units)
    requires !HasBlocker(FindTrigraphs(Text(d.units), Offsets(d.prefix, d.units), 0, Trigraphs([], 0)).findings)
    requires !HasBlocker(OutputFindings(replace, head + Bytes(OutUnits(d.units, intervals, replace))))
    ensures !HasBlocker(TextFindings(Text(OutUnits(d.units, intervals, replace)), offsets))
  {
    var out := OutUnits(d.units, intervals, replace);
    var text := Text(out);
    CopyIsMasked(d.units, intervals, replace);
    if '\0' in text {
      MaskedNul(Text(d.units), text);
    }
    hide FindTrigraphs, OutUnits, OutputFindings, TextFindings, Masked;
    if replace {
      forall k: nat
        ensures !IsHazard(text, k)
      {
        if IsHazard(text, k) {
          HazardShows(head, out, k);
          HazardIsFound(head + Bytes(out));
        }
      }
      NoHazardNoBlocker(text, offsets, 0, Trigraphs([], 0));
    } else {
      TrigraphsByText(text, offsets, Offsets(d.prefix, d.units), 0, Trigraphs([], 0), Trigraphs([], 0));
    }
    TextBlockers(text, offsets);
  }

  lemma HazardIsFound(output: seq<Byte>)
    requires Contains(output, [63, 63, 47]) || Contains(output, [63, 63, 61])
    ensures HasBlocker(OutputFindings(true, output))
  {
    assert OutputFindings(true, output)[0].severity == Blocker;
  }

  lemma MaskedNul(s: string, t: string)
    requires Masked(s, t) && '\0' in t
    ensures '\0' in s
  {
    var k :| 0 <= k < |t| && t[k] == '\0';
    assert s[k] == '\0';
  }

  lemma TextBlockers(text: string, offsets: seq<(nat, nat)>)
    requires |offsets| == |text|
    ensures HasBlocker(TextFindings(text, offsets)) <==>
            '\0' in text || HasBlocker(FindTrigraphs(text, offsets, 0, Trigraphs([], 0)).findings)
  {
    var t := FindTrigraphs(text, offsets, 0, Trigraphs([], 0));
    var nul := When('\0' in text, Finding(BINARY_OR_NUL_BYTE, Blocker, Some(0)));
    assert HasBlocker(nul) <==> '\0' in text by {
      if '\0' in text {
        assert nul[0].severity == Blocker;
      }
    }
    BlockerConcat(nul, t.findings);
    BlockerConcat(nul + t.findings, When(t.suppressed > 0, Finding(FINDINGS_TRUNCATED, Warning, None)));
  }

  lemma PassTextIsCalm(cfg: Config, data: seq<Byte>, replace: bool, d: SourceText, physical: seq<nat>)
    requires d.SourceText? && Wired(MakeSource(cfg, data, d, physical, replace))
    requires !HasBlocker(ScanPass(cfg, data, replace, d, physical).findings)
    ensures var offsets := Offsets(d.prefix, d.units);
            && '\0' !in Text(d.units)
            && !HasBlocker(FindTrigraphs(Text(d.units), offsets, 0, Trigraphs([], 0)).findings)
  {
    var offsets := Offsets(d.prefix, d.units);
    var src := MakeSource(cfg, data, d, physical, replace);
    var r := Run(Logical(src), 0, true);
    var st := ApplyAll(src, START, r.events);
    var aborted := if r.Abort? then [Finding(r.code, Blocker, Some(src.offsets[physical[r.at]].0))] else [];
    var fs := TextFindings(Text(d.units), offsets);
    hide Run, ApplyAll, FindTrigraphs, TextFindings, ScanFindings, Wired;
    BlockerConcat(fs + aborted, ScanFindings(st));
    BlockerConcat(fs, aborted);
    TextBlockers(Text(d.units), offsets);
  }

  // The second pass

  /** The copy's own first pass: same decoding, same intervals, no blocker. */
  lemma SecondPass(cfg: Config, data: seq<Byte>, replace: bool)
    requires Clear(cfg, data, replace) && Lawful(Utf8.UTF8)
    requires !HasBlocker(OutputFindings(replace, CopyBytes(cfg, data, replace)))
    ensures var output := CopyBytes(cfg, data, replace);
            && Clear(AsUtf8(cfg), output, false)
            && var p, q := FirstPass(cfg, data, replace), FirstPass(AsUtf8(cfg), output, false);
            && q.decoded == SourceText(PrefixLength(data), Copy(cfg, data, replace))
            && q.scan.intervals == p.scan.intervals
  {
    hide Lawful;
    var d := Decode(cfg.charset, data, replace);
    var out := Copy(cfg, data, replace);
    var output := Head(data) + Bytes(out);
    var cfg2 := AsUtf8(cfg);
    CompletePass(cfg, data, replace);
    PassIsSound(cfg, data, replace);
    DecodeFacts(cfg.charset, data, replace);
    CopyDecodes(cfg, data, replace);
    CopyIsPlain(cfg, data, replace);
    CopyIsMasked(d.units, FirstPass(cfg, data, replace).scan.intervals, replace);
    var physical := Splice(Text(d.units), 0).physical;
    SpliceMasked(Text(d.units), Text(out), 0);
    SpliceKeeps(Text(out), 0);
    var d2 := SourceText(PrefixLength(data), out);
    SourceIsWired(cfg2, output, d2, physical, false);
    CopyTextIsCalm(cfg, data, replace, Offsets(d2.prefix, out));
    ScanPlaces(cfg, data, replace, d, physical);
    SecondScan(cfg, data, output, replace, d, d2, physical);
    assert FirstPass(cfg2, output, false) == ScanPass(cfg2, output, false, d2, physical);
  }

  lemma SecondScan(cfg: Config, data: seq<Byte>, output: seq<Byte>, replace: bool, d: SourceText, d2: SourceText, physical: seq<nat>)
    requires d.SourceText? && d2.SourceText? && Masked(Text(d.units), Text(d2.units)) && IsPlain(d2.units)
    requires Wired(MakeSource(cfg, data, d, physical, replace)) && Wired(MakeSource(AsUtf8(cfg), output, d2, physical, false))
    requires Run(Logical(MakeSource(cfg, data, d, physical, replace)), 0, true).Go?
    requires !HasBlocker(TextFindings(Text(d2.units), Offsets(d2.prefix, d2.units)))
    ensures var p, q := ScanPass(cfg, data, replace, d, physical), ScanPass(AsUtf8(cfg), output, false, d2, physical);
            && q.complete && q.decoded == d2 && !Blocked(q.findings, q.scan)
            && q.scan.intervals == p.scan.intervals
  {
    var src, src2 := MakeSource(cfg, data, d, physical, replace), MakeSource(AsUtf8(cfg), output, d2, physical, false);
    var s, t := Logical(src), Logical(src2);
    assert Masked(s, t) by {
      forall k | 0 <= k < |s|
        ensures t[k] == s[k] || (NonAscii(s[k]) && t[k] == '?')
      {
        assert s[k] == Text(d.units)[physical[k]] && t[k] == Text(d2.units)[physical[k]];
      }
    }
    RunMasked(s, t, 0, true);
    var r, q := Run(s, 0, true), Run(t, 0, true);
    ApplyAllKeeps(src, START, r.events);
    ApplyAllKeeps(src2, START, q.events);
    FoldOfComments(physical, [], r.events);
    FoldOfComments(physical, [], q.events);
    assert PlainUtf8(src2);
    ApplyAllCalm(src2, START, q.events);
    var st := ApplyAll(src2, START, q.events);
    hide Run, ApplyAll, Wired, Masked, FindTrigraphs, TextFindings, FoldIntervals, Comments;
    CalmFindings(st);
    BlockerConcat(TextFindings(Text(d2.units), src2.offsets) + [], ScanFindings(st));
    assert TextFindings(Text(d2.units), src2.offsets) + [] == TextFindings(Text(d2.units), src2.offsets);
  }

  lemma CalmFindings(st: State)
    requires Calm(st)
    ensures !HasBlocker(ScanFindings(st))
  {
    assert st.findings + [] == st.findings;
    var last := if st.suppressed == 0 then [] else [Finding(FINDINGS_TRUNCATED, Warning, None)];
    BlockerConcat(st.findings, last);
  }

  // Main results

  lemma RewritePlain(us: seq<Unit>, intervals: seq<(nat, nat)>)
    requires IsPlain(us)
    ensures OutUnits(us, intervals, false) == us
  {
  }

  /** The copy analyses as ready, with the same outside segments, to itself. */
  lemma ConversionIsIdempotent(cfg: Config, data: seq<Byte>, replace: bool)
    requires Clear(cfg, data, replace) && Lawful(Utf8.UTF8)
    requires !HasBlocker(OutputFindings(replace, CopyBytes(cfg, data, replace)))
    ensures var output := CopyBytes(cfg, data, replace);
            var again := Analyse(AsUtf8(cfg), output, false, false);
            && again.ready && again.output == Some(output)
            && again.outside == Some(OutsideOf(cfg, data, replace))
  {
    hide Lawful, FirstPass;
    var out := Copy(cfg, data, replace);
    var output := Head(data) + Bytes(out);
    PassIsSound(cfg, data, replace);
    SecondPass(cfg, data, replace);
    PassIsSound(AsUtf8(cfg), output, false);
    CopyDecodes(cfg, data, replace);
    CopyIsPlain(cfg, data, replace);
    var p, q := FirstPass(cfg, data, replace), FirstPass(AsUtf8(cfg), output, false);
    RewritePlain(out, q.scan.intervals);
    OutsideIsKept(p.decoded.units, p.scan.intervals, replace, 0);
    assert output[..PrefixLength(data)] == Head(data);
    assert OutputFindings(false, output) == [];
    assert q.findings + [] == q.findings;
  }

  /** Everything an analysis reports, in closed form: OUTPUT_BOUND_EXCEEDED,
      OUTPUT_NOT_UTF8, OUTPUT_NOT_STABLE, OUTSIDE_COMMENT_DRIFT and
      OUTPUT_NOT_IDEMPOTENT never appear, with or without the re-check. */
  lemma RecheckNeverFires(cfg: Config, data: seq<Byte>, replace: bool, checkOutput: bool)
    requires Clear(cfg, data, replace)
    ensures var p := FirstPass(cfg, data, replace);
            && WellFormed(p.scan.intervals, |p.decoded.units|)
            && var output := CopyBytes(cfg, data, replace);
            Analyse(cfg, data, replace, checkOutput) ==
            if Hazardous(replace, output) then
              Analysis(p.findings + [Finding(REPLACEMENT_TRIGRAPH_HAZARD, Blocker, None)], false, None, None, p.scan)
            else
              Analysis(p.findings, true, Some(output), Some(Outside(Head(data), p.decoded.units, p.scan.intervals)), p.scan)
  {
    Utf8.Utf8IsLawful();
    hide Lawful, FirstPass;
    PassIsSound(cfg, data, replace);
    var p := FirstPass(cfg, data, replace);
    var output := CopyBytes(cfg, data, replace);
    AnalysisOfClear(cfg, data, replace, checkOutput);
    CopyDecodes(cfg, data, replace);
    hide Copy, Analyse, WellFormed, Bytes, Head;
    var outside := Outside(Head(data), p.decoded.units, p.scan.intervals);
    ClosedOutputFindings(replace, output);
    if !Hazardous(replace, output) {
      ConversionIsIdempotent(cfg, data, replace);
    }
    ReportOfClear(p.findings, p.scan, replace, output, outside, Analyse(AsUtf8(cfg), output, false, false), checkOutput);
  }

  lemma ReportOfClear(found: seq<Finding>, st: State, replace: bool, output: seq<Byte>, outside: seq<seq<Byte>>,
                      again: Analysis, checkOutput: bool)
    requires !Blocked(found, st)
    requires OutputFindings(replace, output) ==
             if Hazardous(replace, output) then [Finding(REPLACEMENT_TRIGRAPH_HAZARD, Blocker, None)] else []
    requires !Hazardous(replace, output) ==> again.ready && again.output == Some(output) && again.outside == Some(outside)
    ensures var fs := found + OutputFindings(replace, output);
            (if checkOutput && !HasBlocker(fs) then Report(fs + RecheckFindings(again, output, outside), st, output, outside)
             else Report(fs, st, output, outside)) ==
            if Hazardous(replace, output) then
              Analysis(found + [Finding(REPLACEMENT_TRIGRAPH_HAZARD, Blocker, None)], false, None, None, st)
            else Analysis(found, true, Some(output), Some(outside), st)
  {
    hide Hazardous, OutputFindings;
    var hazard := Finding(REPLACEMENT_TRIGRAPH_HAZARD, Blocker, None);
    BlockerAppend(found, hazard);
    assert found + [] == found && found + [] + [] == found;
  }

  ghost predicate Hazardous(replace: bool, output: seq<Byte>) {
    replace && (Contains(output, [63, 63, 47]) || Contains(output, [63, 63, 61]))
  }

  lemma ClosedOutputFindings(replace: bool, output: seq<Byte>)
    requires |output| <= MAX_OUTPUT_BYTES && Utf8.ScanBytes(output).Clean?
    ensures OutputFindings(replace, output) ==
            if Hazardous(replace, output) then [Finding(REPLACEMENT_TRIGRAPH_HAZARD, Blocker, None)] else []
    ensures HasBlocker(OutputFindings(replace, output)) == Hazardous(replace, output)
  {
    hide Contains, Utf8.ScanBytes;
    if Hazardous(replace, output) {
      assert OutputFindings(replace, output)[0].severity == Blocker;
    }
  }

  /** The analysis of a clear file, unfolded once. */
  lemma AnalysisOfClear(cfg: Config, data: seq<Byte>, replace: bool, checkOutput: bool)
    requires Clear(cfg, data, replace) && LawfulConfig(AsUtf8(cfg))
    ensures var p := FirstPass(cfg, data, replace);
            && WellFormed(p.scan.intervals, |p.decoded.units|)
            && var output := CopyBytes(cfg, data, replace);
            var outside := Outside(Head(data), p.decoded.units, p.scan.intervals);
            var fs := p.findings + OutputFindings(replace, output);
            Analyse(cfg, data, replace, checkOutput) ==
            if checkOutput && !HasBlocker(fs) then
              Report(fs + RecheckFindings(Analyse(AsUtf8(cfg), output, false, false), output, outside), p.scan, output, outside)
            else Report(fs, p.scan, output, outside)
  {
    hide Lawful, FirstPass, Report, OutputFindings, RecheckFindings, HasBlocker;
    PassIsSound(cfg, data, replace);
    DecodeFacts(cfg.charset, data, replace);
  }
}
