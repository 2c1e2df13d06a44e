/** What an accepted file is, unit by unit: characters by their encodings, and opaque
    units exactly where the codec reports an error. */
module DecodeExact {
  import opened Basics
  import opened Codecs
  import opened DecodeUnits
  import opened DecodeSource
  import opened Utf8Exact
  import Utf8

  /** The unit reads the bytes it stands in front of. */
  ghost predicate Reads(c: Codec, u: Unit, ahead: seq<Byte>) {
    if u.isOpaque then
      u.ch == OPAQUE_CHAR && c.scan(ahead) == Bad(0, |u.bytes|) && forall b :: b in u.bytes ==> b >= 0x80
    else c.encode(u.ch) == Some(u.bytes)
  }

  ghost predicate Parses(c: Codec, us: seq<Unit>) {
    forall i :: 0 <= i < |us| ==> Reads(c, us[i], Bytes(us[i..]))
  }

  function Spans(us: seq<Unit>): nat {
    if us == [] then 0 else (if us[0].isOpaque then 1 else 0) + Spans(us[1..])
  }

  lemma ParsesRest(c: Codec, us: seq<Unit>)
    requires us != [] && Parses(c, us)
    ensures Parses(c, us[1..]) && Reads(c, us[0], us[0].bytes + Bytes(us[1..]))
  {
    hide Reads;
    assert us[0..] == us;
    forall i | 0 <= i < |us[1..]|
      ensures Reads(c, us[1..][i], Bytes(us[1..][i..]))
    {
      assert us[1..][i] == us[i + 1] && us[1..][i..] == us[i + 1..];
    }
  }

  lemma ParsesFront(c: Codec, u: Unit, us: seq<Unit>)
    requires Parses(c, us) && Reads(c, u, u.bytes + Bytes(us))
    ensures Parses(c, [u] + us)
  {
    hide Reads;
    var all := [u] + us;
    forall i | 0 <= i < |all|
      ensures Reads(c, all[i], Bytes(all[i..]))
    {
      if i == 0 {
        assert all[0..] == all && all[1..] == us;
      } else {
        assert all[i..] == us[i - 1..] && all[i] == us[i - 1];
      }
    }
  }

  lemma FirstOfBoth(pre: seq<Unit>, us: seq<Unit>)
    requires pre != []
    ensures pre + us == [pre[0]] + (pre[1..] + us) && (pre + us)[1..] == pre[1..] + us
  {
  }

  lemma CharacterReads(c: Codec, u: Unit, ahead: seq<Byte>)
    requires !u.isOpaque && c.encode(u.ch) == Some(u.bytes)
    ensures Reads(c, u, ahead)
  {
  }

  /** Characters in front of parsed units. */
  lemma {:induction false} ParsesBehind(c: Codec, pre: seq<Unit>, us: seq<Unit>)
    requires Parses(c, us) && forall u :: u in pre ==> !u.isOpaque && c.encode(u.ch) == Some(u.bytes)
    ensures Parses(c, pre + us) && Spans(pre + us) == Spans(us)
  {
    hide *;
    if pre == [] {
      assert pre + us == us;
    } else {
      assert pre[0] in pre;
      ParsesBehind(c, pre[1..], us);
      FirstOfBoth(pre, us);
      CharacterReads(c, pre[0], pre[0].bytes + Bytes(pre[1..] + us));
      ParsesFront(c, pre[0], pre[1..] + us);
      FirstUnit(pre + us);
    }
  }

  lemma OneCharacter(c: Codec, u: Unit, count: nat)
    requires Lawful(c) && !u.isOpaque && c.encode(u.ch) == Some(u.bytes) && count < MAX_DECODED_CHARACTERS
    ensures c.scan(u.bytes) == Clean([u.ch]) && Emit(c, count, [u.ch], u.bytes) == Some([u])
  {
    EncodingDecodes(c, u.ch, u.bytes);
    TileOfUnits(c, [u]);
    hide Lawful;
    assert Bytes([u]) == u.bytes + Bytes([]);
    assert Text([u]) == [u.ch] && Bytes([u]) == u.bytes;
  }

  lemma FirstUnit(us: seq<Unit>)
    requires us != []
    ensures [us[0]] + us[1..] == us && Bytes(us) == us[0].bytes + Bytes(us[1..])
    ensures Spans(us) == (if us[0].isOpaque then 1 else 0) + Spans(us[1..])
  {
  }

  /** Units that read their bytes are what recovering decoding yields. */
  lemma {:induction false} ParseIsRecovered(c: Codec, us: seq<Unit>, count: nat, spans: nat)
    requires Lawful(c) && Parses(c, us)
    requires count + |us| <= MAX_DECODED_CHARACTERS && spans + Spans(us) <= MAX_INVALID_SPANS
    ensures Recover(c, Bytes(us), count, spans) == Decoded(us)
    decreases |us|
  {
    hide *;
    if us == [] {
      NothingIsRecovered(c, count, spans);
    } else {
      FirstUnit(us);
      ParsesRest(c, us);
      var u, rest := us[0], us[1..];
      ParseIsRecovered(c, rest, count + 1, spans + (if u.isOpaque then 1 else 0));
      if u.isOpaque {
        OpaqueFront(c, u, rest, count, spans);
      } else {
        CharacterFront(c, u, rest, count, spans);
      }
    }
  }

  lemma NothingIsRecovered(c: Codec, count: nat, spans: nat)
    requires Lawful(c) && count <= MAX_DECODED_CHARACTERS
    ensures Recover(c, Bytes([]), count, spans) == Decoded([])
  {
    OnlyEmptyIsEmpty(c, []);
    hide Lawful;
    RecoverClean(c, [], count, spans);
  }

  lemma CharacterFront(c: Codec, u: Unit, rest: seq<Unit>, count: nat, spans: nat)
    requires Lawful(c) && !u.isOpaque && Reads(c, u, u.bytes + Bytes(rest)) && count < MAX_DECODED_CHARACTERS
    requires Recover(c, Bytes(rest), count + 1, spans) == Decoded(rest)
    ensures Recover(c, u.bytes + Bytes(rest), count, spans) == Decoded([u] + rest)
  {
    hide Lawful, Recover, Bytes, Emit;
    OneCharacter(c, u, count);
    RecoverRestarts(c, u.bytes, Bytes(rest), count, spans);
  }

  lemma OpaqueFront(c: Codec, u: Unit, rest: seq<Unit>, count: nat, spans: nat)
    requires Lawful(c) && u.isOpaque && Reads(c, u, u.bytes + Bytes(rest))
    requires count < MAX_DECODED_CHARACTERS && spans < MAX_INVALID_SPANS
    requires Recover(c, Bytes(rest), count + 1, spans + 1) == Decoded(rest)
    ensures Recover(c, u.bytes + Bytes(rest), count, spans) == Decoded([u] + rest)
  {
    hide *;
    OpaqueReads(c, u, u.bytes + Bytes(rest));
    RecoverError(c, u.bytes + Bytes(rest), 0, |u.bytes|, count, spans);
    CutHere(u.bytes, Bytes(rest));
    EmitNothing(c, count);
    StepHere(u, count, spans, rest);
  }

  lemma OpaqueReads(c: Codec, u: Unit, ahead: seq<Byte>)
    requires u.isOpaque && Reads(c, u, ahead) && Lawful(c)
    ensures u == Unit(OPAQUE_CHAR, u.bytes, true) && c.scan(ahead) == Bad(0, |u.bytes|) && AllNonAscii(u.bytes)
  {
    ErrorBounds(c, ahead);
    hide Lawful;
  }

  lemma CutHere(a: seq<Byte>, b: seq<Byte>)
    ensures (a + b)[..0] == [] && (a + b)[0..|a|] == a && (a + b)[|a|..] == b
  {
  }

  lemma EmitNothing(c: Codec, count: nat)
    requires Lawful(c) && count <= MAX_DECODED_CHARACTERS
    ensures Emit(c, count, c.scan([]).text, []) == Some([])
  {
    OnlyEmptyIsEmpty(c, []);
    hide Lawful;
  }

  lemma StepHere(u: Unit, count: nat, spans: nat, rest: seq<Unit>)
    requires u == Unit(OPAQUE_CHAR, u.bytes, true) && AllNonAscii(u.bytes)
    requires count < MAX_DECODED_CHARACTERS && spans < MAX_INVALID_SPANS
    ensures Step(Some([]), u.bytes, count, spans, Decoded(rest)) == Decoded([u] + rest)
    ensures Len(Some([])) == 0
  {
    assert [] + [u] == [u];
  }

  /** What a result of recovering decoding promises. */
  ghost predicate IsParse(c: Codec, body: seq<Byte>, count: nat, spans: nat, us: seq<Unit>) {
    && Parses(c, us) && Bytes(us) == body && count + |us| <= MAX_DECODED_CHARACTERS
    && (Spans(us) == 0 || spans + Spans(us) <= MAX_INVALID_SPANS)
  }

  lemma {:induction false} RecoveredIsParse(c: Codec, body: seq<Byte>, count: nat, spans: nat)
    requires Lawful(c) && Recover(c, body, count, spans).Decoded?
    ensures IsParse(c, body, count, spans, Recover(c, body, count, spans).units)
    decreases |body|
  {
    hide *;
    match c.scan(body) {
      case Clean(t) => CleanParse(c, body, count, spans);
      case Bad(s, e) =>
        ErrorGoesOn(c, body, s, e, count, spans);
        var pre := Emit(c, count, c.scan(body[..s]).text, body[..s]).value;
        RecoveredIsParse(c, body[e..], count + |pre| + 1, spans + 1);
        ErrorParse(c, body, s, e, count, spans, pre);
    }
  }

  lemma CleanParse(c: Codec, body: seq<Byte>, count: nat, spans: nat)
    requires Lawful(c) && c.scan(body).Clean? && Recover(c, body, count, spans).Decoded?
    ensures IsParse(c, body, count, spans, Recover(c, body, count, spans).units)
  {
    RecoverClean(c, body, count, spans);
    hide Lawful, Recover, Parses;
    var us := Recover(c, body, count, spans).units;
    assert us + [] == us && Parses(c, []) by {
      EmptyParses(c);
    }
    ParsesBehind(c, us, []);
  }

  lemma EmptyParses(c: Codec)
    ensures Parses(c, [])
  {
  }

  lemma StepGoesOn(pre: Option<seq<Unit>>, span: seq<Byte>, count: nat, spans: nat, rest: Decoding)
    requires Step(pre, span, count, spans, rest).Decoded?
    ensures pre.Some? && AllNonAscii(span) && spans < MAX_INVALID_SPANS && count + |pre.value| < MAX_DECODED_CHARACTERS
    ensures rest.Decoded? && Len(pre) == |pre.value|
    ensures Step(pre, span, count, spans, rest) == Decoded(pre.value + [Unit(OPAQUE_CHAR, span, true)] + rest.units)
  {
  }

  lemma ErrorGoesOn(c: Codec, body: seq<Byte>, s: nat, e: nat, count: nat, spans: nat)
    requires Lawful(c) && c.scan(body) == Bad(s, e) && Recover(c, body, count, spans).Decoded?
    ensures s < e <= |body| && c.scan(body[..s]).Clean? && AllNonAscii(body[s..e]) && spans < MAX_INVALID_SPANS
    ensures var pre := Emit(c, count, c.scan(body[..s]).text, body[..s]);
            && pre.Some? && count + |pre.value| < MAX_DECODED_CHARACTERS
            && Recover(c, body[e..], count + |pre.value| + 1, spans + 1).Decoded?
            && Recover(c, body, count, spans) ==
               Decoded(pre.value + [Unit(OPAQUE_CHAR, body[s..e], true)]
                       + Recover(c, body[e..], count + |pre.value| + 1, spans + 1).units)
  {
    hide *;
    RecoverError(c, body, s, e, count, spans);
    var pre := Emit(c, count, c.scan(body[..s]).text, body[..s]);
    StepGoesOn(pre, body[s..e], count, spans, Recover(c, body[e..], count + Len(pre) + 1, spans + 1));
  }

  lemma EmitFacts(c: Codec, count: nat, text: string, seg: seq<Byte>)
    ensures var r := Emit(c, count, text, seg);
            r.Some? ==> Bytes(r.value) == seg && forall u :: u in r.value ==> !u.isOpaque && c.encode(u.ch) == Some(u.bytes)
  {
    hide Tile, Bytes;
  }

  lemma ErrorParse(c: Codec, body: seq<Byte>, s: nat, e: nat, count: nat, spans: nat, pre: seq<Unit>)
    requires Lawful(c) && c.scan(body) == Bad(s, e) && Recover(c, body, count, spans).Decoded?
    requires s < e <= |body| && c.scan(body[..s]).Clean? && Emit(c, count, c.scan(body[..s]).text, body[..s]) == Some(pre)
    requires var r := Recover(c, body[e..], count + |pre| + 1, spans + 1);
             r.Decoded? && IsParse(c, body[e..], count + |pre| + 1, spans + 1, r.units)
    ensures IsParse(c, body, count, spans, Recover(c, body, count, spans).units)
  {
    hide *;
    ErrorGoesOn(c, body, s, e, count, spans);
    ErrorBehind(c, body, s, e);
    EmitFacts(c, count, c.scan(body[..s]).text, body[..s]);
    JoinIsParse(c, body, s, e, count, spans, pre, Recover(c, body[e..], count + |pre| + 1, spans + 1).units);
  }

  lemma JoinIsParse(c: Codec, body: seq<Byte>, s: nat, e: nat, count: nat, spans: nat, pre: seq<Unit>, rest: seq<Unit>)
    requires s < e <= |body| && c.scan(body[s..]) == Bad(0, e - s) && AllNonAscii(body[s..e]) && spans < MAX_INVALID_SPANS
    requires Bytes(pre) == body[..s] && (forall u :: u in pre ==> !u.isOpaque && c.encode(u.ch) == Some(u.bytes))
    requires IsParse(c, body[e..], count + |pre| + 1, spans + 1, rest)
    ensures IsParse(c, body, count, spans, pre + [Unit(OPAQUE_CHAR, body[s..e], true)] + rest)
  {
    hide Parses, Bytes, AllNonAscii, Spans;
    JoinParses(c, body, s, e, pre, rest);
  }

  lemma ErrorBehind(c: Codec, body: seq<Byte>, s: nat, e: nat)
    requires Lawful(c) && c.scan(body) == Bad(s, e)
    ensures s < e <= |body| && c.scan(body[s..]) == Bad(0, e - s)
  {
    ErrorBounds(c, body);
    hide Lawful;
    assert body == body[..s] + body[s..];
    Restarts(c, body[..s], body[s..]);
  }

  lemma JoinParses(c: Codec, body: seq<Byte>, s: nat, e: nat, pre: seq<Unit>, rest: seq<Unit>)
    requires s < e <= |body| && c.scan(body[s..]) == Bad(0, e - s) && AllNonAscii(body[s..e])
    requires Bytes(pre) == body[..s] && (forall u :: u in pre ==> !u.isOpaque && c.encode(u.ch) == Some(u.bytes))
    requires Parses(c, rest) && Bytes(rest) == body[e..]
    ensures var us := pre + [Unit(OPAQUE_CHAR, body[s..e], true)] + rest;
            Parses(c, us) && Bytes(us) == body && Spans(us) == 1 + Spans(rest)
  {
    var u := Unit(OPAQUE_CHAR, body[s..e], true);
    assert body[s..] == body[s..e] + body[e..] && body == body[..s] + body[s..];
    FirstUnit([u] + rest);
    assert ([u] + rest)[1..] == rest;
    hide Parses, Bytes, Spans;
    ParsesFront(c, u, rest);
    ParsesBehind(c, pre, [u] + rest);
    assert pre + [u] + rest == pre + ([u] + rest);
    BytesAppend(pre, [u] + rest);
  }

  /** A body is accepted in the recovering mode exactly as the one list of units that
      read it, if that keeps both limits. */
  lemma RecoveredExactly(c: Codec, body: seq<Byte>, us: seq<Unit>)
    requires Lawful(c)
    ensures Recover(c, body, 0, 0) == Decoded(us) <==>
              && Parses(c, us) && Bytes(us) == body
              && |us| <= 1_000_000 && Spans(us) <= 1024
  {
    hide Lawful, Recover, Parses, Bytes;
    if Recover(c, body, 0, 0) == Decoded(us) {
      RecoveredIsParse(c, body, 0, 0);
    }
    if Parses(c, us) && Bytes(us) == body && |us| <= MAX_DECODED_CHARACTERS && Spans(us) <= MAX_INVALID_SPANS {
      ParseIsRecovered(c, us, 0, 0);
    }
  }

  // Whole files

  /** A byte-order mark that is not UTF-8's. */
  predicate StartsForeign(data: seq<Byte>) {
    || (|data| >= 2 && data[0] == 0xFF && data[1] == 0xFE)
    || (|data| >= 2 && data[0] == 0xFE && data[1] == 0xFF)
    || (|data| >= 4 && data[0] == 0 && data[1] == 0 && data[2] == 0xFE && data[3] == 0xFF)
  }

  predicate StartsUtf8(data: seq<Byte>) {
    |data| >= 3 && data[0] == 0xEF && data[1] == 0xBB && data[2] == 0xBF
  }

  lemma MarksAreMarks(data: seq<Byte>)
    ensures ForeignBom(data) <==> StartsForeign(data)
    ensures PrefixLength(data) == if StartsUtf8(data) then 3 else 0
  {
    if |data| >= 2 {
      assert data[..2] == [data[0], data[1]];
    }
    if |data| >= 3 {
      assert data[..3] == [data[0], data[1], data[2]];
    }
    if |data| >= 4 {
      assert data[..4] == [data[0], data[1], data[2], data[3]];
    }
  }

  lemma {:induction false} NoSpans(us: seq<Unit>)
    ensures Spans(us) == 0 <==> forall u :: u in us ==> !u.isOpaque
  {
    if us != [] {
      NoSpans(us[1..]);
      assert forall u :: u in us <==> u == us[0] || u in us[1..];
    }
  }

  lemma StrictlyDecoded(c: Codec, body: seq<Byte>, us: seq<Unit>)
    requires Lawful(c)
    ensures StrictDecode(c, body) == Decoded(us) <==>
              Parses(c, us) && Bytes(us) == body && |us| <= 1_000_000 && forall u :: u in us ==> !u.isOpaque
  {
    hide Lawful, Recover, Parses, Bytes, Emit;
    RecoveredExactly(c, body, us);
    NoSpans(us);
    if StrictDecode(c, body) == Decoded(us) {
      RecoverClean(c, body, 0, 0);
      EmitFacts(c, 0, c.scan(body).text, body);
    }
    if Recover(c, body, 0, 0) == Decoded(us) && forall u :: u in us ==> !u.isOpaque {
      PlainParseScans(c, us);
      RecoverClean(c, body, 0, 0);
    }
  }

  lemma PlainParseScans(c: Codec, us: seq<Unit>)
    requires Lawful(c) && Parses(c, us) && forall u :: u in us ==> !u.isOpaque
    ensures c.scan(Bytes(us)).Clean?
  {
    forall u | u in us
      ensures c.encode(u.ch) == Some(u.bytes)
    {
      var i :| 0 <= i < |us| && us[i] == u;
      assert Reads(c, us[i], Bytes(us[i..]));
    }
    EncodingScans(c, us);
  }

  /** A file is accepted exactly as the one list of units that read its bytes behind
      its mark, within both limits, and without opaque units in the strict mode. */
  lemma FileExactly(cs: Charset, data: seq<Byte>, recover: bool, n: nat, us: seq<Unit>)
    requires Lawful(CodecOf(cs))
    ensures Decode(cs, data, recover) == SourceText(n, us) <==>
              && !StartsForeign(data) && n == (if StartsUtf8(data) then 3 else 0) && (n > 0 ==> cs.Utf8Text?)
              && Parses(CodecOf(cs), us) && Bytes(us) == data[n..]
              && |us| <= 1_000_000
              && (if recover then Spans(us) <= 1024 else forall u :: u in us ==> !u.isOpaque)
  {
    hide Lawful, Recover, StrictDecode, Parses, Bytes, ForeignBom, PrefixLength, StartsForeign, StartsUtf8, CodecOf;
    MarksAreMarks(data);
    var m := PrefixLength(data);
    RecoveredExactly(CodecOf(cs), data[m..], us);
    StrictlyDecoded(CodecOf(cs), data[m..], us);
  }

  /** In UTF-8, a unit reads its bytes if it is its character's encoding, or opaque and
      an error span. */
  lemma Utf8Reads(u: Unit, ahead: seq<Byte>)
    requires u.bytes <= ahead
    ensures Reads(Utf8.UTF8, u, ahead) <==>
              if u.isOpaque then u.ch == OPAQUE_CHAR && IsErrorSpan(ahead, 0, |u.bytes|) else u.bytes == Utf8.Encode(u.ch)
  {
    SpanExactly(ahead, |u.bytes|);
    if IsErrorSpan(ahead, 0, |u.bytes|) {
      SpanIsNonAscii(ahead, |u.bytes|);
    }
    hide Utf8.ScanBytes, IsErrorSpan;
    assert forall b :: b in u.bytes ==> b in ahead[..|u.bytes|];
  }

  lemma AsciiIsEncoded(b: seq<Byte>)
    requires b != [] && b[0] < 0x80
    ensures Utf8.Encode(b[0] as char) <= b[0..]
  {
  }

  lemma SpanIsNonAscii(b: seq<Byte>, n: nat)
    requires IsErrorSpan(b, 0, n)
    ensures forall x :: x in b[..n] ==> x >= 0x80
  {
    assert b[0..] == b && b[0..n] == b[..n];
    if b[0] < 0x80 {
      AsciiIsEncoded(b);
    }
    if n > 1 {
      var c :| |b[0..n]| < |Utf8.Encode(c)| && Utf8.Encode(c)[..|b[0..n]|] == b[0..n];
      assert NonAscii(c);
      assert forall x :: x in b[..n] ==> x in Utf8.Encode(c);
    }
  }
}
