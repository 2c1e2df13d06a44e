/** Which files recovering decoding refuses for a span, and with which code. */
module DecodeRefused {
  import opened Basics
  import opened Codecs
  import opened DecodeUnits
  import opened DecodeExact

  /** The units read their bytes in front of further ones. */
  ghost predicate ReadsOn(c: Codec, us: seq<Unit>, ahead: seq<Byte>) {
    forall i :: 0 <= i < |us| ==> Reads(c, us[i], Bytes(us[i..]) + ahead)
  }

  lemma ReadsRest(c: Codec, us: seq<Unit>, ahead: seq<Byte>)
    requires us != [] && ReadsOn(c, us, ahead)
    ensures ReadsOn(c, us[1..], ahead) && Reads(c, us[0], us[0].bytes + (Bytes(us[1..]) + ahead))
  {
    hide Reads;
    assert us[0..] == us;
    assert Bytes(us) + ahead == us[0].bytes + (Bytes(us[1..]) + ahead);
    forall i | 0 <= i < |us[1..]|
      ensures Reads(c, us[1..][i], Bytes(us[1..][i..]) + ahead)
    {
      assert us[1..][i] == us[i + 1] && us[1..][i..] == us[i + 1..];
    }
  }

  lemma ReadsFront(c: Codec, u: Unit, us: seq<Unit>, ahead: seq<Byte>)
    requires ReadsOn(c, us, ahead) && Reads(c, u, u.bytes + (Bytes(us) + ahead))
    ensures ReadsOn(c, [u] + us, ahead)
  {
    hide Reads;
    var all := [u] + us;
    forall i | 0 <= i < |all|
      ensures Reads(c, all[i], Bytes(all[i..]) + ahead)
    {
      if i == 0 {
        assert all[0..] == all && all[1..] == us;
        assert u.bytes + (Bytes(us) + ahead) == u.bytes + Bytes(us) + ahead;
      } else {
        assert all[i..] == us[i - 1..] && all[i] == us[i - 1];
      }
    }
  }

  /** Characters in front of units that read on. */
  lemma {:induction false} ReadsBehind(c: Codec, pre: seq<Unit>, us: seq<Unit>, ahead: seq<Byte>)
    requires ReadsOn(c, us, ahead) && forall u :: u in pre ==> !u.isOpaque && c.encode(u.ch) == Some(u.bytes)
    ensures ReadsOn(c, pre + us, ahead) && Spans(pre + us) == Spans(us)
  {
    hide *;
    if pre == [] {
      assert pre + us == us;
    } else {
      assert pre[0] in pre;
      ReadsBehind(c, pre[1..], us, ahead);
      FirstOfBoth(pre, us);
      CharacterReads(c, pre[0], pre[0].bytes + (Bytes(pre[1..] + us) + ahead));
      ReadsFront(c, pre[0], pre[1..] + us, ahead);
      FirstUnit(pre + us);
    }
  }

  /** Decoding goes on behind units that read their bytes. */
  lemma {:induction false} RecoverBehind(c: Codec, us: seq<Unit>, ahead: seq<Byte>, count: nat, spans: nat)
    requires Lawful(c) && ReadsOn(c, us, ahead)
    requires count + |us| <= MAX_DECODED_CHARACTERS && spans + Spans(us) <= MAX_INVALID_SPANS
    ensures Recover(c, Bytes(us) + ahead, count, spans) ==
            Then(us, Recover(c, ahead, count + |us|, spans + Spans(us)))
    decreases |us|
  {
    hide *;
    if us == [] {
      NothingInFront(c, ahead, count, spans);
    } else {
      FirstUnit(us);
      ReadsRest(c, us, ahead);
      var u, rest := us[0], us[1..];
      assert u.bytes + Bytes(rest) + ahead == u.bytes + (Bytes(rest) + ahead);
      RecoverBehind(c, rest, ahead, count + 1, spans + (if u.isOpaque then 1 else 0));
      if u.isOpaque {
        OpaqueOn(c, u, Bytes(rest) + ahead, count, spans);
      } else {
        CharacterOn(c, u, Bytes(rest) + ahead, count, spans);
      }
      ThenThen([u], rest, Recover(c, ahead, count + |us|, spans + Spans(us)));
    }
  }

  lemma NothingInFront(c: Codec, ahead: seq<Byte>, count: nat, spans: nat)
    requires Lawful(c)
    ensures Recover(c, Bytes([]) + ahead, count, spans) == Then([], Recover(c, ahead, count + 0, spans + Spans([])))
  {
    hide *;
    NoUnits();
    ThenNothing(Recover(c, ahead, count, spans));
    assert [] + ahead == ahead;
  }

  lemma NoUnits()
    ensures Bytes([]) == [] && Spans([]) == 0
  {
  }

  lemma ThenNothing(r: Decoding)
    ensures Then([], r) == r
  {
    assert r.Decoded? ==> [] + r.units == r.units;
  }

  lemma CharacterOn(c: Codec, u: Unit, rest: seq<Byte>, count: nat, spans: nat)
    requires Lawful(c) && !u.isOpaque && Reads(c, u, u.bytes + rest) && count < MAX_DECODED_CHARACTERS
    ensures Recover(c, u.bytes + rest, count, spans) == Then([u], Recover(c, rest, count + 1, spans))
  {
    hide Lawful, Recover, Emit;
    OneCharacter(c, u, count);
    RecoverRestarts(c, u.bytes, rest, count, spans);
  }

  lemma OpaqueOn(c: Codec, u: Unit, rest: seq<Byte>, count: nat, spans: nat)
    requires Lawful(c) && u.isOpaque && Reads(c, u, u.bytes + rest)
    requires count < MAX_DECODED_CHARACTERS && spans < MAX_INVALID_SPANS
    ensures Recover(c, u.bytes + rest, count, spans) == Then([u], Recover(c, rest, count + 1, spans + 1))
  {
    hide *;
    OpaqueReads(c, u, u.bytes + rest);
    RecoverError(c, u.bytes + rest, 0, |u.bytes|, count, spans);
    CutHere(u.bytes, rest);
    EmitNothing(c, count);
    StepOn(u, count, spans, Recover(c, rest, count + 1, spans + 1));
  }

  lemma StepOn(u: Unit, count: nat, spans: nat, rest: Decoding)
    requires u == Unit(OPAQUE_CHAR, u.bytes, true) && AllNonAscii(u.bytes)
    requires count < MAX_DECODED_CHARACTERS && spans < MAX_INVALID_SPANS
    ensures Step(Some([]), u.bytes, count, spans, rest) == Then([u], rest)
    ensures Len(Some([])) == 0
  {
    assert [] + [u] == [u];
  }

  // Where decoding stops

  /** Units read the body up to an undecodable span of `n` bytes. */
  ghost predicate StopsAt(c: Codec, body: seq<Byte>, us: seq<Unit>, ahead: seq<Byte>, n: nat) {
    && body == Bytes(us) + ahead && ReadsOn(c, us, ahead) && c.scan(ahead) == Bad(0, n) && n <= |ahead|
  }

  predicate HoldsAscii(span: seq<Byte>) {
    exists b :: b in span && b < 128
  }

  /** What is told of a span, behind units that keep the limits. */
  ghost predicate Told(code: DecodeCode, c: Codec, body: seq<Byte>, count: nat, spans: nat, us: seq<Unit>, ahead: seq<Byte>, n: nat) {
    && StopsAt(c, body, us, ahead, n)
    && count + |us| <= MAX_DECODED_CHARACTERS && (Spans(us) > 0 ==> spans + Spans(us) <= MAX_INVALID_SPANS)
    && match code
       case InvalidSpanAscii => HoldsAscii(ahead[..n])
       case RecoveryBoundExceeded => !HoldsAscii(ahead[..n]) && spans + Spans(us) >= MAX_INVALID_SPANS
       case DecodeError => false
  }

  lemma StepStops(pre: Option<seq<Unit>>, span: seq<Byte>, count: nat, spans: nat, rest: Decoding)
    requires span != []
    ensures var r := Step(pre, span, count, spans, rest);
            if pre.None? then r == Failed(DecodeError)
            else if HoldsAscii(span) then r == Failed(InvalidSpanAscii)
            else if spans >= MAX_INVALID_SPANS then r == Failed(RecoveryBoundExceeded)
            else if count + |pre.value| + 1 > MAX_DECODED_CHARACTERS then r == Failed(DecodeError)
            else rest.Failed? ==> r == rest
  {
  }

  lemma FirstSpan(c: Codec, ahead: seq<Byte>, n: nat, count: nat, spans: nat)
    requires Lawful(c) && c.scan(ahead) == Bad(0, n) && count <= MAX_DECODED_CHARACTERS
    ensures 0 < n <= |ahead|
    ensures HoldsAscii(ahead[..n]) ==> Recover(c, ahead, count, spans) == Failed(InvalidSpanAscii)
    ensures !HoldsAscii(ahead[..n]) && spans >= MAX_INVALID_SPANS ==>
              Recover(c, ahead, count, spans) == Failed(RecoveryBoundExceeded)
  {
    hide *;
    RecoverError(c, ahead, 0, n, count, spans);
    CutHere(ahead[..n], ahead[n..]);
    assert ahead[..0] == [] && ahead[0..n] == ahead[..n];
    EmitNothing(c, count);
    StepStops(Some([]), ahead[..n], count, spans, Recover(c, ahead[n..], count + Len(Some([])) + 1, spans + 1));
  }

  lemma SpanIsTold(code: DecodeCode, c: Codec, body: seq<Byte>, count: nat, spans: nat, us: seq<Unit>, ahead: seq<Byte>, n: nat)
    requires Lawful(c) && Told(code, c, body, count, spans, us, ahead, n) && spans <= MAX_INVALID_SPANS
    ensures Recover(c, body, count, spans) == Failed(code)
  {
    hide Lawful, Recover, HoldsAscii, ReadsOn, Bytes, Spans;
    NoSpansIsLess(us, spans);
    RecoverBehind(c, us, ahead, count, spans);
    FirstSpan(c, ahead, n, count + |us|, spans + Spans(us));
  }

  lemma NoSpansIsLess(us: seq<Unit>, spans: nat)
    requires spans <= MAX_INVALID_SPANS && (Spans(us) > 0 ==> spans + Spans(us) <= MAX_INVALID_SPANS)
    ensures spans + Spans(us) <= MAX_INVALID_SPANS
  {
  }

  lemma {:induction false} FailureIsTold(c: Codec, body: seq<Byte>, count: nat, spans: nat)
    returns (us: seq<Unit>, ahead: seq<Byte>, n: nat)
    requires Lawful(c) && spans <= MAX_INVALID_SPANS
    requires Recover(c, body, count, spans).Failed? && Recover(c, body, count, spans) != Failed(DecodeError)
    ensures Told(Recover(c, body, count, spans).code, c, body, count, spans, us, ahead, n)
    decreases |body|
  {
    hide *;
    if c.scan(body).Clean? {
      CleanIsNotTold(c, body, count, spans);
    }
    var (s, e) := (c.scan(body).start, c.scan(body).end);
    RecoverError(c, body, s, e, count, spans);
    ErrorBehind(c, body, s, e);
    var pre := Emit(c, count, c.scan(body[..s]).text, body[..s]);
    StepStops(pre, body[s..e], count, spans, Recover(c, body[e..], count + Len(pre) + 1, spans + 1));
    EmitFacts(c, count, c.scan(body[..s]).text, body[..s]);
    EmitCounts(c, count, c.scan(body[..s]).text, body[..s]);
    if HoldsAscii(body[s..e]) || spans >= MAX_INVALID_SPANS {
      us, ahead, n := pre.value, body[s..], e - s;
      HereIsTold(c, body, s, e, count, spans, pre.value, Recover(c, body, count, spans).code);
    } else {
      StepGoes(pre, body[s..e], count, spans, Recover(c, body[e..], count + Len(pre) + 1, spans + 1));
      var more;
      more, ahead, n := FailureIsTold(c, body[e..], count + |pre.value| + 1, spans + 1);
      us := pre.value + [Unit(OPAQUE_CHAR, body[s..e], true)] + more;
      LaterIsTold(c, body, s, e, count, spans, pre.value, more, ahead, n, Recover(c, body, count, spans).code);
    }
  }

  lemma CleanIsNotTold(c: Codec, body: seq<Byte>, count: nat, spans: nat)
    requires Lawful(c) && c.scan(body).Clean? && Recover(c, body, count, spans).Failed?
    ensures Recover(c, body, count, spans) == Failed(DecodeError)
  {
    RecoverClean(c, body, count, spans);
    hide Lawful, Recover, Emit;
  }

  lemma EmitCounts(c: Codec, count: nat, text: string, seg: seq<Byte>)
    ensures var r := Emit(c, count, text, seg); r.Some? ==> count + |r.value| <= MAX_DECODED_CHARACTERS
  {
    hide Tile;
  }

  lemma StepGoes(pre: Option<seq<Unit>>, span: seq<Byte>, count: nat, spans: nat, rest: Decoding)
    requires span != [] && !HoldsAscii(span) && spans < MAX_INVALID_SPANS
    requires Step(pre, span, count, spans, rest).Failed? && Step(pre, span, count, spans, rest) != Failed(DecodeError)
    ensures pre.Some? && Len(pre) == |pre.value| && Step(pre, span, count, spans, rest) == rest && AllNonAscii(span)
    ensures count + |pre.value| + 1 <= MAX_DECODED_CHARACTERS
  {
    StepStops(pre, span, count, spans, rest);
  }

  lemma {:induction false} NoOpaque(c: Codec, us: seq<Unit>, ahead: seq<Byte>)
    requires forall u :: u in us ==> !u.isOpaque && c.encode(u.ch) == Some(u.bytes)
    ensures ReadsOn(c, us, ahead) && Spans(us) == 0
  {
    assert us + [] == us;
    ReadsBehind(c, us, [], ahead);
  }

  lemma HereIsTold(c: Codec, body: seq<Byte>, s: nat, e: nat, count: nat, spans: nat, pre: seq<Unit>, code: DecodeCode)
    requires s < e <= |body| && c.scan(body[s..]) == Bad(0, e - s) && Bytes(pre) == body[..s]
    requires forall u :: u in pre ==> !u.isOpaque && c.encode(u.ch) == Some(u.bytes)
    requires count + |pre| <= MAX_DECODED_CHARACTERS
    requires if HoldsAscii(body[s..e]) then code == InvalidSpanAscii else spans >= MAX_INVALID_SPANS && code == RecoveryBoundExceeded
    ensures Told(code, c, body, count, spans, pre, body[s..], e - s)
  {
    NoOpaque(c, pre, body[s..]);
    CutBody(body, s, e);
    hide Bytes, ReadsOn, HoldsAscii, Spans;
  }

  lemma CutBody(body: seq<Byte>, s: nat, e: nat)
    requires s < e <= |body|
    ensures body == body[..s] + body[s..] && body[s..] == body[s..e] + body[e..] && body[s..][..e - s] == body[s..e]
  {
  }

  lemma LaterIsTold(c: Codec, body: seq<Byte>, s: nat, e: nat, count: nat, spans: nat, pre: seq<Unit>,
                    more: seq<Unit>, ahead: seq<Byte>, n: nat, code: DecodeCode)
    requires s < e <= |body| && c.scan(body[s..]) == Bad(0, e - s) && Bytes(pre) == body[..s] && AllNonAscii(body[s..e])
    requires forall u :: u in pre ==> !u.isOpaque && c.encode(u.ch) == Some(u.bytes)
    requires spans < MAX_INVALID_SPANS && Told(code, c, body[e..], count + |pre| + 1, spans + 1, more, ahead, n)
    ensures Told(code, c, body, count, spans, pre + [Unit(OPAQUE_CHAR, body[s..e], true)] + more, ahead, n)
  {
    var u := Unit(OPAQUE_CHAR, body[s..e], true);
    hide Bytes, ReadsOn, HoldsAscii, Spans, AllNonAscii;
    LaterReads(c, body, s, e, pre, more, ahead);
  }

  lemma LaterReads(c: Codec, body: seq<Byte>, s: nat, e: nat, pre: seq<Unit>, more: seq<Unit>, ahead: seq<Byte>)
    requires s < e <= |body| && c.scan(body[s..]) == Bad(0, e - s) && Bytes(pre) == body[..s] && AllNonAscii(body[s..e])
    requires forall u :: u in pre ==> !u.isOpaque && c.encode(u.ch) == Some(u.bytes)
    requires body[e..] == Bytes(more) + ahead && ReadsOn(c, more, ahead)
    ensures var us := pre + [Unit(OPAQUE_CHAR, body[s..e], true)] + more;
            ReadsOn(c, us, ahead) && body == Bytes(us) + ahead && Spans(us) == 1 + Spans(more)
  {
    var u := Unit(OPAQUE_CHAR, body[s..e], true);
    hide *;
    CutBody(body, s, e);
    OpaqueIsRead(c, u, Bytes(more) + ahead);
    ReadsFront(c, u, more, ahead);
    ReadsBehind(c, pre, [u] + more, ahead);
    OpaqueInFront(u, more);
    JoinBytes(pre, u, more, ahead);
  }

  lemma OpaqueIsRead(c: Codec, u: Unit, rest: seq<Byte>)
    requires u == Unit(OPAQUE_CHAR, u.bytes, true) && AllNonAscii(u.bytes) && c.scan(u.bytes + rest) == Bad(0, |u.bytes|)
    ensures Reads(c, u, u.bytes + rest)
  {
  }

  lemma OpaqueInFront(u: Unit, more: seq<Unit>)
    requires u.isOpaque
    ensures Bytes([u] + more) == u.bytes + Bytes(more) && Spans([u] + more) == 1 + Spans(more)
  {
    assert ([u] + more)[1..] == more;
  }

  lemma JoinBytes(pre: seq<Unit>, u: Unit, more: seq<Unit>, ahead: seq<Byte>)
    ensures pre + [u] + more == pre + ([u] + more)
    ensures Bytes([u] + more) == u.bytes + Bytes(more) ==>
              Bytes(pre + [u] + more) + ahead == Bytes(pre) + (u.bytes + (Bytes(more) + ahead))
  {
    hide Bytes;
    assert pre + [u] + more == pre + ([u] + more);
    BytesAppend(pre, [u] + more);
    var (x, y, z) := (Bytes(pre), u.bytes, Bytes(more));
    assert x + (y + z) + ahead == x + (y + (z + ahead));
  }

  /** A body is refused for an ASCII byte in a span, or for a span too many, exactly if
      that is the first thing decoding cannot read; any other refusal is DECODE_ERROR. */
  lemma RefusedExactly(c: Codec, body: seq<Byte>)
    requires Lawful(c)
    ensures Recover(c, body, 0, 0) == Failed(InvalidSpanAscii) <==>
              exists us, ahead, n :: StopsAt(c, body, us, ahead, n) && |us| <= 1_000_000 && Spans(us) <= 1024 && HoldsAscii(ahead[..n])
    ensures Recover(c, body, 0, 0) == Failed(RecoveryBoundExceeded) <==>
              exists us, ahead, n :: StopsAt(c, body, us, ahead, n) && |us| <= 1_000_000 && Spans(us) == 1024 && !HoldsAscii(ahead[..n])
  {
    hide Lawful, Recover, HoldsAscii, Spans, ReadsOn, Bytes;
    var r := Recover(c, body, 0, 0);
    if r == Failed(InvalidSpanAscii) || r == Failed(RecoveryBoundExceeded) {
      var us, ahead, n := FailureIsTold(c, body, 0, 0);
    }
    if us, ahead, n :| StopsAt(c, body, us, ahead, n) && |us| <= 1_000_000 && Spans(us) <= 1024 && HoldsAscii(ahead[..n]) {
      SpanIsTold(InvalidSpanAscii, c, body, 0, 0, us, ahead, n);
    }
    if us, ahead, n :| StopsAt(c, body, us, ahead, n) && |us| <= 1_000_000 && Spans(us) == 1024 && !HoldsAscii(ahead[..n]) {
      SpanIsTold(RecoveryBoundExceeded, c, body, 0, 0, us, ahead, n);
    }
  }
}
