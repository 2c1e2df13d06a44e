/** Line endings: their counts and the final one are the same in the copy. */
module Newlines {
  import opened Basics
  import opened Codecs
  import opened DecodeUnits
  import opened DecodeSource
  import opened ScanState
  import opened Output
  import opened Analyze
  import opened Recheck
  import Utf8

  datatype Ending = CrLf | Lf | Cr | NoEnding

  datatype Info = Info(crlf: nat, lf: nat, cr: nat, final: Ending)

  datatype Tally = Tally(crlf: nat, lf: nat, cr: nat)

  /** The line endings of some bytes; CR LF counts once. */
  function CountEndings(b: seq<Byte>): Tally {
    if b == [] then Tally(0, 0, 0)
    else if b[0] == 13 then
      if |b| > 1 && b[1] == 10 then
        var t := CountEndings(b[2..]); t.(crlf := t.crlf + 1)
      else
        var t := CountEndings(b[1..]); t.(cr := t.cr + 1)
    else if b[0] == 10 then
      var t := CountEndings(b[1..]); t.(lf := t.lf + 1)
    else CountEndings(b[1..])
  }

  function FinalEnding(b: seq<Byte>): Ending {
    var n := |b|;
    if n >= 2 && b[n - 2] == 13 && b[n - 1] == 10 then CrLf
    else if n >= 1 && b[n - 1] == 10 then Lf
    else if n >= 1 && b[n - 1] == 13 then Cr
    else NoEnding
  }

  function EndingsOf(b: seq<Byte>): Info {
    var t := CountEndings(b);
    Info(t.crlf, t.lf, t.cr, FinalEnding(b))
  }

  function Plus(a: Tally, b: Tally): Tally {
    Tally(a.crlf + b.crlf, a.lf + b.lf, a.cr + b.cr)
  }

  /** `_newline_info`. */
  method NewlineInfo(data: seq<Byte>) returns (info: Info)
    ensures info == EndingsOf(data)
  {
    var crlf, lf, cr, index := 0, 0, 0, 0;
    while index < |data|
      invariant 0 <= index <= |data|
      invariant CountEndings(data) == Plus(Tally(crlf, lf, cr), CountEndings(data[index..]))
    {
      var byte := data[index];
      if byte == 13 {
        if index + 1 < |data| && data[index + 1] == 10 {
          assert data[index..][2..] == data[index + 2..];
          crlf := crlf + 1;
          index := index + 2;
          continue;
        }
        cr := cr + 1;
        assert data[index..][1..] == data[index + 1..];
        index := index + 1;
        continue;
      }
      if byte == 10 {
        lf := lf + 1;
      }
      assert data[index..][1..] == data[index + 1..];
      index := index + 1;
    }
    return Info(crlf, lf, cr, FinalEnding(data));
  }

  // A unit is a line ending byte or hides none

  predicate IsEnding(b: Byte) {
    b == 13 || b == 10
  }

  predicate Visible(u: Unit) {
    && u.bytes != []
    && (|u.bytes| == 1 || forall b :: b in u.bytes ==> !IsEnding(b))
  }

  /** One byte per unit: the line ending, or 0. */
  function Class(u: Unit): Byte {
    if u.bytes == [13] then 13 else if u.bytes == [10] then 10 else 0
  }

  function Classes(us: seq<Unit>): (r: seq<Byte>)
    ensures |r| == |us|
  {
    seq(|us|, i requires 0 <= i < |us| => Class(us[i]))
  }

  predicate AllVisible(us: seq<Unit>) {
    forall i :: 0 <= i < |us| ==> Visible(us[i])
  }

  lemma {:induction false} SkipOthers(w: seq<Byte>, rest: seq<Byte>)
    requires forall b :: b in w ==> !IsEnding(b)
    ensures CountEndings(w + rest) == CountEndings(rest)
    decreases |w|
  {
    if w == [] {
      assert w + rest == rest;
    } else {
      assert w[0] in w && (w + rest)[1..] == w[1..] + rest;
      SkipOthers(w[1..], rest);
    }
  }

  lemma FirstByte(us: seq<Unit>)
    requires AllVisible(us) && us != []
    ensures Bytes(us) == us[0].bytes + Bytes(us[1..]) && Bytes(us) != []
    ensures Bytes(us)[0] == us[0].bytes[0]
    ensures IsEnding(Bytes(us)[0]) ==> us[0].bytes == [Bytes(us)[0]]
    ensures Classes(us) == [Class(us[0])] + Classes(us[1..])
  {
    assert Visible(us[0]);
    assert us[0].bytes[0] in us[0].bytes;
  }

  lemma {:induction false} CountByUnit(us: seq<Unit>)
    requires AllVisible(us)
    ensures CountEndings(Bytes(us)) == CountEndings(Classes(us))
    decreases |us|
  {
    if us != [] {
      FirstByte(us);
      assert Visible(us[0]);
      CountByUnit(us[1..]);
      hide Bytes, AllVisible, CountEndings;
      if us[0].bytes == [13] && |us| > 1 {
        FirstByte(us[1..]);
        if us[1].bytes == [10] {
          CountByUnit(us[2..]);
          assert us[1..][1..] == us[2..];
          assert Bytes(us)[2..] == Bytes(us[2..]) && Classes(us)[2..] == Classes(us[2..]);
        }
      }
      OneUnitCounts(us[0].bytes, Bytes(us[1..]), Classes(us[1..]));
    }
  }

  predicate OpensWithLf(b: seq<Byte>) {
    |b| > 0 && b[0] == 10
  }

  /** One unit in front of a rest, where CR looks one byte ahead. */
  lemma OneUnitCounts(w: seq<Byte>, rest: seq<Byte>, classes: seq<Byte>)
    requires w != [] && (|w| == 1 || forall b :: b in w ==> !IsEnding(b))
    requires CountEndings(rest) == CountEndings(classes)
    requires w == [13] ==> (OpensWithLf(rest) <==> OpensWithLf(classes))
    requires w == [13] && OpensWithLf(rest) ==> CountEndings(rest[1..]) == CountEndings(classes[1..])
    ensures var c := if w == [13] then 13 else if w == [10] then 10 else 0;
            CountEndings(w + rest) == CountEndings([c] + classes)
  {
    if |w| == 1 {
      CountFront(w[0], rest);
      assert w == [w[0]];
      CountFront(if IsEnding(w[0]) then w[0] else 0, classes);
    } else {
      SkipOthers(w, rest);
      CountFront(0, classes);
    }
  }

  lemma CountFront(c: Byte, rest: seq<Byte>)
    ensures CountEndings([c] + rest) ==
            if c == 13 && OpensWithLf(rest) then Plus(Tally(1, 0, 0), CountEndings(rest[1..]))
            else if c == 13 then Plus(Tally(0, 0, 1), CountEndings(rest))
            else if c == 10 then Plus(Tally(0, 1, 0), CountEndings(rest))
            else CountEndings(rest)
  {
    var all := [c] + rest;
    assert all[1..] == rest && (|rest| > 0 ==> all[2..] == rest[1..]);
  }

  lemma BytesOfOne(u: Unit)
    ensures Bytes([u]) == u.bytes
  {
    assert Bytes([u]) == u.bytes + Bytes([]);
  }

  lemma LastByte(us: seq<Unit>)
    requires AllVisible(us) && us != []
    ensures var b, u := Bytes(us), us[|us| - 1];
            && b == Bytes(us[..|us| - 1]) + u.bytes
            && b != [] && b[|b| - 1] == u.bytes[|u.bytes| - 1]
            && (IsEnding(b[|b| - 1]) ==> u.bytes == [b[|b| - 1]])
  {
    var u := us[|us| - 1];
    assert us == us[..|us| - 1] + [u];
    BytesAppend(us[..|us| - 1], [u]);
    BytesOfOne(u);
    hide Bytes;
    assert Visible(u) && u.bytes[|u.bytes| - 1] in u.bytes;
  }

  lemma FinalByUnit(us: seq<Unit>)
    requires AllVisible(us)
    ensures FinalEnding(Bytes(us)) == FinalEnding(Classes(us))
  {
    if us != [] {
      LastByte(us);
      var n := |us| - 1;
      if n > 0 {
        LastByte(us[..n]);
        assert us[..n][n - 1] == us[n - 1];
      }
      assert Visible(us[n]) && (n > 0 ==> Visible(us[n - 1]));
      hide Bytes, AllVisible, Visible;
      FinalOfTwo(Bytes(us[..n]), us[n].bytes);
      ClassFinal(us);
    }
  }

  lemma ClassFinal(us: seq<Unit>)
    requires us != []
    ensures var n := |us| - 1;
            FinalEnding(Classes(us)) ==
            if us[n].bytes == [10] && n > 0 && us[n - 1].bytes == [13] then CrLf
            else if us[n].bytes == [10] then Lf
            else if us[n].bytes == [13] then Cr else NoEnding
  {
  }

  /** The final ending of two parts is decided by their last bytes. */
  lemma FinalOfTwo(a: seq<Byte>, b: seq<Byte>)
    requires b != []
    ensures FinalEnding(a + b) ==
            if b == [10] && a != [] && a[|a| - 1] == 13 then CrLf
            else if |b| >= 2 && b[|b| - 2] == 13 && b[|b| - 1] == 10 then CrLf
            else if b[|b| - 1] == 10 then Lf
            else if b[|b| - 1] == 13 then Cr else NoEnding
  {
    var c := a + b;
    assert c[|c| - 1] == b[|b| - 1];
    if |c| >= 2 {
      assert c[|c| - 2] == if |b| >= 2 then b[|b| - 2] else a[|a| - 1];
    }
  }

  // The copy

  /** No character outside ASCII is encoded with a line ending byte in it. */
  ghost predicate HidesNoEnding(c: Codec) {
    forall ch: char, p: seq<Byte> :: NonAscii(ch) && c.encode(ch) == Some(p) ==> forall b :: b in p ==> !IsEnding(b)
  }

  lemma Utf8HidesNoEnding()
    ensures HidesNoEnding(Utf8.UTF8)
  {
  }

  lemma DecodedIsVisible(c: Codec, u: Unit)
    requires Lawful(c) && HidesNoEnding(c)
    requires if u.isOpaque then u.ch == OPAQUE_CHAR && AllNonAscii(u.bytes) else c.encode(u.ch) == Some(u.bytes)
    ensures Visible(u)
    ensures !u.isOpaque && !NonAscii(u.ch) ==> u.bytes == [u.ch as int]
    ensures NonAscii(u.ch) || u.isOpaque ==> Class(u) == 0
  {
    if !u.isOpaque {
      EncodingDecodes(c, u.ch, u.bytes);
      OnlyEmptyIsEmpty(c, u.bytes);
      if !NonAscii(u.ch) {
        AsciiIsItself(c, u.ch);
      } else {
        assert forall b :: b in u.bytes ==> !IsEnding(b);
      }
    }
    hide Lawful, HidesNoEnding;
    if u.bytes == [13] || u.bytes == [10] {
      assert u.bytes[0] in u.bytes;
    }
  }

  /** Rewriting a unit keeps its class. */
  lemma RewriteKeepsClass(c: Codec, u: Unit, replace: bool)
    requires Lawful(c) && HidesNoEnding(c)
    requires if u.isOpaque then u.ch == OPAQUE_CHAR && AllNonAscii(u.bytes) else c.encode(u.ch) == Some(u.bytes)
    ensures Visible(u) && Visible(Rewrite(u, replace)) && Class(Rewrite(u, replace)) == Class(u)
  {
    DecodedIsVisible(c, u);
    hide Lawful, HidesNoEnding;
  }

  /** Units whose line endings show, behind a byte-order mark or nothing. */
  lemma EndingsByUnit(data: seq<Byte>, us: seq<Unit>)
    requires AllVisible(us)
    ensures EndingsOf(Head(data) + Bytes(us)) == EndingsOf((if PrefixLength(data) == 3 then [0] else []) + Classes(us))
  {
    if PrefixLength(data) == 3 {
      var mark := Unit('\U{FEFF}', BOM, false);
      assert Bytes([mark] + us) == BOM + Bytes(us) by {
        assert ([mark] + us)[1..] == us;
      }
      assert Head(data) == BOM;
      assert Classes([mark] + us) == [0] + Classes(us);
      CountByUnit([mark] + us);
      FinalByUnit([mark] + us);
    } else {
      assert Head(data) + Bytes(us) == Bytes(us) && [] + Classes(us) == Classes(us);
      CountByUnit(us);
      FinalByUnit(us);
    }
  }

  /** The copy has the line endings of its source: as many of each kind, and the same
      at its end. */
  lemma LineEndingsAreKept(cfg: Config, data: seq<Byte>, replace: bool)
    requires Clear(cfg, data, replace) && HidesNoEnding(CodecOf(cfg.charset))
    ensures EndingsOf(CopyBytes(cfg, data, replace)) == EndingsOf(data)
  {
    hide Lawful, FirstPass, HidesNoEnding, Rewrite, Bytes;
    PassIsSound(cfg, data, replace);
    DecodeFacts(cfg.charset, data, replace);
    var us, out := FirstPass(cfg, data, replace).decoded.units, Copy(cfg, data, replace);
    forall i | 0 <= i < |us|
      ensures Visible(us[i]) && Visible(out[i]) && Class(us[i]) == Class(out[i])
    {
      assert us[i] in us;
      RewriteKeepsClass(CodecOf(cfg.charset), us[i], replace);
    }
    assert Classes(us) == Classes(out);
    EndingsByUnit(data, us);
    EndingsByUnit(data, out);
    assert Head(data) + Bytes(us) == data;
  }
}
