/** A whole source file: byte-order marks, strict or recovering decoding, and the
    byte range of every unit. */
module DecodeSource {
  import opened Basics
  import opened Codecs
  import opened DecodeUnits
  import Utf8

  /** UTF-8, or a declared legacy charset; `doubleByte` marks the GB family. */
  datatype Charset = Utf8Text | LegacyText(codec: Codec, doubleByte: bool)

  datatype SourceText = SourceText(prefix: nat, units: seq<Unit>) | Undecoded(code: DecodeCode)

  const BOM: seq<Byte> := [0xEF, 0xBB, 0xBF]

  function CodecOf(cs: Charset): Codec {
    if cs.Utf8Text? then Utf8.UTF8 else cs.codec
  }

  predicate StartsWith(data: seq<Byte>, head: seq<Byte>) {
    |head| <= |data| && data[..|head|] == head
  }

  /** A UTF-16 or UTF-32 byte-order mark. */
  predicate ForeignBom(data: seq<Byte>) {
    || StartsWith(data, [0xFF, 0xFE])
    || StartsWith(data, [0xFE, 0xFF])
    || StartsWith(data, [0, 0, 0xFE, 0xFF])
    || StartsWith(data, [0xFF, 0xFE, 0, 0])
  }

  function PrefixLength(data: seq<Byte>): (n: nat)
    ensures n <= |data|
  {
    if StartsWith(data, BOM) then 3 else 0
  }

  ghost function StrictDecode(c: Codec, body: seq<Byte>): Decoding {
    match c.scan(body)
    case Bad(_, _) => Failed(DecodeError)
    case Clean(t) => Done(Emit(c, 0, t, body))
  }

  /** `_decode_units`. */
  ghost function Decode(cs: Charset, data: seq<Byte>, recover: bool): SourceText
    requires Lawful(CodecOf(cs))
  {
    var n := PrefixLength(data);
    if ForeignBom(data) || (n > 0 && cs.LegacyText?) then Undecoded(DecodeError)
    else
      var c := CodecOf(cs);
      match if recover then Recover(c, data[n..], 0, 0) else StrictDecode(c, data[n..])
      case Failed(code) => Undecoded(code)
      case Decoded(us) => SourceText(n, us)
  }

  /** The byte offset of unit `i`. */
  function Offset(prefix: nat, us: seq<Unit>, i: nat): nat
    requires i <= |us|
  {
    prefix + |Bytes(us[..i])|
  }

  /** `data` is a prefix and the units' bytes, and `offsets` their ranges. */
  ghost predicate Laid(data: seq<Byte>, prefix: nat, us: seq<Unit>, offsets: seq<(nat, nat)>) {
    && prefix <= |data| && data[prefix..] == Bytes(us)
    && |offsets| == |us|
    && forall i :: 0 <= i < |us| ==> offsets[i].0 == Offset(prefix, us, i) && offsets[i].1 == Offset(prefix, us, i + 1)
  }

  lemma OffsetStep(prefix: nat, us: seq<Unit>, i: nat)
    requires i < |us|
    ensures Offset(prefix, us, i + 1) == Offset(prefix, us, i) + |us[i].bytes|
    ensures Bytes(us[..i + 1]) == Bytes(us[..i]) + us[i].bytes
  {
    assert us[..i + 1] == us[..i] + [us[i]];
    BytesAppend(us[..i], [us[i]]);
    assert Bytes([us[i]]) == us[i].bytes + Bytes([]);
  }

  lemma MiddleOf(w: seq<Byte>, x: seq<Byte>, y: seq<Byte>, z: seq<Byte>)
    ensures var all := w + (x + y + z); all[|w| + |x|..|w| + |x| + |y|] == y
  {
  }

  /** The bytes from the start of unit `a` to the start of unit `b`. */
  lemma SliceBytes(data: seq<Byte>, prefix: nat, us: seq<Unit>, a: nat, b: nat)
    requires prefix <= |data| && data[prefix..] == Bytes(us) && a <= b <= |us|
    ensures Offset(prefix, us, a) <= Offset(prefix, us, b) <= |data|
    ensures data[Offset(prefix, us, a)..Offset(prefix, us, b)] == Bytes(us[a..b])
    ensures b == |us| ==> Offset(prefix, us, b) == |data|
  {
    hide Bytes;
    ThreeParts(us, a, b);
    var x, y, z := Bytes(us[..a]), Bytes(us[a..b]), Bytes(us[b..]);
    assert data == data[..prefix] + Bytes(us);
    MiddleOf(data[..prefix], x, y, z);
  }

  lemma ThreeParts(us: seq<Unit>, a: nat, b: nat)
    requires a <= b <= |us|
    ensures Bytes(us) == Bytes(us[..a]) + Bytes(us[a..b]) + Bytes(us[b..])
    ensures Bytes(us[..b]) == Bytes(us[..a]) + Bytes(us[a..b])
    ensures b == |us| ==> Bytes(us[b..]) == []
  {
    assert b == |us| ==> us[b..] == [] && Bytes(us[b..]) == [];
    hide Bytes;
    assert us == us[..a] + us[a..b] + us[b..];
    assert us[..b] == us[..a] + us[a..b];
    BytesAppend(us[..a], us[a..b]);
    BytesAppend(us[..a] + us[a..b], us[b..]);
  }

  /** What decoding promises about a file it accepts. */
  lemma DecodeFacts(cs: Charset, data: seq<Byte>, recover: bool)
    requires Lawful(CodecOf(cs)) && Decode(cs, data, recover).SourceText?
    ensures var d := Decode(cs, data, recover);
            && d.prefix == PrefixLength(data) && (cs.LegacyText? ==> d.prefix == 0)
            && Accounts(CodecOf(cs), data[d.prefix..], d.units)
            && |d.units| <= MAX_DECODED_CHARACTERS
            && (!recover ==> forall u :: u in d.units ==> !u.isOpaque)
  {
    hide Lawful, Recover, Tile;
    var n := PrefixLength(data);
    RecoverTiles(CodecOf(cs), data[n..], 0, 0);
  }

  /** The method form: decode, lay out the byte ranges and check that they tile. */
  method DecodeFile(cs: Charset, data: seq<Byte>, recover: bool)
    returns (d: SourceText, offsets: seq<(nat, nat)>)
    requires Lawful(CodecOf(cs))
    ensures d == Decode(cs, data, recover)
    ensures d.SourceText? ==> Laid(data, d.prefix, d.units, offsets)
  {
    offsets := [];
    if ForeignBom(data) {
      return Undecoded(DecodeError), [];
    }
    var prefix := PrefixLength(data);
    if prefix > 0 && cs.LegacyText? {
      return Undecoded(DecodeError), [];
    }
    var decoding := DecodeBody(CodecOf(cs), data[prefix..], recover);
    if decoding.Failed? {
      return Undecoded(decoding.code), [];
    }
    d := SourceText(prefix, decoding.units);
    DecodeFacts(cs, data, recover);
    hide Lawful, ForeignBom, StartsWith;
    offsets := LayOut(data, prefix, decoding.units);
  }

  method DecodeBody(c: Codec, body: seq<Byte>, recover: bool) returns (d: Decoding)
    requires Lawful(c)
    ensures d == if recover then Recover(c, body, 0, 0) else StrictDecode(c, body)
  {
    hide Lawful, Tile;
    if recover {
      d := ScanRecovering(c, body, RECOVERY_FEED_BYTES);
      return;
    }
    var s := c.scan(body);
    if s.Bad? {
      return Failed(DecodeError);
    }
    assert body[0..0 + |body|] == body;
    var us := EmitSegment(c, body, body, 0, s.text, 0);
    return Done(us);
  }

  /** The ranges the mapping loops recorded, and the final check that each starts
      where the one before ended and the last ends with the data: it always holds. */
  method LayOut(data: seq<Byte>, prefix: nat, units: seq<Unit>) returns (offsets: seq<(nat, nat)>)
    requires prefix <= |data| && data[prefix..] == Bytes(units)
    ensures Laid(data, prefix, units, offsets)
  {
    offsets := [];
    var position := prefix;
    var i := 0;
    while i < |units|
      invariant 0 <= i <= |units| && |offsets| == i && position == Offset(prefix, units, i)
      invariant forall j :: 0 <= j < i ==> offsets[j].0 == Offset(prefix, units, j) && offsets[j].1 == Offset(prefix, units, j + 1)
    {
      OffsetStep(prefix, units, i);
      var end := position + |units[i].bytes|;
      offsets := offsets + [(position, end)];
      position := end;
      i := i + 1;
    }
    var expected := prefix;
    for k := 0 to |offsets|
      invariant expected == Offset(prefix, units, k)
    {
      assert offsets[k].0 == expected;
      expected := offsets[k].1;
    }
    SliceBytes(data, prefix, units, |units|, |units|);
    assert expected == |data|;
  }
}
